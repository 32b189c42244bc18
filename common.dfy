/** Shared wrappers: an optional value (a nullable column or an absent key) and the
    outcome of an action, which either yields a value or throws one of the errors the
    actions and the database can raise. */
module Common {

  /** `None` stands for SQL NULL, for a JavaScript `undefined`, or for a key that a
      submitted object does not carry. */
  datatype Option<+T> = None | Some(value: T)

  /** A nullable field of a submitted object where leaving it out and sending `null`
      differ: an update skips a field left out but writes NULL for an explicit `null`,
      and an insert stores NULL for either. */
  datatype Field<+T> = Omitted | Given(value: Option<T>) {

    /** The column after an update writes this field over `stored`. */
    function Over(stored: Option<T>): Option<T> {
      if Omitted? then stored else value
    }

    /** The column an insert stores. */
    function Stored(): Option<T> {
      if Omitted? then None else value
    }
  }

  /** The errors an action can end with. The first six are thrown by the actions
      themselves; the last four are raised by the database or the query builder. */
  datatype Error =
    | AccountSetNotFound(id: int)   // "AccountSet with id ${id} not found"
    | AccountIdRequired             // "Account id is required for update"
    | PostNotFound                  // "Post not found"
    | AccountSetMissing             // "Account set is missing"
    | InvalidPostStatus             // "Invalid post status"
    | StatusUndefined               // reading `isPosted` of an undefined status row
    | UniqueViolation(table: string)
    | ForeignKeyViolation(table: string)
    | ValueTooLong(table: string)
    | EmptyValues                   // an insert handed an empty list of rows

  /** A value, or the error that was thrown instead of returning it. */
  datatype Result<+T> = Ok(value: T) | Err(error: Error) {

    predicate IsFailure() {
      Err?
    }

    function PropagateFailure<U>(): Result<U>
      requires Err?
    {
      Err(error)
    }

    function Extract(): T
      requires Ok?
    {
      value
    }
  }
}
