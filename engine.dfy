/** What the database does for the single statements the actions issue: a scan that
    returns matching keys in an order of its choosing, multi-row inserts that number rows
    from a serial sequence unless an id is supplied and reject a taken key, a delete that
    the foreign keys can veto, and the per-row account update. */
module Engine {
  import opened Common
  import opened Schema

  /** A scan without ORDER BY: every key of `keys` once, in an order the database picks. */
  method Enumerate(keys: set<int>) returns (xs: seq<int>)
    ensures forall x :: x in xs <==> x in keys
    ensures forall i :: 0 <= i < |xs| ==> xs[i] in keys
    ensures forall i, j :: 0 <= i < j < |xs| ==> xs[i] != xs[j]
    ensures |xs| == |keys|
  {
    xs := [];
    var rest := keys;
    while |rest| > 0
      invariant rest <= keys
      invariant forall y :: y in xs <==> y in keys && y !in rest
      invariant forall i, j :: 0 <= i < j < |xs| ==> xs[i] != xs[j]
      invariant |xs| + |rest| == |keys|
      decreases rest
    {
      NonEmptyHasElement(rest);
      var x :| x in rest;
      xs := xs + [x];
      rest := rest - {x};
    }
  }

  lemma NonEmptyHasElement(s: set<int>)
    requires |s| > 0
    ensures exists x :: x in s
  {
    if forall x :: x !in s {
      assert false;
    }
  }

  /** A list of distinct keys has as many entries as the set of keys it lists. */
  lemma {:induction false} DistinctCount(xs: seq<int>, s: set<int>)
    requires forall x :: x in xs <==> x in s
    requires forall i, j :: 0 <= i < j < |xs| ==> xs[i] != xs[j]
    ensures |xs| == |s|
    decreases |xs|
  {
    if xs == [] {
      if s != {} {
        var x := Element(s);
        assert false;
      }
    } else {
      var last := xs[|xs| - 1];
      var init := xs[..|xs| - 1];
      forall x
        ensures x in init <==> x in s - {last}
      {
        if x in init {
          var i :| 0 <= i < |init| && init[i] == x;
          assert xs[i] == x;
        }
        if x in s - {last} {
          assert x in xs;
          var i :| 0 <= i < |xs| && xs[i] == x;
          assert init[i] == x;
        }
      }
      DistinctCount(init, s - {last});
    }
  }

  /** Some member of a non-empty set. */
  lemma Element(s: set<int>) returns (x: int)
    requires s != {}
    ensures x in s
  {
    NonEmptyHasElement(s);
    x :| x in s;
  }

  /** The rows stored under `keys`, in that order. */
  function Rows<T>(table: map<int, T>, keys: seq<int>): (rows: seq<T>)
    requires forall i :: 0 <= i < |keys| ==> keys[i] in table
    ensures |rows| == |keys|
    ensures forall i :: 0 <= i < |keys| ==> rows[i] == table[keys[i]]
  {
    seq(|keys|, i requires 0 <= i < |keys| => table[keys[i]])
  }

  /** `{ ...account, accountSetId }` as stored under `id`; notes left out are null. */
  function AccountRow(id: int, setId: int, a: NewAccount): Account {
    Account(id, setId, a.platform, a.accountName, a.username, a.password, a.notes.Stored())
  }

  /** The ids of `rows`. */
  function Ids(rows: seq<Account>): set<int> {
    set a | a in rows :: a.id
  }

  /** The row that contributes `k` to `Ids(rows)`. */
  lemma IdOwner(rows: seq<Account>, k: int) returns (a: Account)
    requires k in Ids(rows)
    ensures a in rows && a.id == k
  {
    a :| a in rows && a.id == k;
  }

  /** The outcome of a multi-row insert: the table after it, the serial sequence's next
      value and the rows `RETURNING` hands back. */
  datatype Inserted<T> = Inserted(table: map<int, T>, serial: int, rows: seq<T>)

  /** One multi-row insert into account: each row takes its submitted id or the next
      serial value, and the statement fails on a value too long for its column or a key
      that is already taken, by a stored row or an earlier row of the same statement. */
  function InsertAccounts(table: map<int, Account>, serial: int, setId: int, rows: seq<NewAccount>)
    : (r: Result<Inserted<Account>>)
    ensures r.Ok? ==> |r.value.rows| == |rows|
    ensures r.Err? ==> r.error == ValueTooLong("account") || r.error == UniqueViolation("account")
    decreases |rows|
  {
    if rows == [] then Ok(Inserted(table, serial, []))
    else
      var id := if rows[0].id.Some? then rows[0].id.value else serial;
      var next := if rows[0].id.Some? then serial else serial + 1;
      var row := AccountRow(id, setId, rows[0]);
      if !AccountFits(row) then Err(ValueTooLong("account"))
      else if id in table then Err(UniqueViolation("account"))
      else
        var rest :- InsertAccounts(table[id := row], next, setId, rows[1..]);
        Ok(Inserted(rest.table, rest.serial, [row] + rest.rows))
  }

  /** One step of a successful insert: the first row is stored and the rest inserted
      into the table that holds it. */
  lemma InsertAccountsStep(table: map<int, Account>, serial: int, setId: int, rows: seq<NewAccount>)
    requires rows != [] && InsertAccounts(table, serial, setId, rows).Ok?
    ensures var id := if rows[0].id.Some? then rows[0].id.value else serial;
      var next := if rows[0].id.Some? then serial else serial + 1;
      var row := AccountRow(id, setId, rows[0]);
      && AccountFits(row) && id !in table
      && InsertAccounts(table[id := row], next, setId, rows[1..]).Ok?
      && var rest := InsertAccounts(table[id := row], next, setId, rows[1..]).value;
         InsertAccounts(table, serial, setId, rows).value == Inserted(rest.table, rest.serial, [row] + rest.rows)
  {
  }

  /** Each returned row is the submitted account stored with the target set's id, under
      its submitted id when it had one, and fits its columns. */
  lemma {:induction false} InsertedRows(table: map<int, Account>, serial: int, setId: int, rows: seq<NewAccount>)
    requires InsertAccounts(table, serial, setId, rows).Ok?
    ensures var ins := InsertAccounts(table, serial, setId, rows).value;
      forall i :: 0 <= i < |rows| ==>
        && ins.rows[i] == AccountRow(ins.rows[i].id, setId, rows[i])
        && AccountFits(ins.rows[i])
        && (rows[i].id.Some? ==> ins.rows[i].id == rows[i].id.value)
    decreases |rows|
  {
    if rows != [] {
      InsertAccountsStep(table, serial, setId, rows);
      var id := if rows[0].id.Some? then rows[0].id.value else serial;
      var next := if rows[0].id.Some? then serial else serial + 1;
      var row := AccountRow(id, setId, rows[0]);
      InsertedRows(table[id := row], next, setId, rows[1..]);
      var rest := InsertAccounts(table[id := row], next, setId, rows[1..]).value;
      var ins := InsertAccounts(table, serial, setId, rows).value;
      assert forall i :: 0 < i < |rows| ==> rows[i] == rows[1..][i - 1] && ins.rows[i] == rest.rows[i - 1];
    }
  }

  /** The returned rows have distinct ids that no stored row had, the stored rows are
      untouched, and the table gains exactly the returned rows. */
  lemma InsertedTable(table: map<int, Account>, serial: int, setId: int, rows: seq<NewAccount>)
    requires InsertAccounts(table, serial, setId, rows).Ok?
    ensures var ins := InsertAccounts(table, serial, setId, rows).value;
      && (forall i :: 0 <= i < |rows| ==> ins.rows[i].id !in table)
      && (forall i, j :: 0 <= i < j < |rows| ==> ins.rows[i].id != ins.rows[j].id)
      && ins.table.Keys == table.Keys + Ids(ins.rows)
      && (forall k :: k in table ==> ins.table[k] == table[k])
      && (forall i :: 0 <= i < |rows| ==> ins.table[ins.rows[i].id] == ins.rows[i])
      && serial <= ins.serial
  {
    InsertedIdsFresh(table, serial, setId, rows);
    InsertedRowsStored(table, serial, setId, rows);
  }

  lemma {:induction false} InsertedIdsFresh(table: map<int, Account>, serial: int, setId: int, rows: seq<NewAccount>)
    requires InsertAccounts(table, serial, setId, rows).Ok?
    ensures var ins := InsertAccounts(table, serial, setId, rows).value;
      && (forall i :: 0 <= i < |rows| ==> ins.rows[i].id !in table)
      && (forall i, j :: 0 <= i < j < |rows| ==> ins.rows[i].id != ins.rows[j].id)
    decreases |rows|
  {
    if rows != [] {
      InsertAccountsStep(table, serial, setId, rows);
      var id := if rows[0].id.Some? then rows[0].id.value else serial;
      var next := if rows[0].id.Some? then serial else serial + 1;
      var row := AccountRow(id, setId, rows[0]);
      InsertedIdsFresh(table[id := row], next, setId, rows[1..]);
      var rest := InsertAccounts(table[id := row], next, setId, rows[1..]).value;
      var ins := InsertAccounts(table, serial, setId, rows).value;
      assert forall i :: 0 < i < |rows| ==> ins.rows[i] == rest.rows[i - 1];
    }
  }

  lemma {:induction false} InsertedRowsStored(table: map<int, Account>, serial: int, setId: int, rows: seq<NewAccount>)
    requires InsertAccounts(table, serial, setId, rows).Ok?
    ensures var ins := InsertAccounts(table, serial, setId, rows).value;
      && ins.table.Keys == table.Keys + Ids(ins.rows)
      && (forall k :: k in table ==> ins.table[k] == table[k])
      && (forall i :: 0 <= i < |rows| ==> ins.table[ins.rows[i].id] == ins.rows[i])
      && serial <= ins.serial
    decreases |rows|
  {
    if rows != [] {
      InsertAccountsStep(table, serial, setId, rows);
      var id := if rows[0].id.Some? then rows[0].id.value else serial;
      var next := if rows[0].id.Some? then serial else serial + 1;
      var row := AccountRow(id, setId, rows[0]);
      InsertedRowsStored(table[id := row], next, setId, rows[1..]);
      var rest := InsertAccounts(table[id := row], next, setId, rows[1..]).value;
      var ins := InsertAccounts(table, serial, setId, rows).value;
      assert forall i :: 0 < i < |rows| ==> ins.rows[i] == rest.rows[i - 1];
      assert Ids(ins.rows) == {id} + Ids(rest.rows);
    }
  }

  /** A submitted id that a stored account already has makes the insert fail. */
  lemma {:induction false} TakenIdRejected(table: map<int, Account>, serial: int, setId: int, rows: seq<NewAccount>, i: int)
    requires 0 <= i < |rows| && rows[i].id.Some? && rows[i].id.value in table
    ensures InsertAccounts(table, serial, setId, rows).Err?
    decreases |rows|
  {
    if i > 0 {
      var id := if rows[0].id.Some? then rows[0].id.value else serial;
      var next := if rows[0].id.Some? then serial else serial + 1;
      var row := AccountRow(id, setId, rows[0]);
      if AccountFits(row) && id !in table {
        TakenIdRejected(table[id := row], next, setId, rows[1..], i - 1);
      }
    }
  }

  /** Two submitted accounts with the same id make the insert fail. */
  lemma {:induction false} DuplicateIdRejected(table: map<int, Account>, serial: int, setId: int, rows: seq<NewAccount>, i: int, j: int)
    requires 0 <= i < j < |rows| && rows[i].id.Some? && rows[i].id == rows[j].id
    ensures InsertAccounts(table, serial, setId, rows).Err?
    decreases |rows|
  {
    var id := if rows[0].id.Some? then rows[0].id.value else serial;
    var next := if rows[0].id.Some? then serial else serial + 1;
    var row := AccountRow(id, setId, rows[0]);
    if AccountFits(row) && id !in table {
      if i == 0 {
        TakenIdRejected(table[id := row], next, setId, rows[1..], j - 1);
      } else {
        DuplicateIdRejected(table[id := row], next, setId, rows[1..], i - 1, j - 1);
      }
    }
  }

  /** Accounts without ids whose fields fit are all inserted, numbered by the serial
      sequence, however many there are, when the sequence is ahead of every stored key. */
  lemma {:induction false} SerialRowsAccepted(table: map<int, Account>, serial: int, setId: int, rows: seq<NewAccount>)
    requires forall k :: k in table ==> k < serial
    requires forall i :: 0 <= i < |rows| ==> rows[i].id.None? && AccountFits(AccountRow(serial, setId, rows[i]))
    ensures InsertAccounts(table, serial, setId, rows).Ok?
    decreases |rows|
  {
    if rows != [] {
      var row := AccountRow(serial, setId, rows[0]);
      assert AccountFits(row);
      forall i | 0 <= i < |rows[1..]|
        ensures rows[1..][i].id.None? && AccountFits(AccountRow(serial + 1, setId, rows[1..][i]))
      {
        assert AccountFits(AccountRow(serial, setId, rows[i + 1]));
      }
      SerialRowsAccepted(table[serial := row], serial + 1, setId, rows[1..]);
    }
  }

  /** The keys `lo`, `lo + 1`, ..., `hi - 1`. */
  function Range(lo: int, hi: int): set<int>
    decreases hi - lo
  {
    if hi <= lo then {} else Range(lo, hi - 1) + {hi - 1}
  }

  /** A run of consecutive keys holds exactly the keys between its ends and has as many
      members as its length. */
  lemma {:induction false} RangeSize(lo: int, hi: int)
    requires lo <= hi
    ensures forall k :: k in Range(lo, hi) <==> lo <= k < hi
    ensures |Range(lo, hi)| == hi - lo
    decreases hi - lo
  {
    if lo < hi {
      RangeSize(lo, hi - 1);
    }
  }

  /** A status row as inserted at time `now`. */
  function StatusRow(id: int, s: NewPostStatus, now: int): PostStatus {
    PostStatus(id, s.postId, s.accountId, s.isPosted, s.postedAt, s.notes, now)
  }

  /** One multi-row insert into post_status: the rows take consecutive serial values. */
  function InsertStatuses(table: map<int, PostStatus>, serial: int, rows: seq<NewPostStatus>, now: int)
    : (r: Result<(map<int, PostStatus>, int)>)
    ensures (forall k :: k in table ==> k < serial) ==> r.Ok?
    ensures r.Err? ==> r.error == UniqueViolation("post_status")
    ensures r.Ok? ==> r.value.1 == serial + |rows|
    ensures r.Ok? ==> forall k :: k in r.value.0 <==> k in table || serial <= k < serial + |rows|
    ensures r.Ok? ==> forall k :: k in table ==> r.value.0[k] == table[k]
    ensures r.Ok? ==> forall k :: serial <= k < serial + |rows| ==> k !in table
    ensures r.Ok? ==> forall i :: 0 <= i < |rows| ==> r.value.0[serial + i] == StatusRow(serial + i, rows[i], now)
    decreases |rows|
  {
    if rows == [] then Ok((table, serial))
    else if serial in table then Err(UniqueViolation("post_status"))
    else
      var rest :- InsertStatuses(table[serial := StatusRow(serial, rows[0], now)], serial + 1, rows[1..], now);
      assert forall i :: 0 < i < |rows| ==> rows[i] == rows[1..][i - 1];
      Ok(rest)
  }

  /** A key the status insert added holds the row built from its position in `rows`. */
  lemma InsertedStatusAt(table: map<int, PostStatus>, serial: int, rows: seq<NewPostStatus>, now: int, k: int)
    requires InsertStatuses(table, serial, rows, now).Ok?
    requires k in InsertStatuses(table, serial, rows, now).value.0 && k !in table
    ensures 0 <= k - serial < |rows|
    ensures InsertStatuses(table, serial, rows, now).value.0[k] == StatusRow(k, rows[k - serial], now)
  {
    assert InsertStatuses(table, serial, rows, now).value.0[serial + (k - serial)] == StatusRow(k, rows[k - serial], now);
  }

  /** Account `k` is one the delete below removes. */
  predicate Doomed(accounts: map<int, Account>, setId: int, ids: set<int>, k: int) {
    k in accounts && k in ids && accounts[k].accountSetId == setId
  }

  /** `DELETE FROM account WHERE account_set_id = setId AND id IN ids`: refused while a
      status still references one of the doomed rows. */
  function DeleteAccounts(accounts: map<int, Account>, statuses: map<int, PostStatus>, setId: int, ids: set<int>)
    : (r: Result<map<int, Account>>)
    ensures r.Err? <==> exists k :: k in statuses && Doomed(accounts, setId, ids, statuses[k].accountId)
    ensures r.Err? ==> r.error == ForeignKeyViolation("post_status")
    ensures r.Ok? ==> forall k :: k in r.value <==> k in accounts && !Doomed(accounts, setId, ids, k)
    ensures r.Ok? ==> forall k :: k in r.value ==> r.value[k] == accounts[k]
  {
    if exists k :: k in statuses && Doomed(accounts, setId, ids, statuses[k].accountId) then
      Err(ForeignKeyViolation("post_status"))
    else
      Ok(map k | k in accounts && !Doomed(accounts, setId, ids, k) :: accounts[k])
  }

  /** The columns `{ ...account, accountSetId }` writes over a stored account: notes left
      out keep their value, and notes sent as `null` become null. */
  function UpdatedAccount(stored: Account, a: NewAccount, setId: int): Account {
    Account(stored.id, setId, a.platform, a.accountName, a.username, a.password,
      a.notes.Over(stored.notes))
  }

  /** `UPDATE account SET ... WHERE id = id`: no row matches a missing id. */
  function UpdateAccount(accounts: map<int, Account>, id: int, setId: int, a: NewAccount)
    : (r: Result<map<int, Account>>)
    ensures id !in accounts ==> r == Ok(accounts)
    ensures r.Err? ==> r.error == ValueTooLong("account")
    ensures r.Ok? ==> r.value.Keys == accounts.Keys
    ensures r.Ok? && id in accounts ==> r.value == accounts[id := UpdatedAccount(accounts[id], a, setId)]
    ensures id in accounts ==> (r.Ok? <==> AccountFits(UpdatedAccount(accounts[id], a, setId)))
  {
    if id !in accounts then Ok(accounts)
    else
      var row := UpdatedAccount(accounts[id], a, setId);
      if AccountFits(row) then Ok(accounts[id := row]) else Err(ValueTooLong("account"))
  }
}
