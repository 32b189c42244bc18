/** What the create-account-set dialog submits. Every account row it adds is a copy of
    one module-level blank account, id included, so all rows of one submission share a
    single id, drawn once when the page module loads. */
module CreateDialog {
  import opened Common
  import opened Schema
  import opened Engine

  /** The dialog's accounts as submitted: the filled-in fields, each row still carrying
      the shared id of the blank account it was copied from. */
  function SharedIdSubmission(shared: int, filled: seq<NewAccount>): (r: seq<NewAccount>)
    ensures |r| == |filled|
    ensures forall i :: 0 <= i < |r| ==> r[i] == filled[i].(id := Some(shared))
  {
    seq(|filled|, i requires 0 <= i < |filled| => filled[i].(id := Some(shared)))
  }

  /** As written, no set with two or more accounts can be created, and once one set has
      been created from the page no further set can, because its account id is taken. */
  lemma SharedIdRejected(table: map<int, Account>, serial: int, setId: int, shared: int, filled: seq<NewAccount>)
    requires |filled| >= 2 || (|filled| >= 1 && shared in table)
    ensures InsertAccounts(table, serial, setId, SharedIdSubmission(shared, filled)).Err?
  {
    var rows := SharedIdSubmission(shared, filled);
    if |filled| >= 2 {
      DuplicateIdRejected(table, serial, setId, rows, 0, 1);
    } else {
      TakenIdRejected(table, serial, setId, rows, 0);
    }
  }

  /** The dialog's accounts without ids, for the serial column to number. */
  function SerialSubmission(filled: seq<NewAccount>): (r: seq<NewAccount>)
    ensures |r| == |filled|
    ensures forall i :: 0 <= i < |r| ==> r[i] == filled[i].(id := None)
  {
    seq(|filled|, i requires 0 <= i < |filled| => filled[i].(id := None))
  }

  /** Numbered by the serial sequence, accounts whose fields fit are always inserted,
      however many there are, when the sequence is ahead of the stored keys. */
  lemma SerialIdsAccepted(table: map<int, Account>, serial: int, setId: int, filled: seq<NewAccount>)
    requires forall k :: k in table ==> k < serial
    requires forall i :: 0 <= i < |filled| ==> AccountFits(AccountRow(serial, setId, filled[i]))
    ensures InsertAccounts(table, serial, setId, SerialSubmission(filled)).Ok?
  {
    var rows := SerialSubmission(filled);
    forall i | 0 <= i < |rows|
      ensures rows[i].id.None? && AccountFits(AccountRow(serial, setId, rows[i]))
    {
      assert AccountFits(AccountRow(serial, setId, filled[i]));
    }
    SerialRowsAccepted(table, serial, setId, rows);
  }
}
