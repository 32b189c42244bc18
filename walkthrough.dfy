/** The dashboard's basic flow on an empty database: an account set with its accounts,
    a recorded video, and a post of that video on the set, which comes back with one
    unposted status per account. */
module Walkthrough {
  import opened Common
  import opened Schema
  import opened Engine
  import opened Queries
  import opened Store

  /** Creating a set of `n` fitting accounts without ids gives back `n` accounts, and a
      post on it then comes back with `n` unposted statuses. */
  method SetThenPost(name: string, submitted: seq<NewAccount>, title: string, filePath: string, date: int, now: int)
    returns (created: Result<AccountSetWithAccounts>, post: Result<PostWithRelations>)
    requires |name| <= SetNameLength && submitted != []
    requires forall i :: 0 <= i < |submitted| ==> submitted[i].id.None? && AccountFits(AccountRow(1, 1, submitted[i]))
    requires |title| <= TitleLength && |filePath| <= PathLength
    ensures created.Ok? && created.value.accountSet.name == name && |created.value.accounts| == |submitted|
    ensures post.Ok? && |post.value.statuses| == |submitted|
    ensures forall s :: s in post.value.statuses ==> !s.status.isPosted && s.status.postedAt.None?
  {
    var db := new Database();
    created := FirstSet(db, name, submitted);
    var setId := created.value.accountSet.id;
    var video := db.InsertVideo(title, filePath, None);
    post := db.CreatePost(video.value.id, setId, date, None, now);
  }

  /** The first set created on an empty database, with accounts numbered by the serial
      column: it is created, and its accounts are exactly the ones submitted. */
  method FirstSet(db: Database, name: string, submitted: seq<NewAccount>) returns (created: Result<AccountSetWithAccounts>)
    requires db.Valid() && db.accountSets == map[] && db.accounts == map[]
    requires db.serials.accountSet == 1 && db.serials.account == 1
    requires |name| <= SetNameLength && submitted != []
    requires forall i :: 0 <= i < |submitted| ==> submitted[i].id.None? && AccountFits(AccountRow(1, 1, submitted[i]))
    modifies db
    ensures db.Valid()
    ensures created.Ok? && created.value.accountSet.name == name && |created.value.accounts| == |submitted|
    ensures created.value.accountSet.id in db.accountSets
    ensures |AccountsOf(db.accounts, created.value.accountSet.id)| == |submitted|
  {
    NewSetOutcome(map[], map[], NewAccountSet(None, name, None), submitted, 1, 1);
    created := db.CreateAccountSet(NewAccountSet(None, name, None), submitted);
    InsertedTable(map[], 1, 1, submitted);
    DistinctIdsCount(created.value.accounts);
  }

  /** Accounts with distinct ids have as many ids as there are accounts. */
  lemma DistinctIdsCount(rows: seq<Account>)
    requires forall i, j :: 0 <= i < j < |rows| ==> rows[i].id != rows[j].id
    ensures |Ids(rows)| == |rows|
  {
    var ids := seq(|rows|, i requires 0 <= i < |rows| => rows[i].id);
    forall k | k in Ids(rows)
      ensures k in ids
    {
      var a := IdOwner(rows, k);
      var i :| 0 <= i < |rows| && rows[i] == a;
      assert ids[i] == k;
    }
    DistinctCount(ids, Ids(rows));
  }
}
