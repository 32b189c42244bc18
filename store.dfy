/** The database the server actions run against: the five tables and their serial
    sequences, with one method per action. An action that runs in a transaction works
    on local copies of the tables and writes them back only when every statement has
    succeeded, so a failed action leaves the database as it was. */
module Store {
  import opened Common
  import opened Schema
  import opened Seqs
  import opened Engine
  import opened Reconcile
  import opened Invariants
  import opened Queries
  import opened Roster

  /** The next value of each table's serial id sequence. */
  datatype Serials = Serials(accountSet: int, account: int, video: int, post: int, status: int)

  /** The fields `updateAccountSet` writes over the stored set; a description left out
      keeps the stored one, and one sent as `null` clears it. */
  datatype AccountSetFields = AccountSetFields(name: string, description: Field<string>)

  /** `{ ...existingSet, ...accountSet }`. */
  function Overlay(s: AccountSet, fields: AccountSetFields): AccountSet {
    AccountSet(s.id, fields.name, fields.description.Over(s.description))
  }

  /** A status row after `markPosted` (`posted`) or `markNotPosted` (not `posted`) at time
      `now`. */
  function Marked(s: PostStatus, posted: bool, now: int): PostStatus {
    s.(isPosted := posted, postedAt := if posted then Some(now) else None, updatedAt := now)
  }

  /** `UPDATE post_status SET ... WHERE post_id = postId AND account_id = accountId`. */
  function SetPosted(statuses: map<int, PostStatus>, postId: int, accountId: int, posted: bool, now: int)
    : (r: map<int, PostStatus>)
    ensures r.Keys == statuses.Keys
    ensures forall k :: k in r ==>
      r[k].id == statuses[k].id && r[k].postId == statuses[k].postId && r[k].accountId == statuses[k].accountId
    ensures forall k :: k in r ==> (r[k].isPosted <==> r[k].postedAt.Some?) || r[k] == statuses[k]
  {
    map k | k in statuses :: if k in StatusesFor(statuses, postId, accountId) then Marked(statuses[k], posted, now) else statuses[k]
  }

  /** The mark touches exactly the rows of the (post, account) pair: they become posted
      with a posting time, or not posted without one; every other column and every other
      row stays. */
  lemma SetPostedEffect(statuses: map<int, PostStatus>, postId: int, accountId: int, posted: bool, now: int)
    ensures var r := SetPosted(statuses, postId, accountId, posted, now);
      && r.Keys == statuses.Keys
      && (forall k :: k in statuses && statuses[k].postId == postId && statuses[k].accountId == accountId ==>
            && r[k].isPosted == posted
            && (posted ==> r[k].postedAt == Some(now))
            && (!posted ==> r[k].postedAt.None?)
            && r[k] == statuses[k].(isPosted := r[k].isPosted, postedAt := r[k].postedAt, updatedAt := now))
      && (forall k :: k in statuses && (statuses[k].postId != postId || statuses[k].accountId != accountId) ==>
            r[k] == statuses[k])
  {
  }

  /** Toggling the only status of a pair twice gives back every row's `isPosted` and
      whether it has a posting time. */
  lemma ToggleTwiceRestores(statuses: map<int, PostStatus>, postId: int, accountId: int, k: int, now1: int, now2: int)
    requires StatusesFor(statuses, postId, accountId) == {k}
    requires forall j :: j in statuses ==> (statuses[j].isPosted <==> statuses[j].postedAt.Some?)
    ensures var once := SetPosted(statuses, postId, accountId, !statuses[k].isPosted, now1);
      var twice := SetPosted(once, postId, accountId, !once[k].isPosted, now2);
      && twice.Keys == statuses.Keys
      && forall j :: j in statuses ==>
           twice[j].isPosted == statuses[j].isPosted && twice[j].postedAt.Some? == statuses[j].postedAt.Some?
  {
    assert k in StatusesFor(statuses, postId, accountId);
    var once := SetPosted(statuses, postId, accountId, !statuses[k].isPosted, now1);
    assert StatusesFor(once, postId, accountId) == {k} by {
      forall j | j in once
        ensures j in StatusesFor(once, postId, accountId) <==> j == k
      {
        assert j in StatusesFor(statuses, postId, accountId) <==> j == k;
      }
    }
  }

  /** The set row `createAccountSet` inserts: under its submitted id, or the next value
      `serial` of the sequence when it has none. */
  function NewSetRow(accountSet: NewAccountSet, serial: int): AccountSet {
    AccountSet(if accountSet.id.Some? then accountSet.id.value else serial, accountSet.name, accountSet.description)
  }

  /** What `createAccountSet` returns for tables `sets` and `accounts` and the next
      values `setSerial` and `accountSerial` of the two sequences: the set row is checked
      against its column and its key, then the accounts go in with one statement. */
  function NewSetResult(sets: map<int, AccountSet>, accounts: map<int, Account>, accountSet: NewAccountSet,
                        submitted: seq<NewAccount>, setSerial: int, accountSerial: int)
    : Result<AccountSetWithAccounts>
  {
    var newSet := NewSetRow(accountSet, setSerial);
    if !AccountSetFits(newSet) then Err(ValueTooLong("account_set"))
    else if newSet.id in sets then Err(UniqueViolation("account_set"))
    else if submitted == [] then Err(EmptyValues)
    else
      var ins :- InsertAccounts(accounts, accountSerial, newSet.id, submitted);
      Ok(AccountSetWithAccounts(newSet, ins.rows))
  }

  /** `createAccountSet` fails exactly on a set row too long for its column, a taken set
      id, an empty account list or a failed account insert, each with its own error; and
      a set of any number of fitting accounts without ids, under a fresh set id, is
      created whenever the account sequence is ahead of the stored accounts. */
  lemma NewSetOutcome(sets: map<int, AccountSet>, accounts: map<int, Account>, accountSet: NewAccountSet,
                      submitted: seq<NewAccount>, setSerial: int, accountSerial: int)
    ensures var r := NewSetResult(sets, accounts, accountSet, submitted, setSerial, accountSerial);
      var newSet := NewSetRow(accountSet, setSerial);
      var ins := InsertAccounts(accounts, accountSerial, newSet.id, submitted);
      && (r.Ok? <==> AccountSetFits(newSet) && newSet.id !in sets && submitted != [] && ins.Ok?)
      && (!AccountSetFits(newSet) ==> r == Err(ValueTooLong("account_set")))
      && (AccountSetFits(newSet) && newSet.id in sets ==> r == Err(UniqueViolation("account_set")))
      && (AccountSetFits(newSet) && newSet.id !in sets && submitted == [] ==> r == Err(EmptyValues))
      && (AccountSetFits(newSet) && newSet.id !in sets && submitted != [] && ins.Err? ==> r == Err(ins.error))
      && (r.Ok? ==> r.value.accountSet == newSet && r.value.accounts == ins.value.rows && |r.value.accounts| == |submitted|)
    ensures var newSet := NewSetRow(accountSet, setSerial);
      && AccountSetFits(newSet) && newSet.id !in sets && submitted != []
      && (forall k :: k in accounts ==> k < accountSerial)
      && (forall i :: 0 <= i < |submitted| ==>
            submitted[i].id.None? && AccountFits(AccountRow(accountSerial, newSet.id, submitted[i])))
      ==> NewSetResult(sets, accounts, accountSet, submitted, setSerial, accountSerial).Ok?
  {
    var newSet := NewSetRow(accountSet, setSerial);
    if (forall k :: k in accounts ==> k < accountSerial) &&
       (forall i :: 0 <= i < |submitted| ==>
          submitted[i].id.None? && AccountFits(AccountRow(accountSerial, newSet.id, submitted[i]))) {
      SerialRowsAccepted(accounts, accountSerial, newSet.id, submitted);
    }
  }

  /** The tables after `updatePost`: the supplied fields and the update time. */
  function EditedPost(p: Post, scheduledDate: Option<int>, notes: Option<string>, now: int): Post {
    p.(scheduledDate := if scheduledDate.Some? then scheduledDate.value else p.scheduledDate,
       notes := if notes.Some? then notes else p.notes,
       updatedAt := now)
  }

  /** The `for (const account of accountsToUpdate)` loop of `updateAccountSet`: each
      account needs an id and overwrites the stored account with that id, if any. */
  method UpdateLoop(table: map<int, Account>, setId: int, updates: seq<NewAccount>)
    returns (r: Result<map<int, Account>>)
    ensures r == ApplyUpdates(table, setId, updates)
  {
    var accs := table;
    for i := 0 to |updates|
      invariant ApplyUpdates(table, setId, updates[..i]) == Ok(accs)
    {
      assert updates[..i + 1][..i] == updates[..i];
      var account := updates[i];
      if account.id.None? {
        ApplyUpdatesFailsEarly(table, setId, updates, i + 1);
        return Err(AccountIdRequired);
      }
      var next := UpdateAccount(accs, account.id.value, setId, account);
      if next.Err? {
        ApplyUpdatesFailsEarly(table, setId, updates, i + 1);
        return next;
      }
      accs := next.value;
    }
    assert updates[..|updates|] == updates;
    return Ok(accs);
  }

  /** The account and status statements of `updateAccountSet`, run inside its
      transaction on tables `t`: the delete of the set's accounts the submission no
      longer lists, the update loop, and, when there are accounts to insert, their insert
      followed by the select of the set's posts (`setPosts`) and the status fan-out. */
  method RunRosterWrites(t: Tables, id: int, existing: seq<Account>, submitted: seq<NewAccount>,
                         accountSerial: int, statusSerial: int, now: int)
    returns (w: Result<Writes>, ghost setPosts: seq<Post>)
    requires forall k :: k in t.posts ==> t.posts[k].id == k
    requires forall k :: k in t.statuses ==> k < statusSerial
    ensures w == RosterWrites(t, id, existing, submitted, setPosts, accountSerial, statusSerial, now)
    ensures ToInsert(existing, submitted) != [] && w.Ok? ==> ListsPosts(t.posts, id, setPosts)
  {
    setPosts := [];
    var toDelete := ToDelete(existing, submitted);
    var toUpdate := ToUpdate(existing, submitted);
    var toInsert := ToInsert(existing, submitted);
    var accs := t.accounts;
    if toDelete != [] {
      var del := DeleteAccounts(accs, t.statuses, id, Ids(toDelete));
      if del.Err? {
        return Err(del.error), setPosts;
      }
      accs := del.value;
    }
    var upd := UpdateLoop(accs, id, toUpdate);
    if upd.Err? {
      return Err(upd.error), setPosts;
    }
    accs := upd.value;
    if toInsert == [] {
      return Ok(Writes(accs, accountSerial, [], t.statuses, statusSerial)), setPosts;
    }
    var ins := InsertAccounts(accs, accountSerial, id, toInsert);
    if ins.Err? {
      return Err(ins.error), setPosts;
    }
    var postKeys := Enumerate(PostsOf(t.posts, id));
    PostRowsListPosts(t.posts, id, postKeys);
    var rows := Rows(t.posts, postKeys);
    setPosts := rows;
    var sts, nextStatus := t.statuses, statusSerial;
    if rows != [] {
      var newStatuses := FanOut(rows, ins.value.rows);
      if newStatuses != [] {
        var st := InsertStatuses(sts, statusSerial, newStatuses, now);
        sts, nextStatus := st.value.0, st.value.1;
      }
    }
    w := Ok(Writes(ins.value.table, ins.value.serial, ins.value.rows, sts, nextStatus));
  }

  class Database {
    var accountSets: map<int, AccountSet>
    var accounts: map<int, Account>
    var videos: map<int, Video>
    var posts: map<int, Post>
    var statuses: map<int, PostStatus>
    var serials: Serials

    function Snapshot(): Tables
      reads this
    {
      Tables(accountSets, accounts, videos, posts, statuses)
    }

    /** The serial sequences of the tables whose rows never get an explicit id are
        ahead of every stored key. */
    ghost predicate SerialsAhead()
      reads this
    {
      && (forall k :: k in videos ==> k < serials.video)
      && (forall k :: k in posts ==> k < serials.post)
      && (forall k :: k in statuses ==> k < serials.status)
    }

    ghost predicate Valid()
      reads this
    {
      Integrity(Snapshot()) && Consistent(Snapshot()) && SerialsAhead()
    }

    constructor()
      ensures Valid()
      ensures accountSets == map[] && accounts == map[] && videos == map[] && posts == map[] && statuses == map[]
      ensures serials == Serials(1, 1, 1, 1, 1)
    {
      accountSets, accounts, videos, posts, statuses := map[], map[], map[], map[], map[];
      serials := Serials(1, 1, 1, 1, 1);
    }

    // -------------------------------------------------------------------------------
    // Account sets

    /** `createAccountSet`: the set and all its accounts, or nothing. */
    method CreateAccountSet(accountSet: NewAccountSet, submitted: seq<NewAccount>) returns (r: Result<AccountSetWithAccounts>)
      requires Valid()
      modifies this
      ensures Valid()
      ensures r.Err? ==> unchanged(this)
      ensures videos == old(videos) && posts == old(posts) && statuses == old(statuses)
      ensures submitted == [] ==> r.Err?
      ensures r == NewSetResult(old(accountSets), old(accounts), accountSet, submitted, old(serials.accountSet), old(serials.account))
      ensures r.Ok? ==> forall i :: 0 <= i < |submitted| && submitted[i].id.Some? ==> submitted[i].id.value !in old(accounts)
      ensures r.Ok? ==> forall i, j :: 0 <= i < j < |submitted| && submitted[i].id.Some? ==> submitted[i].id != submitted[j].id
      ensures r.Ok? ==>
        && r.value.accountSet.id !in old(accountSets)
        && (accountSet.id.Some? ==> r.value.accountSet.id == accountSet.id.value)
        && r.value.accountSet.name == accountSet.name && r.value.accountSet.description == accountSet.description
        && accountSets == old(accountSets)[r.value.accountSet.id := r.value.accountSet]
      ensures r.Ok? ==>
        && |r.value.accounts| == |submitted|
        && (forall i :: 0 <= i < |submitted| ==>
              && r.value.accounts[i] == AccountRow(r.value.accounts[i].id, r.value.accountSet.id, submitted[i])
              && (submitted[i].id.Some? ==> r.value.accounts[i].id == submitted[i].id.value))
      ensures r.Ok? ==>
        && accounts.Keys == old(accounts).Keys + Ids(r.value.accounts)
        && (forall k :: k in old(accounts) ==> accounts[k] == old(accounts)[k])
        && (forall a :: a in r.value.accounts ==> a.id !in old(accounts) && accounts[a.id] == a)
        && AccountsOf(accounts, r.value.accountSet.id) == Ids(r.value.accounts)
    {
      var newSet := NewSetRow(accountSet, serials.accountSet);
      var id := newSet.id;
      var nextSetSerial := if accountSet.id.Some? then serials.accountSet else serials.accountSet + 1;
      if !AccountSetFits(newSet) {
        return Err(ValueTooLong("account_set"));
      }
      if id in accountSets {
        return Err(UniqueViolation("account_set"));
      }
      if submitted == [] {
        return Err(EmptyValues);
      }
      var ins := InsertAccounts(accounts, serials.account, id, submitted);
      if ins.Err? {
        return Err(ins.error);
      }
      InsertedRows(accounts, serials.account, id, submitted);
      InsertedTable(accounts, serials.account, id, submitted);
      ghost var t := Snapshot();
      InsertedIntoNewSet(t, serials.account, newSet, submitted);
      var inserted := ins.value.rows;
      NewSetKeepsValid(t, t.(accountSets := accountSets[id := newSet], accounts := ins.value.table), newSet, inserted);
      accountSets := accountSets[id := newSet];
      accounts := ins.value.table;
      serials := serials.(accountSet := nextSetSerial, account := ins.value.serial);
      r := Ok(AccountSetWithAccounts(newSet, inserted));
    }

    /** `getAccountSetById`: the set with every account that belongs to it, or nothing
        when no set has the id. */
    method GetAccountSetById(id: int) returns (r: Option<AccountSetWithAccounts>)
      requires Integrity(Snapshot())
      ensures r.None? <==> id !in accountSets
      ensures r.Some? ==> r.value.accountSet == accountSets[id]
      ensures r.Some? ==> forall a :: a in r.value.accounts <==> a.id in AccountsOf(accounts, id) && a == accounts[a.id]
      ensures r.Some? ==> |r.value.accounts| == |AccountsOf(accounts, id)|
      ensures r.Some? ==> forall i, j :: 0 <= i < j < |r.value.accounts| ==> r.value.accounts[i].id != r.value.accounts[j].id
    {
      var rows: seq<SetRow> := [];
      if id in accountSets {
        var keys := Enumerate(AccountsOf(accounts, id));
        var s, accs := accountSets[id], accounts;
        rows := if |keys| == 0 then [SetRow(s, None)]
                else seq(|keys|, i requires 0 <= i < |keys| => SetRow(s, Some(accs[keys[i]])));
        forall i | 0 <= i < |rows|
          ensures IsSetJoinRow(Snapshot(), rows[i]) && rows[i].accountSet.id == id
        {
          if |keys| > 0 {
            assert keys[i] in AccountsOf(accounts, id) && accounts[keys[i]].id == keys[i];
          }
        }
        forall i, j | 0 <= i < j < |rows| && rows[i].account.Some?
          ensures rows[i].account != rows[j].account
        {
          assert accounts[keys[i]].id == keys[i] && accounts[keys[j]].id == keys[j];
        }
        forall a | a in accounts && accounts[a].accountSetId == id
          ensures exists i :: 0 <= i < |rows| && rows[i].account == Some(accounts[a])
        {
          assert a in AccountsOf(accounts, id);
          var i :| 0 <= i < |keys| && keys[i] == a;
          assert rows[i].account == Some(accounts[a]);
        }
      }
      assert IsSetJoinFor(Snapshot(), id, rows);
      AccountSetByIdReadsTables(Snapshot(), id, rows);
      r := AccountSetFromRows(rows);
    }

    /** `deleteAccountSet`: deleting a set that does not exist does nothing; a set that
        still has accounts or posts cannot be deleted, since neither foreign key has an
        on-delete action. */
    method DeleteAccountSet(id: int) returns (r: Result<()>)
      requires Valid()
      modifies this
      ensures Valid()
      ensures r.Err? <==> AccountsOf(old(accounts), id) != {} || PostsOf(old(posts), id) != {}
      ensures r.Err? ==> r.error == ForeignKeyViolation("account") || r.error == ForeignKeyViolation("post")
      ensures r.Err? ==> unchanged(this)
      ensures r.Ok? ==> accountSets == old(accountSets) - {id}
      ensures accounts == old(accounts) && videos == old(videos) && posts == old(posts) && statuses == old(statuses)
      ensures serials == old(serials)
    {
      if AccountsOf(accounts, id) != {} {
        return Err(ForeignKeyViolation("account"));
      }
      if PostsOf(posts, id) != {} {
        return Err(ForeignKeyViolation("post"));
      }
      DeleteSetKeepsValid(Snapshot(), id);
      accountSets := accountSets - {id};
      r := Ok(());
    }

    /** `updateAccountSet`: overlays the set's columns, deletes the set's accounts the
        submission no longer lists, updates the ones it still lists, inserts the others,
        and gives every post of the set an unposted status for each inserted account; all
        of it or, on any failure, nothing. `existing` and `setPosts` are the set's
        accounts and posts in the order the transaction's selects return them. */
    method UpdateAccountSet(id: int, fields: AccountSetFields, submitted: seq<NewAccount>, now: int)
      returns (r: Result<AccountSetWithAccounts>, ghost existing: seq<Account>, ghost setPosts: seq<Post>)
      requires Valid()
      modifies this
      ensures Valid()
      ensures r.Err? ==> unchanged(this)
      ensures id !in old(accountSets) ==> r == Err(AccountSetNotFound(id))
      ensures id in old(accountSets) && !AccountSetFits(Overlay(old(accountSets)[id], fields)) ==>
        r == Err(ValueTooLong("account_set"))
      ensures id in old(accountSets) && AccountSetFits(Overlay(old(accountSets)[id], fields)) ==>
        && ListsSet(old(accounts), id, existing)
        && (ToInsert(existing, submitted) != [] && r.Ok? ==> ListsPosts(old(posts), id, setPosts))
        && var w := RosterWrites(old(Snapshot()), id, existing, submitted, setPosts, old(serials.account), old(serials.status), now);
           && (w.Err? ==> r == Err(w.error))
           && (w.Ok? ==>
                 && r.Ok?
                 && accountSets == old(accountSets)[id := Overlay(old(accountSets)[id], fields)]
                 && accounts == w.value.accounts && statuses == w.value.statuses
                 && videos == old(videos) && posts == old(posts)
                 && serials == old(serials).(account := w.value.accountSerial, status := w.value.statusSerial))
      ensures r.Ok? ==>
        && r.value.accountSet == accountSets[id]
        && (forall a :: a in r.value.accounts <==> a.id in AccountsOf(accounts, id) && a == accounts[a.id])
        && |r.value.accounts| == |AccountsOf(accounts, id)|
        && (forall i, j :: 0 <= i < j < |r.value.accounts| ==> r.value.accounts[i].id != r.value.accounts[j].id)
    {
      existing, setPosts := [], [];
      if id !in accountSets {
        return Err(AccountSetNotFound(id)), existing, setPosts;
      }
      var updatedSet := Overlay(accountSets[id], fields);
      if !AccountSetFits(updatedSet) {
        return Err(ValueTooLong("account_set")), existing, setPosts;
      }
      var keys := Enumerate(AccountsOf(accounts, id));
      AccountRowsListSet(accounts, id, keys);
      var current := Rows(accounts, keys);
      existing := current;
      var w;
      w, setPosts := RunRosterWrites(Snapshot(), id, current, submitted, serials.account, serials.status, now);
      if w.Err? {
        return Err(w.error), existing, setPosts;
      }
      accountSets := accountSets[id := updatedSet];
      accounts, statuses := w.value.accounts, w.value.statuses;
      serials := serials.(account := w.value.accountSerial, status := w.value.statusSerial);
      RosterKeepsValid(old(Snapshot()), id, updatedSet, existing, submitted, setPosts, old(serials.account), old(serials.status), now);
      var finalAccounts := SelectSetAccounts(id);
      r := Ok(AccountSetWithAccounts(updatedSet, finalAccounts));
    }

    /** `select().from(AccountTable).where(eq(AccountTable.accountSetId, id))`: every
        account of the set once, in the order the database picks. */
    method SelectSetAccounts(id: int) returns (rows: seq<Account>)
      requires forall k :: k in accounts ==> accounts[k].id == k
      ensures forall a :: a in rows <==> a.id in AccountsOf(accounts, id) && a == accounts[a.id]
      ensures |rows| == |AccountsOf(accounts, id)|
      ensures forall i, j :: 0 <= i < j < |rows| ==> rows[i].id != rows[j].id
    {
      var keys := Enumerate(AccountsOf(accounts, id));
      rows := Rows(accounts, keys);
      assert forall i :: 0 <= i < |keys| ==> rows[i].id == keys[i];
      forall a: Account | a.id in AccountsOf(accounts, id) && a == accounts[a.id]
        ensures a in rows
      {
        var i :| 0 <= i < |keys| && keys[i] == a.id;
        assert rows[i] == a;
      }
    }

    // -------------------------------------------------------------------------------
    // Posts

    /** `getPostById`: a missing post fails with "Post not found", and a stored post
        with no status fails with "Invalid post status", because its single join row has
        no status; otherwise the post, its video and set, and exactly its statuses. */
    method GetPostById(id: int) returns (r: Result<PostWithRelations>)
      requires Integrity(Snapshot())
      ensures id !in posts ==> r == Err(PostNotFound)
      ensures id in posts && StatusesOf(statuses, id) == {} ==> r == Err(InvalidPostStatus)
      ensures id in posts && StatusesOf(statuses, id) != {} ==>
        && r.Ok?
        && r.value.head.post == posts[id]
        && r.value.head.video == Some(videos[posts[id].videoId])
        && r.value.head.accountSet == Some(accountSets[posts[id].accountSetId])
        && (forall s :: s in r.value.statuses <==>
              s.status.id in StatusesOf(statuses, id) && s.status == statuses[s.status.id] &&
              s.account == accounts[s.status.accountId])
        && |r.value.statuses| == |StatusesOf(statuses, id)|
        && (forall i, j :: 0 <= i < j < |r.value.statuses| ==> r.value.statuses[i].status.id != r.value.statuses[j].status.id)
    {
      var rows: seq<PostRow> := [];
      if id in posts {
        var keys := Enumerate(StatusesOf(statuses, id));
        var post := posts[id];
        var video := Lookup(videos, post.videoId);
        var owner := Lookup(accountSets, post.accountSetId);
        var sts, accs := statuses, accounts;
        rows := if |keys| == 0 then [PostRow(post, video, owner, None, None)]
                else seq(|keys|, i requires 0 <= i < |keys| =>
                       PostRow(post, video, owner, Some(sts[keys[i]]), Lookup(accs, sts[keys[i]].accountId)));
        forall k | k in StatusesOf(statuses, id)
          ensures exists i :: 0 <= i < |rows| && rows[i].status == Some(statuses[k])
        {
          var i :| 0 <= i < |keys| && keys[i] == k;
          assert rows[i].status == Some(statuses[k]);
        }
      }
      assert IsPostJoinFor(Snapshot(), id, rows);
      PostByIdReadsTables(Snapshot(), id, rows);
      r := PostFromRows(rows);
    }

    /** The transaction of `createPost`: the post and one unposted status for every
        account of its set. The status insert gets no rows when the set has no accounts,
        and then the whole transaction fails. */
    method InsertPost(videoId: int, accountSetId: int, scheduledDate: int, notes: Option<string>, now: int)
      returns (r: Result<Post>)
      requires Valid()
      modifies this
      ensures Valid()
      ensures r.Err? ==> unchanged(this)
      ensures accountSets == old(accountSets) && accounts == old(accounts) && videos == old(videos)
      ensures videoId !in old(videos) || accountSetId !in old(accountSets) ==> r == Err(ForeignKeyViolation("post"))
      ensures videoId in old(videos) && accountSetId in old(accountSets) ==>
        (r == Err(EmptyValues) <==> AccountsOf(old(accounts), accountSetId) == {})
      ensures videoId in old(videos) && accountSetId in old(accountSets) && AccountsOf(old(accounts), accountSetId) != {} ==>
        r.Ok?
      ensures r.Ok? ==>
        && r.value == Post(old(serials.post), videoId, accountSetId, scheduledDate, notes, now)
        && r.value.id !in old(posts)
        && posts == old(posts)[r.value.id := r.value]
        && (forall k :: k in old(statuses) ==> k in statuses && statuses[k] == old(statuses)[k])
        && (forall k :: k in statuses ==> k in old(statuses) || k in StatusesOf(statuses, r.value.id))
        && (forall k :: k in StatusesOf(statuses, r.value.id) ==>
              && !statuses[k].isPosted && statuses[k].postedAt.None?
              && statuses[k].accountId in AccountsOf(accounts, accountSetId))
        && |StatusesOf(statuses, r.value.id)| == |AccountsOf(accounts, accountSetId)|
        && serials.post == old(serials.post) + 1
        && serials.status == old(serials.status) + |AccountsOf(accounts, accountSetId)|
        && serials.accountSet == old(serials.accountSet) && serials.account == old(serials.account)
        && serials.video == old(serials.video)
    {
      if videoId !in videos || accountSetId !in accountSets {
        return Err(ForeignKeyViolation("post"));
      }
      var id := serials.post;
      var post := Post(id, videoId, accountSetId, scheduledDate, notes, now);
      var keys := Enumerate(AccountsOf(accounts, accountSetId));
      var rows := UnpostedFor(id, Rows(accounts, keys));
      if rows == [] {
        return Err(EmptyValues);
      }
      var ins := InsertStatuses(statuses, serials.status, rows, now);
      posts := posts[id := post];
      statuses := ins.value.0;
      serials := serials.(post := id + 1, status := ins.value.1);
      assert forall k :: k in posts ==> k < serials.post;
      assert accountSets == old(accountSets) && accounts == old(accounts) && videos == old(videos);
      assert id !in old(posts) && posts == old(posts)[id := post];
      CreatePostEffect(old(Snapshot()), post, keys, old(serials.status), now);
      r := Ok(post);
    }

    /** `createPost`: the transaction, then the new post read back with its statuses,
        one per account of the set. */
    method CreatePost(videoId: int, accountSetId: int, scheduledDate: int, notes: Option<string>, now: int)
      returns (r: Result<PostWithRelations>)
      requires Valid()
      modifies this
      ensures Valid()
      ensures r.Err? ==> unchanged(this)
      ensures accountSets == old(accountSets) && accounts == old(accounts) && videos == old(videos)
      ensures videoId !in old(videos) || accountSetId !in old(accountSets) ==> r == Err(ForeignKeyViolation("post"))
      ensures videoId in old(videos) && accountSetId in old(accountSets) ==>
        (r == Err(EmptyValues) <==> AccountsOf(old(accounts), accountSetId) == {})
      ensures videoId in old(videos) && accountSetId in old(accountSets) && AccountsOf(old(accounts), accountSetId) != {} ==>
        r.Ok?
      ensures r.Ok? ==>
        && videoId in videos && accountSetId in accountSets
        && r.value.head.post == Post(old(serials.post), videoId, accountSetId, scheduledDate, notes, now)
        && r.value.head.post.id !in old(posts)
        && posts == old(posts)[r.value.head.post.id := r.value.head.post]
        && r.value.head.video == Some(videos[videoId])
        && r.value.head.accountSet == Some(accountSets[accountSetId])
        && (forall a :: a in AccountsOf(accounts, accountSetId) <==>
              exists s :: s in r.value.statuses && s.account.id == a)
        && (forall s :: s in r.value.statuses ==> !s.status.isPosted && s.status.postedAt.None?)
        && |r.value.statuses| == |AccountsOf(accounts, accountSetId)|
        && (forall k :: k in old(statuses) ==> k in statuses && statuses[k] == old(statuses)[k])
        && (forall k :: k in statuses ==> k in old(statuses) || k in StatusesOf(statuses, r.value.head.post.id))
        && (forall k :: k in StatusesOf(statuses, r.value.head.post.id) ==>
              && !statuses[k].isPosted && statuses[k].postedAt.None?
              && statuses[k].accountId in AccountsOf(accounts, accountSetId))
        && |StatusesOf(statuses, r.value.head.post.id)| == |AccountsOf(accounts, accountSetId)|
        && serials.post == old(serials.post) + 1
        && serials.status == old(serials.status) + |AccountsOf(accounts, accountSetId)|
        && serials.accountSet == old(serials.accountSet) && serials.account == old(serials.account)
        && serials.video == old(serials.video)
    {
      var p := InsertPost(videoId, accountSetId, scheduledDate, notes, now);
      if p.Err? {
        return Err(p.error);
      }
      var pid := p.value.id;
      assert StatusesOf(statuses, pid) != {};
      r := GetPostById(pid);
      forall a
        ensures a in AccountsOf(accounts, accountSetId) <==> exists s :: s in r.value.statuses && s.account.id == a
      {
        if a in AccountsOf(accounts, accountSetId) {
          assert StatusesFor(statuses, pid, a) != {};
          var k := Element(StatusesFor(statuses, pid, a));
          assert StatusWithAccount(statuses[k], accounts[a]) in r.value.statuses;
        }
        if exists s :: s in r.value.statuses && s.account.id == a {
          var s :| s in r.value.statuses && s.account.id == a;
          assert s.status.accountId in AccountsOf(accounts, accountSetId);
        }
      }
    }
  

    // -------------------------------------------------------------------------------
    // Videos

    /** `db.insert(VideoTable).values(...).returning()`: a video row under the next
        serial id, or a failure when a column is longer than its varchar limit. */
    method InsertVideo(title: string, filePath: string, duration: Option<string>) returns (r: Result<Video>)
      requires Valid()
      modifies this
      ensures Valid()
      ensures var v := Video(old(serials.video), title, filePath, duration, None, None);
        && (!VideoFits(v) ==> r == Err(ValueTooLong("video")) && unchanged(this))
        && (VideoFits(v) ==>
              && r == Ok(v)
              && v.id !in old(videos)
              && videos == old(videos)[v.id := v]
              && serials == old(serials).(video := v.id + 1))
      ensures accountSets == old(accountSets) && accounts == old(accounts)
      ensures posts == old(posts) && statuses == old(statuses)
    {
      var v := Video(serials.video, title, filePath, duration, None, None);
      if !VideoFits(v) {
        return Err(ValueTooLong("video"));
      }
      videos := videos[v.id := v];
      serials := serials.(video := v.id + 1);
      r := Ok(v);
    }

    // -------------------------------------------------------------------------------
    // Post statuses, post edits and post deletion

    /** `markPosted` (`posted`) and `markNotPosted` (not `posted`): one update of the
        status rows of the (post, account) pair; a pair without rows updates nothing. */
    method Mark(postId: int, accountId: int, posted: bool, now: int)
      requires Valid()
      modifies this
      ensures Valid()
      ensures statuses == SetPosted(old(statuses), postId, accountId, posted, now)
      ensures accountSets == old(accountSets) && accounts == old(accounts) && videos == old(videos)
      ensures posts == old(posts) && serials == old(serials)
    {
      var marked := SetPosted(statuses, postId, accountId, posted, now);
      SetPostedEffect(statuses, postId, accountId, posted, now);
      StatusEditKeepsValid(Snapshot(), marked);
      statuses := marked;
    }

    /** `markPosted`. */
    method MarkPosted(postId: int, accountId: int, now: int)
      requires Valid()
      modifies this
      ensures Valid()
      ensures statuses == SetPosted(old(statuses), postId, accountId, true, now)
      ensures accountSets == old(accountSets) && accounts == old(accounts) && videos == old(videos)
      ensures posts == old(posts) && serials == old(serials)
    {
      Mark(postId, accountId, true, now);
    }

    /** `markNotPosted`. */
    method MarkNotPosted(postId: int, accountId: int, now: int)
      requires Valid()
      modifies this
      ensures Valid()
      ensures statuses == SetPosted(old(statuses), postId, accountId, false, now)
      ensures accountSets == old(accountSets) && accounts == old(accounts) && videos == old(videos)
      ensures posts == old(posts) && serials == old(serials)
    {
      Mark(postId, accountId, false, now);
    }

    /** `toggleIsPosted`: reads the pair's status row and marks the pair with the
        negation of its `isPosted`; with no row, reading `isPosted` of `undefined`
        throws. Pairs are unique, so the row read is the pair's only row `k`. */
    method ToggleIsPosted(postId: int, accountId: int, now: int) returns (r: Result<()>, ghost k: int)
      requires Valid()
      modifies this
      ensures Valid()
      ensures r.Err? <==> StatusesFor(old(statuses), postId, accountId) == {}
      ensures r.Err? ==> r.error == StatusUndefined && unchanged(this)
      ensures r.Ok? ==>
        && StatusesFor(old(statuses), postId, accountId) == {k}
        && statuses == SetPosted(old(statuses), postId, accountId, !old(statuses)[k].isPosted, now)
      ensures accountSets == old(accountSets) && accounts == old(accounts) && videos == old(videos)
      ensures posts == old(posts) && serials == old(serials)
    {
      var keys := Enumerate(StatusesFor(statuses, postId, accountId));
      if |keys| == 0 {
        return Err(StatusUndefined), 0;
      }
      var first := keys[0];
      k := first;
      assert first in StatusesFor(statuses, postId, accountId);
      forall j | j in StatusesFor(statuses, postId, accountId)
        ensures j == first
      {
      }
      if statuses[first].isPosted {
        MarkNotPosted(postId, accountId, now);
      } else {
        MarkPosted(postId, accountId, now);
      }
      r := Ok(());
    }

    /** `updatePost`: the supplied date and notes and the update time go to the post
        with that id, if there is one; then the post is read back, which fails with
        "Post not found" for a missing id. */
    method UpdatePost(id: int, scheduledDate: Option<int>, notes: Option<string>, now: int)
      returns (r: Result<PostWithRelations>)
      requires Valid()
      modifies this
      ensures Valid()
      ensures id in old(posts) ==> posts == old(posts)[id := EditedPost(old(posts)[id], scheduledDate, notes, now)]
      ensures id !in old(posts) ==> posts == old(posts) && r == Err(PostNotFound)
      ensures accountSets == old(accountSets) && accounts == old(accounts) && videos == old(videos)
      ensures statuses == old(statuses) && serials == old(serials)
      ensures id in old(posts) ==>
        && r.Ok?
        && r.value.head.post == EditedPost(old(posts)[id], scheduledDate, notes, now)
        && (forall s :: s in r.value.statuses <==>
              s.status.id in StatusesOf(statuses, id) && s.status == statuses[s.status.id] &&
              s.account == accounts[s.status.accountId])
        && |r.value.statuses| == |StatusesOf(statuses, id)|
    {
      if id in posts {
        var edited := EditedPost(posts[id], scheduledDate, notes, now);
        PostEditKeepsValid(Snapshot(), id, edited);
        posts := posts[id := edited];
      }
      r := GetPostById(id);
    }

    /** `deletePost`: the post's statuses, then the post, in one transaction; deleting a
        missing post deletes nothing. */
    method DeletePost(id: int)
      requires Valid()
      modifies this
      ensures Valid()
      ensures id !in posts && StatusesOf(statuses, id) == {}
      ensures posts == old(posts) - {id}
      ensures statuses == StatusesWithoutPost(old(statuses), id)
      ensures accountSets == old(accountSets) && accounts == old(accounts) && videos == old(videos)
      ensures serials == old(serials)
    {
      DeletePostKeepsValid(Snapshot(), id);
      statuses := StatusesWithoutPost(statuses, id);
      posts := posts - {id};
    }
  }
}
