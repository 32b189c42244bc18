/** What the statements of `updateAccountSet` do to the tables, stage by stage: the
    delete of the accounts no longer submitted, the update loop over the accounts kept,
    the insert of the new ones and the fan-out of their statuses over the set's posts. */
module Roster {
  import opened Common
  import opened Schema
  import opened Seqs
  import opened Engine
  import opened Reconcile
  import opened Invariants

  /** `keys` lists the members of `s`, each once. */
  ghost predicate Lists(keys: seq<int>, s: set<int>) {
    && (forall x :: x in keys <==> x in s)
    && (forall i :: 0 <= i < |keys| ==> keys[i] in s)
    && (forall i, j :: 0 <= i < j < |keys| ==> keys[i] != keys[j])
    && |keys| == |s|
  }

  /** `existing` is what `SELECT * FROM account WHERE account_set_id = id` returns: the
      accounts of the set, as stored. */
  ghost predicate ListsSet(accounts: map<int, Account>, id: int, existing: seq<Account>) {
    && (forall a :: a in existing ==> a.id in AccountsOf(accounts, id) && accounts[a.id] == a)
    && (forall k :: k in AccountsOf(accounts, id) ==> accounts[k] in existing)
  }

  /** `setPosts` is what `SELECT * FROM post WHERE account_set_id = id` returns: every
      post of the set once. */
  ghost predicate ListsPosts(posts: map<int, Post>, id: int, setPosts: seq<Post>) {
    && |setPosts| == |PostsOf(posts, id)|
    && (forall i :: 0 <= i < |setPosts| ==> setPosts[i].id in PostsOf(posts, id))
    && (forall p :: p in PostsOf(posts, id) ==> exists i :: 0 <= i < |setPosts| && setPosts[i].id == p)
    && (forall i, j :: 0 <= i < j < |setPosts| ==> setPosts[i].id != setPosts[j].id)
  }

  /** Reading the rows of an enumeration of the set's accounts lists the set. */
  lemma AccountRowsListSet(accounts: map<int, Account>, id: int, keys: seq<int>)
    requires forall k :: k in accounts ==> accounts[k].id == k
    requires Lists(keys, AccountsOf(accounts, id))
    ensures ListsSet(accounts, id, Rows(accounts, keys))
  {
    var rows := Rows(accounts, keys);
    forall k | k in AccountsOf(accounts, id)
      ensures accounts[k] in rows
    {
      var i :| 0 <= i < |keys| && keys[i] == k;
      assert rows[i] == accounts[k];
    }
  }

  /** Reading the rows of an enumeration of the set's posts lists its posts. */
  lemma PostRowsListPosts(posts: map<int, Post>, id: int, keys: seq<int>)
    requires forall k :: k in posts ==> posts[k].id == k
    requires Lists(keys, PostsOf(posts, id))
    ensures ListsPosts(posts, id, Rows(posts, keys))
  {
    var rows := Rows(posts, keys);
    forall p | p in PostsOf(posts, id)
      ensures exists i :: 0 <= i < |rows| && rows[i].id == p
    {
      var i :| 0 <= i < |keys| && keys[i] == p;
      assert rows[i].id == p;
    }
  }

  /** Against a listing of the set, an id matches an existing account exactly when it
      is the id of an account of the set. */
  lemma MatchesSet(accounts: map<int, Account>, id: int, existing: seq<Account>, x: Option<int>)
    requires forall k :: k in accounts ==> accounts[k].id == k
    requires ListsSet(accounts, id, existing)
    ensures Matches(existing, x) <==> x.Some? && x.value in AccountsOf(accounts, id)
  {
    if x.Some? && x.value in AccountsOf(accounts, id) {
      var k := x.value;
      assert k in AccountsOf(accounts, id);
      assert accounts[k] in existing;
      var i :| 0 <= i < |existing| && existing[i] == accounts[x.value];
    }
    if Matches(existing, x) {
      var i :| 0 <= i < |existing| && Some(existing[i].id) == x;
      assert existing[i] in existing;
    }
  }

  /** The delete removes exactly the accounts of the set that the submission no longer
      lists. */
  lemma DeleteGroupDoomed(accounts: map<int, Account>, id: int, existing: seq<Account>, submitted: seq<NewAccount>)
    requires forall k :: k in accounts ==> accounts[k].id == k
    requires ListsSet(accounts, id, existing)
    ensures forall k :: Doomed(accounts, id, Ids(ToDelete(existing, submitted)), k) <==>
      k in AccountsOf(accounts, id) && !Submits(submitted, k)
  {
    DeleteGroupExact(existing, submitted);
    forall k
      ensures Doomed(accounts, id, Ids(ToDelete(existing, submitted)), k) <==>
        k in AccountsOf(accounts, id) && !Submits(submitted, k)
    {
      if k in AccountsOf(accounts, id) && !Submits(submitted, k) {
        assert accounts[k] in ToDelete(existing, submitted);
      }
      if Doomed(accounts, id, Ids(ToDelete(existing, submitted)), k) {
        var e := IdOwner(ToDelete(existing, submitted), k);
      }
    }
  }

  /** Dropping an account from a set that has a post always fails: the post has a status
      for that account, and no on-delete action removes it. */
  lemma RemovalBlockedByPosts(t: Tables, id: int, ids: set<int>, k: int)
    requires Integrity(t) && Consistent(t)
    requires Doomed(t.accounts, id, ids, k) && PostsOf(t.posts, id) != {}
    ensures DeleteAccounts(t.accounts, t.statuses, id, ids).Err?
  {
    var p := Element(PostsOf(t.posts, id));
    var s := Element(StatusesFor(t.statuses, p, k));
    assert Doomed(t.accounts, id, ids, t.statuses[s].accountId);
  }

  /** The update loop over the accounts that stayed leaves accounts of other sets as they
      were, gives each kept account of the set the columns its submissions wrote, last one
      last, and keeps every account in its set and within its column lengths. */
  lemma UpdateStage(accounts: map<int, Account>, id: int, existing: seq<Account>, submitted: seq<NewAccount>,
                    kept: map<int, Account>, updated: map<int, Account>)
    requires forall k :: k in accounts ==> accounts[k].id == k && AccountFits(accounts[k])
    requires ListsSet(accounts, id, existing)
    requires forall k :: k in kept ==> k in accounts && kept[k] == accounts[k]
    requires forall k :: k in kept && k in AccountsOf(accounts, id) ==> Submits(submitted, k)
    requires ApplyUpdates(kept, id, ToUpdate(existing, submitted)) == Ok(updated)
    ensures updated.Keys == kept.Keys
    ensures forall k :: k in updated ==>
      && updated[k].id == k && AccountFits(updated[k])
      && updated[k].accountSetId == accounts[k].accountSetId
    ensures forall k :: k in updated && accounts[k].accountSetId != id ==> updated[k] == accounts[k]
    ensures forall k :: k in updated && accounts[k].accountSetId == id ==>
      updated[k] == Overlaid(accounts[k], submitted, id)
  {
    var updates := ToUpdate(existing, submitted);
    ApplyUpdatesEffect(kept, id, updates);
    ApplyUpdatesOutcome(kept, id, updates);
    UpdateInsertPartition(existing, submitted);
    forall k | k in updated
      ensures updated[k].accountSetId == accounts[k].accountSetId
      ensures accounts[k].accountSetId != id ==> updated[k] == accounts[k]
      ensures accounts[k].accountSetId == id ==> updated[k] == Overlaid(accounts[k], submitted, id)
    {
      if accounts[k].accountSetId == id {
        assert k in AccountsOf(accounts, id);
        forall a | a in submitted && a.id == Some(k)
          ensures Existing(existing)(a)
        {
          MatchesSet(accounts, id, existing, a.id);
        }
        OverlaidFiltered(accounts[k], submitted, Existing(existing), id);
        OverlaidLastWins(accounts[k], submitted, id);
      } else {
        assert !Submits(updates, k) by {
          forall i | 0 <= i < |updates|
            ensures updates[i].id != Some(k)
          {
            assert updates[i] in updates;
            MatchesSet(accounts, id, existing, updates[i].id);
          }
        }
        OverlaidUntouched(accounts[k], updates, id);
      }
    }
  }

  /** Each status the fan-out adds is an unposted status of a post of the set and an
      inserted account. */
  lemma FanOutAddsUnposted(t: Tables, id: int, inserted: seq<Account>, setPosts: seq<Post>,
                           statuses: map<int, PostStatus>, serial: int, serial': int, now: int)
    requires ListsPosts(t.posts, id, setPosts)
    requires InsertStatuses(t.statuses, serial, FanOut(setPosts, inserted), now) == Ok((statuses, serial'))
    ensures forall k :: k in statuses && k !in t.statuses ==> NewUnposted(t, statuses[k], k, id, inserted)
  {
    var fan := FanOut(setPosts, inserted);
    FanOutRows(setPosts, inserted);
    forall k | k in statuses && k !in t.statuses
      ensures NewUnposted(t, statuses[k], k, id, inserted)
    {
      InsertedStatusAt(t.statuses, serial, fan, now, k);
      assert PairsListed(setPosts, inserted, fan[k - serial]);
      var i, j :| 0 <= i < |setPosts| && 0 <= j < |inserted| && fan[k - serial] == Unposted(setPosts[i].id, inserted[j].id);
      assert inserted[j] in inserted;
    }
  }

  /** The fan-out gives every post of the set a status for every inserted account. */
  lemma FanOutCoversPairs(t: Tables, id: int, inserted: seq<Account>, setPosts: seq<Post>,
                          statuses: map<int, PostStatus>, serial: int, serial': int, now: int)
    requires ListsPosts(t.posts, id, setPosts)
    requires InsertStatuses(t.statuses, serial, FanOut(setPosts, inserted), now) == Ok((statuses, serial'))
    ensures forall p, a :: p in PostsOf(t.posts, id) && a in Ids(inserted) ==> StatusesFor(statuses, p, a) != {}
  {
    var fan := FanOut(setPosts, inserted);
    FanOutMembers(setPosts, inserted);
    forall p, a | p in PostsOf(t.posts, id) && a in Ids(inserted)
      ensures StatusesFor(statuses, p, a) != {}
    {
      var i :| 0 <= i < |setPosts| && setPosts[i].id == p;
      var owner := IdOwner(inserted, a);
      var j :| 0 <= j < |inserted| && inserted[j] == owner;
      assert Unposted(p, a) in fan;
      var m :| 0 <= m < |fan| && fan[m] == Unposted(p, a);
      assert serial + m in StatusesFor(statuses, p, a);
    }
  }

  /** No two statuses the fan-out adds pair the same post and account. */
  lemma FanOutPairsDistinct(t: Tables, id: int, inserted: seq<Account>, setPosts: seq<Post>,
                            statuses: map<int, PostStatus>, serial: int, serial': int, now: int)
    requires ListsPosts(t.posts, id, setPosts)
    requires forall i, j :: 0 <= i < j < |inserted| ==> inserted[i].id != inserted[j].id
    requires InsertStatuses(t.statuses, serial, FanOut(setPosts, inserted), now) == Ok((statuses, serial'))
    ensures forall k, j :: k in statuses && j in statuses && k !in t.statuses && j !in t.statuses && k != j ==>
      statuses[k].postId != statuses[j].postId || statuses[k].accountId != statuses[j].accountId
  {
    var fan := FanOut(setPosts, inserted);
    FanOutDistinct(setPosts, inserted);
    forall k, j | k in statuses && j in statuses && k !in t.statuses && j !in t.statuses && k != j
      ensures statuses[k].postId != statuses[j].postId || statuses[k].accountId != statuses[j].accountId
    {
      InsertedStatusAt(t.statuses, serial, fan, now, k);
      InsertedStatusAt(t.statuses, serial, fan, now, j);
      if k < j {
        assert fan[k - serial].postId != fan[j - serial].postId || fan[k - serial].accountId != fan[j - serial].accountId;
      } else {
        assert fan[j - serial].postId != fan[k - serial].postId || fan[j - serial].accountId != fan[k - serial].accountId;
      }
    }
  }

  /** The status table grows by one row per (post of the set, inserted account) pair. */
  lemma FanOutCount(t: Tables, id: int, inserted: seq<Account>, setPosts: seq<Post>,
                    statuses: map<int, PostStatus>, serial: int, serial': int, now: int)
    requires ListsPosts(t.posts, id, setPosts)
    requires InsertStatuses(t.statuses, serial, FanOut(setPosts, inserted), now) == Ok((statuses, serial'))
    ensures |statuses.Keys| == |t.statuses.Keys| + |PostsOf(t.posts, id)| * |inserted|
  {
    var fan := FanOut(setPosts, inserted);
    FanOutLength(setPosts, inserted);
    var added := Range(serial, serial + |fan|);
    RangeSize(serial, serial + |fan|);
    assert statuses.Keys == t.statuses.Keys + added;
    assert t.statuses.Keys * added == {};
    assert |statuses.Keys| == |t.statuses.Keys| + |added|;
    assert |added| == |PostsOf(t.posts, id)| * |inserted|;
  }

  /** The status stage of `updateAccountSet`: stored statuses stay; each added one is an
      unposted status of a post of the set and an inserted account, under a fresh serial
      key; every such pair gets one, no pair gets two, and the table grows by exactly the
      number of pairs. Nothing is inserted when no account is or the set has no post. */
  lemma FanOutStage(t: Tables, id: int, inserted: seq<Account>, setPosts: seq<Post>,
                    statuses: map<int, PostStatus>, serial: int, serial': int, now: int)
    requires forall k :: k in t.statuses ==> k < serial
    requires inserted != [] ==> ListsPosts(t.posts, id, setPosts)
    requires forall i, j :: 0 <= i < j < |inserted| ==> inserted[i].id != inserted[j].id
    requires FanOut(setPosts, inserted) == [] ==> statuses == t.statuses && serial' == serial
    requires FanOut(setPosts, inserted) != [] ==>
      InsertStatuses(t.statuses, serial, FanOut(setPosts, inserted), now) == Ok((statuses, serial'))
    ensures forall k :: k in statuses ==> k < serial'
    ensures forall k :: k in t.statuses ==> k in statuses && statuses[k] == t.statuses[k]
    ensures forall k :: k in statuses && k !in t.statuses ==> NewUnposted(t, statuses[k], k, id, inserted)
    ensures forall p, a :: p in PostsOf(t.posts, id) && a in Ids(inserted) ==> StatusesFor(statuses, p, a) != {}
    ensures forall k, j :: k in statuses && j in statuses && k !in t.statuses && j !in t.statuses && k != j ==>
      statuses[k].postId != statuses[j].postId || statuses[k].accountId != statuses[j].accountId
    ensures |statuses.Keys| == |t.statuses.Keys| + |PostsOf(t.posts, id)| * |inserted|
  {
    FanOutEmpty(setPosts, inserted);
    if FanOut(setPosts, inserted) == [] {
      if inserted != [] {
        assert |PostsOf(t.posts, id)| == 0;
      }
    } else {
      FanOutAddsUnposted(t, id, inserted, setPosts, statuses, serial, serial', now);
      FanOutCoversPairs(t, id, inserted, setPosts, statuses, serial, serial', now);
      FanOutPairsDistinct(t, id, inserted, setPosts, statuses, serial, serial', now);
      FanOutCount(t, id, inserted, setPosts, statuses, serial, serial', now);
    }
  }

  /** The account stages of `updateAccountSet`, the delete, the update loop and the
      insert, as the statements compute them, in the terms of `RosterUpdate`: no stored
      status refers to a removed account, the kept accounts stay in their sets within
      their column lengths, and the inserted ones join the set under keys no kept account
      has. */
  lemma AccountsStage(accounts: map<int, Account>, statuses: map<int, PostStatus>, id: int,
                      existing: seq<Account>, submitted: seq<NewAccount>,
                      kept: map<int, Account>, updated: map<int, Account>,
                      accounts': map<int, Account>, serial: int, serial': int, inserted: seq<Account>)
    requires forall k :: k in accounts ==> accounts[k].id == k && AccountFits(accounts[k])
    requires forall k :: k in statuses ==> statuses[k].accountId in accounts
    requires ListsSet(accounts, id, existing)
    requires ToDelete(existing, submitted) == [] ==> kept == accounts
    requires ToDelete(existing, submitted) != [] ==>
      DeleteAccounts(accounts, statuses, id, Ids(ToDelete(existing, submitted))) == Ok(kept)
    requires ApplyUpdates(kept, id, ToUpdate(existing, submitted)) == Ok(updated)
    requires ToInsert(existing, submitted) == [] ==> accounts' == updated && inserted == []
    requires ToInsert(existing, submitted) != [] ==>
      InsertAccounts(updated, serial, id, ToInsert(existing, submitted)) == Ok(Inserted(accounts', serial', inserted))
    ensures forall k :: k in statuses ==> statuses[k].accountId in updated
    ensures updated.Keys <= accounts.Keys
    ensures accounts'.Keys == updated.Keys + Ids(inserted)
    ensures forall k :: k in updated ==>
      && accounts'[k].id == k && AccountFits(accounts'[k])
      && accounts'[k].accountSetId == accounts[k].accountSetId
    ensures forall a :: a in inserted ==>
      a.id !in updated && a.id in accounts' && accounts'[a.id] == a && a.accountSetId == id && AccountFits(a)
    ensures forall i, j :: 0 <= i < j < |inserted| ==> inserted[i].id != inserted[j].id
  {
    var toInsert := ToInsert(existing, submitted);
    DeleteGroupDoomed(accounts, id, existing, submitted);
    UpdateStage(accounts, id, existing, submitted, kept, updated);
    if toInsert != [] {
      InsertedRows(updated, serial, id, toInsert);
      InsertedTable(updated, serial, id, toInsert);
      forall a | a in inserted
        ensures a.id !in updated && a.id in accounts' && accounts'[a.id] == a && a.accountSetId == id && AccountFits(a)
      {
        var i :| 0 <= i < |inserted| && inserted[i] == a;
      }
    }
  }

  /** The same stages as the action's caller sees them: accounts of other sets stay; the
      set keeps exactly the accounts still submitted, as their submissions wrote them,
      and gains one account per submission of the insert group, in order, under its
      submitted id when it has one. */
  lemma AccountsStageEffect(accounts: map<int, Account>, statuses: map<int, PostStatus>, id: int,
                      existing: seq<Account>, submitted: seq<NewAccount>,
                      kept: map<int, Account>, updated: map<int, Account>,
                      accounts': map<int, Account>, serial: int, serial': int, inserted: seq<Account>)
    requires forall k :: k in accounts ==> accounts[k].id == k && AccountFits(accounts[k])
    requires forall k :: k in statuses ==> statuses[k].accountId in accounts
    requires ListsSet(accounts, id, existing)
    requires ToDelete(existing, submitted) == [] ==> kept == accounts
    requires ToDelete(existing, submitted) != [] ==>
      DeleteAccounts(accounts, statuses, id, Ids(ToDelete(existing, submitted))) == Ok(kept)
    requires ApplyUpdates(kept, id, ToUpdate(existing, submitted)) == Ok(updated)
    requires ToInsert(existing, submitted) == [] ==> accounts' == updated && inserted == []
    requires ToInsert(existing, submitted) != [] ==>
      InsertAccounts(updated, serial, id, ToInsert(existing, submitted)) == Ok(Inserted(accounts', serial', inserted))
    ensures forall k :: k in accounts' <==>
      || (k in accounts && (accounts[k].accountSetId != id || Submits(submitted, k)))
      || k in Ids(inserted)
    ensures forall k :: k in accounts && accounts[k].accountSetId != id ==> k in accounts' && accounts'[k] == accounts[k]
    ensures forall k :: k in AccountsOf(accounts, id) && Submits(submitted, k) ==>
      k in accounts' && accounts'[k] == Overlaid(accounts[k], submitted, id)
    ensures |inserted| == |ToInsert(existing, submitted)|
    ensures forall i :: 0 <= i < |inserted| ==>
      && inserted[i] == AccountRow(inserted[i].id, id, ToInsert(existing, submitted)[i])
      && (ToInsert(existing, submitted)[i].id.Some? ==> inserted[i].id == ToInsert(existing, submitted)[i].id.value)
  {
    var toInsert := ToInsert(existing, submitted);
    DeleteGroupDoomed(accounts, id, existing, submitted);
    UpdateStage(accounts, id, existing, submitted, kept, updated);
    if toInsert != [] {
      InsertedRows(updated, serial, id, toInsert);
      InsertedTable(updated, serial, id, toInsert);
    }
  }

  /** The facts the stages establish are those of a `RosterUpdate`. */
  lemma StagesMakeRosterUpdate(t: Tables, id: int, updatedSet: AccountSet, updated: map<int, Account>,
                               accounts': map<int, Account>, inserted: seq<Account>, statuses': map<int, PostStatus>)
    requires forall k :: k in t.accountSets ==> t.accountSets[k].id == k && AccountSetFits(t.accountSets[k])
    requires id in t.accountSets && updatedSet.id == id && AccountSetFits(updatedSet)
    requires forall k :: k in t.statuses ==> t.statuses[k].accountId in updated
    requires updated.Keys <= t.accounts.Keys
    requires accounts'.Keys == updated.Keys + Ids(inserted)
    requires forall k :: k in updated ==>
      && accounts'[k].id == k && AccountFits(accounts'[k])
      && accounts'[k].accountSetId == t.accounts[k].accountSetId
    requires forall a :: a in inserted ==>
      a.id !in updated && a.id in accounts' && accounts'[a.id] == a && a.accountSetId == id && AccountFits(a)
    requires forall k :: k in t.statuses ==> k in statuses' && statuses'[k] == t.statuses[k]
    requires forall k :: k in statuses' && k !in t.statuses ==> NewUnposted(t, statuses'[k], k, id, inserted)
    requires forall p, a :: p in PostsOf(t.posts, id) && a in Ids(inserted) ==> StatusesFor(statuses', p, a) != {}
    requires forall k, j :: k in statuses' && j in statuses' && k !in t.statuses && j !in t.statuses && k != j ==>
      statuses'[k].postId != statuses'[j].postId || statuses'[k].accountId != statuses'[j].accountId
    ensures RosterUpdate(t, Tables(t.accountSets[id := updatedSet], accounts', t.videos, t.posts, statuses'),
                         id, updated.Keys, inserted)
  {
  }

  /** What `updateAccountSet` writes to the account and status tables: the tables after
      the statements, the serial counters and the rows the account insert returned. */
  datatype Writes = Writes(accounts: map<int, Account>, accountSerial: int, inserted: seq<Account>,
                           statuses: map<int, PostStatus>, statusSerial: int)

  /** The account and status statements of `updateAccountSet` on tables `t`, once the set
      is found and its new columns fit: the delete of the accounts no longer submitted
      (skipped when there are none), the update loop, and, when there are accounts to
      insert, their insert and the status fan-out over the set's posts (skipped when it
      has no rows). `existing` and `setPosts` are what the two selects return, in the
      database's order. */
  function RosterWrites(t: Tables, id: int, existing: seq<Account>, submitted: seq<NewAccount>, setPosts: seq<Post>,
                        accountSerial: int, statusSerial: int, now: int): (r: Result<Writes>)
    ensures r.Err? ==> r.error in {ForeignKeyViolation("post_status"), AccountIdRequired, ValueTooLong("account"),
                                   UniqueViolation("account"), UniqueViolation("post_status")}
  {
    var toDelete := ToDelete(existing, submitted);
    var kept :- if toDelete == [] then Ok(t.accounts) else DeleteAccounts(t.accounts, t.statuses, id, Ids(toDelete));
    var updated :- ApplyUpdates(kept, id, ToUpdate(existing, submitted));
    var toInsert := ToInsert(existing, submitted);
    if toInsert == [] then Ok(Writes(updated, accountSerial, [], t.statuses, statusSerial))
    else
      var ins :- InsertAccounts(updated, accountSerial, id, toInsert);
      var fan := FanOut(setPosts, ins.rows);
      if fan == [] then Ok(Writes(ins.table, ins.serial, ins.rows, t.statuses, statusSerial))
      else
        var st :- InsertStatuses(t.statuses, statusSerial, fan, now);
        Ok(Writes(ins.table, ins.serial, ins.rows, st.0, st.1))
  }

  /** The intermediate account tables of a successful `RosterWrites`: after the delete and
      after the update loop. */
  lemma RosterWritesStages(t: Tables, id: int, existing: seq<Account>, submitted: seq<NewAccount>, setPosts: seq<Post>,
                           accountSerial: int, statusSerial: int, now: int)
    returns (kept: map<int, Account>, updated: map<int, Account>)
    requires RosterWrites(t, id, existing, submitted, setPosts, accountSerial, statusSerial, now).Ok?
    ensures var w := RosterWrites(t, id, existing, submitted, setPosts, accountSerial, statusSerial, now).value;
      && (ToDelete(existing, submitted) == [] ==> kept == t.accounts)
      && (ToDelete(existing, submitted) != [] ==>
            DeleteAccounts(t.accounts, t.statuses, id, Ids(ToDelete(existing, submitted))) == Ok(kept))
      && ApplyUpdates(kept, id, ToUpdate(existing, submitted)) == Ok(updated)
      && (ToInsert(existing, submitted) == [] ==> w.accounts == updated && w.inserted == [])
      && (ToInsert(existing, submitted) != [] ==>
            InsertAccounts(updated, accountSerial, id, ToInsert(existing, submitted)) ==
            Ok(Inserted(w.accounts, w.accountSerial, w.inserted)))
      && (FanOut(setPosts, w.inserted) == [] ==> w.statuses == t.statuses && w.statusSerial == statusSerial)
      && (FanOut(setPosts, w.inserted) != [] ==>
            InsertStatuses(t.statuses, statusSerial, FanOut(setPosts, w.inserted), now) == Ok((w.statuses, w.statusSerial)))
  {
    var toDelete := ToDelete(existing, submitted);
    kept := if toDelete == [] then t.accounts else DeleteAccounts(t.accounts, t.statuses, id, Ids(toDelete)).value;
    updated := ApplyUpdates(kept, id, ToUpdate(existing, submitted)).value;
    FanOutEmpty(setPosts, []);
  }

  /** `updateAccountSet` keeps the schema and the invariants: once the set is found and
      its new columns fit, the tables its statements leave behind satisfy both, and the
      status serial stays ahead of every status key. */
  lemma RosterKeepsValid(t: Tables, id: int, updatedSet: AccountSet, existing: seq<Account>, submitted: seq<NewAccount>,
                         setPosts: seq<Post>, accountSerial: int, statusSerial: int, now: int)
    requires Integrity(t) && Consistent(t) && forall k :: k in t.statuses ==> k < statusSerial
    requires id in t.accountSets && updatedSet.id == id && AccountSetFits(updatedSet)
    requires ListsSet(t.accounts, id, existing)
    requires ToInsert(existing, submitted) != [] ==> ListsPosts(t.posts, id, setPosts)
    requires RosterWrites(t, id, existing, submitted, setPosts, accountSerial, statusSerial, now).Ok?
    ensures var w := RosterWrites(t, id, existing, submitted, setPosts, accountSerial, statusSerial, now).value;
      && Integrity(Tables(t.accountSets[id := updatedSet], w.accounts, t.videos, t.posts, w.statuses))
      && Consistent(Tables(t.accountSets[id := updatedSet], w.accounts, t.videos, t.posts, w.statuses))
      && forall k :: k in w.statuses ==> k < w.statusSerial
  {
    var w := RosterWrites(t, id, existing, submitted, setPosts, accountSerial, statusSerial, now).value;
    var kept, updated := RosterWritesStages(t, id, existing, submitted, setPosts, accountSerial, statusSerial, now);
    AccountsStage(t.accounts, t.statuses, id, existing, submitted, kept, updated, w.accounts, accountSerial, w.accountSerial, w.inserted);
    FanOutStage(t, id, w.inserted, setPosts, w.statuses, statusSerial, w.statusSerial, now);
    var t' := Tables(t.accountSets[id := updatedSet], w.accounts, t.videos, t.posts, w.statuses);
    StagesMakeRosterUpdate(t, id, updatedSet, updated, w.accounts, w.inserted, w.statuses);
    RosterUpdateKeepsIntegrity(t, t', id, updated.Keys, w.inserted);
    RosterUpdateKeepsConsistent(t, t', id, updated.Keys, w.inserted);
  }

  /** The accounts after `updateAccountSet`: accounts of other sets stay; the set keeps
      exactly the accounts still submitted, each as the last submission with its id wrote
      it, and gains one account per submission of the insert group, in order, under its
      submitted id when it has one. */
  lemma RosterAccounts(t: Tables, id: int, existing: seq<Account>, submitted: seq<NewAccount>,
                       setPosts: seq<Post>, accountSerial: int, statusSerial: int, now: int)
    requires Integrity(t)
    requires ListsSet(t.accounts, id, existing)
    requires RosterWrites(t, id, existing, submitted, setPosts, accountSerial, statusSerial, now).Ok?
    ensures var w := RosterWrites(t, id, existing, submitted, setPosts, accountSerial, statusSerial, now).value;
      && (forall k :: k in w.accounts <==>
            || (k in t.accounts && (t.accounts[k].accountSetId != id || Submits(submitted, k)))
            || k in Ids(w.inserted))
      && (forall k :: k in t.accounts && t.accounts[k].accountSetId != id ==>
            k in w.accounts && w.accounts[k] == t.accounts[k])
      && (forall k :: k in AccountsOf(t.accounts, id) && Submits(submitted, k) ==>
            k in w.accounts && w.accounts[k] == Overlaid(t.accounts[k], submitted, id))
      && |w.inserted| == |ToInsert(existing, submitted)|
      && (forall i :: 0 <= i < |w.inserted| ==>
            && w.inserted[i] == AccountRow(w.inserted[i].id, id, ToInsert(existing, submitted)[i])
            && (ToInsert(existing, submitted)[i].id.Some? ==> w.inserted[i].id == ToInsert(existing, submitted)[i].id.value))
  {
    var w := RosterWrites(t, id, existing, submitted, setPosts, accountSerial, statusSerial, now).value;
    var kept, updated := RosterWritesStages(t, id, existing, submitted, setPosts, accountSerial, statusSerial, now);
    AccountsStageEffect(t.accounts, t.statuses, id, existing, submitted, kept, updated, w.accounts, accountSerial, w.accountSerial, w.inserted);
  }

  /** The statuses after `updateAccountSet`: the stored ones stay; each added one is an
      unposted status of a post of the set and an inserted account; every such pair gets
      one; and there are exactly (posts of the set) x (inserted accounts) of them. */
  lemma RosterStatuses(t: Tables, id: int, existing: seq<Account>, submitted: seq<NewAccount>,
                       setPosts: seq<Post>, accountSerial: int, statusSerial: int, now: int)
    requires Integrity(t) && forall k :: k in t.statuses ==> k < statusSerial
    requires ListsSet(t.accounts, id, existing)
    requires ToInsert(existing, submitted) != [] ==> ListsPosts(t.posts, id, setPosts)
    requires RosterWrites(t, id, existing, submitted, setPosts, accountSerial, statusSerial, now).Ok?
    ensures var w := RosterWrites(t, id, existing, submitted, setPosts, accountSerial, statusSerial, now).value;
      && (forall k :: k in t.statuses ==> k in w.statuses && w.statuses[k] == t.statuses[k])
      && (forall k :: k in w.statuses && k !in t.statuses ==> NewUnposted(t, w.statuses[k], k, id, w.inserted))
      && (forall p, a :: p in PostsOf(t.posts, id) && a in Ids(w.inserted) ==> StatusesFor(w.statuses, p, a) != {})
      && |w.statuses.Keys| == |t.statuses.Keys| + |PostsOf(t.posts, id)| * |w.inserted|
  {
    var w := RosterWrites(t, id, existing, submitted, setPosts, accountSerial, statusSerial, now).value;
    var kept, updated := RosterWritesStages(t, id, existing, submitted, setPosts, accountSerial, statusSerial, now);
    AccountsStage(t.accounts, t.statuses, id, existing, submitted, kept, updated, w.accounts, accountSerial, w.accountSerial, w.inserted);
    FanOutStage(t, id, w.inserted, setPosts, w.statuses, statusSerial, w.statusSerial, now);
  }

  /** How `updateAccountSet` fails once the set is found and fits: dropping an account
      from a set that has posts always fails on the status foreign key; otherwise only a
      column too long or a taken id does; "Account id is required for update" never
      comes up. */
  lemma RosterFailures(t: Tables, id: int, existing: seq<Account>, submitted: seq<NewAccount>,
                       setPosts: seq<Post>, accountSerial: int, statusSerial: int, now: int)
    requires Integrity(t) && Consistent(t) && forall k :: k in t.statuses ==> k < statusSerial
    requires ListsSet(t.accounts, id, existing)
    ensures PostsOf(t.posts, id) != {} && (exists k :: k in AccountsOf(t.accounts, id) && !Submits(submitted, k)) ==>
      RosterWrites(t, id, existing, submitted, setPosts, accountSerial, statusSerial, now) == Err(ForeignKeyViolation("post_status"))
    ensures RosterWrites(t, id, existing, submitted, setPosts, accountSerial, statusSerial, now).Err? ==>
      RosterWrites(t, id, existing, submitted, setPosts, accountSerial, statusSerial, now).error in
        {ForeignKeyViolation("post_status"), ValueTooLong("account"), UniqueViolation("account")}
  {
    var toDelete := ToDelete(existing, submitted);
    DeleteGroupDoomed(t.accounts, id, existing, submitted);
    if PostsOf(t.posts, id) != {} && exists k :: k in AccountsOf(t.accounts, id) && !Submits(submitted, k) {
      var k :| k in AccountsOf(t.accounts, id) && !Submits(submitted, k);
      RemovalBlockedByPosts(t, id, Ids(toDelete), k);
    }
    var kept := if toDelete == [] then Ok(t.accounts) else DeleteAccounts(t.accounts, t.statuses, id, Ids(toDelete));
    if kept.Ok? {
      UpdateGroupHasIds(existing, submitted);
      ApplyUpdatesOutcome(kept.value, id, ToUpdate(existing, submitted));
      var updated := ApplyUpdates(kept.value, id, ToUpdate(existing, submitted));
    }
  }
}
