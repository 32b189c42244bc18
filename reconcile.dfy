/** The pure part of `updateAccountSet`: splitting the submitted roster against the
    accounts the set already has, and the `flatMap` that pairs the set's posts with the
    newly inserted accounts. */
module Reconcile {
  import opened Common
  import opened Schema
  import opened Seqs
  import opened Engine

  /** `accounts.some((account) => account.id === id)`. */
  predicate Submits(submitted: seq<NewAccount>, id: int) {
    exists i :: 0 <= i < |submitted| && submitted[i].id == Some(id)
  }

  /** `existingAccounts.some((existingAccount) => existingAccount.id === id)`; an account
      submitted without an id matches nothing. */
  predicate Matches(existing: seq<Account>, id: Option<int>) {
    exists i :: 0 <= i < |existing| && Some(existing[i].id) == id
  }

  function NotSubmitted(submitted: seq<NewAccount>): Account -> bool {
    (e: Account) => !Submits(submitted, e.id)
  }

  function Existing(existing: seq<Account>): NewAccount -> bool {
    (a: NewAccount) => Matches(existing, a.id)
  }

  function NotExisting(existing: seq<Account>): NewAccount -> bool {
    (a: NewAccount) => !Matches(existing, a.id)
  }

  /** `accountsToDelete`: the set's accounts that the submission no longer lists. */
  function ToDelete(existing: seq<Account>, submitted: seq<NewAccount>): (r: seq<Account>)
    ensures forall i :: 0 <= i < |r| ==> r[i] in existing && !Submits(submitted, r[i].id)
  {
    FilterAccepted(existing, NotSubmitted(submitted));
    FilterMembership(existing, NotSubmitted(submitted));
    Filter(existing, NotSubmitted(submitted))
  }

  /** `accountsToUpdate`: the submitted accounts whose id is already in the set. */
  function ToUpdate(existing: seq<Account>, submitted: seq<NewAccount>): (r: seq<NewAccount>)
    ensures forall i :: 0 <= i < |r| ==> r[i] in submitted && Matches(existing, r[i].id)
  {
    FilterAccepted(submitted, Existing(existing));
    FilterMembership(submitted, Existing(existing));
    Filter(submitted, Existing(existing))
  }

  /** `accountsToInsert`: the submitted accounts whose id is not in the set, including
      every account submitted without an id. */
  function ToInsert(existing: seq<Account>, submitted: seq<NewAccount>): (r: seq<NewAccount>)
    ensures forall i :: 0 <= i < |r| ==> r[i] in submitted && !Matches(existing, r[i].id)
  {
    FilterAccepted(submitted, NotExisting(existing));
    FilterMembership(submitted, NotExisting(existing));
    Filter(submitted, NotExisting(existing))
  }

  /** The delete group is exactly the existing accounts whose id no submitted account
      carries, in their original order. */
  lemma DeleteGroupExact(existing: seq<Account>, submitted: seq<NewAccount>)
    ensures forall e :: e in ToDelete(existing, submitted) <==> e in existing && !Submits(submitted, e.id)
    ensures IsSubsequence(ToDelete(existing, submitted), existing)
  {
    FilterMembership(existing, NotSubmitted(submitted));
    FilterIsSubsequence(existing, NotSubmitted(submitted));
  }

  /** The update and insert groups are order-preserving filters of the submission that
      never share an element and together hold every submitted account exactly once. */
  lemma UpdateInsertPartition(existing: seq<Account>, submitted: seq<NewAccount>)
    ensures forall a :: a in ToUpdate(existing, submitted) <==> a in submitted && Matches(existing, a.id)
    ensures forall a :: a in ToInsert(existing, submitted) <==> a in submitted && !Matches(existing, a.id)
    ensures IsSubsequence(ToUpdate(existing, submitted), submitted)
    ensures IsSubsequence(ToInsert(existing, submitted), submitted)
    ensures |ToUpdate(existing, submitted)| + |ToInsert(existing, submitted)| == |submitted|
    ensures multiset(ToUpdate(existing, submitted)) + multiset(ToInsert(existing, submitted)) == multiset(submitted)
  {
    FilterMembership(submitted, Existing(existing));
    FilterMembership(submitted, NotExisting(existing));
    FilterIsSubsequence(submitted, Existing(existing));
    FilterIsSubsequence(submitted, NotExisting(existing));
    FilterSplits(submitted, Existing(existing), NotExisting(existing));
  }

  /** Every account in the update group carries the id of an existing account, so the
      "Account id is required for update" error can never be thrown. */
  lemma UpdateGroupHasIds(existing: seq<Account>, submitted: seq<NewAccount>)
    ensures forall a :: a in ToUpdate(existing, submitted) ==>
      a.id.Some? && exists i :: 0 <= i < |existing| && existing[i].id == a.id.value
  {
    FilterMembership(submitted, Existing(existing));
  }

  /** `posts.flatMap((post) => insertedAccounts.map(...))`: for each post, in order, one
      unposted row per inserted account. */
  function FanOut(posts: seq<Post>, inserted: seq<Account>): (r: seq<NewPostStatus>)
    ensures forall i :: 0 <= i < |r| ==> !r[i].isPosted && r[i].postedAt.None? && r[i].notes.None?
  {
    if posts == [] then []
    else UnpostedFor(posts[0].id, inserted) + FanOut(posts[1..], inserted)
  }

  /** The fan-out has one row per (post, inserted account) pair. */
  lemma {:induction false} FanOutLength(posts: seq<Post>, inserted: seq<Account>)
    ensures |FanOut(posts, inserted)| == |posts| * |inserted|
  {
    if posts != [] {
      FanOutLength(posts[1..], inserted);
      calc {
        |FanOut(posts, inserted)|;
        |inserted| + (|posts| - 1) * |inserted|;
        |posts| * |inserted|;
      }
    }
  }

  /** Each fan-out row is the unposted row of some post and some inserted account, and
      every such pair has its row. */
  lemma {:induction false} FanOutMembers(posts: seq<Post>, inserted: seq<Account>)
    ensures forall s :: s in FanOut(posts, inserted) <==>
      exists i, j :: 0 <= i < |posts| && 0 <= j < |inserted| && s == Unposted(posts[i].id, inserted[j].id)
  {
    if posts != [] {
      FanOutMembers(posts[1..], inserted);
      var head := UnpostedFor(posts[0].id, inserted);
      forall s
        ensures s in FanOut(posts, inserted) <==>
          exists i, j :: 0 <= i < |posts| && 0 <= j < |inserted| && s == Unposted(posts[i].id, inserted[j].id)
      {
        if s in head {
          var j :| 0 <= j < |head| && head[j] == s;
          assert s == Unposted(posts[0].id, inserted[j].id);
        }
        if exists i, j :: 0 <= i < |posts| && 0 <= j < |inserted| && s == Unposted(posts[i].id, inserted[j].id) {
          var i, j :| 0 <= i < |posts| && 0 <= j < |inserted| && s == Unposted(posts[i].id, inserted[j].id);
          if i == 0 {
            assert head[j] == s;
          } else {
            assert posts[1..][i - 1] == posts[i];
          }
        }
      }
    }
  }

  /** Nothing is fanned out when no account is inserted or the set has no posts. */
  lemma FanOutEmpty(posts: seq<Post>, inserted: seq<Account>)
    ensures FanOut(posts, inserted) == [] <==> posts == [] || inserted == []
  {
    FanOutLength(posts, inserted);
  }

  /** The last submitted account carrying id `id`: the one whose columns the update loop
      leaves in place when an id is submitted more than once. */
  function LastWithId(submitted: seq<NewAccount>, id: int): (a: NewAccount)
    requires Submits(submitted, id)
    ensures a in submitted && a.id == Some(id)
  {
    var last := submitted[|submitted| - 1];
    if last.id == Some(id) then last
    else
      var init := submitted[..|submitted| - 1];
      assert forall i :: 0 <= i < |init| ==> init[i] == submitted[i];
      LastWithId(init, id)
  }

  /** The stored account `stored` after the update loop has written, in order, every
      account of `updates` that carries its id. */
  function Overlaid(stored: Account, updates: seq<NewAccount>, setId: int): (a: Account)
    ensures a.id == stored.id
  {
    if updates == [] then stored
    else
      var last := updates[|updates| - 1];
      var prev := Overlaid(stored, updates[..|updates| - 1], setId);
      if last.id == Some(stored.id) then UpdatedAccount(prev, last, setId) else prev
  }

  /** An account none of the updates names is left as it was. */
  lemma {:induction false} OverlaidUntouched(stored: Account, updates: seq<NewAccount>, setId: int)
    requires !Submits(updates, stored.id)
    ensures Overlaid(stored, updates, setId) == stored
  {
    if updates != [] {
      var init := updates[..|updates| - 1];
      assert forall i :: 0 <= i < |init| ==> init[i] == updates[i];
      OverlaidUntouched(stored, init, setId);
    }
  }

  /** The last submission with the account's id wins, column by column: it decides the
      platform, names and password, and its notes, null included, unless it leaves them out; the set id
      becomes the target set's and the id stays. */
  lemma {:induction false} OverlaidLastWins(stored: Account, updates: seq<NewAccount>, setId: int)
    requires Submits(updates, stored.id)
    ensures var a := Overlaid(stored, updates, setId);
      var last := LastWithId(updates, stored.id);
      && a.id == stored.id && a.accountSetId == setId
      && a.platform == last.platform && a.accountName == last.accountName
      && a.username == last.username && a.password == last.password
      && (last.notes.Given? ==> a.notes == last.notes.value)
  {
    var last := updates[|updates| - 1];
    var init := updates[..|updates| - 1];
    if last.id != Some(stored.id) {
      assert Submits(init, stored.id) by {
        var i :| 0 <= i < |updates| && updates[i].id == Some(stored.id);
        assert init[i] == updates[i];
      }
      OverlaidLastWins(stored, init, setId);
    }
  }

  /** Dropping updates that do not name the account does not change what it becomes. */
  lemma {:induction false} OverlaidFiltered(stored: Account, updates: seq<NewAccount>, keep: NewAccount -> bool, setId: int)
    requires forall a :: a in updates && a.id == Some(stored.id) ==> keep(a)
    ensures Overlaid(stored, Filter(updates, keep), setId) == Overlaid(stored, updates, setId)
  {
    if updates != [] {
      var init := updates[..|updates| - 1];
      var last := updates[|updates| - 1];
      assert updates == init + [last];
      FilterSnoc(init, last, keep);
      OverlaidFiltered(stored, init, keep, setId);
      var f := Filter(updates, keep);
      if keep(last) {
        assert f == Filter(init, keep) + [last];
        assert f[..|f| - 1] == Filter(init, keep) && f[|f| - 1] == last;
        assert Overlaid(stored, f, setId) == (
          if last.id == Some(stored.id) then UpdatedAccount(Overlaid(stored, Filter(init, keep), setId), last, setId)
          else Overlaid(stored, Filter(init, keep), setId));
      } else {
        assert f == Filter(init, keep);
      }
    }
  }

  /** The update loop over `updates`: each needs an id, and each writes the account
      stored under it, if any. */
  function ApplyUpdates(accounts: map<int, Account>, setId: int, updates: seq<NewAccount>): (r: Result<map<int, Account>>)
    ensures r.Err? ==> r.error == AccountIdRequired || r.error == ValueTooLong("account")
  {
    if updates == [] then Ok(accounts)
    else
      var prev :- ApplyUpdates(accounts, setId, updates[..|updates| - 1]);
      var a := updates[|updates| - 1];
      if a.id.None? then Err(AccountIdRequired) else UpdateAccount(prev, a.id.value, setId, a)
  }

  /** A completed update loop keeps the table's keys and leaves every account as its
      updates, in order, have made it. */
  lemma {:induction false} ApplyUpdatesEffect(accounts: map<int, Account>, setId: int, updates: seq<NewAccount>)
    requires forall k :: k in accounts ==> accounts[k].id == k
    requires ApplyUpdates(accounts, setId, updates).Ok?
    ensures ApplyUpdates(accounts, setId, updates).value.Keys == accounts.Keys
    ensures forall k :: k in accounts ==>
      ApplyUpdates(accounts, setId, updates).value[k] == Overlaid(accounts[k], updates, setId)
  {
    if updates != [] {
      var init := updates[..|updates| - 1];
      ApplyUpdatesEffect(accounts, setId, init);
    }
  }

  /** A loop that has failed part-way stops there: the whole loop fails with the same
      error. */
  lemma {:induction false} ApplyUpdatesFailsEarly(accounts: map<int, Account>, setId: int, updates: seq<NewAccount>, n: nat)
    requires n <= |updates|
    requires ApplyUpdates(accounts, setId, updates[..n]).Err?
    ensures ApplyUpdates(accounts, setId, updates) == ApplyUpdates(accounts, setId, updates[..n])
    decreases |updates| - n
  {
    if n < |updates| {
      var init := updates[..|updates| - 1];
      assert init[..n] == updates[..n];
      ApplyUpdatesFailsEarly(accounts, setId, init, n);
    } else {
      assert updates[..n] == updates;
    }
  }

  /** Updates that all carry an id fail only on a value too long for its column, and a
      completed loop leaves every account within its column lengths. */
  lemma {:induction false} ApplyUpdatesOutcome(accounts: map<int, Account>, setId: int, updates: seq<NewAccount>)
    requires forall k :: k in accounts ==> AccountFits(accounts[k])
    ensures ApplyUpdates(accounts, setId, updates).Ok? ==>
      forall k :: k in ApplyUpdates(accounts, setId, updates).value ==> AccountFits(ApplyUpdates(accounts, setId, updates).value[k])
    ensures (forall i :: 0 <= i < |updates| ==> updates[i].id.Some?) && ApplyUpdates(accounts, setId, updates).Err? ==>
      ApplyUpdates(accounts, setId, updates).error == ValueTooLong("account")
  {
    if updates != [] {
      var init := updates[..|updates| - 1];
      assert forall i :: 0 <= i < |init| ==> init[i] == updates[i];
      ApplyUpdatesOutcome(accounts, setId, init);
    }
  }

  /** Distinct posts and distinct accounts give fan-out rows that pair distinct (post,
      account) combinations. */
  lemma {:induction false} FanOutDistinct(posts: seq<Post>, inserted: seq<Account>)
    requires forall i, j :: 0 <= i < j < |posts| ==> posts[i].id != posts[j].id
    requires forall i, j :: 0 <= i < j < |inserted| ==> inserted[i].id != inserted[j].id
    ensures forall i, j :: 0 <= i < j < |FanOut(posts, inserted)| ==>
      FanOut(posts, inserted)[i].postId != FanOut(posts, inserted)[j].postId ||
      FanOut(posts, inserted)[i].accountId != FanOut(posts, inserted)[j].accountId
  {
    if posts != [] {
      var head := UnpostedFor(posts[0].id, inserted);
      var tail := FanOut(posts[1..], inserted);
      FanOutDistinct(posts[1..], inserted);
      FanOutMembers(posts[1..], inserted);
      var f := FanOut(posts, inserted);
      assert f == head + tail;
      forall i, j | 0 <= i < j < |f|
        ensures f[i].postId != f[j].postId || f[i].accountId != f[j].accountId
      {
        if j < |head| {
        } else if i >= |head| {
          assert f[i] == tail[i - |head|] && f[j] == tail[j - |head|];
        } else {
          assert f[j] == tail[j - |head|];
          assert f[j] in tail;
          var pi, aj :| 0 <= pi < |posts[1..]| && 0 <= aj < |inserted| && f[j] == Unposted(posts[1..][pi].id, inserted[aj].id);
          assert posts[1..][pi] == posts[pi + 1];
        }
      }
    }
  }

  /** `s` is the unposted row of one of `posts` and one of `inserted`. */
  predicate PairsListed(posts: seq<Post>, inserted: seq<Account>, s: NewPostStatus) {
    exists i, j :: 0 <= i < |posts| && 0 <= j < |inserted| && s == Unposted(posts[i].id, inserted[j].id)
  }

  /** Every fan-out row is an unposted row of a listed post and a listed account. */
  lemma FanOutRows(posts: seq<Post>, inserted: seq<Account>)
    ensures forall k :: 0 <= k < |FanOut(posts, inserted)| ==> PairsListed(posts, inserted, FanOut(posts, inserted)[k])
  {
    FanOutMembers(posts, inserted);
    forall k | 0 <= k < |FanOut(posts, inserted)|
      ensures PairsListed(posts, inserted, FanOut(posts, inserted)[k])
    {
      assert FanOut(posts, inserted)[k] in FanOut(posts, inserted);
    }
  }
}
