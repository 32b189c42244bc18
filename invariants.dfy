/** The schema's integrity and the status invariants are kept by every change the
    actions make. Each change is described as a relation between the tables before and
    after it; the lemmas show that the relation preserves `Integrity` and `Consistent`. */
module Invariants {
  import opened Common
  import opened Schema
  import opened Engine

  // ---------------------------------------------------------------------------------
  // createAccountSet: a new set with new accounts, and nothing else

  ghost predicate NewSet(t: Tables, t': Tables, s: AccountSet, inserted: seq<Account>) {
    && s.id !in t.accountSets && AccountSetFits(s)
    && t'.accountSets == t.accountSets[s.id := s]
    && t'.accounts.Keys == t.accounts.Keys + Ids(inserted)
    && (forall k :: k in t.accounts ==> t'.accounts[k] == t.accounts[k])
    && (forall a :: a in inserted ==>
          a.id !in t.accounts && t'.accounts[a.id] == a && a.accountSetId == s.id && AccountFits(a))
    && t'.videos == t.videos && t'.posts == t.posts && t'.statuses == t.statuses
  }

  /** A set created with its accounts has no posts yet, so it needs no statuses. */
  lemma NewSetKeepsValid(t: Tables, t': Tables, s: AccountSet, inserted: seq<Account>)
    requires Integrity(t) && Consistent(t)
    requires NewSet(t, t', s, inserted)
    ensures Integrity(t') && Consistent(t')
  {
    forall k | k in t'.accounts
      ensures t'.accounts[k].id == k && t'.accounts[k].accountSetId in t'.accountSets && AccountFits(t'.accounts[k])
    {
      if k !in t.accounts {
        var a := IdOwner(inserted, k);
      }
    }
    forall p, a | p in t'.posts && a in t'.accounts && t'.accounts[a].accountSetId == t'.posts[p].accountSetId
      ensures StatusesFor(t'.statuses, p, a) != {}
    {
      assert a in t.accounts;
    }
  }

  /** A successful insert of the submitted accounts into a set that did not exist yet is
      a `NewSet` change, and the set's accounts are exactly the inserted ones. */
  lemma InsertedIntoNewSet(t: Tables, serial: int, s: AccountSet, submitted: seq<NewAccount>)
    requires Integrity(t)
    requires s.id !in t.accountSets && AccountSetFits(s)
    requires InsertAccounts(t.accounts, serial, s.id, submitted).Ok?
    ensures var ins := InsertAccounts(t.accounts, serial, s.id, submitted).value;
      && NewSet(t, t.(accountSets := t.accountSets[s.id := s], accounts := ins.table), s, ins.rows)
      && AccountsOf(ins.table, s.id) == Ids(ins.rows)
  {
    var ins := InsertAccounts(t.accounts, serial, s.id, submitted).value;
    InsertedRows(t.accounts, serial, s.id, submitted);
    InsertedTable(t.accounts, serial, s.id, submitted);
    forall a | a in ins.rows
      ensures a.id !in t.accounts && ins.table[a.id] == a && a.accountSetId == s.id && AccountFits(a)
    {
      var i :| 0 <= i < |ins.rows| && ins.rows[i] == a;
    }
    forall k | k in ins.table
      ensures k in AccountsOf(ins.table, s.id) <==> k in Ids(ins.rows)
    {
      if k in Ids(ins.rows) {
        var a := IdOwner(ins.rows, k);
      }
    }
  }

  // ---------------------------------------------------------------------------------
  // updateAccountSet: survivors keep their set, inserted accounts join the set, and
  // new unposted statuses pair the set's posts with the inserted accounts

  ghost predicate RosterUpdate(t: Tables, t': Tables, id: int, kept: set<int>, inserted: seq<Account>) {
    && id in t.accountSets
    && t'.accountSets.Keys == t.accountSets.Keys
    && (forall k :: k in t'.accountSets ==> t'.accountSets[k].id == k && AccountSetFits(t'.accountSets[k]))
    && t'.videos == t.videos && t'.posts == t.posts
    && kept <= t.accounts.Keys
    && t'.accounts.Keys == kept + Ids(inserted)
    && (forall a :: a in inserted ==> a.id !in kept && t'.accounts[a.id] == a && a.accountSetId == id && AccountFits(a))
    && (forall k :: k in kept ==>
          && t'.accounts[k].id == k
          && t'.accounts[k].accountSetId == t.accounts[k].accountSetId
          && AccountFits(t'.accounts[k]))
    && (forall k :: k in t.statuses ==> t.statuses[k].accountId in kept)
    && (forall k :: k in t.statuses ==> k in t'.statuses && t'.statuses[k] == t.statuses[k])
    && (forall k :: k in t'.statuses && k !in t.statuses ==> NewUnposted(t, t'.statuses[k], k, id, inserted))
    && (forall p, a :: p in PostsOf(t.posts, id) && a in Ids(inserted) ==> StatusesFor(t'.statuses, p, a) != {})
    && (forall k, j :: k in t'.statuses && j in t'.statuses && k !in t.statuses && j !in t.statuses && k != j ==>
          t'.statuses[k].postId != t'.statuses[j].postId || t'.statuses[k].accountId != t'.statuses[j].accountId)
  }

  /** `s`, stored under `k`, is an unposted status of a post of set `id` and an inserted
      account. */
  ghost predicate NewUnposted(t: Tables, s: PostStatus, k: int, id: int, inserted: seq<Account>) {
    && s.id == k
    && s.postId in PostsOf(t.posts, id)
    && s.accountId in Ids(inserted)
    && !s.isPosted && s.postedAt.None?
  }

  lemma RosterUpdateKeepsIntegrity(t: Tables, t': Tables, id: int, kept: set<int>, inserted: seq<Account>)
    requires Integrity(t)
    requires RosterUpdate(t, t', id, kept, inserted)
    ensures Integrity(t')
  {
    forall k | k in t'.accounts
      ensures t'.accounts[k].id == k && t'.accounts[k].accountSetId in t'.accountSets && AccountFits(t'.accounts[k])
    {
      if k !in kept {
        var a := IdOwner(inserted, k);
      }
    }
    forall k | k in t'.statuses
      ensures t'.statuses[k].id == k && t'.statuses[k].postId in t'.posts && t'.statuses[k].accountId in t'.accounts
    {
      if k !in t.statuses {
        assert NewUnposted(t, t'.statuses[k], k, id, inserted);
      }
    }
  }

  lemma RosterUpdateKeepsConsistent(t: Tables, t': Tables, id: int, kept: set<int>, inserted: seq<Account>)
    requires Integrity(t) && Consistent(t)
    requires RosterUpdate(t, t', id, kept, inserted)
    ensures Consistent(t')
  {
    // no stored status refers to an inserted account
    assert forall k :: k in t.statuses ==> t.statuses[k].accountId !in Ids(inserted);
    forall k | k in t'.statuses && t'.statuses[k].postId in t'.posts && t'.statuses[k].accountId in t'.accounts
      ensures t'.accounts[t'.statuses[k].accountId].accountSetId == t'.posts[t'.statuses[k].postId].accountSetId
    {
      var s := t'.statuses[k];
      if k in t.statuses {
        assert s.accountId in kept;
      } else {
        assert NewUnposted(t, s, k, id, inserted);
        var a := IdOwner(inserted, s.accountId);
      }
    }
    forall p, a | p in t'.posts && a in t'.accounts && t'.accounts[a].accountSetId == t'.posts[p].accountSetId
      ensures StatusesFor(t'.statuses, p, a) != {}
    {
      if a in kept {
        var k := Element(StatusesFor(t.statuses, p, a));
        assert k in StatusesFor(t'.statuses, p, a);
      } else {
        var x := IdOwner(inserted, a);
        assert p in PostsOf(t.posts, id);
      }
    }
    // a stored status and a new one never share an account
    forall k, j | k in t.statuses && j in t'.statuses && j !in t.statuses
      ensures t'.statuses[k].accountId != t'.statuses[j].accountId
    {
      assert NewUnposted(t, t'.statuses[j], j, id, inserted);
    }
    forall p | p in t'.posts
      ensures StatusesOf(t'.statuses, p) != {}
    {
      var k := Element(StatusesOf(t.statuses, p));
      assert k in StatusesOf(t'.statuses, p);
    }
    forall k | k in t'.statuses
      ensures t'.statuses[k].isPosted <==> t'.statuses[k].postedAt.Some?
    {
      if k !in t.statuses {
        assert NewUnposted(t, t'.statuses[k], k, id, inserted);
      }
    }
  }

  // ---------------------------------------------------------------------------------
  // deleteAccountSet: a set with no accounts and no posts disappears

  lemma DeleteSetKeepsValid(t: Tables, id: int)
    requires Integrity(t) && Consistent(t)
    requires AccountsOf(t.accounts, id) == {} && PostsOf(t.posts, id) == {}
    ensures var t' := t.(accountSets := t.accountSets - {id});
      Integrity(t') && Consistent(t')
  {
    var t' := t.(accountSets := t.accountSets - {id});
    forall k | k in t'.accounts
      ensures t'.accounts[k].accountSetId in t'.accountSets
    {
      assert k !in AccountsOf(t.accounts, id);
    }
    forall k | k in t'.posts
      ensures t'.posts[k].accountSetId in t'.accountSets
    {
      assert k !in PostsOf(t.posts, id);
    }
  }

  // ---------------------------------------------------------------------------------
  // createPost: a new post with one unposted status per account of its set

  ghost predicate NewPost(t: Tables, t': Tables, post: Post) {
    && post.id !in t.posts
    && post.videoId in t.videos && post.accountSetId in t.accountSets
    && t'.accountSets == t.accountSets && t'.accounts == t.accounts && t'.videos == t.videos
    && t'.posts == t.posts[post.id := post]
    && (forall k :: k in t.statuses ==> k in t'.statuses && t'.statuses[k] == t.statuses[k])
    && (forall k :: k in t'.statuses && k !in t.statuses ==>
          && t'.statuses[k].id == k
          && t'.statuses[k].postId == post.id
          && t'.statuses[k].accountId in AccountsOf(t.accounts, post.accountSetId)
          && !t'.statuses[k].isPosted && t'.statuses[k].postedAt.None?)
    && (forall a :: a in AccountsOf(t.accounts, post.accountSetId) ==> StatusesFor(t'.statuses, post.id, a) != {})
    && (forall k, j :: k in t'.statuses && j in t'.statuses && k !in t.statuses && j !in t.statuses && k != j ==>
          t'.statuses[k].accountId != t'.statuses[j].accountId)
    && AccountsOf(t.accounts, post.accountSetId) != {}
  }

  /** The facts about an enumeration of the accounts of set `setId` that the post
      fan-out relies on. */
  ghost predicate EnumeratesSet(t: Tables, setId: int, keys: seq<int>) {
    && (forall x :: x in keys <==> x in AccountsOf(t.accounts, setId))
    && (forall i :: 0 <= i < |keys| ==> keys[i] in AccountsOf(t.accounts, setId))
    && (forall i, j :: 0 <= i < j < |keys| ==> keys[i] != keys[j])
  }

  /** The fan-out row for the `i`-th enumerated account pairs the post with that
      account. */
  lemma FannedRowAt(t: Tables, postId: int, setId: int, keys: seq<int>, i: int)
    requires KeyedById(t) && EnumeratesSet(t, setId, keys) && 0 <= i < |keys|
    ensures UnpostedFor(postId, Rows(t.accounts, keys))[i] == Unposted(postId, keys[i])
  {
  }

  /** What the post fan-out lemmas assume: a new post of an existing set, an enumeration
      of that set's accounts, and a status serial ahead of the stored keys. */
  ghost predicate FanOutInput(t: Tables, post: Post, keys: seq<int>, serial: int) {
    && Integrity(t)
    && post.id !in t.posts && post.videoId in t.videos && post.accountSetId in t.accountSets
    && (forall k :: k in t.statuses ==> k < serial)
    && EnumeratesSet(t, post.accountSetId, keys)
  }

  /** Every status the fan-out adds is unposted and pairs the post with an account of
      its set. */
  lemma FannedRowsUnposted(t: Tables, post: Post, keys: seq<int>, serial: int, now: int)
    requires FanOutInput(t, post, keys, serial)
    ensures var ins := InsertStatuses(t.statuses, serial, UnpostedFor(post.id, Rows(t.accounts, keys)), now);
      && ins.Ok?
      && forall k :: k in ins.value.0 && k !in t.statuses ==>
           && ins.value.0[k].id == k && ins.value.0[k].postId == post.id
           && ins.value.0[k].accountId in AccountsOf(t.accounts, post.accountSetId)
           && !ins.value.0[k].isPosted && ins.value.0[k].postedAt.None?
  {
    var rows := UnpostedFor(post.id, Rows(t.accounts, keys));
    var sts := InsertStatuses(t.statuses, serial, rows, now).value.0;
    forall k | k in sts && k !in t.statuses
      ensures && sts[k].id == k && sts[k].postId == post.id
              && sts[k].accountId in AccountsOf(t.accounts, post.accountSetId)
              && !sts[k].isPosted && sts[k].postedAt.None?
    {
      InsertedStatusAt(t.statuses, serial, rows, now, k);
      FannedRowAt(t, post.id, post.accountSetId, keys, k - serial);
    }
  }

  /** After the fan-out every account of the set has a status for the post. */
  lemma FannedRowsCoverSet(t: Tables, post: Post, keys: seq<int>, serial: int, now: int)
    requires FanOutInput(t, post, keys, serial)
    ensures var ins := InsertStatuses(t.statuses, serial, UnpostedFor(post.id, Rows(t.accounts, keys)), now);
      && ins.Ok?
      && forall a :: a in AccountsOf(t.accounts, post.accountSetId) ==> StatusesFor(ins.value.0, post.id, a) != {}
  {
    var rows := UnpostedFor(post.id, Rows(t.accounts, keys));
    var sts := InsertStatuses(t.statuses, serial, rows, now).value.0;
    forall a | a in AccountsOf(t.accounts, post.accountSetId)
      ensures StatusesFor(sts, post.id, a) != {}
    {
      var i :| 0 <= i < |keys| && keys[i] == a;
      FannedRowAt(t, post.id, post.accountSetId, keys, i);
      assert serial + i in StatusesFor(sts, post.id, a);
    }
  }

  /** No two statuses the fan-out adds name the same account. */
  lemma FannedRowsDistinct(t: Tables, post: Post, keys: seq<int>, serial: int, now: int)
    requires FanOutInput(t, post, keys, serial)
    ensures var ins := InsertStatuses(t.statuses, serial, UnpostedFor(post.id, Rows(t.accounts, keys)), now);
      && ins.Ok?
      && forall k, j :: k in ins.value.0 && j in ins.value.0 && k !in t.statuses && j !in t.statuses && k != j ==>
           ins.value.0[k].accountId != ins.value.0[j].accountId
  {
    var rows := UnpostedFor(post.id, Rows(t.accounts, keys));
    var sts := InsertStatuses(t.statuses, serial, rows, now).value.0;
    forall k, j | k in sts && j in sts && k !in t.statuses && j !in t.statuses && k != j
      ensures sts[k].accountId != sts[j].accountId
    {
      InsertedStatusAt(t.statuses, serial, rows, now, k);
      InsertedStatusAt(t.statuses, serial, rows, now, j);
      FannedRowAt(t, post.id, post.accountSetId, keys, k - serial);
      FannedRowAt(t, post.id, post.accountSetId, keys, j - serial);
    }
  }

  /** Inserting one unposted status per enumerated account of the post's set, with
      serial ids ahead of the stored ones, is a `NewPost` change. */
  lemma PostFannedOut(t: Tables, post: Post, keys: seq<int>, serial: int, now: int)
    requires Integrity(t)
    requires post.id !in t.posts && post.videoId in t.videos && post.accountSetId in t.accountSets
    requires forall k :: k in t.statuses ==> k < serial
    requires EnumeratesSet(t, post.accountSetId, keys) && keys != []
    ensures var rows := UnpostedFor(post.id, Rows(t.accounts, keys));
      && InsertStatuses(t.statuses, serial, rows, now).Ok?
      && NewPost(t, t.(posts := t.posts[post.id := post], statuses := InsertStatuses(t.statuses, serial, rows, now).value.0), post)
  {
    FannedRowsUnposted(t, post, keys, serial, now);
    FannedRowsCoverSet(t, post, keys, serial, now);
    FannedRowsDistinct(t, post, keys, serial, now);
    assert keys[0] in AccountsOf(t.accounts, post.accountSetId);
  }

  /** The statuses of the new post are exactly the keys the serial handed out. */
  lemma PostFannedOutKeys(t: Tables, post: Post, keys: seq<int>, serial: int, now: int)
    requires Integrity(t)
    requires post.id !in t.posts
    requires forall k :: k in t.statuses ==> k < serial
    requires EnumeratesSet(t, post.accountSetId, keys)
    ensures var rows := UnpostedFor(post.id, Rows(t.accounts, keys));
      && InsertStatuses(t.statuses, serial, rows, now).Ok?
      && StatusesOf(InsertStatuses(t.statuses, serial, rows, now).value.0, post.id) == Range(serial, serial + |keys|)
      && |StatusesOf(InsertStatuses(t.statuses, serial, rows, now).value.0, post.id)| == |keys|
  {
    var rows := UnpostedFor(post.id, Rows(t.accounts, keys));
    var sts := InsertStatuses(t.statuses, serial, rows, now).value.0;
    RangeSize(serial, serial + |keys|);
    forall k | k in sts
      ensures k in StatusesOf(sts, post.id) <==> k in Range(serial, serial + |keys|)
    {
      if k in t.statuses {
        assert sts[k].postId in t.posts;
      } else {
        InsertedStatusAt(t.statuses, serial, rows, now, k);
      }
    }
  }

  /** What `createPost`'s transaction does to the tables, for an enumeration `keys` of the
      set's accounts and the serial values `post.id` and `serial`. */
  lemma CreatePostEffect(t: Tables, post: Post, keys: seq<int>, serial: int, now: int)
    requires Integrity(t) && Consistent(t)
    requires post.id !in t.posts && post.videoId in t.videos && post.accountSetId in t.accountSets
    requires forall k :: k in t.statuses ==> k < serial
    requires EnumeratesSet(t, post.accountSetId, keys) && keys != []
    ensures var ins := InsertStatuses(t.statuses, serial, UnpostedFor(post.id, Rows(t.accounts, keys)), now);
      && ins.Ok?
      && ins.value.1 == serial + |keys|
      && var t' := t.(posts := t.posts[post.id := post], statuses := ins.value.0);
         && Integrity(t') && Consistent(t')
         && (forall k :: k in ins.value.0 ==> k < ins.value.1)
         && (forall k :: k in t.statuses ==> k in t'.statuses && t'.statuses[k] == t.statuses[k])
         && (forall k :: k in t'.statuses ==> k in t.statuses || k in StatusesOf(t'.statuses, post.id))
         && (forall k :: k in StatusesOf(t'.statuses, post.id) ==>
               && !t'.statuses[k].isPosted && t'.statuses[k].postedAt.None?
               && t'.statuses[k].accountId in AccountsOf(t.accounts, post.accountSetId))
         && |StatusesOf(t'.statuses, post.id)| == |keys|
  {
    var ins := InsertStatuses(t.statuses, serial, UnpostedFor(post.id, Rows(t.accounts, keys)), now);
    PostFannedOut(t, post, keys, serial, now);
    PostFannedOutKeys(t, post, keys, serial, now);
    var t' := t.(posts := t.posts[post.id := post], statuses := ins.value.0);
    NewPostKeepsValid(t, t', post);
    forall k | k in StatusesOf(t'.statuses, post.id)
      ensures && !t'.statuses[k].isPosted && t'.statuses[k].postedAt.None?
              && t'.statuses[k].accountId in AccountsOf(t.accounts, post.accountSetId)
    {
      assert k !in t.statuses;
    }
  }

  lemma NewPostKeepsValid(t: Tables, t': Tables, post: Post)
    requires Integrity(t) && Consistent(t)
    requires NewPost(t, t', post)
    ensures Integrity(t') && Consistent(t')
  {
    // no stored status refers to the new post
    assert forall k :: k in t.statuses ==> t.statuses[k].postId != post.id;
    forall p, a | p in t'.posts && a in t'.accounts && t'.accounts[a].accountSetId == t'.posts[p].accountSetId
      ensures StatusesFor(t'.statuses, p, a) != {}
    {
      if p != post.id {
        var k := Element(StatusesFor(t.statuses, p, a));
        assert k in StatusesFor(t'.statuses, p, a);
      } else {
        assert a in AccountsOf(t.accounts, post.accountSetId);
      }
    }
    forall p | p in t'.posts
      ensures StatusesOf(t'.statuses, p) != {}
    {
      if p != post.id {
        var k := Element(StatusesOf(t.statuses, p));
        assert k in StatusesOf(t'.statuses, p);
      } else {
        var a := Element(AccountsOf(t.accounts, post.accountSetId));
        var k := Element(StatusesFor(t'.statuses, post.id, a));
        assert k in StatusesOf(t'.statuses, p);
      }
    }
  }

  // ---------------------------------------------------------------------------------
  // deletePost: the post's statuses go, then the post

  /** The statuses of every post but `id`. */
  function StatusesWithoutPost(statuses: map<int, PostStatus>, id: int): (r: map<int, PostStatus>)
    ensures forall k :: k in r <==> k in statuses && statuses[k].postId != id
    ensures forall k :: k in r ==> r[k] == statuses[k]
  {
    map k | k in statuses && statuses[k].postId != id :: statuses[k]
  }

  lemma DeletePostKeepsValid(t: Tables, id: int)
    requires Integrity(t) && Consistent(t)
    ensures var t' := t.(posts := t.posts - {id}, statuses := StatusesWithoutPost(t.statuses, id));
      Integrity(t') && Consistent(t')
  {
    var t' := t.(posts := t.posts - {id}, statuses := StatusesWithoutPost(t.statuses, id));
    forall p, a | p in t'.posts && a in t'.accounts && t'.accounts[a].accountSetId == t'.posts[p].accountSetId
      ensures StatusesFor(t'.statuses, p, a) != {}
    {
      var k := Element(StatusesFor(t.statuses, p, a));
      assert k in StatusesFor(t'.statuses, p, a);
    }
    forall p | p in t'.posts
      ensures StatusesOf(t'.statuses, p) != {}
    {
      var k := Element(StatusesOf(t.statuses, p));
      assert k in StatusesOf(t'.statuses, p);
    }
  }

  // ---------------------------------------------------------------------------------
  // updatePost and the status marks: rows change in place, links do not

  /** Changing a post's date, notes or timestamp keeps every link. */
  lemma PostEditKeepsValid(t: Tables, id: int, post: Post)
    requires Integrity(t) && Consistent(t)
    requires id in t.posts && post.id == id
    requires post.videoId == t.posts[id].videoId && post.accountSetId == t.posts[id].accountSetId
    ensures var t' := t.(posts := t.posts[id := post]);
      Integrity(t') && Consistent(t')
  {
    var t' := t.(posts := t.posts[id := post]);
    forall p, a | p in t'.posts && a in t'.accounts && t'.accounts[a].accountSetId == t'.posts[p].accountSetId
      ensures StatusesFor(t'.statuses, p, a) != {}
    {
      assert t.accounts[a].accountSetId == t.posts[p].accountSetId;
    }
  }

  /** Status rows whose post, account and id stay, and that keep `isPosted` and
      `postedAt` in step, keep every invariant. */
  lemma StatusEditKeepsValid(t: Tables, statuses: map<int, PostStatus>)
    requires Integrity(t) && Consistent(t)
    requires statuses.Keys == t.statuses.Keys
    requires forall k :: k in statuses ==>
      && statuses[k].id == t.statuses[k].id
      && statuses[k].postId == t.statuses[k].postId
      && statuses[k].accountId == t.statuses[k].accountId
      && (statuses[k].isPosted <==> statuses[k].postedAt.Some?)
    ensures Integrity(t.(statuses := statuses)) && Consistent(t.(statuses := statuses))
  {
    var t' := t.(statuses := statuses);
    forall p, a | p in t'.posts && a in t'.accounts && t'.accounts[a].accountSetId == t'.posts[p].accountSetId
      ensures StatusesFor(t'.statuses, p, a) != {}
    {
      var k := Element(StatusesFor(t.statuses, p, a));
      assert k in StatusesFor(t'.statuses, p, a);
    }
    forall p | p in t'.posts
      ensures StatusesOf(t'.statuses, p) != {}
    {
      var k := Element(StatusesOf(t.statuses, p));
      assert k in StatusesOf(t'.statuses, p);
    }
  }
}
