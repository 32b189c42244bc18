/** The read side: the left-join rows the queries receive and how the actions turn them
    back into nested objects, the date windows of the post lists, and the dashboard's
    counters. The rows are what the database returned; predicates below describe which
    row sequences a left join over given tables may return, since without ORDER BY the
    order is the database's to choose. */
module Queries {
  import opened Common
  import opened Schema
  import Grouping
  import Engine

  /** The nested object `getAccountSetById`, `getAllAccountSets`, `createAccountSet` and
      `updateAccountSet` return. */
  datatype AccountSetWithAccounts = AccountSetWithAccounts(accountSet: AccountSet, accounts: seq<Account>)

  /** One row of `account_set LEFT JOIN account`. */
  datatype SetRow = SetRow(accountSet: AccountSet, account: Option<Account>)

  /** One row of `post LEFT JOIN video LEFT JOIN account_set LEFT JOIN post_status
      LEFT JOIN account`. */
  datatype PostRow = PostRow(
    post: Post,
    video: Option<Video>,
    accountSet: Option<AccountSet>,
    status: Option<PostStatus>,
    account: Option<Account>)

  /** A status with the account it belongs to. */
  datatype StatusWithAccount = StatusWithAccount(status: PostStatus, account: Account)

  /** The post columns, the joined video and account set, and the statuses. */
  datatype PostHead = PostHead(post: Post, video: Option<Video>, accountSet: Option<AccountSet>)
  datatype PostWithRelations = PostWithRelations(head: PostHead, statuses: seq<StatusWithAccount>)

  function Lookup<T>(table: map<int, T>, key: int): Option<T> {
    if key in table then Some(table[key]) else None
  }

  // ---------------------------------------------------------------------------------
  // Account sets

  /** `result.map((r) => r.accounts).filter(Boolean)`. */
  function PresentAccounts(rows: seq<SetRow>): (accounts: seq<Account>)
    ensures |accounts| <= |rows|
    ensures forall a :: a in accounts <==> exists i :: 0 <= i < |rows| && rows[i].account == Some(a)
  {
    if rows == [] then []
    else
      var rest := PresentAccounts(rows[1..]);
      assert forall i :: 0 < i < |rows| ==> rows[i] == rows[1..][i - 1];
      if rows[0].account.Some? then [rows[0].account.value] + rest else rest
  }

  /** `getAccountSetById` after its query: nothing when no row matched, otherwise the
      first row's set with every joined account. */
  function AccountSetFromRows(rows: seq<SetRow>): (r: Option<AccountSetWithAccounts>)
    ensures r.None? <==> rows == []
    ensures r.Some? ==> r.value.accountSet == rows[0].accountSet
    ensures r.Some? ==> forall a :: a in r.value.accounts <==> exists i :: 0 <= i < |rows| && rows[i].account == Some(a)
  {
    if |rows| == 0 then None
    else Some(AccountSetWithAccounts(rows[0].accountSet, PresentAccounts(rows)))
  }

  function SetRowToRow(row: SetRow): Grouping.Row<AccountSet, Account> {
    Grouping.Row(row.accountSet.id, row.accountSet, row.account)
  }

  function SetRowsToRows(rows: seq<SetRow>): seq<Grouping.Row<AccountSet, Account>> {
    seq(|rows|, i requires 0 <= i < |rows| => SetRowToRow(rows[i]))
  }

  function GroupToAccountSet(g: Grouping.Group<AccountSet, Account>): AccountSetWithAccounts {
    AccountSetWithAccounts(g.parent, g.children)
  }

  /** What `getAllAccountSets` returns for `rows`. */
  function AllAccountSets(rows: seq<SetRow>): seq<AccountSetWithAccounts> {
    var groups := Grouping.Grouped(SetRowsToRows(rows));
    seq(|groups|, i requires 0 <= i < |groups| => GroupToAccountSet(groups[i]))
  }

  /** `getAllAccountSets` after its query: the `forEach` that fills a `Map` keyed by set
      id, then the map's values. */
  method GetAllAccountSets(rows: seq<SetRow>) returns (sets: seq<AccountSetWithAccounts>)
    ensures sets == AllAccountSets(rows)
  {
    var groups := Grouping.GroupRows(SetRowsToRows(rows));
    sets := seq(|groups|, i requires 0 <= i < |groups| => GroupToAccountSet(groups[i]));
  }

  /** `rows` is a result the left join of account sets with their accounts may return:
      every row shows stored data, every set has a row (a set without accounts a row
      with no account), and every account of a stored set shows up exactly once. */
  ghost predicate IsSetJoin(t: Tables, rows: seq<SetRow>) {
    && (forall i :: 0 <= i < |rows| ==> IsSetJoinRow(t, rows[i]))
    && (forall s :: s in t.accountSets ==> exists i :: 0 <= i < |rows| && rows[i].accountSet.id == s)
    && (forall a :: a in t.accounts && t.accounts[a].accountSetId in t.accountSets ==>
          exists i :: 0 <= i < |rows| && rows[i].account == Some(t.accounts[a]))
    && (forall i, j :: 0 <= i < j < |rows| && rows[i].account.Some? ==> rows[i].account != rows[j].account)
  }

  ghost predicate IsSetJoinRow(t: Tables, row: SetRow) {
    && Lookup(t.accountSets, row.accountSet.id) == Some(row.accountSet)
    && (row.account.Some? ==>
          && Lookup(t.accounts, row.account.value.id) == row.account
          && row.account.value.accountSetId == row.accountSet.id)
    && (row.account.None? ==> AccountsOf(t.accounts, row.accountSet.id) == {})
  }

  /** `rows` is what the same join returns under `WHERE account_set.id = id`. */
  ghost predicate IsSetJoinFor(t: Tables, id: int, rows: seq<SetRow>) {
    && (forall i :: 0 <= i < |rows| ==> IsSetJoinRow(t, rows[i]) && rows[i].accountSet.id == id)
    && (id in t.accountSets ==> rows != [])
    && (forall a :: a in t.accounts && t.accounts[a].accountSetId == id && id in t.accountSets ==>
          exists i :: 0 <= i < |rows| && rows[i].account == Some(t.accounts[a]))
    && (forall i, j :: 0 <= i < j < |rows| && rows[i].account.Some? ==> rows[i].account != rows[j].account)
  }

  /** `getAccountSetById` returns undefined exactly for an id with no stored set;
      otherwise the stored set with exactly its accounts. */
  lemma AccountSetByIdReadsTables(t: Tables, id: int, rows: seq<SetRow>)
    requires KeyedById(t)
    requires IsSetJoinFor(t, id, rows)
    ensures AccountSetFromRows(rows).None? <==> id !in t.accountSets
    ensures AccountSetFromRows(rows).Some? ==>
      && AccountSetFromRows(rows).value.accountSet == t.accountSets[id]
      && (forall a :: a in AccountSetFromRows(rows).value.accounts <==>
            a.id in AccountsOf(t.accounts, id) && t.accounts[a.id] == a)
      && |AccountSetFromRows(rows).value.accounts| == |AccountsOf(t.accounts, id)|
      && (forall i, j :: 0 <= i < j < |AccountSetFromRows(rows).value.accounts| ==>
            AccountSetFromRows(rows).value.accounts[i].id != AccountSetFromRows(rows).value.accounts[j].id)
  {
    if rows != [] {
      assert IsSetJoinRow(t, rows[0]);
      forall a
        ensures a in AccountSetFromRows(rows).value.accounts <==>
          a.id in AccountsOf(t.accounts, id) && t.accounts[a.id] == a
      {
        if a.id in AccountsOf(t.accounts, id) && t.accounts[a.id] == a {
          var i :| 0 <= i < |rows| && rows[i].account == Some(t.accounts[a.id]);
        }
        if a in AccountSetFromRows(rows).value.accounts {
          var i :| 0 <= i < |rows| && rows[i].account == Some(a);
          assert IsSetJoinRow(t, rows[i]);
        }
      }
      SetRowsCount(t, id, rows);
    }
  }

  /** Join rows that never repeat an account keep their accounts apart once the rows
      without one are dropped. */
  lemma {:induction false} PresentAccountsDistinct(rows: seq<SetRow>)
    requires forall i, j :: 0 <= i < j < |rows| && rows[i].account.Some? ==> rows[i].account != rows[j].account
    ensures forall i, j :: 0 <= i < j < |PresentAccounts(rows)| ==> PresentAccounts(rows)[i] != PresentAccounts(rows)[j]
  {
    if rows != [] {
      var rest := rows[1..];
      assert forall i :: 0 < i < |rows| ==> rows[i] == rest[i - 1];
      PresentAccountsDistinct(rest);
      if rows[0].account.Some? {
        forall i | 0 <= i < |rest|
          ensures rest[i].account != rows[0].account
        {
          assert rest[i] == rows[i + 1];
        }
      }
    }
  }

  /** The accounts of a set's join rows are its accounts, each once. */
  lemma SetRowsCount(t: Tables, id: int, rows: seq<SetRow>)
    requires KeyedById(t)
    requires IsSetJoinFor(t, id, rows)
    requires forall a :: a in PresentAccounts(rows) <==> a.id in AccountsOf(t.accounts, id) && t.accounts[a.id] == a
    ensures |PresentAccounts(rows)| == |AccountsOf(t.accounts, id)|
    ensures forall i, j :: 0 <= i < j < |PresentAccounts(rows)| ==> PresentAccounts(rows)[i].id != PresentAccounts(rows)[j].id
  {
    var accs := PresentAccounts(rows);
    PresentAccountsDistinct(rows);
    var ids := seq(|accs|, i requires 0 <= i < |accs| => accs[i].id);
    forall i, j | 0 <= i < j < |accs|
      ensures ids[i] != ids[j]
    {
      assert accs[i] in accs && accs[j] in accs;
    }
    forall k
      ensures k in ids <==> k in AccountsOf(t.accounts, id)
    {
      if k in ids {
        var i :| 0 <= i < |ids| && ids[i] == k;
        assert accs[i] in accs;
      }
      if k in AccountsOf(t.accounts, id) {
        assert t.accounts[k] in accs;
        var i :| 0 <= i < |accs| && accs[i] == t.accounts[k];
        assert accs[i].id in AccountsOf(t.accounts, id) && t.accounts[accs[i].id] == accs[i];
        assert ids[i] == k;
      }
    }
    Engine.DistinctCount(ids, AccountsOf(t.accounts, id));
  }

  /** `getAllAccountSets` lists every stored set once, in the order its first row came,
      with its accounts in row order; a set without accounts gets an empty list. */
  lemma AllAccountSetsShape(rows: seq<SetRow>)
    ensures forall i, j :: 0 <= i < j < |AllAccountSets(rows)| ==>
      AllAccountSets(rows)[i].accountSet.id != AllAccountSets(rows)[j].accountSet.id
    ensures forall i :: 0 <= i < |rows| ==>
      exists j :: 0 <= j < |AllAccountSets(rows)| && AllAccountSets(rows)[j].accountSet.id == rows[i].accountSet.id
    ensures forall j :: 0 <= j < |AllAccountSets(rows)| ==>
      AllAccountSets(rows)[j].accounts == Grouping.Children(SetRowsToRows(rows), AllAccountSets(rows)[j].accountSet.id)
    ensures forall i, j :: 0 <= i < j < |AllAccountSets(rows)| ==>
      Grouping.FirstIndex(SetRowsToRows(rows), AllAccountSets(rows)[i].accountSet.id)
        < Grouping.FirstIndex(SetRowsToRows(rows), AllAccountSets(rows)[j].accountSet.id)
  {
    var lifted := SetRowsToRows(rows);
    var keys := Grouping.Keys(lifted);
    Grouping.KeysDistinct(lifted);
    Grouping.KeysOccur(lifted);
    Grouping.KeysInFirstSeenOrder(lifted);
    forall j | 0 <= j < |keys|
      ensures AllAccountSets(rows)[j].accountSet.id == keys[j]
    {
      var f := Grouping.FirstIndex(lifted, keys[j]);
      assert lifted[f].parent == rows[f].accountSet;
    }
    forall i | 0 <= i < |rows|
      ensures exists j :: 0 <= j < |keys| && keys[j] == rows[i].accountSet.id
    {
      assert lifted[i].key == rows[i].accountSet.id;
      assert Grouping.Occurs(lifted, rows[i].accountSet.id);
    }
  }

  /** On any valid result of the unfiltered join, `getAllAccountSets` lists exactly the
      stored sets, each once, each with exactly its accounts. */
  lemma AllAccountSetsReadTables(t: Tables, rows: seq<SetRow>)
    requires KeyedById(t)
    requires IsSetJoin(t, rows)
    ensures forall s :: s in t.accountSets <==>
      exists j :: 0 <= j < |AllAccountSets(rows)| && AllAccountSets(rows)[j].accountSet.id == s
    ensures forall i, j :: 0 <= i < j < |AllAccountSets(rows)| ==>
      AllAccountSets(rows)[i].accountSet.id != AllAccountSets(rows)[j].accountSet.id
    ensures forall j :: 0 <= j < |AllAccountSets(rows)| ==>
      AllAccountSets(rows)[j].accountSet == t.accountSets[AllAccountSets(rows)[j].accountSet.id]
    ensures forall j, a :: 0 <= j < |AllAccountSets(rows)| ==>
      (a in AllAccountSets(rows)[j].accounts <==>
         a.id in AccountsOf(t.accounts, AllAccountSets(rows)[j].accountSet.id) && t.accounts[a.id] == a)
  {
    var all := AllAccountSets(rows);
    AllAccountSetsShape(rows);
    forall j | 0 <= j < |all|
      ensures all[j].accountSet.id in t.accountSets && all[j].accountSet == t.accountSets[all[j].accountSet.id]
      ensures forall a :: a in all[j].accounts <==>
        a.id in AccountsOf(t.accounts, all[j].accountSet.id) && t.accounts[a.id] == a
    {
      EntryReadsTables(t, rows, j);
    }
    forall s | s in t.accountSets
      ensures exists j :: 0 <= j < |all| && all[j].accountSet.id == s
    {
      var i :| 0 <= i < |rows| && rows[i].accountSet.id == s;
    }
  }

  /** The `j`-th set `getAllAccountSets` lists is a stored set with exactly its accounts. */
  lemma EntryReadsTables(t: Tables, rows: seq<SetRow>, j: int)
    requires KeyedById(t)
    requires IsSetJoin(t, rows)
    requires 0 <= j < |AllAccountSets(rows)|
    ensures var e := AllAccountSets(rows)[j];
      && e.accountSet.id in t.accountSets && e.accountSet == t.accountSets[e.accountSet.id]
      && forall a :: a in e.accounts <==> a.id in AccountsOf(t.accounts, e.accountSet.id) && t.accounts[a.id] == a
  {
    var lifted := SetRowsToRows(rows);
    var keys := Grouping.Keys(lifted);
    var e := AllAccountSets(rows)[j];
    var f := Grouping.FirstIndex(lifted, keys[j]);
    assert lifted[f].parent == rows[f].accountSet && e.accountSet == rows[f].accountSet;
    assert IsSetJoinRow(t, rows[f]);
    var key := e.accountSet.id;
    assert e.accounts == Grouping.Children(lifted, key);
    Grouping.ChildrenMembers(lifted, key);
    forall a
      ensures a in e.accounts <==> a.id in AccountsOf(t.accounts, key) && t.accounts[a.id] == a
    {
      if a in e.accounts {
        var i :| 0 <= i < |lifted| && lifted[i].key == key && lifted[i].child == Some(a);
        assert IsSetJoinRow(t, rows[i]);
      }
      if a.id in AccountsOf(t.accounts, key) && t.accounts[a.id] == a {
        var i :| 0 <= i < |rows| && rows[i].account == Some(t.accounts[a.id]);
        assert IsSetJoinRow(t, rows[i]);
        assert lifted[i].key == key && lifted[i].child == Some(a);
      }
    }
  }

  // ---------------------------------------------------------------------------------
  // Posts

  /** The `map` of `getPostById`: one status per row, failing on the first row that has
      no status or no account. */
  function StatusesFromRows(rows: seq<PostRow>): (r: Result<seq<StatusWithAccount>>)
    ensures r.Ok? <==> forall i :: 0 <= i < |rows| ==> rows[i].status.Some? && rows[i].account.Some?
    ensures r.Err? ==> r.error == InvalidPostStatus
    ensures r.Ok? ==> |r.value| == |rows|
    ensures r.Ok? ==> forall i :: 0 <= i < |rows| ==>
      r.value[i] == StatusWithAccount(rows[i].status.value, rows[i].account.value)
  {
    if rows == [] then Ok([])
    else if rows[0].status.None? || rows[0].account.None? then Err(InvalidPostStatus)
    else
      match StatusesFromRows(rows[1..])
      case Err(e) => Err(e)
      case Ok(rest) =>
        assert forall i :: 0 < i < |rows| ==> rows[i] == rows[1..][i - 1];
        Ok([StatusWithAccount(rows[0].status.value, rows[0].account.value)] + rest)
  }

  /** `getPostById` after its query. */
  function PostFromRows(rows: seq<PostRow>): (r: Result<PostWithRelations>)
    ensures r == Err(PostNotFound) <==> rows == []
    ensures r == Err(AccountSetMissing) <==> rows != [] && rows[0].accountSet.None?
    ensures r == Err(InvalidPostStatus) <==>
      && rows != [] && rows[0].accountSet.Some?
      && exists i :: 0 <= i < |rows| && (rows[i].status.None? || rows[i].account.None?)
    ensures r.Ok? ==>
      && r.value.head == PostHead(rows[0].post, rows[0].video, rows[0].accountSet)
      && |r.value.statuses| == |rows|
      && forall i :: 0 <= i < |rows| ==>
           r.value.statuses[i] == StatusWithAccount(rows[i].status.value, rows[i].account.value)
  {
    if rows == [] then Err(PostNotFound)
    else if rows[0].accountSet.None? then Err(AccountSetMissing)
    else
      var statuses :- StatusesFromRows(rows);
      Ok(PostWithRelations(PostHead(rows[0].post, rows[0].video, rows[0].accountSet), statuses))
  }

  /** `row` is a row the five-way left join may return from tables `t`. */
  ghost predicate IsPostJoinRow(t: Tables, row: PostRow) {
    && Lookup(t.posts, row.post.id) == Some(row.post)
    && row.video == Lookup(t.videos, row.post.videoId)
    && row.accountSet == Lookup(t.accountSets, row.post.accountSetId)
    && (row.status.Some? ==>
          && Lookup(t.statuses, row.status.value.id) == row.status
          && row.status.value.postId == row.post.id
          && row.account == Lookup(t.accounts, row.status.value.accountId))
    && (row.status.None? ==> row.account.None? && StatusesOf(t.statuses, row.post.id) == {})
  }

  /** `rows` is what the join returns under `WHERE post.id = id`: nothing for a missing
      post, else one row per status of the post, or a single status-less row when it
      has none. */
  ghost predicate IsPostJoinFor(t: Tables, id: int, rows: seq<PostRow>) {
    && (forall i :: 0 <= i < |rows| ==> IsPostJoinRow(t, rows[i]) && rows[i].post.id == id)
    && (id !in t.posts ==> rows == [])
    && (id in t.posts ==> rows != [])
    && (forall k :: k in StatusesOf(t.statuses, id) ==>
          exists i :: 0 <= i < |rows| && rows[i].status == Some(t.statuses[k]))
    && (forall i, j :: 0 <= i < j < |rows| ==> rows[i].status != rows[j].status)
  }

  /** With the schema's foreign keys in place, `getPostById` reads back every stored
      post that has a status, and exactly its statuses; a stored post without statuses
      fails with "Invalid post status" and a missing one with "Post not found". */
  lemma PostByIdReadsTables(t: Tables, id: int, rows: seq<PostRow>)
    requires Integrity(t)
    requires IsPostJoinFor(t, id, rows)
    ensures id !in t.posts ==> PostFromRows(rows) == Err(PostNotFound)
    ensures id in t.posts && StatusesOf(t.statuses, id) == {} ==> PostFromRows(rows) == Err(InvalidPostStatus)
    ensures id in t.posts && StatusesOf(t.statuses, id) != {} ==>
      && PostFromRows(rows).Ok?
      && PostFromRows(rows).value.head.post == t.posts[id]
      && PostFromRows(rows).value.head.accountSet == Some(t.accountSets[t.posts[id].accountSetId])
      && (forall s :: s in PostFromRows(rows).value.statuses <==>
            s.status.id in StatusesOf(t.statuses, id) && s.status == t.statuses[s.status.id] &&
            s.account == t.accounts[s.status.accountId])
      && |PostFromRows(rows).value.statuses| == |StatusesOf(t.statuses, id)|
      && (forall i, j :: 0 <= i < j < |PostFromRows(rows).value.statuses| ==>
            PostFromRows(rows).value.statuses[i].status.id != PostFromRows(rows).value.statuses[j].status.id)
  {
    if id in t.posts {
      assert IsPostJoinRow(t, rows[0]);
      if StatusesOf(t.statuses, id) == {} {
        assert rows[0].status.None?;
      } else {
        forall i | 0 <= i < |rows|
          ensures rows[i].status.Some? && rows[i].account.Some?
        {
          assert IsPostJoinRow(t, rows[i]);
        }
        var r := PostFromRows(rows);
        forall s
          ensures s in r.value.statuses <==>
            s.status.id in StatusesOf(t.statuses, id) && s.status == t.statuses[s.status.id] &&
            s.account == t.accounts[s.status.accountId]
        {
          if s in r.value.statuses {
            var i :| 0 <= i < |r.value.statuses| && r.value.statuses[i] == s;
            assert IsPostJoinRow(t, rows[i]);
          }
          if s.status.id in StatusesOf(t.statuses, id) && s.status == t.statuses[s.status.id] &&
             s.account == t.accounts[s.status.accountId] {
            var i :| 0 <= i < |rows| && rows[i].status == Some(t.statuses[s.status.id]);
            assert IsPostJoinRow(t, rows[i]);
            assert r.value.statuses[i] == s;
          }
        }
        StatusRowsCount(t, id, rows);
      }
    }
  }

  /** The statuses of the join rows of a post that has statuses are its statuses, each
      once. */
  lemma StatusRowsCount(t: Tables, id: int, rows: seq<PostRow>)
    requires Integrity(t)
    requires IsPostJoinFor(t, id, rows)
    requires forall i :: 0 <= i < |rows| ==> rows[i].status.Some?
    ensures |rows| == |StatusesOf(t.statuses, id)|
    ensures forall i, j :: 0 <= i < j < |rows| ==> rows[i].status.value.id != rows[j].status.value.id
  {
    var ids := seq(|rows|, i requires 0 <= i < |rows| => rows[i].status.value.id);
    forall i, j | 0 <= i < j < |rows|
      ensures ids[i] != ids[j]
    {
      assert IsPostJoinRow(t, rows[i]) && IsPostJoinRow(t, rows[j]);
    }
    forall k
      ensures k in ids <==> k in StatusesOf(t.statuses, id)
    {
      if k in ids {
        var i :| 0 <= i < |ids| && ids[i] == k;
        assert IsPostJoinRow(t, rows[i]);
      }
      if k in StatusesOf(t.statuses, id) {
        var i :| 0 <= i < |rows| && rows[i].status == Some(t.statuses[k]);
        assert ids[i] == k;
      }
    }
    Engine.DistinctCount(ids, StatusesOf(t.statuses, id));
  }

  function PostRowToRow(row: PostRow): Grouping.Row<PostHead, StatusWithAccount> {
    Grouping.Row(
      row.post.id,
      PostHead(row.post, row.video, row.accountSet),
      if row.status.Some? && row.account.Some? then Some(StatusWithAccount(row.status.value, row.account.value)) else None)
  }

  function PostRowsToRows(rows: seq<PostRow>): seq<Grouping.Row<PostHead, StatusWithAccount>> {
    seq(|rows|, i requires 0 <= i < |rows| => PostRowToRow(rows[i]))
  }

  function GroupToPost(g: Grouping.Group<PostHead, StatusWithAccount>): PostWithRelations {
    PostWithRelations(g.parent, g.children)
  }

  /** What `groupPostResults` returns for `rows`. */
  function GroupedPosts(rows: seq<PostRow>): seq<PostWithRelations> {
    var groups := Grouping.Grouped(PostRowsToRows(rows));
    seq(|groups|, i requires 0 <= i < |groups| => GroupToPost(groups[i]))
  }

  /** `groupPostResults`: the loop that fills a `Map` keyed by post id. */
  method GroupPostResults(rows: seq<PostRow>) returns (posts: seq<PostWithRelations>)
    ensures posts == GroupedPosts(rows)
  {
    var groups := Grouping.GroupRows(PostRowsToRows(rows));
    posts := seq(|groups|, i requires 0 <= i < |groups| => GroupToPost(groups[i]));
  }

  /** Each post id appears once, in the order of its first row, with the columns of that
      row; every row's post has an entry even when the row has no status; and the
      statuses of a post are those of its rows that have both a status and an account,
      in row order. */
  lemma GroupedPostsShape(rows: seq<PostRow>)
    ensures forall i, j :: 0 <= i < j < |GroupedPosts(rows)| ==>
      GroupedPosts(rows)[i].head.post.id != GroupedPosts(rows)[j].head.post.id
    ensures forall i :: 0 <= i < |rows| ==>
      exists j :: 0 <= j < |GroupedPosts(rows)| && GroupedPosts(rows)[j].head.post.id == rows[i].post.id
    ensures forall j :: 0 <= j < |GroupedPosts(rows)| ==>
      var f := Grouping.FirstIndex(PostRowsToRows(rows), GroupedPosts(rows)[j].head.post.id);
      && GroupedPosts(rows)[j].head == PostHead(rows[f].post, rows[f].video, rows[f].accountSet)
      && GroupedPosts(rows)[j].statuses == Grouping.Children(PostRowsToRows(rows), GroupedPosts(rows)[j].head.post.id)
    ensures forall i, j :: 0 <= i < j < |GroupedPosts(rows)| ==>
      Grouping.FirstIndex(PostRowsToRows(rows), GroupedPosts(rows)[i].head.post.id)
        < Grouping.FirstIndex(PostRowsToRows(rows), GroupedPosts(rows)[j].head.post.id)
    ensures |GroupedPosts(rows)| <= |rows|
  {
    var lifted := PostRowsToRows(rows);
    var keys := Grouping.Keys(lifted);
    Grouping.KeysDistinct(lifted);
    Grouping.KeysOccur(lifted);
    Grouping.KeysInFirstSeenOrder(lifted);
    Grouping.GroupedNoLonger(lifted);
    forall j | 0 <= j < |keys|
      ensures GroupedPosts(rows)[j].head.post.id == keys[j]
    {
      var f := Grouping.FirstIndex(lifted, keys[j]);
      assert lifted[f].parent == PostHead(rows[f].post, rows[f].video, rows[f].accountSet);
    }
    forall i | 0 <= i < |rows|
      ensures exists j :: 0 <= j < |keys| && keys[j] == rows[i].post.id
    {
      assert lifted[i].key == rows[i].post.id;
      assert Grouping.Occurs(lifted, rows[i].post.id);
    }
  }

  // ---------------------------------------------------------------------------------
  // Date windows

  const DayMs := 86_400_000

  ghost predicate SortedByDate(rows: seq<PostRow>) {
    forall i, j :: 0 <= i < j < |rows| ==> rows[i].post.scheduledDate <= rows[j].post.scheduledDate
  }

  /** Keys of the posts with `start <= scheduledDate < end`. */
  function PostsBetween(posts: map<int, Post>, start: int, end: int): set<int> {
    set p | p in posts && start <= posts[p].scheduledDate < end
  }

  /** `rows` is what `getPostsByDateRange(start, end)`'s query may return: join rows of
      posts with `start <= scheduledDate < end`, at least one for each such post, in
      ascending date order (ties in any order). */
  ghost predicate IsRangeResult(t: Tables, start: int, end: int, rows: seq<PostRow>) {
    && (forall i :: 0 <= i < |rows| ==> IsPostJoinRow(t, rows[i]) && start <= rows[i].post.scheduledDate < end)
    && (forall p :: p in PostsBetween(t.posts, start, end) ==> exists i :: 0 <= i < |rows| && rows[i].post.id == p)
    && SortedByDate(rows)
  }

  /** `getPostsByDateRange` returns each post of the half-open window exactly once,
      nothing outside it, in ascending date order. */
  lemma DateRangeWindow(t: Tables, start: int, end: int, rows: seq<PostRow>)
    requires KeyedById(t)
    requires IsRangeResult(t, start, end, rows)
    ensures forall j :: 0 <= j < |GroupedPosts(rows)| ==>
      start <= GroupedPosts(rows)[j].head.post.scheduledDate < end
    ensures forall p :: p in PostsBetween(t.posts, start, end) <==>
      exists j :: 0 <= j < |GroupedPosts(rows)| && GroupedPosts(rows)[j].head.post.id == p
    ensures forall i, j :: 0 <= i < j < |GroupedPosts(rows)| ==>
      GroupedPosts(rows)[i].head.post.id != GroupedPosts(rows)[j].head.post.id
    ensures forall i, j :: 0 <= i < j < |GroupedPosts(rows)| ==>
      GroupedPosts(rows)[i].head.post.scheduledDate <= GroupedPosts(rows)[j].head.post.scheduledDate
  {
    var posts := GroupedPosts(rows);
    forall p | p in PostsBetween(t.posts, start, end)
      ensures exists j :: 0 <= j < |posts| && posts[j].head.post.id == p
    {
      var i :| 0 <= i < |rows| && rows[i].post.id == p;
      var j := RowPostGrouped(rows, i);
    }
    forall j | 0 <= j < |posts|
      ensures posts[j].head.post.id in PostsBetween(t.posts, start, end)
      ensures start <= posts[j].head.post.scheduledDate < end
    {
      var f := GroupedPostRow(rows, j);
      assert IsPostJoinRow(t, rows[f]);
    }
    GroupedIdsDistinct(rows);
    GroupedFromRows(rows);
  }

  /** No post id has two entries among the grouped posts. */
  lemma GroupedIdsDistinct(rows: seq<PostRow>)
    ensures forall i, j :: 0 <= i < j < |GroupedPosts(rows)| ==>
      GroupedPosts(rows)[i].head.post.id != GroupedPosts(rows)[j].head.post.id
  {
    var lifted := PostRowsToRows(rows);
    Grouping.KeysDistinct(lifted);
    forall i, j | 0 <= i < j < |GroupedPosts(rows)|
      ensures GroupedPosts(rows)[i].head.post.id != GroupedPosts(rows)[j].head.post.id
    {
      GroupedPostAt(rows, i);
      GroupedPostAt(rows, j);
    }
  }

  /** The `j`-th grouped post carries the columns of the first row of the `j`-th
      distinct post id. */
  lemma GroupedPostAt(rows: seq<PostRow>, j: int)
    requires 0 <= j < |Grouping.Keys(PostRowsToRows(rows))|
    ensures j < |GroupedPosts(rows)|
    ensures var f := Grouping.FirstIndex(PostRowsToRows(rows), Grouping.Keys(PostRowsToRows(rows))[j]);
      && rows[f].post.id == Grouping.Keys(PostRowsToRows(rows))[j]
      && GroupedPosts(rows)[j].head == PostHead(rows[f].post, rows[f].video, rows[f].accountSet)
  {
    var lifted := PostRowsToRows(rows);
    var f := Grouping.FirstIndex(lifted, Grouping.Keys(lifted)[j]);
    assert lifted[f] == PostRowToRow(rows[f]);
  }

  /** Every grouped post is the post of one of the rows, and the order of first rows
      carries over to the grouped posts' dates when the rows are sorted by date. */
  lemma GroupedFromRows(rows: seq<PostRow>)
    ensures forall j :: 0 <= j < |GroupedPosts(rows)| ==>
      exists f :: 0 <= f < |rows| && GroupedPosts(rows)[j].head.post == rows[f].post
    ensures SortedByDate(rows) ==> forall i, j :: 0 <= i < j < |GroupedPosts(rows)| ==>
      GroupedPosts(rows)[i].head.post.scheduledDate <= GroupedPosts(rows)[j].head.post.scheduledDate
  {
    var lifted := PostRowsToRows(rows);
    var keys := Grouping.Keys(lifted);
    var posts := GroupedPosts(rows);
    assert |posts| == |keys|;
    forall j | 0 <= j < |posts|
      ensures exists f :: 0 <= f < |rows| && posts[j].head.post == rows[f].post
    {
      GroupedPostAt(rows, j);
    }
    if SortedByDate(rows) {
      Grouping.KeysInFirstSeenOrder(lifted);
      forall i, j | 0 <= i < j < |posts|
        ensures posts[i].head.post.scheduledDate <= posts[j].head.post.scheduledDate
      {
        GroupedPostAt(rows, i);
        GroupedPostAt(rows, j);
        assert Grouping.FirstIndex(lifted, keys[i]) < Grouping.FirstIndex(lifted, keys[j]);
      }
    }
  }

  /** `getTodaysPosts` is the window from today's midnight to the next one. */
  lemma TodaysPostsWindow(t: Tables, today: int, rows: seq<PostRow>)
    requires KeyedById(t)
    requires IsRangeResult(t, today, today + DayMs, rows)
    ensures forall j :: 0 <= j < |GroupedPosts(rows)| ==>
      today <= GroupedPosts(rows)[j].head.post.scheduledDate < today + DayMs
    ensures forall p :: p in t.posts && today <= t.posts[p].scheduledDate < today + DayMs ==>
      exists j :: 0 <= j < |GroupedPosts(rows)| && GroupedPosts(rows)[j].head.post.id == p
  {
    DateRangeWindow(t, today, today + DayMs, rows);
    forall p | p in t.posts && today <= t.posts[p].scheduledDate < today + DayMs
      ensures p in PostsBetween(t.posts, today, today + DayMs)
    {
    }
  }

  /** `all` is what the query without its limit returns: join rows of posts scheduled
      from `today` on, at least one for each such post, in ascending date order. */
  ghost predicate IsUpcomingRows(t: Tables, today: int, all: seq<PostRow>) {
    && (forall i :: 0 <= i < |all| ==> IsPostJoinRow(t, all[i]) && today <= all[i].post.scheduledDate)
    && (forall p :: p in t.posts && today <= t.posts[p].scheduledDate ==>
          exists i :: 0 <= i < |all| && all[i].post.id == p)
    && SortedByDate(all)
  }

  /** `rows` is what `getUpcomingPosts(limit)`'s query may return: the first `limit`
      rows of the date-sorted join rows of posts scheduled from `today` on. */
  ghost predicate IsUpcomingResult(t: Tables, today: int, limit: nat, rows: seq<PostRow>) {
    exists all: seq<PostRow> ::
      && IsUpcomingRows(t, today, all)
      && rows == all[..if limit < |all| then limit else |all|]
  }

  /** The limit counts joined rows, so at most `limit` posts come back, all scheduled
      from today on, in ascending date order. */
  lemma UpcomingPostsBounded(t: Tables, today: int, limit: nat, rows: seq<PostRow>)
    requires IsUpcomingResult(t, today, limit, rows)
    ensures |GroupedPosts(rows)| <= limit
    ensures forall j :: 0 <= j < |GroupedPosts(rows)| ==> today <= GroupedPosts(rows)[j].head.post.scheduledDate
    ensures forall i, j :: 0 <= i < j < |GroupedPosts(rows)| ==>
      GroupedPosts(rows)[i].head.post.scheduledDate <= GroupedPosts(rows)[j].head.post.scheduledDate
  {
    var all: seq<PostRow> :| IsUpcomingRows(t, today, all) && rows == all[..if limit < |all| then limit else |all|];
    assert forall i :: 0 <= i < |rows| ==> rows[i] == all[i];
    assert SortedByDate(rows);
    Grouping.GroupedNoLonger(PostRowsToRows(rows));
    GroupedFromRows(rows);
  }

  /** The limited query returns the earliest posts: a post scheduled from today on that
      is left out means the limit was reached, and it is scheduled no earlier than any
      post that came back. */
  lemma UpcomingPostsEarliest(t: Tables, today: int, limit: nat, rows: seq<PostRow>, p: int)
    requires IsUpcomingResult(t, today, limit, rows)
    requires p in t.posts && today <= t.posts[p].scheduledDate
    requires forall j :: 0 <= j < |GroupedPosts(rows)| ==> GroupedPosts(rows)[j].head.post.id != p
    ensures |rows| == limit
    ensures forall j :: 0 <= j < |GroupedPosts(rows)| ==>
      GroupedPosts(rows)[j].head.post.scheduledDate <= t.posts[p].scheduledDate
  {
    var all: seq<PostRow> :| IsUpcomingRows(t, today, all) && rows == all[..if limit < |all| then limit else |all|];
    var i :| 0 <= i < |all| && all[i].post.id == p;
    if i < |rows| {
      assert rows[i] == all[i];
      var j := RowPostGrouped(rows, i);
      assert false;
    }
    assert all[i].post == t.posts[p] by {
      assert IsPostJoinRow(t, all[i]);
    }
    forall j | 0 <= j < |GroupedPosts(rows)|
      ensures GroupedPosts(rows)[j].head.post.scheduledDate <= t.posts[p].scheduledDate
    {
      var f := GroupedPostRow(rows, j);
      assert rows[f] == all[f];
    }
  }

  /** The post of every row has an entry among the grouped posts. */
  lemma RowPostGrouped(rows: seq<PostRow>, i: int) returns (j: int)
    requires 0 <= i < |rows|
    ensures 0 <= j < |GroupedPosts(rows)| && GroupedPosts(rows)[j].head.post.id == rows[i].post.id
  {
    var lifted := PostRowsToRows(rows);
    assert lifted[i].key == rows[i].post.id;
    Grouping.KeysOccur(lifted);
    assert Grouping.Occurs(lifted, rows[i].post.id);
    j :| 0 <= j < |Grouping.Keys(lifted)| && Grouping.Keys(lifted)[j] == rows[i].post.id;
    GroupedPostAt(rows, j);
  }

  /** A row whose post the `j`-th grouped post is. */
  lemma GroupedPostRow(rows: seq<PostRow>, j: int) returns (f: int)
    requires 0 <= j < |GroupedPosts(rows)|
    ensures 0 <= f < |rows| && GroupedPosts(rows)[j].head.post == rows[f].post
  {
    GroupedPostAt(rows, j);
    f := Grouping.FirstIndex(PostRowsToRows(rows), Grouping.Keys(PostRowsToRows(rows))[j]);
  }

  // ---------------------------------------------------------------------------------
  // Dashboard

  /** The four buckets of the dashboard query, as counts. */
  datatype Buckets = Buckets(totalPosts: nat, scheduledPosts: nat, totalTodayPosts: nat, completedToday: nat)

  datatype DashboardStats = DashboardStats(
    totalPosts: nat,
    scheduledPosts: nat,
    totalTodayPosts: nat,
    completedToday: nat,
    completionRate: int,
    pendingTodayCount: int)

  /** Posts that have at least one posted status. */
  function PostsWithPostedStatus(statuses: map<int, PostStatus>): set<int> {
    set k | k in statuses && statuses[k].isPosted :: statuses[k].postId
  }

  /** The query's `count(distinct ...)` buckets, with `today`, `tomorrow = today + 1 day`
      and `weekLater = today + 7 days`. */
  function CountBuckets(t: Tables, today: int): (b: Buckets)
    ensures b.completedToday <= b.totalTodayPosts
    ensures b.totalTodayPosts + b.scheduledPosts <= b.totalPosts
  {
    BucketsNested(t, today);
    var tomorrow := today + DayMs;
    var weekLater := today + 7 * DayMs;
    var todays := PostsBetween(t.posts, today, tomorrow);
    Buckets(
      |t.posts.Keys|,
      |set p | p in t.posts && tomorrow < t.posts[p].scheduledDate <= weekLater|,
      |todays|,
      |todays * PostsWithPostedStatus(t.statuses)|)
  }

  /** `Math.round(x)` for the non-negative ratio `numerator / denominator`: halves round
      up. */
  function RoundRatio(numerator: nat, denominator: nat): (r: nat)
    requires denominator > 0
    ensures 2 * denominator * r <= 2 * numerator + denominator < 2 * denominator * (r + 1)
  {
    (2 * numerator + denominator) / (2 * denominator)
  }

  /** The arithmetic `getDashboardStats` applies to the buckets. */
  function Derive(b: Buckets): (s: DashboardStats)
    ensures b.totalTodayPosts == 0 ==> s.completionRate == 0
    ensures b.totalTodayPosts > 0 ==>
      2 * b.totalTodayPosts * s.completionRate <= 200 * b.completedToday + b.totalTodayPosts
        < 2 * b.totalTodayPosts * (s.completionRate + 1)
    ensures s.pendingTodayCount + b.completedToday == b.totalTodayPosts
  {
    DashboardStats(
      b.totalPosts, b.scheduledPosts, b.totalTodayPosts, b.completedToday,
      if b.totalTodayPosts > 0 then RoundRatio(100 * b.completedToday, b.totalTodayPosts) else 0,
      b.totalTodayPosts - b.completedToday)
  }

  /** What `getDashboardStats` returns on tables `t` and local midnight `today`. */
  function GetDashboardStats(t: Tables, today: int): (s: DashboardStats)
    ensures s.totalTodayPosts + s.scheduledPosts <= s.totalPosts
    ensures s.completedToday <= s.totalTodayPosts
    ensures 0 <= s.pendingTodayCount && s.pendingTodayCount + s.completedToday == s.totalTodayPosts
  {
    Derive(CountBuckets(t, today))
  }

  /** A rate computed from buckets that come from the tables lies in 0..100, and the
      pending count is never negative: completed-today posts are today posts. */
  lemma DashboardBounds(t: Tables, today: int)
    ensures GetDashboardStats(t, today).completedToday <= GetDashboardStats(t, today).totalTodayPosts
    ensures 0 <= GetDashboardStats(t, today).completionRate <= 100
    ensures GetDashboardStats(t, today).pendingTodayCount >= 0
    ensures GetDashboardStats(t, today).completionRate == 100 <==>
      GetDashboardStats(t, today).totalTodayPosts > 0 &&
      200 * GetDashboardStats(t, today).completedToday >= 199 * GetDashboardStats(t, today).totalTodayPosts
  {
    var todays := PostsBetween(t.posts, today, today + DayMs);
    var completed := todays * PostsWithPostedStatus(t.statuses);
    assert completed <= todays;
    SubsetCardinality(completed, todays);
    var b := CountBuckets(t, today);
    if b.totalTodayPosts > 0 {
      RateBounds(b.completedToday, b.totalTodayPosts, GetDashboardStats(t, today).completionRate);
    }
  }

  /** Completed-today posts are today posts, and today posts and scheduled posts are
      disjoint sets of stored posts. */
  lemma BucketsNested(t: Tables, today: int)
    ensures var todays := PostsBetween(t.posts, today, today + DayMs);
      && |todays * PostsWithPostedStatus(t.statuses)| <= |todays|
      && |todays| + |set p | p in t.posts && today + DayMs < t.posts[p].scheduledDate <= today + 7 * DayMs|
         <= |t.posts.Keys|
  {
    var todays := PostsBetween(t.posts, today, today + DayMs);
    var scheduled := set p | p in t.posts && today + DayMs < t.posts[p].scheduledDate <= today + 7 * DayMs;
    SubsetCardinality(todays * PostsWithPostedStatus(t.statuses), todays);
    assert todays * scheduled == {};
    SubsetCardinality(todays + scheduled, t.posts.Keys);
  }

  lemma SubsetCardinality(a: set<int>, b: set<int>)
    requires a <= b
    ensures |a| <= |b|
  {
    assert b == a + (b - a);
  }

  /** The rounded percentage of `c` out of `n >= c` lies in 0..100 and is 100 exactly
      when `c / n >= 0.995`. */
  lemma RateBounds(c: nat, n: nat, r: int)
    requires 0 < n && c <= n
    requires 2 * n * r <= 200 * c + n < 2 * n * (r + 1)
    ensures 0 <= r <= 100
    ensures r == 100 <==> 200 * c >= 199 * n
  {
    var m := 2 * n;
    if r < 0 {
      ScaleMonotone(m, r + 1, 0);
      assert false;
    }
    if r > 100 {
      ScaleMonotone(m, 101, r);
      assert false;
    }
    if r == 100 {
      assert 200 * c >= 199 * n;
    }
    if 200 * c >= 199 * n && r < 100 {
      ScaleMonotone(m, r + 1, 100);
      assert false;
    }
  }

  /** Multiplying by a positive factor keeps order. */
  lemma ScaleMonotone(m: int, x: int, y: int)
    requires m > 0 && x <= y
    ensures m * x <= m * y
  {
    var d := y - x;
    assert m * y == m * x + m * d;
    NonNegative(m, d);
  }

  lemma NonNegative(m: int, d: int)
    requires m > 0 && d >= 0
    ensures m * d >= 0
  {
  }

  /** The buckets leave a gap: a post at exactly tomorrow's midnight counts neither as
      a today post nor as a scheduled post. */
  lemma TomorrowMidnightUncounted(t: Tables, today: int, p: int)
    requires p in t.posts && t.posts[p].scheduledDate == today + DayMs
    ensures p !in PostsBetween(t.posts, today, today + DayMs)
    ensures p !in set q | q in t.posts && today + DayMs < t.posts[q].scheduledDate <= today + 7 * DayMs
  {
  }
}
