/** The five tables of the scheduling dashboard: their rows, the length limits of their
    varchar columns, their foreign keys, and the invariants the actions keep between
    posts, accounts and per-account post statuses. */
module Schema {
  import opened Common

  // varchar lengths of the columns
  const SetNameLength := 100
  const PlatformLength := 50
  const AccountFieldLength := 100
  const TitleLength := 200
  const PathLength := 500
  const DurationLength := 10

  /** A group of social accounts managed together (table account_set). */
  datatype AccountSet = AccountSet(id: int, name: string, description: Option<string>)

  /** One platform login inside a set (table account). */
  datatype Account = Account(
    id: int,
    accountSetId: int,
    platform: string,
    accountName: string,
    username: string,
    password: string,
    notes: Option<string>)

  /** An uploaded video (table video). */
  datatype Video = Video(
    id: int,
    title: string,
    filePath: string,
    duration: Option<string>,
    caption: Option<string>,
    thumbnailPath: Option<string>)

  /** A scheduled publication of a video against an account set (table post).
      Dates and timestamps are milliseconds. */
  datatype Post = Post(
    id: int,
    videoId: int,
    accountSetId: int,
    scheduledDate: int,
    notes: Option<string>,
    updatedAt: int)

  /** Whether one post has been published on one account (table post_status). */
  datatype PostStatus = PostStatus(
    id: int,
    postId: int,
    accountId: int,
    isPosted: bool,
    postedAt: Option<int>,
    notes: Option<string>,
    updatedAt: int)

  /** An account set as a form submits it for insertion; without an id the serial
      column numbers it. */
  datatype NewAccountSet = NewAccountSet(id: Option<int>, name: string, description: Option<string>)

  /** An account as a form submits it. Without an id the serial column numbers it on
      insertion; `notes` left out keeps the column on update, an explicit `null` clears
      it, and either is null on insertion.
      The submitted `accountSetId` is always overridden by the action. */
  datatype NewAccount = NewAccount(
    id: Option<int>,
    accountSetId: int,
    platform: string,
    accountName: string,
    username: string,
    password: string,
    notes: Field<string>)

  /** A status row to insert; the serial column numbers it. */
  datatype NewPostStatus = NewPostStatus(
    postId: int,
    accountId: int,
    isPosted: bool,
    postedAt: Option<int>,
    notes: Option<string>)

  /** The row both fan-outs insert for a post and an account: not posted, no posting
      time, no notes. */
  function Unposted(postId: int, accountId: int): NewPostStatus {
    NewPostStatus(postId, accountId, false, None, None)
  }

  /** `accounts.map((account) => ({ postId, accountId: account.id, isPosted: false }))`:
      one unposted row per account, in the accounts' order. */
  function UnpostedFor(postId: int, accounts: seq<Account>): seq<NewPostStatus> {
    seq(|accounts|, j requires 0 <= j < |accounts| => Unposted(postId, accounts[j].id))
  }

  predicate OptionalFits(s: Option<string>, length: nat) {
    s.None? || |s.value| <= length
  }

  predicate AccountSetFits(s: AccountSet) {
    |s.name| <= SetNameLength
  }

  predicate AccountFits(a: Account) {
    && |a.platform| <= PlatformLength
    && |a.accountName| <= AccountFieldLength
    && |a.username| <= AccountFieldLength
    && |a.password| <= AccountFieldLength
  }

  predicate VideoFits(v: Video) {
    && |v.title| <= TitleLength
    && |v.filePath| <= PathLength
    && OptionalFits(v.duration, DurationLength)
    && OptionalFits(v.thumbnailPath, PathLength)
  }

  /** The whole database: each table maps a primary key to its row. */
  datatype Tables = Tables(
    accountSets: map<int, AccountSet>,
    accounts: map<int, Account>,
    videos: map<int, Video>,
    posts: map<int, Post>,
    statuses: map<int, PostStatus>)

  /** Every row is stored under its own primary key. */
  ghost predicate KeyedById(t: Tables) {
    && (forall k :: k in t.accountSets ==> t.accountSets[k].id == k)
    && (forall k :: k in t.accounts ==> t.accounts[k].id == k)
    && (forall k :: k in t.videos ==> t.videos[k].id == k)
    && (forall k :: k in t.posts ==> t.posts[k].id == k)
    && (forall k :: k in t.statuses ==> t.statuses[k].id == k)
  }

  /** The five `references(...)`: none of them has an on-delete action, so a row that is
      still referenced cannot be deleted. */
  ghost predicate ForeignKeysHold(t: Tables) {
    && (forall k :: k in t.accounts ==> t.accounts[k].accountSetId in t.accountSets)
    && (forall k :: k in t.posts ==> t.posts[k].videoId in t.videos && t.posts[k].accountSetId in t.accountSets)
    && (forall k :: k in t.statuses ==> t.statuses[k].postId in t.posts && t.statuses[k].accountId in t.accounts)
  }

  ghost predicate ColumnsFit(t: Tables) {
    && (forall k :: k in t.accountSets ==> AccountSetFits(t.accountSets[k]))
    && (forall k :: k in t.accounts ==> AccountFits(t.accounts[k]))
    && (forall k :: k in t.videos ==> VideoFits(t.videos[k]))
  }

  /** What the schema itself enforces. */
  ghost predicate Integrity(t: Tables) {
    KeyedById(t) && ForeignKeysHold(t) && ColumnsFit(t)
  }

  /** Keys of the accounts that belong to set `setId`. */
  function AccountsOf(accounts: map<int, Account>, setId: int): set<int> {
    set k | k in accounts && accounts[k].accountSetId == setId
  }

  /** Keys of the posts scheduled against set `setId`. */
  function PostsOf(posts: map<int, Post>, setId: int): set<int> {
    set k | k in posts && posts[k].accountSetId == setId
  }

  /** Keys of the status rows of post `postId`. */
  function StatusesOf(statuses: map<int, PostStatus>, postId: int): set<int> {
    set k | k in statuses && statuses[k].postId == postId
  }

  /** Keys of the status rows that pair post `postId` with account `accountId`. */
  function StatusesFor(statuses: map<int, PostStatus>, postId: int, accountId: int): set<int> {
    set k | k in statuses && statuses[k].postId == postId && statuses[k].accountId == accountId
  }

  /** A status row links a post and an account of the same set. */
  ghost predicate StatusesWithinSet(t: Tables) {
    forall k :: k in t.statuses && t.statuses[k].postId in t.posts && t.statuses[k].accountId in t.accounts ==>
      t.accounts[t.statuses[k].accountId].accountSetId == t.posts[t.statuses[k].postId].accountSetId
  }

  /** Every account of a set has a status row for every post of that set. */
  ghost predicate EveryPairHasStatus(t: Tables) {
    forall p, a {:trigger StatusesFor(t.statuses, p, a)} ::
      p in t.posts && a in t.accounts && t.accounts[a].accountSetId == t.posts[p].accountSetId ==>
        StatusesFor(t.statuses, p, a) != {}
  }

  /** No post and account are paired by two status rows. */
  ghost predicate PairsUnique(t: Tables) {
    forall k, j ::
      && k in t.statuses && j in t.statuses
      && t.statuses[k].postId == t.statuses[j].postId
      && t.statuses[k].accountId == t.statuses[j].accountId
      ==> k == j
  }

  /** Every post has at least one status row (so it can be read back). */
  ghost predicate PostsHaveStatuses(t: Tables) {
    forall p {:trigger StatusesOf(t.statuses, p)} :: p in t.posts ==> StatusesOf(t.statuses, p) != {}
  }

  /** A status is posted exactly when it has a posting time: rows are inserted unposted
      without one, and the two marking actions write both columns together. */
  ghost predicate PostedHasTime(t: Tables) {
    forall k :: k in t.statuses ==> (t.statuses[k].isPosted <==> t.statuses[k].postedAt.Some?)
  }

  /** The invariants the actions maintain procedurally, beyond the schema. */
  ghost predicate Consistent(t: Tables) {
    StatusesWithinSet(t) && EveryPairHasStatus(t) && PairsUnique(t) && PostsHaveStatuses(t) && PostedHasTime(t)
  }
}
