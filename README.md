# Shorts scheduler: data layer, upload naming and time slots in Dafny

This project models the server side of a small dashboard that schedules short videos
for publication on groups of social-media accounts. It covers five parts:

- the five PostgreSQL tables (account sets, accounts, videos, posts, per-account post
  statuses), with their primary keys, foreign keys and varchar limits;
- the account-set actions (create, read one, read all, update with roster reconciliation,
  delete);
- the post actions (create with one status per account, read back, date windows, status
  marks and toggle, edit, delete, dashboard counts, the grouping of joined rows);
- the naming rules of the video upload route;
- the half-hour time-slot picker of the create-post form.

The database is a class `Store.Database` whose fields are the tables, as maps from
primary key to row, and the serial sequences. Each action is a method. An action that
runs in a transaction computes on local copies and assigns the fields only at the end,
so a failure leaves every table as it was. `Valid()` is the invariant every action keeps:

- the schema's constraints (`Schema.Integrity`): rows under their own keys, foreign
  keys, column lengths;
- the procedural invariants (`Schema.Consistent`): every account of a set has exactly one
  status row per post of the set, every post has a status, and a status is posted exactly
  when it has a posting time.

None of the foreign keys has an on-delete action. Deleting an account that still has
statuses, or a set that still has accounts or posts, therefore fails, and that failure
is modelled.

A `SELECT` without `ORDER BY` returns rows in an order the database chooses. The read
functions therefore take the row sequence as input. Lemmas describe any sequence that is
a valid result of the join: `IsSetJoinFor`, `IsPostJoinFor`, `IsRangeResult`,
`IsUpcomingResult`. The methods enumerate keys in an unspecified order. The ghost
outputs `existing` and `setPosts` of `UpdateAccountSet` name the order its selects
returned.

A few inputs come from outside the program and are parameters:

- the clock: `now`, and `today` as a midnight in milliseconds;
- the upload's unique suffix;
- whether the upload's disk writes succeed.

The query builder refuses an insert of zero rows. It is modelled as the error
`EmptyValues`, so `createPost` for a set without accounts rolls back.

Integers are unbounded: ids, counts and dates are mathematical integers. Strings are
`seq<char>`.

Modules: `Common` (Option, Result, errors), `Seqs` (order-preserving filter),
`Schema`, `Engine` (multi-row inserts, deletes and updates as the database performs them),
`Reconcile` (the partition and fan-out of `updateAccountSet`), `Roster` (the
specification of `updateAccountSet`'s writes), `Invariants`, `Grouping` (first-seen
grouping of joined rows), `Queries`, `Store`, `Upload`, `TimeSlots`, `CreateDialog`, and
`Walkthrough` (the basic flow from an empty database to a post with its statuses).

## Model

| member | source | states |
|---|---|---|
| Store.Database.CreateAccountSet | src/app/actions/account-sets.ts:19-46 | One transaction whose result is `NewSetResult` of the tables before it. On success: the set under its submitted or serial id, and one account per submitted account, each given the new set's id whatever it submitted and keeping its submitted id. The returned accounts are exactly the inserted rows, in order, and exactly the set's accounts afterwards. On failure nothing changes. |
| Store.NewSetOutcome | src/app/actions/account-sets.ts:19-46 | `createAccountSet` succeeds exactly when the set row fits its column, its id is free, the account list is non-empty and the account insert succeeds. Each failure has its own error: `ValueTooLong("account_set")`, `UniqueViolation("account_set")`, `EmptyValues` or the insert's error. A set of any number of fitting accounts without ids, under a free set id, is created whenever the account sequence is ahead of the stored accounts. |
| Engine.InsertAccounts | src/app/actions/account-sets.ts:31-39 | A multi-row insert returns one row per submitted row. Its only failures are a value too long for its column and a primary key already taken. |
| Engine.InsertedRows | src/app/actions/account-sets.ts:31-39 | Each returned row is the submitted account stored with the target set id, under its submitted id when it had one, and fits its columns. |
| Engine.InsertedTable | src/app/actions/account-sets.ts:31-39 | Inserted ids are distinct and were not stored before. Stored rows are untouched. The table gains exactly the returned rows. |
| Engine.InsertedIdsFresh | src/app/actions/account-sets.ts:31-39 | The ids the insert gives its rows are distinct and none was stored before. |
| Engine.InsertedRowsStored | src/app/actions/account-sets.ts:31-39 | Stored rows are untouched, each returned row is stored under its id, and the table gains exactly those ids. |
| Engine.SerialRowsAccepted | src/app/actions/account-sets.ts:31-39 | Accounts without ids that fit their columns are all inserted, however many there are, when the serial sequence is ahead of every stored key. |
| Engine.TakenIdRejected | src/lib/drizzle/schema.ts:22-23 | A submitted account id that a stored account already has makes the whole insert fail. |
| Engine.DuplicateIdRejected | src/lib/drizzle/schema.ts:22-23 | Two submitted accounts with the same id make the whole insert fail. |
| Invariants.InsertedIntoNewSet | src/app/actions/account-sets.ts:31-45 | The accounts inserted for a new set are exactly the set's accounts afterwards, and accounts of other sets are unchanged. |
| Invariants.NewSetKeepsValid | src/app/actions/account-sets.ts:23-45 | Adding a set with its own new accounts keeps every schema constraint and every status invariant. |
| Store.Database.GetAccountSetById | src/app/actions/account-sets.ts:48-70 | Nothing for a missing id. Otherwise the stored set with exactly the accounts whose set id is that id, by membership, count and distinct ids, and never a null account. |
| Queries.PresentAccounts | src/app/actions/account-sets.ts:64-68 | Dropping the null accounts of the join rows keeps exactly the accounts present in some row. |
| Queries.AccountSetFromRows | src/app/actions/account-sets.ts:60-69 | No rows gives nothing. Otherwise the first row's set with exactly the non-null accounts of the rows. |
| Queries.AccountSetByIdReadsTables | src/app/actions/account-sets.ts:48-70 | On any valid result of the left join, the result is empty exactly when the set is missing, and otherwise holds the stored set and exactly its accounts, as many as are stored and none twice. |
| Queries.PresentAccountsDistinct | src/app/actions/account-sets.ts:64 | Dropping the null accounts of join rows that never repeat an account leaves no account twice. |
| Queries.SetRowsCount | src/app/actions/account-sets.ts:53-68 | The accounts of a set's join rows are its stored accounts, equal in number and with pairwise distinct ids. |
| Queries.GetAllAccountSets | src/app/actions/account-sets.ts:72-97 | The `forEach` over the join rows computes the first-seen grouping `AllAccountSets`. |
| Queries.AllAccountSetsReadTables | src/app/actions/account-sets.ts:72-97 | On any valid result of the unfiltered left join, the listed sets are exactly the stored sets, each once, each with exactly its stored accounts. |
| Queries.EntryReadsTables | src/app/actions/account-sets.ts:82-96 | Each listed entry is a stored set, with exactly the accounts stored for it. |
| Grouping.ChildrenMembers | src/app/actions/posts.ts:337-343 | A key's children are exactly the children present in the rows with that key. |
| Queries.AllAccountSetsShape | src/app/actions/account-sets.ts:82-96 | One entry per set id, each id that occurs in the rows has an entry, entries come in first-seen order, and each entry's accounts are its non-null accounts in row order. |
| Grouping.GroupRows | src/app/actions/posts.ts:324-347 | The loop that fills a map and pushes children computes `Grouped`, one group per key in first-seen order. |
| Grouping.FirstIndex | src/app/actions/posts.ts:327-335 | A group's key first occurs at the returned row and at no earlier row. |
| Grouping.KeysOccur | src/app/actions/posts.ts:327-335 | A key gets a group exactly when some row carries it. |
| Grouping.KeysDistinct | src/app/actions/posts.ts:328 | No key gets two groups. |
| Grouping.KeysInFirstSeenOrder | src/app/actions/posts.ts:346 | Groups come in the order their keys first occur. |
| Grouping.UnseenHasNoChildren | src/app/actions/posts.ts:337-343 | A key no row carries collects no children. |
| Grouping.ChildrenAppend | src/app/actions/posts.ts:337-343 | A key's children from two runs of rows are the children of the first run followed by those of the second. |
| Grouping.GroupedNoLonger | src/app/actions/posts.ts:324-347 | There are never more groups than rows. |
| Store.Database.DeleteAccountSet | src/app/actions/account-sets.ts:224-226 | Removes only the set row. It fails, changing nothing, exactly when the set still has accounts or posts, since neither reference has an on-delete action. |
| Invariants.DeleteSetKeepsValid | src/app/actions/account-sets.ts:224-226 | Deleting a set that nothing references keeps every invariant. |
| Store.Database.UpdateAccountSet | src/app/actions/account-sets.ts:99-222 | A missing set fails with "AccountSet with id … not found", changing nothing. Otherwise, all or nothing: the set is overlaid with the submitted fields, and the account and status tables become exactly what `RosterWrites` computes from the set's accounts and posts as selected. The result is the overlaid set with exactly its accounts read back after the writes, as many as the table holds and none twice. `Valid()` is kept. |
| Store.Database.SelectSetAccounts | src/app/actions/account-sets.ts:209-212 | The final select lists every account of the set once: membership, count and distinct ids. |
| Store.RunRosterWrites | src/app/actions/account-sets.ts:144-206 | The delete, the update loop, the insert, the select of the set's posts and the status fan-out compute `RosterWrites`. The posts it selects are exactly the set's posts. |
| Store.UpdateLoop | src/app/actions/account-sets.ts:157-169 | The `for` loop over the update group computes `ApplyUpdates`, stopping at the first failure. |
| Roster.RosterWritesStages | src/app/actions/account-sets.ts:144-206 | A successful reconciliation passes through the delete, update, insert and fan-out stages in the source's order, each one succeeding. |
| Roster.RosterKeepsValid | src/app/actions/account-sets.ts:99-222 | A successful reconciliation keeps every schema constraint and every status invariant, and the status sequence stays ahead of the keys. |
| Roster.RosterAccounts | src/app/actions/account-sets.ts:128-182 | Afterwards, the set's stored accounts are those the submission lists again, plus the inserted ones, and nothing else. Accounts of other sets are unchanged. Each kept account carries the last submitted values for its id. Each inserted row is its submitted account, stored with the set's id and any submitted id. |
| Roster.RosterStatuses | src/app/actions/account-sets.ts:184-205 | Old statuses stay. Every new status is unposted, without posting time or notes, and pairs a post of the set with an inserted account. Every such pair gets one. Exactly (posts of the set) × (inserted accounts) statuses are added. |
| Roster.RosterFailures | src/app/actions/account-sets.ts:144-182 | When the set has posts, dropping any of its accounts fails on the status foreign key. Any failure is that, a too-long value, or a taken id. |
| Roster.RosterWrites | src/app/actions/account-sets.ts:144-206 | Any failure of the account and status statements is the status foreign key, a missing update id, a too-long account value, or a taken account or status key. |
| Roster.AccountRowsListSet | src/app/actions/account-sets.ts:122-125 | The rows read under an enumeration of the set's keys are exactly the set's accounts, each once. |
| Roster.PostRowsListPosts | src/app/actions/account-sets.ts:185-188 | The rows read under an enumeration of the set's post keys are exactly the set's posts, each once. |
| Roster.MatchesSet | src/app/actions/account-sets.ts:132-141 | A submitted id matches a selected account exactly when it is the id of an account of the set. |
| Roster.DeleteGroupDoomed | src/app/actions/account-sets.ts:145-154 | The delete removes exactly the accounts of this set whose ids the submission does not list. |
| Roster.RemovalBlockedByPosts | src/app/actions/account-sets.ts:145-154 | When the set has posts, every account of the set has statuses, so deleting any of them fails the transaction. |
| Roster.UpdateStage | src/app/actions/account-sets.ts:157-169 | After the update loop, the accounts of other sets are unchanged. The set's accounts carry the last submitted values for their id and stay in the set. |
| Roster.FanOutAddsUnposted | src/app/actions/account-sets.ts:192-203 | Every inserted status row is unposted and pairs a post of the set with an inserted account. |
| Roster.FanOutCoversPairs | src/app/actions/account-sets.ts:192-203 | Every (post of the set, inserted account) pair has a status afterwards. |
| Roster.FanOutPairsDistinct | src/app/actions/account-sets.ts:192-203 | No two inserted statuses pair the same post and account. |
| Roster.FanOutCount | src/app/actions/account-sets.ts:192-203 | The status table grows by exactly (posts of the set) × (inserted accounts). |
| Roster.FanOutStage | src/app/actions/account-sets.ts:190-205 | The fan-out stage, including its skip when there are no posts or no rows, adds exactly the statuses above and keeps the old ones. |
| Roster.AccountsStage | src/app/actions/account-sets.ts:144-182 | After delete, update and insert, the set's accounts are the kept ones plus the inserted ones. Inserted ids are distinct and new, and every remaining status still names a stored account. |
| Roster.AccountsStageEffect | src/app/actions/account-sets.ts:144-182 | The account table afterwards in terms of the submission: which keys remain, other sets unchanged, kept accounts overlaid, inserted rows as submitted. |
| Roster.StagesMakeRosterUpdate | src/app/actions/account-sets.ts:144-205 | The stages together form a roster update of the set, the shape the invariant lemmas take. |
| Invariants.RosterUpdateKeepsIntegrity | src/app/actions/account-sets.ts:104-221 | A roster update of one set keeps keys, foreign keys and column limits. |
| Invariants.RosterUpdateKeepsConsistent | src/app/actions/account-sets.ts:104-221 | A roster update keeps every account of a set paired with every post of the set by exactly one status, and keeps postedAt in step with isPosted. |
| Reconcile.DeleteGroupExact | src/app/actions/account-sets.ts:128-131 | The delete group is exactly the existing accounts whose id no submitted account has, in their selected order. |
| Reconcile.ToDelete | src/app/actions/account-sets.ts:128-131 | Every account to delete is an existing account whose id the submission does not carry. |
| Reconcile.ToUpdate | src/app/actions/account-sets.ts:132-136 | Every account to update is a submitted account whose id an existing account has. |
| Reconcile.ToInsert | src/app/actions/account-sets.ts:137-142 | Every account to insert is a submitted account whose id no existing account has. |
| Reconcile.UpdateInsertPartition | src/app/actions/account-sets.ts:132-142 | The update and insert groups are order-preserving filters of the submission, by whether an existing account has the id. Together they hold every submitted account exactly as often as the submission does. |
| Reconcile.UpdateGroupHasIds | src/app/actions/account-sets.ts:158-161 | Every account of the update group has an id that an existing account has, so "Account id is required for update" is never thrown. |
| Reconcile.FanOutLength | src/app/actions/account-sets.ts:192-200 | The `flatMap` builds (posts) × (inserted accounts) rows. |
| Reconcile.FanOut | src/app/actions/account-sets.ts:192-200 | Every row of the `flatMap` is unposted, with no posting time and no notes. |
| Reconcile.FanOutMembers | src/app/actions/account-sets.ts:192-200 | Its rows are exactly the unposted rows of some (post, inserted account) pair. |
| Reconcile.FanOutRows | src/app/actions/account-sets.ts:192-200 | Each row at each position pairs a listed post with a listed inserted account. |
| Reconcile.FanOutEmpty | src/app/actions/account-sets.ts:191-204 | No status rows are built exactly when the set has no posts or nothing was inserted. |
| Reconcile.FanOutDistinct | src/app/actions/account-sets.ts:192-200 | With distinct posts and distinct inserted accounts, no two rows pair the same post and account. |
| Reconcile.LastWithId | src/app/actions/account-sets.ts:158-169 | The last submitted account carrying a given id is a submitted account with that id. |
| Reconcile.Overlaid | src/app/actions/account-sets.ts:162-168 | Updating never changes an account's id. |
| Reconcile.OverlaidUntouched | src/app/actions/account-sets.ts:158-169 | An account whose id the update group does not carry is not changed. |
| Reconcile.OverlaidLastWins | src/app/actions/account-sets.ts:158-169 | An updated account carries the set's id and the columns of the last submitted account with its id. Notes left out are kept, and notes sent as `null` become null. |
| Reconcile.OverlaidFiltered | src/app/actions/account-sets.ts:132-136 | Filtering the update group by any test that keeps an account's submissions gives that account the same result. |
| Reconcile.ApplyUpdatesEffect | src/app/actions/account-sets.ts:158-169 | A successful update loop keeps the table's keys and leaves each account as its overlay by the update group. |
| Reconcile.ApplyUpdatesFailsEarly | src/app/actions/account-sets.ts:158-169 | Once a prefix of the loop fails, the whole loop fails with the same error. |
| Reconcile.ApplyUpdatesOutcome | src/app/actions/account-sets.ts:158-169 | Updated accounts still fit their columns. When every update carries an id, the only possible failure is a too-long value. |
| Reconcile.ApplyUpdates | src/app/actions/account-sets.ts:158-169 | The update loop fails only with "Account id is required for update" or a too-long account value. |
| Engine.DeleteAccounts | src/app/actions/account-sets.ts:145-155 | The delete fails on the status foreign key exactly when a status names a doomed account. Otherwise it removes exactly the accounts of this set with listed ids. |
| Engine.UpdateAccount | src/app/actions/account-sets.ts:162-168 | An update of a missing id changes nothing. Otherwise exactly that row gets the submitted columns and the set's id, failing only on a too-long value. |
| Engine.InsertStatuses | src/app/actions/account-sets.ts:203 | A status insert numbers rows from the serial sequence, in order. It keeps old rows and cannot fail while the sequence is ahead of the stored keys. |
| Engine.InsertedStatusAt | src/app/actions/posts.ts:73-82 | Each new status key holds the row built from its submitted status. |
| Store.Database.InsertPost | src/app/actions/posts.ts:54-85 | The post under the next serial id, plus one unposted status for each account of the set. A missing video or set fails on the foreign key. A set without accounts makes the status insert empty, and the whole transaction fails. With the video and the set present and the set holding accounts, it succeeds. On success the old statuses stay, the only new ones are the post's, the post and status sequences advance by one and by the number of accounts, and the other sequences stay. |
| Invariants.FannedRowsUnposted | src/app/actions/posts.ts:73-82 | Every status the post's fan-out adds is unposted, without posting time, and pairs the post with an account of its set. |
| Invariants.FannedRowsCoverSet | src/app/actions/posts.ts:73-82 | After the fan-out every account of the set has a status for the new post. |
| Invariants.FannedRowsDistinct | src/app/actions/posts.ts:73-82 | No two statuses the fan-out adds name the same account. |
| Invariants.PostFannedOut | src/app/actions/posts.ts:73-82 | The statuses of a new post are one unposted row per account of its set. |
| Invariants.PostFannedOutKeys | src/app/actions/posts.ts:73-82 | The new post's statuses are exactly the newly numbered rows. |
| Invariants.CreatePostEffect | src/app/actions/posts.ts:54-85 | After the transaction, old statuses are unchanged. The new post's statuses are unposted, name accounts of its set, and are as many as the set's accounts. |
| Invariants.NewPostKeepsValid | src/app/actions/posts.ts:54-85 | A new post with a status for each account of its set keeps every invariant. |
| Store.Database.CreatePost | src/app/actions/posts.ts:48-89 | Succeeds exactly when the video and the set exist and the set has accounts, and otherwise fails with the foreign-key or empty-insert error, changing nothing. The post gets the next serial id and is read back with the submitted fields, its video and its set. Its statuses are as many as the set's accounts, one for each account, all unposted. In the status table the old rows stay unchanged, and the only new rows are the post's: unposted, without a posting time, for accounts of the set, as many as its accounts. The post sequence advances by one and the status sequence by the number of accounts. Sets, accounts and videos are unchanged. |
| Store.Database.GetPostById | src/app/actions/posts.ts:92-125 | A missing post fails with "Post not found". A post without statuses fails with "Invalid post status". Otherwise the post, its video and set, and exactly its statuses with their accounts: as many entries as the post has statuses, no status twice. |
| Queries.StatusesFromRows | src/app/actions/posts.ts:117-123 | The status list succeeds exactly when every row has a status and an account, one entry per row in row order. Otherwise it fails with "Invalid post status". |
| Queries.PostFromRows | src/app/actions/posts.ts:109-124 | No rows: "Post not found". A null set on the first row: "Account set is missing". A row missing status or account: "Invalid post status". Otherwise the first row's post, video and set with one status per row. |
| Queries.PostByIdReadsTables | src/app/actions/posts.ts:92-125 | On any valid result of the join, the outcome depends only on the tables, as stated for `GetPostById`, including the count of statuses and that no status appears twice. |
| Queries.StatusRowsCount | src/app/actions/posts.ts:93-123 | The join rows of a post that has statuses carry its statuses, each once, so there are as many rows as statuses. |
| Queries.GroupPostResults | src/app/actions/posts.ts:324-347 | The loop computes `GroupedPosts`. |
| Queries.GroupedPostsShape | src/app/actions/posts.ts:324-347 | Each post id appears once, in first-seen order. Each entry is built from its first row, and its statuses are the complete rows for it in row order. A row missing status or account still creates its post's entry. |
| Queries.GroupedPostAt | src/app/actions/posts.ts:328-335 | The j-th entry is built from the first row of the j-th distinct post id. |
| Queries.GroupedFromRows | src/app/actions/posts.ts:324-347 | Every entry's post comes from some row; rows sorted by date give entries sorted by date. |
| Queries.RowPostGrouped | src/app/actions/posts.ts:324-347 | The post of every row has an entry among the grouped posts. |
| Queries.GroupedPostRow | src/app/actions/posts.ts:324-347 | Every grouped post is the post of some row. |
| Queries.GroupedIdsDistinct | src/app/actions/posts.ts:328 | No post id has two grouped entries. |
| Queries.DateRangeWindow | src/app/actions/posts.ts:166-190 | Exactly the posts with start ≤ date < end, each once, in ascending date order. |
| Queries.TodaysPostsWindow | src/app/actions/posts.ts:128-135 | Exactly the posts dated from today's midnight up to, but not including, the next one. |
| Queries.UpcomingPostsBounded | src/app/actions/posts.ts:138-163 | The limit applies to joined rows, so there are at most `limit` posts, all dated today or later, in ascending order. |
| Queries.UpcomingPostsEarliest | src/app/actions/posts.ts:138-163 | The query returns the earliest posts: a post dated today or later that is left out means the limit was reached, and it is dated no earlier than any post that came back. |
| Queries.RoundRatio | src/app/actions/posts.ts:289 | The integer nearest to numerator/denominator, halves rounded up. |
| Queries.Derive | src/app/actions/posts.ts:284-292 | The rate is 0 with no posts today, else 100·completed/total rounded. Pending plus completed is the total. |
| Queries.CountBuckets | src/app/actions/posts.ts:256-277 | The four `count(distinct …)` buckets: completed-today posts are among today's posts, and today's and the scheduled posts are disjoint sets of stored posts, so together no more than the total. |
| Queries.BucketsNested | src/app/actions/posts.ts:270-274 | The completed-today set is a subset of the today set, and the today window and the scheduled window `(tomorrow, weekLater]` do not overlap. |
| Queries.GetDashboardStats | src/app/actions/posts.ts:255-293 | The action's result: today's and scheduled posts together are no more than the total, completed ≤ today's total, and pending is non-negative and adds up with completed to today's total. |
| Queries.DashboardBounds | src/app/actions/posts.ts:256-292 | Completed ≤ today's total, the rate lies in 0..100 and is 100 only near full completion, and pending is non-negative. |
| Queries.RateBounds | src/app/actions/posts.ts:287-290 | A rounded percentage of a part of a whole lies in 0..100. |
| Queries.TomorrowMidnightUncounted | src/app/actions/posts.ts:272-273 | A post dated exactly at tomorrow's midnight is counted in neither today's total nor the scheduled count. |
| Store.SetPostedEffect | src/app/actions/posts.ts:195-232 | A mark touches exactly the rows of the (post, account) pair. They become posted with a posting time, or unposted without one, and get the update time; nothing else changes. |
| Store.ToggleTwiceRestores | src/app/actions/posts.ts:234-253 | Toggling a pair twice restores every row's isPosted and whether it has a posting time. |
| Store.Database.Mark | src/app/actions/posts.ts:195-232 | The status table becomes `SetPosted` of the old one; no other table changes, and the invariants hold. |
| Store.SetPosted | src/app/actions/posts.ts:195-232 | A mark keeps the table's keys and every row's id, post and account; every row it changes has isPosted exactly when it has a posting time. |
| Store.Database.MarkPosted | src/app/actions/posts.ts:195-212 | `markPosted`: `SetPosted` with posted true. |
| Store.Database.MarkNotPosted | src/app/actions/posts.ts:215-232 | `markNotPosted`: `SetPosted` with posted false. |
| Store.Database.ToggleIsPosted | src/app/actions/posts.ts:234-253 | Fails exactly when the pair has no status row (reading `isPosted` of undefined), changing nothing. Otherwise it marks the pair with the negation of its single row's isPosted. |
| Invariants.StatusEditKeepsValid | src/app/actions/posts.ts:195-232 | Status edits that keep links and keep postedAt in step with isPosted keep every invariant. |
| Store.Database.UpdatePost | src/app/actions/posts.ts:296-312 | The post with the id gets the supplied date and notes and the update time, nothing else changes, and it is read back. A missing id changes nothing and fails with "Post not found". The post read back has exactly its statuses, as many as are stored. |
| Invariants.PostEditKeepsValid | src/app/actions/posts.ts:296-312 | Editing a post's date, notes or timestamp keeps every invariant. |
| Store.Database.DeletePost | src/app/actions/posts.ts:315-321 | Removes exactly the statuses of the post, then the post; afterwards neither exists and nothing else changes. |
| Invariants.StatusesWithoutPost | src/app/actions/posts.ts:317 | The statuses kept are exactly those of other posts, unchanged. |
| Invariants.DeletePostKeepsValid | src/app/actions/posts.ts:315-321 | Deleting a post with its statuses keeps every invariant. |
| Store.Database.InsertVideo | src/lib/drizzle/schema.ts:37-46 | A video row under the next serial id. A title over 200 characters, a path over 500 or a duration over 10 fails, changing nothing. |
| Upload.Upload | src/app/api/videos/upload/route.ts:7-52 | No file: 400 "No file provided", with nothing written and no row. Any thrown error: 500 "Upload failed". Otherwise the file is written under the stored name and a video row holds "/uploads/" + that name, the title or file name, and duration "0:00". A failed insert leaves the written file. |
| Upload.TitleOrName | src/app/api/videos/upload/route.ts:40 | The title when present and non-empty, else the original, unstripped file name. |
| Upload.Sanitize | src/app/api/videos/upload/route.ts:23-26 | The stripped name holds only ASCII letters, digits and dots and is no longer than the name. |
| Upload.SanitizedAllowedOnly | src/app/api/videos/upload/route.ts:23-26 | The stripped name holds only ASCII letters, digits and dots, so no '/' or '\\'. Every allowed character of the name survives. |
| Upload.SanitizedIsSubsequence | src/app/api/videos/upload/route.ts:23-26 | Stripping deletes without reordering and never lengthens the name. |
| Upload.CleanNameUnchanged | src/app/api/videos/upload/route.ts:23-26 | A name made of allowed characters is kept as it is. |
| Upload.SanitizeIdempotent | src/app/api/videos/upload/route.ts:23-26 | Stripping twice is stripping once. |
| Upload.FilePathShape | src/app/api/videos/upload/route.ts:22-41 | The recorded path is "/uploads/", the suffix, a dash and the stripped name. |
| TimeSlots.Slots | src/components/create-post/post-details.tsx:88-96 | Exactly 36 slots, slot i being `Slot(i)`. |
| TimeSlots.Decimal | src/components/create-post/post-details.tsx:89 | `String(n)` is a non-empty string of digits, of length one exactly below 10. |
| TimeSlots.DecimalRoundTrip | src/components/create-post/post-details.tsx:78-89 | `Number(String(n))` is n. |
| TimeSlots.PaddedRoundTrip | src/components/create-post/post-details.tsx:89 | Padding a number below 100 gives two digits that still convert back to it. |
| TimeSlots.SplitWithoutSeparator | src/components/create-post/post-details.tsx:78 | A string without ':' splits into itself alone. |
| TimeSlots.SplitJoined | src/components/create-post/post-details.tsx:78 | Two colon-free pieces joined by ':' split back into those two pieces. |
| TimeSlots.SlotShape | src/components/create-post/post-details.tsx:89-92 | Every slot is "HH:MM": five characters, digits around a colon. |
| TimeSlots.SlotParses | src/components/create-post/post-details.tsx:78-92 | Splitting slot i and converting the pieces gives hour floor(i/2)+6 and minute 0 for even i, 30 for odd i. |
| TimeSlots.ParseSlot | src/components/create-post/post-details.tsx:78 | A value without ':' gives its own number as the hour and no minute. |
| TimeSlots.ChooseSlot | src/components/create-post/post-details.tsx:77-81 | A date results exactly when both pieces convert. It keeps seconds and milliseconds, and its day, hour and minute are the old day plus the parsed hours and minutes, with overflow rolling into later days. |
| TimeSlots.SlotsAscend | src/components/create-post/post-details.tsx:88-96 | Slots run from "06:00" to "23:30", slot i being 6:00 plus 30·i minutes. |
| TimeSlots.ChooseSlotSetsTime | src/components/create-post/post-details.tsx:77-81 | Choosing a slot changes only the hours and minutes of the copied date to the slot's, keeping the day, seconds and milliseconds. |
| CreateDialog.SharedIdSubmission | src/components/create-account-set-dialog.tsx:22-30 | Every account the dialog submits carries the one id of the blank account. |
| CreateDialog.SharedIdRejected | src/components/create-account-set-dialog.tsx:22-30 | As written, a submission of two or more accounts is always rejected, as is any submission once the shared id is taken. |
| CreateDialog.SerialSubmission | src/components/create-account-set-dialog.tsx:22-30 | The corrected submission carries no ids. |
| CreateDialog.SerialIdsAccepted | src/components/create-account-set-dialog.tsx:22-30 | With ids left to the serial sequence, any number of fitting accounts is inserted. |
| Walkthrough.FirstSet | src/app/actions/account-sets.ts:19-46 | On an empty database, a set of fitting accounts without ids is created, and the set then has exactly as many accounts as were submitted. |
| Walkthrough.SetThenPost | src/app/actions/posts.ts:48-89 | On an empty database, a set of n fitting accounts created, a video recorded and a post created on them: the set comes back with n accounts and the post with n unposted statuses. |

## Left out

- Isolation and concurrency. Each transaction is one atomic method. The read-then-write race of `toggleIsPosted` and concurrent `createPost` calls are not modelled.
- Clocks and time zones. `new Date()`, midnight and "tomorrow" are parameters, and a day is a constant 86 400 000 ms, so daylight-saving days are not modelled. The time picker works on a local calendar time record.
- `createdAt` and `updatedAt` defaults. Only the `updatedAt` writes of posts and statuses are kept; set, account and video timestamps are not columns of the model.
- Serial sequences. A failed transaction rolls the model's counters back, while PostgreSQL's sequences do not roll back. An explicit id does not advance the sequence, in either.
- Store.Database.UpdateAccountSet: the set columns it writes are name and description only. A submitted set id, which `.set(accountSet)` would write into the primary key, is not modelled.
- The row order of selects without `ORDER BY` is left to a parameter or an enumeration. The model does not say which order PostgreSQL picks.
- Queries.RoundRatio: `Math.round` of a floating-point quotient is modelled as exact rounding of the rational, halves up. Floating-point error near halves is not modelled.
- Count results that the driver may return as strings are naturals here.
- `getPostById`'s "Account set is missing" is modelled in `Queries.PostFromRows`. It cannot occur on tables that keep the foreign keys, so no action reaches it.
- Upload.Upload: parsing the multipart body, creating the directory, reading the file's bytes and writing them are not modelled. Parsing is an optional form, and the disk writes are one boolean saying whether they succeed. The suffix built from `Date.now()` and `Math.random()` is an opaque parameter. A `title` field that is a file, and the `fileName` key (not a column), are not modelled.
- TimeSlots.Number: `Number` is modelled on decimal digit strings. Whitespace, signs, fractions, exponents and hexadecimal are not modelled; any such string gives NaN (`None`).
- `src/app/actions/videos.ts`, the database connection and migration files, and the React components other than the slot picker and the create dialog's blank account are not part of this model.
- Schema.AccountSetFits, Schema.AccountFits, Schema.VideoFits: a value longer than its `varchar(n)` column always fails with a value-too-long error. PostgreSQL instead truncates to n characters and stores the value when every excess character is a space. So `createAccountSet`, `updateAccountSet`, `InsertVideo` and the upload's title reject, for example, a 101-character set name that ends in a space, which PostgreSQL would store as its first 100 characters. The padded-value coercion is not modelled.
- The `phone` and `email` fields the edit dialog sends are not columns and are not modelled.

## Findings

| source | as written | input that shows it | evidently intended | confidence | as-written member | corrected member |
|---|---|---|---|---|---|---|
| src/components/create-account-set-dialog.tsx:22-30 | Every account row the dialog adds is a copy of one module-level blank account, whose `id` is drawn once by `numid()`. All accounts of a submission therefore share one id. | A set with two accounts: the insert sees the same primary key twice and the transaction fails. A second set created from the same page load, even with one account, fails because the id is taken. | Let the serial column number new accounts (no id), or give each row its own id. Sets with any number of accounts can then be created. | high, not executed | CreateDialog.SharedIdRejected | CreateDialog.SerialIdsAccepted |
