# Users and posts service: a verified model

This project models the business rules of a small FastAPI service that keeps
two SQL tables, `users` and `posts`. A user owns many posts, linked through
`posts.user_no`. The model covers:

- the two routers, `app/routers/users.py` and `app/routers/posts.py`, with ten
  handlers: create, paged list, fetch, full-replace update and delete for each
  table;
- the table declarations in `app/models.py`: keys, unique and not-null
  columns, column defaults, and the foreign key with its declared
  `ON DELETE CASCADE`;
- the request and response records in `app/schemas.py`, with their defaults and
  required fields.

The store is one class, `Store.Database`. It holds the rows of each table as a
sequence in primary-key order and keeps two counters that issue fresh keys.
Each handler is a method on it and returns a `Result`:

- `Ok` with the response record;
- `Err(HttpError(status, detail))` with the exact status and `detail` string the
  handler raises;
- `Err(IntegrityError(..))` when the store refuses a commit (a duplicate phone
  number).

A handler is one atomic step: either it fails and changes nothing, or it commits
its single change.

Modules, in dependency order:

- `Common`: `Option`, `Result`, the error shapes and an opaque `Timestamp`.
- `Query`: the three query shapes the handlers use: `.filter(..).first()`, a
  filter over a table and `.offset(skip).limit(limit)`. Also removal of one row.
- `Schemas`: the request and response records, the `(key, value)` pairs of
  `.dict()`, and structural validation of a JSON body. Validation covers
  required fields and the `phone_number`/`user_sex` defaults.
- `Models`: the rows and the table constraints (`UsersTable`, `PostsTable`,
  `OwnersExist`). It states, as lemmas, what each kind of table change does to
  those constraints.
- `Users`, `Posts`: each router's error constants, its uniqueness pre-checks in
  source order, and the `setattr` loop of its update handler. That loop is a
  method with loop invariants.
- `Store`: the handlers and the response shaping (`response_model`).
- `Scenarios`: request sequences a client can run, proved from the handlers'
  contracts alone. They cover the repository's tests and the round trips the
  service promises.

Every handler that changes state requires and ensures `Valid()`:

- keys are positive, strictly increasing in insertion order and below their
  counter, so they are unique and fresh;
- `id`, `email` and non-null `phone_number` values are unique;
- every post's `user_no` is a key the users counter has issued.

`OwnersExist()` says every post's owner is currently present. It is kept
separately: every handler preserves it, but `DeleteUser` does so only because
of the declared cascade.

Three places where the code is easy to misread:

- `phone_number` is declared `unique=True` at `app/models.py:18`. The model
  therefore treats a duplicate non-null phone number as a failed commit, which
  no handler pre-checks.
- `skip` and `limit` are plain `int` query parameters with no lower bound.
  The model accepts any integer and reads them as SQLite does: a negative
  offset counts as zero and a negative limit means no limit.
- The cascade is only declared (see "Left out"). The model keeps it apart from
  the handler-level invariant `Valid()`.

## Model

| member | source | states |
|---|---|---|
| Store.Database.constructor | FastApi/app/models.py:10-46 | The store starts with both tables empty and both key counters at 1; it satisfies `Valid()` and `OwnersExist()`. |
| Store.Database.CreateUser | FastApi/app/routers/users.py:22-39 | A taken `id` gives 400 "ID already registered", checked first. Otherwise a taken `email` gives 400 "Email already registered". A duplicate non-null phone number is refused at commit. Each failure leaves the store unchanged. On success exactly one row is appended: the request, the fresh key, `now`, and `user_sex` defaulted to 'M'. That key exceeds every existing key, the other rows and the posts table are unchanged, the response has no posts, and `Valid()` is kept. |
| Store.Database.ReadUsers | FastApi/app/routers/users.py:43-47 | With the defaults skip=0 and limit=100, returns at most `limit` users. They are consecutive rows, in table order, starting after `skip` (clamped to the table); the model keeps tables in increasing key order. The length is exactly `limit` when enough rows remain and otherwise the rest of the table. |
| Store.Database.ReadUser | FastApi/app/routers/users.py:51-58 | Fails with 404 "User not found" exactly when no row has the key. Otherwise returns that row's response, its posts included. |
| Store.Database.UpdateUser | FastApi/app/routers/users.py:62-87 | A missing key gives 404 before any uniqueness check. Then a changed `id` held by another row gives 400 "ID already registered", and after that a changed `email` gives 400 "Email already registered". Keeping one's own values passes. A duplicate phone number is refused at commit. Each failure changes nothing. On success only row `i` changes: every editable column comes from the request, while `user_no` and `reg_date` are kept. The response is the ID error exactly when another user holds the requested `id`. |
| Store.Database.DeleteUser | FastApi/app/routers/users.py:91-100 | A missing key gives 404 "User not found" and changes nothing. Otherwise the response is the row as it was before deletion, and only that row is removed, so the others keep their order. The key is then found nowhere. Under the declared cascade, exactly the posts of other users remain, and a user who owns no posts leaves the posts table unchanged. |
| Store.Database.CreatePost | FastApi/app/routers/posts.py:22-35 | A missing owner gives 404 "Owner User not found" and adds no post. Otherwise one post is appended with the requested `title`, `content` and `user_no`, a fresh key above every existing one, and `now`; the users table is unchanged. |
| Store.Database.ReadPosts | FastApi/app/routers/posts.py:39-43 | The same paging contract as `ReadUsers`, over posts in table order. |
| Store.Database.ReadPost | FastApi/app/routers/posts.py:47-54 | Fails with 404 "Post not found" exactly when no row has the key; otherwise returns that row. |
| Store.Database.UpdatePost | FastApi/app/routers/posts.py:58-71 | A missing key gives 404 and changes nothing. Otherwise only row `i` changes: exactly `title` and `content` are replaced, while `post_no`, `user_no` and `reg_date` are kept. The users table is unchanged. |
| Store.Database.DeletePost | FastApi/app/routers/posts.py:75-84 | A missing key gives 404 and changes nothing. Otherwise the response is the row as it was before deletion, only that row is removed, the key is then absent, and the users table is untouched. |
| Store.Database.CommitUserInsert | FastApi/app/routers/users.py:35-38 | The commit of a new user appends exactly that row under the next key and advances the counter. The posts table is unchanged, `Valid()` and `OwnersExist()` are kept, and the new key owns no posts. |
| Store.Database.CommitUser | FastApi/app/routers/users.py:82-86 | The commit of an update replaces exactly row `i` with a row under the same key whose `id` and `email` are its own or free. It leaves both counters and the posts table as they were, and keeps `Valid()` and `OwnersExist()`. |
| Store.Database.CommitUserDelete | FastApi/app/routers/users.py:98-99 | The commit of a delete removes exactly row `i` and, under the declared cascade, exactly that user's posts; nothing is removed from the posts table when the user owns none. The key is then found nowhere, and `Valid()` and `OwnersExist()` are kept. |
| Store.PostResponseKeepsRow | FastApi/app/schemas.py:19-22 | A `Post` response loses no column of its row: key, `title`, `content`, `reg_date` and owner read back to the stored post. |
| Store.UserResponseKeepsRow | FastApi/app/schemas.py:41-44 | A `User` response loses no column of its row: key, `reg_date` and the five editable columns read back to the stored user. |
| Store.UserResponsePosts | FastApi/app/schemas.py:44 | The `posts` of a user response are that user's posts and no others. Every one of them is shown, each by its full row, in increasing `post_no` order. |
| Users.CreateCheck | FastApi/app/routers/users.py:24-32 | The `id` error occurs iff some user has the `id`. The `email` error occurs iff no user has the `id` and some user has the `email`. No error iff both are free, and then neither lookup finds a row. |
| Users.UpdateCheck | FastApi/app/routers/users.py:69-79 | The `id` error occurs iff the `id` changed and some row holds it. The `email` error occurs iff the `id` check passed, the `email` changed and some row holds it. It yields no other error. |
| Users.UpdateCheckMeansAnotherUser | FastApi/app/routers/users.py:69-79 | While `id` and `email` are unique, the update checks refuse exactly the requests whose `id` (or, failing that, `email`) belongs to another user. Keeping one's own values is always accepted. |
| Users.UpdateCheckByKey | FastApi/app/routers/users.py:69-79 | While `id` and `email` are unique and keys identify rows, the update is refused with the ID error exactly when a row with a different key holds the requested `id`. |
| Users.SetUserAttrs | FastApi/app/routers/users.py:82-83 | The `setattr` loop writes every `(key, value)` pair given. Columns no pair names are left alone, and `user_no` and `reg_date` are never touched. |
| Users.SetAllUserAttrs | FastApi/app/routers/users.py:82-83 | Once every pair of `user.dict()` has been written, the row is the full replacement of its editable columns. |
| Posts.SetPostAttrs | FastApi/app/routers/posts.py:66-67 | The `setattr` loop writes every pair given; `post_no`, `user_no` and `reg_date` are never touched. |
| Posts.SetAllPostAttrs | FastApi/app/routers/posts.py:59-67 | Once both pairs of a `PostBase` have been written, exactly `title` and `content` have changed, so an update can never move a post to another owner. |
| Schemas.PostBase.Items | FastApi/app/schemas.py:10-12 | `post.dict().items()` names each of `title` and `content` exactly once, with the request's values. |
| Schemas.UserBase.Items | FastApi/app/schemas.py:29-34 | `user.dict().items()` names each of the five editable columns exactly once, with the request's values. |
| Schemas.ParsePostBase | FastApi/app/schemas.py:10-12 | A post update body is accepted iff `title` and `content` are present and non-null, and then carries exactly them. Otherwise the validation errors name exactly the failing fields: "field required" for an absent one, "none is not an allowed value" for a null one. |
| Schemas.ParsePostCreate | FastApi/app/schemas.py:15-16 | A post creation body is accepted iff `title`, `content` and `user_no` are present and non-null. Otherwise the errors name exactly the failing fields. |
| Schemas.PostCreateMessages | FastApi/app/schemas.py:15-16 | When a post creation body is refused, "field required" is reported for `title`, `content` or `user_no` exactly when that field is absent, and "none is not an allowed value" exactly when it is null. |
| Schemas.ParseUserCreate | FastApi/app/schemas.py:29-38 | A user body is accepted iff `id`, `email` and `user_name` are present and non-null. An absent `phone_number` becomes None, and an absent `user_sex` becomes 'M' while an explicit null stays null. Otherwise the errors name exactly the failing fields. |
| Schemas.UserCreateMessages | FastApi/app/schemas.py:29-38 | When a user body is refused, "field required" is reported for `id`, `email` or `user_name` exactly when that field is absent, and "none is not an allowed value" exactly when it is null. |
| Query.FirstMatch | FastApi/app/routers/users.py:54-55 | `.filter(p).first()` finds nothing iff no row satisfies `p`. Otherwise it finds a row satisfying `p` with none before it. |
| Query.Filter | FastApi/app/models.py:27 | The filtered rows are exactly the rows satisfying the condition, and there are no more of them than in the table. |
| Query.FilterEmpty | FastApi/app/models.py:27 | A filter is empty iff no row satisfies its condition. |
| Query.FilterAll | FastApi/app/models.py:40-42 | A filter whose condition every row satisfies keeps the whole table. |
| Query.FilterKeepsOrder | FastApi/app/models.py:41-42 | Filtering a table keeps its rows in strictly increasing key order. |
| Query.Page | FastApi/app/routers/posts.py:42 | `.offset(skip).limit(limit)` returns consecutive rows from the offset onward. The offset is clamped to the table: a negative `skip` counts as 0, a `skip` past the end gives the end, and any other is used as is. It returns `limit` rows when a non-negative `limit` is smaller than what remains, and every remaining row otherwise. |
| Query.RemoveAt | FastApi/app/routers/users.py:98-99 | Deleting row `i` keeps the rows before it in place, moves the rows after it up by one, and loses no other row. |
| Models.Get | FastApi/app/models.py:16-20 | Reading an editable user column gives an attribute of that column. |
| Models.SetAttr | FastApi/app/routers/users.py:83 | `setattr` writes its one column and no other, and never the key or `reg_date`. |
| Models.GetPost | FastApi/app/models.py:37-38 | Reading an editable post column gives an attribute of that column. |
| Models.SetPostAttr | FastApi/app/routers/posts.py:67 | `setattr` writes its one post column and no other, and never the key, `reg_date` or the owner. |
| Models.UserDeterminedByColumns | FastApi/app/models.py:15-22 | Two user rows with the same key, `reg_date` and editable columns are equal. |
| Models.PostDeterminedByColumns | FastApi/app/models.py:36-42 | Two post rows with the same key, `reg_date`, owner and editable columns are equal. |
| Models.FindUserByKey | FastApi/app/models.py:15 | Because user keys are unique, a lookup of a row's key finds that very row and no other row holds the key. |
| Models.FindPostByKey | FastApi/app/models.py:36 | Because post keys are unique, a lookup of a row's key finds that very row and no other row holds the key. |
| Models.FreshKeyHasNoPosts | FastApi/app/schemas.py:44 | A key the users counter has not yet issued owns no posts, so a new user's response has an empty `posts` list. |
| Models.InsertUser | FastApi/app/models.py:15-18 | Appending a row with the next key, a free `id` and `email`, and a phone number the store accepts keeps the users table valid, with the counter advanced. |
| Models.ReplaceUser | FastApi/app/models.py:15-18 | Rewriting a row's editable columns keeps the users table valid. This requires the new `id` and `email` to be the row's own or held by nobody, and the store to accept the phone number. |
| Models.SamePhoneKeepsPhonesUnique | FastApi/app/models.py:18 | An update that keeps a user's phone number can never fail the phone uniqueness constraint. |
| Models.RemoveUser | FastApi/app/models.py:15-18 | Removing a row keeps the users table valid, and its key is then found nowhere. |
| Models.InsertPost | FastApi/app/models.py:36-42 | Appending a post with the next key and an issued owner key keeps the posts table valid. |
| Models.ReplacePost | FastApi/app/models.py:36-42 | Rewriting a post without changing its key or owner keeps the posts table valid. |
| Models.RemovePost | FastApi/app/models.py:36 | Removing a post keeps the posts table valid, and its key is then found nowhere. |
| Models.CascadePosts | FastApi/app/models.py:40-42 | The declared cascade leaves a valid posts table in which the deleted owner has no posts. |
| Models.CascadeWithoutPosts | FastApi/app/models.py:40-42 | For a user who owns no posts, the cascade leaves the posts table exactly as it was. |
| Models.OwnersAfterUserInsert | FastApi/app/models.py:42 | Adding a user keeps every post's owner present. |
| Models.OwnersAfterUserReplace | FastApi/app/models.py:42 | Rewriting a user's editable columns keeps every post's owner present. |
| Models.OwnersAfterPostInsert | FastApi/app/routers/posts.py:25-28 | Adding a post whose owner exists keeps every post's owner present. |
| Models.OwnersAfterPostReplace | FastApi/app/routers/posts.py:58-71 | Rewriting a post's editable columns, with its owner kept, keeps every post's owner present. |
| Models.OwnersAfterPostRemove | FastApi/app/models.py:42 | Removing a post keeps every remaining post's owner present. |
| Models.OwnersAfterCascade | FastApi/app/models.py:40-42 | Deleting a user together with that user's posts keeps every remaining post's owner present. |
| Scenarios.CreateThenReadUser | FastApi/tests/test_users.py:68-86 | A created user read back by the key it was given is the same record, with the requested `id` and `email`. |
| Scenarios.CreateFreshUser | FastApi/tests/test_users.py:6-23 | Creating a user whose `id` and `email` nobody holds, with no phone number, succeeds. The response echoes `id`, `email` and `user_name` under the next key, and exactly that user is appended. |
| Scenarios.DuplicateId | FastApi/tests/test_users.py:25-42 | After one user is created, a second with the same `id` and any `email` is refused with 400 "ID already registered", leaving one user. |
| Scenarios.ListTwo | FastApi/tests/test_users.py:44-66 | After two users are created, the default page lists both, in creation order. |
| Scenarios.SecondPageOfOne | FastApi/app/routers/users.py:43-47 | After A, B and C are created in that order, `skip=1, limit=1` lists exactly B. |
| Scenarios.KeepOwnId | FastApi/app/routers/users.py:69-79 | Updating a user with its own current `id`, `email` and phone number succeeds. |
| Scenarios.DeleteThenReadUser | FastApi/app/routers/users.py:91-100 | Once a user is deleted, reading it back gives 404 "User not found". |
| Scenarios.CreateUserThenPost | FastApi/tests/test_posts.py:6-34 | After a user is created, a post for that user's key succeeds, and its response echoes the requested `title`, `content` and `user_no`. |
| Scenarios.CreateThenReadPost | FastApi/tests/test_posts.py:6-34 | A created post read back by its key is the same record. |
| Scenarios.PostForMissingOwner | FastApi/tests/test_posts.py:36-48 | A post for a user number never issued is refused with 404 "Owner User not found", and no post is stored. |
| Scenarios.DeleteThenReadPost | FastApi/app/routers/posts.py:75-84 | Once a post is deleted, reading it back gives 404 "Post not found". |
| Scenarios.DeleteUserRemovesPosts | FastApi/app/models.py:40-42 | After a user and a post of theirs are created and the user is deleted, both steps succeed. Under the declared cascade, reading that post then gives 404 "Post not found". |

## Left out

- HTTP routing, status transport and JSON serialisation (`orm_mode`): a response is an `Ok`/`Err` value.
- Validation's exact 422 shape: only required fields and defaults are modelled. Type coercion and the error type codes are not.
- The session lifecycle in `app/database.py`, the engine setup and the separate `add`/`commit`/`refresh` calls: each handler is one atomic transition.
- Concurrency: the check-then-insert race between two requests is not modelled.
- `reg_date` (`func.now()`): an opaque timestamp supplied by the caller as `now`.
- Integer width: keys and `skip`/`limit` are unbounded integers, not SQLite's 64-bit values.
- Key issue: keys come from counters that never reuse a value. A column declared without SQLite's AUTOINCREMENT may reuse the largest key after it is deleted, and the model does not capture that.
- Store.Database.ReadUsers, Store.Database.ReadPosts: the queries at `app/routers/users.py:46` and `app/routers/posts.py:42`, and the relationship at `app/models.py:27`, have no ORDER BY. The model fixes insertion (increasing key) order, which is how SQLite happens to scan such a table; the source does not promise it.
- The ORM object graph (`posts`/`owner` back-references): a user's posts are computed as a filter on `posts.user_no`.
- Store.Database.DeleteUser: the cascade is modelled as the declared intent at `app/models.py:42`. SQLite foreign keys are never switched on, and the relationship at `app/models.py:27` has no cascade option. For a user who has posts, the ORM default first sets each post's `user_no` to NULL. That column is NOT NULL, so the commit fails, the client receives a server error and nothing is deleted. The running program therefore never performs the modelled cascade. The model does not capture this outcome: for such a user it removes the user and the posts.
- Store.Database.DeleteUser: the response shows the posts as they were before the deletion. When the ORM loads the deleted object's `posts` after commit is not modelled.
- The raw `IntegrityError` from a duplicate phone number reaches the client as a server error. The model returns it as an error value and does not model how FastAPI turns it into a 500.
- `app/main.py` (application bootstrap, `create_all`, the root welcome endpoint) is not part of this model, and neither are the test fixtures.
