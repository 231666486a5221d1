# Reward ledger of reward-system, in Dafny

This project models the reward ledger of the reward-system service. Users sign up. They complete one-time tasks for points, and each completion is credited exactly once. A user can name a referrer, once. Balances and the leaderboard are derived from the ledger of completions.

The PostgreSQL tables `users`, `tasks` and `user_tasks` are one value, `Models.Db`:

- users are keyed by id;
- tasks are keyed by their unique code;
- the ledger is a sequence in insertion order;
- a clock stamps `created_at` and `completed_at`;
- `nextId` is the users' id sequence.

Each repository call that writes is a transition function `Db -> (Db, result)`:

- `UsersRepo.Create`
- `UsersRepo.SetReferrer`
- `UserTasksRepo.CompleteTask`

The class `Store.Store` holds the same tables as fields and updates them in place. Each of its mutating methods (`Create`, `SetReferrer`, `CompleteTask`) is proved to have exactly the effect of the matching transition function, so every lemma about the functions holds of the class.

`Models.Valid` is the store invariant, and every call keeps it. It says:

- user ids come from the sequence;
- no user refers to itself, and every referrer exists;
- each task is stored under its own code, with non-negative points;
- at most one ledger row exists per (user, task) pair;
- ledger stamps strictly increase.

Module `History` lifts these facts to any sequence of calls. Module `Handlers` models the decisions the HTTP handlers make:

- the caller, path-id and ownership guards;
- body validation;
- mapping of repository errors to status and error codes;
- the `limit` clamp.

Module `Scenario` checks a concrete walk through the system: two users, a repeated completion, the leaderboard, a repeated referral and an unknown task.

Files:

- `models.dfy`: records, tables, invariant.
- `tasks.dfy`: `TasksRepo`.
- `user_tasks.dfy`: `UserTasksRepo`.
- `users.dfy`: `UsersRepo`.
- `leaderboard.dfy`: `Leaderboard`, the leaderboard query.
- `history.dfy`: `History`.
- `store.dfy`: `Store`.
- `handlers.dfy`: `Handlers`.
- `scenario.dfy`: `Scenario`.

## Model

| member | source | states |
|---|---|---|
| TasksRepo.GetByCode | internal/repo/tasks.go:20-31 | Returns a task exactly when some task has the code, and the task it returns has that code. Otherwise it returns `NotFound`. |
| TasksRepo.GetByCodeIgnoresActive | internal/repo/tasks.go:21-22 | The lookup does not filter on `active`: an inactive task is returned too. |
| UserTasksRepo.ActiveTaskExists | internal/repo/user_tasks.go:22-35 | Definition, no contract of its own: the `code = $2 AND active` filter of the insert and the fallback existence query. Its role in the outcomes is stated by `UserTasksRepo.CompleteTask`. |
| UserTasksRepo.TryInsert | internal/repo/user_tasks.go:19-25 | The insert writes a row exactly when an active task has the code and the pair has no row yet. The row is appended with the task's current points and the current stamp; users and tasks are untouched. |
| UserTasksRepo.CompleteTask | internal/repo/user_tasks.go:18-36 | `Ok(true)` iff an active task exists and the pair was not yet credited. `Ok(false)` iff an active task exists and the pair was already credited. `NotFound` iff no active task has the code, inactive tasks included. Only `Ok(true)` changes the store, by appending one credit. |
| UserTasksRepo.PairCount | internal/repo/user_tasks.go:23 | The number of rows of a pair is positive iff the pair has a completion. |
| UserTasksRepo.UniquePairsCount | internal/repo/user_tasks.go:23 | Under the uniqueness invariant, every pair has at most one row. |
| UserTasksRepo.CompleteTaskPreservesValid | internal/repo/user_tasks.go:19-25 | A completion keeps the store invariant: pairs stay unique and stamps increasing. |
| UserTasksRepo.CompleteTaskCreditsOnce | internal/repo/user_tasks.go:19-35 | After any call that did not fail, the pair has exactly one row. |
| UserTasksRepo.CompleteTaskIdempotent | internal/repo/user_tasks.go:23-35 | A second identical call returns `Ok(false)` (or the same `NotFound`) and leaves the store as the first call left it. |
| UserTasksRepo.ListCompleted | internal/repo/user_tasks.go:38-58 | Returns exactly the user's rows, with strictly decreasing `completedAt` (newest first). |
| UsersRepo.Create | internal/repo/users.go:20-29 | The new user takes the next id, has the given username and no referrer, and is added to users. Tasks and ledger are untouched. |
| UsersRepo.GetByID | internal/repo/users.go:31-42 | `Ok` exactly when the id is a user, and then it returns that user; otherwise `NotFound`. |
| UsersRepo.CreateThenGet | internal/repo/users.go:20-42 | The new id was unused. The invariant still holds. The new user is found as created, and lookups of earlier users are unchanged. |
| UsersRepo.SetReferrer | internal/repo/users.go:44-68 | `Invalid` iff self-referral. `NotFound` iff the referrer is unknown. Success iff the user exists and has no referrer. `Conflict` otherwise, including when the user does not exist. Errors change nothing; success sets only that user's referrer. |
| UsersRepo.SetReferrerPreservesValid | internal/repo/users.go:58-67 | A link keeps the invariant (no self-referral, the referrer exists). Other users, tasks and ledger are untouched. |
| UsersRepo.SetReferrerOnlyOnce | internal/repo/users.go:58-66 | After a successful link, the next call for that user with an existing referrer other than the user itself is `Conflict` and changes nothing. This covers both another referrer and the same one. Self-referral and an unknown referrer still give `Invalid` and `NotFound`, by the checks that come first. |
| UsersRepo.Balance | internal/repo/users.go:70-78 | Definition, no contract of its own: the `COALESCE(SUM(points_awarded), 0)` over the user's rows, with no existence check on the user. Its meaning is proved by `UsersRepo.BalanceIsSumOfCompleted`, `UsersRepo.BalanceWithoutCredits`, `UsersRepo.BalanceNonNegative` and `UsersRepo.BalanceAppend`. |
| UsersRepo.BalanceWithoutCredits | internal/repo/users.go:70-78 | An id with no ledger rows has balance 0: a user without credits or, given the foreign key on `user_tasks`, any unknown id. |
| UsersRepo.BalanceNonNegative | internal/repo/users.go:70-78 | With non-negative awards, a balance is never negative. |
| UsersRepo.BalanceIsSumOfCompleted | internal/repo/users.go:70-78 | The balance is the sum of `pointsAwarded` over exactly the rows `ListCompleted` returns for the user. |
| UsersRepo.BalanceAppend | internal/repo/users.go:70-78 | Appending a credit raises its owner's balance by its points, and no other balance. |
| UsersRepo.CompleteTaskBalance | internal/repo/user_tasks.go:19-25 | A new credit raises the user's balance by the task's points at that moment. No other balance moves. |
| Leaderboard.EntryOf | internal/repo/users.go:81-84 | One row of the grouped left join: the user's id, username and balance, the balance being `UsersRepo.Balance` over the ledger. |
| Leaderboard.Rows | internal/repo/users.go:81-84 | The left join gives one row per user, with the user's username and balance. |
| Leaderboard.Top | internal/repo/users.go:85 | Picks the row that ranks ahead of all others: higher balance, ties broken by lower id. |
| Leaderboard.Ranked | internal/repo/users.go:85 | Orders the rows: each exactly once, strictly sorted by that ranking. |
| Leaderboard.Ranking | internal/repo/users.go:80-86 | The full order: one entry per user, with balance as in `Balance`, distinct ids, strictly sorted by balance descending then id ascending. |
| Leaderboard.Leaderboard | internal/repo/users.go:80-102 | Has length min(limit, users). Each row is a user with their balance, and the rows are sorted. Every user left out ranks behind every row returned. |
| Leaderboard.RankingIsUnique | internal/repo/users.go:85-86 | Any sorted list of all users with their balances is the ranking. Two queries on an unchanged store therefore agree. |
| Leaderboard.StrictlySortedUnique | internal/repo/users.go:85 | Two strictly sorted lists with the same elements are equal. |
| Leaderboard.IdleUserRanksWithZero | internal/repo/users.go:81-84 | A user with no credits still appears in the ranking, with balance 0. |
| Leaderboard.LeaderboardAll | internal/repo/users.go:86 | A limit at least the number of users returns the whole ranking. |
| Leaderboard.LeaderboardPrefix | internal/repo/users.go:86 | A shorter leaderboard is a prefix of a longer one. |
| Leaderboard.RankingPrefixTop | internal/repo/users.go:85-86 | Users outside a prefix of the ranking rank behind everyone in it. |
| History.ApplyKeeps | internal/repo/users.go:20-68 | Any one of signup, link (both in this file) or completion (internal/repo/user_tasks.go:18-36) keeps the invariant. Tasks stay the same, the ledger only grows at its end, users are kept, and a set referrer stays set. |
| History.RunKeeps | internal/repo/user_tasks.go:18-36 | The same holds over any sequence of signups and links (internal/repo/users.go:20-68) and completions (this file). |
| History.CreditIsPermanent | internal/repo/user_tasks.go:19-20 | A credit already written is unchanged by any later sequence of calls. |
| History.PointsAreSnapshot | internal/repo/user_tasks.go:19-20 | A credit stores the task's points of its moment. A later edit of those points moves neither the credit nor any balance. |
| History.CompleteRepeatedly | internal/repo/user_tasks.go:18-36 | n identical completion requests give n answers. |
| History.RepeatedCompletion | internal/repo/user_tasks.go:23-35 | After n identical requests, the store is as the first left it. Every later answer is `Ok(false)`, or the same `NotFound`. |
| Store.Store.constructor | internal/repo/users.go:16-18 | The repositories are built over an existing database (`NewUsersRepo` only wraps the pool). The seeded initial state, no users and a given set of tasks, is not in the source but assumed by the model: it satisfies the invariant. |
| Store.Store.Create | internal/repo/users.go:20-29 | The in-place insert has exactly the effect of `UsersRepo.Create` and keeps the invariant. |
| Store.Store.SetReferrer | internal/repo/users.go:44-68 | The check, the existence query and the conditional update with its rows-affected test have exactly the effect of `UsersRepo.SetReferrer`. The invariant is kept. |
| Store.Store.HasPair | internal/repo/user_tasks.go:23 | The conflict probe finds a row iff the pair has a completion. |
| Store.Store.CompleteTask | internal/repo/user_tasks.go:18-36 | Insert-if-absent, then the fallback query, have exactly the effect of `UserTasksRepo.CompleteTask`. The invariant is kept. |
| Handlers.ParseLimit | internal/handlers/users.go:198-214 | A missing or malformed value gives the default. A value in [min, max] is kept. Otherwise the result is the nearest bound, and it always lies in [min, max]. |
| Handlers.ParseLimitMonotone | internal/handlers/users.go:207-213 | A larger requested limit never gives a smaller one. |
| Handlers.ParseLimitIdempotent | internal/handlers/users.go:207-213 | Clamping a clamped limit changes nothing. |
| Handlers.CheckCaller | internal/handlers/users.go:40-53 | 401 `unauthorized` iff there is no caller. 400 `bad_request` ("invalid user id") iff the path id does not parse. 403 `forbidden` iff the caller is another user. Each reply is stated with its message and code. The request passes only when the caller is the path's user. |
| Handlers.Status | internal/handlers/users.go:39-89 | 200 iff the guard passes and the user exists; 404 `not_found` ("user not found") iff it passes and the user does not. The 200 body holds the user, their rows newest first, and a balance equal to the sum of those rows. |
| Handlers.LeaderboardPage | internal/handlers/users.go:95-103 | 200 with the leaderboard for the clamped limit: exactly min(clamped limit, users) rows, each a user with their username and balance, sorted, with every user left out ranking behind. That is at most 100 entries, at least one when any user exists, and 50 (or all users) when no limit is given. |
| Handlers.CompleteTask | internal/handlers/users.go:113-145 | Guard failure (401, 400 or 403), and a missing or empty `task_code` (400 `bad_request`), come before the store. Then: 200 iff an active task has the code, with the repository's boolean passed through; 404 `not_found` iff no active task has it. Only a new credit changes the store. |
| Handlers.SetReferrer | internal/handlers/users.go:151-192 | Guard failure, `referrer_id <= 0` (400 `bad_request`) and self-referral (400 `invalid`) come before the store. Then: 204 iff the link is made, 404 `not_found` iff the referrer is unknown, 409 `conflict` iff the user is missing or already linked, each with its message. Only 204 changes the store. |
| Handlers.ForbiddenIgnoresStore | internal/handlers/users.go:50-53 | A request on another user's id gets 403 whatever the store holds, on all three routes, and changes nothing. |
| Handlers.CompleteTaskTwice | internal/handlers/users.go:135-144 | A repeated completion request answers 200 with `newly_completed` false and changes nothing. |
| Scenario.DailyScenario | internal/repo/user_tasks.go:18-36 | In the walk with two users and a 10-point task: completions give true then false, and the balances are 10 and 0. The leaderboard is alice then bob. The first link succeeds, its repeat is `Conflict`, and an unknown code is `NotFound`. |

## Left out

- The database driver, the connection pool and storage errors. The model folds every failed insert into the fallback query, as the code does, and otherwise returns only the no-row and rows-affected outcomes. `Internal` exists only so the handlers' 500 branches can be written down; no repository call in the model produces it.
- Concurrency. Each repository call is one atomic step, and the two-query sequences run one after the other. The race-safety of the real system rests on PostgreSQL statement atomicity and unique constraints.
- Schema constraints not visible in the code:
  - username uniqueness;
  - the foreign key from `user_tasks.user_id` to `users`.

  So in the model, completing a task for an id that is no user is credited like any other. In PostgreSQL the insert would fail and the fallback would report `Ok(false)`.
- Timestamps are a counter (`clock`), not `time.Time`. RFC 3339 formatting in the status response is not modelled, and neither is the tasks' `created_at` column.
- Ids and points are unbounded integers rather than `int64`/`int`.
- A negative `LIMIT` cannot reach the query: the limit is a natural number. The only caller passes a value clamped to [1, 100].
- Request decoding is abstracted:
  - JSON bodies and `strconv` parsing become optional values, where `None` means the input did not parse;
  - the `limit` query parameter is absent, not a number, or a number.
- JWT issuing and checking, the auth middleware, the router, the signup and login handlers, configuration and process wiring are not part of this model. The caller id arrives as an optional value.
- Writing the HTTP response is modelled as a `Reply` value holding the status, the error code and message, or the payload.
- The leaderboard query is a function over the store. Its row loop (internal/repo/users.go:93-101) with `append` only copies the query result in order, so it has no separate model.
- The balance query does no user-existence check, and the model follows the code: an id with no ledger rows has balance 0 rather than `NotFound`. Without the foreign key, the model can credit an id that is no user (completing an active task for it answers `Ok(true)`), so such an id can have a positive balance in the model, where PostgreSQL would have rejected the insert.
