# Weight tracker backend, modelled in Dafny

This project models the REST API of a personal health tracker: an Express server over
a PostgreSQL store. Users register and log in. They log one weight and one calorie
total per day, keep frequent-food templates, and read statistics and a monthly calendar.
They can also befriend other users.

The model treats each table as a sequence of rows with a serial-id counter.
- Each table is a class: `MetricTable` (used for both `weights` and `calories`), `UserTable`, `FriendshipTable` and `FoodTable`.
- Each route handler that writes is a method over those objects.
- Each route handler that only reads is a function over a snapshot of the rows, or, where the source loops (`/monthly-data`), a method without `modifies`.
- Dates are day numbers (days since 1970-01-01). `today` is a parameter.
- Every reply is `Success(status, message, body)` or `Failure(status, message)`.
  - The `success: true/false` field of the JSON envelope is the constructor.
  - The HTTP status is kept, so a 200 with `success: false` reads `Failure(200, …)`.

Modules:
- `Wrappers` and `Http`: the option type and the reply envelope.
- `Sql`: what the store does with a `WHERE`, an `UPDATE … WHERE` and an `ORDER BY`.
- `Text`: `startsWith` and `split`.
- `Metrics`: the per-day tables, with the natural-key upsert and the ownership-checked delete that both metric route files share.
- `Weights` and `Calories`: the two route files.
- `Accounts`: the `users` table.
- `Auth`: the token gate, register and login.
- `Friends`: requests, accept, reject and the friends list.
- `Statistics`: `/statistics` and `/monthly-data`.
- `Profile`: `/profile`, `/goals` and `/foods`.

Two application-level invariants are kept outside the tables' `Valid()`, because the
database does not enforce them. Every handler that writes the table concerned proves that it preserves them, except `POST /profile` for `KeyUnique` (see below):
- `KeyUnique`: at most one metric row per (user, date).
- `EmailsUnique` for users, and `WellFormed` (no self-friendship, one row per pair) for friendships.

Where the code and its own comments disagree, the model follows the code:
- The `'all'` statistics period is commented "All time (no filter)" (server/routes/users.js:141), but the statement after it sets the filter to `new Date(0)`. The model filters `date >= 1970-01-01` (`Statistics.EPOCH`).
- The one-row-per-day invariant does not hold globally. `POST /profile` inserts a weight row without checking for one (see Findings). `KeyUnique` is therefore stated as preserved by the metric routes only.

## Model

| member | source | states |
|---|---|---|
| Text.Split | server/routes/auth.js:115 | JavaScript `split` with a one-character separator: at least one piece, no piece contains the separator, one piece more than there are separators |
| Text.JoinSplit | server/routes/auth.js:115 | joining the pieces with the separator gives back the original header |
| Text.SplitFirst | server/routes/auth.js:115 | the first piece is the text before the first separator |
| Auth.BearerTokenIsSecondField | server/routes/auth.js:115 | for a header starting with `Bearer `, `split(' ')[1]` exists and is the text after the prefix up to the next space |
| Auth.VerifyToken | server/routes/auth.js:104-131 | a missing header, or one not starting with `Bearer `, is exactly the case answered 401 "No token provided"; otherwise the request passes on iff `jwt.verify` accepts the token, carrying its `userId`, and is otherwise answered 401 "Invalid token" |
| Auth.Register | server/routes/auth.js:8-53 | an email already on file gives 400 "Email already registered" and writes nothing; otherwise exactly one account (name, email, hash, empty profile) is appended under the fresh id, which the 201 reply returns; email uniqueness is kept |
| Auth.Login | server/routes/auth.js:56-101 | every failure is the same 401 "Invalid credentials"; a success names an account with that email whose hash matches the password; an unknown email always fails |
| Auth.LoginSucceedsIffPasswordMatches | server/routes/auth.js:61-78 | with unique emails, logging in as an account succeeds exactly when the password matches its hash |
| Auth.LoginHidesWhichCheckFailed | server/routes/auth.js:63-78 | an unknown email and a wrong password get identical replies |
| Auth.RegisterThenLogin | server/routes/auth.js:8-101 | after registering, logging in with a password the stored hash matches succeeds under the new id, and with any other password fails |
| Accounts.FindByEmail | server/routes/auth.js:13 | `None` iff no account has the email; otherwise an account with that email |
| Accounts.FindById | server/routes/users.js:12-15 | `None` iff no account has the id; otherwise the account with that id |
| Accounts.FindByEmailIsTheUser | server/routes/auth.js:61 | with unique emails, the lookup by an account's email returns that account |
| Accounts.FindByIdIsTheUser | server/routes/users.js:12-15 | with unique ids, the lookup by an account's id returns that account |
| Accounts.WithWeightSetsOnlyThatUser | server/routes/weights.js:155-158 | after `UPDATE users SET weight`, the caller reads the new weight, every other account reads what it had, and an unknown caller changes nothing |
| Accounts.WithWeight | server/routes/weights.js:155-158 | `UPDATE users SET weight … WHERE id`: same accounts in the same order with the same ids and emails; the account with that id gets the new weight and nothing else changes |
| Accounts.WithProfile | server/routes/users.js:58-61 | the profile `UPDATE`: the account with that id gets the five submitted columns; ids, emails and every other account are unchanged |
| Accounts.WithGoals | server/routes/users.js:90-93 | the goals `UPDATE`: the account with that id gets both goals; ids, emails and every other account are unchanged |
| Accounts.UpdateKeepsKeys | server/routes/users.js:58-61 | column updates that leave ids and emails alone keep both unique |
| Accounts.UserTable.Insert | server/routes/auth.js:27-30 | appends one account with the fresh id and advances the counter |
| Accounts.UserTable.SetWeight | server/routes/weights.js:155-158 | the table becomes the weight update of the old table, keeping email uniqueness |
| Accounts.UserTable.SetProfile | server/routes/users.js:58-61 | the table becomes the profile update of the old table, keeping email uniqueness |
| Accounts.UserTable.SetGoals | server/routes/users.js:90-93 | the table becomes the goals update of the old table, keeping email uniqueness |
| Sql.Filter | server/routes/weights.js:12-15 | the rows kept are exactly the stored rows satisfying the condition |
| Sql.FilterCounts | server/routes/weights.js:12-15 | a filter keeps each qualifying row as many times as it is stored, and no other row |
| Sql.SortBy | server/routes/weights.js:12-15 | `ORDER BY`: the result is sorted and is a permutation of the input |
| Sql.FilterKeepsPairwise | server/routes/weights.js:194-197 | deleting rows cannot break a pairwise property such as distinct ids or keys |
| Sql.LexLeTotal | server/routes/users.js:277 | the name order is total |
| Sql.LexLeTransitive | server/routes/users.js:277 | the name order is transitive |
| Metrics.KeyIndex | server/routes/weights.js:130-133 | no position iff no row has the (user, date) key; otherwise the first position holding it |
| Metrics.ByDate | server/routes/weights.js:97-100 | `None` iff the user has no row for the date; otherwise a stored row with that key |
| Metrics.ByDateIsTheRow | server/routes/weights.js:97-100 | under the natural key, the lookup of a stored row's key returns that row |
| Metrics.Window | server/routes/users.js:159-161 | `date >= from ORDER BY date`: ascending by date, exactly the user's rows from `from` on, each as often as stored |
| Metrics.Recent | server/routes/weights.js:37-44 | exactly the caller's rows dated on or after today−30, each as often as stored, ascending by date |
| Metrics.AllDesc | server/routes/weights.js:12-15 | all the caller's rows, each as often as stored, descending by date |
| Metrics.Latest | server/routes/weights.js:65-68 | `None` iff the caller has no rows; otherwise a caller row with no later-dated caller row |
| Metrics.SetValue | server/routes/weights.js:137-140 | the value update keeps every row's id, owner and date, gives each row with that id the new value, and leaves the other values alone |
| Metrics.WithoutId | server/routes/weights.js:194-197 | exactly the rows whose id differs remain |
| Metrics.Owns | server/routes/weights.js:181-186 | the ownership check: true exactly when `SELECT id … WHERE id = $1 AND user_id = $2` returns a row |
| Metrics.Upserted | server/routes/weights.js:130-152 | the check-then-write: one row more exactly when the day had none; every stored row keeps its id and (user, date); afterwards some row for the day holds the written value |
| Metrics.UpsertUpdatesInPlace | server/routes/weights.js:135-146 | writing an existing day rewrites only that row's value: same id, same position, every other row unchanged |
| Metrics.UpsertInsertsOne | server/routes/weights.js:149-152 | writing a new day appends exactly one row with the fresh id |
| Metrics.UpsertThenByDate | server/routes/weights.js:130-152 | after a write, the day reads back the written value, under the old id if there was a row |
| Metrics.UpsertLeavesOtherDays | server/routes/weights.js:130-152 | a write leaves the lookup of every other (user, date) unchanged |
| Metrics.UpsertKeepsInvariants | server/routes/weights.js:130-152 | a write keeps ids fresh, advances the counter only on insert, and never creates a second row for a day |
| Metrics.UpsertLastWriteWins | server/routes/weights.js:130-152 | two writes of the same day equal one write of the later value |
| Metrics.DeleteRemovesOne | server/routes/weights.js:194-197 | with distinct ids, deleting the id of row k removes exactly that row and keeps the order of the rest |
| Metrics.KeepAll | server/routes/weights.js:194-197 | a delete matching no row leaves the table unchanged |
| Metrics.DeleteKeepsInvariants | server/routes/weights.js:194-197 | a delete keeps ids fresh and keeps the natural key |
| Metrics.MetricTable.Insert | server/routes/weights.js:149-152 | appends one row under the fresh id and advances the counter |
| Metrics.MetricTable.SetValueOf | server/routes/weights.js:137-140 | the rows become the value update of the old rows; the counter is unchanged |
| Metrics.MetricTable.DeleteId | server/routes/weights.js:194-197 | the rows become the old rows without that id |
| Metrics.MetricTable.Upsert | server/routes/weights.js:130-152 | reports an insert iff no row had the key; the rows become the upsert of the old rows; the counter advances only on insert; the natural key is kept |
| Metrics.MetricTable.DeleteOwned | server/routes/weights.js:181-197 | finds the row iff the caller owns that id; then exactly that row goes (one row fewer), otherwise nothing changes |
| Weights.Post | server/routes/weights.js:124-172 | an existing (caller, date) row gets the value in place, the users table is untouched and the reply is "Weight updated successfully"; otherwise one row is inserted, the caller's `users.weight` becomes the value, and the reply is "Weight added successfully"; the id counter advances exactly when a row is inserted |
| Weights.Delete | server/routes/weights.js:175-211 | an id the caller does not own gives 404 "Weight entry not found" and no change; an owned id removes that row only |
| Weights.GetAll | server/routes/weights.js:8-29 | all the caller's rows, each as often as stored, newest first |
| Weights.GetRecent | server/routes/weights.js:32-58 | exactly the caller's rows dated on or after today−30, each as often as stored, oldest first |
| Weights.GetLatest | server/routes/weights.js:61-89 | a failure (status 200, "No weight entries found") iff the caller has no rows; otherwise a caller row with no later-dated caller row |
| Weights.GetByDate | server/routes/weights.js:92-121 | a failure (status 200, "No weight entry found for this date") iff the caller has no row that day; otherwise that row |
| Weights.TwoWritesOneRow | server/routes/weights.js:124-172 | two posts of the same day leave one row for it, reading the later value |
| Calories.Post | server/routes/calories.js:93-135 | the table becomes the upsert of the old table, keeping the natural key; "Calories updated successfully" iff the day had a row, else "Calories added successfully"; the id counter advances exactly when a row is inserted; the users table is not touched |
| Calories.Put | server/routes/calories.js:138-180 | despite the reversed branch order, the same table effect, counter and replies as `Post` |
| Calories.Delete | server/routes/calories.js:183-219 | an id the caller does not own gives 404 "Calorie entry not found" and no change; an owned id removes that row only |
| Calories.GetAll | server/routes/calories.js:8-29 | all the caller's rows, each as often as stored, newest first |
| Calories.GetRecent | server/routes/calories.js:32-58 | exactly the caller's rows dated on or after today−30, each as often as stored, oldest first |
| Calories.GetByDate | server/routes/calories.js:61-90 | a failure (status 200, "No calorie entry found for this date") iff the caller has no row that day; otherwise that row |
| Friends.WithStatus | server/routes/users.js:445-448 | a status update gives every row with that id the new status, and keeps every row's id and pair and every other row's status |
| Friends.WithoutId | server/routes/users.js:484-487 | exactly the rows whose id differs remain |
| Friends.Linked | server/routes/users.js:393-398 | the existence check: true exactly when the `SELECT` over both directions of the pair returns a row |
| Friends.HasIncoming | server/routes/users.js:432-437 | the accept/reject check: true exactly when the `SELECT … WHERE id AND friend_id AND status = 'pending'` returns a row |
| Friends.AcceptChangesOnlyThatRow | server/routes/users.js:445-448 | with distinct ids, accepting changes the status of that one row and nothing else |
| Friends.RequestBlocksBothDirections | server/routes/users.js:393-409 | once a request row is added, the pair is linked both ways round, so the reverse request is refused too |
| Friends.RejectFreesThePair | server/routes/users.js:471-487 | after a reject no row links the pair, so a new request passes the existence check |
| Friends.StatusKeepsWellFormed | server/routes/users.js:445-448 | a status change keeps "no self-friendship, one row per pair" |
| Friends.DeleteKeepsWellFormed | server/routes/users.js:484-487 | a delete keeps "no self-friendship, one row per pair" |
| Friends.FriendshipTable.Insert | server/routes/users.js:406-409 | appends one row under the fresh id and advances the counter |
| Friends.FriendshipTable.SetStatus | server/routes/users.js:445-448 | the rows become the status update of the old rows |
| Friends.FriendshipTable.DeleteId | server/routes/users.js:484-487 | the rows become the old rows without that id |
| Friends.Request | server/routes/users.js:364-423 | in order: unknown email gives 404 "User not found"; the caller's own email gives 400 "Cannot add yourself as a friend"; any row linking the pair either way, whatever its status, gives 400 "Friendship already exists or pending"; every refusal writes nothing; otherwise exactly one pending row (caller, target) is appended under the fresh id and the counter advances; well-formedness is kept |
| Friends.Accept | server/routes/users.js:426-462 | without a pending row of that id addressed to the caller, 404 "Friend request not found or already processed" and no change; otherwise that row's status becomes accepted |
| Friends.Reject | server/routes/users.js:465-501 | the same 404 check; otherwise that row is deleted |
| Friends.DisplayStatus | server/routes/users.js:343-345 | a pending row reads "pending" iff the viewer sent it and "received" iff they did not; an accepted row reads "accepted" |
| Friends.FriendsList | server/routes/users.js:322-361 | one entry per row with the caller on either side whose other party exists, no more; every entry is such a row joined to the other party's name and weight, and every such row is listed |
| Friends.FriendsListInOrder | server/routes/users.js:322-361 | its i-th entry is the i-th row, in the model's stored order, with the caller on either side whose other party exists, joined to that party's name and weight, so each such row appears exactly as often as it is stored (the query has no `ORDER BY`, so the order itself is the model's choice) |
| Friends.PendingShowsToBothSides | server/routes/users.js:336-346 | with both parties on file, a pending request is listed as "pending" to its sender and as "received" to its recipient |
| Friends.AcceptedShowsToBoth | server/routes/users.js:336-346 | after the recipient accepts, both sides list the row as "accepted" |
| Statistics.WindowDays | server/routes/users.js:119-147 | week 7, month 30, 3months 90, year 365 days, and 7 for any other name |
| Statistics.PeriodName | server/routes/users.js:113 | `period || 'week'`: a missing or empty parameter is the week, any other value is kept as given |
| Statistics.Cutoff | server/routes/users.js:113-150 | 'all' starts at 1970-01-01; every other period starts its window length before today; a missing or empty period is the week |
| Statistics.UnknownPeriodIsWeek | server/routes/users.js:144-146 | an unrecognised period gives the same window as no period, seven days |
| Statistics.NamedCutoffs | server/routes/users.js:119-147 | the first day of each named period's window |
| Statistics.WindowGrows | server/routes/users.js:159-161 | an earlier first day keeps every row of the window |
| Statistics.WindowsNest | server/routes/users.js:119-147 | each longer period's window contains the week's, and 'all' contains it whenever today−365 is on or after 1970-01-01 |
| Statistics.RoundedMean | server/routes/users.js:177-181 | 0 for no values; otherwise the integer within one half of the mean, the upper one on a tie (`Math.round`) |
| Statistics.SumBounds | server/routes/users.js:179 | the total of n values between lo and hi lies between n·lo and n·hi |
| Statistics.SumIsReduce | server/routes/users.js:179 | `reduce` accumulates front to back, its last step adding the last row to the total of the others; `Sum` takes that same step, so it equals the total `reduce` computes |
| Statistics.MeanWithinBounds | server/routes/users.js:177-181 | the rounded mean lies between the smallest and the largest value |
| Statistics.MeanOfConstant | server/routes/users.js:177-181 | equal values average to that value |
| Statistics.WindowCharts | server/routes/users.js:189-198 | the dates and values series of a window are parallel and ascending; each point is a stored row of the window and each such row is a point |
| Statistics.SeriesOf | server/routes/users.js:189-198 | the two `map`s: parallel arrays with one point per row, the i-th date and value being those of the i-th row |
| Statistics.CurrentWeight | server/routes/users.js:184-187 | the stored profile weight when the user has no weight rows; otherwise the value of a row with no later-dated row |
| Statistics.GetStatistics | server/routes/users.js:110-220 | 500 "Server error" iff the caller has no `users` row; otherwise the goals and starting weight come from the profile (the calorie goal also as the calorie chart's `goal`), each series is the window's rows, one point per row in ascending date order (so it charts the window as above), the average is the rounded mean of exactly those calorie values, and the current weight is as above |
| Statistics.AverageOfWindow | server/routes/users.js:177-181 | the average is 0 when no calories fall in the window, and otherwise lies within the logged values |
| Statistics.MonthRows | server/routes/users.js:234-243 | exactly the caller's rows dated within the month |
| Statistics.DayMap | server/routes/users.js:246-254 | the `forEach` leaves a key for each date seen, holding the value of the last row with that date |
| Statistics.MonthMapMeaning | server/routes/users.js:246-254 | the month map has a key for exactly the days of the month the caller logged, each holding a logged value, and under the natural key the one value logged that day |
| Statistics.MonthlyData | server/routes/users.js:223-269 | both maps of `/monthly-data` are month maps in the above sense |
| Profile.GetProfile | server/routes/users.js:8-49 | 404 "User not found" iff no account has the id; otherwise that account's columns without the hash |
| Profile.ProfileHidesPassword | server/routes/users.js:12-15 | changing an account's hash does not change its profile |
| Profile.UpdateProfile | server/routes/users.js:52-81 | the profile update of the users table, plus exactly one weight row (caller, today, weight) appended under the fresh id whatever was stored for today, the counter advancing by one |
| Profile.ProfileInsertBreaksKey | server/routes/users.js:64-67 | if the caller already has a weight row today, the appended row breaks one-row-per-day, and the model's first-stored-row lookup of the day still returns the older row |
| Profile.ProfileTwiceSameDay | server/routes/users.js:64-67 | with 80 logged on a day, a profile weight of 75 that day leaves two rows and the day reads 80 |
| Profile.UpdateProfileUpserting | server/routes/users.js:52-81 | the profile update plus an upsert of today's weight: the natural key is kept, the counter advances exactly when today had no row, and today reads the saved weight |
| Profile.UpdateThenGetProfile | server/routes/users.js:58-61 | after the profile update, the profile reads back the five saved values and the rest as before |
| Profile.UpdateGoals | server/routes/users.js:84-107 | the goals update of the users table, with "Goals updated successfully" |
| Profile.UpdateGoalsThenGetProfile | server/routes/users.js:90-93 | after the goals update, the profile reads back both goals and the rest as before |
| Profile.NameOrder | server/routes/users.js:277 | `ORDER BY name` is a total preorder |
| Profile.FoodTable.Insert | server/routes/users.js:302-305 | appends one template under the fresh id and advances the counter |
| Profile.AddFood | server/routes/users.js:296-319 | exactly one template (caller, name, calories) is appended, duplicates allowed |
| Profile.ListFoods | server/routes/users.js:272-293 | exactly the caller's templates, each as often as stored, ordered by name |
| Profile.AddThenList | server/routes/users.js:272-319 | a template just added is listed for its owner, the list grows by exactly one, and nothing listed before is lost |

## Left out

- Hashing and signing. `bcrypt` hashing, `bcrypt.compare` and `jwt.verify` are parameters (a hash string, `passwordMatches`, `verify`), so the 7-day token expiry lives inside `verify`. The token that `jwt.sign` issues on register and login is not modelled; those replies carry the account id it encodes.
- Dates.
  - `new Date`, `setDate`, `toISOString` and `toLocaleDateString` depend on the server's timezone and locale. Dates are day numbers, and `today` is a parameter.
  - The chart series carry day numbers, not locale-formatted date strings.
  - The first and last day of the `/monthly-data` month are parameters. The model does not cover how they are computed from `year` and `month`, including the UTC conversion of the last day.
- Numbers. Metric values, calorie totals and goals are integers. `parseFloat` and floating-point division are not modelled. `Statistics.RoundedMean` is `Math.round(Sum/n)` of the exact rational quotient, with halves rounding up; float rounding of the division is not modelled.
- Request bodies. Fields that are missing from a request body and become SQL `NULL` are not modelled. Every written value is present. A profile or goals update stores `Some(…)`.
- Database failures. Nothing models what happens when a statement fails: a `NOT NULL` or foreign-key violation, a lost connection, or a malformed date or id parameter. The `catch` blocks that answer 500 "Server error" are therefore unreachable in the model. The exception is `/statistics` without a `users` row, which does reach its `catch` in the source.
- SQL semantics.
  - Ties under `ORDER BY` are broken by storage order. SQL leaves them unspecified, so `GetLatest` and `CurrentWeight` promise only "a row with the greatest date".
  - Names are compared by code point, not by the database collation.
  - A `SELECT` without `ORDER BY` that can match several rows returns the first stored one (`Metrics.KeyIndex`, `Metrics.ByDate`, `Accounts.FindById`, `Accounts.FindByEmail`). SQL does not promise which row comes back. This matters only once `KeyUnique` is broken, which only `POST /profile` can do.
- Response columns. Responses carry whole rows. The column lists of the `SELECT`s (for example `id, value, date` without `user_id`) are not modelled.
- Concurrency. Two requests can interleave between a check and a write. Handlers are modelled as atomic.
- Friends.FriendsList: one entry per row, joined to the first account with the other party's id. This is the SQL inner join when user ids are unique, which the `users` primary key guarantees.
- The Express wiring of `server/index.js`, the connection pool of `server/db.js` and the browser code under `public/` are not part of this model.

## Findings

| source | as written | input that shows it | evidently intended | confidence | as-written member | corrected member |
|---|---|---|---|---|---|---|
| server/routes/users.js:64-67 | `POST /profile` always inserts a weight row for `CURRENT_DATE`, without the check-then-update that the weight routes use | a user with weight 80 already logged today saves the profile with weight 75: the table then holds two rows for today, and `/date/:date` and the next weight POST may still see the 80 | write today's weight as the weight routes do: update the day's row if there is one, otherwise insert | medium, not executed | Profile.ProfileInsertBreaksKey | Profile.UpdateProfileUpserting |
