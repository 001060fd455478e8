# Series tracking service — Dafny model

This project models the rules of a small HTTP service that tracks episodic
media. Users register with a unique username. Each user owns an ordered list
of series. Each series is created with a fixed episode count and owns an
ordered list of episodes numbered from 1. A client marks episodes watched and
asks for a series' progress as a whole percentage.

The model has three modules:

- `Records` (`records.dfy`): the `Episode`, `Series` and `User` records, the
  user store `Db` (a map from username to user), the route failures with their
  HTTP status and message, the episode list a new series gets (`Numbered`),
  and the store invariant `ValidDb`. The invariant says each user is stored
  under its own username, and each series has `qtEpisodes` episodes numbered
  1..`qtEpisodes`.
- `Tracking` (`tracking.dfy`): the existence guard, the two `find` lookups,
  the `filter` of watched episodes, the `toFixed(0)` rounding in integer
  arithmetic, and one transition function per route. Each transition gives
  the new store and the route's response. The lemmas relate the routes:
  marking is idempotent, marking never lowers progress, creating a series
  appends to one user's list only, and so on.
- `Server` (`store.dfy`): a `Store` class whose `users` field the route
  methods update in place. The methods run the guard, build episodes with a
  counting loop (`NewEpisodes`), append with a sequence concatenation, and
  overwrite one episode inside one series. Each method's postcondition equates
  the new `users` map and the response with the `Tracking` transition. Each
  method also keeps `Valid()`.

Progress follows `Number.prototype.toFixed` at zero digits (section 21.1.3.3
of ECMA-262). For a non-negative value, `toFixed` picks the nearest integer and
the larger one on a tie. With `W` watched of `N > 0` episodes, the result is
`(200·W + N) div (2·N)`. `RoundPercent` states this result as
`-N <= 2·(100·W − r·N) < N`. When `qt_episodes` is 0, the division gives NaN
(or Infinity if some episode were watched), and `toFixed` prints that word.
The model keeps both as variants of `Progress`. On a valid store only NaN can
occur (`GetProgressRange`).

PUT /users (src/index.js:72-73) writes the new name with `updateOne` and then
sends `req.user`, the record the existence guard fetched before the update. So
`UpdateName` answers with the record as it was, old name included.

## Model

| member | source | states |
|---|---|---|
| `Records.Numbered` | src/index.js:90-97 | the episode list of a new series of N episodes has length N, and the episode at position k is number k+1, unwatched |
| `Tracking.CheckUserExists` | src/index.js:17-27 | the guard succeeds exactly when the username is stored, with that user's record (whose username is the one asked for, on a valid store); otherwise it fails with "User not found." (404) |
| `Tracking.FindSeries` | src/index.js:142 | returns the first position whose series id matches; none exactly when no series has that id |
| `Tracking.FindEpisode` | src/index.js:148 | returns the first position whose episode number matches; none exactly when no episode has that number |
| `Tracking.FindSeriesByIds` | src/index.js:142 | the series lookup depends only on the ids, so changing episodes inside a series does not move it |
| `Tracking.FindEpisodeByNumbers` | src/index.js:148 | the episode lookup depends only on the numbers, so changing watched flags does not move it |
| `Tracking.Watched` | src/index.js:180 | the filter keeps every watched episode and only watched ones; it is everything when all are watched and empty when none is |
| `Tracking.WatchedCounts` | src/index.js:180 | each watched episode occurs in the filter's result as often as in the list and each unwatched one not at all, so the result's length is the watched count |
| `Tracking.WatchedAfterMark` | src/index.js:153 | setting `watched` on one episode raises the watched count by one if it was unwatched, else leaves it |
| `Tracking.RoundPercent` | src/index.js:181 | the result is 100·W/N rounded to the nearest integer, a tie going up |
| `Tracking.RoundPercentBounds` | src/index.js:181 | for W ≤ N the percentage is in 0..100; none watched is 0 and all watched is 100 |
| `Tracking.RoundPercentMonotone` | src/index.js:181 | more watched episodes never give a lower percentage |
| `Tracking.RoundPercentExamples` | src/index.js:181 | 1 of 3 gives 33, 2 of 4 gives 50, 2 of 3 gives 67, 1 of 8 gives 13 |
| `Tracking.SeriesProgress` | src/index.js:179-181 | with N > 0 the result is a percentage: 100·W/N rounded to the nearest integer, a tie going up, W the watched count; with N = 0 it is NaN exactly when nothing is watched and Infinity exactly when something is |
| `Tracking.SetWatched` | src/index.js:153 | the episode at the position becomes watched and keeps its number; every other episode and the series' id, name and count are unchanged |
| `Tracking.SeriesProgressRange` | src/index.js:179-181 | a well-formed series reports a percentage in 0..100 exactly when it has episodes, and NaN exactly when it has none; never Infinity |
| `Tracking.SetWatchedRaisesProgress` | src/index.js:153 | marking one episode of a series never lowers its percentage |
| `Tracking.CreateUser` | src/index.js:38-59 | a taken username gives 400 "User already exists" and no change; otherwise exactly one record `{id, name, username, series: []}` is added and every other record is kept; the store invariant is preserved |
| `Tracking.UpdateName` | src/index.js:67-77 | an unknown user gives 404 and no change; otherwise the stored name is the new one, id, username and series are unchanged, other users are unchanged, and the response is the record as fetched before the update |
| `Tracking.CreateSeries` | src/index.js:87-113 | an unknown user gives 404 and no change; otherwise the new series has the fresh id, the name and N episodes numbered 1..N unwatched, the user's stored list is the old list plus it at the end, the user's other fields and all other users are unchanged, and the store invariant is preserved |
| `Tracking.ListSeries` | src/index.js:123-126 | fails with 404 exactly when the user is unknown |
| `Tracking.MarkWatched` | src/index.js:138-161 | 404 "User not found." exactly when the user is unknown; 404 "Serie not found" exactly when no series has the id; 404 "Invalid episode" exactly when the first such series has no episode with that number; no other failure; no change on any failure; the store invariant is preserved |
| `Tracking.GetProgress` | src/index.js:172-183 | 404 "User not found." exactly when the user is unknown, 404 "Serie not found" exactly when no series has the id, and no other failure; a success is the progress of the first series with the id |
| `Tracking.GetProgressFormula` | src/index.js:175-181 | on a valid store, for the first series with the id and N > 0 episodes, the response is a percentage equal to 100·W/N rounded to the nearest integer, a tie going up, with W ≤ N the watched count |
| `Tracking.MarkWatchedSuccess` | src/index.js:147-156 | on success exactly one episode changes: the first one with the number, in the first series with the id, becomes watched; all other episodes, series and users and the user's other fields are unchanged; the response is the updated series |
| `Tracking.MarkWatchedIdempotent` | src/index.js:153-156 | marking the same episode twice gives the same store and response as marking it once |
| `Tracking.MarkWatchedNeverLowersProgress` | src/index.js:172-181 | after any mark, every percentage any user's series reported before is still a percentage and is not lower |
| `Tracking.GetProgressRange` | src/index.js:175-181 | on a valid store the progress response is never Infinity, and a percentage is at most 100 |
| `Tracking.ListSeriesAfterCreate` | src/index.js:105-108 | after creating a series, the creator's list is the old list plus the new series, and every other user's list is unchanged |
| `Tracking.CreatedSeriesProgress` | src/index.js:98-105 | with an unused id, the new series is the one its id finds, at the end of the list, and its progress starts at 0 (NaN when it has no episodes) |
| `Tracking.EndToEnd` | src/index.js:38-183 | create user "alice", create a two-episode series, mark episode 1: the mark succeeds and progress is 50 |
| `Server.NewEpisodes` | src/index.js:90-97 | the counting loop builds N episodes numbered 1..N, none watched |
| `Server.Store.CreateUser` | src/index.js:38-59 | the stored map and the response are those of `Tracking.CreateUser`; the store invariant is kept |
| `Server.Store.UpdateName` | src/index.js:67-77 | the stored map and the response are those of `Tracking.UpdateName`; the store invariant is kept |
| `Server.Store.CreateSeries` | src/index.js:87-113 | the stored map and the response are those of `Tracking.CreateSeries`; the store invariant is kept |
| `Server.Store.ListSeries` | src/index.js:123-126 | read only; on success the response is the user's stored series list, in creation order |
| `Server.Store.MarkWatched` | src/index.js:138-161 | the stored map and the response are those of `Tracking.MarkWatched`; the store invariant is kept |
| `Server.Store.Progress` | src/index.js:172-183 | read only; the response is `Tracking.GetProgress`, never Infinity, and a percentage is at most 100 |

## Left out

- HTTP routing, JSON body and header parsing, and status plumbing are not modelled. Each failure is a `Failure` variant carrying its status and message.
- POST /users answers with the object `{ mesage: "Resource created", newUser }` (src/index.js:55). The model answers with the new user record alone. The other routes answer with the record or value they send.
- The document store calls (`findOne`, `create`, `updateOne`) are replaced by the `users` map. The database bootstrap `./utils/database` is not part of this model. The `_id` an update uses is taken to be the document the username lookup returned.
- The 500 responses for store exceptions are not modelled. They are failures of the external store.
- `uuidv4()` is not modelled. Fresh ids are parameters, and no uniqueness is assumed. A lookup returns the first match, as `find` does.
- The in-process `users` array (src/index.js:11, src/index.js:51) is not modelled. It is written and never read.
- A missing `username` header is not modelled. The username is always a string.
- JavaScript coercions are not modelled: a missing, fractional or string `qt_episodes`, a missing `name`, and an `ep_number` of a type other than number (which `===` would never match). Counts and episode numbers are naturals.
- `RoundPercent` computes the percentage exactly in integers. The source divides in double precision, which agrees for the small counts a series has.
- Concurrent requests are not modelled. The source has last-write-wins whole-list overwrites. Routes here run one at a time.
- `Tracking.CreateUser` and `Server.Store.CreateUser` keep the fresh uuid as the stored user's `id`, so later responses that send the stored record (`Tracking.UpdateName`) carry it. The schema at src/models/User.js:3-7 declares only `name`, `username` and `series`, so a strict document store drops `id` on `create` (src/index.js:54) and the fetched record carries the store's own `_id` instead. No rule reads a user's `id`, so only the shape of those responses differs.
