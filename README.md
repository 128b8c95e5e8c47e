# Leaderboard ranking engine

A Dafny model of the server core of a real-time leaderboard. Users (id,
username, rating) live in a PostgreSQL `users` table. The table is mirrored
into the Redis sorted set `global_leaderboard`, where each user's member key
is `username:id` and its score is the user's rating. Leaderboard pages and
ranks are served from the sorted set when Redis is reachable, and from SQL
window queries when it is not.

The model covers:

- the repository: syncing, creating, re-rating, looking up, listing and
  searching users over both stores;
- the service layer's argument checks and page-size cap;
- the start/stop switch of the rating simulation and the effect of its loop;
- the seeding program's batching loop;
- the HTTP handlers' parameter parsing and status codes.

Modules, one per source concern:

| file | module | models |
|---|---|---|
| `models.dfy` | `Models` | `models.User`, `UserWithRank`, `Option` |
| `text.dfy` | `Text` | `%d`, `%05d`, `strconv.Atoi` (Go's left-to-right scan), `strings.Split`, 64-bit wrap-around |
| `member.dfy` | `Member` | the member key `username:id` and how the read path decodes it |
| `zset.dfy` | `ZSet` | the sorted set as a sequence in ZREVRANGE order; ZADD, ZREVRANGE, ZCOUNT |
| `ranking.dfy` | `Ranking` | the table invariant, the table's image in the set, SQL `RANK()` |
| `sql.dfy` | `Sql` | `LIKE`, `WHERE`, `ORDER BY rating DESC`, GORM `First` |
| `user_repo.dfy` | `UserRepo` | `PostgresUserRepository` |
| `leaderboard_service.dfy` | `Leaderboard` | `LeaderboardService` |
| `simulation_service.dfy` | `Simulation` | `SimulationService` |
| `seed.dfy` | `Seed` | the seeding program |
| `leaderboard_handler.dfy` | `Handlers` | `LeaderboardHandler` |

The central results:

- `Ranking.CacheRankIsSqlRank`: once the set is the image of the table,
  the cache rank (`ZCOUNT` of strictly higher scores, plus one) equals SQL
  `RANK()` for every rating.
- `UserRepo.CachePageIsTable`: every page cut from a mirroring set gives
  back exactly rows of the table, each with its SQL rank.
- `UserRepo.Repository.SyncToRedis`, `Create` and `UpdateRating` preserve
  the mirror (`Mirrored`). `UserRepo.MirrorIsUnique` shows the mirror of a
  table is one fixed sequence, so syncing twice leaves the same set.

The Redis and SQL clients are replaced by the two stores as values. Faults
the code reacts to are boolean parameters. The id the database gives a new
row, the random draws and the simulation's ticks are parameters too.

Behaviours of the code worth knowing:

- Counting members with a strictly higher score, as both the cache path and
  `RANK()` do, is competition ranking: 500, 500, 300 rank 1, 1, 3.
  `Ranking.CompetitionExample` shows it.
- The search pattern is `"%" + query + "%"` under `LIKE`, so `%`, `_` and
  `\` in the query are wildcards or escapes. `Sql.LikeIsContains` shows it is
  a substring test for a query without them. `Sql.UnderscoreIsWildcard`
  shows the search `_` matches exactly the non-empty usernames.
- A username holding `:` is cut at the colon when read back from the cache.
  The id is then the `Atoi` of the text after the colon, with its error
  ignored (`Member.DecodeColonUsername`, `Member.DecodeColonUsernameLosesId`).
- `offset + limit - 1` is computed in 64-bit arithmetic and wraps
  (`Text.Wrap64`). A stop index of -1 means "to the end" in Redis
  (`UserRepo.ZeroLimitReadsAll`). The handler accepts an offset as large as
  the largest int64. With a limit above 1 the stop index then wraps to a
  negative number, which counts back from the end of the set to a point
  before the offset. With limit 1 the stop index is the largest int64 and
  the start lies past the end of the set. Either way the page is empty
  (`UserRepo.MaxOffsetWraps`), and no page ever holds more rows than the
  limit (`UserRepo.CacheWindow`).
- `strconv.Atoi` scans from the left. Digits worth more than 2^64 - 1 are a
  range error even when a non-digit follows, and the handler keeps the
  clamped value for `offset` (`Handlers.ParseOffsetOverflowFirst`).

## Model

| member | source | states |
|---|---|---|
| Member.Encode | server/internal/repository/user_repo.go:66 | the member key is the username and the decimal id joined by one colon, as `%s:%d` writes it |
| Member.Decode | server/internal/repository/user_repo.go:128-135 | a decoded username never holds a colon |
| Member.DecodeEncode | server/internal/repository/user_repo.go:66 | for a username with no colon and any 64-bit id, decoding the key `username:id` gives back exactly that username and id |
| Member.DecodeNoneIff | server/internal/repository/user_repo.go:129-132 | a member is dropped from the output exactly when it has no colon |
| Member.DecodeColonUsername | server/internal/repository/user_repo.go:128-135 | the key of a username `u1:u2` decodes to username `u1`, with the Atoi value of `u2` as id |
| Member.DecodeColonUsernameLosesId | server/internal/repository/user_repo.go:135 | when `u2` starts with a non-digit, the decoded id is 0: the real id is lost |
| Member.EncodeInjective | server/internal/repository/user_repo.go:84 | distinct (username, id) pairs give distinct member keys |
| Text.Atoi | server/internal/handlers/leaderboard_handler.go:104-109 | a parsed value is always a 64-bit integer; an empty parameter is an error whose value is 0 |
| Text.AtoiFormatInt | server/internal/repository/user_repo.go:135 | `Atoi` reads back every 64-bit integer that `%d` writes |
| Text.AtoiRejects | server/internal/handlers/leaderboard_handler.go:81-85 | a character that is not a digit, past an optional sign, makes `Atoi` fail |
| Text.AtoiSyntaxError | server/internal/handlers/leaderboard_handler.go:110 | a non-digit within the first 20 characters is a syntax error, whose value is 0 |
| Text.AtoiOverflowFirst | server/internal/handlers/leaderboard_handler.go:110 | digits worth more than 2^64 - 1 give the range error with the largest int64, even when a non-digit follows |
| Text.Wrap64 | server/internal/repository/user_repo.go:108 | the result is a 64-bit integer congruent to the input modulo 2^64, and equals the input when the input is in range |
| Text.ZeroPadInjective | server/internal/cmd/seed/main.go:73 | `%05d` gives distinct numbers distinct texts |
| ZSet.Add | server/internal/repository/user_repo.go:85-88 | after ZADD the member is in the set with the given score, and every other entry was already in the set |
| ZSet.AddValid | server/internal/repository/user_repo.go:85-88 | ZADD keeps the set sorted and duplicate-free, and its map becomes the old map with the member set to the score |
| ZSet.Canonical | server/internal/repository/user_repo.go:62-71 | two sorted sets with the same member-to-score map are the same sequence |
| ZSet.RevRange | server/internal/repository/user_repo.go:108 | ZREVRANGE from `start` to `stop` is the slice `[start, stop]` cut to the set's length, and empty when `stop < start` |
| ZSet.ZCount | server/internal/repository/user_repo.go:120 | ZCOUNT of the scores strictly above x is 0 exactly when no member scores above x |
| ZSet.ZCountAtGroupStart | server/internal/repository/user_repo.go:120 | at the first entry of a group of equal scores, ZCOUNT of the strictly higher scores is that entry's position |
| Ranking.CacheRankIsSqlRank | server/internal/repository/user_repo.go:120-146 | when the set is the image of the table, `1 + ZCOUNT` equals SQL `RANK()` for every rating |
| Ranking.ImageInsert | server/internal/repository/user_repo.go:84-88 | inserting or re-rating a row changes the table's image by exactly that row's member and score |
| Ranking.SqlRank | server/internal/repository/user_repo.go:156 | `RANK()` is at least 1, and is 1 exactly when no row is rated above the given rating |
| Ranking.SqlRankBounds | server/internal/repository/user_repo.go:207 | the `RANK()` of a row lies between 1 and the number of rows |
| Ranking.SqlRankMonotone | server/internal/repository/user_repo.go:156 | a higher rating never gets a larger rank |
| Ranking.SqlRankAtGroupStart | server/internal/repository/user_repo.go:156-158 | in a listing by rating descending, the first row of a tie group at position p has rank p + 1 |
| Ranking.CompetitionExample | server/internal/repository/user_repo.go:156 | ratings 500, 500, 300 rank 1, 1, 3 |
| Ranking.ImageOfEnumeration | server/internal/repository/user_repo.go:64-71 | the ZADDs of any listing of the table's rows leave exactly the table's image |
| Sql.Like | server/internal/repository/user_repo.go:168 | a pattern without `%`, `_` or `\` matches exactly the identical text |
| Sql.Pattern | server/internal/repository/user_repo.go:96 | for an empty query the pattern `%%` matches every username |
| Sql.LikeIsContains | server/internal/repository/user_repo.go:168 | for a query without `%`, `_` or `\`, `LIKE '%q%'` holds exactly when the username contains `q` |
| Sql.UnderscoreIsWildcard | server/internal/repository/user_repo.go:168 | the query `_` matches a username exactly when it is not empty; it matches `bob`, which does not contain `_` |
| Sql.Find | server/internal/repository/user_repo.go:54 | an unordered SELECT lists every row of the table exactly once |
| Sql.OrderByRatingDesc | server/internal/repository/user_repo.go:158 | `ORDER BY rating DESC` lists every row exactly once, in non-increasing rating |
| Sql.FindLike | server/internal/repository/user_repo.go:168-171 | at most n matching table rows, pairwise distinct, in non-increasing rating; a matching row left out means n rows were returned, none rated below it |
| Sql.First | server/internal/repository/user_repo.go:96 | GORM `First` gives the row with the lowest id, or nothing exactly when the table is empty |
| UserRepo.RowOf | server/internal/repository/user_repo.go:128-146 | an entry gives a row exactly when its member holds a colon; the row then carries the entry's score as rating, a rank of at least 1, and a username without a colon |
| UserRepo.AssembleRows | server/internal/repository/user_repo.go:126-148 | the assembled rows are at most as many as the page's entries; each carries a page entry's score as rating and `ZCOUNT + 1` of that score as rank |
| UserRepo.AssembleOrdered | server/internal/repository/user_repo.go:126-148 | a page in descending score order gives rows in non-increasing rating |
| UserRepo.AssembleAll | server/internal/repository/user_repo.go:128-135 | when every member decodes, there is one row per entry, in page order |
| UserRepo.CachePageIsTable | server/internal/repository/user_repo.go:108-148 | for a table whose usernames hold no colon and whose ids fit in 64 bits, a page cut from a set that mirrors the table lists exactly rows of the table, each with its SQL `RANK()` |
| UserRepo.MirrorIsUnique | server/internal/repository/user_repo.go:52-75 | two sets that both mirror the same table are equal, so a second sync leaves the same set |
| UserRepo.DistinctScoresBounds | server/internal/repository/user_repo.go:114-122 | the number of distinct scores on a page is at most its length, at least 1 when it is not empty, the length when scores are pairwise distinct, and 1 when all are equal |
| UserRepo.QueueCounts | server/internal/repository/user_repo.go:114-123 | the score map holds exactly the page's scores, each with its ZCOUNT, and one lookup is queued per distinct score |
| UserRepo.AssemblePage | server/internal/repository/user_repo.go:126-148 | the assembly loop produces the assembled rows of the page |
| UserRepo.RankPage | server/internal/repository/user_repo.go:113-148 | the page's rows, no more than its entries, with one lookup per distinct score |
| UserRepo.CacheQuery | server/internal/repository/user_repo.go:106-150 | the rows of the ZREVRANGE window from `offset` to `offset + limit - 1`, stop index wrapped to 64 bits, with the number of lookups queued |
| UserRepo.CacheWindow | server/internal/repository/user_repo.go:108 | for any offset in [0, 2^63 - 1], any limit in [1, 2^63 - 1] and a set of at most 2^63 - 1 members, the window holds at most `limit` rows, whether or not the stop index wraps |
| UserRepo.WindowPageBound | server/internal/repository/user_repo.go:108 | under the same bounds the ZREVRANGE page holds at most `limit` entries: `limit` wide when the stop index fits, empty when it wraps |
| UserRepo.CacheWindowLength | server/internal/repository/user_repo.go:108 | for a non-negative offset, a positive limit and an in-range stop index, the window holds at most `limit` rows |
| UserRepo.ZeroLimitReadsAll | server/internal/repository/user_repo.go:108 | with limit 0 and offset 0 the stop index is -1 and the whole set is read |
| UserRepo.MaxOffsetWraps | server/internal/repository/user_repo.go:108 | at the largest int64 offset, a limit above 1 wraps the stop index to a negative number, and the page is empty for any set of at most 2^63 - 1 members |
| UserRepo.SqlError | server/internal/repository/user_repo.go:161 | the SQL listing fails exactly on a database fault, a negative OFFSET or a negative LIMIT |
| UserRepo.SqlWindowQuery | server/internal/repository/user_repo.go:155-161 | the rows at positions offset .. offset + limit - 1 of some listing by rating descending, each with its `RANK()`, and exactly min(limit, rows - offset) of them |
| UserRepo.RankOfId | server/internal/repository/user_repo.go:205-209 | the `RANK()` of the row with that id, between 1 and the number of rows; 0 when there is no such row |
| UserRepo.RankBySql | server/internal/repository/user_repo.go:179-185 | one row per found user, in order, each with its SQL rank |
| UserRepo.RankByCache | server/internal/repository/user_repo.go:187-200 | one row per found user, in order, each with `ZCOUNT` of strictly higher scores plus one |
| UserRepo.SyncPipeline | server/internal/repository/user_repo.go:62-73 | DEL followed by one ZADD per row leaves a sorted set whose map is the rows' image |
| UserRepo.InsertMirrors | server/internal/repository/user_repo.go:78-91 | a row with a new id and a new username keeps the table valid, and ZADDing its member keeps the set sorted, duplicate-free and the image of the table |
| UserRepo.Repository.constructor | server/internal/repository/user_repo.go:36-37 | the repository holds the table, and the startup set only when Redis is reachable |
| UserRepo.Repository.SyncToRedis | server/internal/repository/user_repo.go:52-75 | a read or exec error returns the error and leaves the set as it was; otherwise the set mirrors the table exactly; the table never changes |
| UserRepo.Repository.Create | server/internal/repository/user_repo.go:78-91 | a database error leaves both stores untouched; a duplicate id or username is refused and leaves both stores untouched; on success the row is added and, with Redis, its member is ZADDed with its rating; the mirror is preserved |
| UserRepo.Repository.UpdateRating | server/internal/repository/user_repo.go:212-232 | a read error, an unknown id or a write error returns the error and leaves both stores untouched; on success only that row's rating and its member's score change, both to the new rating; the mirror is preserved |
| UserRepo.Repository.GetByUsername | server/internal/repository/user_repo.go:94-98 | the matching row with the lowest id; NotFound exactly when no username matches; the zero user beside any error |
| UserRepo.Repository.GetLeaderboard | server/internal/repository/user_repo.go:101-151 | without Redis the SQL listing; with Redis never an error, no rows on a range error, otherwise the assembled window with one lookup per distinct score; never more than `limit` rows for a non-negative offset and a set of at most 2^63 - 1 members |
| UserRepo.Repository.GetLeaderboardSql | server/internal/repository/user_repo.go:153-163 | the error `SqlError` names and no rows, or the SQL window |
| UserRepo.Repository.SearchUsersWithRank | server/internal/repository/user_repo.go:166-203 | at most ten distinct matching table rows, by rating descending, none better left out; ranked by `ZCOUNT + 1` with Redis and by `RANK()` without |
| Leaderboard.ClampLimit | server/internal/services/leaderboard_service.go:51-53 | the forwarded limit lies in [1, 100], equals the given one up to 100, and never exceeds it |
| Leaderboard.Lift | server/internal/services/leaderboard_service.go:31-33 | a repository error is passed through unchanged, and no error stays no error |
| Leaderboard.UserWithRankGuard | server/internal/services/leaderboard_service.go:58-61 | an error exactly when the username is empty, and then "username is required" |
| Leaderboard.LeaderboardService.CreateUser | server/internal/services/leaderboard_service.go:17-36 | an empty username, then a negative rating, is refused without touching the repository; a database error or a duplicate id or username is refused and leaves the repository unchanged; otherwise the row with exactly that username and rating is added to the table and, with Redis, its member is ZADDed to the set with that rating |
| Leaderboard.LeaderboardService.UpdateRating | server/internal/services/leaderboard_service.go:38-44 | a negative rating is refused without touching the repository; a read error, an unknown id or a write error leaves the repository unchanged; on success the row's rating becomes the new rating and, with Redis, the row's member is ZADDed with it |
| Leaderboard.LeaderboardService.GetLeaderboard | server/internal/services/leaderboard_service.go:46-56 | a limit of 0 or less is refused; otherwise the repository gets the limit capped at 100 and the offset unchanged; never more than 100 rows for a non-negative offset and a set of at most 2^63 - 1 members |
| Simulation.SimulationService.constructor | server/internal/services/simulation_service.go:19-21 | a new service is stopped, with no cancel handle |
| Simulation.SimulationService.Start | server/internal/services/simulation_service.go:23-37 | a running service is left alone; a stopped one gets a fresh handle, is running, and launches one loop |
| Simulation.SimulationService.Stop | server/internal/services/simulation_service.go:39-49 | a stopped service is left alone; a running one calls its handle exactly once and stops |
| Simulation.SimulationService.IsRunning | server/internal/services/simulation_service.go:51-56 | returns the flag |
| Simulation.SimulationService.Run | server/internal/services/simulation_service.go:58-78 | the table afterwards is the replay of the ticks; with Redis the set afterwards is the old set after one ZADD per successful tick, in tick order, of the ticked row's member with the new rating (`ReplayCache`), and without Redis it is unchanged; the number of logged errors is exactly the number of ticks that fail (read fault, unknown id or write fault) against the table as replayed so far, and a failed tick changes nothing; the mirror is preserved |
| Simulation.SimulationService.Step | server/internal/services/simulation_service.go:69-75 | one tick: it fails exactly when `Fails` says so; the table becomes `Apply` of the tick, and with Redis the set gets the ZADD of a successful tick and is otherwise unchanged |
| Simulation.Replay | server/internal/services/simulation_service.go:62-77 | replaying ticks keeps exactly the table's ids |
| Simulation.ReplayStep | server/internal/services/simulation_service.go:62-77 | the table, the set and the error count after i + 1 ticks are those after i ticks followed by tick i |
| Simulation.RunStep | server/internal/services/simulation_service.go:62-77 | one more iteration of the loop extends the replayed table, set and error count from the first i ticks to the first i + 1 |
| Simulation.ApplyMirrors | server/internal/services/simulation_service.go:72 | one tick, applied to the table and to a set that mirrors it, leaves a set that mirrors the new table |
| Simulation.ReplayMirrors | server/internal/services/simulation_service.go:62-77 | any sequence of ticks, replayed on the table and on a set that mirrors it, leaves a set that mirrors the replayed table |
| Simulation.FailuresBounds | server/internal/services/simulation_service.go:72-75 | no more ticks fail than were made, and none fails when every id is in the table and no fault occurs |
| Simulation.TickOf | server/internal/services/simulation_service.go:69-70 | a tick's id lies in [1, 10000] and its rating in [100, 5000] |
| Simulation.TickOfOnto | server/internal/services/simulation_service.go:69-70 | every id and rating in range comes from exactly one pair of draws |
| Simulation.ReplayKeepsRows | server/internal/services/simulation_service.go:72 | ticks never add or remove rows, or change ids or usernames |
| Simulation.ReplayKeepsRange | server/internal/services/simulation_service.go:69-72 | ratings in [100, 5000] stay in [100, 5000] |
| Seed.GeneratedRows | server/internal/cmd/seed/main.go:70-75 | the generated users have ids 1, 2, ... in order, pairwise distinct colon-free usernames and ratings in [100, 5000] |
| Seed.SeedUsername | server/internal/cmd/seed/main.go:73 | every username of an id below 100000 is 10 characters long |
| Seed.SeedUsernameInjective | server/internal/cmd/seed/main.go:73 | distinct ids give distinct `user_%05d` usernames |
| Seed.SeedTableValid | server/internal/cmd/seed/main.go:65-96 | the seeded table meets the table invariant, holds ids 1 to n, and its members decode back |
| Seed.InsertBatch | server/internal/cmd/seed/main.go:98-100 | the batch is appended to the inserts made so far, and the call fails exactly when it is the failing one |
| Seed.InsertAll | server/internal/cmd/seed/main.go:68-93 | every batch is non-empty and at most 500 long, all but the last exactly 500; the batches joined are a prefix of the generated users, and all of them when no insert fails; the first failure ends the run with its error |
| Seed.FlushRest | server/internal/cmd/seed/main.go:88-93 | the buffer, if not empty, is inserted as one last batch |
| Seed.SeedUsers | server/internal/cmd/seed/main.go:65-96 | for 10000 users, on success exactly 20 batches of 500 whose concatenation is the generated sequence |
| Handlers.ParseLimit | server/internal/handlers/leaderboard_handler.go:105-108 | the limit is always a positive 64-bit integer |
| Handlers.ParseLimitFormat | server/internal/handlers/leaderboard_handler.go:105-108 | a positive decimal limit is read as itself |
| Handlers.ParseLimitDefault | server/internal/handlers/leaderboard_handler.go:105-108 | a missing limit, or one of 0 or less, becomes 50 |
| Handlers.ParseLimitInvalid | server/internal/handlers/leaderboard_handler.go:105-108 | a limit that `Atoi` cannot read, malformed or out of the int64 range, becomes 50 |
| Handlers.ParseLimitMalformed | server/internal/handlers/leaderboard_handler.go:105-108 | a limit with a non-digit past an optional sign becomes 50 |
| Handlers.ParseLimitExamples | server/internal/handlers/leaderboard_handler.go:105-108 | the limits `abc` and `12x` become 50 |
| Handlers.ParseOffset | server/internal/handlers/leaderboard_handler.go:110-113 | the offset is always a non-negative 64-bit integer |
| Handlers.ParseOffsetFormat | server/internal/handlers/leaderboard_handler.go:110-113 | a decimal offset is read as itself when not negative and as 0 when negative; a missing one is 0 |
| Handlers.ParseOffsetOverflow | server/internal/handlers/leaderboard_handler.go:110 | digits above the int64 range are read as the largest int64 |
| Handlers.ParseOffsetSyntaxError | server/internal/handlers/leaderboard_handler.go:110 | an offset such as `12x` is read as 0 |
| Handlers.ParseOffsetOverflowFirst | server/internal/handlers/leaderboard_handler.go:110 | digits worth more than 2^64 - 1 followed by any non-digit are read as the largest int64 |
| Handlers.ParseId | server/internal/handlers/leaderboard_handler.go:75-85 | a missing id gives no id; any id given is a 64-bit integer |
| Handlers.ParseIdFormat | server/internal/handlers/leaderboard_handler.go:81 | a decimal id is read as itself |
| Handlers.ParseIdRejects | server/internal/handlers/leaderboard_handler.go:81-85 | an id with a non-digit past an optional sign gives no id |
| Handlers.GetUserWithRankGuard | server/internal/handlers/leaderboard_handler.go:126-131 | 400 exactly when the username is empty |
| Handlers.LeaderboardHandler.StartSimulation | server/internal/handlers/leaderboard_handler.go:25-29 | the simulation is running afterwards, and the answer is 200 |
| Handlers.LeaderboardHandler.StopSimulation | server/internal/handlers/leaderboard_handler.go:31-35 | the simulation is stopped afterwards, and the answer is 200 |
| Handlers.LeaderboardHandler.GetSimulationStatus | server/internal/handlers/leaderboard_handler.go:37-44 | "running" exactly when the simulation runs, otherwise "stopped" |
| Handlers.LeaderboardHandler.CreateUser | server/internal/handlers/leaderboard_handler.go:51-67 | an undecodable body gives 400 and no change; otherwise 201 with the user exactly when the service creates it, and 500 with the repository unchanged otherwise; on 201 the row is added to the table and, with Redis, its member is ZADDed with its rating |
| Handlers.LeaderboardHandler.UpdateRating | server/internal/handlers/leaderboard_handler.go:73-99 | a missing or malformed id, or an undecodable body, gives 400 without calling the service; otherwise 204 exactly when the update succeeds, and 500 with no change otherwise; on 204 the row's rating is the new one and, with Redis, its member is ZADDed with it |
| Handlers.LeaderboardHandler.GetLeaderboard | server/internal/handlers/leaderboard_handler.go:101-124 | 500 only for a database error on the SQL path, else 200; with Redis, the window at the parsed offset and the parsed limit capped at 100; never more than 100 rows, for every parsed offset, when the set holds at most 2^63 - 1 members |

## Left out

- Connecting to PostgreSQL and Redis, configuration, routing and CORS are not part of this model. Only Redis's startup ping is kept, as the `cacheAvailable` flag.
- The startup sync goroutine of `NewPostgresUserRepository` is not modelled; `SyncToRedis` is modelled as a call of its own.
- Goroutines, the mutex, the ticker and the context of the simulation are not modelled. `Start` and `Stop` are sequential methods. `run` is the sequence of ticks it sees before it is cancelled.
- The read-then-write race in `UpdateRating` is not modelled; each call runs alone.
- The `CreatedAt` and `UpdatedAt` timestamps of `models.User` are not modelled. They are set by the database and no modelled operation reads them.
- Scores pass through `float64` and `strconv.FormatFloat`. They are modelled as integers, which is exact for these ratings.
- Member keys are compared as sequences of characters, not UTF-8 bytes. This matches Redis's byte-wise order only for ASCII usernames.
- Errors of pipelines and of single `ZADD`s are ignored by the code. The model treats those writes as always applied. `SyncToRedis`'s `Exec` error is modelled all-or-nothing, with no partial application of the pipeline.
- A failing search ZCOUNT (whose error is ignored, giving rank 1) is not modelled; counts always succeed.
- In `GetLeaderboard` the error of the ZCOUNT pipeline is ignored too. A failed pipeline gives every row rank 1. This is not modelled; the counts always succeed.
- The id of a row created with id 0 is a parameter (`nextId`). The only schema in the repository, in the seeding program, declares `id INT PRIMARY KEY` with no default. An insert that leaves the id out, as the service's `CreateUser` does, would then break the NOT NULL constraint. The model reaches that outcome only through its `dbFault` parameter.
- The columns `id` and `rating` are 32-bit `INT`, while Go's `int` and the model allow any 64-bit value. The database refuses a rating or id of 2^31 or more. The model reaches that refusal only through its fault parameters.
- `RANK()` of `getUserWithRankSQL` on a database error (rank 0, error ignored) is not modelled; the lookup always succeeds.
- `LeaderboardService.GetUserWithRank` calls a repository method that does not exist, and the handler's `GetUserWithRank` calls a service method `SearchUsers` that does not exist. Both are modelled only up to their username guards.
- The seeding program's `ensureSchema` DDL, its `main` and its logging are not modelled. `insertBatch` is a sink whose failing call is a parameter.
- Random draws are parameters constrained to `rand.Intn`'s range.
- JSON encoding and decoding and response bodies are not modelled. A decoded body is an `Option` parameter.
- ZSet.RevRange: the contract states the window for non-negative indices only. Negative indices, which count from the end, are handled by its definition, `UserRepo.ZeroLimitReadsAll` states the stop index -1, which the repository reaches when called directly with limit 0. `UserRepo.MaxOffsetWraps` states the negative stop index the handler reaches with the largest int64 offset.
