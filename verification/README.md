# Honor-rank bot: a Dafny model

This project models the core of a small HTTP service for a game group. The
service stores each player's progress (honor points and minutes played) and
gives the player the group role that matches their honor. The model covers:

- **the honor tiers** (module `Tiers`, `tiers.dfy`): the fixed 14-row table
  from honor thresholds to role ids, and the scan the handlers run over it;
- **the progress steps** (module `Progress`, `progress.dfy`): `POST /ranker`
  (a direct report of honor and time spent), `POST /updateHonor` (a report of
  elapsed minutes) and `GET /players` (the list of all records), as pure
  functions from the state before a request to the state after it and the
  request's outcome;
- **the handlers as they run** (module `Server`, `server.dfy`): a class
  `RankBot` whose fields are the player store, the group's roles and the log of
  role-set requests. Its methods update these fields one step at a time, in the
  order the server makes its calls, and each method is proved to match its
  `Progress` step.

The tier scan walks the table from the highest threshold down and stops at the
first threshold the honor reaches. `LastReached` and `Resolve` state what it
finds: the last row whose threshold the honor reaches. `ScanTiers` is the loop
itself. On an ascending table this row is also the greatest threshold that does
not exceed the honor (the reference predicate `Selects`). With the server's
table, every honor of 0 or more resolves, and every negative honor does not.

A request field is a JavaScript value (`Field`: a number, a string, a
boolean, null, an object or array, or absent). JavaScript falsiness and `typeof`
are modelled as `Falsy` and `TypeOf`. The handlers reject a field with
`!x || typeof x !== 'number'`, which passes only a nonzero number (`PassesGuard`).
So an honor, time spent or elapsed time of 0 is rejected with 400, and negative
values pass. The store is a `map<int, Record>`. The group's roles are a
`map<int, int>`, and a player who is not a member reads as role 0.
`rankCalls` logs every role-set request. Failures of the store or the group
service are an explicit `Fault` parameter naming the call that throws. It yields
the 500 outcome `UpstreamFailure` with whatever was written before that call.

The elapsed-time arithmetic is kept as written. The new time spent is the old
one plus the elapsed minutes. Honor then grows by `floor(newTimeSpent / 30)`,
computed on the cumulative total and not on the minutes just reported
(`Accrue`, `CumulativeAwardDependsOnSplitting`). The record is written back
before the tier is checked. So a report that leaves the honor negative is
answered 400 with the new record already stored (`StoredBeforeTierCheck`).

The model follows the code on two points a reader might not expect:
- a direct report with honor 0 and time spent 0 is rejected with 400; it does
  not create a record (server.js:37, `ZeroFieldsAreRejected`);
- negative honor, time spent, elapsed minutes and user ids are not rejected as
  invalid input. A negative honor fails on its tier instead
  (server.js:50-52, `NegativeValuesPassValidation`).

## Model

| member | source | states |
|---|---|---|
| `Tiers.LastReached` | server.js:43-48 | the row the reversed scan stops at: a row whose threshold the honor reaches with every later row above the honor, or None exactly when every threshold is above the honor |
| `Tiers.Resolve` | server.js:43-48 | the scan yields no role exactly when the honor is below every threshold |
| `Tiers.ScanTiers` | server.js:43-48 | the loop from the last row down with early `break` assigns `newRoleId` exactly the role `Resolve` gives (the same scan runs at server.js:178-183) |
| `Tiers.ResolveIsGreatestAtMost` | server.js:15-48 | on an ascending table the scan returns the role of the greatest threshold not exceeding the honor, and returns a role only when such a threshold exists |
| `Tiers.LastReachedMonotone` | server.js:43-48 | a larger honor never selects a lower row: the selected threshold does not decrease as honor grows |
| `Tiers.ThresholdResolvesToOwnRole` | server.js:44 | honor exactly equal to a threshold resolves to that threshold's role (`>=`), not the next lower one |
| `Tiers.BelowNextThreshold` | server.js:43-48 | honor from a threshold up to just below the next one resolves to that threshold's role |
| `Tiers.AscendingIsSorted` | server.js:15-30 | adjacent increasing thresholds are increasing between any two rows |
| `Tiers.HonorRanksWellFormed` | server.js:15-30 | the table has 14 rows, strictly increasing thresholds starting at 0, and no role id 0 (so `!newRoleId` only fires when nothing matched) |
| `Tiers.HonorRanksResolve` | server.js:43-52 | with the server's table an honor resolves exactly when it is at least 0, and always to a nonzero role id |
| `Tiers.ThirtyIsItsOwnTier` | server.js:21-22 | honor 30 resolves to 84972953 and honor 29 to 85006940 |
| `Progress.PassesGuard` | server.js:37 | the per-field guard (reject when falsy or not of type number), built from JavaScript falsiness and `typeof`, lets a field through exactly when it is a nonzero number (the same guard at server.js:152) |
| `Progress.Usable` | server.js:50 | the `!newRoleId` test lets the request go on exactly when the scan found a role and its id is not 0 (the same test at server.js:185) |
| `Progress.CurrentRole` | server.js:62 | the role read for a player is the group's entry for that player, and a nonzero role means the player is a member; a non-member reads as 0 (the same read at server.js:193) |
| `Progress.GroupStep` | server.js:58-73 | the group calls either all succeed, leaving the player with the target role and answering Ok, or one throws and the request answers 500 with roles and log unchanged; the store is never touched here (the same tail at server.js:189-204) |
| `Progress.SyncRole` | server.js:62-67 | afterwards the player holds the target role and every other member keeps theirs; a role-set request is logged only when the current role differs, otherwise nothing changes |
| `Progress.DirectReport` | server.js:33-74 | 400 "Invalid input" exactly when userid, honor or timeSpent is not a nonzero number; 400 "Invalid honor level" exactly for a valid negative honor; both write nothing; on success the record is overwritten with exactly {honor, timeSpent}, other records are kept, the player holds the resolved role and at most one role-set request was issued; a store or group failure changes no role |
| `Progress.Accrue` | server.js:166-171 | time spent grows by the elapsed minutes, and honor by the number of whole 30-minute blocks in the new cumulative time spent (rounded down) |
| `Progress.ElapsedReport` | server.js:148-205 | 400 exactly when userid or elapsedMinutes is not a nonzero number; 404 exactly for a valid request about a player with no record; both change nothing; Ok exactly for a valid request about a stored player with no failing call whose accrued honor is at least 0; 400 "Invalid honor level" exactly when the accrued honor is negative, with the accrued record already stored; on success the accrued record is stored and the player holds the role the new honor resolves to |
| `Progress.Rows` | server.js:86-90 | one row per stored player, each carrying that player's stored honor and time spent, in strictly ascending id order |
| `Progress.RowsCoverStore` | server.js:86-90 | every stored player id appears among the rows |
| `Progress.ListPlayers` | server.js:77-100 | 404 "No players found" exactly on an empty store, 500 exactly on a failed read, otherwise one row per record with the record's values |
| `Progress.ListPlayersIsComplete` | server.js:84-92 | on a readable store the listing succeeds, contains every stored player and is ordered by id |
| `Progress.RepeatedDirectReportIsIdempotent` | server.js:56-67 | repeating a successful direct report leaves store, roles and role-set log exactly as the first report left them |
| `Progress.ZeroFieldsAreRejected` | server.js:37-39 | honor 0, timeSpent 0 or elapsedMinutes 0 is rejected with 400 and changes nothing, even though threshold 0 exists (also server.js:152) |
| `Progress.NonNumberFieldsAreRejected` | server.js:37 | a field that is a string (even "30"), a boolean or absent is rejected with 400 and changes nothing (also server.js:152) |
| `Progress.NegativeValuesPassValidation` | server.js:37-52 | a negative honor passes validation and fails on its tier with nothing written; a negative time spent is stored as given |
| `Progress.ReportedRoleMatchesStoredHonor` | server.js:56-67 | after a successful report of either kind the player's role is the role the stored honor resolves to |
| `Progress.ElapsedReportScenario` | server.js:166-183 | {honor 25, timeSpent 80} plus 10 minutes stores {28, 90} and moves the player to the role of threshold 20 (85006940) |
| `Progress.StoredBeforeTierCheck` | server.js:174-187 | the record is written before the tier check: {-100, 0} plus 1 minute stores {-100, 1} and answers 400 |
| `Progress.CumulativeAwardDependsOnSplitting` | server.js:167-171 | honor is computed on cumulative time: from {1, 30}, two 1-minute reports give honor 3, one 2-minute report gives honor 2 |
| `Progress.AccrueNeverLowersHonor` | server.js:167-171 | while the new time spent is not negative, an elapsed-time report never lowers honor |
| `Server.RankBot.SyncRank` | server.js:62-67 | reads the current role and updates the role map and the log exactly as `SyncRole` states |
| `Server.RankBot.PostRanker` | server.js:33-74 | the handler's validation, scan, store write and role sync, in order, yield exactly the state and outcome of `DirectReport` |
| `Server.RankBot.UpdateHonor` | server.js:148-205 | the handler's validation, read, `timeSpent +=`, `honor +=`, write, scan and role sync, in order, yield exactly the state and outcome of `ElapsedReport` |
| `Server.RepeatedReport` | server.js:64-67 | two identical direct reports in a row issue at most one role-set request between them, and leave the record stored and the role resolved |

## Left out

- HTTP plumbing: Express routing, JSON body parsing, response objects and
  messages, `POST /test`, `app.listen` and the port (server.js:1-8, 210-219).
  The outcome of each request is modelled; the HTTP status for each outcome is
  given by `Progress.Status`.
- Configuration: the cookie from the environment, the fixed group id and `setCookie`
  (server.js:10-12). They carry no logic. Console logging is left out too.
- `GET /ranker/:userid` (server.js:104-144). It is almost entirely lookups
  of player info and role names in the group service, which is not part of
  this model.
- The Firebase client and the group-service client are foreign code. The store is a map,
  `getRankInGroup` is a role map read with 0 for non-members, and `setRank`
  updates that map and appends to the `rankCalls` log. The model compares the
  value `getRankInGroup` returns with the table's role ids, as the source does.
  What that call returns (a rank number or a role id) is the library's own
  behaviour and is not modelled.
- Exceptions: a failing call is the `Fault` parameter. A failure inside the
  group calls (cookie, role read or role set) changes no role. Partial effects
  inside a library call are not modelled.
- JavaScript number semantics: JavaScript numbers are doubles, and the model's
  integers are exact. The following are not modelled:
  - non-integer numbers pass `typeof === 'number'`;
  - threshold keys are strings compared by coercion;
  - NaN is falsy;
  - `timeSpent += elapsedMinutes` and `honor += honorIncrement` (server.js:167,
    171) round once values pass 2^53;
  - `parseInt(userid)` (server.js:66, 197) turns an id of 1e21 or more into a
    different id, so `setRank` would target another user than the one whose
    record was written;
  - a stored record missing a field would make `timeSpent += elapsedMinutes`
    produce NaN.

  Stored records always have both fields here, so the `|| 0` defaults of
  `GET /players` leave values as they are.
- `Progress.Rows` and `Progress.ListPlayersIsComplete`: list players in
  ascending id order. JavaScript gives that order only for array-index keys,
  the ids from 0 to 2^32 - 2. Other keys come after those, in the order the
  object was built. That covers negative ids, which validation lets through,
  and ids of 2^32 - 1 or more, which user ids can reach. That order is not
  modelled: for ids 10000000000 and 4294967296 the model always lists
  4294967296 first.
- Concurrency: two requests for the same player can interleave between the
  store write and the role sync. Each step here runs alone.
