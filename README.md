# ISS position cache — a verified model

This project models the core of the ISS tracking backend in Dafny. That core is a table of
telemetry samples, unique by Unix timestamp, kept as a cache in front of the
wheretheiss.at provider. The model covers:

- the current, historical and range reads;
- the statistics;
- the collector tick, which inserts a sample only if its timestamp is new;
- the cleanup tick, which deletes rows older than eight hours;
- unit conversion and the provider URL.

Around the core it also models:

- the request guards of the HTTP handlers and how they map service outcomes to status codes;
- the Bearer-header decision of the auth middleware;
- the ISS-only crew filter and the crew-with-photos assembly;
- the database health report.

How the model is built:

- The table is the class `IssService.PositionCache`. Its field `rows` is a sequence kept strictly ascending by timestamp, so no two rows share a timestamp. Its field `nextId` is the next surrogate id.
- The SQL statements are pure functions over the rows, in module `PositionTable`.
- `now` is a parameter, in Unix seconds. The health check also receives the current time in nanoseconds.
- The upstream provider is a function from request URL to reply (`Http.Reply`). A reply records the transport error, the status, the body, the body-read error and the decoded payload.
- A read method also returns the URLs it fetched, so "no upstream access" is stated as `requested == []`.
- Each background tick is one method call.

Modules:

- `Wrappers` holds Option and Result.
- `Http` holds the reply shape and the status codes.
- `Decimal` models `strconv.ParseInt` (base 10, 64-bit), `strconv.Itoa` and `%d`. It proves that parsing what was printed gives the number back.
- `IssModel` holds the records and `ToISSPosition`.
- `PositionTable` holds the store queries.
- `IssService` holds the service.
- `IssHandlers` holds the handler guards and replies.
- `Middleware`, `CrewService` and `Database` complete the model.

Decisions where the code is ambiguous or surprising:

- **Fallback units.** On a miss, the current and historical reads fetch in the *requested* units and return the stored row unconverted. The model does the same.
- **Insert result on read paths.** `FirstOrCreate` fills its argument with the existing row when one exists. So the read paths return the row stored at that timestamp: the old one if it was there, otherwise the new one.
- **Historical lookup.** The historical read uses the lookup the raw query intends: the nearest stored sample within ±60 s. Ties go to the earlier timestamp, which is a choice made here because the query's order is not total.
- **Round trip.** The documented expectation that kilometres→miles→kilometres returns the original within 1e-6 does not hold for the code's constants. 0.621371 × 1.60934 = 0.99999720514, and the model follows the code (`RoundTripDrift`).
- **Collector matching.** The collector's `FirstOrCreate(&existingPos, position)` (internal/services/iss_service.go:233) matches on the timestamp *and* on every non-zero field of the fetched sample, not on the timestamp alone. When a row with the same timestamp but other field values is stored (a miles row left by a read's fallback, say), gorm finds no match, the INSERT violates the unique timestamp index, and the collector logs a storage failure instead of "already exists". The table is the same either way, so `CollectData` models both outcomes with `InsertIfAbsent`: no row created, table unchanged. `InsertIfAbsent` is therefore not gorm's matching rule, only its effect on the table.
- **Stale data.** The health report's stale-data test works in nanoseconds, because it uses `time.Since`. The service's cutoffs work in whole seconds, because it uses `Unix()`.

## Model

| member | source | states |
|---|---|---|
| IssModel.ToPosition | internal/models/iss.go:50-65 | every telemetry field, timestamp and units copied unchanged; id left at 0 for the store |
| IssModel.ToPositionForgetsOnlyId | internal/models/iss.go:29-65 | two provider records map to the same row iff they agree on everything but the provider id |
| PositionTable.AscendingKeysUnique | internal/models/iss.go:16 | in a table ascending by timestamp no two rows share a timestamp |
| PositionTable.Find | internal/services/iss_service.go:60 | finds the row with a given timestamp, or reports that none has it |
| PositionTable.InsertSorted | internal/services/iss_service.go:233 | inserting a new timestamp keeps the order and adds exactly that row |
| PositionTable.InsertIfAbsent | internal/services/iss_service.go:233 | creates a row (with the fresh id) iff the timestamp is absent, otherwise leaves the table unchanged and yields the existing row; afterwards the timestamp maps to the yielded row |
| PositionTable.InsertIfAbsentIdempotent | internal/services/iss_service.go:232-243 | a second insert at the same timestamp changes nothing and reports no new row |
| PositionTable.Latest | internal/services/iss_service.go:124-128 | the row with the largest timestamp; none iff the table is empty |
| PositionTable.Oldest | internal/services/iss_service.go:130-133 | the row with the smallest timestamp; none iff the table is empty |
| PositionTable.LatestSince | internal/services/iss_service.go:44-48 | the newest row if it is at or after the cutoff; none iff every row is older |
| PositionTable.Nearest | internal/services/iss_service.go:75-83 | a row within the tolerance at minimum distance, ties to the earlier timestamp; none iff no row is within the tolerance |
| PositionTable.Range | internal/services/iss_service.go:101-103 | exactly the rows with lo ≤ timestamp ≤ hi, ascending |
| PositionTable.Retain | internal/services/iss_service.go:258-260 | exactly the rows with timestamp ≥ cutoff, as a suffix of the table in order |
| IssService.Convert | internal/services/iss_service.go:191-210 | km↔mi rescales altitude, velocity and footprint by the same factor and retags the units; any other pair, or equal units, leaves the sample unchanged; no other field changes |
| IssService.ConvertIdempotent | internal/services/iss_service.go:191-210 | converting twice to the same units equals converting once |
| IssService.RoundTripDrift | internal/services/iss_service.go:196-197 | km→mi→km scales the magnitudes by 0.99999720514, losing more than one part in a million |
| IssService.ProviderUrl | internal/services/iss_service.go:151-161 | starts with the satellite path; has no query iff timestamp ≤ 0 and units are kilometres |
| IssService.TimestampQueriesInjective | internal/services/iss_service.go:154-158 | two timestamp queries are equal only for the same timestamp and units parameter |
| IssService.UnitsParamInjective | internal/services/iss_service.go:156-160 | the units parameter determines the non-default units |
| IssService.TimestampQueryNotUnitsQuery | internal/services/iss_service.go:154-161 | a query with a timestamp never equals one without |
| IssService.ProviderUrlInjective | internal/services/iss_service.go:151-161 | equal URLs carry the same timestamp (when positive) and the same non-default units |
| IssService.FetchFromApi | internal/services/iss_service.go:163-188 | success iff status 200, body read and payload decoded, and then the payload mapped by ToPosition; a non-200 status is an error whatever the body |
| IssService.DefaultUnits | internal/services/iss_service.go:39-41 | never empty; a non-empty units argument is kept, an empty one means kilometres |
| IssService.HistoricalLookupAsWritten | internal/services/iss_service.go:75-78 | the raw query as written errs whatever the table holds |
| IssService.HistoricalLookupAsWrittenIgnoresStore | internal/services/iss_service.go:76 | even with a row at exactly the queried instant, where the intended lookup finds it, the raw query as written fails |
| IssService.PositionCache.GetHistoricalPositionAsWritten | internal/services/iss_service.go:65-93 | as written: outside the window the retention error; inside it always exactly one provider request, even when a stored sample lies within 60 s; failure wrapped with the table unchanged, success inserted if absent and the stored row returned |
| IssService.PositionCache.constructor | internal/services/iss_service.go:28-36 | a new service adopts the table the database already holds, ascending with positive, distinct ids below the next id, and its next id, unchanged |
| IssService.PositionCache.TimestampsUnique | internal/models/iss.go:16 | no two stored positions share a timestamp |
| IssService.PositionCache.InsertIfAbsent | internal/services/iss_service.go:233 | the table becomes the insert-if-absent result; the id advances only when a row is created; the invariant is kept |
| IssService.PositionCache.GetCurrentPosition | internal/services/iss_service.go:38-63 | a hit (newest row no older than now−30) is returned converted with no fetch and no change; otherwise the requested-units URL is fetched once, a failure is the wrapped error with the table unchanged, a success is inserted if absent and the stored row returned |
| IssService.PositionCache.GetHistoricalPosition | internal/services/iss_service.go:65-93 | outside [now−14400, now+14400] the retention error with no fetch and no change; a nearest row within 60 s is returned converted with no fetch; otherwise fetch, wrap errors, insert if absent and return the stored row |
| IssService.PositionCache.GetPositionsInRange | internal/services/iss_service.go:95-113 | exactly the stored rows with start ≤ ts ≤ end, strictly ascending, each converted; reads only |
| IssService.PositionCache.GetStatistics | internal/services/iss_service.go:115-149 | row count, latest row and timestamp, oldest timestamp, rows of the last hour, and coverage exactly when the table is not empty |
| IssService.PositionCache.CollectData | internal/services/iss_service.go:225-244 | fetches the current sample in kilometres; a failure leaves the table unchanged; a success is inserted if absent and reports whether a row was created |
| IssService.PositionCache.CleanupOldData | internal/services/iss_service.go:257-270 | the table becomes exactly its rows with ts ≥ now−8·3600, in order; reports how many were removed |
| Decimal.NatToString | internal/services/iss_service.go:155 | a non-empty string of decimal digits |
| Decimal.DigitsValueOfNatToString | internal/services/iss_service.go:155 | reading back the printed digits gives the number |
| Decimal.NatToStringInjective | internal/services/iss_service.go:155 | distinct numbers print differently |
| Decimal.IntToString | internal/database/database.go:133-139 | a non-empty string, with a leading minus exactly for negative numbers, and digits otherwise |
| Decimal.ParseInt64 | internal/handlers/iss_handlers.go:66 | accepts exactly an optional sign followed by at least one digit whose signed value is in the 64-bit range (the range is checked after the sign, so −2^63 is accepted and +2^63 is not); the result is that signed value |
| Decimal.ParseZeroPadded | internal/handlers/iss_handlers.go:66 | any sign and any number of leading zeros are accepted: sign, zeros, then the digits of n read as ±n when in range, and are rejected otherwise |
| Decimal.ParseIntToString | internal/handlers/iss_handlers.go:66 | every 64-bit integer printed in decimal parses back to itself |
| IssHandlers.NormalizeUnits | internal/handlers/iss_handlers.go:37-40 | the result is "miles" iff the input is exactly "miles", and "kilometers" otherwise |
| IssHandlers.CurrentReply | internal/handlers/iss_handlers.go:42-48 | 500 iff the service failed, otherwise 200 with the position |
| IssHandlers.HistoricalPathQuery | internal/handlers/iss_handlers.go:65-75 | 400 iff the path does not parse as a 64-bit integer; otherwise the parsed timestamp and the normalised units |
| IssHandlers.HistoricalPathRoundTrip | internal/handlers/iss_handlers.go:65-70 | every 64-bit timestamp in decimal reaches the service unchanged |
| IssHandlers.PostHistoricalQuery | internal/handlers/iss_handlers.go:202-217 | undecodable body is 400 "Invalid JSON"; timestamp 0 is 400 "Missing timestamp"; otherwise proceed with the timestamp and normalised units |
| IssHandlers.HistoricalReply | internal/handlers/iss_handlers.go:77-92 | 400 iff the error is exactly the retention text; 500 iff any other error; 404 iff no position; 200 with the position otherwise |
| IssHandlers.ServiceErrorsClassified | internal/handlers/iss_handlers.go:78-84 | the service's retention error maps to 400 and a wrapped fetch error, whatever its detail, to 500 |
| IssHandlers.Int64Sub | internal/handlers/iss_handlers.go:134 | the 64-bit difference is in range, congruent to the exact difference modulo 2^64, and exact when no wrap occurs |
| IssHandlers.RangeQueryAsWritten | internal/handlers/iss_handlers.go:109-142 | as written: a missing bound is 400 before parsing; proceed iff both parse, start < end and the wrapped 64-bit span is ≤ 86400; a span that passes is either within 24 hours or wider than the 64-bit range |
| IssHandlers.RangeSpanCheckOverflows | internal/handlers/iss_handlers.go:134-137 | as written, start = −2^63 and end = 0 pass the 24-hour check although the span is 2^63 s |
| IssHandlers.RangeQuery | internal/handlers/iss_handlers.go:109-142 | a missing bound is 400 before any parsing; proceed iff both parse, start < end and end − start ≤ 86400, with the parsed bounds and normalised units; every rejection is 400 |
| IssHandlers.RangeQueryAsWrittenAgreesWithoutOverflow | internal/handlers/iss_handlers.go:134 | where the difference fits in 64 bits the guard as written equals the intended one |
| IssHandlers.RangeSpanBoundary | internal/handlers/iss_handlers.go:134-137 | a span of exactly 86400 s is accepted and 86401 s is rejected |
| IssHandlers.RangeReply | internal/handlers/iss_handlers.go:144-150 | 500 iff the service failed, otherwise 200 with the positions |
| IssHandlers.HistoricalAnswerStatus | internal/handlers/iss_handlers.go:77-92 | once past the guard: 400 iff the timestamp is outside the window; otherwise 200 or 500, never 404; a 200 costs at most one provider request |
| IssHandlers.AnswerHistorical | internal/handlers/iss_handlers.go:77-92 | the reply, requests and new table are those `HistoricalAnswer` fixes: 400 "Timestamp out of range" outside the window with no fetch and no change; the nearest stored sample converted; otherwise one fetch whose failure is a 500 with the wrapped error and whose sample is stored and returned; never 404 |
| IssHandlers.GetHistoricalPosition | internal/handlers/iss_handlers.go:64-93 | an unparsable path is 400 and the service is not called; otherwise the answer `HistoricalAnswer` fixes for the parsed timestamp and normalised units |
| IssHandlers.PostHistoricalRequest | internal/handlers/iss_handlers.go:201-235 | a guard rejection is answered without calling the service; otherwise the answer `HistoricalAnswer` fixes for the body's timestamp and normalised units |
| IssHandlers.GetPositionsInRange | internal/handlers/iss_handlers.go:108-151 | 200 iff the guard accepts, then element by element the stored rows of the range, ascending, each converted to the normalised units; otherwise 400 |
| Middleware.TrimPrefix | internal/server/middleware.go:23 | one copy of the prefix removed when present, the string unchanged otherwise |
| Middleware.ParseAuthorization | internal/server/middleware.go:17-27 | missing iff the header is empty; bad format iff non-empty without the exact "Bearer " prefix; otherwise the header is "Bearer " + token |
| Middleware.ParseBearerToken | internal/server/middleware.go:23 | exactly one leading "Bearer " is removed, whatever follows |
| Middleware.BareBearerHasEmptyToken | internal/server/middleware.go:23-24 | the header "Bearer " passes the format check with an empty token |
| Middleware.Authorize | internal/server/middleware.go:15-38 | 401 with the missing / format / invalid-token errors in that order; forwarded iff the prefixed token validates, carrying its username |
| Middleware.ForwardedExactlyWithValidBearer | internal/server/middleware.go:29-36 | for "Bearer " + t the verdict is decided by validating t alone |
| CrewService.IssOnlyAppend | internal/services/crew_service.go:53-58 | filtering distributes over concatenation, so relative order is kept |
| CrewService.IssOnlyCounts | internal/services/crew_service.go:53-58 | every ISS entry is kept as many times as it occurs, every other entry dropped |
| CrewService.IssOnlyAllIss | internal/services/crew_service.go:55 | only entries with craft "ISS" remain |
| CrewService.IssOnlyKeepsIssList | internal/services/crew_service.go:53-60 | an all-ISS list passes unchanged |
| CrewService.FilterIssCrew | internal/services/crew_service.go:53-58 | the loop computes the ISS-only subsequence |
| CrewService.GetCurrentCrew | internal/services/crew_service.go:31-63 | request, read, non-200 (whatever the body) and parse failures in that order with their messages; otherwise the ISS-only people with the message unchanged |
| CrewService.PortraitUrl | internal/services/crew_service.go:99-120 | success iff status 200, body read and payload decoded; a non-200 status reports the status line |
| CrewService.ImageUrl | internal/services/crew_service.go:74-77 | the portrait URL, or "" when the lookup failed |
| CrewService.GetCurrentCrewWithPhotos | internal/services/crew_service.go:65-89 | fails iff the crew fetch fails; otherwise one entry per ISS member, same names and order, with the portrait URL or "", and the message unchanged |
| Database.KeyNamesDistinct | internal/database/database.go:113-167 | the report's keys have distinct names |
| Database.PoolReport | internal/database/database.go:129-139 | "up", the default message and the seven pool statistics in decimal |
| Database.Stale | internal/database/database.go:166 | stale iff now is strictly more than 120 s after the sample, so exactly 120 s is not stale |
| Database.OverrideMessage | internal/database/database.go:141-155 | the message becomes the one of the last override that applies (load, wait, idle, lifetime); every other entry keeps its value |
| Database.AddIssData | internal/database/database.go:157-169 | count and latest timestamp appear iff their queries succeeded; the warning appears iff the latest sample is stale; every other entry keeps its value |
| Database.UpReport | internal/database/database.go:129-169 | for a reachable database: exactly the pool keys and the ISS-data keys, the pool statistics, the chosen message and the ISS-data entries |
| Database.Health | internal/database/database.go:112-172 | a handle or ping failure gives exactly status "down" and the error; otherwise "up", the pool statistics, the chosen message and the ISS-data entries |
| Database.HealthyExactlyWhenNoCondition | internal/database/database.go:130-155 | "It's healthy" iff no condition holds; the load message iff load is the only condition |
| Database.ThresholdsAreStrict | internal/database/database.go:141-153 | a pool exactly at every threshold is healthy, one more open connection is heavy load |
| Database.IdleThresholdRoundsDown | internal/database/database.go:149 | Open/2 rounds down: 3 open and 2 idle-closed already count as many |

## Left out

- HTTP transport and JSON are replaced by `Http.Reply`. This covers `client.Get`, body reading, unmarshalling and response writing. The timeout constants are not modelled.
- gorm and SQL are replaced by the in-memory table. Connection setup, migration and indexes are not modelled. The in-memory table never fails, so the database-error paths of the service are not modelled.
- Goroutines and tickers are not modelled; each tick is one method call. The collector runs once before its first tick, and the cleanup loop waits a full hour before its first run.
- Floating point: magnitudes are `real`, so float rounding is not modelled.
- Column scales: the table stores the magnitudes in fixed-scale decimal columns (internal/models/iss.go:10-19, e.g. altitude with 5 and footprint with 4 decimals), so a row read back from the table carries rounded values, not the fetched ones. The model stores and returns the values unrounded.
- Time formatting: RFC 3339 output is not modelled. Statistics keep Unix seconds, and the health report takes a formatting function.
- 64-bit integers: timestamps are unbounded integers. The one place where int64 wrap-around matters, the range handler's span check, is modelled explicitly.
- `CreatedAt` and `UpdatedAt` are not modelled.
- The assembly of the `/iss/status` response and the wiring code (routes, server) are not modelled.
- Blog, auth and user code is plain create/read/update/delete and is not modelled. Token validation is a parameter of `Middleware.Authorize`. `internal/handlers/post.go:81` calls `CreatePost` with 2 arguments, but `internal/services/post.go:17-20` declares 9 parameters.
- NASA image search: the query-string encoding is not modelled; the lookup is a function of the astronaut's name. The unchecked `Items[0].Links[0]` indexing is not modelled: the decoded payload stands for that link.
- CrewService.GetCurrentCrew: when no one is aboard the ISS, Go leaves the people list nil, which encodes as JSON `null` rather than `[]`. The model has the empty sequence.
- CrewService.GetCurrentCrewWithPhotos: the same holds for its list (internal/services/crew_service.go:71); the model has the empty sequence.
- IssService.RawNearestQuery: a helper that assumes the database holds the `iss_positions` table and no other, so a raw query naming any other table errs.
- IssService.PositionCache.GetHistoricalPosition: uses the intended table (see Findings); the code as written is `GetHistoricalPositionAsWritten`. Even with the table name corrected, gorm's `Raw(...).Scan` reports no error when no row matches. The code would then return an empty position instead of fetching. The model takes the fetch fallback that the code's structure evidently intends.
- IssHandlers.AnswerHistorical, IssHandlers.GetHistoricalPosition, IssHandlers.PostHistoricalRequest: call the intended `PositionCache.GetHistoricalPosition`, with the nearest-sample lookup. The code as written always fetches (`GetHistoricalPositionAsWritten`), but no handler is built on that version, so the as-written historical read is not modelled end to end through the handlers.
- IssHandlers.GetPositionsInRange: uses the intended guard `RangeQuery`, with the exact span. The guard as written, `RangeQueryAsWritten`, is modelled and compared with it, but no handler is built on it, so a wrapped span reaching the service is not modelled end to end.
- IssService.PositionCache.GetStatistics: the count is `int64` and the timestamps are formatted strings in the source. The model keeps a natural number and Unix seconds.

## Findings

| source | as written | input that shows it | evidently intended | confidence | as-written member | corrected member |
|---|---|---|---|---|---|---|
| internal/services/iss_service.go:76 | the historical raw query selects from `positions`, but the table is `iss_positions` (internal/models/iss.go:25-27), so the lookup errs and every historical read goes upstream | any historical query with a stored row at exactly that timestamp | nearest stored sample within ±60 s from `iss_positions` | not executed | IssService.PositionCache.GetHistoricalPositionAsWritten | IssService.PositionCache.GetHistoricalPosition |
| internal/handlers/iss_handlers.go:134 | `endTime-startTime` is computed in int64 and wraps, so a span of 2^63 s or more can pass the 24-hour check | start_time=-9223372036854775808, end_time=0 | reject every span over 86400 s | not executed | IssHandlers.RangeSpanCheckOverflows | IssHandlers.RangeQuery |
