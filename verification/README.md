# One keyset-pagination contract, two servers: a Dafny verification

The repository serves a table of transactions page by page, twice: once in Go, once in Spring Boot. A page ends
with an opaque token; the token carries the sort key `(created_at, id)` of the last row returned, is signed, bound
to the filters of the request, and may be handed to either server. This project models the stack in three layers
and proves that they compose.

- **The walk.** `Domain`, `Relational`, `Queries` give the SQL statements a relational meaning, and `PageContents`
  says what they return in nothing but columns. `Walk` is one page
  step on raw bounds, `WalkMachine` the state machine that interleaves page steps with insertions and deletions,
  `StillTable` a walk nobody disturbs. `IndexScan` reads the pages from a sorted array. `Drift`, `OffsetListing` and
  `InterruptedWalk` are the contrasting OFFSET endpoint and the exact price of its drift. `WalkLoops` holds the
  client loops of the two integration suites.
- **The token.** `Decimal`, `Calendar`, `Timestamp`, `Bytes` (UTF-8), `Base64Url`, `Json`, `Payload` and `Seal` are
  printers and parsers that undo each other, under `GoCursor` and `JavaCodec`. `CivilTime` and `WireFormat` fix the
  text they print, literal by literal, and `Leniency` what the readers take besides.
- **The service.** `Service` is the page step of both servers, `Tokens`, `Filters`, `Expiry` and `Agreement` what a
  token means across them, `Requests` which requests reach them. `TokenWalk` joins the layers: a client that holds
  nothing but its last token, two servers it may switch between at any page, writers and a clock. Every run of
  `TokenWalk` is a run of `WalkMachine`, so no drift is proved at the API surface. `ServerSwitch` compares whole runs
  on one server and on two, and `Stranded` is what years beyond 9999 do to them.

HMAC-SHA256 and SHA-256 are arbitrary functions with 32-byte results; no statement depends on what they compute.
Instants are integers (microseconds in rows, nanoseconds in cursors and clocks). A fetch reads one snapshot, since
each page is one statement. The clock and the table are parameters of the operations.

`dafny verify dfyconfig.toml` checks the project.

## What the proofs found

- Go formats years below 0 and above 9999, and cannot parse what it wrote, though Java reads the negative ones; Java
  writes a `+` above 9999 that Go neither writes nor reads. `Timestamp.TimestampTravels`, `Tokens.TokensAgree` and
  `Agreement.ResumeAfterIssue` give the exact years for which tokens work, by writer and reader. `Stranded.OnePageStrands` is a two-row table on
  which this happens, and `Stranded.StrandedForEver` its price: the walk can never finish, on either server.
- Go's expiry test subtracts and saturates and skips a `ttl` of 0 or less; Java's adds. `Expiry.TestsAgree` gives
  the exact condition under which they decide alike.
- The Go repository tests the account filter with `> 0`, the Java one with `!= 0`: `Queries.RepositoriesAgree`.
  `Requests.RequestsReachServable` shows that no request the Go handler accepts can tell them apart.
- The rank of an OFFSET page is a machine product, 64 bits wide in Go and 32 in Java. `OffsetListing.RankIsHonoured`
  says exactly which page numbers get the page they ask for, and `OffsetListing.WrappedRankRepeatsFirstPage` names
  one accepted page number on each server that gets the first rows instead of none.
- A direction that contradicts its own fingerprint is `ErrFilterMismatch` in Go and `InvalidCursorException` in
  Java. `Agreement.ServersAgree` proves it is the only difference; `Agreement.ForeignTokenNeedsCollision` that it
  takes a collision of the truncated hash to get there, and `Agreement.DirectionCheckNeedsCollision` the same at the
  branch itself, on either server.
- `status` is part of the fingerprint and of no statement, in both implementations (`Walk.Matches` has no `status`).

## Model

| member | source | states |
|---|---|---|
| TokenWalk.NoDrift | go/internal/service/transactions.go:42-98 | over every run of requests, refusals, server switches, inserts, deletes and clock ticks: once `next` is empty, a row present throughout has been returned exactly once if no account was asked for or it is the row's, never otherwise |
| TokenWalk.ArrivalDuringWalk | go/internal/service/transactions.go:42-98 | a row inserted during the walk and kept to its end is returned exactly once if it matches and sorts after the last row returned when it arrived, never otherwise |
| TokenWalk.ArrivalBehindNeverReturned | go/internal/service/transactions.go:42-98 | a row inserted behind the last row returned, or one that does not match, is returned at no later moment of any run, finished or not, whether the row is kept or deleted |
| TokenWalk.NothingRepeats | go/internal/service/transactions.go:56-95 | at every moment of every run no id has been returned twice, and the rows returned are strictly ordered by `created_at`, then by `id`, in the direction of the sort |
| TokenWalk.RunRefines | go/internal/service/transactions.go:56-95 | every run over opaque tokens is a run of the walk on raw bounds: a refused request is a stuttering step, an accepted one a fetch |
| TokenWalk.StepRefines | go/internal/service/transactions.go:83-97 | one step of the token walk keeps the invariant (the client's token was issued for exactly the last row returned) and is one abstract step or none |
| TokenWalk.ResponseIsPage | go/internal/service/transactions.go:56-81 | a server answers the page at the client's true position if the token's year is one it can read and the token has not expired, and refuses otherwise: both directions |
| TokenWalk.MixedServersStillTable | spring-boot/src/main/java/fr/clevertechware/pagination/service/TransactionService.java:29-38 | on a still table, whichever server answers each page and with whatever limits, a finished walk has returned the sorted listing, which holds exactly the rows of the account asked for |
| ServerSwitch.MixedWalkIsOneServerWalk | spring-boot/src/main/java/fr/clevertechware/pagination/service/TransactionService.java:29-93 | two timely walks of one still table of shared years with the same limits, one choosing a server for each page and one staying on a single server: every request of both is answered, with the same rows and the same `has_more`, the same rows returned so far at every moment, and the end at the same request |
| ServerSwitch.SwitchingIsInvisible | spec/contract.md:3-9 | any two answered walks of one still table with the same limits, whatever servers and delays, agree at every moment on the rows returned, the position and the end |
| ServerSwitch.SamePages | spring-boot/src/main/java/fr/clevertechware/pagination/service/TransactionService.java:29-38 | and answer by answer on rows, `has_more` and the absence of a token |
| TokenWalk.TimelyRequestsAreAnswered | go/pkg/cursor/cursor.go:132-135 | the step of it: a timely request in a state that keeps the invariant is refused by neither server |
| ServerSwitch.TimelyRunIsAnswered | go/pkg/cursor/cursor.go:132-135 | over every run with rows of years 0 to 9999, whichever servers are asked and whatever writers do, a client that asks before the last second of its token is answered at every request |
| ServerSwitch.TimelyWalkEnds | go/internal/service/transactions.go:83-97 | such a client, with no matching row inserted ahead of it, makes at most (matching rows + 1) requests, and once it has made that many it has been told the end |
| TokenWalk.WalkTerminates | go/internal/service/transactions.go:83-97 | under any deletions and any insertions not ahead of the walk, at most (matching rows + 1) requests are answered, and a client that got that many is at the end |
| WalkMachine.NoDrift | go/internal/postgres/walk_test.go:34-68 | the same safety on raw bounds, for every run and every direction: rows present throughout are handed out once |
| WalkMachine.NothingRepeats | go/internal/postgres/queries.go:45-97 | in every reachable state the keys handed out are strictly monotonic in the walk's order and no id repeats, even if all `created_at` are equal |
| WalkMachine.ArrivalDuringWalk | go/internal/postgres/walk_test.go:36-39 | at the end of a walk, a row inserted during it and kept has been handed out once if it matched and arrived ahead of the position, and never otherwise |
| WalkMachine.ArrivalBehindNeverReturned | go/internal/postgres/walk_test.go:36-39 | an insertion behind the position, or of a row that does not match, is handed out at no later moment of any run, ended or not, kept or not |
| WalkMachine.ArrivalAheadIsDue | go/internal/service/transactions.go:83-97 | at every later moment up to which it was kept, a matching insertion ahead of the position has been handed out once if the walk went past it and not yet otherwise |
| WalkMachine.StillTableListing | go/internal/service/transactions.go:83-97 | rows handed out followed by rows remaining are the whole listing at every moment of a walk over a still table, whatever the limits |
| WalkMachine.StillWalksAgree | go/internal/service/transactions.go:83-97 | two walks over one still table that fetch pages of the same limits are at the same position with the same rows at every moment |
| WalkMachine.WalkTerminates | go/internal/service/transactions.go:83-97 | fetches so far plus the remaining fuel never exceed the initially matching rows plus one, if insertions only land behind |
| Walk.FirstPageIsHead | go/internal/postgres/transactions.go:32-41 | the variant chosen by direction and account filter lists exactly the head of the walk |
| Walk.NextPageIsTail | go/internal/postgres/transactions.go:46-55 | the variant with the bound lists exactly the matching rows past the bound, in order |
| PageContents.FirstPageSelects | go/internal/postgres/queries.go:39-57 | a first page as large as the table holds exactly the rows of the account asked for, or all rows |
| PageContents.FirstPageInOrder | go/internal/postgres/queries.go:39-90 | for every limit, in columns: which rows may be on the page, strictly ordered by `created_at` then `id`, full if any row is left out, and every row left out comes after |
| PageContents.NextPageSelects | go/internal/postgres/queries.go:45-65 | a next page as large as the table holds exactly the rows of the account strictly past the bound, compared on `created_at` and then on `id` |
| PageContents.NextPageInOrder | go/internal/postgres/queries.go:45-97 | for every limit, in columns: the rows of a next page lie past the bound and are strictly ordered |
| PageContents.NextPageLeavesOut | go/internal/postgres/queries.go:45-97 | a row past the bound and not on the page makes it a full page, and comes after each of its rows |
| PageContents.JavaFetchSelects | spring-boot/src/main/java/fr/clevertechware/pagination/repository/TransactionQueries.java:24-62 | the same selection for the four Java statements |
| PageContents.JavaFetchInOrder | spring-boot/src/main/java/fr/clevertechware/pagination/repository/TransactionQueries.java:24-62 | the same order for the four Java statements |
| PageContents.JavaFetchLeavesOut | spring-boot/src/main/java/fr/clevertechware/pagination/repository/TransactionQueries.java:24-62 | the same for the rows the Java statements leave out |
| PageContents.OffsetPageSelects | go/internal/postgres/queries.go:110-123 | at rank 0 and as large as the table, the offset page is exactly the rows of the account, newest first |
| PageContents.OffsetPageIsSlice | go/internal/postgres/queries.go:110-123 | at any rank it is that slice of the whole selection |
| Walk.RemainingAfterRank | go/internal/postgres/queries.go:33-37 | resuming after the i-th listed row leaves exactly the rows listed after it |
| Walk.PagePartitions | go/internal/service/transactions.go:83-95 | a page and what remains after it partition what remained before, by set and by count |
| Walk.HasMoreIsExact | go/internal/service/transactions.go:122-128 | the walk goes on after a page iff some matching row past the position is not on the page |
| Queries.BoundSelectsWhatFollows | go/internal/postgres/queries.go:33-37 | a tuple comparison selects what follows the bound iff both ORDER BY columns move in its direction, over all four orders and both operators; and what it compares, in columns |
| Queries.RepositoriesAgree | spring-boot/src/main/java/fr/clevertechware/pagination/repository/TransactionQueries.java:24-62 | the Java statements return what the Go ones return on every table, bound and limit, iff the account id is not negative |
| Queries.Collect | go/internal/postgres/transactions.go:97-119 | the row loop returns every scanned row in order, or the error of the first row that does not scan, or of the iteration |
| Relational.OrderByUnique | go/internal/postgres/walk_test.go:106-135 | ORDER BY on `(created_at, id)` leaves no choice: a strictly sorted listing of a table with unique ids is the listing |
| Service.List | go/internal/service/transactions.go:42-98 | for every token, clock and database state the Go service returns the reference answer: the checks in order, then the page at the resumed position and a token for its last row |
| Service.CheckCursor | go/internal/service/transactions.go:59-77 | the cursor checks yield the bound the reference reading yields, or its error |
| Service.PageTellsTheEnd | go/internal/service/transactions.go:83-97 | at most `limit` rows, exactly `limit` if there is more, and `has_more` iff `next` is not empty iff a matching row past the position is not on the page |
| Service.FailureIsNotTheEnd | go/internal/service/transactions.go:79-81 | a failing database is an error on every token and never a page; it is reported as such unless the token is refused first, exactly as on a live database |
| Service.ExtraRow | go/internal/service/transactions.go:122-128 | trimming `limit + 1` fetched rows gives the page of `limit` rows and decides whether the walk ends, with the bound of the last row kept |
| Service.JavaListIsListed | spring-boot/src/main/java/fr/clevertechware/pagination/service/TransactionService.java:29-93 | the Java page step returns the same reference answer, with an absent token for the end of the walk |
| Agreement.ResumeAfterIssue | go/internal/service/transactions.go:56-95 | replaying a token on its query, on either server, resumes at exactly the bound it was issued for, or fails with the one error that its age or its year dictates |
| Agreement.ReplayOutcome | spring-boot/src/main/java/fr/clevertechware/pagination/service/TransactionService.java:64-73 | the complete outcome of replaying any issued token under any query, error by error and in order |
| Agreement.ForeignTokenNeedsCollision | go/internal/service/transactions.go:64-66 | a readable, unexpired token issued for other filters and not answered by a filter mismatch exhibits a collision of the truncated hash |
| Agreement.DirectionCheckNeedsCollision | go/internal/service/transactions.go:67-72 | on either server, an issued token that reads, has the fingerprint asked for and contradicts the direction asked for exhibits a collision of the truncated hash: the branch is unreachable without one |
| Agreement.AnswersAgree | spec/contract.md:3-9 | both servers answer the same rows, the same `has_more` and the same token bytes for rows of years 0 to 9999 |
| Agreement.ServersAgree | spec/contract.md:3-9 | for a first page or any token either server issued, both accept alike, answer alike and fail alike, but for the name of the direction error |
| Tokens.IssuedTokenReads | go/pkg/cursor/cursor.go:87-144 | whichever implementation wrote a token and whichever reads it: the position floored to the microsecond and the date floored to the second, or expiry, or refusal exactly for the years not shared |
| Tokens.ReissueIsIdentity | go/pkg/cursor/cursor.go:87-94 | encoding what was decoded gives the same token |
| Tokens.AcceptedIsSealed | go/pkg/cursor/cursor.go:106-120 | of all texts a client may send, either reader accepts, or calls expired, only the MAC of a payload followed by that payload |
| Tokens.SealedTextReads | go/pkg/cursor/cursor.go:106-144 | for any text whose seal verifies: refused unless its payload reads, is of version 1 and has a timestamp (and, in Java, a fingerprint); expired past its date; otherwise each field of the cursor is the payload's |
| Tokens.AcceptedIffVersion1 | spring-boot/src/main/java/fr/clevertechware/pagination/cursor/CursorCodec.java:64-117 | a text is accepted iff it is a seal over an unexpired payload of version 1 with a timestamp the reader parses |
| Tokens.ClockOnlyExpires | spring-boot/src/main/java/fr/clevertechware/pagination/cursor/CursorCodec.java:64-80 | for any text at all, the later reading is the earlier one, or an accepted token has expired |
| Tokens.TokensAgree | spring-boot/src/main/java/fr/clevertechware/pagination/cursor/CursorCodec.java:55-62 | both implementations issue the same bytes iff the year is at most 9999 |
| Expiry.TestsAgree | spring-boot/src/main/java/fr/clevertechware/pagination/cursor/CursorCodec.java:127-132 | the subtracting and the adding expiry test agree at every instant iff the `ttl` is positive and below the largest Duration, or the deadline has not passed |
| Expiry.TestsWrittenOut | go/pkg/cursor/cursor.go:132-135 | both tests as comparisons of nanoseconds, and the `ttl` values for which Go never expires |
| Expiry.LifeOfToken | go/pkg/cursor/cursor.go:132-135 | a token is accepted up to one second short of its `ttl` and refused past it |
| Expiry.ExpiryIsFinal | go/pkg/cursor/cursor.go:132-135 | an expired token stays expired as the clock advances |
| Filters.PreimageIsInjective | go/pkg/cursor/cursor.go:60-66 | the hashed text of account, status and sort, bar-separated, determines all three filters, including statuses that contain a bar |
| Filters.FingerprintBinds | go/pkg/cursor/cursor.go:63-66 | two queries have the same fingerprint iff they are equal or their preimages collide on the first 8 bytes of the hash |
| Filters.FingerprintsAgree | spring-boot/src/main/java/fr/clevertechware/pagination/cursor/FilterFingerprint.java:26-30 | both implementations compute the same fingerprint |
| WireFormat.FingerprintWrittenOut | go/pkg/cursor/cursor.go:60-66 | on both servers: base64url of the first 8 bytes of the hash of account, status and sort text, with bars between |
| GoCursor.WriteJSONString | go/pkg/cursor/cursor.go:192-215 | the rune loop appends the quoted escaped string, for every string of Unicode scalar values |
| GoCursor.CanonicalPayload | go/pkg/cursor/cursor.go:165-183 | the builder ends with the canonical object of the six members |
| WireFormat.PayloadWrittenOut | go/pkg/cursor/cursor.go:157-183 | the signed text of either server, character by character, with microseconds, seconds, keys and version as literals |
| WireFormat.FirstPayload | spec/cursor-vectors.json:4-14 | the first conformance vector's payload, from either server |
| WireFormat.SecondPayload | spec/cursor-vectors.json:15-25 | the second vector's payload |
| WireFormat.ThirdPayload | spec/cursor-vectors.json:26-36 | the third vector's payload |
| WireFormat.TokenWrittenOut | spring-boot/src/main/java/fr/clevertechware/pagination/cursor/CursorCodec.java:55-62 | a token is base64url of the MAC of the payload and the payload |
| GoCursor.Encode | go/pkg/cursor/cursor.go:87-94 | the token is the base64url text of the MAC and the payload |
| GoCursor.DecodeAt | go/pkg/cursor/cursor.go:106-144 | the checks in the order of the code give the reference reading of the token |
| JavaCodec.Encode | spring-boot/src/main/java/fr/clevertechware/pagination/cursor/CursorCodec.java:55-62 | the array filled by two copies is the MAC followed by the payload |
| JavaCodec.ArrayCopy | spring-boot/src/main/java/fr/clevertechware/pagination/cursor/CursorCodec.java:59-60 | copying replaces exactly the target range and keeps the rest |
| JavaCodec.JavaPayloadIsCanonical | spring-boot/src/main/java/fr/clevertechware/pagination/cursor/CursorCodec.java:82-98 | the writer that never escapes writes the canonical payload iff the fingerprint needs no escaping |
| Payload.CanonicalReadsBack | go/pkg/cursor/cursor.go:146-183 | either reader gets the six values back from the canonical bytes, for every string and every 64-bit number |
| Json.CharsReadBack | go/pkg/cursor/cursor.go:192-215 | reading an escaped string up to the first unescaped quote gives the string back and stops at its closing quote, whatever follows |
| Json.ObjectReadsBack | go/pkg/cursor/cursor.go:157-183 | a printed object is read back member by member, so it splits in one way only |
| WireFormat.EscapesWrittenOut | go/pkg/cursor/cursor.go:192-215 | the escape of each character, as literals |
| Leniency.ShortEscapes | go/pkg/cursor/cursor.go:122-125 | the readers take the eight two-character escapes and no other |
| Leniency.ReadsIffAcceptable | spring-boot/src/main/java/fr/clevertechware/pagination/cursor/CursorCodec.java:100-117 | an object reads iff each member has its field's type and range, and for Java a known key |
| Leniency.AnyKeyOrder | go/pkg/cursor/cursor.go:146-155 | both readers get the same six values from the members in any order |
| Json.EscapeIsIdentity | spring-boot/src/main/java/fr/clevertechware/pagination/cursor/CursorCodec.java:82-87 | escaping leaves a string alone iff it has no quote, backslash or control character |
| Seal.UnsealToken | go/pkg/cursor/cursor.go:106-120 | both base64 libraries and the 32-byte split recover exactly the payload that was sealed |
| Base64Url.RoundTrip | go/pkg/cursor/cursor.go:93-107 | decoding inverts encoding on every byte string |
| Base64Url.LibrariesReadEncoded | spring-boot/src/main/java/fr/clevertechware/pagination/cursor/CursorCodec.java:134-140 | Go's and Java's decoders both invert it, with what each tolerates besides |
| Base64Url.ReencodesIffSpareBitsClear | go/internal/service/transactions_test.go:361-366 | a text is the encoding of what it decodes to iff its trailing spare bits are zero |
| WireFormat.AlphabetWrittenOut | go/pkg/cursor/cursor.go:93-93 | the alphabet, as literals |
| WireFormat.SextetsWrittenOut | go/pkg/cursor/cursor.go:93-93 | each sextet is the next six bits of the bytes, from the high end, zero-padded |
| WireFormat.EncodingWrittenOut | go/pkg/cursor/cursor.go:93-93 | one symbol for each sextet, in order, and how many |
| Leniency.DecodesIff | go/pkg/cursor/cursor.go:107-110 | a text decodes iff it has only symbols and no lone last one |
| WireFormat.GoSkipsLineBreaks | go/pkg/cursor/cursor.go:107-107 | Go decodes a text as if its line breaks were not there |
| WireFormat.JavaTakesPadding | spring-boot/src/main/java/fr/clevertechware/pagination/cursor/CursorCodec.java:134-140 | Java decodes a padded text as the unpadded one |
| Leniency.RefusedByTheOther | spring-boot/src/main/java/fr/clevertechware/pagination/cursor/CursorCodec.java:134-140 | Go refuses padding and Java refuses line breaks |
| Bytes.Utf8RoundTrip | go/pkg/cursor/cursor.go:88-88 | UTF-8 bytes determine the string, so equal payload bytes are equal payloads |
| WireFormat.Utf8WrittenOut | go/pkg/cursor/cursor.go:88-88 | the byte form of each scalar value, as literals |
| Timestamp.TimestampTravels | go/pkg/cursor/cursor.go:28-31 | parsing with either layout what either layout printed gives the very instant for the years the pair shares and fails for all others |
| Stranded.OnePageStrands | go/pkg/cursor/cursor.go:127-130 | the input on which Go cannot read its own token: two rows of the year 10000, one a page; the first page is answered and the token it hands out is for a year no reader takes from Go |
| Stranded.StrandedForEver | go/internal/service/transactions.go:88-94 | a client holding a Go token for a row of a year above 9999 is refused by both servers at every later moment of every run, is handed nothing more, and never reaches the end |
| Stranded.RefusedByBothIffStranded | go/internal/service/transactions.go:59-63 | among clients whose token is fresh, both servers refuse iff the token was written by Go for a year above 9999 |
| Stranded.InstantOfYear10000 | go/pkg/cursor/cursor.go:28-31 | the instant 253402300800 s after the epoch is in the year 10000 |
| Timestamp.WritersAgree | spring-boot/src/main/java/fr/clevertechware/pagination/cursor/CursorCodec.java:34-35 | both layouts print an instant alike iff its year is at most 9999 |
| Timestamp.TextOrderIsTimeOrder | go/pkg/cursor/cursor.go:28-31 | in years 0 to 9999 the text has 27 characters and its order is chronological order |
| Timestamp.CivilRoundTrip | go/pkg/cursor/cursor.go:28-31 | date and time of day determine the microsecond, for every instant |
| CivilTime.EpochStarts1970 | go/pkg/cursor/cursor.go:28-31 | the 24 hours from instant 0 on are 1 January 1970 |
| CivilTime.NextDay | go/pkg/cursor/cursor.go:28-31 | a day later is the next date of the Gregorian calendar at the same time of day, at every instant, with the month lengths as literals |
| CivilTime.TimeOfDay | go/pkg/cursor/cursor.go:28-31 | hours, minutes, seconds and microseconds add up to the time since midnight |
| CivilTime.TimestampWrittenOut | spring-boot/src/main/java/fr/clevertechware/pagination/cursor/CursorCodec.java:34-35 | the layout of either writer for every year, field by field, with its sign |
| CivilTime.FirstVector | spec/contract.md:153-161 | the contract's example instant reads 2021-05-03T19:32:40.000000Z from either writer |
| Leniency.GoTakesShortHour | go/pkg/cursor/cursor.go:127-130 | Go reads an hour below ten on one digit, Java does not |
| Leniency.GoTakesComma | go/pkg/cursor/cursor.go:127-130 | Go reads a comma before the decimals, Java does not |
| Leniency.DaysPastTheMonth | spring-boot/src/main/java/fr/clevertechware/pagination/cursor/CursorCodec.java:119-125 | a day past its month is refused by Go and, up to the 31st, brought back to the last of the month by Java |
| Leniency.OnlyRealTimes | spring-boot/src/main/java/fr/clevertechware/pagination/cursor/CursorCodec.java:119-125 | no reader takes a month, hour, minute or second that is none |
| Calendar.DateOf | go/pkg/cursor/cursor.go:127-127 | every day number has a valid proleptic Gregorian date with that day number |
| Calendar.DateOfDayNumber | go/pkg/cursor/cursor.go:127-127 | every valid date is recovered from its day number |
| StillTable.PagesCoverListing | go/internal/service/transactions.go:83-97 | the pages of a whole walk put end to end are the sorted listing |
| StillTable.PageCount | go/internal/service/transactions.go:83-97 | the walk takes max(1, ceil(n / limit)) pages |
| StillTable.KeysetPageIsOffsetPage | go/internal/postgres/queries.go:107-123 | on a still table, descending keyset page p is the page at OFFSET p * limit |
| StillTable.AscendingWalkReversesDescending | spring-boot/src/test/java/fr/clevertechware/pagination/service/KeysetDriftIT.java:139-157 | an ascending walk returns the rows of the descending one in reverse, whatever the two page sizes |
| Drift.OffsetDriftLaw | go/internal/postgres/walk_test.go:70-104 | with k newer rows (k at most a page) after each page, an offset walk of P pages repeats exactly (P-1)k rows and never returns exactly as many of the first P pages of original rows |
| Drift.OffsetSkipLaw | spring-boot/src/test/java/fr/clevertechware/pagination/service/KeysetDriftIT.java:101-121 | with k newest rows deleted after each page, it repeats none and misses exactly (P-1)k of the original rows it went over |
| Drift.ArrivalsPage | go/internal/postgres/walk_test.go:84-90 | under arrivals of k a page, page p of L rows returns the original ranks p(L-k) to p(L-k)+L-1 |
| Drift.DeparturesPage | spring-boot/src/test/java/fr/clevertechware/pagination/service/KeysetDriftIT.java:109-118 | under departures of k a page, page p of L rows returns the original ranks from p(L+k) on |
| InterruptedWalk.OffsetWalk | spring-boot/src/test/java/fr/clevertechware/pagination/service/KeysetDriftIT.java:80-121 | the page-number loop, whatever changed after its first page, returns that page and then the changed listing from the same rank to its end |
| InterruptedWalk.HeadInsertionRepeats | spring-boot/src/test/java/fr/clevertechware/pagination/service/KeysetDriftIT.java:80-99 | k newer rows after the first page: exactly min(k, page size) rows are returned twice, every original row at least once |
| InterruptedWalk.HeadDeletionSkips | spring-boot/src/test/java/fr/clevertechware/pagination/service/KeysetDriftIT.java:101-121 | k newest rows deleted after the first page: nothing repeats, and exactly min(k, rows left) original rows are missed |
| OffsetListing.ListByOffset | go/internal/service/transactions.go:100-112 | the window of the newest-first listing at the 64-bit rank, with `has_more` for the rows beyond, or the database's refusal of a negative rank |
| OffsetListing.PageTellsTheEnd | go/internal/service/transactions.go:100-112 | for a rank that fits, the rows the statement returns at that rank, and `has_more` iff it returns one at the next page's rank |
| OffsetListing.FailureIsReported | go/internal/service/transactions.go:104-107 | an error iff the database fails or the rank wraps below zero, and always as the database's |
| OffsetListing.WrapWrittenOut | spring-boot/src/main/java/fr/clevertechware/pagination/domain/OffsetQuery.java:10-12 | the 64-bit and the 32-bit wrap, as literals |
| OffsetListing.JavaListByOffsetIsRankListed | spring-boot/src/main/java/fr/clevertechware/pagination/service/TransactionService.java:40-50 | the Java service answers the same window at its 32-bit rank |
| OffsetListing.RankIsHonoured | go/internal/service/transactions.go:104-104 | the page asked for is the page returned iff its rank fits the server's integers or wraps beyond the listing |
| OffsetListing.WrappedRankRepeatsFirstPage | spring-boot/src/main/java/fr/clevertechware/pagination/domain/OffsetQuery.java:10-12 | on each server, one page number whose rank wraps to 0 and is answered with the first rows |
| IndexScan.ScanForward | sql/01-schema.sql:12-18 | with an account filter in `idx_txn_acct`, without one in `idx_txn_created_id`: seeking and reading forward returns the descending page and visits at most `limit` entries |
| IndexScan.ScanBackward | go/internal/postgres/queries.go:68-98 | reading the same index backwards returns the ascending page, filtered or not, at the same price |
| IndexScan.FilterForward | go/internal/postgres/queries.go:11-25 | the bound as a filter returns the same page after rejecting exactly the selected entries not strictly past the bound |
| WalkLoops.KeysetWalk | go/internal/postgres/walk_test.go:40-68 | while rows arrive at the head between pages (and arrive they do), the loop collects exactly the rows of the initial table, newest first |
| WalkLoops.TokenDrivenWalk | spring-boot/src/test/java/fr/clevertechware/pagination/service/KeysetDriftIT.java:59-78 | the loop over the Java service's tokens, with `count` rows arrived after its first page, collects exactly the rows that matched when it began, newest first |
| WalkLoops.OffsetWalk | go/internal/postgres/walk_test.go:76-104 | the offset loop repeats, and misses, exactly the rows that arrived before its last page |
| WalkLoops.HeadInserter.Insert | go/internal/postgres/walk_test.go:148-159 | adds `count` rows, each later than every row there was |
| WalkLoops.DuplicatesIn | go/internal/postgres/walk_test.go:161-172 | lists exactly the ids that occur more than once, each once |
| WalkLoops.MissingFrom | go/internal/postgres/walk_test.go:174-187 | lists exactly the ids of 1 to `total` that were not seen, increasing |
| Requests.RequestsReachServable | go/internal/handler/requests.go:60-145 | the parameters some request yields are exactly: account id 0 or a positive 64-bit number, limit 1 to 100, any status, sort and token |
| Requests.PrintedReadsBack | go/internal/handler/requests.go:36-42 | printing servable parameters as a query string and binding it gives them back |
| Requests.OffsetRequestsReachServable | go/internal/handler/requests.go:44-124 | the offset parameters some request yields are exactly: account 0 or positive, page positive, both 64-bit, size 1 to 100 |
| Requests.OffsetPrintedReadsBack | go/internal/handler/requests.go:51-53 | printing such parameters and binding them gives them back |
| Requests.Defaults | spec/contract.md:19-64 | a request without parameters asks for all accounts, descending, 20 rows; or for page 1 of 20 |
| Requests.OnlyDigitsParse | go/internal/handler/requests.go:68-71 | only digits after at most one sign are a number |
| Requests.ZeroMeansNoFilter | go/internal/handler/requests.go:60-77 | the account id is 0 iff none was given, and otherwise the number the text spells |
| Requests.BindList | go/internal/handler/requests.go:27-42 | every value and every error of a bound request, from its texts alone, with the defaults 20 and descending and the cap 100 as literals |
| Requests.BindOffset | go/internal/handler/requests.go:44-53 | the same for the offset endpoint: page 1 and size 20 by default, and each malformed parameter's own error, in order |
| Requests.AccountId.UnmarshalParam | go/internal/handler/requests.go:63-75 | sets the receiver for a positive 64-bit number, leaves it alone for an empty text or an error, and refuses everything else |
| Requests.PageSize.Value | go/internal/handler/requests.go:97-100 | 20 for 0, the number up to 100, 100 above |
| Requests.ParseIntReadsText | go/internal/handler/requests.go:68-71 | the parser undoes the decimal printer on -2^63 to 2^63-1, takes a plus sign, and refuses what does not fit |
| Requests.ParseSort | go/internal/domain/transaction.go:28-40 | accepts the two sort texts as themselves and the empty text as the descending one, and refuses exactly everything else |

## Left out

- HMAC-SHA256, SHA-256 and constant-time comparison: uninterpreted functions, and plain equality; nothing is claimed about forging a token.
- PostgreSQL's planner, buffers and plan cache; a sorted array with a counter of visited entries stands for the index.
- UPDATE statements and `infinity` timestamps: rows are inserted and deleted, and hold instants a `timestamptz` can hold.
- Connection pools, HTTP envelopes, DTOs, error-to-status tables, logging, configuration, `/v1/transactions/total`: single-branch plumbing.
- Jackson's leniency: a plain `ObjectMapper` coerces scalars (`"i":"5"`) and ignores text after the object; the model refuses both, as Go does. No payload either server writes contains them.
- JSON beyond flat objects of strings, integers and booleans without white space (null, floats, nesting, case-insensitive keys, escaped surrogates); keys may come in any order.
- Strings that are not Unicode scalar values: a Go `status` with invalid UTF-8, or a Java string with lone surrogates.
- Texts neither implementation prints, in the timestamp readers: Go's signs in the fraction, Java's `24:00`; and in the requests, Java's blank and space-padded parameters, Java's narrowing of a 64-bit `page` to 32 bits, repeated parameters past the first.
- A blank but non-empty token, which Java's web layer treats as absent and Go's does not.
- Service.JavaListIsListed: requires a non-negative account id, the only kind a request can carry, because the two repositories differ on negative ones (Queries.RepositoriesAgree).
- TokenWalk.NoDrift: a refused request leaves the client where it was; a client that starts over after an expiry is a new run.
- Tokens.IssuedTokenReads: clocks outside what java.time.Instant spans with any Duration added to it (`Tokens.Stampable`), for which `rejectIfExpired` throws and no clock stamps; a `ttl` is a Go Duration, 64 bits of nanoseconds.
- Timestamp.TimestampTravels: years beyond nine digits, which neither `timestamptz` nor java.time can hold.
- WalkLoops.TokenDrivenWalk: the loop runs at one instant of the clock; `TokenWalk` has the advancing clock.
- WalkLoops.OffsetWalk: requires the table to be a whole number of pages and at most a page of arrivals each time, as in the test; `Drift.OffsetDriftLaw` has any table of at least that many rows.
- `Sort` is a datatype of its two values where Go has a string, so `Descending` is never asked about a third one; `sortOrder`'s empty string is an absent value.
- `List`, `canonicalPayload` and `writeJSONString` are each split into two methods (`CheckCursor` and `FinishPage`, `WriteLastMembers`, `WriteRune`) that the source writes inline.
