# Error fingerprinting and query validation, modelled in Dafny

This project models two pieces of logic from an error-telemetry system.

- **Fingerprinting.** The worker groups error events by a fingerprint. `computeFingerprint` keeps the top frame of the stack trace, which is everything before the first newline. It builds the key `exceptionType + ":" + topFrame` and hashes the key with SHA-256.
- **Query service.** The service answers `GET /api/metrics/errors` and `GET /api/errors/groups`. Each handler validates its query parameters in a fixed order and replies 400 at the first failed check. Otherwise it runs one SELECT over an aggregate table.

Files:

- `wrappers.dfy`: `Option` and `Result`.
- `fingerprint.dfy` (module `Fingerprint`): JavaScript's `split` for a one-character separator and its inverse `join`, the top frame, the hash input and the fingerprint. The hash is a parameter `hash: string -> string`, so every lemma holds for any hash.
- `rows.dfy` (module `Rows`): what WHERE, ORDER BY and LIMIT mean over a table given as a sequence of rows. It has a filter, a stable insertion sort on an integer key and a prefix.
- `query_api.dfy` (module `QueryApi`): the two validators, the two SELECTs and the two handlers. `new Date(text).getTime()` becomes a parameter `parseDate: string -> Option<Timestamp>`, where `None` is an invalid date. `Number(text)` becomes a parameter `toNumber: string -> JsNumber`, where `JsNumber` is NaN, ±Infinity or a finite real. A parameter counts as given when it is present and not `""`, which is JavaScript truthiness for a string.

## Model

| member | source | states |
|---|---|---|
| `Fingerprint.Split` | apps/worker/src/fingerprint.ts:7 | `split` always yields at least one piece. The first piece is a separator-free prefix of the text that ends at the first separator or at the end of the text. |
| `Fingerprint.SplitPiecesFree` | apps/worker/src/fingerprint.ts:7 | No piece that `split` yields contains the separator. |
| `Fingerprint.JoinSplit` | apps/worker/src/fingerprint.ts:7 | Joining the pieces of a split with the separator gives back the original text. |
| `Fingerprint.SplitAfterPrefix` | apps/worker/src/fingerprint.ts:7 | A separator-free prefix is glued onto the first piece of whatever follows it. |
| `Fingerprint.SplitJoin` | apps/worker/src/fingerprint.ts:7 | On a non-empty list of separator-free pieces, splitting undoes joining. |
| `Fingerprint.TopFrame` | apps/worker/src/fingerprint.ts:7 | The top frame is a newline-free prefix of the stack trace that ends at the first newline or at the end. The `?? ""` fallback is never taken. |
| `Fingerprint.TopFrameUnique` | apps/worker/src/fingerprint.ts:7 | Any newline-free prefix that ends at a newline or at the end of the text is the top frame. The three properties above determine the top frame. |
| `Fingerprint.TopFrameOfLines` | apps/worker/src/fingerprint.ts:7 | For `first + "\n" + rest` with a newline-free `first`, the top frame is `first`. |
| `Fingerprint.TopFrameOfSingleLine` | apps/worker/src/fingerprint.ts:7 | A stack trace with no newline is its own top frame. This includes the empty stack trace. |
| `Fingerprint.TopFrameAfterPrefix` | apps/worker/src/fingerprint.ts:7 | A newline-free prefix carries over into the top frame of what follows it. |
| `Fingerprint.EmptyStacktraceKey` | apps/worker/src/fingerprint.ts:7-8 | An empty stack trace gives the key `exceptionType + ":"`. |
| `Fingerprint.HashInput` | apps/worker/src/fingerprint.ts:7-8 | The hashed key is the exception type, then `:`, then a newline-free prefix of the stack trace that reaches its first newline or its end. |
| `Fingerprint.ComputeFingerprint` | apps/worker/src/fingerprint.ts:3-14 | The fingerprint of a stack trace is the fingerprint of its top frame alone: the digest of the key built from the first line. |
| `Fingerprint.FingerprintIgnoresLaterLines` | apps/worker/src/fingerprint.ts:7-13 | Text after the first newline does not change the fingerprint. Two stack traces with the same first line give the same fingerprint. |
| `Fingerprint.FingerprintDependsOnKeyOnly` | apps/worker/src/fingerprint.ts:10-13 | Equal keys give equal fingerprints, for every hash: the digest is a function of the key alone. |
| `Fingerprint.KeyInjective` | apps/worker/src/fingerprint.ts:8 | If neither exception type contains `:`, equal keys imply equal exception types and equal top frames. |
| `Fingerprint.FingerprintSeparates` | apps/worker/src/fingerprint.ts:8-13 | Take colon-free exception types and a hash with no collision on the two keys. Then different exception types or different top frames give different fingerprints. |
| `Fingerprint.ColonInTypeCollides` | apps/worker/src/fingerprint.ts:8 | Type `a:b` with trace `s` and type `a` with trace `b:s` share a fingerprint whenever `b` has no newline. These are two distinct pairs. |
| `Fingerprint.ColonCollisionExample` | apps/worker/src/fingerprint.ts:8 | `("a:b", "c")` and `("a", "b:c")` both hash the key `"a:b:c"`. |
| `Rows.Filter` | apps/query-api/src/index.ts:64-66 | WHERE keeps exactly the rows that satisfy the predicate. Each kept row appears as often as in the table, and no other row appears. |
| `Rows.SortBy` | apps/query-api/src/index.ts:67 | ORDER BY returns a permutation of its input that does not decrease by the sort key. |
| `Rows.InsertKeepsTieOrder` | apps/query-api/src/index.ts:120 | Inserting a row into sorted rows keeps the rows of each key in the order they had before the insertion. |
| `Rows.SortByStable` | apps/query-api/src/index.ts:120 | For every key value, the rows with that key come out of ORDER BY in table order. SQL leaves the order of ties open; the model fixes this one. |
| `Rows.Take` | apps/query-api/src/index.ts:121 | LIMIT n returns a prefix of length min(n, number of rows). |
| `Rows.TakeOfSortedIsSmallest` | apps/query-api/src/index.ts:120-121 | From a sorted sequence, LIMIT keeps the n smallest keys: no row that is cut off has a smaller key than a row that is kept. |
| `Rows.SortedPermutationUnique` | apps/query-api/src/index.ts:67 | Two sorted permutations of the same rows are equal when no two rows share a key. |
| `QueryApi.Given` | apps/query-api/src/index.ts:33 | A parameter counts as given exactly when it is present and not the empty string, as JavaScript truthiness treats a string. The same test guards `project_id` and `limit` in the groups handler (lines 92 and 98). |
| `QueryApi.ValidateMetrics` | apps/query-api/src/index.ts:33-52 | An accepted request carries the given project and the parsed dates, with `from` strictly before `to`. A rejection carries one of the three messages. |
| `QueryApi.MetricsRequiredCheckedFirst` | apps/query-api/src/index.ts:33-37 | A missing or empty `project_id`, `from` or `to` gets the "required" message, whatever the dates would parse to. |
| `QueryApi.MetricsInvalidDateRejected` | apps/query-api/src/index.ts:39-46 | With all three parameters given, a date that does not parse gets the date message. |
| `QueryApi.MetricsEmptyWindowRejected` | apps/query-api/src/index.ts:48-52 | Valid dates with `from >= to` get the order message. |
| `QueryApi.MetricsAcceptedExactly` | apps/query-api/src/index.ts:33-52 | A request is accepted if and only if all three parameters are given, both dates parse and `from < to`. |
| `QueryApi.InWindow` | apps/query-api/src/index.ts:64-66 | The metrics WHERE clause admits exactly the rows of the project whose minute lies in `[from, to)`. An empty or reversed window admits no row. |
| `QueryApi.SelectMinuteMetrics` | apps/query-api/src/index.ts:59-67 | The result has only rows of the project with `from <= minute < to`, in ascending minute order. Every matching table row appears as often as in the table. |
| `QueryApi.Points` | apps/query-api/src/index.ts:61-62 | The metrics SELECT's column list: one point per selected row, in the same order, carrying that row's minute and error count. |
| `QueryApi.MinuteWindowAnswerUnique` | apps/query-api/src/index.ts:63-67 | When (project_id, minute) is a key of the table, every answer allowed by the SELECT's semantics equals the modelled one. |
| `QueryApi.WindowRowsDistinct` | apps/query-api/src/index.ts:63-67 | On such a table, no two rows of an answer share a minute. |
| `QueryApi.HandleMetrics` | apps/query-api/src/index.ts:25-75 | The handler replies 400 exactly when validation fails, with that check's message, and returns rows exactly when it succeeds. Then it returns the minute and error count of exactly the rows the SELECT selects, in its order; their minutes lie in `[from, to)` and ascend. |
| `QueryApi.LimitValue` | apps/query-api/src/index.ts:98 | An absent or empty `limit` means 20. |
| `QueryApi.AtMost` | apps/query-api/src/index.ts:100 | JavaScript `<=` against a finite bound: false for NaN, true for -Infinity, false for +Infinity, the real order otherwise. |
| `QueryApi.Exceeds` | apps/query-api/src/index.ts:100 | JavaScript `>` against a finite bound: false for NaN, and otherwise exactly the negation of `<=`. |
| `QueryApi.CheckLimitAsWritten` | apps/query-api/src/index.ts:98-104 | As written, the check accepts exactly the finite numbers with `0 < limit <= 100`. NaN and ±Infinity are rejected, and fractions pass. |
| `QueryApi.CheckLimit` | apps/query-api/src/index.ts:98-104 | The corrected check accepts a whole number from 1 to 100. It accepts exactly the whole numbers that the written check accepts. |
| `QueryApi.FractionalLimitPassesAsWritten` | apps/query-api/src/index.ts:100-104 | `"0.5"` and `"2.5"` pass the written check. The corrected check rejects both. |
| `QueryApi.ValidateGroupsAsWritten` | apps/query-api/src/index.ts:92-104 | As written: a missing or empty `project_id` is rejected with "project_id is required". Given a project, the request is accepted exactly when the written limit check accepts, with that number as the limit, which lies in (0, 100]. With no limit given, the limit is 20. Every other rejection carries the limit message. |
| `QueryApi.ValidateGroups` | apps/query-api/src/index.ts:92-104 | Corrected: a missing or empty `project_id` is rejected with "project_id is required". Given a project, the request is accepted exactly when the corrected limit check accepts. An accepted limit is the whole number `Number(limit)` in 1..100, or 20 when no limit is given. Every other rejection carries the limit message. |
| `QueryApi.ValidateGroupsNarrowsAsWritten` | apps/query-api/src/index.ts:92-104 | The corrected validation accepts exactly the requests that the written one accepts with a whole-number limit, with the same project and limit. |
| `QueryApi.GroupsProjectCheckedFirst` | apps/query-api/src/index.ts:92-96 | A missing or empty `project_id` gets 400 "project_id is required", whatever the limit parses to. |
| `QueryApi.SelectErrorGroups` | apps/query-api/src/index.ts:112-121 | The result has at most `limit` rows, all of them the project's table rows, in non-increasing `occurrence_count` order. No project row left out counts more than a returned row. With fewer than `limit` rows returned, all of the project's rows are returned. |
| `QueryApi.SelectedRowsOfProject` | apps/query-api/src/index.ts:118-119 | Rows drawn from the project's rows belong to the project and to the table. |
| `QueryApi.MostFrequentFirst` | apps/query-api/src/index.ts:120 | A prefix of the rows sorted by descending count is still in descending count order. |
| `QueryApi.LeftOutCountNoMore` | apps/query-api/src/index.ts:120-121 | No row of the project that LIMIT cuts off counts more than a kept row. |
| `QueryApi.Summaries` | apps/query-api/src/index.ts:113-117 | The groups SELECT's column list: one summary per selected row, in the same order, carrying that row's fingerprint, count and first and last times. |
| `QueryApi.HandleGroupsAsWritten` | apps/query-api/src/index.ts:86-129 | As written: the handler replies 400 exactly when the written validation fails, with that check's message. It sends the SELECT with a fractional limit to the database exactly when the accepted limit is fractional. With a whole limit it returns the summaries of exactly the rows the SELECT selects: at most `limit <= 100` groups, most frequent first. |
| `QueryApi.HandleGroups` | apps/query-api/src/index.ts:86-129 | Corrected: the handler replies 400 exactly when the corrected validation fails, and returns rows exactly when it succeeds: the summaries of exactly the rows the SELECT selects, at most `limit <= 100` groups, most frequent first. |
| `QueryApi.GroupsHandlersDifferOnlyOnFractions` | apps/query-api/src/index.ts:98-121 | The two handlers give the same reply, except when the written check lets a fractional limit through. There the written handler sends the SELECT and the corrected one replies 400 with the limit message. |

## Left out

- The SHA-256 digest and its hex encoding (apps/worker/src/fingerprint.ts:10-13) are the `hash` parameter. No lemma depends on which function it is.
- ISO 8601 parsing by `new Date` and the conversion by `Number` are the `parseDate` and `toNumber` parameters. The dates are passed back to the database with `toISOString()`, and that round trip is taken to preserve the millisecond value.
- The Fastify server is not modelled. That covers route registration, the `/health` route, the JSON reply bodies, `app.listen`, the start-up `SELECT 1` and `process.exit` (apps/query-api/src/index.ts:1-13, 134-151). A query parameter given more than once is not modelled either: Fastify can deliver such a parameter as an array.
- The database is modelled only as the rows of `metrics_minute` and `error_groups`. Its connection pool, failures and concurrency are not modelled. Neither is the schema that makes (project_id, minute) a key; `MinuteWindowAnswerUnique` takes that key as a premise.
- When the written limit check lets a fractional limit through, the source sends it to the database as the LIMIT. What the database does with it is not part of this model: `QueryApi.HandleGroupsAsWritten` answers `LeftToDatabase(limit)` there.
- `QueryApi.ValidateGroups`: uses the corrected limit check, so it rejects a fractional limit such as 2.5 with 400, which the source accepts. `QueryApi.ValidateGroupsAsWritten` is the validation as written.
- `QueryApi.HandleGroups`: built on the corrected validation, so it replies 400 to a fractional limit that the source sends to the database. `QueryApi.HandleGroupsAsWritten` is the handler as written.
- `Fingerprint.FingerprintSeparates`: strings are modelled as sequences of Unicode scalar values, while JavaScript strings are UTF-16 code units and may hold lone surrogates. The hash encodes its input as UTF-8 and turns each lone surrogate into U+FFFD, so exception types such as "\uD800" and "\uDBFF" hash the same bytes. The model cannot express those inputs, and the separation it proves does not cover them.
- The ingestion endpoint (apps/ingestion-api/src/index.ts) only acknowledges the request; its body schema is enforced by Fastify's schema validation. The worker entry point (apps/worker/src/index.ts) only checks the connection and keeps the process alive. The queue claim, the per-event transaction, the aggregate upserts and the worker loop have no code in these files, so none of them is modelled.

## Findings

| source | as written | input that shows it | evidently intended | confidence | as-written member | corrected member |
|---|---|---|---|---|---|---|
| apps/query-api/src/index.ts:100 | the test for NaN, `<= 0` or `> 100` rejects only NaN, non-positive numbers and numbers above 100, so fractions such as 0.5 and 2.5 pass | `limit=0.5` (and `limit=2.5`) | at least 1, as the reply "limit must be a number between 1 and 100" says, which rules out 0.5; and a whole number, because SQL's LIMIT counts rows, which rules out 2.5 | medium; not executed | `QueryApi.FractionalLimitPassesAsWritten` | `QueryApi.CheckLimit` |

`QueryApi.CheckLimitAsWritten`, `QueryApi.ValidateGroupsAsWritten` and `QueryApi.HandleGroupsAsWritten` follow the source as written: a fractional limit reaches the database. `QueryApi.CheckLimit`, `QueryApi.ValidateGroups` and `QueryApi.HandleGroups` are the corrected versions, which reply 400 to it. `QueryApi.GroupsHandlersDifferOnlyOnFractions` shows that the two handlers differ on nothing else.
