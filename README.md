# Audit event store — a Dafny model

This project models the audit event store of an integration hub. The hub
receives events from a payment platform's webhooks, a chat platform's webhooks
and actions against a CRM (Bitrix24), and records each one as a row of the
`event_logs` table. `AuditService` is the only code that touches that table:

- `logEvent` appends a row, with its payload serialized to JSON text;
- listings filter, order newest-first and page the rows;
- `getStats` computes totals, per-status counts, counts per source, the ten
  most frequent event types, today's count and the mean processing time;
- `cleanOldEvents` deletes the rows older than a retention window.

The table is a sequence of `EventLog` rows in insertion order. It is held in
a class (`AuditStore.AuditService`) together with the auto-increment counter.
The two operations that change the table are methods on that class. Every
query is a function of the sequence. Timestamps are integer milliseconds.
The current instant (`now`) and the start of the current day (`midnight`) are
parameters.

Files:

- `wrappers.dfy`: `Option` (a nullable column) and `Result` (an operation that
  can throw).
- `sequences.dfy`: ordering by a key, largest first, and windowing
  (`OFFSET`/`LIMIT`), with their lemmas.
- `event_log.dfy`: the row (`EventLog`), the producer's input (`EventInput`),
  the payload serialization rule and the round trip between the two.
- `audit_queries.dfy`: the where-clauses (`Criterion`, `Select`) and every
  listing of the service.
- `audit_stats.dfy`: `getStats` and its parts.
- `audit_service.dfy`: the table invariant, `logEvent` and `cleanOldEvents`.

Choices the code leaves open, and how the model settles them:

- **Order among equal timestamps.** The listings order by timestamp only. Every
  listing's contract states non-increasing timestamps and says which rows are
  returned, never their order among ties. `SortDesc` is one such order. Only
  `AuditQueries.ConsecutiveEventPages` relies on the database using the same
  order among ties in two separate queries (see "Left out").
- **A limit of 0.** TypeORM applies `take` only when it is truthy, so a limit
  of 0 caps nothing and the listing returns every matching row (from the
  offset on). `AuditQueries.Take` defines this rule and every capped listing
  uses it.
- **Defaults.** The listings default to a limit of 100 and an offset of 0,
  and `cleanOldEvents` to 90 days. They are the parameters' default values.
- **Cutoff boundary.** `cleanOldEvents` deletes rows with
  `timestamp < now - days * 86400000`. A row exactly at the cutoff is kept, so
  `daysToKeep = 0` deletes only rows created strictly before `now`.
- **"Today".** It counts rows with `timestamp >= midnight`. `midnight` is
  whatever start-of-day instant the caller supplies; the code uses local time.
- **Status.** The input type admits only `success`, `error` and `pending`, so
  the model uses a three-valued type. As a result the three status counts add
  up to `total` exactly, not just to at most `total`.
- **Payload.** The code stores `JSON.stringify(payload)` only when the payload
  is *truthy*. A payload of `null`, `false`, `0` or `""` is stored as NULL,
  just like an absent one. `EventLogEntity.RoundTrip` states exactly when the
  input survives the round trip.

Design choices where a reader might expect more than the code does; the
model follows the code:

- Timestamp ties are not broken by descending id: the code orders by
  timestamp alone.
- `by_type` ties are not broken by type name: the code orders by
  `count DESC` alone.
- There is no validation error for a missing required field or an unknown
  status: the input type rules both out, and so do the model's types.

## Model

| member | source | states |
|---|---|---|
| `EventLogEntity.Create` | src/database/services/audit.service.ts:41-44 | the row takes the assigned id and creation time and carries every other input field unchanged; its payload column is the serialized payload when the input payload is present and truthy, and NULL otherwise |
| `EventLogEntity.RoundTrip` | src/database/entities/event-log.entity.ts:5-63 | reading a created row back gives the input exactly when its payload is absent or truthy; a falsy payload comes back absent |
| `Sequences.SortDesc` | src/database/services/audit.service.ts:61 | the result is a permutation of its input, ordered by the key with the largest first |
| `Sequences.InsertSorted` | src/database/services/audit.service.ts:61 | inserting into a sequence sorted largest-first keeps it sorted |
| `Sequences.Page` | src/database/services/audit.service.ts:62-63 | skip `offset` elements, then keep at most `limit`: the length is `min(limit, max(0, n - offset))` and element `i` is input element `offset + i` |
| `Sequences.PrefixKeepsLargest` | src/database/services/audit.service.ts:72-74 | taking the first `limit` elements of a sorted sequence keeps the largest: nothing left out has a larger key than anything kept |
| `AuditQueries.Select` | src/database/services/audit.service.ts:70-140 | a where-clause returns exactly the matching rows, with no row added or repeated; a NULL column never matches a key |
| `AuditQueries.SelectKeepsIdOrder` | src/database/entities/event-log.entity.ts:5-6 | a selection keeps the insertion order, so ids still strictly increase along it |
| `AuditQueries.SelectNarrower` | src/database/services/audit.service.ts:170-174 | selecting with a narrower condition from an earlier selection gives the same rows as selecting from the whole table |
| `AuditQueries.SplitAt` | src/database/services/audit.service.ts:204-208 | the rows before an instant and the rows at or after it together account for every row |
| `AuditQueries.SelectAppend` | src/database/services/audit.service.ts:46 | appending a row adds it to a selection exactly when it matches |
| `AuditQueries.GetAllEvents` | src/database/services/audit.service.ts:59-64 | skips `offset` rows and returns the next `limit` of the table (all of the rest when `limit` is 0), newest first, each a row of the table |
| `AuditQueries.FullPageIsTable` | src/database/services/audit.service.ts:59-64 | a first page that caps nothing (a limit of 0 or at least the table size) lists every row of the table exactly once |
| `AuditQueries.ConsecutiveEventPages` | src/database/services/audit.service.ts:59-64 | two consecutive pages of non-zero size make up the larger page that spans both, and every row on the later page is no newer than every row on the earlier one |
| `AuditQueries.FirstPageIsNewest` | src/database/services/audit.service.ts:59-64 | the first page holds the newest rows: no row left out is newer than a row returned |
| `AuditQueries.GetEventsBySource` | src/database/services/audit.service.ts:70-76 | the newest `limit` rows from the source: each returned row has that source, as many are returned as exist up to `limit` (all of them when `limit` is 0), newest first, and no omitted row from the source is newer than a returned one |
| `AuditQueries.GetEventsByType` | src/database/services/audit.service.ts:81-87 | the same for the rows of one event type |
| `AuditQueries.GetFailedEvents` | src/database/services/audit.service.ts:134-140 | the same for the rows whose status is `error` |
| `AuditQueries.GetEventsByContactId` | src/database/services/audit.service.ts:92-97 | exactly the rows whose CRM contact id equals the key, no cap, newest first |
| `AuditQueries.GetEventsByDealId` | src/database/services/audit.service.ts:102-107 | exactly the rows whose CRM deal id equals the key, no cap, newest first |
| `AuditQueries.GetEventsByPhone` | src/database/services/audit.service.ts:112-117 | exactly the rows whose customer phone equals the key, no cap, newest first |
| `AuditQueries.GetEventsByDateRange` | src/database/services/audit.service.ts:122-129 | exactly the rows with `start <= timestamp <= end` (both bounds inclusive), newest first |
| `AuditStats.ColumnCount` | src/database/services/audit.service.ts:151-165 | the count a `GROUP BY` gives a key equals the size of the `where key = k` selection |
| `AuditStats.GroupsCoverAll` | src/database/services/audit.service.ts:151-156 | the group counts add up to the number of rows |
| `AuditStats.GroupBy` | src/database/services/audit.service.ts:151-156 | names each key of the column exactly once and no other key, each with its number of occurrences (at least one), and the counts sum to the number of rows |
| `AuditStats.BySource` | src/database/services/audit.service.ts:151-156 | `by_source` names every source once, each count equals the number of rows from that source, and the counts sum to the total |
| `AuditStats.Top` | src/database/services/audit.service.ts:163-164 | `min(n, number of groups)` of the groups, highest count first, none repeated when the input keys are distinct, and no group left out has a higher count than one kept |
| `AuditStats.ByType` | src/database/services/audit.service.ts:158-165 | `by_type` has ten entries, or one per type when there are fewer types, no type twice, with non-increasing counts, each the true count of its type, and a type left out occurs no more often than any type kept |
| `AuditStats.StatusesPartition` | src/database/services/audit.service.ts:146-149 | the success, error and pending counts add up to the total |
| `AuditStats.TodayCount` | src/database/services/audit.service.ts:167-174 | `today` is the total minus the rows created before midnight |
| `AuditStats.TodayUnaffectedByCleanup` | src/database/services/audit.service.ts:167-174 | deleting rows older than a cutoff no later than midnight leaves `today` unchanged |
| `AuditStats.AvgProcessingTime` | src/database/services/audit.service.ts:176-193 | 0 when no row has a processing time |
| `AuditStats.AvgWithinBounds` | src/database/services/audit.service.ts:176-181 | when some row has a processing time, the mean lies between the least and the greatest value recorded |
| `AuditStats.GetStats` | src/database/services/audit.service.ts:145-194 | `total` is the table size, the status counts add up to it, the `by_source` counts add up to it, `by_type` has at most ten entries, and `today` is at most `total` |
| `AuditStore.Cutoff` | src/database/services/audit.service.ts:201-202 | the cutoff is `daysToKeep` whole days before `now`, so never after `now` for a non-negative window |
| `AuditStore.Prune` | src/database/services/audit.service.ts:204-208 | keeps exactly the rows at or after the cutoff, and the number removed is the number of rows before it |
| `AuditStore.PruneIdempotent` | src/database/services/audit.service.ts:200-212 | deleting again with the same cutoff removes nothing |
| `AuditStore.AuditService.constructor` | src/database/entities/event-log.entity.ts:3-6 | a new table is empty and its first id will be 1 |
| `AuditStore.AuditService.LogEvent` | src/database/services/audit.service.ts:39-54 | on success, exactly one row is appended and returned: the row built from the input, with an id larger than every existing id and the next counter value; on failure, the error is rethrown and the table is unchanged; the table invariant is kept |
| `AuditStore.AuditService.CleanOldEvents` | src/database/services/audit.service.ts:200-212 | removes exactly the rows created before `now - daysToKeep` days and leaves every other row unchanged and in order; returns the number removed; keeps the invariant and the id counter |

## Left out

- `JSON.stringify` is the parameter `serialize`; its internals are not modelled. That it can throw on cyclic values or BigInts is not modelled either: the model's JSON values are finite trees with integer numbers.
- The `Logger` calls are console output and are not modelled.
- The real clock and the local time zone (`new Date()`, `setHours`, `setDate`) are not modelled. `now` and `midnight` are parameters, and a retention day is always 86 400 000 ms, so a daylight-saving shift is ignored.
- How SQLite stores dates (as text) and compares them is not modelled. Timestamps are integers.
- Floating-point `AVG` is modelled with real arithmetic.
- The JavaScript `number` in `amount` is modelled as integer cents, and `processing_time_ms` as an integer. Fractional values are not modelled.
- `amount` is checked against decimal(10, 2) at save time. A value outside that range makes the save fail with `AmountOutOfRange`. SQLite's numeric affinity does not itself enforce the declared precision, so this rejection path is the declared column type, not SQLite's behaviour.
- Why a save fails for other reasons (connection, disk, constraints) is not modelled. The parameter `storageFault` decides it.
- `status` is a plain string column. The model only represents rows written through `logEvent`, whose input type restricts it to three values.
- `limit` and `offset` are natural numbers. Negative or NaN values, which `parseInt` in the HTTP controller can produce, are not modelled. A limit of 0 is modelled (see above).
- The order of `by_source` rows is not modelled: `GROUP BY` leaves it to the database. The model lists sources in order of first appearance.
- The order among rows with equal timestamps, and among `by_type` entries with equal counts, is not modelled. The contracts leave it open.
- Concurrency is not modelled: concurrent appends, the isolation between the separate queries of `getStats`, and appends racing a cleanup.
- The HTTP controllers (`src/database/controllers/audit.controller.ts`, `src/bitrix/bitrix.controller.ts`) and the module wiring (`src/database/database.module.ts`, `src/hotmart/hotmart.module.ts`) are not part of this model: they only route requests and configure dependency injection.
- AuditQueries.ConsecutiveEventPages: assumes the database orders rows with equal timestamps the same way in both page queries. SQL does not promise this for `ORDER BY timestamp` alone, so real paging can repeat or skip rows that tie at a page boundary. The model's listings all use one fixed order (`SortDesc`), which is where the assumption enters.
- AuditStats.AvgProcessingTime: its own contract states only the no-data case. `AuditStats.AvgWithinBounds` states that the value is a mean of the recorded times. The exact identity, mean times count equals sum, is not stated.
