# Crypto tracker: drop alerts and dashboard derivations

This project models two parts of a cryptocurrency dashboard in Dafny and proves properties about them.

**The drop-alert timer** (`ingest_timer.dfy`, module `IngestTimer`) runs on a schedule. On each tick it fetches a market snapshot, which is a list of coins with an id, a name and a 24h percentage change that may be null. A null change counts as 0. A coin "breaches" when its change is at or below -5 percent. A breaching coin raises an alert only if the time since its last alert is strictly greater than 30 minutes. That time is kept in a process-wide table `alertedRecently` from coin id to the time of the coin's last alert. A missing entry reads as time 0. After each alert the table records the tick's clock reading for that id. A failed fetch aborts the tick and leaves the table untouched.

- The table is the field of the class `AlertDispatcher`.
- The tick is its method `Tick`. The loop in `Tick` follows the source statement by statement.
- `Tick` is proved equal to the pure function `RunTick`, which folds `Step` over the snapshot.
- The lemmas about `Scan` state which coins alert in one tick, the table a tick leaves, and that no id alerts twice in a tick. The lemmas about `RunTicks` state what a sequence of ticks promises.
- A ghost log of every emitted alert, checked by `Valid()`, carries the cooldown invariant from one tick to the next.

**The dashboard derivations** (`dashboard.dfy`, module `Dashboard`) are three pure computations that the front end renders:

- The search filter trims and lower-cases the query. It returns every row when the query is empty. Otherwise it keeps the rows whose lower-cased name or id contains the query.
- The top gainer and the top loser are computed by a `reduce` with a strict `>` or `<`. The first row with the extreme 24h change wins, and an empty list gives null.

`wrappers.dfy` holds the `Option` type, which stands for the source's nullable values.

Four behaviours of the source are kept as written:

- **Missing entry.** A coin with no table entry reads as last alerted at time 0. Its first alert therefore needs a clock reading above 30 minutes. `ShouldAlert` and `FirstTickAlerts` state this.
- **No sink-failure path.** The alert is logged and then recorded unconditionally. Nothing can fail between the two, so the model has no failure path there.
- **No malformed-item check.** Every snapshot item is evaluated as it is. Items without an id are not skipped.
- **Fixed constants.** The threshold and the cooldown are constants in the source: `DropThreshold` and `CooldownMs`.

## Model

| member | source | states |
|---|---|---|
| `IngestTimer.IsBreach` | backend/src/ingestTimer/index.ts:24-25 | a coin breaches iff its change is present and at most -5; a null change never breaches; exactly -5 breaches |
| `IngestTimer.ShouldAlert` | backend/src/ingestTimer/index.ts:26-27 | alerting is allowed iff `now` minus the recorded time exceeds 30 minutes strictly; with no entry, iff `now` itself exceeds 30 minutes |
| `IngestTimer.ScanAlertsAreBreaches` | backend/src/ingestTimer/index.ts:23-34 | every alert of a tick comes from a breaching coin of the snapshot with its id, name and change, the change is at most -5, and there are at most as many alerts as coins |
| `IngestTimer.ScanTable` | backend/src/ingestTimer/index.ts:25-34 | after a tick the table's keys are the old keys plus the alerted ids; an alerted id maps to `now`; every other entry is unchanged, so non-breaching and suppressed coins change nothing |
| `IngestTimer.ScanAlertsDistinct` | backend/src/ingestTimer/index.ts:21-34 | within one tick no id alerts twice, because a repeated id later in the snapshot meets `now - now`, which is not above the cooldown |
| `IngestTimer.ScanAlertsFromFirstBreach` | backend/src/ingestTimer/index.ts:21-34 | each alert of a tick carries the id, name and change of the first breaching coin with that id in the snapshot; a later breaching duplicate is the one suppressed, because it meets the `now` recorded for the first |
| `IngestTimer.RecordAlertKeepsSpacing` | backend/src/ingestTimer/index.ts:26-34 | recording `now` for an id the cooldown let through keeps every pair of logged alerts for one id more than 30 minutes apart and the table no earlier than any logged alert |
| `IngestTimer.ScanKeepsSpacing` | backend/src/ingestTimer/index.ts:21-37 | a whole tick preserves that spacing invariant for the log extended with its alerts |
| `IngestTimer.CooldownAcrossTicks` | backend/src/ingestTimer/index.ts:10-37 | from the empty table, any run of sequential ticks with any clock readings never emits two alerts for one id whose tick clock readings (the `now` of each tick) are 30 minutes or less apart |
| `IngestTimer.FailingFetchesChangeNothing` | backend/src/ingestTimer/index.ts:14-40 | if every fetch fails, no alert is emitted and the table is never changed |
| `IngestTimer.ScanAlertIds` | backend/src/ingestTimer/index.ts:23-37 | the ids that alert in a tick are exactly those of the snapshot's breaching coins whose cooldown has elapsed against the table as it was before the tick |
| `IngestTimer.FirstTickAlerts` | backend/src/ingestTimer/index.ts:10-27 | on the empty table, the breaching coins alert iff the tick's clock reading exceeds 30 minutes, and none alert otherwise |
| `IngestTimer.ChangeOrZero` | backend/src/ingestTimer/index.ts:24 | definition, no contract: a null change reads as 0 |
| `IngestTimer.LastAlert` | backend/src/ingestTimer/index.ts:26 | definition, no contract: a missing table entry reads as 0 |
| `IngestTimer.Step` | backend/src/ingestTimer/index.ts:24-35 | definition, no contract: one loop iteration; its properties are stated by the `Scan` lemmas |
| `IngestTimer.Scan` | backend/src/ingestTimer/index.ts:21-37 | definition, no contract: the loop over the snapshot with one shared `now`; its properties are stated by the `Scan` lemmas |
| `IngestTimer.RunTick` | backend/src/ingestTimer/index.ts:14-40 | definition, no contract: a failed fetch yields the old table and no alerts, otherwise `Scan` |
| `IngestTimer.RunTicks` | backend/src/ingestTimer/index.ts:10-41 | definition, no contract: sequential ticks over the surviving module-level table; its properties are `CooldownAcrossTicks` and `FailingFetchesChangeNothing` |
| `IngestTimer.AlertDispatcher.constructor` | backend/src/ingestTimer/index.ts:10 | the table starts empty, with an empty alert log |
| `IngestTimer.AlertDispatcher.Tick` | backend/src/ingestTimer/index.ts:13-41 | the loop leaves exactly the table and alerts of `RunTick` on the old table, which is the old table and no alerts on a failed fetch; it keeps the cooldown invariant and logs each alert at `now` |
| `Dashboard.TrimStart` | frontend/src/App.tsx:128 | the result is a suffix of the input; everything dropped is white space or a line terminator; the result does not start with one |
| `Dashboard.TrimEnd` | frontend/src/App.tsx:128 | the result is a prefix of the input; everything dropped is white space or a line terminator; the result does not end with one |
| `Dashboard.Trim` | frontend/src/App.tsx:128 | definition, no contract: `TrimEnd` after `TrimStart` |
| `Dashboard.ToLower` | frontend/src/App.tsx:128 | definition, no contract: ASCII letters lower-cased, other characters kept |
| `Dashboard.Normalize` | frontend/src/App.tsx:128-129 | the normalised query is no longer than the typed one, and it is empty iff the typed query is made only of white space and line terminators |
| `Dashboard.Matches` | frontend/src/App.tsx:131 | definition, no contract: the lower-cased name or the lower-cased id includes the query |
| `Dashboard.Includes` | frontend/src/App.tsx:131 | true iff the query occurs in the string at some position |
| `Dashboard.FilterRows` | frontend/src/App.tsx:130-132 | a row is in the result iff it is in the input and its lower-cased name or id contains the query; the result is no longer than the input |
| `Dashboard.Filtered` | frontend/src/App.tsx:127-133 | an empty trimmed query yields the rows unchanged; otherwise a row is shown iff it is a row whose lower-cased name or id contains the trimmed, lower-cased query |
| `Dashboard.FilterSelects` | frontend/src/App.tsx:130-132 | the filter's result is the input read at strictly increasing positions, so it is an order-preserving subsequence |
| `Dashboard.KeptIffMatches` | frontend/src/App.tsx:130-132 | a position of the input is kept iff its row matches the query |
| `Dashboard.Beats` | frontend/src/App.tsx:138 | definition, no contract: the reducer's strict `>` for the gainer and strict `<` for the loser |
| `Dashboard.Reduce` | frontend/src/App.tsx:138 | definition, no contract: `reduce` with no initial value, folding left from the first row; its property is `ReduceFirstExtreme` |
| `Dashboard.ReduceFirstExtreme` | frontend/src/App.tsx:135-148 | the reduction returns the row at a position that no row beats and that strictly beats every earlier row |
| `Dashboard.TopGainer` | frontend/src/App.tsx:135-141 | null iff there are no rows; otherwise a row with the largest change, and every earlier row's change is strictly smaller, so ties go to the first |
| `Dashboard.TopLoser` | frontend/src/App.tsx:142-148 | null iff there are no rows; otherwise a row with the smallest change, and every earlier row's change is strictly larger, so ties go to the first |

## Left out

- The HTTP request to the market-data API, its URL and headers, and the JSON decoding are not modelled. A tick takes their result as a `FetchResult` input: either a failure or the decoded list of coins.
- The clock (`Date.now()`) is not modelled. It is a parameter `now` of the tick.
- The log-line formatting is not modelled. This covers `toFixed(2)`, the second `new Date().toISOString()` reading and the tick log line. An alert is a record of id, name and change appended to the tick's result.
- Partial state is not modelled. An exception thrown from inside the loop, for example by a payload that is not an array or a change that is not a number, would leave the alerts recorded so far in the table. The model assumes a well-typed payload.
- Overlapping timer invocations are not modelled. Ticks are sequential calls on one object, as the source assumes.
- IEEE floating-point behaviour is not modelled. A 24h change is a Dafny `real`, and NaN and infinities do not arise.
- `Dashboard.Filtered` models `toLowerCase` for ASCII letters only. Full Unicode case mapping is not modelled.
- React rendering, state hooks, the fetch effects with their cancellation flags, the theme toggle and the price and percentage formatters are not modelled. They are presentation only.
- backend/src/history/index.ts and the two cryptos handlers are not part of this model. They reshape fetched data or return constant data.
