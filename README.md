# Cycle tracking job: a verified model

This project models the logic of `scripts/update-cycle.js` from RDR2CollectorsMap in Dafny. That script runs two daily jobs against the cycle endpoint of a Red Dead Online data service:

- **Daily history job**: it finds today's entry among the fetched `cycles` and renames its category fields (`jewelry` → `lost_jewelry`, `card` → `tarot_cards`, `fossil` → `fossils`, `heirloom` → `heirlooms`). It stamps the entry with today's `date`, drops the oldest entry of the persisted history array and appends the new one.
- **Daily spawn-time job**: it polls the endpoint until its `updated` marker changes, which means the cycle has rotated. The poll interval backs off on a fixed ladder. It then resolves, for each lost-jewelry item, the timestamp of the item's listed cycle that lies closest to the current cycle's start.

Modules:

- `Values` (values.dfy): `Option` (JavaScript `null` is `None`), JSON values, and `Record` for a JSON object.
- `SpawnTime` (spawn_time.dfy): `getStaticSpawnTS`, the `reduce` argmin and its tie-break.
- `Rotation` (rotation.dfy): the `until` closure as a class whose field is the captured `lastUpdated`.
- `Backoff` (backoff.dfy): `dynaInterval` and `onNext` as a class, plus a driver loop over attempts 1..n.
- `Polling` (polling.dfy): one polling session, run sequentially over the `updated` markers that successive fetches return. The detector and the ladder run together in it.
- `CycleHistory` (history.dfy): `find`, the key-rename loop, the `date` stamp, and `shift`/`push` on the history array.

How the code is modelled, and where it differs from a cleaner design:

- **Missing offsets.** A cycle key the endpoint did not send reads as `undefined`, and arithmetic on it gives NaN. Every comparison with NaN is false. The model keeps this behaviour instead of rejecting such input. If the first listed offset is missing, the item comes out `undefined`. A missing later offset is only skipped. A stricter design would fail fast naming the offset; the code does not do that, and the model follows the code.
- **The `jewelry` table** is a `map<int, int>` keyed by the offset `n` of the key `cycle_<n>`. Timestamps are integer epoch seconds.
- **The anchor** is a parameter of `GetStaticSpawnTS`. Its caller passes `data.cycles[1].startTime` (scripts/update-cycle.js:103).
- **Attempt numbering in `doPolling`.** The polling library is not part of this model. The model assumes attempts are numbered from 1 and that `onNext` receives the number of the attempt just made. The code hands the library its delay through `interval: () => dynaInterval` (scripts/update-cycle.js:72). The model assumes the library reads `interval()` after `onNext` has run, so the delay before the next attempt equals the value `onNext` returns.
- **Bounded polling.** The code polls without any ceiling. The session model ends when the injected markers run out, and then reports that no rotation was seen.

## Model

| member | source | states |
|---|---|---|
| SpawnTime.NearestTS | scripts/update-cycle.js:137-146 | an item's value is `null` exactly when its offset list is empty, whatever the anchor or the fetched table |
| SpawnTime.Reduce | scripts/update-cycle.js:139-145 | the `reduce` left fold: an `undefined` seed stays `undefined` (NaN comparisons are false); a numeric seed yields a number no farther from the anchor than the seed |
| SpawnTime.NearestAt | scripts/update-cycle.js:137-146 | for a non-empty list whose first offset is present, the result is the timestamp of a listed offset; no listed timestamp is strictly closer to the anchor; every earlier-listed timestamp is strictly farther, so ties go to the earliest position; that position is returned |
| SpawnTime.EarliestNearestIsUnique | scripts/update-cycle.js:141-145 | the earliest-nearest position is unique, so the strict `<` with the first offset as seed fixes the result completely |
| SpawnTime.UndefinedIffFirstOffsetMissing | scripts/update-cycle.js:140-145 | a non-empty item comes out `undefined` exactly when its first offset has no timestamp; a missing later offset is never chosen |
| SpawnTime.GetStaticSpawnTS | scripts/update-cycle.js:132-152 | the output has exactly one entry per item of the table and no other keys, each the item's nearest timestamp |
| Rotation.RotationDetector.constructor | scripts/update-cycle.js:67 | the detector starts with no recorded marker |
| Rotation.RotationDetector.Until | scripts/update-cycle.js:73-78 | reports done exactly when a marker was recorded and the new one differs from it; if done, the record is unchanged, otherwise it becomes the new marker |
| Rotation.FirstRotation | scripts/update-cycle.js:73-78 | the stopping attempt is never the first; it is the first attempt whose marker differs from the previous attempt's; if there is none, all markers are equal |
| Backoff.IntervalLadder.constructor | scripts/update-cycle.js:68 | the interval starts at 6000 ms |
| Backoff.IntervalLadder.OnNext | scripts/update-cycle.js:82-91 | attempts 60, 100 and 200 set the interval to 60000, 120000 and 300000; every other attempt leaves it unchanged; the current interval is returned |
| Backoff.IntervalAfter | scripts/update-cycle.js:68-69 | `dynaInterval` after onNext has run for attempts 1..n is always 6000 or one of the values of `intervalMap` |
| Backoff.IntervalAfterIsTier | scripts/update-cycle.js:68-69 | after attempts 1..n the interval is 6000 below attempt 60, 60000 below 100, 120000 below 200, and 300000 from then on |
| Backoff.IntervalMonotone | scripts/update-cycle.js:84-90 | the interval never decreases over the attempts |
| Backoff.IntervalChangesOnlyAtThresholds | scripts/update-cycle.js:84-87 | attempt n changes the interval exactly when n is 60, 100 or 200 |
| Backoff.RunLadder | scripts/update-cycle.js:82-91 | over attempts 1..n, onNext returns the band interval of each attempt, and the returned intervals never decrease |
| Polling.PollSession | scripts/update-cycle.js:67-91 | a session over successive markers stops at the first attempt whose marker differs from the previous one, never at the first attempt; each delay before the stop is the ladder's interval for that attempt |
| CycleHistory.KeyMappingsDistinct | scripts/update-cycle.js:26-31 | the four renames do not interfere: old names distinct, new names distinct, no new name is an old name |
| CycleHistory.RenameKey | scripts/update-cycle.js:35-38 | one loop pass: the old name is gone; if it was present (and differs from the new name) its value is under the new name; if absent the record is unchanged; every other field is kept |
| CycleHistory.RenameAll | scripts/update-cycle.js:34-39 | the loop over the renames in order: any field no rename mentions is kept, and the last rename's old name is gone, whatever the renames |
| CycleHistory.RenameKeyStep | scripts/update-cycle.js:35-38 | one iteration of the rename loop extends the field-by-field effect of the earlier iterations by its own rename |
| CycleHistory.RenameAllRenames | scripts/update-cycle.js:34-39 | after the loop every old name is gone; each present old name's value is under its new name; a new name whose old name was absent is kept; every other field is untouched |
| CycleHistory.Prepared | scripts/update-cycle.js:42 | the prepared record's `date` is today's date string |
| CycleHistory.PreparedRecord | scripts/update-cycle.js:26-42 | the prepared record has the four renames applied; a new name whose old name was absent keeps what it had; every field other than the eight mapped names and `date` is untouched |
| CycleHistory.FindFirst | scripts/update-cycle.js:17-22 | `find` returns the first cycle whose date is today, or none when no cycle's date is today |
| CycleHistory.Rolled | scripts/update-cycle.js:48-50 | `shift` then `push` keeps a non-empty history's length; the old entries minus the first come first, and the record is last; an empty history becomes the record alone |
| CycleHistory.UpdateHistory | scripts/update-cycle.js:17-59 | nothing is written when no cycle matches today; otherwise the history written back is the old one rolled forward with the renamed, dated matching cycle |

## Left out

- The `cron` schedules (scripts/update-cycle.js:8, 66) are process scheduling with no logic.
- `fetchJewelryTS` and the `node-fetch` call (scripts/update-cycle.js:116-124) are network I/O. Each fetch becomes an injected `updated` marker in `Polling.PollSession`.
- `doPolling` itself is a foreign library: its timers, its error channel and the `onStart`/`onComplete`/`onError` logging callbacks. Only the predicate and the ladder it is given are modelled, driven by an explicit sequential loop.
- Logging is not modelled: the `console.info`/`console.debug` calls in `onNext` (scripts/update-cycle.js:86, 89), the poll job's `console.info` (101, 112) and the history job's `console.log`/`console.error` (56, 58, 61).
- The history job's `try`/`catch` (scripts/update-cycle.js:9, 60-62) is not modelled. Any exception, such as a failed fetch, an invalid cycle date or a history file that does not parse to an array, leaves the history unwritten. In the model the only path that writes nothing is the one where no cycle matches today.
- File reads and writes and `JSON.parse`/`JSON.stringify` (scripts/update-cycle.js:44-55, 108-111) are I/O and serialisation. The parsed history is a parameter and the array to be written is the result. A parsed file that is not an array is not modelled.
- The UTC+8 date string and each cycle's date (scripts/update-cycle.js:11-13, 18-20) rely on library date formatting. Today's date is a parameter, and a cycle's date is an abstract function `cycleDate`.
- The `updated` timestamp of the output artifact (scripts/update-cycle.js:105) reads the wall clock. It is not modelled.
- The in-place mutation of the matched cycle also changes the fetched `data.cycles` array, which is discarded afterwards. The model works on a copy of the record.
- Rotation.RotationDetector.Until: an `updated` value of `null` is not modelled. A null marker in the initial state leaves the detector there, so leading nulls do not count as the first observation; a null marker after a recorded one is reported as a rotation.
- JavaScript numbers are doubles. Timestamps and intervals are unbounded integers here, which is exact for epoch seconds.
- update_cycle.js is an older copy of the daily history job. It consists of an HTTP fetch and file I/O around the same find/shift/push, so it is not part of this model.
