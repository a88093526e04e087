# CEN rotation and matching engine (CoEpi Android), modelled in Dafny

This project models the contact-event-number (CEN) engine of the CoEpi Android
app, `CenRepoImpl` in `app/src/main/java/org/coepi/android/cen/CenRepo.kt`, and
the symptom-report table `RealmCenReportDao` in
`app/src/main/java/org/coepi/android/cen/RealmCemReportDao.kt`.

The engine keeps a symmetric key (`cenKey`) and the time it was made
(`cenKeyTimestamp`). On every refresh tick it decides whether the key epoch
has moved on. If it has, it rotates to a freshly generated key and appends that
key to the key table. Then it pushes exactly one CEN onto the `generatedCen`
stream: the AES encryption of the timestamp rounded to a key epoch. CENs heard
from other devices are stored with their receipt time. Periodically the server
returns the keys of people who reported symptoms. For each key the engine
regenerates the candidate CENs that key would have produced, asks the CEN table
whether any of them was observed, and keeps the keys that matched.

Files and modules:

- `kotlin_int.dfy` (`KotlinInt`): Kotlin `Int` division, which truncates toward zero.
- `text.dfy` (`Text`): `joinToString(",")` and a splitter that inverts it.
- `cen_engine.dfy` (`CenEngine`): the pure part of `CenRepo.kt`. It covers
  rounding, CEN derivation, the rotation decision, runs of ticks, the key-table
  queries, the candidate query of `matchCENKey`, and the filter that keeps
  the matched keys.
- `cen_repo.dfy` (`CenRepo`): the class `CenRepoImpl`. It has the source's
  fields, and the two DAO tables and the emitted CEN stream are `seq` fields.
- `report_dao.dfy` (`ReportDao`): the class `RealmCenReportDao` over a
  `seq` of report rows, plus the filter functions and lemmas about them.

Abstractions:

- The AES/ECB cipher, the `IntToByteArray` encoding and Base64 are one
  deterministic function `Cipher`. It maps a key text and a rounded timestamp
  to bytes and is a constructor argument of `CenRepoImpl`.
- The key generator's output is the `newKey` parameter of a tick.
- `System.currentTimeMillis() / 1000` is the `now` parameter.
- `RealmCenDao.matchCENs` is a function `MatchOracle`. It takes the observed
  rows, the time range and the candidate CENs. Where a lemma needs to know
  what it returns, it assumes `OracleWithinRange` (every returned row was
  observed, lies in the range and carries a candidate CEN) or
  `OracleComplete` (every observed row in the range with a candidate CEN is
  returned). Both are read off the arguments `matchCENs` is given.
- `RealmCenKeyDao.lastCENKeys(n)` is `MostRecent`: the last `n` rows appended,
  most recent first. `RealmCenKeyDao` is not part of this model.
- `CenKey.toString` is a `show` parameter. `Cen.toString`, used to turn the
  candidates into strings, is not part of this model, so candidates stay `Cen` values.

Where the code and the intent its own comments state disagree, the model
follows the code. The comments promise a key every 7 days and a CEN every
15 minutes (`CenRepo.kt:34`, `:53-54`) and candidates covering "the last 7
days of timestamps" (`CenRepo.kt:216`):

- Rounding uses the KEY lifetime, not the CEN lifetime
  (`CenRepo.kt:111`). So a key's CEN is the same for its whole key epoch
  (`CenConstantWithinKeyEpoch`), however many CEN ticks fall in it.
- A rotation stores the raw clock reading, not the epoch start (`CenRepo.kt:91`).
- The match window is `7*24*60`: seven days counted in minutes, while
  timestamps are in seconds. The query's `minTimestamp` is only 10080 seconds
  before `maxTimestamp`; seven days in seconds would be 604800.
- The candidate count is `7*24*(60/CENLifetimeInSeconds)` with truncating
  division. That gives 168 for the 60-second lifetime `init` sets and 0 for
  any lifetime over 60 (`NoCandidatesNoMatch`), including the 15 minutes the
  comment at `CenRepo.kt:54` names.
- `lastCENKeysCheck` is never written. Every check requests keys from 0 and
  matches with `maxTimestamp = 0`, so the candidate timestamps are at most 0.
  Under `OracleWithinRange`, no CEN observed after 1970 can ever match
  (`NothingObservedSinceEpochMatches`). No candidate falls in the key epoch of
  any time `t >= L` (`StaleWatermarkMissesSenderEpochs`).
- The testing lifetimes are swapped. The comment at `CenRepo.kt:76` says
  "refresh CEN every 15s, refresh CENKey every minute", but lines 77-78 set the
  KEY lifetime to 15 and the CEN lifetime to 60. So every 60-second tick after
  the first rotates the key (`TickAfterFullLifetimeRotates`).
- Candidates step by the CEN lifetime (60) but are rounded to key epochs
  (15). From a whole-minute `maxTimestamp` every candidate rounds to a whole
  minute, so three key epochs in four are never regenerated, even with a
  watermark that advances (`CandidatesMissOffMinuteEpochs`).
- Truncating division makes the epoch around 0 span `-L+1 .. L-1`, which is
  `2L - 1` seconds wide, against `L` for the others (`ZeroEpochIsDoubled`).

## Model

| member | source | states |
|---|---|---|
| `KotlinInt.Div` | app/src/main/java/org/coepi/android/cen/CenRepo.kt:111 | Kotlin `/` by a positive divisor: the remainder is below the divisor and has the dividend's sign (truncation toward zero) |
| `CenEngine.RoundedTimestamp` | app/src/main/java/org/coepi/android/cen/CenRepo.kt:110-113 | for `ts >= 0` the result is in `(ts - L, ts]`; for `ts < 0` it is in `[ts, ts + L)`, i.e. it rounds up |
| `CenEngine.RoundedIsMultiple` | app/src/main/java/org/coepi/android/cen/CenRepo.kt:110-113 | the rounded timestamp is a multiple of the key lifetime |
| `CenEngine.RoundedIsEpochStartBelow` | app/src/main/java/org/coepi/android/cen/CenRepo.kt:110-113 | for `ts >= 0`, any multiple of `L` in `(ts - L, ts]` is the rounded value, so the result is the largest epoch start at or below `ts` |
| `CenEngine.RoundedIsEpochStartAbove` | app/src/main/java/org/coepi/android/cen/CenRepo.kt:110-113 | for `ts < 0`, the rounded value is the multiple of `L` in `[ts, ts + L)` |
| `CenEngine.ZeroEpochIsDoubled` | app/src/main/java/org/coepi/android/cen/CenRepo.kt:110-113 | every timestamp strictly between `-L` and `L` rounds to 0 |
| `CenEngine.RoundedIdempotent` | app/src/main/java/org/coepi/android/cen/CenRepo.kt:110-113 | rounding a rounded timestamp changes nothing |
| `CenEngine.RoundedMonotone` | app/src/main/java/org/coepi/android/cen/CenRepo.kt:110-113 | rounding is monotone in the timestamp |
| `CenEngine.GenerateCEN` | app/src/main/java/org/coepi/android/cen/CenRepo.kt:100-108 | no ensures: the cipher applied to the key and `RoundedTimestamp(ts)`; its properties are in `GenerateCENEpochStable` and `CenConstantWithinKeyEpoch` |
| `CenEngine.GenerateCENEpochStable` | app/src/main/java/org/coepi/android/cen/CenRepo.kt:100-108 | two timestamps with the same rounded value give the same CEN for a key |
| `CenEngine.CenConstantWithinKeyEpoch` | app/src/main/java/org/coepi/android/cen/CenRepo.kt:100-113 | every time in the key epoch `[kL, kL + L)` gives the CEN of the epoch start |
| `CenEngine.Tick` | app/src/main/java/org/coepi/android/cen/CenRepo.kt:87-93 | a tick keeps the key or switches to `(newKey, now)` with `now` unrounded; the key it leaves is never from an epoch older than `now`'s |
| `CenEngine.RotationAdvances` | app/src/main/java/org/coepi/android/cen/CenRepo.kt:87-91 | rotating away from a key with a nonzero timestamp happens only at a strictly later time |
| `CenEngine.RotationDue` | app/src/main/java/org/coepi/android/cen/CenRepo.kt:87 | no ensures: the rotation guard, no key yet or a later key epoch; its properties are in `Tick`, `RotationAdvances`, `NoRotationWithinEpoch` and `TickAfterFullLifetimeRotates` |
| `CenEngine.TickAfterFullLifetimeRotates` | app/src/main/java/org/coepi/android/cen/CenRepo.kt:77-91 | once a full key lifetime has passed since a non-negative key timestamp, the tick rotates to the new key stamped `now`; with the 15 s key and 60 s CEN lifetimes, every tick after the first does |
| `CenEngine.NoRotationWithinEpoch` | app/src/main/java/org/coepi/android/cen/CenRepo.kt:87-93 | a tick from the key's timestamp up to the end of its epoch leaves the key unchanged |
| `CenEngine.RunState` | app/src/main/java/org/coepi/android/cen/CenRepo.kt:85-97 | no ensures: the key state after the self-rescheduled ticks, one `Tick` per input; its properties are in `RunEmitsOnePerTick` and `RunKeysAdvance` |
| `CenEngine.RunKeys` | app/src/main/java/org/coepi/android/cen/CenRepo.kt:87-93 | no ensures: the key-table rows a run of ticks appends, one per rotation; their order and last row are in `RunKeysAdvance` |
| `CenEngine.RunCens` | app/src/main/java/org/coepi/android/cen/CenRepo.kt:94 | no ensures: the CENs a run of ticks emits; one per tick, from the post-decision key, by `RunEmitsOnePerTick` |
| `CenEngine.RunEmitsOnePerTick` | app/src/main/java/org/coepi/android/cen/CenRepo.kt:85-97 | a run of ticks emits exactly one CEN per tick; the i-th is derived from the key current after tick i, and that key's epoch is not older than tick i's |
| `CenEngine.RunKeysAdvance` | app/src/main/java/org/coepi/android/cen/CenRepo.kt:87-93 | if no tick reads 0, the appended keys have strictly increasing timestamps and key epochs (at most one key per epoch), all later than the starting key; the last row is the current key, and with no rotation the state is unchanged |
| `CenEngine.MostRecent` | app/src/main/java/org/coepi/android/cen/CenRepo.kt:145 | the key table's `lastCENKeys(n)`: `min(n, size)` rows, the i-th being the i-th most recent |
| `CenEngine.LoadedKeyState` | app/src/main/java/org/coepi/android/cen/CenRepo.kt:64-72 | `init` loads the most recent row's key and timestamp, or keeps `""` and `0` when the table is empty |
| `CenEngine.ShownKeys` | app/src/main/java/org/coepi/android/cen/CenRepo.kt:145-148 | one text per row the key table yields, the i-th being `toString` of the i-th most recent row |
| `CenEngine.LastCENKeys` | app/src/main/java/org/coepi/android/cen/CenRepo.kt:144-153 | null exactly when the DAO yields no row; otherwise exactly the rows' texts joined by "," |
| `CenEngine.LastCENKeysSplitsBack` | app/src/main/java/org/coepi/android/cen/CenRepo.kt:144-153 | splitting the returned text at "," gives the rows' texts back, most recent first, when none contains a comma |
| `Text.Join` | app/src/main/java/org/coepi/android/cen/CenRepo.kt:149 | no ensures: `joinToString(",")`, the parts in order with one separator between neighbours; its inverse is `Text.SplitJoin` |
| `Text.SplitJoin` | app/src/main/java/org/coepi/android/cen/CenRepo.kt:149 | splitting a `joinToString(",")` result at the separator gives the parts back when no part contains it |
| `CenEngine.CandidateCount` | app/src/main/java/org/coepi/android/cen/CenRepo.kt:218 | `7*24*(60/L)` candidates: they fit in the 10080-unit window, there is at least one for `L <= 60`, and there are none for `L > 60` |
| `CenEngine.CandidateTimestamps` | app/src/main/java/org/coepi/android/cen/CenRepo.kt:218-219 | there are exactly `CandidateCount(L)` candidate timestamps; their range and order are in `CandidateTimestampsInWindow` |
| `CenEngine.CandidateTimestampsInWindow` | app/src/main/java/org/coepi/android/cen/CenRepo.kt:217-219 | the candidate timestamps start at `maxTimestamp`, strictly decrease and stay inside `(maxTimestamp - 10080, maxTimestamp]` |
| `CenEngine.CandidateQuery` | app/src/main/java/org/coepi/android/cen/CenRepo.kt:215-224 | the query spans `[max - 10080, max]`; candidate `i` is the key's CEN at `max - L*i`, and there are `CandidateCount` of them |
| `CenEngine.CandidatesMissOffMinuteEpochs` | app/src/main/java/org/coepi/android/cen/CenRepo.kt:218-221 | with the 15 s key and 60 s CEN lifetimes and a whole-minute `maxTimestamp`, no candidate rounds to an epoch start that is not a whole minute |
| `CenEngine.MatchCENKey` | app/src/main/java/org/coepi/android/cen/CenRepo.kt:215-225 | no ensures: the CEN table's answer to `CandidateQuery`; soundness and completeness of that answer are the assumptions `OracleWithinRange` and `OracleComplete` used by the lemmas below |
| `CenEngine.StaleWatermarkMissesSenderEpochs` | app/src/main/java/org/coepi/android/cen/CenRepo.kt:215-222 | with `maxTimestamp <= 0`, every candidate rounds to an earlier key epoch than any time `t >= L` |
| `CenEngine.MatchedRowInRange` | app/src/main/java/org/coepi/android/cen/CenRepo.kt:224 | under `OracleWithinRange`, each row matched for a key was observed, is inside the query range and carries a candidate CEN |
| `CenEngine.NothingObservedSinceEpochMatches` | app/src/main/java/org/coepi/android/cen/CenRepo.kt:156-170 | with the never-updated `lastCENKeysCheck = 0`, no key matches when all observations are after time 0 |
| `CenEngine.NoCandidatesNoMatch` | app/src/main/java/org/coepi/android/cen/CenRepo.kt:218-224 | with a CEN lifetime over 60 no key can match |
| `CenEngine.ObservedCandidateMatches` | app/src/main/java/org/coepi/android/cen/CenRepo.kt:215-224 | under `OracleComplete`, a key matches whenever an observed row inside `[max - 10080, max]` carries the key's CEN at one of the candidate timestamps |
| `CenEngine.ObservedCandidateKeyKept` | app/src/main/java/org/coepi/android/cen/CenRepo.kt:165-173 | under `OracleComplete`, a published non-null key with such an observation is among the keys the check keeps |
| `CenEngine.KeysMatched` | app/src/main/java/org/coepi/android/cen/CenRepo.kt:165-173 | the matched keys are no more than the response's keys |
| `CenEngine.KeyMatches` | app/src/main/java/org/coepi/android/cen/CenRepo.kt:169 | no ensures: the match result is non-null and non-empty; when it holds is stated by `NothingObservedSinceEpochMatches`, `NoCandidatesNoMatch` and `ObservedCandidateMatches` |
| `CenEngine.KeysMatchedMembership` | app/src/main/java/org/coepi/android/cen/CenRepo.kt:166-172 | a key is kept exactly when it occurs non-null in the response and its match result is non-null and non-empty |
| `CenEngine.KeysMatchedAppend` | app/src/main/java/org/coepi/android/cen/CenRepo.kt:166-172 | the filter distributes over concatenation, so the kept keys are an in-order subsequence |
| `CenRepo.CenRepoImpl.constructor` | app/src/main/java/org/coepi/android/cen/CenRepo.kt:36-83 | keeps the cipher and the CEN table query it is given; emits the empty CEN first, loads the most recent stored key (or keeps `""`/`0`), sets the lifetimes to 15 and 60 and `lastCENKeysCheck` to 0, then runs one refresh tick; afterwards the key table is non-empty and its last row is the current key (`Valid`) |
| `CenRepo.CenRepoImpl.RefreshCENAndCENKeys` | app/src/main/java/org/coepi/android/cen/CenRepo.kt:85-94 | the new key state is `Tick` of the old one; the key table grows by `CenKey(newKey, now)` exactly on rotation; exactly one CEN, from the post-decision key, is appended to the stream; nothing else changes; afterwards the key table's last row is the current key |
| `CenRepo.CenRepoImpl.StoreCen` | app/src/main/java/org/coepi/android/cen/CenRepo.kt:116-122 | appends exactly one `ReceivedCen(cen, now)` and changes nothing else |
| `CenRepo.CenRepoImpl.PeriodicCENKeysCheck` | app/src/main/java/org/coepi/android/cen/CenRepo.kt:155-192 | requests from `lastCENKeysCheck = 0`; on status 200 with a body, `keyMatched` is the in-order filter of matching non-null keys, otherwise empty; `processMatches` runs exactly when it is non-empty; the object is unchanged |
| `CenRepo.CenRepoImpl.ProcessMatches` | app/src/main/java/org/coepi/android/cen/CenRepo.kt:195-211 | gets past its guard exactly for a non-empty list and builds one report request per matched key, in order |
| `ReportDao.WithIds` | app/src/main/java/org/coepi/android/cen/RealmCemReportDao.kt:15-18 | keeps exactly the rows whose id is in `ids`, never more rows than the table |
| `ReportDao.WithoutId` | app/src/main/java/org/coepi/android/cen/RealmCemReportDao.kt:40-48 | keeps exactly the rows whose id differs from the deleted one |
| `ReportDao.InRange` | app/src/main/java/org/coepi/android/cen/RealmCemReportDao.kt:20-24 | keeps exactly the rows with `start <= timestamp <= end` |
| `ReportDao.LoadAfterDelete` | app/src/main/java/org/coepi/android/cen/RealmCemReportDao.kt:40-48 | after deleting an id, looking that id up returns nothing |
| `ReportDao.LoadOthersAfterDelete` | app/src/main/java/org/coepi/android/cen/RealmCemReportDao.kt:40-48 | deleting one id leaves every lookup of other ids unchanged, in rows and order |
| `ReportDao.Stored` | app/src/main/java/org/coepi/android/cen/RealmCemReportDao.kt:30-36 | no ensures: the row `insert` creates, the report's six fields and the unset `timestamp` |
| `ReportDao.LoadAfterInsert` | app/src/main/java/org/coepi/android/cen/RealmCemReportDao.kt:28-38 | after an insert, looking its id up gives the earlier matches followed by the new row with the report's fields |
| `ReportDao.RealmCenReportDao.All` | app/src/main/java/org/coepi/android/cen/RealmCemReportDao.kt:11-13 | returns every stored report, whatever `limit` is |
| `ReportDao.RealmCenReportDao.LoadAllById` | app/src/main/java/org/coepi/android/cen/RealmCemReportDao.kt:15-18 | returns exactly the stored reports whose id is in `ids`, in table order |
| `ReportDao.RealmCenReportDao.FindByRange` | app/src/main/java/org/coepi/android/cen/RealmCemReportDao.kt:20-26 | at most one report, stored and with `start <= timestamp <= end`; empty exactly when no stored report is in range |
| `ReportDao.RealmCenReportDao.Insert` | app/src/main/java/org/coepi/android/cen/RealmCemReportDao.kt:28-38 | appends one row with the report's id, report, keys, MIME type, date and isUser and the unset `timestamp`; earlier rows are unchanged |
| `ReportDao.RealmCenReportDao.Delete` | app/src/main/java/org/coepi/android/cen/RealmCemReportDao.kt:40-48 | removes every row with the report's id and keeps all other rows in order |

## Left out

- AES/ECB, `KeyGenerator`, Base64 and `IntToByteArray`: foreign crypto and encoding calls, modelled as the `Cipher` function and the `newKey` parameter. A malformed key (for example the initial `""`, or a server key that is not Base64) would make the cipher throw. The model's cipher is total.
- `System.currentTimeMillis` and its `toInt()` truncation: the clock is the `now` parameter, already an `Int`. Timestamps are unbounded integers, and 32-bit wrap-around is not modelled. The clock readings the engine computes with stay inside the `Int` range until January 2038, when the `toInt()` at `CenRepo.kt:86` and `:119` wraps.
- `Handler().postDelayed` self-rescheduling of both loops: timer plumbing. One tick of each loop is modelled. A run of ticks appears only as `RunState`, `RunKeys` and `RunCens`, each a recursion over the sequence of tick inputs.
- The first `periodicCENKeysCheck()` call made by `init`: its response arrives asynchronously. It is modelled as the separate `PeriodicCENKeysCheck` operation, not inside the constructor.
- Retrofit calls, `sendReport`, `postCENReport`, `getCenReport` and `CENApi.kt`: network I/O and passthroughs. A server response is the `KeysResponse` input, and `processMatches` is modelled only as the list of report requests it builds and never enqueues.
- `RealmCenDao.matchCENs` and `RealmCenKeyDao`: their source is not part of this model. `matchCENs` is the `MatchOracle` parameter, and `lastCENKeys(n)` is assumed to return the most recent rows first.
- `CenEngine.MostRecent`: it takes `n` as a natural number. What Realm does with a negative limit is not modelled.
- `CenRepo.CenRepoImpl.Valid` keeps both lifetimes positive and `lastCENKeysCheck` at 0. Every non-positive lifetime is excluded, although not all of them fail in Kotlin. `CENLifetimeInSeconds` is a public `var`. Setting it to 0 makes `matchCENKey` divide by zero, and -60..-1 make it build an array of negative size. From -61 down, `60 / L` truncates to 0 and the candidate array is empty. `lastCENKeysCheck` is a public `var` too (`CenRepo.kt:58`), and no code in this model writes it. The model does not let either change.
- `CenEngine.LastCENKeysSplitsBack`: the round trip is stated only for key texts without commas, because `CenKey.toString` is not part of this model. If `CenKey` is a Kotlin data class, its `toString` is `CenKey(key=…, timestamp=…)`, which always contains ", ", so the round trip says nothing about the real `lastCENKeys` output.
- `ReportDao.RealmCenReportDao.Insert`: `RealmCenReport` is not part of this model. The row's untouched `timestamp` is taken to be its default, 0, and the new row is taken to come last in Realm's order.
- `ReportDao.RealmCenReportDao.LoadAllById`: Realm's own handling of an empty `ids` array is not modelled. The model returns no rows.
- `CenManager.kt` and `CENViewModel.kt`: BLE advertiser/scanner and UI glue. `CenManager.handleScannedData` also calls `insertCEN`, which `CenRepo` does not declare.
- The `reports` subject: nothing in the modelled code pushes to it.
- Realm transactions and threading: each operation is modelled as atomic.
