/**
 * The pure part of the CEN (contact event number) engine of `CenRepoImpl`:
 * epoch rounding, CEN derivation, the key-rotation decision of one refresh
 * tick, the key-table queries, the candidate CENs regenerated for a
 * published key, and the filter that keeps the published keys that matched.
 *
 * AES/ECB, the Int-to-bytes encoding and Base64 are one `Cipher` function;
 * the CEN table's match query is a `MatchOracle` function.
 */
module CenEngine {
  import KotlinInt
  import Text

  datatype Option<T> = None | Some(value: T)

  /** A contact event number: the bytes a device advertises. */
  datatype Cen = Cen(bytes: seq<bv8>)

  /** A row of the key table: the base64 key text and the time it was made. */
  datatype CenKey = CenKey(key: string, timestamp: int)

  /** A CEN heard from another device, with its local receipt time. */
  datatype ReceivedCen = ReceivedCen(cen: Cen, timestamp: int)

  /** Encryption of an (already rounded) timestamp under a base64 key. */
  type Cipher = (string, int) -> seq<bv8>

  /** The CEN table's `matchCENs(minTimestamp, maxTimestamp, candidates)`
      over the observed CENs; `None` stands for Kotlin's `null`. */
  type MatchOracle = (seq<ReceivedCen>, int, int, seq<Cen>) -> Option<seq<ReceivedCen>>

  /** The lifetimes `init` sets before the first refresh, replacing the
      field initialisers (7 days for keys, 15 minutes for CENs), which no
      operation reads before that. */
  const TestKeyLifetime: int := 15
  const TestCenLifetime: int := 60
  /** `7*24*60`: seven days counted in minutes, subtracted from a timestamp in seconds. */
  const MatchWindow: int := 7 * 24 * 60

  // ------------------------------------------------------------------
  // Epoch rounding and CEN derivation

  /** `roundedTimestamp`: the timestamp truncated (toward zero) to a multiple
      of the KEY lifetime. */
  function RoundedTimestamp(ts: int, keyLifetime: int): (r: int)
    requires keyLifetime > 0
    ensures ts >= 0 ==> ts - keyLifetime < r <= ts
    ensures ts < 0 ==> ts <= r < ts + keyLifetime
  {
    KotlinInt.Div(ts, keyLifetime) * keyLifetime
  }

  /** The rounded timestamp is an epoch start: a multiple of the lifetime. */
  lemma RoundedIsMultiple(ts: int, keyLifetime: int)
    requires keyLifetime > 0
    ensures RoundedTimestamp(ts, keyLifetime) % keyLifetime == 0
  {
    var r := RoundedTimestamp(ts, keyLifetime);
    var q := KotlinInt.Div(ts, keyLifetime);
    var d, m := r / keyLifetime, r % keyLifetime;
    assert keyLifetime * (q - d) == m;
    KotlinInt.ZeroMultiple(keyLifetime, q - d);
  }

  /** For a non-negative timestamp, the rounded value is THE epoch start at
      or below it: any multiple `k * L` in `(ts - L, ts]` equals it. */
  lemma RoundedIsEpochStartBelow(ts: int, keyLifetime: int, k: int)
    requires keyLifetime > 0 && ts >= 0
    requires ts - keyLifetime < k * keyLifetime <= ts
    ensures RoundedTimestamp(ts, keyLifetime) == k * keyLifetime
  {
    KotlinInt.DivUnique(ts, keyLifetime, k);
  }

  /** For a negative timestamp truncation rounds UP: the rounded value is the
      multiple `k * L` in `[ts, ts + L)`. */
  lemma RoundedIsEpochStartAbove(ts: int, keyLifetime: int, k: int)
    requires keyLifetime > 0 && ts < 0
    requires ts <= k * keyLifetime < ts + keyLifetime
    ensures RoundedTimestamp(ts, keyLifetime) == k * keyLifetime
  {
    KotlinInt.DivUnique(ts, keyLifetime, k);
  }

  /** Every timestamp strictly between `-L` and `L` rounds to 0, so the epoch
      around 0 is `2 * L - 1` seconds wide. */
  lemma ZeroEpochIsDoubled(ts: int, keyLifetime: int)
    requires keyLifetime > 0 && -keyLifetime < ts < keyLifetime
    ensures RoundedTimestamp(ts, keyLifetime) == 0
  {
    KotlinInt.DivUnique(ts, keyLifetime, 0);
  }

  lemma RoundedIdempotent(ts: int, keyLifetime: int)
    requires keyLifetime > 0
    ensures RoundedTimestamp(RoundedTimestamp(ts, keyLifetime), keyLifetime)
         == RoundedTimestamp(ts, keyLifetime)
  {
    KotlinInt.DivOfMultiple(KotlinInt.Div(ts, keyLifetime), keyLifetime);
  }

  lemma RoundedMonotone(t1: int, t2: int, keyLifetime: int)
    requires keyLifetime > 0 && t1 <= t2
    ensures RoundedTimestamp(t1, keyLifetime) <= RoundedTimestamp(t2, keyLifetime)
  {
    KotlinInt.DivMonotone(t1, t2, keyLifetime);
    KotlinInt.MulMonotone(KotlinInt.Div(t1, keyLifetime), KotlinInt.Div(t2, keyLifetime), keyLifetime);
  }

  /** `generateCEN`: encrypt the rounded timestamp under the key. */
  function GenerateCEN(encrypt: Cipher, key: string, ts: int, keyLifetime: int): Cen
    requires keyLifetime > 0
  {
    Cen(encrypt(key, RoundedTimestamp(ts, keyLifetime)))
  }

  /** A CEN depends on the timestamp only through its rounded value. */
  lemma GenerateCENEpochStable(encrypt: Cipher, key: string, t1: int, t2: int, keyLifetime: int)
    requires keyLifetime > 0
    requires RoundedTimestamp(t1, keyLifetime) == RoundedTimestamp(t2, keyLifetime)
    ensures GenerateCEN(encrypt, key, t1, keyLifetime) == GenerateCEN(encrypt, key, t2, keyLifetime)
  {
  }

  /** Because rounding uses the key lifetime, a key's CEN is the same for the
      whole key epoch `[k * L, k * L + L)`, however many CEN ticks fall in it. */
  lemma CenConstantWithinKeyEpoch(encrypt: Cipher, key: string, k: nat, t: int, keyLifetime: int)
    requires keyLifetime > 0
    requires k * keyLifetime <= t < k * keyLifetime + keyLifetime
    ensures GenerateCEN(encrypt, key, t, keyLifetime) == GenerateCEN(encrypt, key, k * keyLifetime, keyLifetime)
  {
    KotlinInt.MulMonotone(0, k, keyLifetime);
    RoundedIsEpochStartBelow(t, keyLifetime, k);
    RoundedIsEpochStartBelow(k * keyLifetime, keyLifetime, k);
  }

  // ------------------------------------------------------------------
  // One refresh tick: the rotation decision

  /** The current key and the (unrounded) time it was made. */
  datatype KeyState = KeyState(key: string, timestamp: int)

  /** The guard of `refreshCENAndCENKeys`: no key yet, or `now` lies in a
      later key epoch than the key's timestamp. */
  predicate RotationDue(keyTimestamp: int, now: int, keyLifetime: int)
    requires keyLifetime > 0
  {
    keyTimestamp == 0 || RoundedTimestamp(now, keyLifetime) > RoundedTimestamp(keyTimestamp, keyLifetime)
  }

  /** The key state after one tick at `now`, with `newKey` the key the
      generator would produce. The key it leaves is never from an epoch
      older than `now`'s, and a rotation stores the RAW `now`. */
  function Tick(s: KeyState, now: int, newKey: string, keyLifetime: int): (t: KeyState)
    requires keyLifetime > 0
    ensures t == s || t == KeyState(newKey, now)
    ensures RoundedTimestamp(now, keyLifetime) <= RoundedTimestamp(t.timestamp, keyLifetime)
  {
    if RotationDue(s.timestamp, now, keyLifetime) then KeyState(newKey, now) else s
  }

  /** A rotation away from a real key happens only at a strictly later time. */
  lemma RotationAdvances(keyTimestamp: int, now: int, keyLifetime: int)
    requires keyLifetime > 0 && keyTimestamp != 0
    requires RotationDue(keyTimestamp, now, keyLifetime)
    ensures now > keyTimestamp
  {
    if now <= keyTimestamp {
      RoundedMonotone(now, keyTimestamp, keyLifetime);
    }
  }

  /** A tick within the epoch of the current key leaves the key alone:
      a key made at (non-negative) time `ts` stays until its epoch ends. */
  lemma NoRotationWithinEpoch(s: KeyState, now: int, newKey: string, keyLifetime: int)
    requires keyLifetime > 0 && s.timestamp != 0
    requires 0 <= s.timestamp <= now < RoundedTimestamp(s.timestamp, keyLifetime) + keyLifetime
    ensures Tick(s, now, newKey, keyLifetime) == s
  {
    var k := KotlinInt.Div(s.timestamp, keyLifetime);
    RoundedIsEpochStartBelow(now, keyLifetime, k);
  }

  /** Once a full key lifetime has passed since a (non-negative) key
      timestamp, the next tick rotates. With the 15 s key lifetime and the
      60 s CEN tick `init` sets, every tick after the first rotates. */
  lemma TickAfterFullLifetimeRotates(s: KeyState, now: int, newKey: string, keyLifetime: int)
    requires keyLifetime > 0 && s.timestamp >= 0 && now >= s.timestamp + keyLifetime
    ensures Tick(s, now, newKey, keyLifetime) == KeyState(newKey, now)
  {
    assert RoundedTimestamp(now, keyLifetime) > now - keyLifetime >= s.timestamp;
  }

  /** One refresh tick's inputs: the clock reading and the generated key. */
  datatype TickInput = TickInput(now: int, newKey: string)

  /** The key state after a run of ticks. */
  function RunState(s: KeyState, ticks: seq<TickInput>, keyLifetime: int): KeyState
    requires keyLifetime > 0
    decreases |ticks|
  {
    if ticks == [] then s
    else RunState(Tick(s, ticks[0].now, ticks[0].newKey, keyLifetime), ticks[1..], keyLifetime)
  }

  /** The rows a run of ticks appends to the key table, one per rotation. */
  function RunKeys(s: KeyState, ticks: seq<TickInput>, keyLifetime: int): seq<CenKey>
    requires keyLifetime > 0
    decreases |ticks|
  {
    if ticks == [] then []
    else
      var t := ticks[0];
      (if RotationDue(s.timestamp, t.now, keyLifetime) then [CenKey(t.newKey, t.now)] else [])
      + RunKeys(Tick(s, t.now, t.newKey, keyLifetime), ticks[1..], keyLifetime)
  }

  /** The CENs a run of ticks emits: each tick's CEN is derived from the key
      left by that tick's rotation decision. */
  function RunCens(encrypt: Cipher, s: KeyState, ticks: seq<TickInput>, keyLifetime: int): seq<Cen>
    requires keyLifetime > 0
    decreases |ticks|
  {
    if ticks == [] then []
    else
      var s' := Tick(s, ticks[0].now, ticks[0].newKey, keyLifetime);
      [GenerateCEN(encrypt, s'.key, ticks[0].now, keyLifetime)] + RunCens(encrypt, s', ticks[1..], keyLifetime)
  }

  /** A run emits exactly one CEN per tick, the i-th from the key current
      after the i-th tick, whose epoch is not older than that tick's. */
  lemma {:induction false} RunEmitsOnePerTick(encrypt: Cipher, s: KeyState, ticks: seq<TickInput>, keyLifetime: int)
    requires keyLifetime > 0
    ensures |RunCens(encrypt, s, ticks, keyLifetime)| == |ticks|
    ensures forall i :: 0 <= i < |ticks| ==>
      RunCens(encrypt, s, ticks, keyLifetime)[i]
        == GenerateCEN(encrypt, RunState(s, ticks[..i + 1], keyLifetime).key, ticks[i].now, keyLifetime)
      && RoundedTimestamp(ticks[i].now, keyLifetime)
        <= RoundedTimestamp(RunState(s, ticks[..i + 1], keyLifetime).timestamp, keyLifetime)
    decreases |ticks|
  {
    if ticks != [] {
      var s' := Tick(s, ticks[0].now, ticks[0].newKey, keyLifetime);
      var rest := ticks[1..];
      RunEmitsOnePerTick(encrypt, s', rest, keyLifetime);
      forall i | 0 <= i < |ticks|
        ensures RunCens(encrypt, s, ticks, keyLifetime)[i]
          == GenerateCEN(encrypt, RunState(s, ticks[..i + 1], keyLifetime).key, ticks[i].now, keyLifetime)
        ensures RoundedTimestamp(ticks[i].now, keyLifetime)
          <= RoundedTimestamp(RunState(s, ticks[..i + 1], keyLifetime).timestamp, keyLifetime)
      {
        if i == 0 {
          assert RunState(s, ticks[..1], keyLifetime) == RunState(s', [], keyLifetime);
        } else {
          assert ticks[..i + 1][1..] == rest[..i];
          assert RunState(s, ticks[..i + 1], keyLifetime) == RunState(s', rest[..i], keyLifetime);
        }
      }
    }
  }

  /** Over any run whose clock never reads 0, the appended keys have strictly
      increasing timestamps AND strictly increasing key epochs (at most one
      key per epoch), all later than the starting key's epoch, and the last
      appended row is the key current at the end. */
  lemma {:induction false} RunKeysAdvance(s: KeyState, ticks: seq<TickInput>, keyLifetime: int)
    requires keyLifetime > 0
    requires forall i :: 0 <= i < |ticks| ==> ticks[i].now != 0
    ensures var keys := RunKeys(s, ticks, keyLifetime);
      forall i, j :: 0 <= i < j < |keys| ==>
        keys[i].timestamp < keys[j].timestamp
        && RoundedTimestamp(keys[i].timestamp, keyLifetime) < RoundedTimestamp(keys[j].timestamp, keyLifetime)
    ensures var keys := RunKeys(s, ticks, keyLifetime);
      s.timestamp != 0 ==> forall i :: 0 <= i < |keys| ==>
        s.timestamp < keys[i].timestamp
        && RoundedTimestamp(s.timestamp, keyLifetime) < RoundedTimestamp(keys[i].timestamp, keyLifetime)
    ensures var keys := RunKeys(s, ticks, keyLifetime);
      var e := RunState(s, ticks, keyLifetime);
      (keys == [] ==> e == s) && (keys != [] ==> keys[|keys| - 1] == CenKey(e.key, e.timestamp))
    decreases |ticks|
  {
    if ticks != [] {
      var t := ticks[0];
      var s' := Tick(s, t.now, t.newKey, keyLifetime);
      var rest := ticks[1..];
      RunKeysAdvance(s', rest, keyLifetime);
      var tail := RunKeys(s', rest, keyLifetime);
      if RotationDue(s.timestamp, t.now, keyLifetime) {
        var keys := [CenKey(t.newKey, t.now)] + tail;
        assert RunKeys(s, ticks, keyLifetime) == keys;
        if s.timestamp != 0 {
          RotationAdvances(s.timestamp, t.now, keyLifetime);
        }
        assert s'.timestamp == t.now != 0;
      }
    }
  }

  // ------------------------------------------------------------------
  // The key table's queries

  /** `cenkeyDao.lastCENKeys(n)`: the last `n` rows appended, most recent first. */
  function MostRecent(table: seq<CenKey>, n: nat): (r: seq<CenKey>)
    ensures |r| == if n < |table| then n else |table|
    ensures forall i :: 0 <= i < |r| ==> r[i] == table[|table| - 1 - i]
    decreases n
  {
    if n == 0 || table == [] then []
    else [table[|table| - 1]] + MostRecent(table[..|table| - 1], n - 1)
  }

  /** The key state `init` loads: the most recent row if the table has one,
      else the field initialisers `""` and `0`. */
  function LoadedKeyState(table: seq<CenKey>): (s: KeyState)
    ensures table == [] ==> s == KeyState("", 0)
    ensures table != [] ==> s == KeyState(table[|table| - 1].key, table[|table| - 1].timestamp)
  {
    var last := MostRecent(table, 1);
    if last != [] then KeyState(last[0].key, last[0].timestamp) else KeyState("", 0)
  }

  /** The texts `lastCENKeys(lim)` joins: `show` (the key's `toString`) of
      each row the key table yields, most recent first. */
  function ShownKeys(table: seq<CenKey>, lim: nat, show: CenKey -> string): (texts: seq<string>)
    ensures |texts| == if lim < |table| then lim else |table|
    ensures forall i :: 0 <= i < |texts| ==> texts[i] == show(table[|table| - 1 - i])
  {
    var keys := MostRecent(table, lim);
    seq(|keys|, i requires 0 <= i < |keys| => show(keys[i]))
  }

  /** `lastCENKeys(lim)`: `null` when the key table yields no row, otherwise
      the rows' texts joined by ",". */
  function LastCENKeys(table: seq<CenKey>, lim: nat, show: CenKey -> string): (r: Option<string>)
    ensures r.None? <==> table == [] || lim == 0
    ensures r.Some? ==> r.value == Text.Join(ShownKeys(table, lim, show), ',')
  {
    var texts := ShownKeys(table, lim, show);
    if texts == [] then None else Some(Text.Join(texts, ','))
  }

  /** Reading the text `lastCENKeys` returns back by splitting at "," gives
      the rows' texts in table order, most recent first, whenever no text
      contains a comma. */
  lemma LastCENKeysSplitsBack(table: seq<CenKey>, lim: nat, show: CenKey -> string)
    requires LastCENKeys(table, lim, show).Some?
    requires forall k :: k in table ==> ',' !in show(k)
    ensures Text.Split(LastCENKeys(table, lim, show).value, ',') == ShownKeys(table, lim, show)
  {
    var keys, texts := MostRecent(table, lim), ShownKeys(table, lim, show);
    forall i | 0 <= i < |texts|
      ensures ',' !in texts[i]
    {
      assert keys[i] in table;
    }
    Text.SplitJoin(texts, ',');
  }

  // ------------------------------------------------------------------
  // Candidate CENs for a published key (`matchCENKey`)

  /** `7*24*(60/CENLifetimeInSeconds)` with Kotlin's truncating division.
      The candidates, one lifetime apart, fit inside the minutes-sized
      window, and there are none at all once the lifetime exceeds 60. */
  function CandidateCount(cenLifetime: int): (n: nat)
    requires cenLifetime > 0
    ensures n * cenLifetime <= MatchWindow
    ensures cenLifetime > 60 ==> n == 0
    ensures cenLifetime <= 60 ==> n > 0
  {
    var perHour := KotlinInt.Div(60, cenLifetime);
    KotlinInt.DivOfNonNegative(60, cenLifetime);
    assert cenLifetime > 60 ==> perHour == 0 by {
      if cenLifetime > 60 {
        KotlinInt.DivUnique(60, cenLifetime, 0);
      }
    }
    assert 7 * 24 * perHour * cenLifetime == 7 * 24 * (cenLifetime * perHour);
    7 * 24 * perHour
  }

  /** The timestamps `maxTimestamp - CENLifetimeInSeconds * i` the candidate
      array is built from. */
  function CandidateTimestamps(maxTimestamp: int, cenLifetime: int): (ts: seq<int>)
    requires cenLifetime > 0
    ensures |ts| == CandidateCount(cenLifetime)
  {
    seq(CandidateCount(cenLifetime), i => maxTimestamp - cenLifetime * i)
  }

  /** The candidate timestamps start at `maxTimestamp`, strictly decrease,
      and stay above the query's `minTimestamp = maxTimestamp - 7*24*60`. */
  lemma CandidateTimestampsInWindow(maxTimestamp: int, cenLifetime: int)
    requires cenLifetime > 0
    ensures var ts := CandidateTimestamps(maxTimestamp, cenLifetime);
      (|ts| > 0 ==> ts[0] == maxTimestamp)
      && (forall i :: 0 <= i < |ts| ==> maxTimestamp - MatchWindow < ts[i] <= maxTimestamp)
      && (forall i, j :: 0 <= i < j < |ts| ==> ts[j] < ts[i])
  {
    var ts := CandidateTimestamps(maxTimestamp, cenLifetime);
    var n := |ts|;
    forall i | 0 <= i < n
      ensures maxTimestamp - MatchWindow < ts[i] <= maxTimestamp
    {
      KotlinInt.MulMonotone(0, i, cenLifetime);
      KotlinInt.MulMonotone(i, n - 1, cenLifetime);
      assert (n - 1) * cenLifetime == n * cenLifetime - cenLifetime;
    }
    forall i, j | 0 <= i < j < n
      ensures ts[j] < ts[i]
    {
      KotlinInt.MulAtLeast(cenLifetime, j - i);
      assert cenLifetime * (j - i) == cenLifetime * j - cenLifetime * i;
    }
  }

  /** With the lifetimes `init` sets, candidates step by 60 s but are rounded
      to 15 s key epochs: from a whole-minute `maxTimestamp` every candidate
      rounds to a whole minute, so three key epochs in four are never
      regenerated. */
  lemma CandidatesMissOffMinuteEpochs(maxTimestamp: int, i: nat, epochStart: int)
    requires maxTimestamp % 60 == 0 && epochStart % 60 != 0
    requires i < CandidateCount(TestCenLifetime)
    ensures RoundedTimestamp(CandidateTimestamps(maxTimestamp, TestCenLifetime)[i], TestKeyLifetime) != epochStart
  {
    var ts := CandidateTimestamps(maxTimestamp, TestCenLifetime)[i];
    var k := maxTimestamp / 60 - i;
    assert ts == (4 * k) * 15;
    KotlinInt.DivOfMultiple(4 * k, 15);
    assert RoundedTimestamp(ts, TestKeyLifetime) == 60 * k;
    assert (60 * k) % 60 == 0;
  }

  /** The arguments `matchCENKey` hands to the CEN table's `matchCENs`. */
  datatype MatchQuery = MatchQuery(minTimestamp: int, maxTimestamp: int, candidates: seq<Cen>)

  /** The query for a published key: candidate `i` is the CEN the key would
      give at `maxTimestamp - CENLifetimeInSeconds * i`, and the range is
      `[maxTimestamp - 7*24*60, maxTimestamp]`. */
  function CandidateQuery(encrypt: Cipher, key: string, maxTimestamp: int, cenLifetime: int, keyLifetime: int): (q: MatchQuery)
    requires cenLifetime > 0 && keyLifetime > 0
    ensures q.minTimestamp == maxTimestamp - MatchWindow && q.maxTimestamp == maxTimestamp
    ensures |q.candidates| == CandidateCount(cenLifetime)
    ensures forall i :: 0 <= i < |q.candidates| ==>
      q.candidates[i] == GenerateCEN(encrypt, key, maxTimestamp - cenLifetime * i, keyLifetime)
  {
    var ts := CandidateTimestamps(maxTimestamp, cenLifetime);
    MatchQuery(maxTimestamp - MatchWindow, maxTimestamp,
      seq(|ts|, i requires 0 <= i < |ts| => GenerateCEN(encrypt, key, ts[i], keyLifetime)))
  }

  /** With the never-advanced check time (`maxTimestamp <= 0`), no candidate
      lies in the key epoch of any time at or after the first key epoch, so a
      CEN broadcast since then is never regenerated. */
  lemma StaleWatermarkMissesSenderEpochs(maxTimestamp: int, cenLifetime: int, keyLifetime: int, i: nat, t: int)
    requires cenLifetime > 0 && keyLifetime > 0 && maxTimestamp <= 0
    requires i < CandidateCount(cenLifetime) && t >= keyLifetime
    ensures RoundedTimestamp(CandidateTimestamps(maxTimestamp, cenLifetime)[i], keyLifetime)
          < RoundedTimestamp(t, keyLifetime)
  {
    CandidateTimestampsInWindow(maxTimestamp, cenLifetime);
    RoundedMonotone(CandidateTimestamps(maxTimestamp, cenLifetime)[i], 0, keyLifetime);
    ZeroEpochIsDoubled(0, keyLifetime);
  }

  // ------------------------------------------------------------------
  // Matching published keys (the filtering step of `periodicCENKeysCheck`)

  /** What a match depends on besides the key: the cipher, the CEN table's
      query and its rows, and the two lifetimes. */
  datatype MatchEnv = MatchEnv(
    encrypt: Cipher,
    matchCENs: MatchOracle,
    observed: seq<ReceivedCen>,
    cenLifetime: int,
    keyLifetime: int)

  predicate ValidEnv(env: MatchEnv) {
    env.cenLifetime > 0 && env.keyLifetime > 0
  }

  /** `matchCENKey(key, maxTimestamp)`: the CEN table's answer to the query. */
  function MatchCENKey(env: MatchEnv, key: string, maxTimestamp: int): Option<seq<ReceivedCen>>
    requires ValidEnv(env)
  {
    var q := CandidateQuery(env.encrypt, key, maxTimestamp, env.cenLifetime, env.keyLifetime);
    env.matchCENs(env.observed, q.minTimestamp, q.maxTimestamp, q.candidates)
  }

  /** `matched != null && matched.isNotEmpty()`. */
  predicate KeyMatches(env: MatchEnv, key: string, maxTimestamp: int)
    requires ValidEnv(env)
  {
    var m := MatchCENKey(env, key, maxTimestamp);
    m.Some? && m.value != []
  }

  /** The published keys that are not `null` and matched, in response order. */
  function KeysMatched(env: MatchEnv, keys: seq<Option<string>>, maxTimestamp: int): (r: seq<string>)
    requires ValidEnv(env)
    ensures |r| <= |keys|
    decreases |keys|
  {
    if keys == [] then []
    else
      var last := keys[|keys| - 1];
      KeysMatched(env, keys[..|keys| - 1], maxTimestamp)
      + (if last.Some? && KeyMatches(env, last.value, maxTimestamp) then [last.value] else [])
  }

  /** A key is kept exactly when it appears (non-null) and matched. */
  lemma {:induction false} KeysMatchedMembership(env: MatchEnv, keys: seq<Option<string>>, maxTimestamp: int, k: string)
    requires ValidEnv(env)
    ensures k in KeysMatched(env, keys, maxTimestamp) <==> Some(k) in keys && KeyMatches(env, k, maxTimestamp)
    decreases |keys|
  {
    if keys != [] {
      var init := keys[..|keys| - 1];
      KeysMatchedMembership(env, init, maxTimestamp, k);
      assert keys == init + [keys[|keys| - 1]];
    }
  }

  /** The filter keeps order: it distributes over concatenation, so the kept
      keys are an in-order subsequence of the response. */
  lemma {:induction false} KeysMatchedAppend(env: MatchEnv, a: seq<Option<string>>, b: seq<Option<string>>, maxTimestamp: int)
    requires ValidEnv(env)
    ensures KeysMatched(env, a + b, maxTimestamp) == KeysMatched(env, a, maxTimestamp) + KeysMatched(env, b, maxTimestamp)
    decreases |b|
  {
    if b == [] {
      assert a + b == a;
    } else {
      var binit := b[..|b| - 1];
      KeysMatchedAppend(env, a, binit, maxTimestamp);
      assert (a + b)[..|a + b| - 1] == a + binit;
    }
  }

  /** Assumed soundness of the CEN table's query, read off the arguments
      `matchCENs` is given: every row it returns was observed, inside the
      range, with a candidate CEN. */
  ghost predicate OracleWithinRange(oracle: MatchOracle) {
    forall observed, lo, hi, candidates ::
      var m := oracle(observed, lo, hi, candidates);
      m.Some? ==> forall r :: r in m.value ==> r in observed && lo <= r.timestamp <= hi && r.cen in candidates
  }

  /** Under that contract, every row matched for a key lies in the query's
      range and carries one of the key's candidate CENs. */
  lemma MatchedRowInRange(env: MatchEnv, key: string, maxTimestamp: int, i: nat)
    requires ValidEnv(env) && OracleWithinRange(env.matchCENs)
    requires MatchCENKey(env, key, maxTimestamp).Some? && i < |MatchCENKey(env, key, maxTimestamp).value|
    ensures var r := MatchCENKey(env, key, maxTimestamp).value[i];
      var q := CandidateQuery(env.encrypt, key, maxTimestamp, env.cenLifetime, env.keyLifetime);
      r in env.observed && maxTimestamp - MatchWindow <= r.timestamp <= maxTimestamp && r.cen in q.candidates
  {
    var m := MatchCENKey(env, key, maxTimestamp);
    assert m.value[i] in m.value;
  }

  /** As written, the key check passes `lastCENKeysCheck`, which stays 0: the
      query range is `[-10080, 0]`, so no CEN observed after 1970 can match. */
  lemma NothingObservedSinceEpochMatches(env: MatchEnv, key: string)
    requires ValidEnv(env) && OracleWithinRange(env.matchCENs)
    requires forall r :: r in env.observed ==> r.timestamp > 0
    ensures !KeyMatches(env, key, 0)
  {
    var m := MatchCENKey(env, key, 0);
    if m.Some? && m.value != [] {
      MatchedRowInRange(env, key, 0, 0);
    }
  }

  /** With a CEN lifetime over 60 seconds (the production 15 minutes, say)
      there are no candidates, so no key can match. */
  lemma NoCandidatesNoMatch(env: MatchEnv, key: string, maxTimestamp: int)
    requires ValidEnv(env) && OracleWithinRange(env.matchCENs) && env.cenLifetime > 60
    ensures !KeyMatches(env, key, maxTimestamp)
  {
    var m := MatchCENKey(env, key, maxTimestamp);
    if m.Some? && m.value != [] {
      MatchedRowInRange(env, key, maxTimestamp, 0);
    }
  }

  /** Assumed completeness of the same query: every observed row inside the
      range whose CEN is a candidate is returned. */
  ghost predicate OracleComplete(oracle: MatchOracle) {
    forall observed, lo, hi, candidates, r: ReceivedCen ::
      r in observed && lo <= r.timestamp <= hi && r.cen in candidates ==>
        var m := oracle(observed, lo, hi, candidates);
        m.Some? && r in m.value
  }

  /** Under completeness, a key matches as soon as one observed row inside
      the window carries the CEN the key gives at one of the candidate
      timestamps. */
  lemma ObservedCandidateMatches(env: MatchEnv, key: string, maxTimestamp: int, r: ReceivedCen, i: nat)
    requires ValidEnv(env) && OracleComplete(env.matchCENs)
    requires r in env.observed && maxTimestamp - MatchWindow <= r.timestamp <= maxTimestamp
    requires i < CandidateCount(env.cenLifetime)
    requires r.cen == GenerateCEN(env.encrypt, key, maxTimestamp - env.cenLifetime * i, env.keyLifetime)
    ensures KeyMatches(env, key, maxTimestamp)
  {
    var q := CandidateQuery(env.encrypt, key, maxTimestamp, env.cenLifetime, env.keyLifetime);
    assert q.candidates[i] == r.cen;
  }

  /** Carried to the response: a published key with such an observation is
      among the keys the check keeps. */
  lemma ObservedCandidateKeyKept(env: MatchEnv, keys: seq<Option<string>>, maxTimestamp: int,
                                 key: string, r: ReceivedCen, i: nat)
    requires ValidEnv(env) && OracleComplete(env.matchCENs)
    requires Some(key) in keys
    requires r in env.observed && maxTimestamp - MatchWindow <= r.timestamp <= maxTimestamp
    requires i < CandidateCount(env.cenLifetime)
    requires r.cen == GenerateCEN(env.encrypt, key, maxTimestamp - env.cenLifetime * i, env.keyLifetime)
    ensures key in KeysMatched(env, keys, maxTimestamp)
  {
    ObservedCandidateMatches(env, key, maxTimestamp, r, i);
    KeysMatchedMembership(env, keys, maxTimestamp, key);
  }
}
