/**
 * `CenRepoImpl`: the object that owns the current CEN key, rotates it, emits
 * one CEN per refresh tick, records CENs heard from other devices and checks
 * the server's published keys against them.
 *
 * The two tables it writes through its DAOs are fields: `keyTable` (the CEN
 * key table, appended to on every rotation) and `receivedCens` (the table of
 * observed CENs). The `generatedCen` subject is the sequence of every value
 * pushed onto it. The clock reading and the key generator's output are
 * parameters of the operations that use them.
 */
module CenRepo {
  import opened CenEngine

  /** The server's answer to `cenkeysCheck`: a transport failure, or an HTTP
      status with a body that may be absent and whose items may be `null`. */
  datatype KeysResponse =
    | Failure(message: string)
    | Response(statusCode: int, body: Option<seq<Option<string>>>)

  class CenRepoImpl {
    const encrypt: Cipher
    const matchCENs: MatchOracle

    var cenKey: string
    var cenKeyTimestamp: int
    /** Every CEN pushed onto the `generatedCen` subject, oldest first. */
    var generatedCen: seq<Cen>
    var cenKeyLifetimeInSeconds: int
    var cenLifetimeInSeconds: int
    var lastCENKeysCheck: int
    /** The CEN key table (`cenkeyDao`), oldest row first. */
    var keyTable: seq<CenKey>
    /** The table of CENs observed from other devices (`cenDao`). */
    var receivedCens: seq<ReceivedCen>

    /** The key table's last row is the current key; before any row
        exists the key timestamp is still its initial 0, so the next tick
        rotates. */
    ghost predicate KeyTableTracksKey()
      reads this
    {
      if keyTable == [] then cenKeyTimestamp == 0
      else keyTable[|keyTable| - 1] == CenKey(cenKey, cenKeyTimestamp)
    }

    /** Both lifetimes are positive (Kotlin would throw dividing by them
        otherwise), `lastCENKeysCheck` is never moved off 0, and the key
        table is non-empty with the current key as its last row. */
    ghost predicate Valid()
      reads this
    {
      cenKeyLifetimeInSeconds > 0 && cenLifetimeInSeconds > 0 && lastCENKeysCheck == 0
      && keyTable != [] && KeyTableTracksKey()
    }

    /** What `matchCENKey` reads from this object. */
    function Env(): (env: MatchEnv)
      reads this
      requires Valid()
      ensures ValidEnv(env)
    {
      MatchEnv(encrypt, matchCENs, receivedCens, cenLifetimeInSeconds, cenKeyLifetimeInSeconds)
    }

    /** `init`: push the empty CEN, load the most recent stored key (if any),
        switch to the 15 s / 60 s lifetimes and run the first refresh tick at
        `now`, `newKey` being what the key generator would return. */
    constructor (encrypt: Cipher, matchCENs: MatchOracle, storedKeys: seq<CenKey>,
                 storedCens: seq<ReceivedCen>, now: int, newKey: string)
      ensures this.encrypt == encrypt && this.matchCENs == matchCENs
      ensures Valid()
      ensures cenKeyLifetimeInSeconds == TestKeyLifetime && cenLifetimeInSeconds == TestCenLifetime
      ensures receivedCens == storedCens
      ensures var loaded := LoadedKeyState(storedKeys);
        KeyState(cenKey, cenKeyTimestamp) == Tick(loaded, now, newKey, TestKeyLifetime)
        && keyTable == storedKeys
             + (if RotationDue(loaded.timestamp, now, TestKeyLifetime) then [CenKey(newKey, now)] else [])
      ensures generatedCen == [Cen([]), GenerateCEN(encrypt, cenKey, now, TestKeyLifetime)]
    {
      this.encrypt := encrypt;
      this.matchCENs := matchCENs;
      generatedCen := [Cen([])];
      keyTable := storedKeys;
      receivedCens := storedCens;
      lastCENKeysCheck := 0;
      var loaded := LoadedKeyState(storedKeys);
      cenKey := loaded.key;
      cenKeyTimestamp := loaded.timestamp;
      cenKeyLifetimeInSeconds := TestKeyLifetime;
      cenLifetimeInSeconds := TestCenLifetime;
      new;
      RefreshCENAndCENKeys(now, newKey);
    }

    /** One tick of `refreshCENAndCENKeys` at clock reading `now`: rotate to
        `newKey` (stamped with the raw `now`, appended to the key table) when
        the rotation is due, then push exactly one CEN made from the key that
        is current after that decision. Nothing else changes. */
    method RefreshCENAndCENKeys(now: int, newKey: string)
      requires cenKeyLifetimeInSeconds > 0 && cenLifetimeInSeconds > 0 && lastCENKeysCheck == 0
      requires KeyTableTracksKey()
      modifies this`cenKey, this`cenKeyTimestamp, this`keyTable, this`generatedCen
      ensures Valid()
      ensures KeyState(cenKey, cenKeyTimestamp)
        == Tick(KeyState(old(cenKey), old(cenKeyTimestamp)), now, newKey, cenKeyLifetimeInSeconds)
      ensures keyTable == old(keyTable)
        + (if RotationDue(old(cenKeyTimestamp), now, cenKeyLifetimeInSeconds) then [CenKey(newKey, now)] else [])
      ensures generatedCen == old(generatedCen) + [GenerateCEN(encrypt, cenKey, now, cenKeyLifetimeInSeconds)]
    {
      if cenKeyTimestamp == 0
        || RoundedTimestamp(now, cenKeyLifetimeInSeconds) > RoundedTimestamp(cenKeyTimestamp, cenKeyLifetimeInSeconds)
      {
        cenKey := newKey;
        cenKeyTimestamp := now;
        keyTable := keyTable + [CenKey(cenKey, cenKeyTimestamp)];
      }
      generatedCen := generatedCen + [GenerateCEN(encrypt, cenKey, now, cenKeyLifetimeInSeconds)];
    }

    /** `storeCen`: record one CEN heard at `now`; nothing else changes. */
    method StoreCen(cen: Cen, now: int)
      modifies this`receivedCens
      ensures receivedCens == old(receivedCens) + [ReceivedCen(cen, now)]
    {
      receivedCens := receivedCens + [ReceivedCen(cen, now)];
    }

    /** The request and the response handling of `periodicCENKeysCheck`: the
        keys are requested from `lastCENKeysCheck`; on status 200 with a body,
        `keyMatched` collects, in response order, the non-null keys whose
        `matchCENKey` result is non-null and non-empty, and `processMatches`
        is invoked exactly when one did; any other status, a missing body or
        a failure matches nothing. `reportRequests` are the report requests
        `processMatches` builds. The object is left unchanged. */
    method PeriodicCENKeysCheck(response: KeysResponse)
      returns (requested: int, keyMatched: seq<string>, processed: bool, reportRequests: seq<string>)
      requires Valid()
      ensures requested == lastCENKeysCheck == 0
      ensures keyMatched
        == if response.Response? && response.statusCode == 200 && response.body.Some?
           then KeysMatched(Env(), response.body.value, lastCENKeysCheck)
           else []
      ensures processed <==> keyMatched != []
      ensures reportRequests == keyMatched
    {
      requested := lastCENKeysCheck;
      keyMatched := [];
      processed := false;
      reportRequests := [];
      if response.Response? && response.statusCode == 200 && response.body.Some? {
        var keys := response.body.value;
        var env := Env();
        var i := 0;
        while i < |keys|
          invariant 0 <= i <= |keys|
          invariant keyMatched == KeysMatched(env, keys[..i], lastCENKeysCheck)
        {
          assert keys[..i + 1][..i] == keys[..i];
          match keys[i] {
            case Some(key) =>
              var matched := MatchCENKey(env, key, lastCENKeysCheck);
              if matched.Some? && matched.value != [] {
                keyMatched := keyMatched + [key];
              }
            case None =>
          }
          i := i + 1;
        }
        assert keys[..|keys|] == keys;
        if keyMatched != [] {
          processed, reportRequests := ProcessMatches(keyMatched);
        }
      }
    }

    /** `processMatches`: past its `size > 0` guard it builds one
        `getCenReport` request per matched key, in order, and never enqueues
        any of them, so it changes nothing. Returns whether it got past the
        guard and the keys it built requests for. */
    method ProcessMatches(matchedCENKeys: seq<string>) returns (handled: bool, reportRequests: seq<string>)
      ensures handled <==> matchedCENKeys != []
      ensures reportRequests == matchedCENKeys
    {
      handled := false;
      reportRequests := [];
      if |matchedCENKeys| > 0 {
        handled := true;
        var i := 0;
        while i < |matchedCENKeys|
          invariant 0 <= i <= |matchedCENKeys|
          invariant reportRequests == matchedCENKeys[..i]
        {
          reportRequests := reportRequests + [matchedCENKeys[i]];
          i := i + 1;
        }
      }
    }
  }
}
