/**
 MGet and its helpers (utils/cache/cache.go, and the value side of utils/cache/flight.go),
 proved to refine the plain loader over a fixed source.

 The environment of a call is a script: what Redis answers, what the clock shows, where the
 caller is cancelled, and which values the joined flights carry. Flight values only have to
 be sound for the source, which is what CacheFlights proves of every completed flight.
 JSON is a codec with a round trip; a raw Redis reply is its parse result and its length.
 Durations and instants are nanoseconds.
 */
module CacheRead {
  import opened Common
  import F = CacheFlights

  const MAX_BATCH := 100
  const MAX_VALUE_BYTES := 65536
  const MILLISECOND := 1000000

  datatype Codec<!V> = Codec(encode: V -> Option<string>, decode: string -> Option<V>)

  ghost predicate RoundTrips<V(!new)>(codec: Codec<V>) {
    forall v :: codec.encode(v).Some? ==> codec.decode(codec.encode(v).value) == Some(v)
  }

  ghost predicate Injective<K(!new)>(keyOf: K -> F.Key) {
    forall j, k :: keyOf(j) == keyOf(k) ==> j == k
  }

  datatype Policy = Policy(ttl: int, negativeTtl: int, maxBatch: int, maxValueBytes: int)

  datatype Envelope = Envelope(schema: int, found: Option<bool>, value: string, expiresAt: int)

  // One Redis reply; `writtenAt` records when a well-formed entry was written.
  datatype Reply = Nothing | NotText | Text(size: nat, parsed: Option<Envelope>, writtenAt: int)

  datatype StoreAnswer = StoreFails | WrongLength(n: nat) | Replies(at: F.Key -> Reply)

  datatype Write = Write(key: F.Key, entry: Envelope, ttl: int)

  // The fixed source of truth and how its values travel through the cache.
  datatype Source<!K, !V> = Source(values: map<K, V>, keyOf: K -> F.Key, codec: Codec<V>, expires: V -> Option<int>)

  ghost predicate ValidSource<K(!new), V(!new)>(src: Source<K, V>) {
    RoundTrips(src.codec) && Injective(src.keyOf)
  }

  /** The truth of the flight protocol is the encoded source. */
  ghost predicate Agrees<K(!new), V(!new)>(src: Source<K, V>, truth: F.Truth) {
    forall k {:trigger src.keyOf(k)} ::
      if k in src.values then src.keyOf(k) in truth && truth[src.keyOf(k)] == src.codec.encode(src.values[k])
      else src.keyOf(k) !in truth
  }

  // ---------------------------------------------------------------- sound store

  // What float64 rounding may add to a jittered TTL is less than one part in this; below it nothing.
  const FLOAT_SLACK := 100_000_000_000_000

  /** 1.1 times the TTL after the write; only TTLs of 10^14 ns (27 hours) and more leave rounding any room. */
  predicate WithinTtl(expiresAt: int, writtenAt: int, ttl: int) {
    10 * expiresAt <= 10 * writtenAt + 11 * ttl + ttl / FLOAT_SLACK
  }

  /** A well-formed entry says what the source says and lives neither past its deadline nor past 1.1 TTL. */
  ghost predicate SoundEntry<K, V>(src: Source<K, V>, p: Policy, k: K, e: Envelope, writtenAt: int) {
    && (e.found == Some(true) ==>
          && k in src.values && src.codec.encode(src.values[k]) == Some(e.value)
          && WithinTtl(e.expiresAt, writtenAt, p.ttl)
          && (src.expires(src.values[k]).Some? ==> e.expiresAt <= src.expires(src.values[k]).value))
    && (e.found == Some(false) ==> k !in src.values && WithinTtl(e.expiresAt, writtenAt, p.negativeTtl))
  }

  /** Redis may lose, truncate or garble anything, but a parsed schema-1 entry is a sound one. */
  ghost predicate SoundReply<K, V>(src: Source<K, V>, p: Policy, k: K, r: Reply) {
    r.Text? && r.parsed.Some? && r.parsed.value.schema == 1 ==> SoundEntry(src, p, k, r.parsed.value, r.writtenAt)
  }

  ghost predicate SoundAnswer<K(!new), V>(src: Source<K, V>, p: Policy, a: StoreAnswer) {
    a.Replies? ==> forall k {:trigger src.keyOf(k)} :: SoundReply(src, p, k, a.at(src.keyOf(k)))
  }

  // ---------------------------------------------------------------- readBatch

  /** A fresh, sound positive entry for k in this reply. */
  ghost predicate ServableHit<K, V>(src: Source<K, V>, p: Policy, k: K, r: Reply, now: int) {
    && r.Text? && r.parsed.Some?
    && r.parsed.value.found == Some(true) && now < r.parsed.value.expiresAt
    && SoundEntry(src, p, k, r.parsed.value, r.writtenAt)
  }

  ghost predicate Correct<K, V>(src: Source<K, V>, result: map<K, V>) {
    forall k | k in result :: k in src.values && result[k] == src.values[k]
  }

  /** How many reads of the clock show which time: one read per entry. */
  type Clock = nat -> int

  method ReadBatch<K(==, !new), V(!new)>(src: Source<K, V>, p: Policy, keys: seq<K>, answer: StoreAnswer, clock: Clock,
                                         result: map<K, V>)
    returns (result': map<K, V>, missing: seq<K>)
    requires ValidSource(src) && SoundAnswer(src, p, answer) && Correct(src, result)
    ensures Correct(src, result')
    ensures forall k | k in result :: k in result'
    ensures forall k | k in result' && k !in result :: k in keys
    // every key is served, known absent, or handed to the loader
    ensures forall k | k in keys :: k in missing || (if k in src.values then k in result' else true)
    ensures forall k | k in missing :: k in keys
    ensures |missing| <= |keys|
    ensures Distinct(keys) ==> Distinct(missing)
    // exactly the hits are added, and exactly the keys without a usable reply are handed on, in order
    ensures forall k :: k in result' <==> k in result || exists i :: Served(src, p, keys, answer, clock, i) && keys[i] == k
    ensures missing == Missing(src, p, keys, answer, clock)
    // what Redis served was fresh at the moment it was looked at
    ensures forall k | k in keys && k !in missing :: answer.Replies? && (k in src.values ==>
      exists i: nat :: i < |keys| && keys[i] == k && ServableHit(src, p, k, answer.at(src.keyOf(k)), clock(i)))
  {
    result', missing := result, [];
    if !answer.Replies? {
      missing := keys;
      return;
    }
    for i := 0 to |keys|
      invariant Correct(src, result')
      invariant forall k :: k in result' <==> k in result || exists j :: 0 <= j < i && Served(src, p, keys, answer, clock, j) && keys[j] == k
      invariant missing == Unsettled(src, p, keys[..i], answer.at, clock)
    {
      ghost var upto := keys[..i + 1];
      assert upto[..i] == keys[..i] && upto[i] == keys[i];
      var key := keys[i];
      var hit := LookUp(src, p, key, answer.at(src.keyOf(key)), clock(i));
      assert Served(src, p, keys, answer, clock, i) <==> hit.Hit?;
      hide IsHit, IsNegative, SoundEntry, ValidSource, LookUp, SoundAnswer;
      match hit {
        case Miss => missing := missing + [key];
        case Absent =>
        case Hit(v) => result' := result'[key := v];
      }
    }
    assert keys[..|keys|] == keys;
    UnsettledKeys(src, p, keys, answer.at, clock);
    forall k | k in keys && k !in missing ensures k in src.values ==>
      k in result' && exists i: nat :: i < |keys| && keys[i] == k && ServableHit(src, p, k, answer.at(src.keyOf(k)), clock(i))
    {
      var i :| 0 <= i < |keys| && keys[i] == k && Settled(src, p, k, answer.at(src.keyOf(k)), clock(i));
      SettledIsTrue(src, p, k, answer.at(src.keyOf(k)), clock(i));
      if k in src.values { assert Served(src, p, keys, answer, clock, i); }
    }
  }

  predicate Settled<K, V(!new)>(src: Source<K, V>, p: Policy, k: K, r: Reply, now: int) {
    IsHit(src, p, k, r, now) || IsNegative(p, r, now)
  }

  lemma SettledIsTrue<K(!new), V(!new)>(src: Source<K, V>, p: Policy, k: K, r: Reply, now: int)
    requires ValidSource(src) && SoundReply(src, p, k, r) && Settled(src, p, k, r, now)
    ensures k in src.values ==> IsHit(src, p, k, r, now) && ServableHit(src, p, k, r, now)
  {
    var l := LookUp(src, p, k, r, now);
  }

  lemma {:induction false} UnsettledKeys<K(!new), V(!new)>(src: Source<K, V>, p: Policy, batch: seq<K>, at: F.Key -> Reply, clock: Clock)
    ensures var missing := Unsettled(src, p, batch, at, clock);
      && |missing| <= |batch| && (forall k | k in missing :: k in batch) && (Distinct(batch) ==> Distinct(missing))
      && forall k | k in batch && k !in missing :: exists i :: 0 <= i < |batch| && batch[i] == k && Settled(src, p, k, at(src.keyOf(k)), clock(i))
  {
    if batch != [] {
      var front, last := batch[..|batch| - 1], batch[|batch| - 1];
      assert batch == front + [last];
      UnsettledKeys(src, p, front, at, clock);
      hide Settled;
      var missing := Unsettled(src, p, batch, at, clock);
      forall k | k in batch && k !in missing ensures exists i :: 0 <= i < |batch| && batch[i] == k && Settled(src, p, k, at(src.keyOf(k)), clock(i)) {
        if k in front {
          var i :| 0 <= i < |front| && front[i] == k && Settled(src, p, k, at(src.keyOf(k)), clock(i));
          assert batch[i] == k;
        } else {
          assert batch[|front|] == k && Settled(src, p, k, at(src.keyOf(k)), clock(|front|));
        }
      }
    }
  }

  datatype Lookup<V> = Miss | Absent | Hit(value: V)

  /** The replies readBatch serves as positive hits. */
  predicate IsHit<K, V(!new)>(src: Source<K, V>, p: Policy, k: K, r: Reply, now: int) {
    && r.Text? && r.size <= p.maxValueBytes && r.parsed.Some?
    && r.parsed.value.schema == 1 && r.parsed.value.found == Some(true) && now < r.parsed.value.expiresAt
    && r.parsed.value.expiresAt > 0 && r.parsed.value.value != "" && src.codec.decode(r.parsed.value.value).Some?
  }

  /** The replies readBatch trusts as "not in the source". */
  predicate IsNegative(p: Policy, r: Reply, now: int) {
    && r.Text? && r.size <= p.maxValueBytes && r.parsed.Some?
    && r.parsed.value.schema == 1 && r.parsed.value.found == Some(false) && now < r.parsed.value.expiresAt && r.parsed.value.expiresAt > 0
  }

  /** The keys of a batch whose reply settles nothing, in order. */
  function Unsettled<K, V(!new)>(src: Source<K, V>, p: Policy, batch: seq<K>, at: F.Key -> Reply, clock: Clock): seq<K> {
    if batch == [] then []
    else
      var i := |batch| - 1;
      var reply := at(src.keyOf(batch[i]));
      Unsettled(src, p, batch[..i], at, clock)
        + if Settled(src, p, batch[i], reply, clock(i)) then [] else [batch[i]]
  }

  /** What is left to load of a batch once the store has answered. */
  function Missing<K, V(!new)>(src: Source<K, V>, p: Policy, batch: seq<K>, answer: StoreAnswer, clock: Clock): seq<K> {
    if answer.Replies? then Unsettled(src, p, batch, answer.at, clock) else batch
  }

  /** A key of the batch the store serves. */
  predicate Served<K, V(!new)>(src: Source<K, V>, p: Policy, batch: seq<K>, answer: StoreAnswer, clock: Clock, i: int) {
    0 <= i < |batch| && answer.Replies? && IsHit(src, p, batch[i], answer.at(src.keyOf(batch[i])), clock(i))
  }

  /** The decision readBatch takes on one reply. */
  function LookUp<K(!new), V(!new)>(src: Source<K, V>, p: Policy, k: K, r: Reply, now: int): (l: Lookup<V>)
    requires ValidSource(src) && SoundReply(src, p, k, r)
    ensures l.Absent? ==> k !in src.values
    ensures l.Hit? ==> k in src.values && l.value == src.values[k] && ServableHit(src, p, k, r, now)
    ensures l.Hit? <==> IsHit(src, p, k, r, now)
    ensures l.Absent? <==> IsNegative(p, r, now)
  {
    if !r.Text? || r.size > p.maxValueBytes || r.parsed.None? then Miss
    else
      var e := r.parsed.value;
      if e.schema != 1 || e.found.None? || e.expiresAt <= 0 then Miss
      else if e.expiresAt <= now then Miss
      else if !e.found.value then Absent
      else if e.value == "" then Miss
      else match src.codec.decode(e.value)
        case None => Miss
        case Some(v) => Hit(v)
  }

  // ---------------------------------------------------------------- awaitFlights

  predicate Flawless<K, V(!new)>(src: Source<K, V>, value: F.FlightValue) {
    value.errs == [] && (value.found ==> src.codec.decode(value.data).Some?)
  }

  predicate Delivers<K, V(!new)>(src: Source<K, V>, keys: seq<K>, value: F.Key -> F.FlightValue, cancelAt: nat, i: int) {
    0 <= i < |keys| && i < cancelAt && value(src.keyOf(keys[i])).found && src.codec.decode(value(src.keyOf(keys[i])).data).Some?
  }

  /**
   Consumes one completed flight per key, in order; `cancelAt` is the position at which the
   caller's own context ends.
  */
  method AwaitFlights<K(==, !new), V(!new)>(src: Source<K, V>, ghost truth: F.Truth, keys: seq<K>, value: F.Key -> F.FlightValue, cancelAt: nat)
    returns (values: map<K, V>, errs: F.Errors)
    requires ValidSource(src) && Agrees(src, truth)
    requires forall k :: F.SoundValue(truth, k, value(k))
    ensures Correct(src, values) && forall k | k in values :: k in keys
    ensures errs == [] ==> forall k | k in keys && k in src.values :: k in values
    // exactly the decodable flights reached before the cancellation, and an error exactly when one of them, or the
    // caller itself, has one
    ensures forall k :: k in values <==> exists i :: Delivers(src, keys, value, cancelAt, i) && keys[i] == k
    ensures errs == [] <==> |keys| <= cancelAt && forall i | 0 <= i < |keys| :: Flawless(src, value(src.keyOf(keys[i])))
  {
    values, errs := map[], [];
    for i := 0 to |keys|
      invariant i <= cancelAt
      invariant forall k :: k in values <==> exists j :: j < i && Delivers(src, keys, value, cancelAt, j) && keys[j] == k
      invariant errs == [] <==> forall j | 0 <= j < i :: Flawless(src, value(src.keyOf(keys[j])))
      invariant Correct(src, values) && forall k | k in values :: k in keys
      invariant errs == [] ==> forall j | 0 <= j < i && keys[j] in src.values :: keys[j] in values
    {
      if i == cancelAt {
        errs := errs + [F.Canceled];
        return;
      }
      var call := value(src.keyOf(keys[i]));
      assert F.SoundValue(truth, src.keyOf(keys[i]), call);
      assert Delivers(src, keys, value, cancelAt, i) <==> call.found && src.codec.decode(call.data).Some?;
      if errs == [] {
        errs := call.errs;
      }
      if call.found {
        var decoded := src.codec.decode(call.data);
        if decoded.None? {
          errs := errs + [F.DecodeFailed];
        } else {
          values := values[keys[i] := decoded.value];
        }
      }
    }
  }

  // ---------------------------------------------------------------- MGet

  datatype Mode = NoClient | NoStore | WithStore

  // A direct loader call without a client: what it returns for the missing keys of one batch.
  datatype Direct<!K, !V> = Direct(values: map<K, V>, errs: F.Errors)

  datatype BatchScript<!K, !V> = BatchScript(
    canceled: bool,
    answer: StoreAnswer, clock: Clock,
    direct: seq<K> -> Direct<K, V>,
    queueErrs: F.Errors, value: F.Key -> F.FlightValue, cancelAt: nat)

  /** The environment of one batch respects the contracts MGet relies on. */
  ghost predicate HonestScript<K(!new), V(!new)>(src: Source<K, V>, p: Policy, truth: F.Truth, b: BatchScript<K, V>) {
    && SoundAnswer(src, p, b.answer)
    && (forall k :: F.SoundValue(truth, k, b.value(k)))
    && (forall ks {:trigger b.direct(ks)} :: Correct(src, b.direct(ks).values)
         && (b.direct(ks).errs == [] ==> forall k | k in ks && k in src.values :: k in b.direct(ks).values))
  }

  function FirstSeen<K(==)>(keys: seq<K>): seq<K> {
    if keys == [] then []
    else
      var front, last := FirstSeen(keys[..|keys| - 1]), keys[|keys| - 1];
      if last in front then front else front + [last]
  }

  /** Keys in order of first occurrence, without repeats. */
  method Unique<K(==, !new)>(keys: seq<K>) returns (unique: seq<K>)
    ensures unique == FirstSeen(keys)
    ensures Distinct(unique) && forall k :: k in unique <==> k in keys
  {
    unique := [];
    var seen: set<K> := {};
    for i := 0 to |keys|
      invariant unique == FirstSeen(keys[..i])
      invariant Distinct(unique) && (forall k :: k in seen <==> k in unique) && (forall k :: k in unique <==> k in keys[..i])
    {
      ghost var upto := keys[..i + 1];
      assert upto[..i] == keys[..i] && upto[i] == keys[i];
      if keys[i] !in seen {
        unique, seen := unique + [keys[i]], seen + {keys[i]};
      }
      assert keys[..i + 1] == keys[..i] + [keys[i]];
    }
    assert keys[..|keys|] == keys;
  }

  function Clamp(value: int, limit: nat): nat {
    if value <= 0 || value > limit then limit else value
  }

  function Clamped(p: Policy): Policy {
    p.(maxBatch := Clamp(p.maxBatch, MAX_BATCH), maxValueBytes := Clamp(p.maxValueBytes, MAX_VALUE_BYTES))
  }

  /** Where batch number b starts. */
  function Start(b: nat, max: nat): nat { b * max }

  lemma NextStart(b: nat, max: nat)
    ensures Start(0, max) == 0 && Start(b + 1, max) == Start(b, max) + max
    ensures forall c: nat | c < b :: Start(c, max) + max <= Start(b, max)
  {
    forall c: nat | c < b ensures Start(c, max) + max <= Start(b, max) {
      assert (c + 1) * max <= b * max;
    }
  }

  /** Batch number b of the keys. */
  function BatchAt<K>(unique: seq<K>, max: nat, b: nat): seq<K> {
    var from := Start(b, max);
    if from > |unique| then [] else if from + max > |unique| then unique[from..] else unique[from..from + max]
  }

  lemma ThisBatch<K>(unique: seq<K>, max: nat, b: nat)
    requires Start(b, max) <= |unique|
    ensures var from := Start(b, max);
      BatchAt(unique, max, b) == unique[from..if from + max > |unique| then |unique| else from + max]
  {
  }

  /** What is left to load of a batch. */
  function ToLoad<K, V(!new)>(src: Source<K, V>, mode: Mode, p: Policy, batch: seq<K>, env: BatchScript<K, V>): seq<K> {
    if mode == WithStore then Missing(src, p, batch, env.answer, env.clock) else batch
  }

  /** The store, the loader or a flight delivers k in this batch. */
  ghost predicate Gets<K, V(!new)>(src: Source<K, V>, mode: Mode, p: Policy, batch: seq<K>, env: BatchScript<K, V>, k: K) {
    var missing := ToLoad(src, mode, p, batch, env);
    || (mode == WithStore && exists i :: Served(src, p, batch, env.answer, env.clock, i) && batch[i] == k)
    || (mode == NoClient && k in missing && k in env.direct(missing).values)
    || (mode != NoClient && env.queueErrs == [] && exists i :: Delivers(src, missing, env.value, env.cancelAt, i) && missing[i] == k)
  }

  /** Nothing goes wrong in this batch. */
  ghost predicate Smooth<K, V(!new)>(src: Source<K, V>, mode: Mode, p: Policy, batch: seq<K>, env: BatchScript<K, V>) {
    var missing := ToLoad(src, mode, p, batch, env);
    missing == [] ||
      if mode == NoClient then env.direct(missing).errs == []
      else env.queueErrs == [] && |missing| <= env.cancelAt && forall i | 0 <= i < |missing| :: Flawless(src, env.value(src.keyOf(missing[i])))
  }

  /** One batch: what the store serves, and what is loaded of the rest. */
  method ReadAndLoad<K(==, !new), V(!new)>(src: Source<K, V>, mode: Mode, p: Policy, batch: seq<K>, ghost truth: F.Truth,
                                           env: BatchScript<K, V>, before: map<K, V>)
    returns (result: map<K, V>, loadErrs: F.Errors)
    requires ValidSource(src) && Agrees(src, truth) && HonestScript(src, p, truth, env) && Correct(src, before)
    ensures Correct(src, result)
    ensures forall k :: k in result <==> k in before || Gets(src, mode, p, batch, env, k)
    ensures loadErrs == [] <==> Smooth(src, mode, p, batch, env)
    ensures loadErrs == [] ==> forall k | k in batch && k in src.values :: k in result
  {
    hide ValidSource, Agrees, SoundAnswer, SoundReply, SoundEntry, ServableHit, WithinTtl, F.SoundValue, Correct, IsHit, Flawless, Unsettled;
    hide Served, Delivers;
    NothingIsCorrect(src);
    result, loadErrs := before, [];
    var missing := batch;
    if mode == WithStore {
      result, missing := ReadBatch(src, p, batch, env.answer, env.clock, result);
    }
    assert missing == ToLoad(src, mode, p, batch, env);
    if |missing| > 0 {
      var values: map<K, V> := map[];
      if mode == NoClient {
        var direct := env.direct(missing);
        assert Correct(src, direct.values);
        values, loadErrs := direct.values, direct.errs;
      } else if env.queueErrs != [] {
        loadErrs := env.queueErrs;
      } else {
        values, loadErrs := AwaitFlights(src, truth, missing, env.value, env.cancelAt);
      }
      result := Merge(src, result, missing, values);
    } else {
      NothingToLoad(src, missing, env);
    }
  }

  lemma NothingToLoad<K, V(!new)>(src: Source<K, V>, missing: seq<K>, env: BatchScript<K, V>)
    requires missing == []
    ensures forall i :: !Delivers(src, missing, env.value, env.cancelAt, i)
  {
  }

  /** Batch b exists and no cancellation came before it. */
  ghost predicate Reached<K, V>(unique: seq<K>, max: nat, script: nat -> BatchScript<K, V>, b: nat) {
    Start(b, max) < |unique| && forall c: nat | c <= b :: !script(c).canceled
  }

  /**
   The cached read refines the plain loader: whatever mix of hits, negatives, garbage, store
   failures, joined flights and cancellations the script holds, every returned pair equals the
   source, and a nil error means the result is exactly the source restricted to the keys.
   A batch keeps whatever its store, its loader or its flights deliver, error or not; the error
   is nil exactly when no batch is cancelled and nothing goes wrong in any of them.
  */
  method MGet<K(==, !new), V(!new)>(src: Source<K, V>, mode: Mode, p0: Policy, keys: seq<K>,
                                    ghost truth: F.Truth, script: nat -> BatchScript<K, V>)
    returns (result: map<K, V>, errs: F.Errors)
    requires ValidSource(src) && Agrees(src, truth)
    requires forall b :: HonestScript(src, Clamped(p0), truth, script(b))
    ensures Correct(src, result) && forall k | k in result :: k in keys
    ensures errs == [] ==> result == map k | k in keys && k in src.values :: src.values[k]
    ensures forall k :: k in result <==> Fetched(src, mode, Clamped(p0), FirstSeen(keys), script, k)
    ensures errs == [] <==> Untroubled(src, mode, Clamped(p0), FirstSeen(keys), script)
  {
    hide *;
    NothingIsCorrect(src);
    result, errs := map[], [];
    var p := Clamped(p0);
    BatchLimit(p0);
    var unique := Unique(keys);
    if |keys| == 0 {
      NoBatches(src, mode, p, keys, script);
      AllPresent(src, keys, result);
      return;
    }
    var start, batchNo := 0, 0;
    NoneYet(src, mode, p, unique, script);
    while start < |unique|
      invariant start == Start(batchNo, p.maxBatch) && Correct(src, result)
      invariant SoFar(src, mode, p, unique, script, batchNo, result, errs)
      decreases |unique| - start
    {
      var env := script(batchNo);
      if env.canceled {
        CancelledHere(src, mode, p, unique, script, batchNo, result, errs);
        errs := errs + [F.Canceled];
        break;
      }
      var end := if start + p.maxBatch > |unique| then |unique| else start + p.maxBatch;
      var batch := unique[start..end];
      ThisBatch(unique, p.maxBatch, batchNo);
      ghost var before, errsBefore := result, errs;
      var loadErrs;
      result, loadErrs := ReadAndLoad(src, mode, p, batch, truth, env, result);
      errs := errs + loadErrs;
      OneMore(src, mode, p, unique, script, batchNo, before, errsBefore, result, loadErrs);
      NextStart(batchNo, p.maxBatch);
      start, batchNo := start + p.maxBatch, batchNo + 1;
    }
    if start >= |unique| { AllRead(src, mode, p, unique, script, batchNo, result, errs); }
    if errs == [] { AllPresent(src, keys, result); }
  }

  /** After n batches: what they deliver, and whether all of them went well. */
  ghost predicate SoFar<K(!new), V(!new)>(src: Source<K, V>, mode: Mode, p: Policy, unique: seq<K>, script: nat -> BatchScript<K, V>, n: nat,
                                    result: map<K, V>, errs: F.Errors)
    requires p.maxBatch >= 0
  {
    && (forall c: nat | c < n :: !script(c).canceled && Start(c, p.maxBatch) < |unique|)
    && (forall k | k in result :: k in unique)
    && (errs == [] ==> forall j | 0 <= j < Start(n, p.maxBatch) && j < |unique| && unique[j] in src.values :: unique[j] in result)
    && (forall k :: k in result <==> exists c: nat :: c < n && Gets(src, mode, p, BatchAt(unique, p.maxBatch, c), script(c), k))
    && (errs == [] <==> forall c: nat | c < n :: Smooth(src, mode, p, BatchAt(unique, p.maxBatch, c), script(c)))
  }

  lemma NoneYet<K(!new), V(!new)>(src: Source<K, V>, mode: Mode, p: Policy, unique: seq<K>, script: nat -> BatchScript<K, V>)
    requires p.maxBatch >= 0
    ensures Start(0, p.maxBatch) == 0 && SoFar(src, mode, p, unique, script, 0, map[], [])
  {
  }

  lemma BatchIs<K>(unique: seq<K>, max: nat, b: nat)
    requires Start(b, max) <= |unique|
    ensures var batch, from := BatchAt(unique, max, b), Start(b, max);
      && |batch| == (if from + max > |unique| then |unique| - from else max)
      && (forall j | 0 <= j < |batch| :: batch[j] == unique[from + j])
      && forall k | k in batch :: k in unique
  {
    hide Start;
    var batch := BatchAt(unique, max, b);
    forall j | 0 <= j < |batch| ensures batch[j] in unique { assert batch[j] == unique[Start(b, max) + j]; }
  }

  lemma OneMore<K(!new), V(!new)>(src: Source<K, V>, mode: Mode, p: Policy, unique: seq<K>, script: nat -> BatchScript<K, V>, n: nat,
                            before: map<K, V>, errs: F.Errors, after: map<K, V>, loadErrs: F.Errors)
    requires p.maxBatch >= 1 && !script(n).canceled && Start(n, p.maxBatch) < |unique|
    requires SoFar(src, mode, p, unique, script, n, before, errs)
    requires var batch, env := BatchAt(unique, p.maxBatch, n), script(n);
      && (forall k :: k in after <==> k in before || Gets(src, mode, p, batch, env, k))
      && (loadErrs == [] <==> Smooth(src, mode, p, batch, env))
      && (loadErrs == [] ==> forall k | k in batch && k in src.values :: k in after)
    ensures SoFar(src, mode, p, unique, script, n + 1, after, errs + loadErrs)
  {
    hide Gets, Smooth, Start, BatchAt;
    var batch, env := BatchAt(unique, p.maxBatch, n), script(n);
    GetsListed(src, mode, p, batch, env);
    NextStart(n, p.maxBatch);
    BatchIs(unique, p.maxBatch, n);
    forall j | 0 <= j < Start(n + 1, p.maxBatch) && j < |unique| && unique[j] in src.values && errs + loadErrs == [] ensures unique[j] in after {
      if Start(n, p.maxBatch) <= j { assert unique[j] == batch[j - Start(n, p.maxBatch)]; }
    }
    forall k ensures k in after <==> exists c: nat :: c < n + 1 && Gets(src, mode, p, BatchAt(unique, p.maxBatch, c), script(c), k) {
      if k in before { var c: nat :| c < n && Gets(src, mode, p, BatchAt(unique, p.maxBatch, c), script(c), k); }
    }
  }

  /** Some batch that is reached delivers k. */
  ghost predicate Fetched<K, V(!new)>(src: Source<K, V>, mode: Mode, p: Policy, unique: seq<K>, script: nat -> BatchScript<K, V>, k: K)
    requires p.maxBatch >= 0
  {
    exists b: nat :: Reached(unique, p.maxBatch, script, b) && Gets(src, mode, p, BatchAt(unique, p.maxBatch, b), script(b), k)
  }

  ghost predicate Untroubled<K, V(!new)>(src: Source<K, V>, mode: Mode, p: Policy, unique: seq<K>, script: nat -> BatchScript<K, V>)
    requires p.maxBatch >= 0
  {
    forall b: nat | Start(b, p.maxBatch) < |unique| :: !script(b).canceled && Smooth(src, mode, p, BatchAt(unique, p.maxBatch, b), script(b))
  }

  lemma BatchLimit(p0: Policy)
    ensures 1 <= Clamped(p0).maxBatch <= MAX_BATCH
  {
  }

  lemma NothingIsCorrect<K, V>(src: Source<K, V>)
    ensures Correct(src, map[])
  {
  }

  lemma NoBatches<K, V(!new)>(src: Source<K, V>, mode: Mode, p: Policy, keys: seq<K>, script: nat -> BatchScript<K, V>)
    requires keys == [] && p.maxBatch >= 0
    ensures FirstSeen(keys) == [] && Untroubled(src, mode, p, [], script) && forall k :: !Fetched(src, mode, p, [], script, k)
  {
  }

  lemma GetsListed<K(!new), V(!new)>(src: Source<K, V>, mode: Mode, p: Policy, batch: seq<K>, env: BatchScript<K, V>)
    ensures forall k | Gets(src, mode, p, batch, env, k) :: k in batch
  {
    if env.answer.Replies? { UnsettledKeys(src, p, batch, env.answer.at, env.clock); }
  }

  lemma CancelledHere<K(!new), V(!new)>(src: Source<K, V>, mode: Mode, p: Policy, unique: seq<K>, script: nat -> BatchScript<K, V>, n: nat,
                                  result: map<K, V>, errs: F.Errors)
    requires p.maxBatch >= 0 && script(n).canceled && Start(n, p.maxBatch) < |unique| && SoFar(src, mode, p, unique, script, n, result, errs)
    ensures forall k :: k in result <==> Fetched(src, mode, p, unique, script, k)
    ensures !Untroubled(src, mode, p, unique, script) && forall k | k in result :: k in unique
  {
    hide Gets, Start, Smooth;
    forall b: nat ensures Reached(unique, p.maxBatch, script, b) <==> b < n { }
  }

  lemma AllRead<K(!new), V(!new)>(src: Source<K, V>, mode: Mode, p: Policy, unique: seq<K>, script: nat -> BatchScript<K, V>, n: nat,
                            result: map<K, V>, errs: F.Errors)
    requires p.maxBatch >= 1 && Start(n, p.maxBatch) >= |unique| && SoFar(src, mode, p, unique, script, n, result, errs)
    ensures forall k :: k in result <==> Fetched(src, mode, p, unique, script, k)
    ensures errs == [] <==> Untroubled(src, mode, p, unique, script)
    ensures forall k | k in result :: k in unique
    ensures errs == [] ==> forall k | k in unique && k in src.values :: k in result
  {
    forall b: nat ensures Start(b, p.maxBatch) < |unique| <==> b < n {
      if b > n { NextStart(b, p.maxBatch); }
    }
    hide Gets, Start, Smooth;
    forall b: nat ensures Reached(unique, p.maxBatch, script, b) <==> b < n { }
  }

  lemma AllPresent<K(!new), V>(src: Source<K, V>, keys: seq<K>, result: map<K, V>)
    requires Correct(src, result) && (forall k | k in result :: k in keys) && forall k | k in keys && k in src.values :: k in result
    ensures result == map k | k in keys && k in src.values :: src.values[k]
  {
  }

  /** Copies the loaded values of the missing keys, and nothing else, into the result. */
  method Merge<K(==, !new), V(!new)>(src: Source<K, V>, result: map<K, V>, missing: seq<K>, values: map<K, V>)
    returns (result': map<K, V>)
    requires Correct(src, result) && Correct(src, values)
    ensures Correct(src, result')
    ensures forall k :: k in result' <==> k in result || (k in missing && k in values)
  {
    result' := result;
    for i := 0 to |missing|
      invariant Correct(src, result')
      invariant forall k :: k in result' <==> k in result || (k in missing[..i] && k in values)
    {
      if missing[i] in values {
        result' := result'[missing[i] := values[missing[i]]];
      }
      assert missing[..i + 1] == missing[..i] + [missing[i]];
    }
  }
}
