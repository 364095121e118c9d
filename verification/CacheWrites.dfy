/**
 What workers write: cacheEntry (utils/cache/cache.go), callLoader and the write-backs
 (utils/cache/flight.go), and the stores any history of them leaves behind.
*/
module CacheWrites {
  import opened Common
  import opened CacheRead
  import F = CacheFlights

  // ---------------------------------------------------------------- cacheEntry

  /** What the marshalled envelope measures; the JSON writer is a parameter. */
  type Sizer = Envelope -> nat

  // Half a unit in the last place of a float64, relative to the value.
  const EPSILON := 1.0 / 9007199254740992.0

  // How results are rounded, and whether the platform fuses a product into the sum it feeds.
  datatype Float64 = Float64(round: real -> real, fused: bool)

  /** Section 4.3 of IEEE 754: away from overflow and underflow a result is off by at most half a unit in the last place. */
  ghost predicate RoundsToNearest(float: Float64) {
    forall x: real :: x >= 0.0 ==> x * (1.0 - EPSILON) <= float.round(x) <= x * (1.0 + EPSILON)
  }

  /** Why an entry may be left out. */
  ghost predicate Skippable(value: string, found: bool, deadline: Option<int>, p: Policy, now: int, size: Sizer) {
    var ttl := if found then p.ttl else p.negativeTtl;
    || ttl <= 0 || 9 * ttl < 10 * MILLISECOND
    || (deadline.Some? && deadline.value < now + MILLISECOND)
    || exists at :: now + MILLISECOND <= at && size(Envelope(1, Some(found), value, at)) > p.maxValueBytes
  }

  /**
   Builds the Redis write of one value at instant `now` with jitter r in [0, 1). A positive
   entry expires no later than its hard deadline and 1.1 times the TTL, and never sooner than
   a millisecond from now, so Redis is never asked for an immortal key.
  */
  method CacheEntry(key: F.Key, value: string, found: bool, deadline: Option<int>, p: Policy, now: int,
                    r: real, float: Float64, size: Sizer)
    returns (w: Option<Write>)
    requires 0.0 <= r < 1.0 && RoundsToNearest(float)
    ensures w.Some? ==>
      var e := w.value.entry;
      && w.value.key == key && e.schema == 1 && e.found == Some(found) && e.value == value
      && e.expiresAt == now + w.value.ttl && MILLISECOND <= w.value.ttl
      && WithinTtl(e.expiresAt, now, if found then p.ttl else p.negativeTtl)
      && (deadline.Some? ==> e.expiresAt <= deadline.value)
      && size(e) <= p.maxValueBytes
    // and no sooner than nine tenths of the TTL, up to the cut and the rounding, unless its deadline comes first
    ensures w.Some? ==>
      var ttl := if found then p.ttl else p.negativeTtl;
      deadline == Some(w.value.entry.expiresAt) || 9 * ttl <= 10 * w.value.ttl + 10 + ttl / FLOAT_SLACK
    // skipped only when caching is off, the life left is under a millisecond, or the entry is too big
    ensures w.None? ==> Skippable(value, found, deadline, p, now, size)
  {
    var ttl := p.ttl;
    if !found {
      ttl := p.negativeTtl;
    }
    if ttl <= 0 {
      return None;
    }
    ghost var full := ttl;
    ttl := Jittered(ttl, r, float);
    JitterBounds(full, r, float);
    var expires := now + ttl;
    if deadline.Some? && deadline.value < expires {
      expires := deadline.value;
    }
    ttl := expires - now;
    if ttl < MILLISECOND {
      return None;
    }
    var entry := Envelope(1, Some(found), value, expires);
    if size(entry) > p.maxValueBytes {
      return None;
    }
    return Some(Write(key, entry, ttl));
  }

  function Times(x: real, y: real): real { x * y }

  /** 0.9 + r * 0.2, each constant, product and sum rounded. */
  function Factor(r: real, float: Float64): real {
    var product := Times(r, float.round(0.2));
    float.round(float.round(0.9) + if float.fused then product else float.round(product))
  }

  /** The product is cut to whole nanoseconds. */
  function Jittered(ttl: int, r: real, float: Float64): int {
    float.round(Times(float.round(ttl as real), Factor(r, float))).Floor
  }

  /** The jittered TTL stays within nine and eleven tenths of the policy TTL, up to the cut and the rounding. */
  lemma JitterBounds(ttl: int, r: real, float: Float64)
    requires ttl > 0 && 0.0 <= r < 1.0 && RoundsToNearest(float)
    ensures 10 * Jittered(ttl, r, float) <= 11 * ttl + ttl / FLOAT_SLACK
    ensures 9 * ttl <= 10 * Jittered(ttl, r, float) + 10 + ttl / FLOAT_SLACK
    ensures Jittered(ttl, r, float) < MILLISECOND ==> 9 * ttl < 10 * MILLISECOND
  {
    hide RoundsToNearest, Factor, Times;
    FactorBounds(r, float);
    ProductBounds(ttl as real, Factor(r, float), float);
    CutBounds(ttl, float.round(Times(float.round(ttl as real), Factor(r, float))));
  }

  /** One rounding. */
  predicate Near(exact: real, rounded: real) {
    0.999999999999999888 * exact <= rounded <= 1.000000000000000112 * exact
  }

  lemma Rounded(x: real, float: Float64)
    requires x >= 0.0 && RoundsToNearest(float)
    ensures Near(x, float.round(x))
  {
    MulMonotone(x, 0.999999999999999888, 1.0 - EPSILON);
    MulMonotone(x, 1.0 + EPSILON, 1.000000000000000112);
  }

  lemma FactorBounds(r: real, float: Float64)
    requires 0.0 <= r < 1.0 && RoundsToNearest(float)
    ensures 0.8999999999999997 <= Factor(r, float) <= 1.1000000000000005
  {
    Rounded(0.2, float);
    Rounded(0.9, float);
    var fifth, tenths := float.round(0.2), float.round(0.9);
    var product := Times(r, fifth);
    Fraction(fifth, r);
    hide RoundsToNearest, Near, Times;
    Rounded(product, float);
    var part := if float.fused then product else float.round(product);
    Rounded(tenths + part, float);
    FactorSteps(fifth, tenths, product, part, Factor(r, float));
  }

  lemma FactorSteps(fifth: real, tenths: real, product: real, part: real, factor: real)
    requires Near(0.2, fifth) && Near(0.9, tenths) && 0.0 <= product <= fifth
    requires (part == product || Near(product, part)) && Near(tenths + part, factor)
    ensures 0.8999999999999997 <= factor <= 1.1000000000000005
  {
  }

  lemma ProductBounds(t: real, factor: real, float: Float64)
    requires t > 0.0 && RoundsToNearest(float) && 0.8999999999999997 <= factor <= 1.1000000000000005
    ensures 0.899999999999999 * t <= float.round(Times(float.round(t), factor)) <= 1.100000000000001 * t
  {
    Rounded(t, float);
    var rounded := float.round(t);
    Scaled(rounded, 0.8999999999999997, factor, 1.1000000000000005);
    hide RoundsToNearest, Near, Times;
    var product := Times(rounded, factor);
    Rounded(product, float);
    ProductSteps(t, rounded, product, float.round(product));
  }

  lemma ProductSteps(t: real, rounded: real, product: real, result: real)
    requires t > 0.0 && Near(t, rounded) && 0.8999999999999997 * rounded <= product <= 1.1000000000000005 * rounded && Near(product, result)
    ensures 0.899999999999999 * t <= result <= 1.100000000000001 * t
  {
  }

  lemma CutBounds(ttl: int, product: real)
    requires ttl > 0 && 0.899999999999999 * ttl as real <= product <= 1.100000000000001 * ttl as real
    ensures var j := product.Floor;
      && 10 * j <= 11 * ttl + ttl / FLOAT_SLACK && 9 * ttl <= 10 * j + 10 + ttl / FLOAT_SLACK
      && (j < MILLISECOND ==> 9 * ttl < 10 * MILLISECOND)
  {
    var j := product.Floor;
    assert j as real <= product < j as real + 1.0;
    assert (FLOAT_SLACK * (10 * j - 11 * ttl)) as real <= ttl as real;
    assert (FLOAT_SLACK * (9 * ttl - 10 * j - 10)) as real <= ttl as real;
    if j < MILLISECOND {
      assert (j + 1) as real <= MILLISECOND as real;
      assert (9 * ttl) as real <= (10 * MILLISECOND) as real + 1.0;
    }
  }

  lemma Fraction(t: real, r: real)
    requires 0.0 <= t && 0.0 <= r < 1.0
    ensures 0.0 <= Times(r, t) <= t
  {
    MulMonotone(t, r, 1.0);
    MulMonotone(t, 0.0, r);
  }

  lemma Scaled(t: real, low: real, x: real, high: real)
    requires 0.0 <= t && low <= x <= high
    ensures low * t <= Times(t, x) <= high * t
  {
    MulMonotone(t, low, x);
    MulMonotone(t, x, high);
  }

  lemma MulMonotone(t: real, x: real, y: real)
    requires 0.0 <= t && x <= y
    ensures t * x <= t * y
  {
  }

  // ---------------------------------------------------------------- callLoader

  datatype LoaderOutcome<K, V> = Answered(values: map<K, V>, errs: F.Errors) | Panicked

  /** The loader contract of the package: requested keys only, and a nil error checked them all. */
  ghost predicate HonestLoader<K(!new), V(!new)>(src: Source<K, V>, keys: seq<K>, o: LoaderOutcome<K, V>) {
    o.Answered? ==>
      && Correct(src, o.values) && (forall k | k in o.values :: k in keys)
      && (o.errs == [] ==> forall k | k in keys && k in src.values :: k in o.values)
  }

  /** The flight value the protocol prescribes for one key, see CacheFlights.LoadedEntry. */
  function EntryFor<K, V>(src: Source<K, V>, values: map<K, V>, errs: F.Errors, k: K): F.FlightValue {
    var fk := src.keyOf(k);
    F.LoadedEntry(if k in values then map[fk := src.codec.encode(values[k])] else map[], errs, fk)
  }

  function PublishedFor<K, V>(src: Source<K, V>, outcome: LoaderOutcome<K, V>, k: K): F.FlightValue {
    if outcome.Panicked? then F.FlightValue("", false, [F.LoaderPanicked])
    else EntryFor(src, outcome.values, outcome.errs, k)
  }

  /** When a write was computed. */
  function WrittenAt(w: Write): int { w.entry.expiresAt - w.ttl }

  /** A write that may reach Redis without making it lie. */
  ghost predicate SoundWrite<K(!new), V>(src: Source<K, V>, p: Policy, w: Write) {
    exists k :: src.keyOf(k) == w.key && w.entry.found.Some? && SoundEntry(src, p, k, w.entry, WrittenAt(w))
  }

  predicate StampedBy(clock: Clock, n: nat, w: Write) {
    exists i: nat :: i < n && clock(i) == WrittenAt(w)
  }

  /** What a waiter for k must be told of the loader's answer. */
  predicate Tells<K, V>(src: Source<K, V>, outcome: LoaderOutcome<K, V>, k: K, v: F.FlightValue) {
    if outcome.Panicked? then !v.found && v.errs == [F.LoaderPanicked]
    else if k !in outcome.values then !v.found && v.errs == outcome.errs
    else if src.codec.encode(outcome.values[k]).None? then !v.found && v.errs == outcome.errs + [F.EncodeFailed]
    else v.found && src.codec.encode(outcome.values[k]) == Some(v.data) && v.errs == outcome.errs
  }

  /** An answer worth caching: a value that encodes and has a deadline, or an absence no error casts doubt on. */
  predicate Cacheable<K, V>(src: Source<K, V>, outcome: LoaderOutcome<K, V>, k: K) {
    outcome.Answered? &&
      if k in outcome.values then src.codec.encode(outcome.values[k]).Some? && src.expires(outcome.values[k]) != Some(0) else outcome.errs == []
  }

  /** w caches the loader's answer for k, computed at `now`. */
  predicate Caches<K, V>(src: Source<K, V>, p: Policy, outcome: LoaderOutcome<K, V>, k: K, now: int, size: Sizer, w: Write) {
    && Cacheable(src, outcome, k) && w.key == src.keyOf(k) && WrittenAt(w) == now && size(w.entry) <= p.maxValueBytes
    && w.entry.schema == 1 && w.entry.found == Some(k in outcome.values)
    && (k in outcome.values ==> src.codec.encode(outcome.values[k]) == Some(w.entry.value))
  }

  ghost predicate MayBeSkipped<K, V>(src: Source<K, V>, p: Policy, outcome: LoaderOutcome<K, V>, k: K, now: int, size: Sizer)
    requires Cacheable(src, outcome, k)
  {
    if k in outcome.values
    then Skippable(src.codec.encode(outcome.values[k]).value, true, src.expires(outcome.values[k]), p, now, size)
    else Skippable("", false, None, p, now, size)
  }

  /** Nothing cacheable is dropped without a reason. */
  ghost predicate Cached<K, V>(src: Source<K, V>, p: Policy, outcome: LoaderOutcome<K, V>, k: K, now: int, size: Sizer, writes: seq<Write>) {
    Cacheable(src, outcome, k) ==>
      MayBeSkipped(src, p, outcome, k, now, size) || exists w :: w in writes && Caches(src, p, outcome, k, now, size, w)
  }

  /** Every write caches the answer for one of the first n keys. */
  ghost predicate WritesAnswers<K, V>(src: Source<K, V>, p: Policy, outcome: LoaderOutcome<K, V>, keys: seq<K>, n: nat, clock: Clock, size: Sizer,
                                      writes: seq<Write>)
    requires n <= |keys|
  {
    forall w | w in writes :: exists i: nat :: i < n && Caches(src, p, outcome, keys[i], clock(i), size, w)
  }

  /**
   The worker's body: one flight value per key and the write-backs. Panics fail every key and
   write nothing; an error together with an absent key is never cached as a negative.
  */
  method CallLoader<K(==, !new), V(!new)>(src: Source<K, V>, p: Policy, keys: seq<K>, outcome: LoaderOutcome<K, V>,
                                          clock: Clock, jitter: nat -> real, float: Float64, size: Sizer)
    returns (values: map<F.Key, F.FlightValue>, writes: seq<Write>, errs: F.Errors)
    requires ValidSource(src) && HonestLoader(src, keys, outcome) && Distinct(keys)
    requires RoundsToNearest(float) && forall i :: 0.0 <= jitter(i) < 1.0
    ensures forall fk :: fk in values <==> exists k | k in keys :: src.keyOf(k) == fk
    ensures forall k | k in keys :: src.keyOf(k) in values && values[src.keyOf(k)] == PublishedFor(src, outcome, k)
    ensures forall k | k in keys :: Tells(src, outcome, k, values[src.keyOf(k)])
    // exactly the answers worth caching are written, each stamped by its own reading of the clock
    ensures forall i | 0 <= i < |keys| :: Cached(src, p, outcome, keys[i], clock(i), size, writes)
    ensures WritesAnswers(src, p, outcome, keys, |keys|, clock, size, writes)
    ensures forall w | w in writes :: SoundWrite(src, p, w) && w.ttl >= MILLISECOND && StampedBy(clock, |keys|, w)
    ensures outcome.Panicked? ==> writes == [] && errs == [F.LoaderPanicked]
    ensures outcome.Answered? && errs == [] ==> outcome.errs == []
  {
    values, writes, errs := map[], [], [];
    if outcome.Panicked? {
      errs := [F.LoaderPanicked];
      for i := 0 to |keys|
        invariant ValuesFor(src, outcome, keys, i, values)
      {
        OneMoreValue(src, outcome, keys, i, values);
        values := values[src.keyOf(keys[i]) := F.FlightValue("", false, errs)];
      }
      AllTold(src, outcome, keys, values);
      return;
    }
    errs := outcome.errs;
    hide ValidSource, SoundWrite, HonestLoader, Tells, Cached, Caches, WrittenAt, EntryFor, RoundsToNearest, ValuesFor, PublishedFor;
    for i := 0 to |keys|
      invariant errs == [] ==> outcome.errs == []
      invariant ValuesFor(src, outcome, keys, i, values)
      invariant forall w | w in writes :: SoundWrite(src, p, w) && w.ttl >= MILLISECOND && StampedBy(clock, i, w)
      invariant forall j | 0 <= j < i :: Cached(src, p, outcome, keys[j], clock(j), size, writes)
      invariant WritesAnswers(src, p, outcome, keys, i, clock, size, writes)
    {
      var entry, w := LoadedOne(src, p, keys, outcome, keys[i], clock(i), jitter(i), float, size);
      if entry.errs != outcome.errs { errs := entry.errs; }
      OneMoreValue(src, outcome, keys, i, values);
      values := values[src.keyOf(keys[i]) := entry];
      ghost var written := writes;
      if w.Some? {
        writes := writes + [w.value];
        assert w.value in writes;
      }
      CachedSoFar(src, p, outcome, keys, i, clock, size, written, writes, w);
    }
    AllTold(src, outcome, keys, values);
  }

  /** The flight values of the first n keys. */
  ghost predicate ValuesFor<K, V>(src: Source<K, V>, outcome: LoaderOutcome<K, V>, keys: seq<K>, n: nat, values: map<F.Key, F.FlightValue>)
    requires n <= |keys|
  {
    && (forall fk :: fk in values <==> exists j | 0 <= j < n :: src.keyOf(keys[j]) == fk)
    && forall j | 0 <= j < n :: values[src.keyOf(keys[j])] == PublishedFor(src, outcome, keys[j])
  }

  lemma OneMoreValue<K(!new), V(!new)>(src: Source<K, V>, outcome: LoaderOutcome<K, V>, keys: seq<K>, i: nat, values: map<F.Key, F.FlightValue>)
    requires ValidSource(src) && Distinct(keys) && i < |keys| && ValuesFor(src, outcome, keys, i, values)
    ensures ValuesFor(src, outcome, keys, i + 1, values[src.keyOf(keys[i]) := PublishedFor(src, outcome, keys[i])])
  {
    hide PublishedFor;
  }

  lemma AllTold<K, V>(src: Source<K, V>, outcome: LoaderOutcome<K, V>, keys: seq<K>, values: map<F.Key, F.FlightValue>)
    requires ValuesFor(src, outcome, keys, |keys|, values)
    ensures forall fk :: fk in values <==> exists k | k in keys :: src.keyOf(k) == fk
    ensures forall k | k in keys :: src.keyOf(k) in values && values[src.keyOf(k)] == PublishedFor(src, outcome, k)
    ensures forall k | k in keys :: Tells(src, outcome, k, values[src.keyOf(k)])
  {
    hide PublishedFor, Tells;
    forall k | k in keys ensures src.keyOf(k) in values && values[src.keyOf(k)] == PublishedFor(src, outcome, k) {
      var j :| 0 <= j < |keys| && keys[j] == k;
    }
    forall k | k in keys ensures Tells(src, outcome, k, values[src.keyOf(k)]) { EntryTells(src, outcome, k); }
  }

  lemma EntryTells<K, V>(src: Source<K, V>, outcome: LoaderOutcome<K, V>, k: K)
    ensures Tells(src, outcome, k, PublishedFor(src, outcome, k))
  {
  }

  lemma CachedSoFar<K, V>(src: Source<K, V>, p: Policy, outcome: LoaderOutcome<K, V>, keys: seq<K>, i: nat, clock: Clock, size: Sizer,
                          written: seq<Write>, writes: seq<Write>, w: Option<Write>)
    requires i < |keys| && WritesAnswers(src, p, outcome, keys, i, clock, size, written)
    requires forall j | 0 <= j < i :: Cached(src, p, outcome, keys[j], clock(j), size, written)
    requires writes == if w.Some? then written + [w.value] else written
    requires if w.Some? then Caches(src, p, outcome, keys[i], clock(i), size, w.value)
             else Cacheable(src, outcome, keys[i]) ==> MayBeSkipped(src, p, outcome, keys[i], clock(i), size)
    ensures WritesAnswers(src, p, outcome, keys, i + 1, clock, size, writes)
    ensures forall j | 0 <= j <= i :: Cached(src, p, outcome, keys[j], clock(j), size, writes)
  {
    hide Caches, Cacheable, MayBeSkipped;
    if w.Some? { assert w.value in writes; }
    forall j | 0 <= j < i ensures Cached(src, p, outcome, keys[j], clock(j), size, writes) {
      assert Cached(src, p, outcome, keys[j], clock(j), size, written);
    }
  }

  /** One key of the loop: its flight value, and its cache entry if it has one. */
  method LoadedOne<K(==, !new), V(!new)>(src: Source<K, V>, p: Policy, ghost keys: seq<K>, outcome: LoaderOutcome<K, V>, key: K, now: int,
                                         r: real, float: Float64, size: Sizer)
    returns (entry: F.FlightValue, w: Option<Write>)
    requires ValidSource(src) && HonestLoader(src, keys, outcome) && outcome.Answered? && key in keys
    requires RoundsToNearest(float) && 0.0 <= r < 1.0
    ensures entry == PublishedFor(src, outcome, key)
    ensures w.Some? ==> Caches(src, p, outcome, key, now, size, w.value) && SoundWrite(src, p, w.value) && w.value.ttl >= MILLISECOND
    ensures w.Some? ==> WrittenAt(w.value) == now
    ensures w.None? && Cacheable(src, outcome, key) ==> MayBeSkipped(src, p, outcome, key, now, size)
  {
    var found := key in outcome.values;
    entry := F.FlightValue("", found, outcome.errs);
    var deadline: Option<int> := None;
    var canCache := found || outcome.errs == [];
    if found {
      var data := src.codec.encode(outcome.values[key]);
      if data.None? {
        entry := F.FlightValue("", false, outcome.errs + [F.EncodeFailed]);
        canCache := false;
      } else {
        entry := F.FlightValue(data.value, true, outcome.errs);
      }
      deadline := src.expires(outcome.values[key]);
      // 0 is Go's zero time: a DTO without a deadline is not cached
      canCache := canCache && deadline != Some(0);
    }
    w := None;
    if canCache {
      w := CacheEntry(src.keyOf(key), entry.data, found, deadline, p, now, r, float, size);
      if w.Some? {
        assert src.keyOf(key) == w.value.key && SoundEntry(src, p, key, w.value.entry, WrittenAt(w.value));
      }
    }
  }

  // ---------------------------------------------------------------- write-backs

  /** Redis as seen by this prefix: what a key would answer now. */
  type Store = map<F.Key, Reply>

  ghost predicate SoundStore<K(!new), V>(src: Source<K, V>, p: Policy, store: Store) {
    forall k {:trigger src.keyOf(k)} :: src.keyOf(k) in store ==> SoundReply(src, p, k, store[src.keyOf(k)])
  }

  function Apply(store: Store, writes: seq<Write>, size: Sizer): Store
    decreases |writes|
  {
    if writes == [] then store
    else
      var w := writes[0];
      Apply(store[w.key := Text(size(w.entry), Some(w.entry), WrittenAt(w))], writes[1..], size)
  }

  /** After the pipeline a key answers with what was last written under it. */
  lemma {:induction false} LastWriteAnswers(store: Store, writes: seq<Write>, i: nat, size: Sizer)
    requires i < |writes| && forall j | i < j < |writes| :: writes[j].key != writes[i].key
    ensures var after, w := Apply(store, writes, size), writes[i];
      w.key in after && after[w.key] == Text(size(w.entry), Some(w.entry), WrittenAt(w))
    decreases |writes|
  {
    var w := writes[0];
    var store' := store[w.key := Text(size(w.entry), Some(w.entry), WrittenAt(w))];
    if i == 0 { OthersStay(store', writes[1..], w.key, size); } else { LastWriteAnswers(store', writes[1..], i - 1, size); }
  }

  lemma {:induction false} OthersStay(store: Store, writes: seq<Write>, key: F.Key, size: Sizer)
    requires forall j | 0 <= j < |writes| :: writes[j].key != key
    ensures key in Apply(store, writes, size) <==> key in store
    ensures key in store ==> Apply(store, writes, size)[key] == store[key]
    decreases |writes|
  {
    if writes != [] {
      var w := writes[0];
      OthersStay(store[w.key := Text(size(w.entry), Some(w.entry), WrittenAt(w))], writes[1..], key, size);
    }
  }

  /** What a worker cached is what a reader finds: until it expires the value is served, and an absence is believed. */
  lemma CachedThenFound<K(!new), V(!new)>(src: Source<K, V>, p: Policy, outcome: LoaderOutcome<K, V>, k: K, store: Store, writes: seq<Write>,
                                          i: nat, written: int, now: int, size: Sizer)
    requires ValidSource(src) && i < |writes| && Caches(src, p, outcome, k, written, size, writes[i])
    requires forall j | i < j < |writes| :: writes[j].key != writes[i].key
    requires 0 < now < writes[i].entry.expiresAt && (k in outcome.values ==> writes[i].entry.value != "")
    ensures var after := Apply(store, writes, size);
      && src.keyOf(k) in after
      && (k in outcome.values ==>
            IsHit(src, p, k, after[src.keyOf(k)], now) && src.codec.decode(writes[i].entry.value) == Some(outcome.values[k]))
      && (k !in outcome.values ==> IsNegative(p, after[src.keyOf(k)], now))
  {
    LastWriteAnswers(store, writes, i, size);
    hide Apply;
    if k in outcome.values { assert src.codec.encode(outcome.values[k]).Some?; }
  }

  /** Write-backs keep the store sound, whichever prefix of the pipeline reaches it. */
  lemma {:induction false} WriteBacksKeepStoreSound<K(!new), V(!new)>(src: Source<K, V>, p: Policy, store: Store, writes: seq<Write>, size: Sizer)
    requires ValidSource(src) && SoundStore(src, p, store)
    requires forall w | w in writes :: SoundWrite(src, p, w)
    ensures SoundStore(src, p, Apply(store, writes, size))
    decreases |writes|
  {
    if writes != [] {
      var w := writes[0];
      assert SoundWrite(src, p, w);
      var k :| src.keyOf(k) == w.key && w.entry.found.Some? && SoundEntry(src, p, k, w.entry, WrittenAt(w));
      WriteBacksKeepStoreSound(src, p, store[w.key := Text(size(w.entry), Some(w.entry), WrittenAt(w))], writes[1..], size);
    }
  }

  /** What happens to the store: write-backs of workers, and keys it forgets or that expire. */
  datatype StoreEvent = Wrote(writes: seq<Write>) | Forgot(keys: set<F.Key>)

  function StoreAfter(events: seq<StoreEvent>, size: Sizer): Store {
    if events == [] then map[]
    else
      var store := StoreAfter(events[..|events| - 1], size);
      match events[|events| - 1]
      case Wrote(writes) => Apply(store, writes, size)
      case Forgot(keys) => store - keys
  }

  ghost predicate SoundEvents<K(!new), V>(src: Source<K, V>, p: Policy, events: seq<StoreEvent>) {
    forall i | 0 <= i < |events| && events[i].Wrote? :: forall w | w in events[i].writes :: SoundWrite(src, p, w)
  }

  /** Every store the workers can leave behind is truthful about the source. */
  lemma {:induction false} ReachableStoreIsSound<K(!new), V(!new)>(src: Source<K, V>, p: Policy, events: seq<StoreEvent>, size: Sizer)
    requires ValidSource(src) && SoundEvents(src, p, events)
    ensures SoundStore(src, p, StoreAfter(events, size))
  {
    if events != [] {
      var front, last := events[..|events| - 1], events[|events| - 1];
      assert forall i | 0 <= i < |front| :: front[i] == events[i];
      ReachableStoreIsSound(src, p, front, size);
      if last.Wrote? {
        assert forall w | w in last.writes :: SoundWrite(src, p, w);
        WriteBacksKeepStoreSound(src, p, StoreAfter(front, size), last.writes, size);
      }
    }
  }

  /** After any history of write-backs and losses, a positive hit carries the source's value and is served before its
      deadline and before 1.1 TTL after it was written. */
  lemma HitsAreFresh<K(!new), V(!new)>(src: Source<K, V>, p: Policy, events: seq<StoreEvent>, size: Sizer, k: K, now: int)
    requires ValidSource(src) && SoundEvents(src, p, events) && src.keyOf(k) in StoreAfter(events, size)
    requires IsHit(src, p, k, StoreAfter(events, size)[src.keyOf(k)], now)
    ensures var r := StoreAfter(events, size)[src.keyOf(k)];
      && k in src.values && r.parsed.Some? && src.codec.decode(r.parsed.value.value) == Some(src.values[k])
      && 10 * now < 10 * r.writtenAt + 11 * p.ttl + p.ttl / FLOAT_SLACK
      && (p.ttl < FLOAT_SLACK ==> 10 * now < 10 * r.writtenAt + 11 * p.ttl)
      && (src.expires(src.values[k]).Some? ==> now < src.expires(src.values[k]).value)
  {
    ReachableStoreIsSound(src, p, events, size);
  }

  // ---------------------------------------------------------------- bridge to the flight protocol

  /** The JSON texts of a set of values, under their full keys. */
  ghost function Encoded<K(!new), V(!new)>(src: Source<K, V>, values: map<K, V>): F.Truth
    requires Injective(src.keyOf)
  {
    map k | k in values :: src.keyOf(k) := src.codec.encode(values[k])
  }

  /** With injective keys every source has a truth the protocol can run against. */
  lemma EverySourceHasATruth<K(!new), V(!new)>(src: Source<K, V>)
    requires ValidSource(src)
    ensures Agrees(src, Encoded(src, src.values))
  {
    var truth := Encoded(src, src.values);
    forall k ensures if k in src.values then src.keyOf(k) in truth && truth[src.keyOf(k)] == src.codec.encode(src.values[k])
                     else src.keyOf(k) !in truth
    {
      assert forall j :: src.keyOf(j) == src.keyOf(k) ==> j == k;
    }
  }

  /**
   A loader that keeps its contract is an honest worker of the flight protocol run against the
   encoded source, which is a truth readers agree with, and callLoader computes exactly the
   values the protocol attributes to that worker.
  */
  lemma LoaderServesFlights<K(!new), V(!new)>(src: Source<K, V>, keys: seq<K>, outcome: LoaderOutcome<K, V>)
    requires ValidSource(src) && HonestLoader(src, keys, outcome) && outcome.Answered?
    ensures var fullKeys := set k | k in keys :: src.keyOf(k);
      var seen := F.Returned(Encoded(src, outcome.values), outcome.errs);
      && Agrees(src, Encoded(src, src.values)) && F.Honest(Encoded(src, src.values), fullKeys, seen)
      && forall k | k in keys :: src.keyOf(k) in fullKeys
           && F.LoadedValues(fullKeys, seen)[src.keyOf(k)] == PublishedFor(src, outcome, k)
  {
    EverySourceHasATruth(src);
    var fullKeys := set k | k in keys :: src.keyOf(k);
    var encoded := Encoded(src, outcome.values);
    var truth := Encoded(src, src.values);
    forall fk | fk in encoded ensures fk in truth && encoded[fk] == truth[fk] && fk in fullKeys {
      var k :| k in outcome.values && src.keyOf(k) == fk;
      assert k in src.values && k in keys;
    }
    if outcome.errs == [] {
      forall fk | fk in fullKeys && fk in truth ensures fk in encoded {
        var k :| k in keys && src.keyOf(k) == fk;
        var j :| j in src.values && src.keyOf(j) == fk;
        assert j == k;
      }
    }
    forall k | k in keys ensures src.keyOf(k) in fullKeys
      && F.LoadedEntry(encoded, outcome.errs, src.keyOf(k)) == PublishedFor(src, outcome, k)
    {
      if src.keyOf(k) in encoded {
        var j :| j in outcome.values && src.keyOf(j) == src.keyOf(k);
        assert j == k;
      }
    }
  }
}
