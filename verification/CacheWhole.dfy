/**
 The cached read over the cache as it can really be: the flights a caller reads come from a run of the flight
 protocol (utils/cache/flight.go), the replies from a store that workers wrote (utils/cache/cache.go).
*/
module CacheWhole {
  import opened CacheRead
  import opened CacheWrites
  import F = CacheFlights

  /** What caller c reads of the flights it joined: completed values, or an error where it did not wait. */
  ghost function FlightReader(s: F.State, c: nat): F.Key -> F.FlightValue {
    fk => if c in s.callers && F.DoneAt(s.arena, s.callers[c].calls, fk) then s.arena[s.callers[c].calls[fk]].value
          else F.FlightValue("", false, [F.Canceled])
  }

  /** In every reachable state of the protocol, what a caller reads is sound for the source. */
  lemma ReadersSeeSoundValues(cfg: F.Config, run: seq<F.Action>, c: nat)
    requires F.ValidRun(cfg, F.Initial, run)
    ensures forall k :: F.SoundValue(cfg.truth, k, FlightReader(F.Exec(cfg, F.Initial, run), c)(k))
  {
    F.InitialInv(cfg);
    F.RunKeepsInv(cfg, F.Initial, run);
    var s := F.Exec(cfg, F.Initial, run);
    hide F.ValidRun, F.Exec;
    forall k ensures F.SoundValue(cfg.truth, k, FlightReader(s, c)(k)) {
      if c in s.callers && F.DoneAt(s.arena, s.callers[c].calls, k) {
        assert F.CallerOk(s.arena, s.callers[c]);
        assert F.FlightOf(s.arena, s.callers[c].calls, k);
        assert F.SoundFlight(cfg.truth, s.arena[s.callers[c].calls[k]]);
      }
    }
  }

  /** What a store answers to the keys asked for; Redis may also fail or answer out of shape. */
  ghost predicate AnswersFrom(store: Store, a: StoreAnswer) {
    a.Replies? ==> forall fk :: a.at(fk) == if fk in store then store[fk] else Nothing
  }

  /** A batch met by a reachable cache: its flights come from a run of the protocol, its replies from a store that
      workers wrote, its direct loads from a loader that keeps its contract. */
  ghost predicate Arises<K(!new), V(!new)>(src: Source<K, V>, p: Policy, cfg: F.Config, size: Sizer, b: BatchScript<K, V>) {
    && (exists run, c: nat :: RunShows(cfg, run, c, b.value))
    && (exists events :: SoundEvents(src, p, events) && AnswersFrom(StoreAfter(events, size), b.answer))
    && (forall ks {:trigger b.direct(ks)} :: Correct(src, b.direct(ks).values)
         && (b.direct(ks).errs == [] ==> forall k | k in ks && k in src.values :: k in b.direct(ks).values))
  }

  ghost predicate RunShows(cfg: F.Config, run: seq<F.Action>, c: nat, value: F.Key -> F.FlightValue) {
    F.ValidRun(cfg, F.Initial, run) && value == FlightReader(F.Exec(cfg, F.Initial, run), c)
  }

  lemma ArisingIsHonest<K(!new), V(!new)>(src: Source<K, V>, p: Policy, cfg: F.Config, size: Sizer, b: BatchScript<K, V>)
    requires ValidSource(src) && Arises(src, p, cfg, size, b)
    ensures HonestScript(src, p, cfg.truth, b)
  {
    var run, c: nat :| RunShows(cfg, run, c, b.value);
    ReadersSeeSoundValues(cfg, run, c);
    var events :| SoundEvents(src, p, events) && AnswersFrom(StoreAfter(events, size), b.answer);
    ReachableStoreIsSound(src, p, events, size);
    hide F.ValidRun, F.Exec, StoreAfter, FlightReader;
  }

  /**
   The cached read over the cache as it can really be: every batch meets flights of some reachable state of the
   protocol and a store some history of workers left. Nothing is assumed of their values.
  */
  method MGetFromCache<K(==, !new), V(!new)>(src: Source<K, V>, mode: Mode, p0: Policy, keys: seq<K>,
                                             ghost cfg: F.Config, ghost size: Sizer, script: nat -> BatchScript<K, V>)
    returns (result: map<K, V>, errs: F.Errors)
    requires ValidSource(src) && Agrees(src, cfg.truth)
    requires forall b :: Arises(src, Clamped(p0), cfg, size, script(b))
    ensures Correct(src, result) && forall k | k in result :: k in keys
    ensures errs == [] ==> result == map k | k in keys && k in src.values :: src.values[k]
    ensures forall k :: k in result <==> Fetched(src, mode, Clamped(p0), FirstSeen(keys), script, k)
    ensures errs == [] <==> Untroubled(src, mode, Clamped(p0), FirstSeen(keys), script)
  {
    forall b ensures HonestScript(src, Clamped(p0), cfg.truth, script(b)) {
      ArisingIsHonest(src, Clamped(p0), cfg, size, script(b));
    }
    result, errs := MGet(src, mode, p0, keys, cfg.truth, script);
  }
}
