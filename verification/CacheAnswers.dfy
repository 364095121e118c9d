/**
 Where the value of a flight comes from (utils/cache/flight.go): whatever a flight is completed with was answered
 for its key by the loader of the generation that closed it, or is the deadline error of a generation that expired.
 */
module CacheAnswers {
  import opened Common
  import opened CacheFlights

  /** What the outcome of a loader call says about one key, field by field. */
  predicate Says(outcome: Outcome, k: Key, v: FlightValue) {
    match outcome
    case Panicked => !v.found && v.errs == [LoaderPanicked]
    case Returned(values, errs) =>
      if k !in values then !v.found && v.errs == errs
      else if values[k].None? then !v.found && v.errs == errs + [EncodeFailed]
      else v.found && values[k] == Some(v.data) && v.errs == errs
  }

  /** The worker of generation g returned with an outcome that says v about k. */
  ghost predicate Answered(past: seq<Action>, g: nat, k: Key, v: FlightValue) {
    exists i :: 0 <= i < |past| && past[i].WorkerReturns? && past[i].g == g && Says(past[i].outcome, k, v)
  }

  ghost predicate Expired(past: seq<Action>, g: nat) {
    exists i :: 0 <= i < |past| && past[i] == Expire(g)
  }

  /** Generation g answers k with v: its loader said so, or its deadline passed. */
  ghost predicate Explains(past: seq<Action>, g: nat, k: Key, v: FlightValue) {
    Answered(past, g, k, v) || (Expired(past, g) && !v.found && v.errs == [DeadlineExceeded])
  }

  ghost predicate AllAnswered(past: seq<Action>, g: nat, keys: set<Key>, values: map<Key, FlightValue>) {
    forall k | k in keys :: k in values && Answered(past, g, k, values[k])
  }

  ghost predicate GenExplained(past: seq<Action>, g: nat, gen: Generation) {
    && (gen.loaded.Some? ==> AllAnswered(past, g, gen.owned.Keys, gen.loaded.value))
    && (gen.supervisor.Storing? || gen.supervisor.Closing? ==> AllAnswered(past, g, gen.owned.Keys, gen.supervisor.values))
    && (gen.expired || gen.supervisor == Failing ==> Expired(past, g))
  }

  ghost predicate FlightExplained(past: seq<Action>, flight: Flight) {
    flight.Done? ==> exists g :: Explains(past, g, flight.key, flight.value)
  }

  ghost predicate Explained(past: seq<Action>, s: State) {
    && (forall g: nat | g < |s.gens| :: GenExplained(past, g, s.gens[g]))
    && (forall f: nat | f < |s.arena| :: FlightExplained(past, s.arena[f]))
  }

  /** More past explains no less. */
  lemma PastGrows(past: seq<Action>, a: Action, g: nat, k: Key, v: FlightValue)
    ensures Answered(past, g, k, v) ==> Answered(past + [a], g, k, v)
    ensures Expired(past, g) ==> Expired(past + [a], g)
  {
    var more := past + [a];
    assert forall i | 0 <= i < |past| :: more[i] == past[i];
  }

  lemma GenStays(past: seq<Action>, a: Action, g: nat, gen: Generation)
    requires GenExplained(past, g, gen)
    ensures GenExplained(past + [a], g, gen)
  {
    forall k, v ensures Answered(past, g, k, v) ==> Answered(past + [a], g, k, v) { PastGrows(past, a, g, k, v); }
    PastGrows(past, a, g, "", FlightValue("", false, []));
    hide Answered, Expired;
  }

  lemma FlightStays(past: seq<Action>, a: Action, flight: Flight)
    requires FlightExplained(past, flight)
    ensures FlightExplained(past + [a], flight)
  {
    if flight.Done? {
      var g :| Explains(past, g, flight.key, flight.value);
      PastGrows(past, a, g, flight.key, flight.value);
      assert Explains(past + [a], g, flight.key, flight.value);
    }
  }

  /** A step of the generation itself. */
  lemma OwnStep(truth: Truth, past: seq<Action>, a: Action, gen: Generation)
    requires IsGenAction(a) && GenReady(truth, gen, a) && GenExplained(past, a.g, gen)
    ensures GenExplained(past + [a], a.g, NextGen(truth, gen, a))
  {
    GenStays(past, a, a.g, gen);
    var more := past + [a];
    assert more[|past|] == a;
    if a.WorkerReturns? {
      var values := LoadedValues(gen.owned.Keys, a.outcome);
      forall k | k in gen.owned.Keys ensures k in values && Answered(more, a.g, k, values[k]) {
        assert Says(more[|past|].outcome, k, values[k]);
      }
    }
    hide Answered;
  }

  /** What a closing supervisor publishes for a key is explained. */
  lemma PublishedExplained(past: seq<Action>, g: nat, gen: Generation, k: Key)
    requires GenExplained(past, g, gen) && k in gen.owned && (gen.supervisor.Closing? || gen.supervisor == Failing)
    ensures Explains(past, g, k, ValueFor(Published(gen), k))
  {
    hide Answered, Expired;
  }

  lemma CloseExplains(cfg: Config, past: seq<Action>, s: State, g: nat)
    requires Inv(cfg, s) && Enabled(cfg, s, CloseFlights(g)) && Explained(past, s)
    ensures forall f: nat | f < |s.arena| :: FlightExplained(past, Step(cfg, s, CloseFlights(g)).arena[f])
  {
    GenOwnsOpen(s, g);
    var gen := s.gens[g];
    assert GenExplained(past, g, gen);
    hide Inv, GenExplained, Published, Explains;
    forall f: nat | f < |s.arena| ensures FlightExplained(past, Step(cfg, s, CloseFlights(g)).arena[f]) {
      if f in gen.owned.Values {
        PublishedExplained(past, g, gen, s.arena[f].key);
      } else {
        assert FlightExplained(past, s.arena[f]);
      }
    }
  }

  /** What a step makes of the generations. */
  lemma GenAfter(cfg: Config, s: State, a: Action, g: nat)
    requires Enabled(cfg, s, a) && g < |Step(cfg, s, a).gens|
    ensures var gen' := Step(cfg, s, a).gens[g];
      if g >= |s.gens| then gen'.supervisor == Starting && gen'.loaded.None? && !gen'.expired
      else if IsGenAction(a) && a.g == g then gen' == NextGen(cfg.truth, s.gens[g], a)
      else gen' == s.gens[g] || gen' == s.gens[g].(supervisor := Closed)
  {
    hide NextGen, NextCaller, RegisterAll, HandedOver, ClosedArena, Published;
  }

  lemma GensExplained(cfg: Config, past: seq<Action>, s: State, a: Action, g: nat)
    requires Enabled(cfg, s, a) && Explained(past, s) && g < |Step(cfg, s, a).gens|
    ensures GenExplained(past + [a], g, Step(cfg, s, a).gens[g])
  {
    hide Step, NextGen, Answered, Expired, FlightExplained;
    GenAfter(cfg, s, a, g);
    if g < |s.gens| {
      assert GenExplained(past, g, s.gens[g]);
      if IsGenAction(a) && a.g == g { OwnStep(cfg.truth, past, a, s.gens[g]); } else { GenStays(past, a, g, s.gens[g]); }
    }
  }

  lemma FlightsExplained(cfg: Config, past: seq<Action>, s: State, a: Action, f: nat)
    requires Inv(cfg, s) && Enabled(cfg, s, a) && Explained(past, s) && f < |Step(cfg, s, a).arena|
    ensures FlightExplained(past + [a], Step(cfg, s, a).arena[f])
  {
    hide Step, Inv, Enabled, GenExplained, Explains;
    if Step(cfg, s, a).arena[f].Done? {
      DoneBefore(cfg, s, a, f);
      assert FlightExplained(past, s.arena[f]);
      if a.CloseFlights? { CloseExplains(cfg, past, s, a.g); }
      FlightStays(past, a, Step(cfg, s, a).arena[f]);
    }
  }

  lemma StepExplained(cfg: Config, past: seq<Action>, s: State, a: Action)
    requires Inv(cfg, s) && Enabled(cfg, s, a) && Explained(past, s)
    ensures Explained(past + [a], Step(cfg, s, a))
  {
    hide Step, Inv, Enabled, GenExplained, FlightExplained;
    forall g: nat | g < |Step(cfg, s, a).gens| ensures GenExplained(past + [a], g, Step(cfg, s, a).gens[g]) { GensExplained(cfg, past, s, a, g); }
    forall f: nat | f < |Step(cfg, s, a).arena| ensures FlightExplained(past + [a], Step(cfg, s, a).arena[f]) { FlightsExplained(cfg, past, s, a, f); }
  }

  /** Only a close completes flights. */
  lemma DoneBefore(cfg: Config, s: State, a: Action, f: nat)
    requires Inv(cfg, s) && Enabled(cfg, s, a) && f < |Step(cfg, s, a).arena| && Step(cfg, s, a).arena[f].Done?
    ensures f < |s.arena| && (!a.CloseFlights? ==> Step(cfg, s, a).arena[f] == s.arena[f])
  {
    hide Inv, CallerReady, NextCaller, GenReady, NextGen;
    if a.Register? {
      RegisteredOpen(a.c, Registry(s.flights, s.arena, s.callers[a.c].calls, map[]), s.callers[a.c].keys);
    }
  }

  lemma {:induction false} RegisteredOpen(c: nat, r: Registry, keys: seq<Key>)
    ensures var r' := RegisterAll(c, r, keys);
      |r.arena| <= |r'.arena| && forall f | 0 <= f < |r'.arena| :: if f < |r.arena| then r'.arena[f] == r.arena[f] else r'.arena[f].Open?
  {
    if keys != [] { RegisteredOpen(c, r, keys[..|keys| - 1]); }
  }

  lemma {:induction false} RunExplained(cfg: Config, past: seq<Action>, s: State, run: seq<Action>)
    requires Inv(cfg, s) && ValidRun(cfg, s, run) && Explained(past, s)
    ensures Explained(past + run, Exec(cfg, s, run))
    decreases |run|
  {
    hide Inv, Explained, Enabled, Step;
    if run == [] {
      assert past + run == past;
    } else {
      StepKeepsInv(cfg, s, run[0]);
      StepExplained(cfg, past, s, run[0]);
      RunExplained(cfg, past + [run[0]], Step(cfg, s, run[0]), run[1..]);
      assert past + [run[0]] + run[1..] == past + run;
    }
  }

  /** In every run each completed flight carries what the loader of some generation answered for its key, value, encoding
      failure, absence and error included, or the deadline error of a generation that expired. */
  lemma EveryAnswerHasASource(cfg: Config, run: seq<Action>, f: nat)
    requires ValidRun(cfg, Initial, run) && f < |Exec(cfg, Initial, run).arena| && Exec(cfg, Initial, run).arena[f].Done?
    ensures var flight := Exec(cfg, Initial, run).arena[f]; exists g :: Explains(run, g, flight.key, flight.value)
  {
    InitialInv(cfg);
    assert Explained([], Initial);
    RunExplained(cfg, [], Initial, run);
    assert [] + run == run;
    var s := Exec(cfg, Initial, run);
    hide ValidRun, Exec;
    assert FlightExplained(run, s.arena[f]);
  }

  // ---------------------------------------------------------------- a load that expired

  /** The deadline passed before the supervisor took anything from its worker. */
  predicate TooLate(gen: Generation) {
    gen.expired && (gen.supervisor == Starting || gen.supervisor == Selecting || gen.supervisor == Failing)
  }

  const TimedOut := FlightValue("", false, [DeadlineExceeded])

  /** Flight f waits for generation g, or the deadline was its answer. */
  ghost predicate WaitsOrTimedOut(s: State, g: nat, f: nat, k: Key) {
    && f < |s.arena|
    && (s.arena[f] == Done(k, TimedOut) || (s.arena[f] == Open(k, ByGeneration(g)) && g < |s.gens| && TooLate(s.gens[g])))
  }

  /** A close answers only the flights of its own generation, and a late one with the deadline error. */
  lemma LateClose(cfg: Config, s: State, h: nat, g: nat, f: nat, k: Key)
    requires Inv(cfg, s) && Enabled(cfg, s, CloseFlights(h)) && WaitsOrTimedOut(s, g, f, k) && s.arena[f].Open?
    ensures WaitsOrTimedOut(Step(cfg, s, CloseFlights(h)), g, f, k)
  {
    hide AgentInv, CloseInv, SlotInv, KeyOk, OwnerOk, NextCaller, NextGen, RegisterAll, HandedOver, GenReady, CallerReady;
    assert FlightOk(s, f);
    GenOwnsOpen(s, h);
  }

  /** No other step touches an open flight of a generation. */
  lemma OpenStays(cfg: Config, s: State, a: Action, g: nat, f: nat, k: Key)
    requires Enabled(cfg, s, a) && !a.CloseFlights? && f < |s.arena| && s.arena[f] == Open(k, ByGeneration(g))
    ensures var s' := Step(cfg, s, a); f < |s'.arena| && s'.arena[f] == s.arena[f]
  {
    hide NextCaller, NextGen, GenReady, CallerReady;
    if a.Register? { RegisteredOpen(a.c, Registry(s.flights, s.arena, s.callers[a.c].calls, map[]), s.callers[a.c].keys); }
  }

  lemma LateStep(cfg: Config, s: State, a: Action, g: nat, f: nat, k: Key)
    requires Inv(cfg, s) && Enabled(cfg, s, a) && WaitsOrTimedOut(s, g, f, k)
    ensures WaitsOrTimedOut(Step(cfg, s, a), g, f, k)
  {
    hide Inv, Enabled, Step;
    StepKeepsInv(cfg, s, a);
    if s.arena[f].Open? {
      if a.CloseFlights? {
        LateClose(cfg, s, a.g, g, f, k);
      } else {
        OpenStays(cfg, s, a, g, f, k);
        LateStays(cfg, s, a, g);
      }
    }
  }

  lemma LateStays(cfg: Config, s: State, a: Action, g: nat)
    requires Enabled(cfg, s, a) && !a.CloseFlights? && g < |s.gens| && TooLate(s.gens[g])
    ensures var s' := Step(cfg, s, a); |s.gens| <= |s'.gens| && TooLate(s'.gens[g])
  {
    hide NextCaller, CallerReady, RegisterAll, HandedOver, Joined;
  }

  /** In every run: once the deadline of a load has passed before its result was taken, each of its flights ends with the
      deadline error, whatever the worker still returns. */
  lemma {:induction false} LateResultsAreDiscarded(cfg: Config, s: State, run: seq<Action>, g: nat, f: nat, k: Key)
    requires Inv(cfg, s) && ValidRun(cfg, s, run) && WaitsOrTimedOut(s, g, f, k)
    ensures WaitsOrTimedOut(Exec(cfg, s, run), g, f, k)
    decreases |run|
  {
    hide Inv, WaitsOrTimedOut, Enabled, Step;
    if run != [] {
      StepKeepsInv(cfg, s, run[0]);
      LateStep(cfg, s, run[0], g, f, k);
      LateResultsAreDiscarded(cfg, Step(cfg, s, run[0]), run[1..], g, f, k);
    }
  }

  // ---------------------------------------------------------------- why a caller returned

  /** Some step of the past lets caller c return with this: every flight awaited, its own context done, or the queue's error. */
  ghost predicate Returned(past: seq<Action>, c: nat, caller: Caller) {
    caller.pc.Finished? && exists i :: 0 <= i < |past| && match past[i]
      case AwaitDone(d) => d == c && caller.pc.consumed == |caller.keys| && caller.pc.errs == []
      case AwaitCanceled(d) => d == c && caller.pc.errs == [Canceled]
      case AdmitCanceled(d) => d == c && caller.pc.consumed == 0 && caller.pc.errs == [Canceled]
      case QueueFails(d, errs) => d == c && caller.pc.consumed == 0 && caller.pc.errs == errs
      case _ => false
  }

  ghost predicate AllReturned(past: seq<Action>, s: State) {
    forall c | c in s.callers && s.callers[c].pc.Finished? :: Returned(past, c, s.callers[c])
  }

  lemma ReturnStays(past: seq<Action>, a: Action, c: nat, caller: Caller)
    requires Returned(past, c, caller)
    ensures Returned(past + [a], c, caller)
  {
    assert forall i | 0 <= i < |past| :: (past + [a])[i] == past[i];
  }

  /** A caller that has returned does nothing more, and only these four steps let one return. */
  lemma ReturnsNow(cfg: Config, past: seq<Action>, s: State, a: Action, c: nat)
    requires Enabled(cfg, s, a) && c in Step(cfg, s, a).callers && Step(cfg, s, a).callers[c].pc.Finished?
    ensures (c in s.callers && s.callers[c] == Step(cfg, s, a).callers[c]) || Returned(past + [a], c, Step(cfg, s, a).callers[c])
  {
    assert (past + [a])[|past|] == a;
    hide RegisterAll, HandedOver, ClosedArena, NextGen, GenReady, Joined;
  }

  lemma {:induction false} RunReturns(cfg: Config, past: seq<Action>, s: State, run: seq<Action>)
    requires ValidRun(cfg, s, run) && AllReturned(past, s)
    ensures AllReturned(past + run, Exec(cfg, s, run))
    decreases |run|
  {
    hide Enabled, Step, Returned;
    if run == [] {
      assert past + run == past;
    } else {
      var s' := Step(cfg, s, run[0]);
      forall c | c in s'.callers && s'.callers[c].pc.Finished? ensures Returned(past + [run[0]], c, s'.callers[c]) {
        ReturnsNow(cfg, past, s, run[0], c);
        if c in s.callers && s.callers[c] == s'.callers[c] { ReturnStays(past, run[0], c, s.callers[c]); }
      }
      RunReturns(cfg, past + [run[0]], s', run[1..]);
      assert past + [run[0]] + run[1..] == past + run;
    }
  }

  /** In every run a caller returns without an error of its own exactly after its last flight, with its cancellation
      otherwise, and with the queue's own error when it never got a slot. */
  lemma EveryReturnHasAReason(cfg: Config, run: seq<Action>, c: nat)
    requires ValidRun(cfg, Initial, run)
    requires c in Exec(cfg, Initial, run).callers && Exec(cfg, Initial, run).callers[c].pc.Finished?
    ensures Returned(run, c, Exec(cfg, Initial, run).callers[c])
  {
    RunReturns(cfg, [], Initial, run);
    assert [] + run == run;
    hide ValidRun, Exec, Returned;
  }

  /** A caller whose keys all have a flight waits at once and never asks for a slot; any other one queues. */
  lemma JoinersTakeNoSlot(cfg: Config, s: State, c: nat)
    requires Inv(cfg, s) && Enabled(cfg, s, Join(c))
    ensures var s' := Step(cfg, s, Join(c)); var keys := s.callers[c].keys;
      && s'.tokens == s.tokens && s'.callers[c].pc == (if forall k | k in keys :: k in s.flights then Awaiting(0) else Queueing)
      && forall k :: k in s'.callers[c].calls <==> k in keys && k in s.flights
  {
    assert CallerOk(s.arena, s.callers[c]);
    JoinedAll(s.flights, s.callers[c].keys);
  }
}
