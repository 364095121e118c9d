/**
 No waiter is stranded, however other agents interleave: every open flight has a rank that no step of anybody
 raises and that each step of its owner towards the close lowers, and such a step is always enabled
 (utils/cache/flight.go).
 */
module CacheProgress {
  import opened Common
  import opened CacheFlights

  /** How far a generation is from closing its flights. */
  function PhaseRank(gen: Generation): nat {
    match gen.supervisor
    case Starting => 5
    case Selecting => if gen.expired then 3 else 4
    case Storing(_) => 2
    case Closing(_) => 1
    case Failing => 1
    case Closed => 0
    case Exited => 0
  }

  /** Steps the owner of a flight still has to take, its deadline counted as one; none for a completed flight. */
  function Rank(s: State, f: nat): (r: nat)
    requires f < |s.arena|
    ensures r <= 6
  {
    if s.arena[f].Done? then 0
    else match s.arena[f].owner
      case ByCaller(_) => 6
      case ByGeneration(g) => if g < |s.gens| then PhaseRank(s.gens[g]) else 0
  }

  /** A step of the owner towards the close; the deadline counts while the supervisor waits for its worker. */
  predicate Advances(s: State, f: nat, a: Action)
    requires f < |s.arena|
  {
    s.arena[f].Open? &&
    match s.arena[f].owner
    case ByCaller(c) => a == Spawn(c)
    case ByGeneration(g) =>
      || a in {StartWorker(g), Receive(g), StoreDone(g), TimeOut(g), CloseFlights(g)}
      || (a == Expire(g) && g < |s.gens| && s.gens[g].supervisor == Selecting && !s.gens[g].expired)
  }

  lemma OwnerIsLive(cfg: Config, s: State, f: nat)
    requires Inv(cfg, s) && f < |s.arena| && s.arena[f].Open?
    ensures match s.arena[f].owner
      case ByCaller(c) => c in s.callers && s.callers[c].pc == Spawning
      case ByGeneration(g) => g < |s.gens| && Live(s.gens[g]) && f in s.gens[g].owned.Values
    ensures Rank(s, f) > 0
  {
    assert FlightOk(s, f);
    var k, o := s.arena[f].key, s.arena[f].owner;
    assert k in OwnedBy(s, o) && OwnedBy(s, o)[k] == f;
    match o
    case ByCaller(c) => assert CallerOk(s.arena, s.callers[c]);
    case ByGeneration(g) =>
  }

  lemma RegisterKeepsFlights(cfg: Config, s: State, c: nat)
    requires Enabled(cfg, s, Register(c))
    ensures s.arena <= Step(cfg, s, Register(c)).arena && Step(cfg, s, Register(c)).gens == s.gens
  {
    var caller := s.callers[c];
    var r0 := Registry(s.flights, s.arena, caller.calls, map[]);
    RegisterAllKeeps(c, r0, caller.keys);
  }

  lemma PhasesFall(truth: Truth, gen: Generation, a: Action)
    requires IsGenAction(a) && GenReady(truth, gen, a)
    ensures PhaseRank(NextGen(truth, gen, a)) <= PhaseRank(gen)
    ensures a.StartWorker? || a.Receive? || a.StoreDone? || a.TimeOut? || (a.Expire? && gen.supervisor == Selecting && !gen.expired)
            ==> PhaseRank(NextGen(truth, gen, a)) < PhaseRank(gen)
  {
  }

  lemma GenActionRank(cfg: Config, s: State, a: Action, f: nat)
    requires Enabled(cfg, s, a) && IsGenAction(a) && f < |s.arena|
    ensures var s' := Step(cfg, s, a); s'.arena == s.arena && Rank(s', f) <= Rank(s, f) && (Advances(s, f, a) ==> Rank(s', f) < Rank(s, f))
  {
    PhasesFall(cfg.truth, s.gens[a.g], a);
    hide PhaseRank, NextGen, GenReady;
  }

  lemma SpawnRank(cfg: Config, s: State, c: nat, f: nat)
    requires Enabled(cfg, s, Spawn(c)) && f < |s.arena|
    requires s.arena[f].Open? && s.arena[f].owner.ByGeneration? ==> s.arena[f].owner.g < |s.gens|
    ensures var s' := Step(cfg, s, Spawn(c));
      f < |s'.arena| && Rank(s', f) <= Rank(s, f) && (Advances(s, f, Spawn(c)) ==> Rank(s', f) < Rank(s, f))
  {
  }

  lemma CloseRank(cfg: Config, s: State, g: nat, f: nat)
    requires Enabled(cfg, s, CloseFlights(g)) && f < |s.arena|
    requires s.arena[f].Open? && s.arena[f].owner == ByGeneration(g) ==> f in s.gens[g].owned.Values
    ensures var s' := Step(cfg, s, CloseFlights(g));
      f < |s'.arena| && Rank(s', f) <= Rank(s, f) && (Advances(s, f, CloseFlights(g)) ==> Rank(s', f) < Rank(s, f))
  {
    hide Published;
  }

  lemma CallerActionRank(cfg: Config, s: State, a: Action, f: nat)
    requires Enabled(cfg, s, a) && (IsCallerAction(a) || a.Arrive? || a.Register?) && f < |s.arena|
    ensures var s' := Step(cfg, s, a); f < |s'.arena| && Rank(s', f) == Rank(s, f) && !Advances(s, f, a)
  {
    if a.Register? {
      RegisterKeepsFlights(cfg, s, a.c);
      hide Step, Enabled;
    } else {
      hide NextCaller, CallerReady;
    }
  }

  /** No step of any agent raises the rank of a flight, and each advancing step of its owner lowers it. */
  lemma RankNeverRises(cfg: Config, s: State, a: Action, f: nat)
    requires Inv(cfg, s) && Enabled(cfg, s, a) && f < |s.arena|
    ensures f < |Step(cfg, s, a).arena| && Rank(Step(cfg, s, a), f) <= Rank(s, f)
    ensures Advances(s, f, a) ==> Rank(Step(cfg, s, a), f) < Rank(s, f)
  {
    hide Inv, Step, Enabled, Rank, Advances;
    if s.arena[f].Open? { OwnerIsLive(cfg, s, f); }
    if IsGenAction(a) {
      GenActionRank(cfg, s, a, f);
    } else if a.Spawn? {
      SpawnRank(cfg, s, a.c, f);
    } else if a.CloseFlights? {
      CloseRank(cfg, s, a.g, f);
    } else {
      CallerActionRank(cfg, s, a, f);
    }
  }

  /** Some advancing step is always enabled. */
  lemma OwnerCanAdvance(cfg: Config, s: State, f: nat) returns (a: Action)
    requires Inv(cfg, s) && f < |s.arena| && s.arena[f].Open?
    ensures Enabled(cfg, s, a) && Advances(s, f, a)
  {
    hide Inv;
    OwnerIsLive(cfg, s, f);
    match s.arena[f].owner
    case ByCaller(c) => a := Spawn(c);
    case ByGeneration(g) =>
      match s.gens[g].supervisor
      case Starting => a := StartWorker(g);
      case Selecting => a := if s.gens[g].expired then TimeOut(g) else Expire(g);
      case Storing(_) => a := StoreDone(g);
      case Closing(_) => a := CloseFlights(g);
      case Failing => a := CloseFlights(g);
  }

  /** How many steps of a run advance the flight. */
  ghost function Advancing(cfg: Config, s: State, run: seq<Action>, f: nat): nat
    requires ValidRun(cfg, s, run) && f < |s.arena|
    decreases |run|
  {
    if run == [] then 0
    else
      var s' := Step(cfg, s, run[0]);
      (if Advances(s, f, run[0]) then 1 else 0) + if f < |s'.arena| then Advancing(cfg, s', run[1..], f) else 0
  }

  lemma {:induction false} AdvancingIsBounded(cfg: Config, s: State, run: seq<Action>, f: nat)
    requires Inv(cfg, s) && ValidRun(cfg, s, run) && f < |s.arena|
    ensures f < |Exec(cfg, s, run).arena| && Advancing(cfg, s, run, f) + Rank(Exec(cfg, s, run), f) <= Rank(s, f)
    decreases |run|
  {
    if run != [] {
      StepKeepsInv(cfg, s, run[0]);
      RankNeverRises(cfg, s, run[0], f);
      hide Inv, Enabled, Step, Rank, Advances;
      AdvancingIsBounded(cfg, Step(cfg, s, run[0]), run[1..], f);
    }
  }

  /** In any interleaving, from any reachable state: a flight is completed once its owner has taken six advancing
      steps, and as long as it is not completed the next one is enabled. Nothing others do adds to the six. */
  lemma EveryFlightCloses(cfg: Config, before: seq<Action>, run: seq<Action>, f: nat)
    requires ValidRun(cfg, Initial, before) && f < |Exec(cfg, Initial, before).arena|
    requires ValidRun(cfg, Exec(cfg, Initial, before), run)
    ensures var s := Exec(cfg, Initial, before);
      var end := Exec(cfg, s, run);
      f < |end.arena| && Advancing(cfg, s, run, f) <= 6
    ensures var s := Exec(cfg, Initial, before);
      var end := Exec(cfg, s, run);
      Advancing(cfg, s, run, f) == 6 ==> end.arena[f].Done?
    ensures var end := Exec(cfg, Exec(cfg, Initial, before), run);
      end.arena[f].Open? ==> exists a :: Enabled(cfg, end, a) && Advances(end, f, a)
  {
    var s := Exec(cfg, Initial, before);
    InitialInv(cfg);
    RunKeepsInv(cfg, Initial, before);
    RunKeepsInv(cfg, s, run);
    AdvancingIsBounded(cfg, s, run, f);
    var end := Exec(cfg, s, run);
    hide Inv, ValidRun, Exec, Enabled;
    if end.arena[f].Open? {
      OwnerIsLive(cfg, end, f);
      var a := OwnerCanAdvance(cfg, end, f);
    }
  }
}
