/**
 The request-merging protocol of utils/cache/flight.go as a state machine.

 Callers, supervisors (runLoader) and workers (the goroutine inside runLoader) are program
 counters; each action is one step that the Go code takes atomically: a critical section of
 Client.mu, one channel operation, or one local branch between them. Flights live in an
 arena and are named by their index, so two generations of one key are two different names.
 */
module CacheFlights {
  import opened Common

  // A full cache key: prefix, namespace and id already joined.
  type Key = string

  datatype Error = Canceled | DeadlineExceeded | SourceFailed | LoaderPanicked | EncodeFailed | DecodeFailed

  // The empty sequence is Go's nil error; errors.Join is concatenation.
  type Errors = seq<Error>

  datatype FlightValue = FlightValue(data: string, found: bool, errs: Errors)

  // Who must still close a flight: the caller that registered it, then its supervisor.
  datatype Owner = ByCaller(c: nat) | ByGeneration(g: nat)

  // `owner` is bookkeeping of the model; the Go flight is only a channel and a value.
  datatype Flight = Open(key: Key, owner: Owner) | Done(key: Key, value: FlightValue)

  // The fixed source: the JSON text of every present key, None when the value cannot be encoded.
  type Truth = map<Key, Option<string>>

  datatype Outcome = Returned(values: Truth, errs: Errors) | Panicked

  datatype CallerPc =
    | Joining | Queueing | Admitted | Registering | Spawning | Releasing
    | Awaiting(next: nat)
    | Finished(consumed: nat, errs: Errors)

  datatype Caller = Caller(pc: CallerPc, keys: seq<Key>, calls: map<Key, nat>, owned: map<Key, nat>)

  datatype SupervisorPc =
    | Starting | Selecting
    | Storing(values: map<Key, FlightValue>)
    | Closing(values: map<Key, FlightValue>)
    | Failing
    | Closed | Exited

  datatype WorkerPc = NotStarted | Running | Sent | Gone

  // One runLoader call. `loaded` is the one-place channel between worker and supervisor.
  datatype Generation = Generation(
    supervisor: SupervisorPc, worker: WorkerPc, owned: map<Key, nat>,
    loaded: Option<map<Key, FlightValue>>, expired: bool)

  datatype State = State(
    flights: map<Key, nat>, arena: seq<Flight>, tokens: nat,
    callers: map<nat, Caller>, gens: seq<Generation>,
    closes: multiset<nat>)

  datatype Config = Config(capacity: nat, truth: Truth)

  datatype Action =
    | Arrive(c: nat, keys: seq<Key>)
    | Join(c: nat)
    | Acquire(c: nat)
    | QueueFails(c: nat, errs: Errors)
    | AdmitCanceled(c: nat)
    | Admit(c: nat)
    | Register(c: nat)
    | ReleaseIdle(c: nat)
    | Spawn(c: nat)
    | AwaitOne(c: nat)
    | AwaitCanceled(c: nat)
    | AwaitDone(c: nat)
    | StartWorker(g: nat)
    | Expire(g: nat)
    | WorkerReturns(g: nat, outcome: Outcome)
    | Receive(g: nat)
    | StoreDone(g: nat)
    | TimeOut(g: nat)
    | CloseFlights(g: nat)
    | SignalFinished(g: nat)
    | WorkerExits(g: nat)

  // ---------------------------------------------------------------- critical sections

  /** First critical section: the calls that already have a flight. */
  function Joined(flights: map<Key, nat>, keys: seq<Key>): map<Key, nat> {
    map k | k in keys && k in flights :: flights[k]
  }

  datatype Registry = Registry(flights: map<Key, nat>, arena: seq<Flight>, calls: map<Key, nat>, owned: map<Key, nat>)

  /** Second critical section of caller `c`, one key of its loop. */
  function RegisterKey(c: nat, r: Registry, k: Key): Registry {
    if k in r.calls then r
    else if k in r.flights then r.(calls := r.calls[k := r.flights[k]])
    else
      var f := |r.arena|;
      Registry(r.flights[k := f], r.arena + [Open(k, ByCaller(c))], r.calls[k := f], r.owned[k := f])
  }

  function RegisterAll(c: nat, r: Registry, keys: seq<Key>): Registry {
    if keys == [] then r else RegisterKey(c, RegisterAll(c, r, keys[..|keys| - 1]), keys[|keys| - 1])
  }

  /** Bookkeeping when the supervisor takes the flights over from the caller. */
  function HandedOver(arena: seq<Flight>, c: nat, g: nat): (r: seq<Flight>)
    ensures |r| == |arena|
  {
    seq(|arena|, i requires 0 <= i < |arena| =>
      if arena[i].Open? && arena[i].owner == ByCaller(c) then Open(arena[i].key, ByGeneration(g)) else arena[i])
  }

  function ClosedArena(arena: seq<Flight>, owned: map<Key, nat>, values: map<Key, FlightValue>): (r: seq<Flight>)
    ensures |r| == |arena|
  {
    seq(|arena|, i requires 0 <= i < |arena| =>
      if i in owned.Values then Done(arena[i].key, ValueFor(values, arena[i].key)) else arena[i])
  }

  /** A Go map read: a missing key reads as the zero value. */
  function ValueFor(values: map<Key, FlightValue>, k: Key): FlightValue {
    if k in values then values[k] else FlightValue("", false, [])
  }

  function FailedValues(keys: set<Key>, errs: Errors): map<Key, FlightValue> {
    map k | k in keys :: FlightValue("", false, errs)
  }

  /** What callLoader stores for each requested key. */
  function LoadedValues(keys: set<Key>, outcome: Outcome): map<Key, FlightValue> {
    match outcome
    case Panicked => FailedValues(keys, [LoaderPanicked])
    case Returned(values, errs) => map k | k in keys :: LoadedEntry(values, errs, k)
  }

  function LoadedEntry(values: Truth, errs: Errors, k: Key): FlightValue {
    if k !in values then FlightValue("", false, errs)
    else if values[k].None? then FlightValue("", false, errs + [EncodeFailed])
    else FlightValue(values[k].value, true, errs)
  }

  /** The documented loader contract: only requested keys, and a nil error means all were checked. */
  ghost predicate Honest(truth: Truth, keys: set<Key>, outcome: Outcome) {
    outcome.Returned? ==>
      && outcome.values.Keys <= keys
      && (forall k | k in outcome.values :: k in truth && outcome.values[k] == truth[k])
      && (outcome.errs == [] ==> forall k | k in keys && k in truth :: k in outcome.values)
  }

  // ---------------------------------------------------------------- steps

  /** Steps a caller takes without changing the registry or its own flights. */
  predicate IsCallerAction(a: Action) {
    a.Join? || a.Acquire? || a.QueueFails? || a.AdmitCanceled? || a.Admit? || a.ReleaseIdle?
    || a.AwaitOne? || a.AwaitCanceled? || a.AwaitDone?
  }

  /** Steps of one supervisor or worker that neither open nor close a flight. */
  predicate IsGenAction(a: Action) {
    a.StartWorker? || a.Expire? || a.WorkerReturns? || a.Receive? || a.StoreDone? || a.TimeOut?
    || a.SignalFinished? || a.WorkerExits?
  }

  predicate CallerReady(arena: seq<Flight>, caller: Caller, a: Action)
    requires IsCallerAction(a)
  {
    match a
    case Join(_) => caller.pc == Joining
    case Acquire(_) => caller.pc == Queueing
    case QueueFails(_, errs) => caller.pc == Queueing && errs != []
    case AdmitCanceled(_) => caller.pc == Admitted
    case Admit(_) => caller.pc == Admitted
    case ReleaseIdle(_) => caller.pc == Releasing
    case AwaitOne(_) => AwaitsMore(caller) && DoneAt(arena, caller.calls, caller.keys[caller.pc.next])
    case AwaitCanceled(_) => AwaitsMore(caller)
    case AwaitDone(_) => caller.pc.Awaiting? && caller.pc.next == |caller.keys|
  }

  predicate AwaitsMore(caller: Caller) {
    caller.pc.Awaiting? && caller.pc.next < |caller.keys|
  }

  predicate DoneAt(arena: seq<Flight>, calls: map<Key, nat>, k: Key) {
    k in calls && calls[k] < |arena| && arena[calls[k]].Done?
  }

  function NextCaller(flights: map<Key, nat>, arena: seq<Flight>, caller: Caller, a: Action): Caller
    requires IsCallerAction(a) && CallerReady(arena, caller, a)
  {
    match a
    case Join(_) =>
      var calls := Joined(flights, caller.keys);
      caller.(calls := calls, pc := if |calls| == |caller.keys| then Awaiting(0) else Queueing)
    case Acquire(_) => caller.(pc := Admitted)
    case QueueFails(_, errs) => caller.(pc := Finished(0, errs))
    case AdmitCanceled(_) => caller.(pc := Finished(0, [Canceled]))
    case Admit(_) => caller.(pc := Registering)
    case ReleaseIdle(_) => caller.(pc := Awaiting(0))
    case AwaitOne(_) => caller.(pc := Awaiting(caller.pc.next + 1))
    case AwaitCanceled(_) => caller.(pc := Finished(caller.pc.next, [Canceled]))
    case AwaitDone(_) => caller.(pc := Finished(caller.pc.next, []))
  }

  ghost predicate GenReady(truth: Truth, gen: Generation, a: Action)
    requires IsGenAction(a)
  {
    match a
    case StartWorker(_) => gen.supervisor == Starting
    case Expire(_) => true
    case WorkerReturns(_, outcome) => gen.worker == Running && Honest(truth, gen.owned.Keys, outcome)
    case Receive(_) => gen.supervisor == Selecting && gen.loaded.Some?
    case StoreDone(_) => gen.supervisor.Storing?
    case TimeOut(_) => gen.supervisor == Selecting && gen.expired
    case SignalFinished(_) => gen.supervisor == Closed
    case WorkerExits(_) => gen.worker == Sent && gen.supervisor == Exited
  }

  ghost function NextGen(truth: Truth, gen: Generation, a: Action): Generation
    requires IsGenAction(a) && GenReady(truth, gen, a)
  {
    match a
    case StartWorker(_) => gen.(supervisor := Selecting, worker := Running)
    case Expire(_) => gen.(expired := true)
    case WorkerReturns(_, outcome) => gen.(worker := Sent, loaded := Some(LoadedValues(gen.owned.Keys, outcome)))
    case Receive(_) => gen.(supervisor := if gen.expired then Failing else Storing(gen.loaded.value))
    case StoreDone(_) => gen.(supervisor := Closing(gen.supervisor.values))
    case TimeOut(_) => gen.(supervisor := Failing)
    case SignalFinished(_) => gen.(supervisor := Exited)
    case WorkerExits(_) => gen.(worker := Gone)
  }

  /** Tokens in the channel after the step: only these steps send to or receive from it. */
  function TokensAfter(tokens: nat, a: Action): int {
    if a.Acquire? then tokens + 1
    else if a.AdmitCanceled? || a.ReleaseIdle? || a.WorkerExits? then tokens - 1
    else tokens
  }

  ghost predicate Enabled(cfg: Config, s: State, a: Action) {
    0 <= TokensAfter(s.tokens, a) && (a.Acquire? ==> s.tokens < cfg.capacity) &&
    if IsCallerAction(a) then a.c in s.callers && CallerReady(s.arena, s.callers[a.c], a)
    else if IsGenAction(a) then a.g < |s.gens| && GenReady(cfg.truth, s.gens[a.g], a)
    else match a
      case Arrive(c, keys) => c !in s.callers && Distinct(keys)
      case Register(c) => c in s.callers && s.callers[c].pc == Registering
      case Spawn(c) => c in s.callers && s.callers[c].pc == Spawning
      case CloseFlights(g) => g < |s.gens| && (s.gens[g].supervisor.Closing? || s.gens[g].supervisor == Failing)
  }

  /** The values a supervisor publishes when it closes its flights. */
  ghost function Published(gen: Generation): map<Key, FlightValue> {
    if gen.supervisor.Closing? then gen.supervisor.values
    else FailedValues(gen.owned.Keys, [DeadlineExceeded])
  }

  ghost function Step(cfg: Config, s: State, a: Action): State
    requires Enabled(cfg, s, a)
  {
    if IsCallerAction(a) then
      s.(callers := s.callers[a.c := NextCaller(s.flights, s.arena, s.callers[a.c], a)], tokens := TokensAfter(s.tokens, a))
    else if IsGenAction(a) then
      s.(gens := s.gens[a.g := NextGen(cfg.truth, s.gens[a.g], a)], tokens := TokensAfter(s.tokens, a))
    else match a
      case Arrive(c, keys) => s.(callers := s.callers[c := Caller(Joining, keys, map[], map[])])
      case Register(c) =>
        var caller := s.callers[c];
        var r := RegisterAll(c, Registry(s.flights, s.arena, caller.calls, map[]), caller.keys);
        var pc := if |r.owned| == 0 then Releasing else Spawning;
        s.(flights := r.flights, arena := r.arena,
           callers := s.callers[c := Caller(pc, caller.keys, r.calls, r.owned)])
      case Spawn(c) =>
        var caller := s.callers[c];
        s.(callers := s.callers[c := caller.(pc := Awaiting(0), owned := map[])],
           arena := HandedOver(s.arena, c, |s.gens|),
           gens := s.gens + [Generation(Starting, NotStarted, caller.owned, None, false)])
      case CloseFlights(g) =>
        var gen := s.gens[g];
        s.(flights := s.flights - gen.owned.Keys,
           arena := ClosedArena(s.arena, gen.owned, Published(gen)),
           gens := s.gens[g := gen.(supervisor := Closed)],
           closes := s.closes + multiset(gen.owned.Values))
  }

  const Initial := State(map[], [], 0, map[], [], multiset{})

  // ---------------------------------------------------------------- invariant

  predicate Live(gen: Generation) {
    gen.supervisor != Closed && gen.supervisor != Exited
  }

  /** The flights an agent still has to hand over or close. */
  ghost function OwnedBy(s: State, o: Owner): map<Key, nat> {
    match o
    case ByCaller(c) => if c in s.callers then s.callers[c].owned else map[]
    case ByGeneration(g) => if g < |s.gens| && Live(s.gens[g]) then s.gens[g].owned else map[]
  }

  /** A registered key names an open flight of that key. */
  ghost predicate KeyOk(s: State, k: Key) {
    k in s.flights ==> s.flights[k] < |s.arena| && s.arena[s.flights[k]].Open? && s.arena[s.flights[k]].key == k
  }

  /** An open flight is registered and its owner holds it. */
  ghost predicate FlightOk(s: State, f: nat) {
    f < |s.arena| && s.arena[f].Open? ==>
      var k, o := s.arena[f].key, s.arena[f].owner;
      k in s.flights && s.flights[k] == f && k in OwnedBy(s, o) && OwnedBy(s, o)[k] == f
  }

  /** What an agent holds is an open flight of which it is the owner. */
  ghost predicate OwnerOk(s: State, o: Owner, k: Key) {
    k in OwnedBy(s, o) ==> OwnedBy(s, o)[k] < |s.arena| && s.arena[OwnedBy(s, o)[k]] == Open(k, o)
  }

  ghost predicate RegistryInv(s: State) {
    && (forall k {:trigger KeyOk(s, k)} :: KeyOk(s, k))
    && (forall f: nat {:trigger FlightOk(s, f)} :: FlightOk(s, f))
    && (forall o, k {:trigger OwnerOk(s, o, k)} :: OwnerOk(s, o, k))
  }

  ghost predicate FlightOf(arena: seq<Flight>, calls: map<Key, nat>, k: Key) {
    k in calls && calls[k] < |arena| && arena[calls[k]].key == k
  }

  ghost predicate CallerOk(arena: seq<Flight>, caller: Caller) {
    && Distinct(caller.keys)
    && (forall k {:trigger FlightOf(arena, caller.calls, k)} :: k in caller.calls ==> FlightOf(arena, caller.calls, k))
    && (caller.pc.Awaiting? || caller.pc == Spawning || caller.pc == Releasing ==>
          forall k | k in caller.keys :: k in caller.calls)
    && (caller.pc.Awaiting? ==> ConsumedOk(arena, caller, caller.pc.next))
    && (caller.pc.Finished? ==> ConsumedOk(arena, caller, caller.pc.consumed))
    && (caller.pc.Finished? && caller.pc.consumed < |caller.keys| ==> caller.pc.errs != [])
    && (caller.owned != map[] <==> caller.pc == Spawning)
  }

  /** The first n calls of the caller are completed. */
  ghost predicate ConsumedOk(arena: seq<Flight>, caller: Caller, n: nat) {
    n <= |caller.keys| && forall i | 0 <= i < n :: DoneAt(arena, caller.calls, caller.keys[i])
  }

  /** A flight value never contradicts the source. */
  predicate SoundValue(truth: Truth, k: Key, v: FlightValue) {
    && (v.found ==> k in truth && truth[k] == Some(v.data))
    && (!v.found && v.errs == [] ==> k !in truth)
  }

  ghost predicate SoundValues(truth: Truth, keys: set<Key>, values: map<Key, FlightValue>) {
    values.Keys == keys && forall k | k in keys :: SoundValue(truth, k, values[k])
  }

  ghost predicate SoundFlight(truth: Truth, f: Flight) {
    f.Done? ==> SoundValue(truth, f.key, f.value)
  }

  ghost predicate GenOk(truth: Truth, gen: Generation) {
    && (gen.loaded.Some? <==> gen.worker == Sent || gen.worker == Gone)
    && (gen.worker == NotStarted <==> gen.supervisor == Starting)
    && (gen.worker == Gone ==> gen.supervisor == Exited)
    && (gen.loaded.Some? ==> SoundValues(truth, gen.owned.Keys, gen.loaded.value))
    && (gen.supervisor.Storing? ==> gen.loaded == Some(gen.supervisor.values))
    && (gen.supervisor.Closing? ==> gen.loaded == Some(gen.supervisor.values))
    && (gen.supervisor == Failing ==> gen.expired)
    && gen.owned != map[]
  }

  ghost predicate AgentInv(cfg: Config, s: State) {
    && (forall c {:trigger s.callers[c]} :: c in s.callers ==> CallerOk(s.arena, s.callers[c]))
    && (forall g: nat {:trigger s.gens[g]} :: g < |s.gens| ==> GenOk(cfg.truth, s.gens[g]))
    && (forall f: nat {:trigger s.arena[f]} :: f < |s.arena| ==> SoundFlight(cfg.truth, s.arena[f]))
  }

  /** One close per completed flight, none for an open one. */
  ghost predicate CloseInv(s: State) {
    forall f: nat {:trigger s.closes[f]} :: s.closes[f] == if f < |s.arena| && s.arena[f].Done? then 1 else 0
  }

  predicate HoldsSlot(pc: CallerPc) {
    pc == Admitted || pc == Registering || pc == Spawning || pc == Releasing
  }

  /** Callers that physically hold a loader slot they have not handed off. */
  ghost function CallerHolders(callers: map<nat, Caller>): set<nat> {
    set c | c in callers && HoldsSlot(callers[c].pc)
  }

  /** Load generations whose worker has not exited: each holds the slot it was handed. */
  ghost function GenHolders(gens: seq<Generation>): set<nat> {
    set g | 0 <= g < |gens| && gens[g].worker != Gone
  }

  ghost predicate SlotInv(cfg: Config, s: State) {
    s.tokens == |CallerHolders(s.callers)| + |GenHolders(s.gens)| <= cfg.capacity
  }

  ghost predicate Inv(cfg: Config, s: State) {
    RegistryInv(s) && AgentInv(cfg, s) && CloseInv(s) && SlotInv(cfg, s)
  }

  // ---------------------------------------------------------------- local steps

  function Slots(holds: bool): int {
    if holds then 1 else 0
  }

  lemma CallerSlots(callers: map<nat, Caller>, c: nat, caller: Caller)
    ensures |CallerHolders(callers[c := caller])|
         == |CallerHolders(callers)| + Slots(HoldsSlot(caller.pc)) - Slots(c in callers && HoldsSlot(callers[c].pc))
  {
    var before, after := CallerHolders(callers), CallerHolders(callers[c := caller]);
    var others := before - {c};
    assert c in before <==> c in callers && HoldsSlot(callers[c].pc);
    forall d ensures d in after <==> d in others || (d == c && HoldsSlot(caller.pc)) {
    }
    if c in before { assert before == others + {c}; } else { assert before == others; }
    if c in after { assert after == others + {c}; } else { assert after == others; }
  }

  lemma GenSlots(gens: seq<Generation>, g: nat, gen: Generation)
    requires g < |gens|
    ensures |GenHolders(gens[g := gen])| == |GenHolders(gens)| + Slots(gen.worker != Gone) - Slots(gens[g].worker != Gone)
  {
    var before, after := GenHolders(gens), GenHolders(gens[g := gen]);
    var others := before - {g};
    assert g in before <==> gens[g].worker != Gone;
    forall d ensures d in after <==> d in others || (d == g && gen.worker != Gone) {
    }
    if g in before { assert before == others + {g}; } else { assert before == others; }
    if g in after { assert after == others + {g}; } else { assert after == others; }
  }

  /** A step of one caller that touches neither the registry nor its own flights. */
  lemma CallerStep(cfg: Config, s: State, c: nat, caller: Caller, tokens: nat)
    requires Inv(cfg, s)
    requires CallerOk(s.arena, caller)
    requires caller.owned == if c in s.callers then s.callers[c].owned else map[]
    requires tokens == s.tokens + Slots(HoldsSlot(caller.pc)) - Slots(c in s.callers && HoldsSlot(s.callers[c].pc))
    requires tokens <= cfg.capacity
    ensures Inv(cfg, s.(callers := s.callers[c := caller], tokens := tokens))
  {
    var s' := s.(callers := s.callers[c := caller], tokens := tokens);
    assert SlotInv(cfg, s') by { CallerSlots(s.callers, c, caller); }
    assert RegistryInv(s') by {
      hide RegistryInv;
      RegistryFrame(s, s');
    }
    assert AgentInv(cfg, s') by { hide RegistryInv, CallerOk, GenOk, SoundFlight; }
  }

  /** A step of one supervisor or worker that neither opens nor closes a flight. */
  lemma GenStep(cfg: Config, s: State, g: nat, gen: Generation, tokens: nat)
    requires Inv(cfg, s) && g < |s.gens|
    requires GenOk(cfg.truth, gen)
    requires gen.owned == s.gens[g].owned && Live(gen) == Live(s.gens[g])
    requires tokens == s.tokens + Slots(gen.worker != Gone) - Slots(s.gens[g].worker != Gone)
    requires tokens <= cfg.capacity
    ensures Inv(cfg, s.(gens := s.gens[g := gen], tokens := tokens))
  {
    var s' := s.(gens := s.gens[g := gen], tokens := tokens);
    assert SlotInv(cfg, s') by { GenSlots(s.gens, g, gen); }
    assert RegistryInv(s') by {
      hide RegistryInv;
      RegistryFrame(s, s');
    }
    assert AgentInv(cfg, s') by { hide RegistryInv, CallerOk, GenOk, SoundFlight; }
  }

  lemma RegistryFrame(s: State, s': State)
    requires RegistryInv(s)
    requires s'.flights == s.flights && s'.arena == s.arena
    requires forall o :: OwnedBy(s', o) == OwnedBy(s, o)
    ensures RegistryInv(s')
  {
    forall k ensures KeyOk(s', k) { assert KeyOk(s, k); }
    forall f: nat ensures FlightOk(s', f) { assert FlightOk(s, f); }
    forall o, k ensures OwnerOk(s', o, k) { assert OwnerOk(s, o, k); }
  }

  // ---------------------------------------------------------------- registration

  /** The maps of a registration by caller c, after the keys in `done`. */
  ghost predicate RegisteredMaps(r0: Registry, r: Registry, done: seq<Key>) {
    && (forall k | k in r0.flights :: k in r.flights && r.flights[k] == r0.flights[k])
    && (forall k | k in r0.calls :: k in r.calls && r.calls[k] == r0.calls[k])
    && (forall k | k in done :: k in r.calls)
    && (forall k | k in r.calls && k !in r0.calls :: k in r.flights && r.calls[k] == r.flights[k])
    && (forall k | k in r.flights && k !in r0.flights :: k in r.owned && r.owned[k] == r.flights[k])
    && (forall k | k in r.owned :: k !in r0.flights && k in r.flights)
  }

  /** New flights are exactly the owned ones, all open. */
  ghost predicate RegisteredArena(c: nat, r0: Registry, r: Registry) {
    && r0.arena <= r.arena
    && (forall k | k in r.owned :: |r0.arena| <= r.owned[k] < |r.arena| && r.arena[r.owned[k]] == Open(k, ByCaller(c)))
    && (forall f | |r0.arena| <= f < |r.arena| :: r.arena[f].Open? && r.arena[f].key in r.owned && r.owned[r.arena[f].key] == f)
  }

  ghost predicate Registered(c: nat, r0: Registry, r: Registry, done: seq<Key>) {
    RegisteredMaps(r0, r, done) && RegisteredArena(c, r0, r)
  }

  lemma RegisterKeyArena(c: nat, r0: Registry, r: Registry, k: Key)
    requires RegisteredArena(c, r0, r) && (k !in r.flights ==> k !in r.owned)
    ensures RegisteredArena(c, r0, RegisterKey(c, r, k))
  {
    if k !in r.calls && k !in r.flights {
      var r' := RegisterKey(c, r, k);
      forall f | |r0.arena| <= f < |r'.arena|
        ensures r'.arena[f].Open? && r'.arena[f].key in r'.owned && r'.owned[r'.arena[f].key] == f
      {
        if f < |r.arena| { assert r'.arena[f] == r.arena[f]; }
      }
      forall j | j in r'.owned ensures |r0.arena| <= r'.owned[j] < |r'.arena| && r'.arena[r'.owned[j]] == Open(j, ByCaller(c)) {
        if j != k { assert r'.arena[r'.owned[j]] == r.arena[r.owned[j]]; }
      }
    }
  }

  lemma {:induction false} RegisterAllKeeps(c: nat, r0: Registry, keys: seq<Key>)
    requires r0.owned == map[]
    ensures Registered(c, r0, RegisterAll(c, r0, keys), keys)
  {
    if keys != [] {
      var front, last := keys[..|keys| - 1], keys[|keys| - 1];
      assert keys == front + [last];
      RegisterAllKeeps(c, r0, front);
      RegisterKeyArena(c, r0, RegisterAll(c, r0, front), last);
    }
  }

  // ---------------------------------------------------------------- steps on the registry

  /** Flights are never removed or renamed, and a completed flight keeps its value for ever. */
  ghost predicate ArenaGrows(a: seq<Flight>, a': seq<Flight>) {
    && |a| <= |a'|
    && (forall f {:trigger a'[f]} | 0 <= f < |a| :: a'[f].key == a[f].key && (a[f].Done? ==> a'[f] == a[f]))
  }

  lemma CallerGrows(a: seq<Flight>, a': seq<Flight>, caller: Caller)
    requires ArenaGrows(a, a') && CallerOk(a, caller)
    ensures CallerOk(a', caller)
  {
    forall k ensures k in caller.calls ==> FlightOf(a', caller.calls, k) {
      assert k in caller.calls ==> FlightOf(a, caller.calls, k);
    }
    assert forall n :: ConsumedOk(a, caller, n) ==> ConsumedOk(a', caller, n) by {
      forall n: nat | ConsumedOk(a, caller, n) ensures ConsumedOk(a', caller, n) {
        forall i | 0 <= i < n ensures DoneAt(a', caller.calls, caller.keys[i]) {
          assert DoneAt(a, caller.calls, caller.keys[i]);
        }
      }
    }
  }

  /** All agents but one survive a growing arena; the changed one is checked separately. */
  lemma AgentsGrow(cfg: Config, s: State, s': State, c: nat)
    requires AgentInv(cfg, s) && ArenaGrows(s.arena, s'.arena)
    requires s'.callers.Keys == s.callers.Keys && (forall d | d in s.callers && d != c :: s'.callers[d] == s.callers[d])
    requires c in s'.callers ==> CallerOk(s'.arena, s'.callers[c])
    requires forall g: nat {:trigger s'.gens[g]} | g < |s'.gens| :: GenOk(cfg.truth, s'.gens[g])
    requires forall f: nat {:trigger s'.arena[f]} | f < |s'.arena| :: SoundFlight(cfg.truth, s'.arena[f])
    ensures AgentInv(cfg, s')
  {
    forall d | d in s'.callers ensures CallerOk(s'.arena, s'.callers[d]) {
      if d != c {
        assert CallerOk(s.arena, s.callers[d]);
        CallerGrows(s.arena, s'.arena, s.callers[d]);
      }
    }
  }

  lemma RegisterStep(cfg: Config, s: State, c: nat)
    requires Inv(cfg, s) && Enabled(cfg, s, Register(c))
    ensures Inv(cfg, Step(cfg, s, Register(c))) && ArenaGrows(s.arena, Step(cfg, s, Register(c)).arena)
  {
    var s' := Step(cfg, s, Register(c));
    var caller := s.callers[c];
    var r0 := Registry(s.flights, s.arena, caller.calls, map[]);
    var r := RegisterAll(c, r0, caller.keys);
    assert CallerOk(s.arena, caller);
    hide CloseInv, RegistryInv, AgentInv, CallerOk, Registered;
    RegisterAllKeeps(c, r0, caller.keys);
    assert |r.owned| == 0 <==> r.owned == map[];
    RegisterRegistry(s, s', c, r0, r);
    RegisterAgents(cfg, s, s', c, r0, r);
    RegisterCloses(s, s', c, r0, r);
    CallerSlots(s.callers, c, s'.callers[c]);
  }

  lemma RegisterCloses(s: State, s': State, c: nat, r0: Registry, r: Registry)
    requires CloseInv(s) && r0.arena == s.arena && RegisteredArena(c, r0, r)
    requires s'.arena == r.arena && s'.closes == s.closes
    ensures CloseInv(s') && ArenaGrows(s.arena, s'.arena)
  {
    forall f: nat | f < |s.arena| ensures s'.arena[f] == s.arena[f] {
    }
  }

  lemma RegisterAgents(cfg: Config, s: State, s': State, c: nat, r0: Registry, r: Registry)
    requires AgentInv(cfg, s) && RegistryInv(s) && c in s.callers
    requires s.callers[c].pc == Registering
    requires r0 == Registry(s.flights, s.arena, s.callers[c].calls, map[]) && Registered(c, r0, r, s.callers[c].keys)
    requires c in s'.callers
    requires s'.arena == r.arena && s'.gens == s.gens && s'.callers == s.callers[c := s'.callers[c]]
    requires s'.callers[c] == Caller(if r.owned == map[] then Releasing else Spawning, s.callers[c].keys, r.calls, r.owned)
    ensures AgentInv(cfg, s')
  {
    var caller := s.callers[c];
    assert CallerOk(s.arena, caller);
    assert CallerOk(s'.arena, s'.callers[c]) by {
      forall k ensures k in r.calls ==> FlightOf(r.arena, r.calls, k) {
        if k in caller.calls {
          assert FlightOf(s.arena, caller.calls, k);
        } else if k in r.calls && k in s.flights {
          assert KeyOk(s, k);
        }
      }
    }
    hide RegistryInv, RegisteredMaps, CallerOk;
    forall f: nat | f < |s'.arena| ensures SoundFlight(cfg.truth, s'.arena[f]) {
      if f < |s.arena| { assert s'.arena[f] == s.arena[f]; }
    }
    AgentsGrow(cfg, s, s', c);
  }

  lemma RegisterRegistry(s: State, s': State, c: nat, r0: Registry, r: Registry)
    requires RegistryInv(s) && c in s.callers && s.callers[c].owned == map[]
    requires r0.flights == s.flights && r0.arena == s.arena && Registered(c, r0, r, s.callers[c].keys)
    requires s'.flights == r.flights && s'.arena == r.arena && s'.gens == s.gens
    requires c in s'.callers && s'.callers[c].owned == r.owned && s'.callers == s.callers[c := s'.callers[c]]
    ensures RegistryInv(s')
  {
    assert OwnedBy(s', ByCaller(c)) == r.owned;
    assert OwnedBy(s, ByCaller(c)) == map[];
    forall o | o != ByCaller(c) ensures OwnedBy(s', o) == OwnedBy(s, o) {
    }
    forall k ensures KeyOk(s', k) {
      assert KeyOk(s, k);
    }
    forall f: nat ensures FlightOk(s', f) {
      if f < |s.arena| {
        assert FlightOk(s, f);
        assert s'.arena[f] == s.arena[f];
      }
    }
    forall o, k ensures OwnerOk(s', o, k) {
      assert OwnerOk(s, o, k);
    }
  }

  lemma SpawnStep(cfg: Config, s: State, c: nat)
    requires Inv(cfg, s) && Enabled(cfg, s, Spawn(c))
    ensures Inv(cfg, Step(cfg, s, Spawn(c))) && ArenaGrows(s.arena, Step(cfg, s, Spawn(c)).arena)
  {
    hide CloseInv, RegistryInv, AgentInv, ArenaGrows, CallerOk, HandedOver, CallerHolders, GenHolders;
    var s' := Step(cfg, s, Spawn(c));
    SpawnCloses(s, s', c);
    SpawnRegistry(s, s', c);
    SpawnAgents(cfg, s, s', c);
    CallerSlots(s.callers, c, s'.callers[c]);
    SpawnSlots(s.gens, s'.gens[|s.gens|]);
  }

  lemma SpawnCloses(s: State, s': State, c: nat)
    requires CloseInv(s) && s'.arena == HandedOver(s.arena, c, |s.gens|) && s'.closes == s.closes
    ensures CloseInv(s') && ArenaGrows(s.arena, s'.arena)
  {
  }

  lemma SpawnSlots(gens: seq<Generation>, gen: Generation)
    requires gen.worker != Gone
    ensures |GenHolders(gens + [gen])| == |GenHolders(gens)| + 1
  {
    assert GenHolders(gens + [gen]) == GenHolders(gens) + {|gens|};
  }

  lemma SpawnAgents(cfg: Config, s: State, s': State, c: nat)
    requires AgentInv(cfg, s) && c in s.callers && s.callers[c].pc == Spawning
    requires ArenaGrows(s.arena, s'.arena) && s'.arena == HandedOver(s.arena, c, |s.gens|)
    requires s'.gens == s.gens + [Generation(Starting, NotStarted, s.callers[c].owned, None, false)]
    requires s'.callers == s.callers[c := s.callers[c].(pc := Awaiting(0), owned := map[])]
    ensures AgentInv(cfg, s')
  {
    assert CallerOk(s.arena, s.callers[c]);
    CallerGrows(s.arena, s'.arena, s.callers[c]);
    assert ConsumedOk(s'.arena, s'.callers[c], 0);
    forall g': nat | g' < |s'.gens| ensures GenOk(cfg.truth, s'.gens[g']) {
      if g' < |s.gens| { assert s'.gens[g'] == s.gens[g']; }
    }
    forall f: nat | f < |s'.arena| ensures SoundFlight(cfg.truth, s'.arena[f]) {
      assert SoundFlight(cfg.truth, s.arena[f]);
    }
    AgentsGrow(cfg, s, s', c);
  }

  lemma SpawnRegistry(s: State, s': State, c: nat)
    requires RegistryInv(s) && c in s.callers
    requires s'.flights == s.flights && s'.arena == HandedOver(s.arena, c, |s.gens|)
    requires |s'.gens| == |s.gens| + 1 && (forall g | 0 <= g < |s.gens| :: s'.gens[g] == s.gens[g])
    requires Live(s'.gens[|s.gens|]) && s'.gens[|s.gens|].owned == s.callers[c].owned
    requires c in s'.callers && s'.callers[c].owned == map[] && s'.callers == s.callers[c := s'.callers[c]]
    ensures RegistryInv(s')
  {
    var g := |s.gens|;
    assert OwnedBy(s', ByGeneration(g)) == OwnedBy(s, ByCaller(c));
    assert OwnedBy(s', ByCaller(c)) == map[] == OwnedBy(s, ByGeneration(g));
    forall o | o != ByCaller(c) && o != ByGeneration(g) ensures OwnedBy(s', o) == OwnedBy(s, o) {
    }
    forall k ensures KeyOk(s', k) {
      assert KeyOk(s, k);
    }
    forall f: nat ensures FlightOk(s', f) {
      assert FlightOk(s, f);
    }
    forall o, k ensures OwnerOk(s', o, k) {
      assert OwnerOk(s, o, k);
      assert OwnerOk(s, ByCaller(c), k);
    }
  }

  /** Closing deletes exactly this generation's registrations and completes exactly its flights. */
  lemma CloseStep(cfg: Config, s: State, g: nat)
    requires Inv(cfg, s) && Enabled(cfg, s, CloseFlights(g))
    ensures Inv(cfg, Step(cfg, s, CloseFlights(g))) && ArenaGrows(s.arena, Step(cfg, s, CloseFlights(g)).arena)
  {
    hide RegistryInv, AgentInv, CloseInv, ArenaGrows, Published, ClosedArena, GenHolders, CallerHolders;
    var s' := Step(cfg, s, CloseFlights(g));
    GenOwnsOpen(s, g);
    CloseCloses(s, s', s.gens[g].owned, Published(s.gens[g]));
    CloseAgents(cfg, s, s', g);
    GenSlots(s.gens, g, s'.gens[g]);
    ClosedDone(s.arena, s.gens[g].owned, Published(s.gens[g]));
    CloseRegistry(s, s', g);
  }

  lemma ClosedDone(arena: seq<Flight>, owned: map<Key, nat>, values: map<Key, FlightValue>)
    ensures forall f | 0 <= f < |arena| :: var arena' := ClosedArena(arena, owned, values);
      if f in owned.Values then arena'[f].Done? else arena'[f] == arena[f]
  {
  }

  lemma CloseCloses(s: State, s': State, owned: map<Key, nat>, values: map<Key, FlightValue>)
    requires CloseInv(s)
    requires forall f | f in owned.Values :: f < |s.arena| && s.arena[f].Open?
    requires s'.arena == ClosedArena(s.arena, owned, values) && s'.closes == s.closes + multiset(owned.Values)
    ensures CloseInv(s') && ArenaGrows(s.arena, s'.arena)
  {
  }

  /** What a live supervisor holds is open, and is held under its own key. */
  lemma GenOwnsOpen(s: State, g: nat)
    requires RegistryInv(s) && g < |s.gens| && Live(s.gens[g])
    ensures forall f | f in s.gens[g].owned.Values ::
      f < |s.arena| && s.arena[f].Open? && s.arena[f].owner == ByGeneration(g) && s.arena[f].key in s.gens[g].owned
    ensures forall k | k in s.gens[g].owned :: k in s.flights && s.flights[k] == s.gens[g].owned[k]
  {
    var owned := s.gens[g].owned;
    assert OwnedBy(s, ByGeneration(g)) == owned;
    forall f | f in owned.Values
      ensures f < |s.arena| && s.arena[f].Open? && s.arena[f].owner == ByGeneration(g) && s.arena[f].key in owned
    {
      var k :| k in owned && owned[k] == f;
      assert OwnerOk(s, ByGeneration(g), k);
    }
    forall k | k in owned ensures k in s.flights && s.flights[k] == owned[k] {
      assert OwnerOk(s, ByGeneration(g), k);
      assert FlightOk(s, owned[k]);
    }
  }

  lemma CloseAgents(cfg: Config, s: State, s': State, g: nat)
    requires AgentInv(cfg, s) && RegistryInv(s) && g < |s.gens|
    requires s.gens[g].supervisor.Closing? || s.gens[g].supervisor == Failing
    requires s'.callers == s.callers && s'.gens == s.gens[g := s.gens[g].(supervisor := Closed)]
    requires s'.arena == ClosedArena(s.arena, s.gens[g].owned, Published(s.gens[g])) && ArenaGrows(s.arena, s'.arena)
    ensures AgentInv(cfg, s')
  {
    hide RegistryInv, CallerOk, Published, ArenaGrows, GenOk, SoundFlight, SoundValues, ClosedArena;
    var gen := s.gens[g];
    GenOwnsOpen(s, g);
    PublishedIsSound(cfg.truth, gen);
    PhaseIrrelevant(cfg.truth, gen);
    ClosedIsSound(cfg.truth, s.arena, gen.owned, Published(gen));
    forall c | c in s'.callers ensures CallerOk(s'.arena, s'.callers[c]) {
      CallerGrows(s.arena, s'.arena, s.callers[c]);
    }
  }

  lemma PublishedIsSound(truth: Truth, gen: Generation)
    requires GenOk(truth, gen) && (gen.supervisor.Closing? || gen.supervisor == Failing)
    ensures SoundValues(truth, gen.owned.Keys, Published(gen))
  {
  }

  lemma PhaseIrrelevant(truth: Truth, gen: Generation)
    requires GenOk(truth, gen) && (gen.supervisor.Closing? || gen.supervisor == Failing)
    ensures GenOk(truth, gen.(supervisor := Closed))
  {
  }

  lemma ClosedIsSound(truth: Truth, arena: seq<Flight>, owned: map<Key, nat>, values: map<Key, FlightValue>)
    requires SoundValues(truth, owned.Keys, values)
    requires forall f: nat {:trigger arena[f]} | f < |arena| :: SoundFlight(truth, arena[f])
    requires forall f | f in owned.Values :: f < |arena| && arena[f].key in owned
    ensures forall f: nat | f < |arena| :: SoundFlight(truth, ClosedArena(arena, owned, values)[f])
  {
  }

  lemma CloseRegistry(s: State, s': State, g: nat)
    requires RegistryInv(s) && g < |s.gens| && Live(s.gens[g])
    requires s'.callers == s.callers && s'.gens == s.gens[g := s.gens[g].(supervisor := Closed)]
    requires s'.flights == s.flights - s.gens[g].owned.Keys
    requires |s'.arena| == |s.arena|
    requires forall f | 0 <= f < |s.arena| ::
      if f in s.gens[g].owned.Values then s'.arena[f].Done? else s'.arena[f] == s.arena[f]
    ensures RegistryInv(s')
  {
    var owned := s.gens[g].owned;
    assert OwnedBy(s, ByGeneration(g)) == owned;
    assert OwnedBy(s', ByGeneration(g)) == map[];
    forall o | o != ByGeneration(g) ensures OwnedBy(s', o) == OwnedBy(s, o) {
    }
    GenOwnsOpen(s, g);
    forall k ensures KeyOk(s', k) {
      assert KeyOk(s, k);
      if k in s'.flights { assert s.flights[k] !in owned.Values; }
    }
    forall f: nat ensures FlightOk(s', f) {
      assert FlightOk(s, f);
      if f < |s'.arena| && s'.arena[f].Open? {
        assert f !in owned.Values;
      }
    }
    forall o, k ensures OwnerOk(s', o, k) {
      assert OwnerOk(s, o, k);
    }
  }

  // ---------------------------------------------------------------- every step

  /** The fast path's length test succeeds exactly when every key was joined. */
  lemma JoinedAll(flights: map<Key, nat>, keys: seq<Key>)
    requires Distinct(keys)
    ensures |Joined(flights, keys)| == |keys| <==> forall k | k in keys :: k in flights
  {
    var calls := Joined(flights, keys);
    assert calls.Keys <= Elements(keys);
    DistinctCount(keys);
    SubsetCount(calls.Keys, Elements(keys));
    assert |calls| == |calls.Keys|;
    if forall k | k in keys :: k in flights {
      assert calls.Keys == Elements(keys);
    } else {
      var k :| k in keys && k !in flights;
      assert k in Elements(keys) && k !in calls.Keys;
    }
  }

  lemma JoinIsOk(s: State, caller: Caller, a: Action)
    requires RegistryInv(s) && CallerOk(s.arena, caller) && a.Join? && caller.pc == Joining
    ensures CallerOk(s.arena, NextCaller(s.flights, s.arena, caller, a))
  {
    JoinedAll(s.flights, caller.keys);
    var calls := Joined(s.flights, caller.keys);
    forall k ensures k in calls ==> FlightOf(s.arena, calls, k) {
      assert KeyOk(s, k);
    }
  }

  /** A caller that steps within itself stays well formed; its slot follows its program counter. */
  lemma CallerActionOk(flights: map<Key, nat>, arena: seq<Flight>, caller: Caller, a: Action)
    requires CallerOk(arena, caller) && IsCallerAction(a) && CallerReady(arena, caller, a) && !a.Join?
    ensures CallerOk(arena, NextCaller(flights, arena, caller, a))
  {
  }

  lemma CallerSlotFollows(flights: map<Key, nat>, arena: seq<Flight>, caller: Caller, a: Action, tokens: nat)
    requires IsCallerAction(a) && CallerReady(arena, caller, a)
    ensures TokensAfter(tokens, a)
      == tokens + Slots(HoldsSlot(NextCaller(flights, arena, caller, a).pc)) - Slots(HoldsSlot(caller.pc))
    ensures NextCaller(flights, arena, caller, a).owned == caller.owned
  {
  }

  lemma GenActionOk(truth: Truth, gen: Generation, a: Action, tokens: nat)
    requires GenOk(truth, gen) && IsGenAction(a) && GenReady(truth, gen, a)
    ensures var gen' := NextGen(truth, gen, a);
      && GenOk(truth, gen') && gen'.owned == gen.owned && Live(gen') == Live(gen)
      && TokensAfter(tokens, a) == tokens + Slots(gen'.worker != Gone) - Slots(gen.worker != Gone)
  {
  }

  /** No interleaving of callers, supervisors, workers, timeouts and panics breaks the invariant. */
  lemma StepKeepsInv(cfg: Config, s: State, a: Action)
    requires Inv(cfg, s) && Enabled(cfg, s, a)
    ensures Inv(cfg, Step(cfg, s, a)) && ArenaGrows(s.arena, Step(cfg, s, a).arena)
  {
    hide RegistryInv, CloseInv, CallerOk, GenOk, CallerReady, NextCaller, GenReady, NextGen;
    if a.Register? {
      RegisterStep(cfg, s, a.c);
    } else if a.Spawn? {
      SpawnStep(cfg, s, a.c);
    } else if a.CloseFlights? {
      CloseStep(cfg, s, a.g);
    } else if a.Arrive? {
      var caller := Caller(Joining, a.keys, map[], map[]);
      FreshCallerOk(s.arena, a.keys);
      CallerStep(cfg, s, a.c, caller, s.tokens);
    } else if IsCallerAction(a) {
      var caller := s.callers[a.c];
      if a.Join? { JoinMoves(s.flights, s.arena, caller, a); JoinIsOk(s, caller, a); } else { CallerActionOk(s.flights, s.arena, caller, a); }
      CallerSlotFollows(s.flights, s.arena, caller, a, s.tokens);
      CallerStep(cfg, s, a.c, NextCaller(s.flights, s.arena, caller, a), TokensAfter(s.tokens, a));
    } else {
      GenActionOk(cfg.truth, s.gens[a.g], a, s.tokens);
      GenStep(cfg, s, a.g, NextGen(cfg.truth, s.gens[a.g], a), TokensAfter(s.tokens, a));
    }
  }

  lemma FreshCallerOk(arena: seq<Flight>, keys: seq<Key>)
    requires Distinct(keys)
    ensures CallerOk(arena, Caller(Joining, keys, map[], map[]))
  {
  }

  lemma JoinMoves(flights: map<Key, nat>, arena: seq<Flight>, caller: Caller, a: Action)
    requires a.Join? && CallerReady(arena, caller, a)
    ensures caller.pc == Joining
  {
  }

  // ---------------------------------------------------------------- whole runs

  ghost predicate ValidRun(cfg: Config, s: State, run: seq<Action>)
    decreases |run|
  {
    run == [] || (Enabled(cfg, s, run[0]) && ValidRun(cfg, Step(cfg, s, run[0]), run[1..]))
  }

  ghost function Exec(cfg: Config, s: State, run: seq<Action>): State
    requires ValidRun(cfg, s, run)
    decreases |run|
  {
    if run == [] then s else Exec(cfg, Step(cfg, s, run[0]), run[1..])
  }

  lemma InitialInv(cfg: Config)
    ensures Inv(cfg, Initial)
  {
    assert CallerHolders(Initial.callers) == {} && GenHolders(Initial.gens) == {};
  }

  /** Every reachable state satisfies the invariant, and completed flights never change again. */
  lemma {:induction false} RunKeepsInv(cfg: Config, s: State, run: seq<Action>)
    requires Inv(cfg, s) && ValidRun(cfg, s, run)
    ensures Inv(cfg, Exec(cfg, s, run)) && ArenaGrows(s.arena, Exec(cfg, s, run).arena)
    decreases |run|
  {
    if run != [] {
      var s' := Step(cfg, s, run[0]);
      StepKeepsInv(cfg, s, run[0]);
      RunKeepsInv(cfg, s', run[1..]);
    }
  }

  /**
   At most one flight per key: the registered one, still open, held by exactly one caller
   about to spawn or live supervisor. Completed flights were closed once, open ones never.
  */
  lemma OneFlightOneOwner(cfg: Config, run: seq<Action>)
    requires ValidRun(cfg, Initial, run)
    ensures var s := Exec(cfg, Initial, run);
      && (forall k | k in s.flights :: s.flights[k] < |s.arena| && s.arena[s.flights[k]].Open? && s.arena[s.flights[k]].key == k)
      && (forall f | 0 <= f < |s.arena| && s.arena[f].Open? ::
            s.arena[f].key in s.flights && s.flights[s.arena[f].key] == f)
      && (forall f, o | 0 <= f < |s.arena| && s.arena[f].Open? ::
            f in OwnedBy(s, o).Values <==> o == s.arena[f].owner)
      && (forall f: nat :: s.closes[f] == if f < |s.arena| && s.arena[f].Done? then 1 else 0)
  {
    InitialInv(cfg);
    RunKeepsInv(cfg, Initial, run);
    var s := Exec(cfg, Initial, run);
    hide AgentInv, SlotInv;
    forall k | k in s.flights ensures s.flights[k] < |s.arena| && s.arena[s.flights[k]].Open? && s.arena[s.flights[k]].key == k {
      assert KeyOk(s, k);
    }
    forall f | 0 <= f < |s.arena| && s.arena[f].Open?
      ensures s.arena[f].key in s.flights && s.flights[s.arena[f].key] == f
    {
      assert FlightOk(s, f);
    }
    forall f, o | 0 <= f < |s.arena| && s.arena[f].Open?
      ensures f in OwnedBy(s, o).Values <==> o == s.arena[f].owner
    {
      assert FlightOk(s, f);
      if f in OwnedBy(s, o).Values {
        var k :| k in OwnedBy(s, o) && OwnedBy(s, o)[k] == f;
        assert OwnerOk(s, o, k);
      }
    }
  }

  /** A closing supervisor finds its own flight under each of its keys, never a newer generation's. */
  lemma ClosingDeletesOnlyItsOwn(cfg: Config, run: seq<Action>, g: nat)
    requires ValidRun(cfg, Initial, run) && Enabled(cfg, Exec(cfg, Initial, run), CloseFlights(g))
    ensures var s := Exec(cfg, Initial, run);
      var s' := Step(cfg, s, CloseFlights(g));
      && (forall k | k in s.gens[g].owned :: k in s.flights && s.flights[k] == s.gens[g].owned[k])
      && (forall f | f in s.gens[g].owned.Values :: f < |s.arena| && s.arena[f].Open? && s'.arena[f].Done?)
      && (forall f | 0 <= f < |s.arena| && f !in s.gens[g].owned.Values :: s'.arena[f] == s.arena[f])
  {
    InitialInv(cfg);
    RunKeepsInv(cfg, Initial, run);
    GenOwnsOpen(Exec(cfg, Initial, run), g);
    hide Inv, ValidRun, Exec;
  }

  /** All callers have returned and all workers are gone. */
  ghost predicate Quiet(s: State) {
    && (forall c | c in s.callers :: s.callers[c].pc.Finished?)
    && (forall g | 0 <= g < |s.gens| :: s.gens[g].worker == Gone)
  }

  /**
   Slot conservation in every reachable state: tokens are the callers still holding a slot plus
   the generations whose worker has not exited, so at most `capacity` loaders physically run, a
   release never blocks, and a quiet client has every slot back.
  */
  lemma SlotConservation(cfg: Config, run: seq<Action>)
    requires ValidRun(cfg, Initial, run)
    ensures var s := Exec(cfg, Initial, run);
      && s.tokens == |CallerHolders(s.callers)| + |GenHolders(s.gens)|
      && |(set g | 0 <= g < |s.gens| && s.gens[g].worker == Running)| <= s.tokens <= cfg.capacity
      && (forall c | c in s.callers && HoldsSlot(s.callers[c].pc) :: s.tokens > 0)
      && (forall g | 0 <= g < |s.gens| && s.gens[g].worker != Gone :: s.tokens > 0)
      && (Quiet(s) ==> s.tokens == 0)
  {
    InitialInv(cfg);
    RunKeepsInv(cfg, Initial, run);
    var s := Exec(cfg, Initial, run);
    hide RegistryInv, AgentInv, CloseInv, ValidRun, Exec;
    SubsetCount((set g | 0 <= g < |s.gens| && s.gens[g].worker == Running), GenHolders(s.gens));
    forall c | c in s.callers && HoldsSlot(s.callers[c].pc) ensures s.tokens > 0 {
      assert c in CallerHolders(s.callers);
    }
    forall g | 0 <= g < |s.gens| && s.gens[g].worker != Gone ensures s.tokens > 0 {
      assert g in GenHolders(s.gens);
    }
    if Quiet(s) {
      assert CallerHolders(s.callers) == {} && GenHolders(s.gens) == {};
    }
  }

  // ---------------------------------------------------------------- what waiters see

  /** What a finished caller has consumed agrees with the source; stopping early is an error. */
  lemma WaitersSeeTheSource(cfg: Config, run: seq<Action>, c: nat)
    requires ValidRun(cfg, Initial, run)
    requires c in Exec(cfg, Initial, run).callers && Exec(cfg, Initial, run).callers[c].pc.Finished?
    ensures var s := Exec(cfg, Initial, run); var caller := s.callers[c];
      && caller.pc.consumed <= |caller.keys|
      && (caller.pc.consumed < |caller.keys| ==> caller.pc.errs != [])
      && forall i {:trigger caller.keys[i]} | 0 <= i < caller.pc.consumed ::
           && FlightOf(s.arena, caller.calls, caller.keys[i]) && DoneAt(s.arena, caller.calls, caller.keys[i])
           && SoundValue(cfg.truth, caller.keys[i], s.arena[caller.calls[caller.keys[i]]].value)
  {
    InitialInv(cfg);
    RunKeepsInv(cfg, Initial, run);
    var s := Exec(cfg, Initial, run);
    var caller := s.callers[c];
    assert CallerOk(s.arena, caller);
    hide RegistryInv, CloseInv, ValidRun, Exec;
    forall i | 0 <= i < caller.pc.consumed
      ensures FlightOf(s.arena, caller.calls, caller.keys[i]) && DoneAt(s.arena, caller.calls, caller.keys[i])
      ensures SoundValue(cfg.truth, caller.keys[i], s.arena[caller.calls[caller.keys[i]]].value)
    {
      assert DoneAt(s.arena, caller.calls, caller.keys[i]);
      assert FlightOf(s.arena, caller.calls, caller.keys[i]);
      assert SoundFlight(cfg.truth, s.arena[caller.calls[caller.keys[i]]]);
    }
  }
}
