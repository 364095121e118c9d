/**
 Processes loading snapshots of the site configuration while others publish
 (app/siteconfig/service.go Refresh, config/runtime.go).

 A refresh reads one consistent database snapshot in a read-only transaction, and installs it
 later: the two halves are separate steps, so publishes of any process fall between them.
 */
module SiteRuntime {
  import opened Common
  import opened SiteConfig

  datatype Snapshot = Snapshot(generation: int, revisions: map<string, int>, values: map<string, Values>)

  // ---------------------------------------------------------------- building a snapshot

  /** What the read transaction of Refresh makes of a database, None when it refuses it. */
  function Load(validate: Validate, names: seq<string>, db: Db): Option<Snapshot> {
    if db.state.generation < 1 || db.state.epoch < 1 || db.state.revision < 1 then None
    else if exists ns | ns in names :: ns !in db.current then None
    else if exists ns | ns in names :: Checked(validate, ns, db.current[ns].doc).None? then None
    else Build(validate, names, db.state.generation,
               map ns | ns in names :: db.current[ns].doc.revision,
               map ns | ns in names :: Checked(validate, ns, db.current[ns].doc).value)
  }

  /** BuildRuntimeSnapshot: every namespace present, revised and valid once more. */
  function Build(validate: Validate, names: seq<string>, generation: int, revisions: map<string, int>, values: map<string, Values>): Option<Snapshot> {
    if values.Keys != Elements(names) || generation < 0 then None
    else if exists ns | ns in names :: generation > 0 && (ns !in revisions || revisions[ns] <= 0) then None
    else if exists ns | ns in names :: validate(ns, values[ns]).None? then None
    else Some(Snapshot(generation, revisions, map ns | ns in names :: validate(ns, values[ns]).value))
  }

  // What runs, what the service last loaded, and what was read but is not installed yet.
  datatype ProcessState = ProcessState(running: Option<Snapshot>, loaded: Option<Snapshot>, pending: Option<Snapshot>)

  predicate Regresses(p: ProcessState) {
    p.pending.Some? && p.running.Some? && p.running.value.generation > p.pending.value.generation
  }

  /** The install half of a refresh: what was read replaces what runs, unless nothing was read or it is older. */
  function Settled(p: ProcessState): ProcessState {
    if p.pending.None? || Regresses(p) then p.(pending := None) else ProcessState(p.pending, p.pending, None)
  }

  /** The part of a process that holds configuration. */
  class Process {
    var running: Option<Snapshot>    // config.runtimeSnapshot
    var loaded: Option<Snapshot>     // Service.loaded
    var failed: bool                 // Service.lastError is set

    ghost function State(pending: Option<Snapshot>): ProcessState
      reads this
    {
      ProcessState(running, loaded, pending)
    }

    constructor ()
      ensures State(None) == ProcessState(None, None, None) && !failed
    {
      running, loaded, failed := None, None, false;
    }

    /** The read half of Refresh: one loop over the rows of the transaction's snapshot. */
    method ReadSnapshot(validate: Validate, names: seq<string>, db: Db) returns (snapshot: Option<Snapshot>)
      ensures snapshot == Load(validate, names, db)
    {
      hide Checked, Build;
      if db.state.generation < 1 || db.state.epoch < 1 || db.state.revision < 1 {
        return None;
      }
      for i := 0 to |names|
        invariant forall j | 0 <= j < i :: names[j] in db.current
      {
        if names[i] !in db.current {
          return None;
        }
      }
      var values: map<string, Values>, revisions: map<string, int> := map[], map[];
      for i := 0 to |names|
        invariant forall ns :: ns in values <==> ns in names[..i]
        invariant forall ns :: ns in revisions <==> ns in names[..i]
        invariant forall ns | ns in values :: Checked(validate, ns, db.current[ns].doc) == Some(values[ns])
        invariant forall ns | ns in revisions :: revisions[ns] == db.current[ns].doc.revision
      {
        var ns := names[i];
        var normalized := Checked(validate, ns, db.current[ns].doc);
        if normalized.None? {
          assert ns in names;
          return None;
        }
        values, revisions := values[ns := normalized.value], revisions[ns := db.current[ns].doc.revision];
        assert names[..i + 1] == names[..i] + [ns];
      }
      assert names[..|names|] == names;
      assert values == map ns | ns in names :: Checked(validate, ns, db.current[ns].doc).value;
      assert revisions == map ns | ns in names :: db.current[ns].doc.revision;
      snapshot := Build(validate, names, db.state.generation, revisions, values);
    }

    /** StoreRuntimeSnapshot and the bookkeeping after it: an older generation is refused. */
    method Install(snapshot: Option<Snapshot>) returns (ok: bool)
      modifies this
      ensures State(None) == Settled(old(State(snapshot)))
      ensures ok <==> snapshot.Some? && !Regresses(old(State(snapshot)))
      ensures failed <==> !ok
    {
      if snapshot.None? || (running.Some? && running.value.generation > snapshot.value.generation) {
        failed := true;
        return false;
      }
      running, loaded, failed := snapshot, snapshot, false;
      return true;
    }

    /** The read and install steps of one process; `db` is the database at the instant of the read. */
    method Refresh(validate: Validate, names: seq<string>, db: Db) returns (ok: bool)
      modifies this
      ensures State(None) == Settled(old(State(Load(validate, names, db))))
      ensures ok <==> Load(validate, names, db).Some? && !Regresses(old(State(Load(validate, names, db))))
      ensures failed <==> !ok
    {
      var snapshot := ReadSnapshot(validate, names, db);
      ok := Install(snapshot);
    }
  }

  // ---------------------------------------------------------------- many processes

  datatype System = System(db: Db, processes: map<nat, ProcessState>)

  datatype Action = Publishes(q: Request) | Starts(p: nat) | Reads(p: nat) | Installs(p: nat) | Fails(p: nat)

  function Next(validate: Validate, names: seq<string>, s: System, a: Action): System {
    match a
    case Publishes(q) => s.(db := Publish(validate, s.db, q).0)
    case Starts(p) => if p in s.processes then s else s.(processes := s.processes[p := ProcessState(None, None, None)])
    case Reads(p) =>
      if p !in s.processes then s
      else s.(processes := s.processes[p := s.processes[p].(pending := Load(validate, names, s.db))])
    case Installs(p) => if p !in s.processes then s else s.(processes := s.processes[p := Settled(s.processes[p])])
    case Fails(p) => if p !in s.processes then s else s.(processes := s.processes[p := s.processes[p].(pending := None)])
  }

  function RunSystem(validate: Validate, names: seq<string>, s: System, run: seq<Action>): System
    decreases |run|
  {
    if run == [] then s else RunSystem(validate, names, Next(validate, names, s, run[0]), run[1..])
  }

  // ---------------------------------------------------------------- what a generation means

  function LastValues(validate: Validate, rows: seq<HistoryRow>): Values {
    if rows == [] then map[]
    else
      var v := CheckedRow(validate, rows[|rows| - 1]);
      if v.None? then map[] else v.value
  }

  /** The configuration after the first n history rows: revisions and values of every namespace. */
  function AfterRows(validate: Validate, names: seq<string>, history: seq<HistoryRow>, generation: int): Snapshot {
    Snapshot(generation,
      map ns | ns in names :: |Rows(history, ns)|,
      map ns | ns in names :: LastValues(validate, Rows(history, ns)))
  }

  function FirstRows(history: seq<HistoryRow>, n: int): seq<HistoryRow> {
    if 0 <= n <= |history| then history[..n] else history
  }

  /** A snapshot that shows exactly the publications up to its generation, of every namespace. */
  ghost predicate Genuine(validate: Validate, names: seq<string>, db: Db, x: Option<Snapshot>) {
    x.Some? ==>
      && 1 <= x.value.generation <= db.state.generation
      && |names| + x.value.generation - 1 <= |db.history|
      && x.value == AfterRows(validate, names, FirstRows(db.history, |names| + x.value.generation - 1), x.value.generation)
  }

  ghost predicate GenuineProcess(validate: Validate, names: seq<string>, db: Db, p: ProcessState) {
    && Genuine(validate, names, db, p.running) && Genuine(validate, names, db, p.loaded) && Genuine(validate, names, db, p.pending)
    && p.loaded == p.running
  }

  ghost predicate SystemInv(validate: Validate, names: seq<string>, s: System) {
    && Inv(validate, names, s.db)
    && forall p | p in s.processes :: GenuineProcess(validate, names, s.db, s.processes[p])
  }

  lemma RevalidatesSame(validate: Validate, ns: string, doc: Stored)
    requires Normaliser(validate) && Checked(validate, ns, doc).Some?
    ensures validate(ns, Checked(validate, ns, doc).value) == Checked(validate, ns, doc)
  {
    var input := if ns == "account_policy" then FALLBACKS + doc.json.values else doc.json.values;
    assert validate(ns, input).Some?;
  }

  lemma NamespaceReads(validate: Validate, names: seq<string>, db: Db, ns: string)
    requires Normaliser(validate) && Inv(validate, names, db) && ns in names
    ensures ns in db.current
    ensures var v := Checked(validate, ns, db.current[ns].doc); var rows := Rows(db.history, ns);
      && v.Some? && validate(ns, v.value) == v && v.value == LastValues(validate, rows)
      && db.current[ns].doc.revision == |rows| >= 1
  {
    assert NamespaceOk(validate, db, ns);
    var rows := Rows(db.history, ns);
    assert rows[|rows| - 1].ns == ns;
    RevalidatesSame(validate, ns, db.current[ns].doc);
  }

  /** Whatever the database holds, a refresh reads it exactly when its counters are positive and every namespace has a readable
      document: the second validation refuses nothing the first one passed. */
  lemma LoadDecides(validate: Validate, names: seq<string>, db: Db)
    requires Normaliser(validate)
    ensures Load(validate, names, db).Some? <==>
      && db.state.generation >= 1 && db.state.epoch >= 1 && db.state.revision >= 1
      && forall ns | ns in names :: ns in db.current && Checked(validate, ns, db.current[ns].doc).Some?
  {
    if forall ns | ns in names :: ns in db.current && Checked(validate, ns, db.current[ns].doc).Some? {
      forall ns | ns in names
        ensures validate(ns, Checked(validate, ns, db.current[ns].doc).value).Some? && db.current[ns].doc.revision >= 1
      {
        RevalidatesSame(validate, ns, db.current[ns].doc);
      }
      var values := map ns | ns in names :: Checked(validate, ns, db.current[ns].doc).value;
      assert values.Keys == Elements(names);
    }
    hide Checked, Normaliser;
  }

  /** No reachable database is refused, and what is read is the whole history of that instant. */
  lemma LoadIsGenuine(validate: Validate, names: seq<string>, db: Db)
    requires Normaliser(validate) && Inv(validate, names, db) && |names| <= |db.history|
    ensures Load(validate, names, db) == Some(AfterRows(validate, names, db.history, db.state.generation))
    ensures Genuine(validate, names, db, Load(validate, names, db))
  {
    hide Checked, LastValues, Rows, NamespaceOk, Normaliser, Closings, HistoryOk;
    var shown := AfterRows(validate, names, db.history, db.state.generation);
    forall ns | ns in names
      ensures ns in db.current && Checked(validate, ns, db.current[ns].doc) == Some(shown.values[ns])
      ensures validate(ns, shown.values[ns]) == Some(shown.values[ns]) && db.current[ns].doc.revision == shown.revisions[ns] >= 1
    {
      NamespaceReads(validate, names, db, ns);
    }
    assert FirstRows(db.history, |names| + db.state.generation - 1) == db.history;
    LoadFrom(validate, names, db, shown);
  }

  /** A database whose rows all read as `shown` loads as `shown`. */
  lemma LoadFrom(validate: Validate, names: seq<string>, db: Db, shown: Snapshot)
    requires db.state.generation == shown.generation >= 1 && db.state.epoch >= 1 && db.state.revision >= 1
    requires shown.values.Keys == shown.revisions.Keys == Elements(names)
    requires forall ns | ns in names :: ns in db.current && Checked(validate, ns, db.current[ns].doc) == Some(shown.values[ns])
    requires forall ns | ns in names :: validate(ns, shown.values[ns]) == Some(shown.values[ns]) && db.current[ns].doc.revision == shown.revisions[ns] >= 1
    ensures Load(validate, names, db) == Some(shown)
  {
    hide Checked;
    var revisions := map ns | ns in names :: db.current[ns].doc.revision;
    var values := map ns | ns in names :: Checked(validate, ns, db.current[ns].doc).value;
    assert revisions == shown.revisions && values == shown.values;
    assert (map ns | ns in names :: validate(ns, values[ns]).value) == values;
  }

  lemma GenuineStays(validate: Validate, names: seq<string>, db: Db, db': Db, x: Option<Snapshot>)
    requires Genuine(validate, names, db, x) && Later(db, db')
    ensures Genuine(validate, names, db', x)
  {
    if x.Some? {
      var n := |names| + x.value.generation - 1;
      assert db'.history[..n] == db.history[..n];
      hide AfterRows;
    }
  }

  /** The history holds at least the seed: one row per namespace. */
  lemma {:induction false} HistoryCoversNames(validate: Validate, names: seq<string>, db: Db, part: seq<string>)
    requires Inv(validate, names, db) && forall ns | ns in part :: ns in names
    ensures |part| <= Sizes(part, db.history)
  {
    if part != [] {
      var front, ns := part[..|part| - 1], part[|part| - 1];
      assert part == front + [ns];
      HistoryCoversNames(validate, names, db, front);
      assert ns in part;
      assert NamespaceOk(validate, db, ns);
    }
  }

  lemma PublishKeepsSystem(validate: Validate, names: seq<string>, s: System, q: Request)
    requires Normaliser(validate) && Distinct(names) && SystemInv(validate, names, s)
    ensures SystemInv(validate, names, Next(validate, names, s, Publishes(q)))
  {
    hide Publish, Inv, Genuine, Later, Normaliser, Load, Settled;
    var s' := Next(validate, names, s, Publishes(q));
    PublishKeepsInv(validate, names, s.db, q);
    PublishMovesForward(validate, names, s.db, q);
    forall p | p in s'.processes ensures GenuineProcess(validate, names, s'.db, s'.processes[p]) {
      var x := s.processes[p];
      GenuineStays(validate, names, s.db, s'.db, x.running);
      GenuineStays(validate, names, s.db, s'.db, x.pending);
    }
  }

  lemma ReadKeepsSystem(validate: Validate, names: seq<string>, s: System, p: nat)
    requires Normaliser(validate) && Distinct(names) && SystemInv(validate, names, s)
    ensures SystemInv(validate, names, Next(validate, names, s, Reads(p)))
  {
    hide Load, Genuine, Publish, Normaliser, AfterRows, NamespaceOk;
    HistoryCoversNames(validate, names, s.db, names);
    SizesPartition(names, s.db.history);
    LoadIsGenuine(validate, names, s.db);
  }

  lemma StepKeepsSystem(validate: Validate, names: seq<string>, s: System, a: Action)
    requires Normaliser(validate) && Distinct(names) && SystemInv(validate, names, s)
    ensures SystemInv(validate, names, Next(validate, names, s, a))
  {
    hide Load, Inv, Publish, Normaliser, AfterRows;
    match a {
      case Publishes(q) => PublishKeepsSystem(validate, names, s, q);
      case Reads(p) => ReadKeepsSystem(validate, names, s, p);
      case _ =>
    }
  }

  lemma {:induction false} SystemRuns(validate: Validate, names: seq<string>, s: System, run: seq<Action>)
    requires Normaliser(validate) && Distinct(names) && SystemInv(validate, names, s)
    ensures SystemInv(validate, names, RunSystem(validate, names, s, run))
    decreases |run|
  {
    if run != [] {
      hide SystemInv, Normaliser, Next;
      StepKeepsSystem(validate, names, s, run[0]);
      SystemRuns(validate, names, Next(validate, names, s, run[0]), run[1..]);
    }
  }

  function SeedSystem(names: seq<string>, docs: map<string, Values>, actor: int, importHash: string): System
    requires forall ns | ns in names :: ns in docs
  {
    System(Seed(names, docs, actor, importHash), map[])
  }

  lemma SystemReaches(validate: Validate, names: seq<string>, docs: map<string, Values>, actor: int, importHash: string, run: seq<Action>)
    requires Normaliser(validate) && SeedDocs(validate, names, docs)
    ensures SystemInv(validate, names, RunSystem(validate, names, SeedSystem(names, docs, actor, importHash), run))
  {
    SeedIsValid(validate, names, docs, actor, importHash);
    SystemRuns(validate, names, SeedSystem(names, docs, actor, importHash), run);
  }

  /**
   In every interleaving, two processes that run the same generation run the same revisions and
   values in every namespace: a snapshot never mixes two publishes.
  */
  lemma SameGenerationSameSnapshot(validate: Validate, names: seq<string>, docs: map<string, Values>, actor: int, importHash: string,
                                   run: seq<Action>, p: nat, p': nat)
    requires Normaliser(validate) && SeedDocs(validate, names, docs)
    requires var s := RunSystem(validate, names, SeedSystem(names, docs, actor, importHash), run);
      && p in s.processes && p' in s.processes
      && s.processes[p].running.Some? && s.processes[p'].running.Some?
      && s.processes[p].running.value.generation == s.processes[p'].running.value.generation
    ensures var s := RunSystem(validate, names, SeedSystem(names, docs, actor, importHash), run);
      && s.processes[p].running == s.processes[p'].running
      && s.processes[p].running.value == AfterRows(validate, names,
           FirstRows(s.db.history, |names| + s.processes[p].running.value.generation - 1), s.processes[p].running.value.generation)
  {
    hide RunSystem, SeedSystem, AfterRows, Inv, SystemInv, Normaliser;
    SystemReaches(validate, names, docs, actor, importHash, run);
    BothGenuine(validate, names, RunSystem(validate, names, SeedSystem(names, docs, actor, importHash), run), p, p');
  }

  lemma BothGenuine(validate: Validate, names: seq<string>, s: System, p: nat, p': nat)
    requires SystemInv(validate, names, s) && p in s.processes && p' in s.processes
    requires s.processes[p].running.Some? && s.processes[p'].running.Some?
    requires s.processes[p].running.value.generation == s.processes[p'].running.value.generation
    ensures s.processes[p].running == s.processes[p'].running
    ensures s.processes[p].running.value == AfterRows(validate, names,
           FirstRows(s.db.history, |names| + s.processes[p].running.value.generation - 1), s.processes[p].running.value.generation)
  {
    hide AfterRows, Inv, FirstRows;
    assert GenuineProcess(validate, names, s.db, s.processes[p]);
    assert GenuineProcess(validate, names, s.db, s.processes[p']);
  }

  /** A snapshot that is not older than the running one is installed; an older one, or none, changes nothing. */
  lemma InstallDecides(x: ProcessState)
    ensures var y := Settled(x);
      && y.pending.None?
      && (if x.pending.Some? && (x.running.None? || x.running.value.generation <= x.pending.value.generation)
          then y.running == x.pending && y.loaded == x.pending else y.running == x.running && y.loaded == x.loaded)
  {
  }

  /** A refresh that nothing interrupts runs everything published so far, whatever ran before. */
  lemma RefreshShowsLatest(validate: Validate, names: seq<string>, s: System, p: nat)
    requires Normaliser(validate) && Distinct(names) && SystemInv(validate, names, s) && p in s.processes
    ensures var s' := Next(validate, names, Next(validate, names, s, Reads(p)), Installs(p));
      && p in s'.processes && s'.db == s.db && s'.processes[p].loaded == s'.processes[p].running
      && s'.processes[p].running == Some(AfterRows(validate, names, s.db.history, s.db.state.generation))
  {
    hide Load, AfterRows, Inv, FirstRows, Normaliser, Publish;
    assert GenuineProcess(validate, names, s.db, s.processes[p]);
    LoadsLatest(validate, names, s.db);
  }

  lemma LoadsLatest(validate: Validate, names: seq<string>, db: Db)
    requires Normaliser(validate) && Distinct(names) && Inv(validate, names, db)
    ensures Load(validate, names, db) == Some(AfterRows(validate, names, db.history, db.state.generation))
    ensures AfterRows(validate, names, db.history, db.state.generation).generation == db.state.generation
  {
    HistoryCoversNames(validate, names, db, names);
    SizesPartition(names, db.history);
    LoadIsGenuine(validate, names, db);
    hide Load, Inv;
  }

  function LoadedGeneration(s: System, p: nat): int {
    if p in s.processes && s.processes[p].loaded.Some? then s.processes[p].loaded.value.generation else 0
  }

  lemma LoadedStep(validate: Validate, names: seq<string>, s: System, a: Action, p: nat)
    requires p in s.processes ==> s.processes[p].loaded == s.processes[p].running
    requires p in s.processes && s.processes[p].pending.Some? ==> s.processes[p].pending.value.generation >= 0
    ensures LoadedGeneration(s, p) <= LoadedGeneration(Next(validate, names, s, a), p)
  {
    hide Publish, Load;
  }

  /** A process's loaded generation never decreases, whatever the others do. */
  lemma {:induction false} LoadedNeverDecreases(validate: Validate, names: seq<string>, s: System, run: seq<Action>, p: nat)
    requires Normaliser(validate) && Distinct(names) && SystemInv(validate, names, s)
    ensures LoadedGeneration(s, p) <= LoadedGeneration(RunSystem(validate, names, s, run), p)
    decreases |run|
  {
    if run != [] {
      if p in s.processes { assert GenuineProcess(validate, names, s.db, s.processes[p]); }
      hide Inv, Next, Normaliser, AfterRows, LoadedGeneration;
      StepKeepsSystem(validate, names, s, run[0]);
      LoadedStep(validate, names, s, run[0], p);
      LoadedNeverDecreases(validate, names, Next(validate, names, s, run[0]), run[1..], p);
    }
  }
}
