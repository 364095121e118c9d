/**
 Migration attempts that may stop after any statement and start over
 (internal/accountsmigrate/additive.go and applyStep, verifyMarkers in apply.go).

 An attempt is given the number of statements it will execute before it is cut off. Reads change nothing,
 so a cut between two statements is a cut after the first of them.
 */
module MigrationRuns {
  import opened Common
  import opened MigrationSchema

  datatype Phase = Started | Completed | Unknown(text: string)

  datatype Marker = Marker(checksum: string, phase: Phase)

  datatype Db = Db(tables: map<string, Table>, markers: map<string, Marker>)

  const META := "schema_migration"

  /** `base` lists the historical steps that must be complete before this upgrade. */
  datatype Options = Options(steps: seq<Step>, base: seq<Step>, meta: Step)

  datatype Plan = Plan(pendingSteps: seq<string>, pendingMarkers: seq<string>)

  function Lookup(db: Db, name: string): Option<Table> {
    if name in db.tables then Some(db.tables[name]) else None
  }

  // ---------------------------------------------------------------- the planner

  function MarkerError(db: Db, step: Step): Option<Error> {
    if step.id !in db.markers then None
    else
      var marker := db.markers[step.id];
      if marker.checksum != step.checksum then Some(ChecksumConflict)
      else
        var state := VerifyStep(step, Lookup(db, step.table));
        if state.Err? then Some(state.error)
        else if marker.phase == Completed && !state.value then Some(MissingStructure)
        else if marker.phase.Unknown? then Some(UnknownPhase)
        else None
  }

  function BaseError(db: Db, step: Step): Option<Error> {
    var state := VerifyStep(step, Lookup(db, step.table));
    if state.Err? then Some(state.error) else if !state.value then Some(BaseIncomplete) else None
  }

  function StepError(db: Db, step: Step): Option<Error> {
    var state := VerifyStep(step, Lookup(db, step.table));
    if state.Err? then Some(state.error) else None
  }

  datatype Pass = BasePass | StepPass | MarkerPass

  function ErrorOf(pass: Pass, db: Db, step: Step): Option<Error> {
    match pass
    case BasePass => BaseError(db, step)
    case StepPass => StepError(db, step)
    case MarkerPass => MarkerError(db, step)
  }

  /** The error of the first step that has one. */
  function First(pass: Pass, db: Db, steps: seq<Step>): Option<Error> {
    if steps == [] then None
    else
      var earlier := First(pass, db, steps[..|steps| - 1]);
      if earlier.Some? then earlier else ErrorOf(pass, db, steps[|steps| - 1])
  }

  function PendingSteps(db: Db, steps: seq<Step>): seq<string> {
    if steps == [] then []
    else
      var step := steps[|steps| - 1];
      PendingSteps(db, steps[..|steps| - 1]) + if VerifyStep(step, Lookup(db, step.table)) == Ok(true) then [] else [step.id]
  }

  predicate IsMarked(db: Db, step: Step) {
    META in db.tables && step.id in db.markers && db.markers[step.id].phase == Completed
  }

  function PendingMarkers(db: Db, steps: seq<Step>): seq<string> {
    if steps == [] then []
    else
      var step := steps[|steps| - 1];
      PendingMarkers(db, steps[..|steps| - 1]) + if IsMarked(db, step) then [] else [step.id]
  }

  function PlanError(db: Db, opts: Options): Option<Error> {
    var base := First(BasePass, db, opts.base);
    var steps := First(StepPass, db, opts.steps);
    if base.Some? then base
    else if steps.Some? then steps
    else if META !in db.tables then None
    else if StepError(db, opts.meta).Some? then StepError(db, opts.meta)
    else First(MarkerPass, db, opts.steps)
  }

  function BuildPlan(db: Db, opts: Options): Result<Plan, Error> {
    var error := PlanError(db, opts);
    if error.Some? then Err(error.value) else Ok(Plan(PendingSteps(db, opts.steps), PendingMarkers(db, opts.steps)))
  }

  // ---------------------------------------------------------------- statements

  /** The database, the statements still allowed, and the DDL steps executed so far. */
  datatype Exec = Exec(db: Db, left: nat, ran: seq<string>)

  function MarkStarted(db: Db, id: string, checksum: string): Db {
    if id in db.markers then db else db.(markers := db.markers[id := Marker(checksum, Started)])
  }

  function RunDdl(server: Server, db: Db, step: Step): Db {
    db.(tables := db.tables[step.table := server(step, Lookup(db, step.table))])
  }

  function MarkCompleted(db: Db, step: Step): Db {
    if step.id in db.markers && db.markers[step.id].checksum == step.checksum
    then db.(markers := db.markers[step.id := Marker(step.checksum, Completed)])
    else db
  }

  function Complete1(x: Exec, step: Step): (Exec, Option<Error>) {
    if x.left == 0 then (x, Some(Interrupted)) else (x.(db := MarkCompleted(x.db, step), left := x.left - 1), None)
  }

  function ApplyStep(server: Server, x: Exec, step: Step): (Exec, Option<Error>) {
    var state := VerifyStep(step, Lookup(x.db, step.table));
    if state.Err? then (x, Some(state.error))
    else if x.left == 0 then (x, Some(Interrupted))
    else
      var marked := x.(db := MarkStarted(x.db, step.id, step.checksum), left := x.left - 1);
      if state.value then Complete1(marked, step)
      else if marked.left == 0 then (marked, Some(Interrupted))
      else
        var changed := Exec(RunDdl(server, marked.db, step), marked.left - 1, marked.ran + [step.id]);
        var after := VerifyStep(step, Lookup(changed.db, step.table));
        if after.Err? then (changed, Some(after.error))
        else if !after.value then (changed, Some(VerificationFailed))
        else Complete1(changed, step)
  }

  function ApplySteps(server: Server, x: Exec, steps: seq<Step>, pending: seq<string>): (Exec, Option<Error>) {
    if steps == [] then (x, None)
    else
      var (before, error) := ApplySteps(server, x, steps[..|steps| - 1], pending);
      if error.Some? || steps[|steps| - 1].id !in pending then (before, error) else ApplyStep(server, before, steps[|steps| - 1])
  }

  function CreateMeta(server: Server, x: Exec, meta: Step): (Exec, Option<Error>) {
    if META in x.db.tables then (x, None)
    else if x.left == 0 then (x, Some(Interrupted))
    else (x.(db := x.db.(tables := x.db.tables[META := server(meta, None)]), left := x.left - 1), None)
  }

  /** ApplyAdditive with a plan just built and reviewed. */
  function Attempt(server: Server, x: Exec, opts: Options): (Exec, Option<Error>) {
    var plan := BuildPlan(x.db, opts);
    if plan.Err? then (x, Some(plan.error))
    else
      var (ready, metaError) := CreateMeta(server, x, opts.meta);
      if metaError.Some? then (ready, metaError)
      else
        var (end, error) := ApplySteps(server, ready, opts.steps, plan.value.pendingMarkers);
        if error.Some? then (end, error)
        else
          var readback := BuildPlan(end.db, opts);
          if readback.Err? then (end, Some(readback.error))
          else if readback.value.pendingSteps != [] || readback.value.pendingMarkers != [] then (end, Some(Unfinished))
          else (end, None)
  }

  // ---------------------------------------------------------------- the invariant

  ghost predicate PlanOk(opts: Options) {
    && (forall i | 0 <= i < |opts.steps| :: WellFormed(opts.steps[i]) && opts.steps[i].table != META)
    && (forall i, j | 0 <= i < j < |opts.steps| :: opts.steps[i].id != opts.steps[j].id)
    && (forall i, j | 0 <= i < |opts.steps| && 0 <= j < |opts.steps| && i != j :: Separate(opts.steps[i], opts.steps[j]))
    && (forall i, j | 0 <= i < |opts.steps| && 0 <= j < |opts.base| :: Compatible(opts.steps[i], opts.base[j]))
    && (forall j | 0 <= j < |opts.base| :: opts.base[j].table != META)
    && opts.meta.create && opts.meta.table == META && WellFormed(opts.meta)
  }

  /** A step may extend a table of the base, and the imported account table only by the avatar column. */
  ghost predicate Compatible(step: Step, base: Step) {
    Separate(step, base) || AddsAvatar(step, base)
  }

  ghost predicate Whole(db: Db, step: Step) {
    Complete(step, Lookup(db, step.table)) || Absent(step, Lookup(db, step.table))
  }

  ghost predicate MarkerOk(db: Db, step: Step) {
    step.id in db.markers ==>
      && META in db.tables && db.markers[step.id].checksum == step.checksum && !db.markers[step.id].phase.Unknown?
      && (db.markers[step.id].phase == Completed ==> Complete(step, Lookup(db, step.table)))
  }

  ghost predicate Inv(db: Db, opts: Options) {
    && (forall i | 0 <= i < |opts.steps| :: Whole(db, opts.steps[i]) && MarkerOk(db, opts.steps[i]))
    && (forall i | 0 <= i < |opts.base| :: Complete(opts.base[i], Lookup(db, opts.base[i].table)))
    && (META in db.tables ==> Complete(opts.meta, Lookup(db, META)))
  }

  lemma {:induction false} FirstNone(pass: Pass, db: Db, steps: seq<Step>)
    ensures First(pass, db, steps).None? <==> forall i | 0 <= i < |steps| :: ErrorOf(pass, db, steps[i]).None?
  {
    if steps != [] {
      var front := steps[..|steps| - 1];
      FirstNone(pass, db, front);
      hide ErrorOf;
      forall i | 0 <= i < |front| ensures front[i] == steps[i] { }
    }
  }

  /** The planner rejects no database that satisfies the invariant. */
  lemma PlannerAccepts(db: Db, opts: Options)
    requires PlanOk(opts) && Inv(db, opts)
    ensures PlanError(db, opts).None?
  {
    forall i | 0 <= i < |opts.steps| ensures StepError(db, opts.steps[i]).None? && MarkerError(db, opts.steps[i]).None? {
      assert Whole(db, opts.steps[i]) && MarkerOk(db, opts.steps[i]);
      if Absent(opts.steps[i], Lookup(db, opts.steps[i].table)) { AbsentIsPending(opts.steps[i], Lookup(db, opts.steps[i].table)); }
    }
    forall i | 0 <= i < |opts.base| ensures BaseError(db, opts.base[i]).None? {
      assert Complete(opts.base[i], Lookup(db, opts.base[i].table));
    }
    FirstNone(StepPass, db, opts.steps);
    FirstNone(MarkerPass, db, opts.steps);
    FirstNone(BasePass, db, opts.base);
  }

  /** The step's table is InnoDB and has the step's whole structure, attribute by attribute. */
  ghost predicate Built(db: Db, step: Step) {
    step.table in db.tables && EqualFold(db.tables[step.table].engine, "InnoDB") && HasStructure(step, db.tables[step.table])
  }

  lemma BuiltIsComplete(db: Db, step: Step)
    ensures Built(db, step) <==> Complete(step, Lookup(db, step.table))
  {
    VerdictIsExact(step, Lookup(db, step.table));
    hide VerifyStep, HasStructure, NoClash;
  }

  lemma MarkedIsBuilt(db: Db, opts: Options)
    requires Inv(db, opts)
    ensures forall i | 0 <= i < |opts.steps| && IsMarked(db, opts.steps[i]) :: Built(db, opts.steps[i])
  {
    hide Built, Complete, Absent;
    forall i | 0 <= i < |opts.steps| && IsMarked(db, opts.steps[i]) ensures Built(db, opts.steps[i]) {
      assert MarkerOk(db, opts.steps[i]);
      BuiltIsComplete(db, opts.steps[i]);
    }
  }

  /** Nothing of the step clashes with what its table holds: it is not there yet, or entirely, or partly. */
  ghost predicate Possible(db: Db, step: Step) {
    Built(db, step) ||
      if step.create then step.table !in db.tables
      else step.table in db.tables && EqualFold(db.tables[step.table].engine, "InnoDB") && NoClash(step, db.tables[step.table])
  }

  /** A marker is believed only with the step's checksum and a known phase, and "completed" only with the structure. */
  ghost predicate Believed(db: Db, step: Step) {
    step.id in db.markers ==>
      && db.markers[step.id].checksum == step.checksum && Possible(db, step)
      && (db.markers[step.id].phase == Started || (db.markers[step.id].phase == Completed && Built(db, step)))
  }

  lemma StepVerdict(db: Db, step: Step)
    ensures StepError(db, step).None? <==> Possible(db, step)
    ensures BaseError(db, step).None? <==> Built(db, step)
    ensures MarkerError(db, step).None? <==> Believed(db, step)
  {
    var verdict := VerifyStep(step, Lookup(db, step.table));
    VerdictIsExact(step, Lookup(db, step.table));
    assert verdict.Ok? ==> verdict == Ok(true) || verdict == Ok(false);
    hide VerifyStep, HasStructure, NoClash;
  }

  /** The planner refuses a database exactly when some structure or some marker contradicts the steps. */
  lemma PlannerDecides(db: Db, opts: Options)
    ensures PlanError(db, opts).None? <==>
      && (forall i | 0 <= i < |opts.base| :: Built(db, opts.base[i]))
      && (forall i | 0 <= i < |opts.steps| :: Possible(db, opts.steps[i]))
      && (META in db.tables ==> Possible(db, opts.meta) && forall i | 0 <= i < |opts.steps| :: Believed(db, opts.steps[i]))
  {
    FirstNone(BasePass, db, opts.base);
    FirstNone(StepPass, db, opts.steps);
    FirstNone(MarkerPass, db, opts.steps);
    forall step: Step ensures ErrorOf(StepPass, db, step).None? <==> Possible(db, step) { StepVerdict(db, step); }
    forall step: Step ensures ErrorOf(BasePass, db, step).None? <==> Built(db, step) { StepVerdict(db, step); }
    forall step: Step ensures ErrorOf(MarkerPass, db, step).None? <==> Believed(db, step) { StepVerdict(db, step); }
    StepVerdict(db, opts.meta);
    hide Possible, Built, Believed, ErrorOf, StepError, First;
  }

  // ---------------------------------------------------------------- statements keep the invariant

  lemma MetaKeepsInv(server: Server, x: Exec, opts: Options)
    requires HonestServer(server) && PlanOk(opts) && Inv(x.db, opts)
    ensures var (y, error) := CreateMeta(server, x, opts.meta);
      Inv(y.db, opts) && y.ran == x.ran && (error.None? ==> META in y.db.tables) && (error.Some? ==> error.value == Interrupted)
  {
    var y := CreateMeta(server, x, opts.meta).0;
    if y != x { CreateCompletes(opts.meta, server(opts.meta, None)); }
    forall i | 0 <= i < |opts.steps| ensures Whole(y.db, opts.steps[i]) && MarkerOk(y.db, opts.steps[i]) {
      assert Whole(x.db, opts.steps[i]) && MarkerOk(x.db, opts.steps[i]);
    }
  }

  /** The statement of an absent step completes it and disturbs no other step of the plan or of the base. */
  lemma DdlKeepsOther(server: Server, db: Db, step: Step, other: Step)
    requires HonestServer(server) && Absent(step, Lookup(db, step.table)) && (Separate(step, other) || AddsAvatar(step, other))
    ensures var after := RunDdl(server, db, step);
      Complete(other, Lookup(db, other.table)) ==> Complete(other, Lookup(after, other.table))
    ensures var after := RunDdl(server, db, step);
      Separate(step, other) && Absent(other, Lookup(db, other.table)) ==> Absent(other, Lookup(after, other.table))
  {
    if step.table == other.table {
      var before := db.tables[step.table];
      assert Alters(step, before, server(step, Some(before)));
      if Separate(step, other) {
        AlterKeepsOthers(step, other, before, server(step, Some(before)));
      } else if Complete(other, Some(before)) {
        AvatarKeepsBase(step, other, before, server(step, Some(before)));
      }
    }
  }

  lemma DdlCompletes(server: Server, db: Db, step: Step)
    requires HonestServer(server) && WellFormed(step) && Absent(step, Lookup(db, step.table))
    ensures Complete(step, Lookup(RunDdl(server, db, step), step.table))
  {
    var before := Lookup(db, step.table);
    if step.create {
      CreateCompletes(step, server(step, None));
    } else {
      AlterCompletes(step, before.value, server(step, before));
    }
  }

  lemma DdlKeepsInv(server: Server, db: Db, opts: Options, k: nat)
    requires HonestServer(server) && PlanOk(opts) && Inv(db, opts) && k < |opts.steps|
    requires Absent(opts.steps[k], Lookup(db, opts.steps[k].table))
    ensures Inv(RunDdl(server, db, opts.steps[k]), opts)
    ensures Complete(opts.steps[k], Lookup(RunDdl(server, db, opts.steps[k]), opts.steps[k].table))
  {
    var step, after := opts.steps[k], RunDdl(server, db, opts.steps[k]);
    DdlCompletes(server, db, step);
    hide Complete, Absent, Separate, WellFormed;
    forall i | 0 <= i < |opts.steps| ensures Whole(after, opts.steps[i]) && MarkerOk(after, opts.steps[i]) {
      assert Whole(db, opts.steps[i]) && MarkerOk(db, opts.steps[i]);
      if i != k { DdlKeepsOther(server, db, step, opts.steps[i]); }
    }
    forall i | 0 <= i < |opts.base| ensures Complete(opts.base[i], Lookup(after, opts.base[i].table)) {
      assert Compatible(step, opts.base[i]);
      DdlKeepsOther(server, db, step, opts.base[i]);
    }
  }

  // ---------------------------------------------------------------- one step

  ghost predicate Kept(before: Db, after: Db, step: Step) {
    && (Complete(step, Lookup(before, step.table)) ==> Complete(step, Lookup(after, step.table)))
    && (IsMarked(before, step) ==> IsMarked(after, step))
  }

  /** Nothing done is undone. */
  ghost predicate Progress(x: Exec, y: Exec, opts: Options) {
    && y.left <= x.left && x.ran <= y.ran && (META in x.db.tables ==> META in y.db.tables)
    && forall i | 0 <= i < |opts.steps| :: Kept(x.db, y.db, opts.steps[i])
  }

  /** No DDL ran twice, and whatever ran is complete. */
  ghost predicate RanOnce(x: Exec, opts: Options) {
    && Distinct(x.ran)
    && forall i | 0 <= i < |opts.steps| && opts.steps[i].id in x.ran :: Complete(opts.steps[i], Lookup(x.db, opts.steps[i].table))
  }

  ghost predicate Good(x: Exec, opts: Options) {
    Inv(x.db, opts) && RanOnce(x, opts)
  }

  lemma SameTables(x: Exec, y: Exec, opts: Options)
    requires RanOnce(x, opts) && y.db.tables == x.db.tables && y.ran == x.ran
    ensures RanOnce(y, opts)
  {
    forall i | 0 <= i < |opts.steps| && opts.steps[i].id in y.ran ensures Complete(opts.steps[i], Lookup(y.db, opts.steps[i].table)) {
      assert Complete(opts.steps[i], Lookup(x.db, opts.steps[i].table));
    }
  }

  lemma DdlRunsOnce(server: Server, x: Exec, opts: Options, k: nat)
    requires HonestServer(server) && PlanOk(opts) && Good(x, opts) && k < |opts.steps|
    requires Absent(opts.steps[k], Lookup(x.db, opts.steps[k].table))
    ensures var step := opts.steps[k];
      opts.steps[k].id !in x.ran && RanOnce(Exec(RunDdl(server, x.db, step), 0, x.ran + [step.id]), opts)
  {
    var step, after := opts.steps[k], RunDdl(server, x.db, opts.steps[k]);
    AbsentIsPending(step, Lookup(x.db, step.table));
    assert step.id !in x.ran;
    DdlCompletes(server, x.db, step);
    hide Absent, VerifyStep, WellFormed;
    forall i | 0 <= i < |opts.steps| && opts.steps[i].id in x.ran + [step.id] ensures Complete(opts.steps[i], Lookup(after, opts.steps[i].table)) {
      if i != k {
        assert opts.steps[i].id != step.id && opts.steps[i].id in x.ran;
        assert Separate(step, opts.steps[i]);
        DdlKeepsOther(server, x.db, step, opts.steps[i]);
      }
    }
  }

  lemma DdlIsProgress(server: Server, db: Db, opts: Options, k: nat)
    requires HonestServer(server) && PlanOk(opts) && Inv(db, opts) && k < |opts.steps|
    requires Absent(opts.steps[k], Lookup(db, opts.steps[k].table))
    ensures forall i | 0 <= i < |opts.steps| :: Kept(db, RunDdl(server, db, opts.steps[k]), opts.steps[i])
  {
    var step, after := opts.steps[k], RunDdl(server, db, opts.steps[k]);
    DdlCompletes(server, db, step);
    hide Absent, Complete, WellFormed, Inv;
    forall i | 0 <= i < |opts.steps| ensures Kept(db, after, opts.steps[i]) {
      if i != k {
        assert Separate(step, opts.steps[i]);
        DdlKeepsOther(server, db, step, opts.steps[i]);
      }
    }
  }

  lemma ProgressChains(x: Exec, y: Exec, z: Exec, opts: Options)
    requires Progress(x, y, opts) && Progress(y, z, opts)
    ensures Progress(x, z, opts)
  {
    forall i | 0 <= i < |opts.steps| ensures Kept(x.db, z.db, opts.steps[i]) {
      assert Kept(x.db, y.db, opts.steps[i]) && Kept(y.db, z.db, opts.steps[i]);
    }
  }

  function Marking(x: Exec, step: Step): Exec
    requires x.left > 0
  {
    x.(db := MarkStarted(x.db, step.id, step.checksum), left := x.left - 1)
  }

  function Changing(server: Server, x: Exec, step: Step): Exec
    requires x.left > 0
  {
    Exec(RunDdl(server, x.db, step), x.left - 1, x.ran + [step.id])
  }

  lemma StartStatement(x: Exec, opts: Options, k: nat)
    requires PlanOk(opts) && Good(x, opts) && k < |opts.steps| && META in x.db.tables && x.left > 0
    ensures var y := Marking(x, opts.steps[k]);
      Good(y, opts) && Progress(x, y, opts) && opts.steps[k].id in y.db.markers && y.db.markers[opts.steps[k].id].checksum == opts.steps[k].checksum
  {
    assert MarkerOk(x.db, opts.steps[k]);
    SameTables(x, Marking(x, opts.steps[k]), opts);
    hide Complete, Inv, WellFormed, PlanOk, RanOnce;
  }

  lemma FinishStatement(x: Exec, opts: Options, k: nat)
    requires PlanOk(opts) && Good(x, opts) && k < |opts.steps| && META in x.db.tables
    requires Complete(opts.steps[k], Lookup(x.db, opts.steps[k].table))
    requires opts.steps[k].id in x.db.markers && x.db.markers[opts.steps[k].id].checksum == opts.steps[k].checksum
    ensures var (y, error) := Complete1(x, opts.steps[k]);
      && Good(y, opts) && Progress(x, y, opts) && y.left + 1 >= x.left && y.ran == x.ran && y.db.tables == x.db.tables
      && (if error.Some? then error.value == Interrupted && x.left == 0 else IsMarked(y.db, opts.steps[k]))
  {
    SameTables(x, Complete1(x, opts.steps[k]).0, opts);
    hide Complete, Inv, WellFormed, PlanOk, RanOnce;
  }

  lemma DdlStatement(server: Server, x: Exec, opts: Options, k: nat)
    requires HonestServer(server) && PlanOk(opts) && Good(x, opts) && k < |opts.steps| && x.left > 0 && META in x.db.tables
    requires Absent(opts.steps[k], Lookup(x.db, opts.steps[k].table))
    ensures var y := Changing(server, x, opts.steps[k]);
      Good(y, opts) && Progress(x, y, opts) && Complete(opts.steps[k], Lookup(y.db, opts.steps[k].table)) && y.db.markers == x.db.markers
  {
    DdlKeepsInv(server, x.db, opts, k);
    DdlRunsOnce(server, x, opts, k);
    DdlIsProgress(server, x.db, opts, k);
    var y := Changing(server, x, opts.steps[k]);
    SameTables(Exec(y.db, 0, y.ran), y, opts);
    hide Complete, Inv, WellFormed, PlanOk, RanOnce, Absent;
  }

  /** The marker, the statement when its structure is absent, and the marker again: at most three statements. */
  lemma StepKeepsGood(server: Server, x: Exec, opts: Options, k: nat)
    requires HonestServer(server) && PlanOk(opts) && Good(x, opts) && k < |opts.steps| && META in x.db.tables
    ensures var (y, error) := ApplyStep(server, x, opts.steps[k]);
      && Good(y, opts) && Progress(x, y, opts) && y.left + 3 >= x.left
      && (error.Some? ==> error.value == Interrupted && x.left < 3)
      && (error.None? ==> Complete(opts.steps[k], Lookup(y.db, opts.steps[k].table)) && IsMarked(y.db, opts.steps[k]))
    ensures ApplyStep(server, x, opts.steps[k]).0.ran != x.ran ==> Absent(opts.steps[k], Lookup(x.db, opts.steps[k].table))
  {
    var step := opts.steps[k];
    assert Whole(x.db, step) && WellFormed(step);
    if Absent(step, Lookup(x.db, step.table)) { AbsentIsPending(step, Lookup(x.db, step.table)); }
    hide Inv, WellFormed, PlanOk, RanOnce, Absent, RunDdl, Good, Kept, VerifyStep, HonestServer, MarkCompleted;
    if x.left > 0 {
      var marked := Marking(x, step);
      StartStatement(x, opts, k);
      if Complete(step, Lookup(x.db, step.table)) {
        FinishStatement(marked, opts, k);
        ProgressChains(x, marked, Complete1(marked, step).0, opts);
      } else if marked.left > 0 {
        var changed := Changing(server, marked, step);
        DdlStatement(server, marked, opts, k);
        FinishStatement(changed, opts, k);
        ProgressChains(x, marked, changed, opts);
        ProgressChains(x, changed, Complete1(changed, step).0, opts);
      }
    }
  }

  // ---------------------------------------------------------------- a whole attempt

  ghost predicate Settled(db: Db, step: Step) {
    Complete(step, Lookup(db, step.table)) && IsMarked(db, step)
  }

  lemma StaysSettled(x: Exec, y: Exec, opts: Options, i: nat)
    requires Progress(x, y, opts) && i < |opts.steps| && Settled(x.db, opts.steps[i])
    ensures Settled(y.db, opts.steps[i])
  {
    assert Kept(x.db, y.db, opts.steps[i]);
  }

  lemma {:induction false} StepsKeepGood(server: Server, x: Exec, opts: Options, n: nat, pending: seq<string>)
    requires HonestServer(server) && PlanOk(opts) && Good(x, opts) && n <= |opts.steps| && META in x.db.tables
    requires forall i | 0 <= i < |opts.steps| && opts.steps[i].id !in pending :: Settled(x.db, opts.steps[i])
    ensures var (y, error) := ApplySteps(server, x, opts.steps[..n], pending);
      && Good(y, opts) && Progress(x, y, opts) && y.left + 3 * n >= x.left
      && (error.Some? ==> error.value == Interrupted && x.left < 3 * n)
      && (error.None? ==> forall i | 0 <= i < n :: Settled(y.db, opts.steps[i]))
  {
    hide Inv, PlanOk, Good, Kept, Complete, HonestServer, ApplyStep, IsMarked;
    if n == 0 {
      ProgressStarts(x, opts);
    } else {
      StepsKeepGood(server, x, opts, n - 1, pending);
      var (y, error) := ApplySteps(server, x, opts.steps[..n - 1], pending);
      assert opts.steps[..n][..n - 1] == opts.steps[..n - 1];
      if error.None? {
        if opts.steps[n - 1].id in pending {
          StepKeepsGood(server, y, opts, n - 1);
          var z := ApplyStep(server, y, opts.steps[n - 1]).0;
          ProgressChains(x, y, z, opts);
          forall i | 0 <= i < n - 1 ensures Settled(z.db, opts.steps[i]) { StaysSettled(y, z, opts, i); }
        } else {
          StaysSettled(x, y, opts, n - 1);
        }
      }
    }
  }

  lemma ProgressStarts(x: Exec, opts: Options)
    ensures Progress(x, x, opts)
  {
  }

  lemma {:induction false} PendingIds(db: Db, steps: seq<Step>)
    ensures forall i | 0 <= i < |steps| && !IsMarked(db, steps[i]) :: steps[i].id in PendingMarkers(db, steps)
    ensures (forall i | 0 <= i < |steps| :: IsMarked(db, steps[i])) ==> PendingMarkers(db, steps) == []
  {
    hide IsMarked;
    if steps != [] {
      var front := steps[..|steps| - 1];
      PendingIds(db, front);
      assert forall i | 0 <= i < |front| :: front[i] == steps[i];
    }
  }

  lemma {:induction false} NoPendingSteps(db: Db, steps: seq<Step>)
    ensures PendingSteps(db, steps) == [] <==> forall i | 0 <= i < |steps| :: Complete(steps[i], Lookup(db, steps[i].table))
  {
    hide VerifyStep;
    if steps != [] {
      var front := steps[..|steps| - 1];
      assert forall i | 0 <= i < |front| :: front[i] == steps[i];
      NoPendingSteps(db, front);
      assert Complete(steps[|front|], Lookup(db, steps[|front|].table)) <==> VerifyStep(steps[|front|], Lookup(db, steps[|front|].table)) == Ok(true);
    }
  }

  lemma MetaIsProgress(server: Server, x: Exec, opts: Options)
    requires HonestServer(server) && PlanOk(opts) && Good(x, opts)
    ensures var (y, error) := CreateMeta(server, x, opts.meta);
      && Good(y, opts) && Progress(x, y, opts) && y.left + 1 >= x.left && y.db.markers == x.db.markers
      && (error.None? ==> META in y.db.tables) && (error.Some? ==> error.value == Interrupted && x.left == 0)
  {
    MetaKeepsInv(server, x, opts);
    var y := CreateMeta(server, x, opts.meta).0;
    forall i | 0 <= i < |opts.steps| ensures Lookup(y.db, opts.steps[i].table) == Lookup(x.db, opts.steps[i].table) {
      assert opts.steps[i].table != META;
    }
    hide Complete, Inv, WellFormed;
  }

  /** From every state the invariant allows, an attempt ends only by being cut off or by finishing every step,
      and it finishes when it may execute three statements a step and one more. */
  lemma AttemptKeepsGood(server: Server, x: Exec, opts: Options)
    requires HonestServer(server) && PlanOk(opts) && Good(x, opts)
    ensures var (y, error) := Attempt(server, x, opts);
      && Good(y, opts) && Progress(x, y, opts)
      && (error.Some? ==> error.value == Interrupted && x.left < 3 * |opts.steps| + 1)
      && (error.None? ==> forall i | 0 <= i < |opts.steps| :: Settled(y.db, opts.steps[i]))
  {
    PlannerAccepts(x.db, opts);
    PendingIds(x.db, opts.steps);
    MetaIsProgress(server, x, opts);
    var pending := PendingMarkers(x.db, opts.steps);
    var (ready, metaError) := CreateMeta(server, x, opts.meta);
    ProgressStarts(x, opts);
    hide Inv, PlanOk, Kept, Complete, HonestServer, CreateMeta, RanOnce, PlanError, ApplySteps, PendingMarkers, PendingSteps, IsMarked;
    if metaError.None? {
      forall i | 0 <= i < |opts.steps| && opts.steps[i].id !in pending ensures Settled(ready.db, opts.steps[i]) {
        StaysSettled(x, ready, opts, i);
      }
      StepsKeepGood(server, ready, opts, |opts.steps|, pending);
      assert opts.steps[..|opts.steps|] == opts.steps;
      var (end, error) := ApplySteps(server, ready, opts.steps, pending);
      ProgressChains(x, ready, end, opts);
      PlannerAccepts(end.db, opts);
      if error.None? { NothingPending(end.db, opts); }
    }
  }

  lemma NothingPending(db: Db, opts: Options)
    requires forall i | 0 <= i < |opts.steps| :: Settled(db, opts.steps[i])
    ensures PendingSteps(db, opts.steps) == [] && PendingMarkers(db, opts.steps) == []
  {
    PendingIds(db, opts.steps);
    NoPendingSteps(db, opts.steps);
  }

  // ---------------------------------------------------------------- any number of attempts

  /** Each attempt is cut off after its own number of statements. */
  function Attempts(server: Server, opts: Options, db: Db, budgets: seq<nat>): Exec {
    if budgets == [] then Exec(db, 0, [])
    else
      var before := Attempts(server, opts, db, budgets[..|budgets| - 1]);
      Attempt(server, before.(left := budgets[|budgets| - 1]), opts).0
  }

  /** Over every sequence of interrupted attempts from a valid start: completed markers have their structure, no DDL
      statement runs twice, and the planner never rejects where an attempt stopped. */
  lemma {:induction false} AttemptsKeepGood(server: Server, opts: Options, db: Db, budgets: seq<nat>)
    requires HonestServer(server) && PlanOk(opts) && Inv(db, opts)
    ensures Good(Attempts(server, opts, db, budgets), opts)
    ensures BuildPlan(Attempts(server, opts, db, budgets).db, opts).Ok?
    ensures forall i | 0 <= i < |opts.steps| && IsMarked(Attempts(server, opts, db, budgets).db, opts.steps[i]) ::
      Built(Attempts(server, opts, db, budgets).db, opts.steps[i])
  {
    if budgets != [] {
      AttemptsKeepGood(server, opts, db, budgets[..|budgets| - 1]);
      var before := Attempts(server, opts, db, budgets[..|budgets| - 1]);
      AttemptKeepsGood(server, before.(left := budgets[|budgets| - 1]), opts);
    }
    PlannerAccepts(Attempts(server, opts, db, budgets).db, opts);
    MarkedIsBuilt(Attempts(server, opts, db, budgets).db, opts);
  }

  /** An attempt that is not cut off succeeds, whatever happened before, and leaves nothing pending. */
  lemma UninterruptedAttemptFinishes(server: Server, opts: Options, db: Db, budgets: seq<nat>, enough: nat)
    requires HonestServer(server) && PlanOk(opts) && Inv(db, opts) && enough >= 3 * |opts.steps| + 1
    ensures var (y, error) := Attempt(server, Attempts(server, opts, db, budgets).(left := enough), opts);
      && error.None? && BuildPlan(y.db, opts) == Ok(Plan([], []))
      && forall i | 0 <= i < |opts.steps| :: Settled(y.db, opts.steps[i]) && Built(y.db, opts.steps[i])
  {
    AttemptsKeepGood(server, opts, db, budgets);
    var x := Attempts(server, opts, db, budgets).(left := enough);
    AttemptKeepsGood(server, x, opts);
    var y := Attempt(server, x, opts).0;
    PlannerAccepts(y.db, opts);
    NothingPending(y.db, opts);
    MarkedIsBuilt(y.db, opts);
  }

  // ---------------------------------------------------------------- servers that do not do what they are told

  /** Whatever the server makes of the statement, a step that reports success has its structure, and a marker it completes
      has the step's checksum and was completed with that structure in place. */
  lemma StepIsReadBack(server: Server, x: Exec, step: Step)
    ensures var (y, error) := ApplyStep(server, x, step);
      && (error.None? ==> Built(y.db, step))
      && forall id | id in y.db.markers && y.db.markers[id].phase == Completed && (id in x.db.markers ==> x.db.markers[id] != y.db.markers[id]) ::
           id == step.id && y.db.markers[id].checksum == step.checksum && Built(y.db, step)
  {
    BuiltIsComplete(ApplyStep(server, x, step).0.db, step);
    hide VerifyStep, Built;
  }

  lemma {:induction false} NothingLeft(db: Db, steps: seq<Step>, i: nat)
    requires i < |steps|
    ensures PendingSteps(db, steps) == [] ==> Complete(steps[i], Lookup(db, steps[i].table))
    ensures PendingMarkers(db, steps) == [] ==> IsMarked(db, steps[i])
  {
    hide VerifyStep;
    if i < |steps| - 1 { NothingLeft(db, steps[..|steps| - 1], i); }
  }

  /** Whatever the server does, an attempt that reports success leaves every step built and marked completed. */
  lemma SuccessIsReadBack(server: Server, x: Exec, opts: Options)
    requires Attempt(server, x, opts).1.None?
    ensures var db := Attempt(server, x, opts).0.db; forall i | 0 <= i < |opts.steps| :: Built(db, opts.steps[i]) && IsMarked(db, opts.steps[i])
  {
    var db := Attempt(server, x, opts).0.db;
    hide VerifyStep, ApplySteps, PlanError, Built, Complete, IsMarked, PendingSteps, PendingMarkers;
    forall i | 0 <= i < |opts.steps| ensures Built(db, opts.steps[i]) && IsMarked(db, opts.steps[i]) {
      NothingLeft(db, opts.steps, i);
      BuiltIsComplete(db, opts.steps[i]);
    }
  }

  /** A server that stores exactly what it is told is honest, so the theorems speak of something. */
  lemma SomeServerIsHonest()
    ensures HonestServer(PlainServer)
  {
    forall step: Step | step.create ensures Creates(step, PlainServer(step, None)) {
    }
    forall step: Step, before | !step.create && Missing(step, before) ensures Alters(step, before, PlainServer(step, Some(before))) {
      var after := PlainServer(step, Some(before));
      forall x | x in after.checks ensures x in before.checks || exists c :: c in step.checks && SameCheck(c, x) {
        if x !in before.checks { assert x in step.checks && SameCheck(x, x); }
      }
      forall i | 0 <= i < |step.checks| ensures HasCheck(step.checks[i], after.checks) {
        assert SameCheck(step.checks[i], after.checks[|before.checks| + i]);
      }
    }
  }

  function PlainServer(step: Step, before: Option<Table>): Table {
    if before.None? then Table("InnoDB", step.columns, step.indexes, step.checks)
    else
      var t := before.value;
      Table(t.engine, t.columns + step.columns, t.indexes + step.indexes, t.checks + step.checks)
  }
}
