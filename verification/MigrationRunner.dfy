/** The attempt of MigrationRuns as the code runs it: statement by statement, in loops over the steps. */
module MigrationRunner {
  import opened Common
  import opened MigrationSchema
  import opened MigrationRuns

  class Migrator {
    var db: Db
    /** Statements left before this attempt is cut off. */
    var left: nat
    /** Ids of the DDL steps executed, over all attempts. */
    var ran: seq<string>

    ghost function Contents(): Exec
      reads this
    {
      Exec(db, left, ran)
    }

    method VerifyAll(steps: seq<Step>) returns (error: Option<Error>)
      ensures error == First(StepPass, db, steps)
    {
      hide VerifyStep;
      for i := 0 to |steps|
        invariant First(StepPass, db, steps[..i]).None?
      {
        var step := steps[i];
        var state := VerifyTable(step, Lookup(db, step.table));
        FirstAt(StepPass, db, steps, i);
        if state.Err? { return Some(state.error); }
      }
      assert steps[..|steps|] == steps;
      return None;
    }

    method VerifyBase(steps: seq<Step>) returns (error: Option<Error>)
      ensures error == First(BasePass, db, steps)
    {
      hide VerifyStep;
      for i := 0 to |steps|
        invariant First(BasePass, db, steps[..i]).None?
      {
        var step := steps[i];
        var state := VerifyTable(step, Lookup(db, step.table));
        FirstAt(BasePass, db, steps, i);
        if state.Err? { return Some(state.error); }
        if !state.value { return Some(BaseIncomplete); }
      }
      assert steps[..|steps|] == steps;
      return None;
    }

    method VerifyMarkers(steps: seq<Step>) returns (error: Option<Error>)
      ensures error == First(MarkerPass, db, steps)
    {
      hide VerifyStep;
      for i := 0 to |steps|
        invariant First(MarkerPass, db, steps[..i]).None?
      {
        var step := steps[i];
        FirstAt(MarkerPass, db, steps, i);
        if step.id in db.markers {
          var marker := db.markers[step.id];
          if marker.checksum != step.checksum { return Some(ChecksumConflict); }
          var complete := VerifyTable(step, Lookup(db, step.table));
          if complete.Err? { return Some(complete.error); }
          if marker.phase == Completed && !complete.value { return Some(MissingStructure); }
          if marker.phase != Started && marker.phase != Completed { return Some(UnknownPhase); }
        }
      }
      assert steps[..|steps|] == steps;
      return None;
    }

    method BuildAdditivePlan(opts: Options) returns (plan: Result<Plan, Error>)
      ensures plan == BuildPlan(db, opts)
    {
      hide VerifyStep, First, IsMarked;
      var error := VerifyBase(opts.base);
      if error.Some? { return Err(error.value); }
      error := VerifyAll(opts.steps);
      if error.Some? { return Err(error.value); }
      if META in db.tables {
        var meta := VerifyTable(opts.meta, Lookup(db, opts.meta.table));
        if meta.Err? { return Err(meta.error); }
        error := VerifyMarkers(opts.steps);
        if error.Some? { return Err(error.value); }
      }
      var pendingSteps, pendingMarkers := [], [];
      for i := 0 to |opts.steps|
        invariant pendingSteps == PendingSteps(db, opts.steps[..i])
        invariant pendingMarkers == PendingMarkers(db, opts.steps[..i])
      {
        var step := opts.steps[i];
        ghost var upto := opts.steps[..i + 1];
        assert upto[..|upto| - 1] == opts.steps[..i] && upto[|upto| - 1] == step;
        var complete := VerifyTable(step, Lookup(db, step.table));
        if complete != Ok(true) { pendingSteps := pendingSteps + [step.id]; }
        if !IsMarked(db, step) { pendingMarkers := pendingMarkers + [step.id]; }
      }
      assert opts.steps[..|opts.steps|] == opts.steps;
      return Ok(Plan(pendingSteps, pendingMarkers));
    }

    method RunStep(server: Server, step: Step) returns (error: Option<Error>)
      modifies this
      ensures (Contents(), error) == ApplyStep(server, old(Contents()), step)
    {
      hide VerifyStep;
      var complete := VerifyTable(step, Lookup(db, step.table));
      if complete.Err? { return Some(complete.error); }
      if left == 0 { return Some(Interrupted); }
      if step.id !in db.markers { db := db.(markers := db.markers[step.id := Marker(step.checksum, Started)]); }
      left := left - 1;
      if !complete.value {
        if left == 0 { return Some(Interrupted); }
        db := db.(tables := db.tables[step.table := server(step, Lookup(db, step.table))]);
        left, ran := left - 1, ran + [step.id];
        complete := VerifyTable(step, Lookup(db, step.table));
        if complete.Err? { return Some(complete.error); }
        if !complete.value { return Some(VerificationFailed); }
      }
      if left == 0 { return Some(Interrupted); }
      if step.id in db.markers && db.markers[step.id].checksum == step.checksum {
        db := db.(markers := db.markers[step.id := Marker(step.checksum, Completed)]);
      }
      left := left - 1;
      return None;
    }

    method EnsureMeta(server: Server, meta: Step) returns (error: Option<Error>)
      modifies this
      ensures (Contents(), error) == CreateMeta(server, old(Contents()), meta)
    {
      if META !in db.tables {
        if left == 0 { return Some(Interrupted); }
        db := db.(tables := db.tables[META := server(meta, None)]);
        left := left - 1;
      }
      return None;
    }

    method ApplyAdditive(server: Server, opts: Options) returns (error: Option<Error>)
      modifies this
      ensures (Contents(), error) == Attempt(server, old(Contents()), opts)
    {
      hide ApplyStep, VerifyStep, PlanError, PendingSteps, PendingMarkers, CreateMeta;
      var plan := BuildAdditivePlan(opts);
      if plan.Err? { return Some(plan.error); }
      error := EnsureMeta(server, opts.meta);
      if error.Some? { return error; }
      ghost var ready := Contents();
      for i := 0 to |opts.steps|
        invariant (Contents(), None) == ApplySteps(server, ready, opts.steps[..i], plan.value.pendingMarkers)
      {
        ghost var upto := opts.steps[..i + 1];
        assert upto[..|upto| - 1] == opts.steps[..i] && upto[|upto| - 1] == opts.steps[i];
        if opts.steps[i].id in plan.value.pendingMarkers {
          error := RunStep(server, opts.steps[i]);
          if error.Some? {
            StepsStop(server, ready, opts.steps, i + 1, plan.value.pendingMarkers);
            return error;
          }
        }
      }
      assert opts.steps[..|opts.steps|] == opts.steps;
      var readback := BuildAdditivePlan(opts);
      if readback.Err? { return Some(readback.error); }
      if readback.value.pendingSteps != [] || readback.value.pendingMarkers != [] { return Some(Unfinished); }
      return None;
    }
  }

  lemma FirstAt(pass: Pass, db: Db, steps: seq<Step>, i: nat)
    requires i < |steps| && First(pass, db, steps[..i]).None?
    ensures First(pass, db, steps[..i + 1]) == ErrorOf(pass, db, steps[i])
    ensures ErrorOf(pass, db, steps[i]).Some? ==> First(pass, db, steps) == ErrorOf(pass, db, steps[i])
  {
    hide ErrorOf;
    assert steps[..i + 1][..i] == steps[..i];
    if ErrorOf(pass, db, steps[i]).Some? { FirstStays(pass, db, steps, i + 1); }
  }

  lemma {:induction false} FirstStays(pass: Pass, db: Db, steps: seq<Step>, n: nat)
    requires n <= |steps| && First(pass, db, steps[..n]).Some?
    ensures First(pass, db, steps) == First(pass, db, steps[..n])
    decreases |steps|
  {
    hide ErrorOf;
    if n == |steps| {
      assert steps[..n] == steps;
    } else {
      assert steps[..|steps| - 1][..n] == steps[..n];
      FirstStays(pass, db, steps[..|steps| - 1], n);
    }
  }

  /** The first step that fails ends the attempt. */
  lemma {:induction false} StepsStop(server: Server, x: Exec, steps: seq<Step>, n: nat, pending: seq<string>)
    requires n <= |steps| && ApplySteps(server, x, steps[..n], pending).1.Some?
    ensures ApplySteps(server, x, steps, pending) == ApplySteps(server, x, steps[..n], pending)
    decreases |steps|
  {
    if n == |steps| {
      assert steps[..n] == steps;
    } else {
      assert steps[..|steps| - 1][..n] == steps[..n];
      StepsStop(server, x, steps[..|steps| - 1], n, pending);
    }
  }
}
