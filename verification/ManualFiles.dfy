/**
 Uploading a file to a manual: bytes are stored first, then the row is appended, and when the result of the
 transaction is unknown a follow-up read decides whether the bytes stay (app/manuals/files.go).

 Uploads interleave with each other and with every other transaction on manuals. A lost acknowledgement and a
 failed transaction look the same to the upload; its transaction is settled before the follow-up read.
 */
module ManualFiles {
  import opened Common
  import opened Manuals
  import opened ManualSteps

  datatype FileReply = Accepted(item: int, revision: int) | Failed(error: Error)

  /** What the upload does with its bytes and what it answers. */
  datatype Verdict = Verdict(remove: bool, reply: FileReply)

  datatype Read = ReadFailed | NoRow | Row(id: int, deleted: bool, hash: string)

  // ---------------------------------------------------------------- decisions

  /** No verdict means the outcome is unknown. */
  function AfterAppend(req: Request, r: Outcome): Option<Verdict>
    requires r.Ok? ==> !r.value.Changed?
  {
    if r.Ok? then Some(Verdict(r.value.item != req.id && req.stored, Accepted(r.value.item, r.value.revision)))
    else if r.error != Dependency then Some(Verdict(req.stored, Failed(r.error)))
    else None
  }

  function Resolve(req: Request, read: Read, revision: Option<int>): Verdict {
    match read
    case ReadFailed => Verdict(false, Failed(Dependency))
    case NoRow => Verdict(req.stored, Failed(Dependency))
    case Row(id, deleted, hash) =>
      if id != req.id then Verdict(req.stored, Failed(Dependency))
      else if deleted || hash != req.hash then Verdict(false, Failed(Conflict))
      else if revision.None? then Verdict(false, Failed(Dependency))
      else Verdict(false, Accepted(id, revision.value))
  }

  class FileStore {
    var files: set<int>

    method RemoveStoredFile(id: int)
      modifies this
      ensures files == old(files) - {id}
    {
      files := files - {id};
    }

    /** The tail of AddReservedFile once the append answered. */
    method FinishUpload(req: Request, r: Outcome, read: Read, revision: Option<int>) returns (reply: FileReply)
      requires r.Ok? ==> !r.value.Changed?
      modifies this
      ensures var verdict := AfterAppend(req, r).GetOr(Resolve(req, read, revision));
        reply == verdict.reply && files == if verdict.remove then old(files) - {req.id} else old(files)
    {
      if r.Ok? {
        if r.value.item != req.id && req.stored { RemoveStoredFile(req.id); }
        return Accepted(r.value.item, r.value.revision);
      }
      reply := ResolveFileCommit(req, r.error, read, revision);
    }

    method ResolveFileCommit(req: Request, appendError: Error, read: Read, revision: Option<int>) returns (reply: FileReply)
      modifies this
      ensures var verdict := AfterAppend(req, Err(appendError)).GetOr(Resolve(req, read, revision));
        reply == verdict.reply && files == if verdict.remove then old(files) - {req.id} else old(files)
    {
      if appendError != Dependency {
        if req.stored { RemoveStoredFile(req.id); }
        return Failed(appendError);
      }
      if read.ReadFailed? { return Failed(Dependency); }
      if read.NoRow? || read.id != req.id {
        if req.stored { RemoveStoredFile(req.id); }
        return Failed(Dependency);
      }
      if read.deleted || read.hash != req.hash { return Failed(Conflict); }
      if revision.None? { return Failed(Dependency); }
      return Accepted(read.id, revision.value);
    }
  }

  // ---------------------------------------------------------------- the system

  /** `unsure` records that the follow-up read failed. */
  datatype Phase =
    | Begun
    | Appending(req: Request)
    | Asking(req: Request)
    | Settled(req: Request, verdict: Verdict, unsure: bool)
    | Done(req: Request, verdict: Verdict, unsure: bool)

  datatype Upload = Upload(owner: int, manual: int, phase: Phase)

  datatype System = System(tables: Tables, files: set<int>, issued: set<int>, uploads: map<int, Upload>)

  datatype FileStep =
    | Begin(u: int, owner: int, m: int)
    | StoreBytes(u: int, req: Request)
    | NoDatabase(u: int)
    | Answered(u: int, auth: Auth)
    | AckLost(u: int, auth: Auth)
    | RolledBack(u: int)
    | AskFailed(u: int)
    | Asked(u: int, revision: bool)
    | Remove(u: int)
    | Finish(u: int)
    | Other(step: ManualSteps.Step)

  function With(s: System, u: int, phase: Phase): System
    requires u in s.uploads
  {
    s.(uploads := s.uploads[u := s.uploads[u].(phase := phase)])
  }

  ghost function Answer(lim: Limits, s: System, u: int, auth: Auth): (Tables, Outcome)
    requires u in s.uploads && s.uploads[u].phase.Appending?
  {
    Append(lim, s.tables, auth, s.uploads[u].owner, s.uploads[u].manual, s.uploads[u].phase.req)
  }

  /** FindManualItemByRequestID after the transaction settled. */
  ghost function Found(items: map<int, Item>, m: int, requestId: string): Read {
    var row := Existing(items, m, requestId);
    if row.None? then NoRow else Row(row.value, items[row.value].deleted, items[row.value].hash)
  }

  ghost predicate Enabled(s: System, step: FileStep) {
    match step
    case Begin(u, _, _) => u !in s.uploads
    case StoreBytes(u, req) => u in s.uploads && s.uploads[u].phase.Begun? && req.id !in s.issued
    case NoDatabase(u) => u in s.uploads && s.uploads[u].phase.Appending?
    case Answered(u, _) => u in s.uploads && s.uploads[u].phase.Appending?
    case AckLost(u, _) => u in s.uploads && s.uploads[u].phase.Appending?
    case RolledBack(u) => u in s.uploads && s.uploads[u].phase.Appending?
    case AskFailed(u) => u in s.uploads && s.uploads[u].phase.Asking?
    case Asked(u, _) => u in s.uploads && s.uploads[u].phase.Asking?
    case Remove(u) => u in s.uploads && s.uploads[u].phase.Settled? && s.uploads[u].phase.verdict.remove
    case Finish(u) => u in s.uploads && s.uploads[u].phase.Settled? && !s.uploads[u].phase.verdict.remove
    case Other(op) => op.DoAppend? ==> op.req.id !in s.issued && !op.req.stored
  }

  ghost function Next(lim: Limits, s: System, step: FileStep): System
    requires Enabled(s, step)
  {
    match step
    case Begin(u, owner, m) => s.(uploads := s.uploads[u := Upload(owner, m, Begun)])
    case StoreBytes(u, req) =>
      With(s, u, Appending(req)).(issued := s.issued + {req.id}, files := if req.stored then s.files + {req.id} else s.files)
    case NoDatabase(u) =>
      var req := s.uploads[u].phase.req;
      With(s, u, Settled(req, Verdict(req.stored, Failed(Dependency)), false))
    case Answered(u, auth) =>
      var req, (t', r) := s.uploads[u].phase.req, Answer(lim, s, u, auth);
      var verdict := AfterAppend(req, r);
      With(s, u, if verdict.None? then Asking(req) else Settled(req, verdict.value, false)).(tables := t')
    case AckLost(u, auth) => With(s, u, Asking(s.uploads[u].phase.req)).(tables := Answer(lim, s, u, auth).0)
    case RolledBack(u) => With(s, u, Asking(s.uploads[u].phase.req))
    case AskFailed(u) =>
      var req := s.uploads[u].phase.req;
      With(s, u, Settled(req, Resolve(req, ReadFailed, None), true))
    case Asked(u, revision) =>
      var req, m := s.uploads[u].phase.req, s.uploads[u].manual;
      var current := if revision && m in s.tables.manuals then Some(s.tables.manuals[m].revision) else None;
      With(s, u, Settled(req, Resolve(req, Found(s.tables.items, m, req.requestId), current), false))
    case Remove(u) =>
      var phase := s.uploads[u].phase;
      With(s, u, Done(phase.req, phase.verdict, phase.unsure)).(files := s.files - {phase.req.id})
    case Finish(u) =>
      var phase := s.uploads[u].phase;
      With(s, u, Done(phase.req, phase.verdict, phase.unsure))
    case Other(op) =>
      s.(tables := Apply(lim, s.tables, op).0, issued := if op.DoAppend? then s.issued + {op.req.id} else s.issued)
  }

  // ---------------------------------------------------------------- the invariant

  /** The row under the upload's id, if any, is the one it inserted. */
  predicate OwnRow(items: map<int, Item>, m: int, req: Request) {
    req.id in items ==> SameIdentity(NewItem(m, 0, req), items[req.id])
  }

  ghost predicate UploadOk(s: System, u: Upload) {
    match u.phase
    case Begun => true
    case Appending(req) => req.id in s.issued && req.id !in s.tables.items && (req.stored ==> req.id in s.files)
    case Asking(req) => req.id in s.issued && OwnRow(s.tables.items, u.manual, req) && (req.stored ==> req.id in s.files)
    case Settled(req, verdict, unsure) =>
      && req.id in s.issued && OwnRow(s.tables.items, u.manual, req) && (req.stored ==> req.id in s.files)
      && Judged(s.tables.items, u.manual, req, verdict, unsure)
    case Done(req, verdict, unsure) =>
      && req.id in s.issued && OwnRow(s.tables.items, u.manual, req)
      && Judged(s.tables.items, u.manual, req, verdict, unsure) && (verdict.remove ==> req.id !in s.files)
  }

  /** Bytes are given up only when no row has the id; kept ones have a row unless the read failed. */
  predicate Judged(items: map<int, Item>, m: int, req: Request, verdict: Verdict, unsure: bool) {
    && (verdict.remove ==> req.stored && req.id !in items)
    && (!verdict.remove && req.stored && !unsure ==> req.id in items)
    && (verdict.reply.Accepted? ==> Answers(items, m, req, verdict.reply.item))
  }

  predicate Answers(items: map<int, Item>, m: int, req: Request, id: int) {
    id in items && items[id].manual == m && items[id].requestId == req.requestId && items[id].hash == req.hash
  }

  ghost predicate Separate(s: System) {
    forall a, b | a in s.uploads && b in s.uploads && !s.uploads[a].phase.Begun? && !s.uploads[b].phase.Begun?
                  && s.uploads[a].phase.req.id == s.uploads[b].phase.req.id :: a == b
  }

  ghost predicate BytesPresent(s: System) {
    forall id | id in s.tables.items :: id in s.issued && (s.tables.items[id].stored ==> id in s.files)
  }

  ghost predicate FileInv(s: System) {
    Inv(s.tables) && BytesPresent(s) && Separate(s) && forall u | u in s.uploads :: UploadOk(s, s.uploads[u])
  }

  /** What one step may do to the rows, the bytes and the ids, as seen by the upload of another id. */
  ghost predicate LeavesAlone(s: System, s': System, mine: int) {
    && s.issued <= s'.issued
    && (forall id | id in s.tables.items :: id in s'.tables.items && SameIdentity(s.tables.items[id], s'.tables.items[id]))
    && (forall id | id in s.issued && id != mine :: (id in s'.tables.items ==> id in s.tables.items) && (id in s.files <==> id in s'.files))
  }

  lemma OthersStayOk(s: System, s': System, mine: int, u: Upload)
    requires LeavesAlone(s, s', mine) && UploadOk(s, u) && (u.phase.Begun? || u.phase.req.id != mine)
    ensures UploadOk(s', u)
  {
  }

  /** The only id an append can insert is the request's. */
  lemma AppendRows(lim: Limits, t: Tables, auth: Auth, owner: int, m: int, req: Request)
    requires req.id !in t.items
    ensures var (t', r) := Append(lim, t, auth, owner, m, req);
      && (forall id | id in t.items :: id in t'.items && SameIdentity(t.items[id], t'.items[id]))
      && (forall id | id in t'.items && id !in t.items :: id == req.id)
      && OwnRow(t'.items, m, req)
      && (r.Ok? ==> !r.value.Changed? && (r.value.item == req.id <==> req.id in t'.items))
      && (r.Ok? ==> Answers(t'.items, m, req, r.value.item))
      && (r.Err? ==> t' == t)
  {
    hide ItemQuota, ActiveIds;
  }

  ghost function Mine(s: System, step: FileStep): Option<int>
    requires Enabled(s, step)
  {
    match step
    case Begin(_, _, _) => None
    case Other(op) => if op.DoAppend? then Some(op.req.id) else None
    case StoreBytes(_, req) => Some(req.id)
    case _ => Some(s.uploads[step.u].phase.req.id)
  }

  lemma OtherRows(lim: Limits, t: Tables, op: ManualSteps.Step)
    ensures var t' := Apply(lim, t, op).0;
      && (forall id | id in t.items :: id in t'.items && SameIdentity(t.items[id], t'.items[id]))
      && (forall id | id in t'.items && id !in t.items :: op.DoAppend? && id == op.req.id && t'.items[id].stored == op.req.stored)
  {
    StepTouches(lim, t, op);
    if Apply(lim, t, op).0.items.Keys != t.items.Keys { StepInserts(lim, t, op); }
    hide Apply;
  }

  lemma StepLeavesAlone(lim: Limits, s: System, step: FileStep)
    requires FileInv(s) && Enabled(s, step)
    ensures LeavesAlone(s, Next(lim, s, step), Mine(s, step).GetOr(0)) || (Mine(s, step).None? && forall mine :: LeavesAlone(s, Next(lim, s, step), mine))
  {
    hide Append, Apply, Inv;
    match step
    case Answered(u, auth) =>
      assert UploadOk(s, s.uploads[u]);
      AppendRows(lim, s.tables, auth, s.uploads[u].owner, s.uploads[u].manual, s.uploads[u].phase.req);
    case AckLost(u, auth) =>
      assert UploadOk(s, s.uploads[u]);
      AppendRows(lim, s.tables, auth, s.uploads[u].owner, s.uploads[u].manual, s.uploads[u].phase.req);
    case Other(op) => OtherRows(lim, s.tables, op);
    case _ =>
  }

  /** The upload that made the step is still in order. */
  lemma AnswerKeepsOwn(lim: Limits, s: System, u: int, auth: Auth, lost: bool)
    requires FileInv(s) && u in s.uploads && s.uploads[u].phase.Appending?
    ensures var s' := Next(lim, s, if lost then AckLost(u, auth) else Answered(u, auth)); UploadOk(s', s'.uploads[u])
  {
    assert UploadOk(s, s.uploads[u]);
    AppendRows(lim, s.tables, auth, s.uploads[u].owner, s.uploads[u].manual, s.uploads[u].phase.req);
    hide Append, Inv, SameIdentity;
  }

  /** The follow-up read finds this upload's own row, or proves that there is none. */
  lemma ReadTellsOwn(items: map<int, Item>, m: int, req: Request)
    requires UniqueRequests(items) && OwnRow(items, m, req)
    ensures var read := Found(items, m, req.requestId);
      if req.id in items then read == Row(req.id, items[req.id].deleted, req.hash) else read.NoRow? || (read.Row? && read.id != req.id)
  {
    if req.id in items { assert FindsRequest(items, m, req.requestId, req.id); }
  }

  /** What an upload decides after its follow-up read: its own live row is accepted with the current revision and keeps its
      bytes, its own deleted row keeps them under a conflict, and without a row of its own it gives them up. */
  lemma AskedDecides(lim: Limits, s: System, u: int, revision: bool)
    requires FileInv(s) && u in s.uploads && s.uploads[u].phase.Asking?
    ensures var phase := Next(lim, s, Asked(u, revision)).uploads[u].phase; var req, m, t := s.uploads[u].phase.req, s.uploads[u].manual, s.tables;
      && phase.Settled? && phase.req == req
      && if req.id !in t.items then phase.verdict == Verdict(req.stored, Failed(Dependency))
         else if t.items[req.id].deleted then phase.verdict == Verdict(false, Failed(Conflict))
         else if revision && m in t.manuals then phase.verdict == Verdict(false, Accepted(req.id, t.manuals[m].revision))
         else phase.verdict == Verdict(false, Failed(Dependency))
  {
    assert UploadOk(s, s.uploads[u]);
    assert UniqueRequests(s.tables.items);
    ReadTellsOwn(s.tables.items, s.uploads[u].manual, s.uploads[u].phase.req);
    hide Found, Inv, SameIdentity;
  }

  /** What an upload decides on the answer of its transaction: a stored row is accepted, a row of an earlier request too but its
      bytes make the new ones superfluous, a refusal gives them up, and an unknown outcome leads to the follow-up read. */
  lemma AnsweredDecides(lim: Limits, s: System, u: int, auth: Auth)
    requires FileInv(s) && u in s.uploads && s.uploads[u].phase.Appending?
    ensures var s' := Next(lim, s, Answered(u, auth)); var req, (t', r) := s.uploads[u].phase.req, Answer(lim, s, u, auth);
      && s'.tables == t' && s'.files == s.files
      && match r
         case Ok(Stored(item, revision)) => item == req.id && s'.uploads[u].phase == Settled(req, Verdict(false, Accepted(item, revision)), false)
         case Ok(Replayed(item, revision)) => item != req.id && s'.uploads[u].phase == Settled(req, Verdict(req.stored, Accepted(item, revision)), false)
         case Ok(Changed(_, _)) => false
         case Err(error) =>
           s'.uploads[u].phase == if error == Dependency then Asking(req) else Settled(req, Verdict(req.stored, Failed(error)), false)
  {
    assert UploadOk(s, s.uploads[u]);
    AppendRows(lim, s.tables, auth, s.uploads[u].owner, s.uploads[u].manual, s.uploads[u].phase.req);
    ReplayIsOld(lim, s.tables, auth, s.uploads[u].owner, s.uploads[u].manual, s.uploads[u].phase.req);
    hide Append, Inv, SameIdentity;
  }

  lemma ReplayIsOld(lim: Limits, t: Tables, auth: Auth, owner: int, m: int, req: Request)
    requires req.id !in t.items
    ensures var (t', r) := Append(lim, t, auth, owner, m, req);
      r.Ok? ==> (if r.value.Stored? then r.value.item == req.id else r.value.Replayed? && r.value.item != req.id)
  {
    hide ItemQuota, ActiveIds;
  }

  lemma AskKeepsOwn(lim: Limits, s: System, u: int, revision: bool)
    requires FileInv(s) && u in s.uploads && s.uploads[u].phase.Asking?
    ensures var s' := Next(lim, s, Asked(u, revision)); UploadOk(s', s'.uploads[u])
  {
    assert UploadOk(s, s.uploads[u]);
    assert UniqueRequests(s.tables.items);
    ReadTellsOwn(s.tables.items, s.uploads[u].manual, s.uploads[u].phase.req);
    hide Found, Inv, SameIdentity;
  }

  lemma StepKeepsOwn(lim: Limits, s: System, step: FileStep)
    requires FileInv(s) && Enabled(s, step) && !step.Other?
    ensures var s' := Next(lim, s, step); step.u in s'.uploads && UploadOk(s', s'.uploads[step.u])
  {
    if step.Answered? {
      AnswerKeepsOwn(lim, s, step.u, step.auth, false);
    } else if step.AckLost? {
      AnswerKeepsOwn(lim, s, step.u, step.auth, true);
    } else if step.Asked? {
      AskKeepsOwn(lim, s, step.u, step.revision);
    } else if step.StoreBytes? {
      assert step.req.id !in s.tables.items;
    } else if !step.Begin? {
      hide Inv, SameIdentity;
      assert UploadOk(s, s.uploads[step.u]);
    }
  }

  lemma StepKeepsBytes(lim: Limits, s: System, step: FileStep)
    requires FileInv(s) && Enabled(s, step)
    ensures BytesPresent(Next(lim, s, step))
  {
    if step.Other? {
      OtherRows(lim, s.tables, step.step);
      hide Apply, Inv;
    } else if step.Answered? || step.AckLost? {
      var up := s.uploads[step.u];
      assert UploadOk(s, up);
      AppendRows(lim, s.tables, step.auth, up.owner, up.manual, up.phase.req);
      hide Append, Inv;
    } else {
      if step.Remove? { assert UploadOk(s, s.uploads[step.u]); }
      hide Inv;
    }
  }

  lemma StepKeepsTables(lim: Limits, s: System, step: FileStep)
    requires Enabled(s, step) && Inv(s.tables)
    ensures Inv(Next(lim, s, step).tables)
  {
    if step.Other? { StepKeepsInv(lim, s.tables, step.step); }
    if step.Answered? || step.AckLost? {
      var up := s.uploads[step.u];
      StepKeepsInv(lim, s.tables, DoAppend(up.manual, up.owner, step.auth, up.phase.req));
    }
    hide Inv, Append;
  }

  lemma StepKeepsSeparate(lim: Limits, s: System, step: FileStep)
    requires FileInv(s) && Enabled(s, step)
    ensures Separate(Next(lim, s, step))
  {
    hide Inv, Append, Apply, BytesPresent, Existing, SameIdentity;
    if step.StoreBytes? {
      forall u | u in s.uploads && !s.uploads[u].phase.Begun? ensures s.uploads[u].phase.req.id != step.req.id {
        assert UploadOk(s, s.uploads[u]);
      }
    }
  }

  /** Every step of every upload and every other transaction keeps the invariant. */
  lemma StepKeepsFileInv(lim: Limits, s: System, step: FileStep)
    requires FileInv(s) && Enabled(s, step)
    ensures FileInv(Next(lim, s, step))
  {
    StepKeepsTables(lim, s, step);
    StepKeepsSeparate(lim, s, step);
    StepKeepsBytes(lim, s, step);
    StepLeavesAlone(lim, s, step);
    if !step.Other? { StepKeepsOwn(lim, s, step); }
    var s' := Next(lim, s, step);
    forall v | v in s'.uploads ensures UploadOk(s', s'.uploads[v]) {
      if step.Other? || v != step.u {
        assert UploadOk(s, s.uploads[v]);
        OtherStaysOk(lim, s, step, v);
      }
    }
  }

  lemma OtherStaysOk(lim: Limits, s: System, step: FileStep, v: int)
    requires FileInv(s) && Enabled(s, step) && v in s.uploads && (step.Other? || v != step.u)
    ensures v in Next(lim, s, step).uploads && Next(lim, s, step).uploads[v] == s.uploads[v]
    ensures UploadOk(Next(lim, s, step), s.uploads[v])
  {
    StepLeavesAlone(lim, s, step);
    var s' := Next(lim, s, step);
    var up := s.uploads[v];
    assert UploadOk(s, up);
    if !up.phase.Begun? {
      assert up.phase.req.id in s.issued;
      var mine := Mine(s, step);
      if mine.None? {
        OthersStayOk(s, s', up.phase.req.id + 1, up);
      } else {
        assert mine.value != up.phase.req.id;
        OthersStayOk(s, s', mine.value, up);
      }
    }
  }

  // ---------------------------------------------------------------- whole runs

  ghost predicate IsRun(lim: Limits, states: seq<System>, steps: seq<FileStep>) {
    && |states| == |steps| + 1
    && states[0] == System(Tables(map[], map[]), {}, {}, map[])
    && forall i | 0 <= i < |steps| :: Enabled(states[i], steps[i]) && states[i + 1] == Next(lim, states[i], steps[i])
  }

  lemma {:induction false} RunKeepsFileInv(lim: Limits, states: seq<System>, steps: seq<FileStep>, i: nat)
    requires IsRun(lim, states, steps) && i < |states|
    ensures FileInv(states[i])
  {
    if i > 0 {
      RunKeepsFileInv(lim, states, steps, i - 1);
      StepKeepsFileInv(lim, states[i - 1], steps[i - 1]);
    }
  }

  /** No committed row refers to removed bytes, at any moment of any interleaving. */
  lemma NoRowLosesItsBytes(lim: Limits, states: seq<System>, steps: seq<FileStep>, i: nat, id: int)
    requires IsRun(lim, states, steps) && i < |states|
    requires id in states[i].tables.items && states[i].tables.items[id].stored
    ensures id in states[i].files
  {
    RunKeepsFileInv(lim, states, steps, i);
  }

  /** Once an upload is over its bytes exist exactly when its own row is committed, unless the follow-up read failed.
      An accepted upload is answered with a committed row for the same manual, request id and content. */
  lemma FinishedUploadsKeepOnlyOwnBytes(lim: Limits, states: seq<System>, steps: seq<FileStep>, i: nat, u: int)
    requires IsRun(lim, states, steps) && i < |states| && u in states[i].uploads && states[i].uploads[u].phase.Done?
    ensures var s, phase := states[i], states[i].uploads[u].phase;
      phase.req.stored && !phase.unsure ==> (phase.req.id in s.files <==> phase.req.id in s.tables.items)
    ensures var s, phase := states[i], states[i].uploads[u].phase;
      phase.verdict.reply.Accepted? ==> Answers(s.tables.items, s.uploads[u].manual, phase.req, phase.verdict.reply.item)
  {
    RunKeepsFileInv(lim, states, steps, i);
    assert UploadOk(states[i], states[i].uploads[u]);
  }
}
