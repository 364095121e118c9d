/**
 Hosted projects and their releases: upload with pruning, publish, owner and moderator status changes, and the
 cleanup of deleted projects (app/webprojects, domain/repository/webprojects, app/adminweb).

 Each transaction is one step on the two tables; a rejected one changes nothing. `allowed` stands for the write
 policy, the clock and the disk are parameters. The empty moderation status of old rows counts as normal.
 */
module Projects {
  import opened Common
  import Pruning = ProjectPruning

  datatype Status = Draft | Enabled | Disabled | Deleted

  datatype Moderation = Normal | Blocked | Removed

  datatype Project = Project(owner: int, status: Status, moderation: Moderation, current: Option<int>, revision: int,
                             deletedAt: Option<int>, purgeAfter: Option<int>)

  datatype ReleaseStatus = Uploading | Ready | Failed | Deleting

  datatype Release = Release(project: int, uploader: int, status: ReleaseStatus, key: Option<string>, content: string, bytes: int)

  datatype Tables = Tables(projects: map<int, Project>, releases: map<int, Release>)

  datatype Error = Denied | NotFound | Forbidden | Conflict | Dependency | RateLimited | TooLarge | Invalid

  const MAX_READY := 1000

  // ---------------------------------------------------------------- the owner's transactions

  function LockOwned(t: Tables, allowed: bool, owner: int, p: int): Result<Project, Error> {
    if !allowed then Err(Denied)
    else if p !in t.projects || t.projects[p].owner != owner then Err(NotFound)
    else if t.projects[p].moderation != Normal then Err(Forbidden)
    else Ok(t.projects[p])
  }

  datatype UploadRequest = UploadRequest(release: int, key: Option<string>, content: string, bytes: int)

  predicate HasKey(t: Tables, p: int, key: string, r: int) {
    r in t.releases && t.releases[r].project == p && t.releases[r].key == Some(key)
  }

  ghost function FindByKey(t: Tables, p: int, key: Option<string>): (r: Option<int>)
    ensures r.Some? ==> key.Some? && HasKey(t, p, key.value, r.value)
    ensures r.None? && key.Some? ==> forall k :: !HasKey(t, p, key.value, k)
  {
    if key.Some? && exists r :: HasKey(t, p, key.value, r) then
      var r :| HasKey(t, p, key.value, r);
      Some(r)
    else None
  }

  predicate IsReady(t: Tables, p: int, r: int) {
    r in t.releases && t.releases[r].project == p && t.releases[r].status == Ready
  }

  /** The ready releases of a project, oldest first, or the first 1001 of them. */
  ghost predicate IsReadyList(t: Tables, p: int, ready: seq<int>) {
    && Distinct(ready) && |ready| <= MAX_READY + 1
    && (forall i | 0 <= i < |ready| :: IsReady(t, p, ready[i]))
    && (|ready| <= MAX_READY ==> forall r | IsReady(t, p, r) :: r in ready)
  }

  function Items(t: Tables, ready: seq<int>): seq<Pruning.Item>
    requires forall i | 0 <= i < |ready| :: ready[i] in t.releases
  {
    seq(|ready|, i requires 0 <= i < |ready| => Pruning.Item(ready[i], t.releases[ready[i]].bytes))
  }

  function Mapped(e: Pruning.Error): Error {
    match e
    case Invalid => Error.Invalid
    case TooLarge => Error.TooLarge
    case RateLimited => Error.RateLimited
  }

  /** UPDATE ... SET status = deleting on the ready rows among `ids`. */
  function MarkReady(releases: map<int, Release>, p: int, ids: seq<int>): map<int, Release> {
    map r | r in releases ::
      if r in ids && releases[r].project == p && releases[r].status == Ready then releases[r].(status := Deleting) else releases[r]
  }

  function MarkedReady(releases: map<int, Release>, p: int, ids: seq<int>): set<int> {
    set r | r in releases && r in ids && releases[r].project == p && releases[r].status == Ready
  }

  /** Ok names the release that answers the request: the new one, or the one an earlier request stored. */
  ghost function Upload(t: Tables, allowed: bool, owner: int, p: int, req: UploadRequest, quota: bool, ready: seq<int>, lim: Pruning.Limits)
    : (Tables, Result<int, Error>)
    requires forall i | 0 <= i < |ready| :: ready[i] in t.releases
  {
    var locked := LockOwned(t, allowed, owner, p);
    if locked.Err? then (t, Err(locked.error))
    else if locked.value.status == Deleted then (t, Err(NotFound))
    else
      var existing := FindByKey(t, p, req.key);
      if existing.Some? then
        if t.releases[existing.value].content != req.content then (t, Err(Conflict)) else (t, Ok(existing.value))
      else if !quota || |ready| > MAX_READY then (t, Err(Error.RateLimited))
      else
        var retired := Pruning.Select(Items(t, ready), locked.value.current, lim, req.bytes);
        if retired.Err? then (t, Err(Mapped(retired.error)))
        else if |MarkedReady(t.releases, p, retired.value)| != |retired.value| || req.release in t.releases then (t, Err(Conflict))
        else
          var added := MarkReady(t.releases, p, retired.value)[req.release := Release(p, owner, Ready, req.key, req.content, req.bytes)];
          (t.(releases := added), Ok(req.release))
  }

  /** `present` says whether the entry file is there while the rows are locked. */
  function Publish(t: Tables, allowed: bool, owner: int, p: int, r: int, revision: int, present: bool): (Tables, Option<Error>) {
    var locked := LockOwned(t, allowed, owner, p);
    if locked.Err? then (t, Some(locked.error))
    else if locked.value.status == Deleted then (t, Some(NotFound))
    else if locked.value.revision != revision then (t, Some(Conflict))
    else if !IsReady(t, p, r) then (t, Some(NotFound))
    else if t.releases[r].uploader != owner || t.releases[r].uploader <= 0 || !present then (t, Some(Dependency))
    else (With(t, p, locked.value.(status := Enabled, current := Some(r), revision := revision + 1)), None)
  }

  function With(t: Tables, p: int, row: Project): Tables { t.(projects := t.projects[p := row]) }

  /** Name, description, slug, access and members. */
  function EditText(t: Tables, allowed: bool, owner: int, p: int, revision: int): (Tables, Option<Error>) {
    var locked := LockOwned(t, allowed, owner, p);
    if locked.Err? then (t, Some(locked.error))
    else if locked.value.revision != revision then (t, Some(Conflict))
    else (With(t, p, locked.value.(revision := revision + 1)), None)
  }

  /** The fields an owner action writes; they are computed from a row read before the transaction. */
  datatype StatusChange = Disable | Delete(at: int, purge: int) | Restore

  function Changed(row: Project, change: StatusChange): Project {
    match change
    case Disable => row.(status := Disabled)
    case Delete(at, purge) => row.(status := Deleted, deletedAt := Some(at), purgeAfter := Some(purge))
    case Restore => row.(status := Disabled, deletedAt := None, purgeAfter := None)
  }

  function ChangeStatus(t: Tables, allowed: bool, owner: int, p: int, revision: int, change: StatusChange, slot: bool): (Tables, Option<Error>) {
    var locked := LockOwned(t, allowed, owner, p);
    if locked.Err? then (t, Some(locked.error))
    else if locked.value.status == Deleted && !change.Delete? && !slot then (t, Some(Error.RateLimited))
    else if locked.value.revision != revision then (t, Some(Conflict))
    else (With(t, p, Changed(locked.value, change).(revision := revision + 1)), None)
  }

  // ---------------------------------------------------------------- the moderator's transactions

  datatype Action = Block | Unblock | RemoveProject(now: int, days: int) | RestoreProject(now: int, days: int)

  const DAY := 24 * 3600

  function Moderated(row: Project, action: Action, ownerActive: bool): Result<Project, Error> {
    match action
    case Block => if row.status == Deleted || row.moderation == Blocked then Err(Conflict) else Ok(row.(moderation := Blocked))
    case Unblock =>
      if row.moderation != Blocked || row.status == Deleted || !ownerActive then Err(Conflict)
      else Ok(row.(moderation := Normal, status := Disabled))
    case RemoveProject(now, days) =>
      if row.status == Deleted then Err(Conflict)
      else if days <= 0 then Err(Dependency)
      else Ok(row.(status := Deleted, moderation := Removed, deletedAt := Some(now), purgeAfter := Some(now + days * DAY)))
    case RestoreProject(now, days) =>
      if row.status != Deleted || !ownerActive || row.deletedAt.None? then Err(Conflict)
      else
        var deadline := if row.purgeAfter.Some? then row.purgeAfter.value else row.deletedAt.value + (if days <= 0 then 7 else days) * DAY;
        if deadline <= now then Err(NotFound)
        else Ok(row.(status := Disabled, deletedAt := None, purgeAfter := None,
                     moderation := if row.moderation == Removed then Blocked else row.moderation))
  }

  function Moderate(t: Tables, p: int, revision: int, action: Action, ownerActive: bool): (Tables, Option<Error>) {
    if p !in t.projects then (t, Some(NotFound))
    else if t.projects[p].revision != revision then (t, Some(Conflict))
    else
      var row := Moderated(t.projects[p], action, ownerActive);
      if row.Err? then (t, Some(row.error)) else (With(t, p, row.value.(revision := revision + 1)), None)
  }

  // ---------------------------------------------------------------- cleanup

  predicate IsExpired(row: Project, cutoff: int, now: int) {
    && row.status == Deleted && row.deletedAt.Some?
    && if row.purgeAfter.Some? then row.purgeAfter.value <= now else row.deletedAt.value < cutoff
  }

  function MarkAll(releases: map<int, Release>, p: int, ids: seq<int>): map<int, Release> {
    map r | r in releases :: if r in ids && releases[r].project == p then releases[r].(status := Deleting) else releases[r]
  }

  function MarkedAll(releases: map<int, Release>, p: int, ids: seq<int>): set<int> {
    set r | r in releases && r in ids && releases[r].project == p
  }

  /** Marks one page of releases deleting and clears the current pointer; returns the page to remove. The project is
      looked at `now` and its pointer cleared `at` a later time. */
  function PrepareCleanup(t: Tables, p: int, enabled: bool, cutoff: int, now: int, at: int, page: seq<int>): (Tables, Result<seq<int>, Error>) {
    if !enabled || p !in t.projects || !IsExpired(t.projects[p], cutoff, now) || page == [] then (t, Ok([]))
    else if |MarkedAll(t.releases, p, page)| != |page| || !IsExpired(t.projects[p], cutoff, at) then (t, Err(Dependency))
    else
      var row := t.projects[p];
      (Tables(t.projects[p := row.(current := None, revision := row.revision + 1)], MarkAll(t.releases, p, page)), Ok(page))
  }

  /** The deleting release may be removed: it is its owner's and not current. */
  predicate Removable(t: Tables, p: int, r: int) {
    && r in t.releases && t.releases[r].project == p && t.releases[r].status == Deleting
    && p in t.projects && t.projects[p].owner > 0 && t.releases[r].uploader == t.projects[p].owner && t.projects[p].current != Some(r)
  }

  function DeleteRow(t: Tables, p: int, r: int): (Tables, bool) {
    if r in t.releases && t.releases[r].project == p && t.releases[r].status == Deleting then (t.(releases := t.releases - {r}), true)
    else (t, false)
  }

  // ---------------------------------------------------------------- what visitors see

  predicate Serves(t: Tables, p: int, ownerActive: bool) {
    && p in t.projects && t.projects[p].status == Enabled && t.projects[p].current.Some? && t.projects[p].moderation == Normal && ownerActive
    && var r := t.projects[p].current.value;
      IsReady(t, p, r) && t.releases[r].uploader == t.projects[p].owner && t.releases[r].uploader > 0
  }

  // ---------------------------------------------------------------- the invariant

  ghost predicate PointerOk(t: Tables, p: int)
    requires p in t.projects
  {
    t.projects[p].current.Some? ==>
      var r := t.projects[p].current.value;
      IsReady(t, p, r) && t.releases[r].uploader == t.projects[p].owner && t.releases[r].uploader > 0
  }

  ghost predicate Inv(t: Tables) {
    forall p | p in t.projects :: PointerOk(t, p) && (t.projects[p].moderation == Removed ==> t.projects[p].status == Deleted)
  }

  // ---------------------------------------------------------------- steps

  /** An upload stores its files before the transaction; `Discarding` removes them after an error or a replay. */
  datatype UploadPhase = Stored | Committed | Discarding

  datatype System = System(t: Tables, files: set<int>, issued: set<int>, uploads: map<int, UploadPhase>, removing: set<(int, int)>)

  datatype Step =
    | Create(p: int, owner: int)
    | StoreFiles(r: int)
    | UploadTx(p: int, owner: int, allowed: bool, req: UploadRequest, quota: bool, ready: seq<int>, lim: Pruning.Limits, ackLost: bool)
    | Discard(r: int)
    | PublishTx(p: int, owner: int, allowed: bool, r: int, revision: int)
    | EditTx(p: int, owner: int, allowed: bool, revision: int)
    | StatusTx(p: int, owner: int, allowed: bool, revision: int, change: StatusChange, slot: bool)
    | ModerateTx(p: int, revision: int, action: Action, ownerActive: bool)
    | CleanupTx(p: int, enabled: bool, cutoff: int, now: int, at: int, page: seq<int>)
    | FindRemovable(p: int, r: int)
    | RemoveFiles(p: int, r: int)
    | RemoveRow(p: int, r: int)

  ghost predicate Possible(s: System, step: Step) {
    match step
    case Create(p, _) => p !in s.t.projects
    case StoreFiles(r) => r !in s.issued
    case UploadTx(p, _, _, req, _, ready, _, _) => req.release in s.uploads && s.uploads[req.release] == Stored && IsReadyList(s.t, p, ready)
    case Discard(r) => r in s.uploads && s.uploads[r] == Discarding
    case FindRemovable(p, r) => Removable(s.t, p, r)
    case RemoveFiles(p, r) => (p, r) in s.removing
    case RemoveRow(p, r) => (p, r) in s.removing
    case _ => true
  }

  ghost function Next(s: System, step: Step): System
    requires Possible(s, step)
  {
    match step
    case Create(p, owner) => s.(t := With(s.t, p, Project(owner, Draft, Normal, None, 1, None, None)))
    case StoreFiles(r) => s.(files := s.files + {r}, issued := s.issued + {r}, uploads := s.uploads[r := Stored])
    case UploadTx(p, owner, allowed, req, quota, ready, lim, ackLost) =>
      var (t', answer) := Upload(s.t, allowed, owner, p, req, quota, ready, lim);
      var kept := answer == Ok(req.release) && !ackLost;
      s.(t := t', uploads := s.uploads[req.release := if kept then Committed else Discarding])
    case Discard(r) => s.(files := s.files - {r}, uploads := s.uploads - {r})
    case PublishTx(p, owner, allowed, r, revision) => s.(t := Publish(s.t, allowed, owner, p, r, revision, r in s.files).0)
    case EditTx(p, owner, allowed, revision) => s.(t := EditText(s.t, allowed, owner, p, revision).0)
    case StatusTx(p, owner, allowed, revision, change, slot) => s.(t := ChangeStatus(s.t, allowed, owner, p, revision, change, slot).0)
    case ModerateTx(p, revision, action, ownerActive) => s.(t := Moderate(s.t, p, revision, action, ownerActive).0)
    case CleanupTx(p, enabled, cutoff, now, at, page) => s.(t := PrepareCleanup(s.t, p, enabled, cutoff, now, at, page).0)
    case FindRemovable(p, r) => s.(removing := s.removing + {(p, r)})
    case RemoveFiles(p, r) => s.(files := s.files - {r})
    case RemoveRow(p, r) => s.(t := DeleteRow(s.t, p, r).0, removing := s.removing - {(p, r)})
  }

  // ---------------------------------------------------------------- the pointer survives every step

  lemma SelectedAreListed(t: Tables, p: int, ready: seq<int>, current: Option<int>, lim: Pruning.Limits, bytes: int)
    requires IsReadyList(t, p, ready) && Pruning.Select(Items(t, ready), current, lim, bytes).Ok?
    ensures var retired := Pruning.Select(Items(t, ready), current, lim, bytes).value;
      Distinct(retired) && (current.Some? ==> current.value !in retired) && forall k | 0 <= k < |retired| :: IsReady(t, p, retired[k])
  {
    Pruning.SelectionMakesRoom(Items(t, ready), current, lim, bytes);
  }

  /** Marking always reaches every selected row, so an upload is never refused for that. */
  lemma AllSelectedAreMarked(t: Tables, p: int, ids: seq<int>)
    requires Distinct(ids) && forall k | 0 <= k < |ids| :: IsReady(t, p, ids[k])
    ensures |MarkedReady(t.releases, p, ids)| == |ids|
  {
    forall r ensures r in MarkedReady(t.releases, p, ids) <==> r in ids {
      if r in ids { var k :| 0 <= k < |ids| && ids[k] == r; assert IsReady(t, p, ids[k]); }
    }
    assert MarkedReady(t.releases, p, ids) == Elements(ids);
    DistinctCount(ids);
  }

  /** An upload retires ready releases of its own project, never the current one, and adds one ready release. */
  lemma UploadEffect(t: Tables, allowed: bool, owner: int, p: int, req: UploadRequest, quota: bool, ready: seq<int>, lim: Pruning.Limits)
    requires IsReadyList(t, p, ready)
    ensures var (t', answer) := Upload(t, allowed, owner, p, req, quota, ready, lim);
      && t'.projects == t.projects && (answer.Err? ==> t' == t)
      && (forall r | r in t.releases :: r in t'.releases && (t'.releases[r] == t.releases[r] || Retires(t, t', p, r)))
      && (forall r | r in t'.releases && r !in t.releases :: r == req.release && answer == Ok(r) && t'.releases[r].status == Ready)
      && (answer == Ok(req.release) && req.release !in t.releases ==> req.release in t'.releases)
  {
    var locked := LockOwned(t, allowed, owner, p);
    if locked.Ok? {
      var selected := Pruning.Select(Items(t, ready), locked.value.current, lim, req.bytes);
      if selected.Ok? { SelectedAreListed(t, p, ready, locked.value.current, lim, req.bytes); }
    }
  }

  predicate Retires(t: Tables, t': Tables, p: int, r: int) {
    && IsReady(t, p, r) && r in t'.releases && t'.releases[r] == t.releases[r].(status := Deleting)
    && p in t.projects && t.projects[p].current != Some(r)
  }

  lemma UploadKeepsInv(t: Tables, allowed: bool, owner: int, p: int, req: UploadRequest, quota: bool, ready: seq<int>, lim: Pruning.Limits)
    requires Inv(t) && IsReadyList(t, p, ready)
    ensures Inv(Upload(t, allowed, owner, p, req, quota, ready, lim).0)
  {
    UploadEffect(t, allowed, owner, p, req, quota, ready, lim);
    var t' := Upload(t, allowed, owner, p, req, quota, ready, lim).0;
    hide Upload;
    forall k | k in t'.projects ensures PointerOk(t', k) { assert PointerOk(t, k); }
  }

  /** A change of one project row that leaves its pointer alone keeps all pointers. */
  lemma RowKeepsInv(t: Tables, p: int, row: Project)
    requires Inv(t) && p in t.projects && row.owner == t.projects[p].owner && row.current == t.projects[p].current
    requires row.moderation == Removed ==> row.status == Deleted
    ensures Inv(With(t, p, row))
  {
    forall k | k in With(t, p, row).projects ensures PointerOk(With(t, p, row), k) { assert PointerOk(t, k); }
  }

  /** On a page of the project's releases neither the row count test nor the clearing can fail. */
  lemma CleanupNeverFails(t: Tables, p: int, enabled: bool, cutoff: int, now: int, at: int, page: seq<int>)
    requires Distinct(page) && now <= at && forall i | 0 <= i < |page| :: page[i] in t.releases && t.releases[page[i]].project == p
    ensures PrepareCleanup(t, p, enabled, cutoff, now, at, page).1.Ok?
  {
    forall r ensures r in MarkedAll(t.releases, p, page) <==> r in page {
      if r in page { var i :| 0 <= i < |page| && page[i] == r; }
    }
    assert MarkedAll(t.releases, p, page) == Elements(page);
    DistinctCount(page);
  }

  lemma PublishKeepsInv(t: Tables, allowed: bool, owner: int, p: int, r: int, revision: int, present: bool)
    requires Inv(t)
    ensures Inv(Publish(t, allowed, owner, p, r, revision, present).0)
  {
    var t' := Publish(t, allowed, owner, p, r, revision, present).0;
    forall k | k in t'.projects ensures PointerOk(t', k) { assert PointerOk(t, k); }
  }

  /** In every step the current release, when set, stays a ready release of the project uploaded by its owner,
      and a project removed by a moderator stays deleted. */
  lemma StepKeepsInv(s: System, step: Step)
    requires Inv(s.t) && Possible(s, step)
    ensures Inv(Next(s, step).t)
  {
    match step
    case Create(p, owner) =>
      forall k | k in Next(s, step).t.projects ensures PointerOk(Next(s, step).t, k) { if k != p { assert PointerOk(s.t, k); } }
    case UploadTx(p, owner, allowed, req, quota, ready, lim, _) => UploadKeepsInv(s.t, allowed, owner, p, req, quota, ready, lim);
    case PublishTx(p, owner, allowed, r, revision) => PublishKeepsInv(s.t, allowed, owner, p, r, revision, r in s.files);
    case EditTx(p, owner, allowed, revision) =>
      if EditText(s.t, allowed, owner, p, revision).1.None? { RowKeepsInv(s.t, p, s.t.projects[p].(revision := revision + 1)); }
    case StatusTx(p, owner, allowed, revision, change, slot) =>
      if ChangeStatus(s.t, allowed, owner, p, revision, change, slot).1.None? {
        RowKeepsInv(s.t, p, Changed(s.t.projects[p], change).(revision := revision + 1));
      }
    case ModerateTx(p, revision, action, ownerActive) =>
      if Moderate(s.t, p, revision, action, ownerActive).1.None? {
        assert s.t.projects[p].moderation == Removed ==> s.t.projects[p].status == Deleted;
        RowKeepsInv(s.t, p, Moderated(s.t.projects[p], action, ownerActive).value.(revision := revision + 1));
      }
    case _ =>
  }

  // ---------------------------------------------------------------- whole runs

  const EMPTY := System(Tables(map[], map[]), {}, {}, map[], {})

  ghost predicate IsRun(states: seq<System>, steps: seq<Step>) {
    && |states| == |steps| + 1
    && forall i | 0 <= i < |steps| :: Possible(states[i], steps[i]) && states[i + 1] == Next(states[i], steps[i])
  }

  lemma {:induction false} RunKeepsInv(states: seq<System>, steps: seq<Step>, n: nat)
    requires IsRun(states, steps) && n < |states| && Inv(states[0].t)
    ensures Inv(states[n].t)
  {
    if n > 0 {
      RunKeepsInv(states, steps, n - 1);
      StepKeepsInv(states[n - 1], steps[n - 1]);
    }
  }

  /** A moderator's block or removal is over only after an unblock, which leaves the project disabled. */
  lemma OnlyUnblockClears(s: System, step: Step, p: int)
    requires Possible(s, step) && p in s.t.projects && s.t.projects[p].moderation != Normal
    ensures p in Next(s, step).t.projects
    ensures var row := Next(s, step).t.projects[p];
      row.moderation == Normal ==> step.ModerateTx? && step.p == p && step.action == Unblock && row.status == Disabled
  {
    if step.UploadTx? { UploadEffect(s.t, step.allowed, step.owner, step.p, step.req, step.quota, step.ready, step.lim); hide Upload; }
  }

  /** Only a publish enables a project. */
  lemma OnlyPublishEnables(s: System, step: Step, p: int)
    requires Possible(s, step) && p in s.t.projects && s.t.projects[p].status != Enabled
    ensures p in Next(s, step).t.projects
    ensures Next(s, step).t.projects[p].status == Enabled ==> step.PublishTx? && step.p == p
  {
    if step.UploadTx? { UploadEffect(s.t, step.allowed, step.owner, step.p, step.req, step.quota, step.ready, step.lim); hide Upload; }
  }

  lemma {:induction false} FirstUnblock(states: seq<System>, steps: seq<Step>, p: int, n: nat) returns (i: nat)
    requires IsRun(states, steps) && n < |states| && p in states[0].t.projects && states[0].t.projects[p].moderation != Normal
    requires forall k | 0 <= k <= n :: p in states[k].t.projects
    requires states[n].t.projects[p].moderation == Normal
    ensures i < n && steps[i].ModerateTx? && steps[i].p == p && steps[i].action == Unblock && states[i + 1].t.projects[p].status == Disabled
  {
    OnlyKnown(states, steps, p, n - 1);
    if states[n - 1].t.projects[p].moderation != Normal {
      i := n - 1;
      OnlyUnblockClears(states[i], steps[i], p);
    } else {
      i := FirstUnblock(states, steps, p, n - 1);
    }
  }

  lemma {:induction false} OnlyKnown(states: seq<System>, steps: seq<Step>, p: int, n: nat)
    requires IsRun(states, steps) && n < |states| && p in states[0].t.projects
    ensures forall k | 0 <= k <= n :: p in states[k].t.projects
  {
    if n > 0 {
      OnlyKnown(states, steps, p, n - 1);
      ProjectsStay(states[n - 1], steps[n - 1], p);
    }
  }

  lemma ProjectsStay(s: System, step: Step, p: int)
    requires Possible(s, step) && p in s.t.projects
    ensures p in Next(s, step).t.projects
  {
    if step.UploadTx? { UploadEffect(s.t, step.allowed, step.owner, step.p, step.req, step.quota, step.ready, step.lim); hide Upload; }
  }

  lemma {:induction false} SomePublish(states: seq<System>, steps: seq<Step>, p: int, from: nat, n: nat) returns (j: nat)
    requires IsRun(states, steps) && from <= n < |states| && forall k | from <= k <= n :: p in states[k].t.projects
    requires states[from].t.projects[p].status != Enabled && states[n].t.projects[p].status == Enabled
    ensures from <= j < n && steps[j].PublishTx? && steps[j].p == p
  {
    hide Next, Possible;
    if states[n - 1].t.projects[p].status != Enabled {
      j := n - 1;
      OnlyPublishEnables(states[j], steps[j], p);
    } else {
      j := SomePublish(states, steps, p, from, n - 1);
    }
  }

  /** A project that was blocked or removed by a moderator is served again only after an unblock followed by a publish. */
  lemma ServedAgainOnlyAfterUnblock(states: seq<System>, steps: seq<Step>, p: int, n: nat)
    requires IsRun(states, steps) && n < |states| && p in states[0].t.projects && states[0].t.projects[p].moderation != Normal
    requires Serves(states[n].t, p, true)
    ensures exists i, j :: UnblockedThenPublished(steps, p, i, j) && j < n
  {
    OnlyKnown(states, steps, p, n);
    var i := FirstUnblock(states, steps, p, n);
    var j := SomePublish(states, steps, p, i + 1, n);
    assert UnblockedThenPublished(steps, p, i, j);
  }

  predicate UnblockedThenPublished(steps: seq<Step>, p: int, i: int, j: int) {
    && 0 <= i < j < |steps| && steps[i].ModerateTx? && steps[i].p == p && steps[i].action == Unblock
    && steps[j].PublishTx? && steps[j].p == p
  }

  predicate Shows(t: Tables, p: int, r: int) {
    p in t.projects && t.projects[p].status == Enabled && t.projects[p].current == Some(r)
  }

  lemma OnlyPublishShows(s: System, step: Step, p: int, r: int)
    requires Possible(s, step) && Shows(Next(s, step).t, p, r)
    ensures Shows(s.t, p, r) || (step.PublishTx? && step.p == p && step.r == r
                                 && Publish(s.t, step.allowed, step.owner, p, r, step.revision, r in s.files).1.None?)
  {
    if step.UploadTx? { UploadEffect(s.t, step.allowed, step.owner, step.p, step.req, step.quota, step.ready, step.lim); hide Upload; }
  }

  /** A successful publish makes the project serve exactly that release. */
  lemma PublishServes(t: Tables, allowed: bool, owner: int, p: int, r: int, revision: int, present: bool)
    requires Publish(t, allowed, owner, p, r, revision, present).1.None?
    ensures var t' := Publish(t, allowed, owner, p, r, revision, present).0;
      && Serves(t', p, true) && t'.projects[p].current == Some(r) && t'.projects[p].revision == t.projects[p].revision + 1
      && present && t'.releases == t.releases && forall k | k in t.projects && k != p :: k in t'.projects && t'.projects[k] == t.projects[k]
  {
  }

  /** Steps that may take a served project off line or change what it serves. */
  predicate MayReplace(step: Step, p: int) {
    match step
    case PublishTx(k, _, _, _, _) => k == p
    case StatusTx(k, _, _, _, _, _) => k == p
    case ModerateTx(k, _, _, _) => k == p
    case _ => false
  }

  lemma OthersKeepServing(s: System, step: Step, p: int)
    requires Inv(s.t) && Possible(s, step) && !MayReplace(step, p) && Serves(s.t, p, true)
    ensures Serves(Next(s, step).t, p, true) && Next(s, step).t.projects[p].current == s.t.projects[p].current
  {
    StepKeepsInv(s, step);
    assert PointerOk(Next(s, step).t, p) by { ProjectsStay(s, step, p); }
    if step.UploadTx? { UploadEffect(s.t, step.allowed, step.owner, step.p, step.req, step.quota, step.ready, step.lim); hide Upload; }
  }

  /** A committed publish is served from then on, whatever uploads, prunings, edits and cleanups do, until its owner
      publishes or changes the status again or a moderator acts on the project. */
  lemma {:induction false} PublishedStaysServed(states: seq<System>, steps: seq<Step>, j: nat, n: nat)
    requires IsRun(states, steps) && states[0] == EMPTY && j < n < |states| && steps[j].PublishTx?
    requires var step := steps[j]; Publish(states[j].t, step.allowed, step.owner, step.p, step.r, step.revision, step.r in states[j].files).1.None?
    requires forall k | j < k < n :: !MayReplace(steps[k], steps[j].p)
    ensures Serves(states[n].t, steps[j].p, true) && states[n].t.projects[steps[j].p].current == Some(steps[j].r)
  {
    var step := steps[j];
    if n == j + 1 {
      PublishServes(states[j].t, step.allowed, step.owner, step.p, step.r, step.revision, step.r in states[j].files);
    } else {
      hide Next, Possible, Publish, Serves, MayReplace;
      PublishedStaysServed(states, steps, j, n - 1);
      RunKeepsInv(states, steps, n - 1);
      OthersKeepServing(states[n - 1], steps[n - 1], step.p);
    }
  }

  /** A committed publish of exactly this release, since when the project has been enabled with it. */
  ghost predicate PublishedSince(states: seq<System>, steps: seq<Step>, p: int, r: int, j: int, n: nat)
    requires |states| == |steps| + 1 && n < |states|
  {
    && 0 <= j < n && steps[j].PublishTx? && steps[j].p == p && steps[j].r == r
    && Publish(states[j].t, steps[j].allowed, steps[j].owner, p, r, steps[j].revision, r in states[j].files).1.None?
    && forall k | j < k <= n :: Shows(states[k].t, p, r)
  }

  /** Whatever is served was put there by a committed publish of that release, and nothing since has disabled or
      replaced it. */
  lemma {:induction false} ServedWasPublished(states: seq<System>, steps: seq<Step>, n: nat, p: int, r: int) returns (j: nat)
    requires IsRun(states, steps) && n < |states| && states[0] == EMPTY && Shows(states[n].t, p, r)
    ensures PublishedSince(states, steps, p, r, j, n)
  {
    hide Next, Possible, Publish;
    OnlyPublishShows(states[n - 1], steps[n - 1], p, r);
    if Shows(states[n - 1].t, p, r) {
      j := ServedWasPublished(states, steps, n - 1, p, r);
    } else {
      j := n - 1;
    }
  }

  // ---------------------------------------------------------------- files

  /** The directory of a ready release exists exactly while its upload has not discarded it. */
  ghost predicate FilesOk(s: System) {
    && (forall r | r in s.t.releases :: r in s.issued && (s.t.releases[r].status == Ready ==> (r in s.files <==> r in s.uploads)))
    && (forall r | r in s.uploads :: r in s.issued && (s.uploads[r] == Stored ==> r !in s.t.releases && r in s.files))
    && (forall p, r | (p, r) in s.removing ::
          r in s.issued && (r in s.uploads ==> s.uploads[r] != Stored) && (r in s.t.releases ==> s.t.releases[r].status != Ready))
  }

  lemma OldRowsMayRetire(s: System, s': System)
    requires FilesOk(s) && s'.issued == s.issued && s'.files == s.files && s'.uploads == s.uploads && s'.removing == s.removing
    requires forall r | r in s'.t.releases :: r in s.t.releases && (s'.t.releases[r] == s.t.releases[r] || s'.t.releases[r].status == Deleting)
    ensures FilesOk(s')
  {
  }

  lemma UploadKeepsFiles(s: System, step: Step)
    requires FilesOk(s) && Possible(s, step) && step.UploadTx?
    ensures FilesOk(Next(s, step))
  {
    UploadEffect(s.t, step.allowed, step.owner, step.p, step.req, step.quota, step.ready, step.lim);
    var s', r := Next(s, step), step.req.release;
    assert r !in s.t.releases && r in s.files;
    assert s'.uploads.Keys == s.uploads.Keys;
    hide Upload;
  }

  /** Every step, lost acknowledgements included, keeps the directories of ready releases and their uploads in step. */
  lemma StepKeepsFiles(s: System, step: Step)
    requires FilesOk(s) && Possible(s, step)
    ensures FilesOk(Next(s, step))
  {
    match step
    case UploadTx(_, _, _, _, _, _, _, _) => UploadKeepsFiles(s, step);
    case CleanupTx(_, _, _, _, _, _) => OldRowsMayRetire(s, Next(s, step));
    case PublishTx(_, _, _, _, _) => OldRowsMayRetire(s, Next(s, step));
    case EditTx(_, _, _, _) => OldRowsMayRetire(s, Next(s, step));
    case StatusTx(_, _, _, _, _, _) => OldRowsMayRetire(s, Next(s, step));
    case ModerateTx(_, _, _, _) => OldRowsMayRetire(s, Next(s, step));
    case _ =>
  }

  // ---------------------------------------------------------------- exactly when files are lost

  predicate DiscardedAt(steps: seq<Step>, j: int, r: int) { 0 <= j < |steps| && steps[j] == Discard(r) }

  /** The error path of the release's upload has removed its directory within the first n steps. */
  ghost predicate Discarded(steps: seq<Step>, n: nat, r: int) {
    exists j :: DiscardedAt(steps, j, r) && j < n
  }

  predicate AckLostAt(steps: seq<Step>, i: int, r: int) {
    0 <= i < |steps| && steps[i].UploadTx? && steps[i].req.release == r && steps[i].ackLost
  }

  ghost predicate AckLost(steps: seq<Step>, n: nat, r: int) {
    exists i :: AckLostAt(steps, i, r) && i < n
  }

  /** The acknowledgement was lost first, the directory discarded later. */
  ghost predicate LostThenDiscarded(steps: seq<Step>, n: nat, r: int) {
    exists i, j :: AckLostAt(steps, i, r) && DiscardedAt(steps, j, r) && i < j < n
  }

  /** What the steps so far say of uploads and rows: an upload ends by its discard, and a row whose upload did not end
      well comes from a transaction whose acknowledgement was lost. */
  ghost predicate HistoryOk(s: System, steps: seq<Step>, n: nat) {
    && (forall r | r in s.issued :: r in s.uploads <==> !Discarded(steps, n, r))
    && (forall r | Discarded(steps, n, r) :: r in s.issued)
    && (forall r | r in s.t.releases :: (r in s.uploads && s.uploads[r] == Committed) || AckLost(steps, n, r))
    && (forall r | r in s.t.releases && Discarded(steps, n, r) :: LostThenDiscarded(steps, n, r))
  }

  lemma DiscardsGrow(steps: seq<Step>, n: nat, r: int)
    requires n < |steps|
    ensures Discarded(steps, n + 1, r) <==> Discarded(steps, n, r) || steps[n] == Discard(r)
    ensures AckLost(steps, n, r) ==> AckLost(steps, n + 1, r)
    ensures AckLostAt(steps, n, r) ==> AckLost(steps, n + 1, r)
    ensures LostThenDiscarded(steps, n, r) ==> LostThenDiscarded(steps, n + 1, r)
    ensures AckLost(steps, n, r) && steps[n] == Discard(r) ==> LostThenDiscarded(steps, n + 1, r)
  {
    if steps[n] == Discard(r) { assert DiscardedAt(steps, n, r); }
  }

  lemma RowsAfter(s: System, step: Step)
    requires Possible(s, step)
    ensures forall r | r in Next(s, step).t.releases && r !in s.t.releases :: step.UploadTx? && r == step.req.release
    ensures forall r | r in Next(s, step).t.releases && r !in s.t.releases && !step.ackLost :: Next(s, step).uploads[r] == Committed
  {
    if step.UploadTx? { UploadEffect(s.t, step.allowed, step.owner, step.p, step.req, step.quota, step.ready, step.lim); hide Upload; }
  }

  lemma UploadsAfter(s: System, step: Step)
    requires Possible(s, step) && FilesOk(s)
    ensures forall r | r in Next(s, step).uploads :: r in s.uploads || step == StoreFiles(r)
    ensures forall r | r in s.uploads :: r in Next(s, step).uploads <==> step != Discard(r)
    ensures forall r | r in s.uploads && s.uploads[r] == Committed :: r in Next(s, step).uploads && Next(s, step).uploads[r] == Committed
    ensures forall r | r in Next(s, step).issued :: r in s.issued || (step == StoreFiles(r) && r in Next(s, step).uploads)
  {
    hide Upload, Publish, EditText, ChangeStatus, Moderate, PrepareCleanup, DeleteRow;
  }

  lemma StepKeepsHistory(s: System, steps: seq<Step>, n: nat)
    requires n < |steps| && Possible(s, steps[n]) && FilesOk(s) && HistoryOk(s, steps, n)
    ensures HistoryOk(Next(s, steps[n]), steps, n + 1)
  {
    var step, s' := steps[n], Next(s, steps[n]);
    RowsAfter(s, step);
    UploadsAfter(s, step);
    assert s.issued <= s'.issued;
    assert step.Discard? ==> step.r in s.uploads && s.uploads[step.r] == Discarding && s'.t == s.t;
    hide Next, Possible, Discarded, AckLost, LostThenDiscarded;
    forall r
      ensures Discarded(steps, n + 1, r) <==> Discarded(steps, n, r) || step == Discard(r)
      ensures AckLost(steps, n, r) || AckLostAt(steps, n, r) ==> AckLost(steps, n + 1, r)
      ensures LostThenDiscarded(steps, n, r) || (AckLost(steps, n, r) && step == Discard(r)) ==> LostThenDiscarded(steps, n + 1, r)
    {
      DiscardsGrow(steps, n, r);
    }
  }

  lemma {:induction false} RunKeepsHistory(states: seq<System>, steps: seq<Step>, n: nat)
    requires IsRun(states, steps) && n < |states| && states[0] == EMPTY
    ensures FilesOk(states[n]) && HistoryOk(states[n], steps, n)
  {
    if n > 0 {
      RunKeepsHistory(states, steps, n - 1);
      StepKeepsFiles(states[n - 1], steps[n - 1]);
      StepKeepsHistory(states[n - 1], steps, n - 1);
    }
  }

  /** In every run the files of a ready release are there exactly as long as its upload has not discarded them; and a
      ready release is discarded only after the acknowledgement of its own upload was lost. */
  lemma FilesLastUntilDiscard(states: seq<System>, steps: seq<Step>, n: nat, p: int, r: int)
    requires IsRun(states, steps) && n < |states| && states[0] == EMPTY && IsReady(states[n].t, p, r)
    ensures r in states[n].files <==> !Discarded(steps, n, r)
    ensures Discarded(steps, n, r) ==> LostThenDiscarded(steps, n, r)
  {
    RunKeepsHistory(states, steps, n);
  }

  /** A served project has its files exactly as long as the upload of its current release has not discarded them; so it
      has them for good when that upload's acknowledgement was not lost, whatever became of other uploads. */
  lemma ServedFilesExist(states: seq<System>, steps: seq<Step>, n: nat, p: int)
    requires IsRun(states, steps) && n < |states| && states[0] == EMPTY && Serves(states[n].t, p, true)
    ensures var r := states[n].t.projects[p].current.value;
      && (r in states[n].files <==> !Discarded(steps, n, r))
      && (!AckLost(steps, n, r) ==> r in states[n].files)
  {
    FilesLastUntilDiscard(states, steps, n, p, states[n].t.projects[p].current.value);
  }

  predicate ServesMissingFiles(s: System, p: int) {
    Serves(s.t, p, true) && s.t.projects[p].current.value !in s.files
  }

  /** The discard does happen: an upload is committed but its acknowledgement lost, its release is published, and then
      the error path removes the files. */
  lemma LostAckLosesFiles()
    ensures exists states, steps :: IsRun(states, steps) && states[0] == EMPTY && ServesMissingFiles(states[|steps|], 1)
  {
    var create, store := Create(1, 7), StoreFiles(5);
    var upload := UploadTx(1, 7, true, UploadRequest(5, None, "site", 1), true, [], Pruning.Limits(10, 10), true);
    var publish, discard := PublishTx(1, 7, true, 5, 1), Discard(5);
    var s1 := Next(EMPTY, create);
    var s2 := Next(s1, store);
    var s3 := Next(s2, upload);
    FirstUpload(s2, upload);
    var s4 := Next(s3, publish);
    var s5 := Next(s4, discard);
    var states, steps := [EMPTY, s1, s2, s3, s4, s5], [create, store, upload, publish, discard];
    assert IsRun(states, steps);
    assert states[|steps|] == s5;
  }

  lemma FirstUpload(s: System, step: Step)
    requires s.t == Tables(map[1 := Project(7, Draft, Normal, None, 1, None, None)], map[])
    requires step == UploadTx(1, 7, true, UploadRequest(5, None, "site", 1), true, [], Pruning.Limits(10, 10), true)
    requires 5 in s.uploads && s.uploads[5] == Stored
    ensures Possible(s, step)
    ensures Next(s, step) == s.(t := s.t.(releases := map[5 := Release(1, 7, Ready, None, "site", 1)]), uploads := s.uploads[5 := Discarding])
  {
    assert Items(s.t, []) == [];
    assert Pruning.Select([], None, step.lim, 1) == Ok([]);
    assert MarkedReady(s.t.releases, 1, []) == {};
    assert MarkReady(s.t.releases, 1, []) == map[];
  }
}
