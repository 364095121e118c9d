/**
 When each transaction on a hosted project succeeds, what it leaves of the rows, and what a moderator's action means
 for visitors from then on (app/webprojects, app/adminweb, domain/repository/webprojects).
 */
module ProjectEffects {
  import opened Common
  import opened Projects
  import Pruning = ProjectPruning

  /** Only the row of project p differs. */
  predicate OnlyProject(t: Tables, t': Tables, p: int) {
    p in t.projects && p in t'.projects && t'.projects == t.projects[p := t'.projects[p]] && t'.releases == t.releases
  }

  /** The write policy lets the owner act on a project that no moderator has touched. */
  predicate OwnerMay(t: Tables, allowed: bool, owner: int, p: int) {
    allowed && p in t.projects && t.projects[p].owner == owner && t.projects[p].moderation == Normal
  }

  // ---------------------------------------------------------------- the moderator

  /** When an action is accepted. */
  predicate Accepted(row: Project, action: Action, ownerActive: bool) {
    match action
    case Block => row.status != Deleted && row.moderation != Blocked
    case Unblock => row.status != Deleted && row.moderation == Blocked && ownerActive
    case RemoveProject(_, days) => row.status != Deleted && days > 0
    case RestoreProject(now, days) =>
      && row.status == Deleted && ownerActive && row.deletedAt.Some?
      && now < if row.purgeAfter.Some? then row.purgeAfter.value else row.deletedAt.value + (if days <= 0 then 7 else days) * 86400
  }

  /** What the action makes of the row, field by field; owner and current release always stay. */
  predicate Became(was: Project, action: Action, now: Project) {
    && now.owner == was.owner && now.current == was.current && now.revision == was.revision + 1
    && match action
       case Block =>
         now.moderation == Blocked && now.status == was.status && now.deletedAt == was.deletedAt && now.purgeAfter == was.purgeAfter
       case Unblock =>
         now.moderation == Normal && now.status == Disabled && now.deletedAt == was.deletedAt && now.purgeAfter == was.purgeAfter
       case RemoveProject(at, days) =>
         now.moderation == Removed && now.status == Deleted && now.deletedAt == Some(at) && now.purgeAfter == Some(at + days * 86400)
       case RestoreProject(_, _) =>
         && now.status == Disabled && now.deletedAt.None? && now.purgeAfter.None?
         && now.moderation == if was.moderation == Removed then Blocked else was.moderation
  }

  /** Why an action that is not accepted is refused. */
  function Reason(t: Tables, p: int, revision: int, action: Action, ownerActive: bool): Error {
    if p !in t.projects then NotFound
    else if t.projects[p].revision != revision then Conflict
    else if action.RemoveProject? && t.projects[p].status != Deleted then Dependency
    else if action.RestoreProject? && t.projects[p].status == Deleted && ownerActive && t.projects[p].deletedAt.Some? then NotFound
    else Conflict
  }

  /** A moderator's action succeeds exactly at the current revision of a row it applies to, and sets exactly its fields. */
  lemma ModerateDecides(t: Tables, p: int, revision: int, action: Action, ownerActive: bool)
    ensures var (t', error) := Moderate(t, p, revision, action, ownerActive);
      && (error.None? <==> p in t.projects && t.projects[p].revision == revision && Accepted(t.projects[p], action, ownerActive))
      && (error.Some? ==> t' == t)
      && (error.Some? ==> error.value == Reason(t, p, revision, action, ownerActive))
      && (error.None? ==> OnlyProject(t, t', p) && Became(t.projects[p], action, t'.projects[p]))
  {
  }

  /** After a block, a removal, an unblock or a restoration the project is not served. */
  lemma ModeratedIsNotServed(t: Tables, p: int, revision: int, action: Action, ownerActive: bool, active: bool)
    requires Moderate(t, p, revision, action, ownerActive).1.None?
    ensures !Serves(Moderate(t, p, revision, action, ownerActive).0, p, active)
  {
    ModerateDecides(t, p, revision, action, ownerActive);
    hide Moderate;
  }

  /** In every run: from a committed block or removal on, the project is not served in any state before an unblock that is
      followed by a publish. */
  lemma BlockLasts(states: seq<System>, steps: seq<Step>, j: nat, n: nat)
    requires IsRun(states, steps) && j < n < |states| && steps[j].ModerateTx? && (steps[j].action == Block || steps[j].action.RemoveProject?)
    requires Moderate(states[j].t, steps[j].p, steps[j].revision, steps[j].action, steps[j].ownerActive).1.None?
    requires Serves(states[n].t, steps[j].p, true)
    ensures exists i, k :: UnblockedThenPublished(steps, steps[j].p, i, k) && j < i && k < n
  {
    var p := steps[j].p;
    assert states[j + 1] == Next(states[j], steps[j]);
    ModerateDecides(states[j].t, p, steps[j].revision, steps[j].action, steps[j].ownerActive);
    hide Moderate, Possible, Next, Serves;
    var rest, after := states[j + 1..], steps[j + 1..];
    forall i | 0 <= i < |after| ensures Possible(rest[i], after[i]) && rest[i + 1] == Next(rest[i], after[i]) {
      assert rest[i] == states[j + 1 + i] && after[i] == steps[j + 1 + i] && rest[i + 1] == states[j + 1 + (i + 1)];
    }
    ServedAgainOnlyAfterUnblock(rest, after, p, n - j - 1);
    var i, k :| UnblockedThenPublished(after, p, i, k) && k < n - j - 1;
    assert UnblockedThenPublished(steps, p, j + 1 + i, j + 1 + k);
  }

  // ---------------------------------------------------------------- the owner

  /** A publish succeeds exactly for the owner at the current revision with a ready release of his own whose files are there;
      the project is then enabled with that release and nothing else changes. */
  lemma PublishDecides(t: Tables, allowed: bool, owner: int, p: int, r: int, revision: int, present: bool)
    ensures var (t', error) := Publish(t, allowed, owner, p, r, revision, present);
      && (error.None? <==>
            && OwnerMay(t, allowed, owner, p) && t.projects[p].status != Deleted && t.projects[p].revision == revision && present
            && r in t.releases && t.releases[r].project == p && t.releases[r].status == Ready && t.releases[r].uploader == owner > 0)
      && (error.Some? ==> t' == t)
      && (error.None? ==>
            && OnlyProject(t, t', p)
            && t'.projects[p] == t.projects[p].(status := Enabled, current := Some(r), revision := revision + 1))
  {
  }

  lemma EditDecides(t: Tables, allowed: bool, owner: int, p: int, revision: int)
    ensures var (t', error) := EditText(t, allowed, owner, p, revision);
      && (error.None? <==> OwnerMay(t, allowed, owner, p) && t.projects[p].revision == revision)
      && (error.Some? ==> t' == t)
      && (error.None? ==> OnlyProject(t, t', p) && t'.projects[p] == t.projects[p].(revision := revision + 1))
  {
  }

  /** What an owner's change of status makes of the row. */
  predicate StatusBecame(was: Project, change: StatusChange, now: Project) {
    && now.owner == was.owner && now.current == was.current && now.moderation == was.moderation && now.revision == was.revision + 1
    && match change
       case Disable => now.status == Disabled && now.deletedAt == was.deletedAt && now.purgeAfter == was.purgeAfter
       case Delete(at, purge) => now.status == Deleted && now.deletedAt == Some(at) && now.purgeAfter == Some(purge)
       case Restore => now.status == Disabled && now.deletedAt.None? && now.purgeAfter.None?
  }

  /** An owner's change of status succeeds exactly at the current revision, and needs a free slot when it brings a deleted
      project back; afterwards the project is not served. */
  lemma StatusDecides(t: Tables, allowed: bool, owner: int, p: int, revision: int, change: StatusChange, slot: bool)
    ensures var (t', error) := ChangeStatus(t, allowed, owner, p, revision, change, slot);
      && (error.None? <==> OwnerMay(t, allowed, owner, p) && t.projects[p].revision == revision
                           && (t.projects[p].status == Deleted && !change.Delete? ==> slot))
      && (error.Some? ==> t' == t)
      && (error.None? ==> OnlyProject(t, t', p) && StatusBecame(t.projects[p], change, t'.projects[p]) && !Serves(t', p, true))
  {
  }

  /** An upload stores its release exactly when the owner may, the project is not deleted, the request is new, the quota and
      the number of releases allow it and room can be made; a repeated request is answered with its first release, or refused
      when its content differs. */
  lemma UploadDecides(t: Tables, allowed: bool, owner: int, p: int, req: UploadRequest, quota: bool, ready: seq<int>, lim: Pruning.Limits)
    requires IsReadyList(t, p, ready) && req.release !in t.releases
    ensures var (t', answer) := Upload(t, allowed, owner, p, req, quota, ready, lim);
      var may := OwnerMay(t, allowed, owner, p) && t.projects[p].status != Deleted;
      var existing := FindByKey(t, p, req.key);
      && (answer == Ok(req.release) <==>
            && may && existing.None? && quota && |ready| <= MAX_READY
            && Pruning.Select(Items(t, ready), t.projects[p].current, lim, req.bytes).Ok?)
      && (answer == Ok(req.release) ==>
            && t'.projects == t.projects && req.release in t'.releases
            && t'.releases[req.release] == Release(p, owner, Ready, req.key, req.content, req.bytes))
      && (may && existing.Some? ==> t' == t && answer == if t.releases[existing.value].content == req.content then Ok(existing.value) else Err(Conflict))
      && (answer.Err? ==> t' == t)
  {
    if p in t.projects {
      var selected := Pruning.Select(Items(t, ready), t.projects[p].current, lim, req.bytes);
      if selected.Ok? {
        SelectedAreListed(t, p, ready, t.projects[p].current, lim, req.bytes);
        AllSelectedAreMarked(t, p, selected.value);
      }
    }
    hide IsReadyList, Pruning.Select;
  }

  /** The owner's transactions refuse alike: a denied policy first, then a project that is not there or another's, then one a
      moderator has touched; after that a deleted project takes neither uploads nor publishes, and a stale revision is a
      conflict. */
  lemma RefusalsAreAlike(t: Tables, allowed: bool, owner: int, p: int, r: int, revision: int, present: bool, change: StatusChange, slot: bool,
                         req: UploadRequest, quota: bool, ready: seq<int>, lim: Pruning.Limits)
    requires IsReadyList(t, p, ready)
    ensures var upload := Upload(t, allowed, owner, p, req, quota, ready, lim).1;
      var publish, edit := Publish(t, allowed, owner, p, r, revision, present).1, EditText(t, allowed, owner, p, revision).1;
      var status := ChangeStatus(t, allowed, owner, p, revision, change, slot).1;
      var all := {publish, edit, status, if upload.Err? then Some(upload.error) else None};
      && (!allowed ==> all == {Some(Denied)})
      && (allowed && (p !in t.projects || t.projects[p].owner != owner) ==> all == {Some(NotFound)})
      && (allowed && p in t.projects && t.projects[p].owner == owner && t.projects[p].moderation != Normal ==> all == {Some(Forbidden)})
      && (OwnerMay(t, allowed, owner, p) && t.projects[p].status == Deleted ==> publish == Some(NotFound) && upload == Err(NotFound))
      && (OwnerMay(t, allowed, owner, p) && t.projects[p].status != Deleted && t.projects[p].revision != revision ==>
            {publish, edit, status} == {Some(Conflict)})
  {
    hide FindByKey, Pruning.Select, MarkedReady, MarkReady, IsReady;
  }

  // ---------------------------------------------------------------- cleanup

  /** A page of an expired project's releases is marked deleting and the project loses its pointer; nothing else changes, and a
      project that is not expired, or a switched off cleanup, is left alone. */
  lemma CleanupEffect(t: Tables, p: int, enabled: bool, cutoff: int, now: int, at: int, page: seq<int>)
    requires Distinct(page) && now <= at && forall i | 0 <= i < |page| :: page[i] in t.releases && t.releases[page[i]].project == p
    ensures var (t', marked) := PrepareCleanup(t, p, enabled, cutoff, now, at, page);
      var due := enabled && page != [] && p in t.projects && t.projects[p].status == Deleted && t.projects[p].deletedAt.Some?
        && if t.projects[p].purgeAfter.Some? then t.projects[p].purgeAfter.value <= now else t.projects[p].deletedAt.value < cutoff;
      && marked == Ok(if due then page else [])
      && (!due ==> t' == t)
      && (due ==>
            && t'.projects == t.projects[p := t.projects[p].(current := None, revision := t.projects[p].revision + 1)]
            && t'.releases.Keys == t.releases.Keys
            && forall r | r in t.releases :: t'.releases[r] == if r in page then t.releases[r].(status := Deleting) else t.releases[r])
  {
    CleanupNeverFails(t, p, enabled, cutoff, now, at, page);
  }

  /** Only a deleting release is removed, and then only it. */
  lemma RemovalEffect(t: Tables, p: int, r: int)
    ensures var (t', gone) := DeleteRow(t, p, r);
      && (gone <==> r in t.releases && t.releases[r].project == p && t.releases[r].status == Deleting)
      && t'.projects == t.projects && (forall k :: k in t'.releases <==> k in t.releases && !(gone && k == r))
      && forall k | k in t'.releases :: t'.releases[k] == t.releases[k]
  {
  }
}
