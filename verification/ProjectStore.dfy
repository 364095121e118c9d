/** The transactions of Projects as the code runs them on the stored rows. */
module ProjectStore {
  import opened Common
  import opened Projects
  import Pruning = ProjectPruning

  class Store {
    var projects: map<int, Project>
    var releases: map<int, Release>

    ghost function Contents(): Tables
      reads this
    {
      Tables(projects, releases)
    }

    method LockOwnedProject(allowed: bool, owner: int, p: int) returns (r: Result<Project, Error>)
      ensures r == LockOwned(Contents(), allowed, owner, p)
    {
      if !allowed { return Err(Denied); }
      if p !in projects || projects[p].owner != owner { return Err(NotFound); }
      if projects[p].moderation != Normal { return Err(Forbidden); }
      return Ok(projects[p]);
    }

    /** The conditional UPDATE of one project row. */
    method UpdateProjectFields(owner: int, p: int, revision: int, row: Project) returns (updated: bool)
      modifies `projects
      ensures updated <==> old(p in projects && projects[p].owner == owner && projects[p].revision == revision)
      ensures projects == if updated then old(projects)[p := row] else old(projects)
    {
      updated := p in projects && projects[p].owner == owner && projects[p].revision == revision;
      if updated { projects := projects[p := row]; }
    }

    method MarkReleasesDeleting(p: int, ids: seq<int>, readyOnly: bool) returns (rows: nat)
      modifies `releases
      ensures releases == if readyOnly then MarkReady(old(releases), p, ids) else MarkAll(old(releases), p, ids)
      ensures readyOnly ==> rows == |MarkedReady(old(releases), p, ids)|
      ensures !readyOnly ==> rows == |MarkedAll(old(releases), p, ids)|
    {
      if readyOnly {
        rows := |MarkedReady(releases, p, ids)|;
        releases := MarkReady(releases, p, ids);
      } else {
        rows := |MarkedAll(releases, p, ids)|;
        releases := MarkAll(releases, p, ids);
      }
    }

    /** `found` answers the lookup by request key. */
    method UploadRelease(allowed: bool, owner: int, p: int, req: UploadRequest, quota: bool, ready: seq<int>, lim: Pruning.Limits,
                         found: Option<int>) returns (r: Result<int, Error>)
      requires IsReadyList(Contents(), p, ready) && found == FindByKey(Contents(), p, req.key)
      modifies this
      ensures (Contents(), r) == Upload(old(Contents()), allowed, owner, p, req, quota, ready, lim)
    {
      var locked := LockOwnedProject(allowed, owner, p);
      if locked.Err? { return Err(locked.error); }
      if locked.value.status == Deleted { return Err(NotFound); }
      if found.Some? {
        if releases[found.value].content != req.content { return Err(Conflict); }
        return Ok(found.value);
      }
      if !quota { return Err(Error.RateLimited); }
      if |ready| > MAX_READY { return Err(Error.RateLimited); }
      var items := Items(Tables(projects, releases), ready);
      var retired := Pruning.SelectReleasesForPruning(items, locked.value.current, lim, req.bytes);
      if retired.Err? { return Err(Mapped(retired.error)); }
      var before := releases;
      var rows := MarkReleasesDeleting(p, retired.value, true);
      if rows != |retired.value| || req.release in releases { releases := before; return Err(Conflict); }
      releases := releases[req.release := Release(p, owner, Ready, req.key, req.content, req.bytes)];
      return Ok(req.release);
    }

    method PublishRelease(allowed: bool, owner: int, p: int, r: int, revision: int, present: bool) returns (error: Option<Error>)
      modifies `projects
      ensures (Contents(), error) == Publish(old(Contents()), allowed, owner, p, r, revision, present)
    {
      var locked := LockOwnedProject(allowed, owner, p);
      if locked.Err? { return Some(locked.error); }
      var project := locked.value;
      if project.status == Deleted { return Some(NotFound); }
      if project.revision != revision { return Some(Conflict); }
      if r !in releases || releases[r].project != p || releases[r].status != Ready { return Some(NotFound); }
      if releases[r].uploader != project.owner || releases[r].uploader <= 0 { return Some(Dependency); }
      if !present { return Some(Dependency); }
      var updated := UpdateProjectFields(owner, p, revision, project.(status := Enabled, current := Some(r), revision := revision + 1));
      error := if updated then None else Some(Conflict);
    }

    /** The fields each moderator action sets, then one conditional update. */
    method Change(p: int, revision: int, action: Action, ownerActive: bool) returns (error: Option<Error>)
      modifies `projects
      ensures (Contents(), error) == Moderate(old(Contents()), p, revision, action, ownerActive)
    {
      if p !in projects { return Some(NotFound); }
      var project := projects[p];
      if project.revision != revision { return Some(Conflict); }
      var row := project.(revision := revision + 1);
      match action {
        case Block =>
          if project.status == Deleted || project.moderation == Blocked { return Some(Conflict); }
          row := row.(moderation := Blocked);
        case Unblock =>
          if project.moderation != Blocked || project.status == Deleted || !ownerActive { return Some(Conflict); }
          row := row.(moderation := Normal, status := Disabled);
        case RemoveProject(now, days) =>
          if project.status == Deleted { return Some(Conflict); }
          row := row.(status := Deleted, moderation := Removed, deletedAt := Some(now));
          if days <= 0 { return Some(Dependency); }
          row := row.(purgeAfter := Some(now + days * DAY));
        case RestoreProject(now, days) =>
          if project.status != Deleted || !ownerActive || project.deletedAt.None? { return Some(Conflict); }
          var deadline := 0;
          if project.purgeAfter.Some? {
            deadline := project.purgeAfter.value;
          } else {
            var retention := if days <= 0 then 7 else days;
            deadline := project.deletedAt.value + retention * DAY;
          }
          if deadline <= now { return Some(NotFound); }
          row := row.(status := Disabled, deletedAt := None, purgeAfter := None);
          if project.moderation == Removed { row := row.(moderation := Blocked); }
      }
      var updated := UpdateProjectFields(project.owner, p, revision, row);
      error := if updated then None else Some(Conflict);
    }

    /** The conditional UPDATE that clears the pointer of an expired project. */
    method ClearExpiredCurrentRelease(p: int, cutoff: int, at: int) returns (cleared: bool)
      modifies `projects
      ensures cleared <==> old(p in projects && IsExpired(projects[p], cutoff, at))
      ensures projects == if cleared then old(projects)[p := old(projects[p].(current := None, revision := projects[p].revision + 1))] else old(projects)
    {
      cleared := p in projects && IsExpired(projects[p], cutoff, at);
      if cleared { projects := projects[p := projects[p].(current := None, revision := projects[p].revision + 1)]; }
    }

    /** `page` lists the project's first releases. */
    method PrepareExpiredProjectCleanup(p: int, enabled: bool, cutoff: int, now: int, at: int, page: seq<int>)
      returns (marked: Result<seq<int>, Error>)
      modifies this
      ensures (Contents(), marked) == PrepareCleanup(old(Contents()), p, enabled, cutoff, now, at, page)
    {
      if !enabled { return Ok([]); }
      if p !in projects { return Ok([]); }
      var project := projects[p];
      var expired := project.deletedAt.Some? && project.deletedAt.value < cutoff;
      if project.purgeAfter.Some? { expired := project.purgeAfter.value <= now; }
      if project.status != Deleted || project.deletedAt.None? || !expired { return Ok([]); }
      if |page| == 0 { return Ok([]); }
      var before := releases;
      var rows := MarkReleasesDeleting(p, page, false);
      if rows != |page| { releases := before; return Err(Dependency); }
      var cleared := ClearExpiredCurrentRelease(p, cutoff, at);
      if !cleared { releases := before; return Err(Dependency); }
      return Ok(page);
    }
  }
}
