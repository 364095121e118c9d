/**
 The publication transaction as code on the mutable tables, proved against SiteConfig.Publish.
 */
module SitePublisher {
  import opened Common
  import opened SiteConfig
  import SplitSql

  class SiteDatabase {
    var current: map<string, CurrentRow>
    var history: seq<HistoryRow>
    var state: RuntimeState

    function View(): Db
      reads this
    {
      Db(current, history, state)
    }

    constructor (seed: Db)
      ensures View() == seed
    {
      current, history, state := seed.current, seed.history, seed.state;
    }

    /** SaveSiteConfig: appends history, then updates both rows by their old revision; a miss rolls back. */
    method SaveSiteConfig(row: CurrentRow, h: HistoryRow, newState: RuntimeState) returns (ok: bool)
      modifies this
      ensures ok <==> Save(old(View()), row, h, newState).Some?
      ensures View() == if ok then Save(old(View()), row, h, newState).value else old(View())
    {
      var before := history;
      if FindRequest(Rows(history, h.ns), h.requestId).Some? || FindRevision(Rows(history, h.ns), h.doc.revision).Some? {
        return false;  // duplicate key
      }
      history := history + [h];
      if h.ns !in current || current[h.ns].doc.revision != row.doc.revision - 1 {
        history := before;
        return false;
      }
      var oldRow := current[h.ns];
      current := current[h.ns := row];
      if state.revision != newState.revision - 1 {
        current, history := current[h.ns := oldRow], before;
        assert current == old(current);
        return false;
      }
      state := newState;
      return true;
    }

    /** publish, from the locks to the commit. */
    method Transact(validate: Validate, q: Request) returns (r: Result<CurrentRow, Error>)
      requires Precheck(validate, q).None?
      modifies this
      ensures (View(), r) == Publish(validate, old(View()), q)
    {
      var locked := state;
      if q.ns !in current {
        return Err(NotFound);
      }
      var previous := current[q.ns].doc;
      var oldValues := Checked(validate, q.ns, previous);
      if oldValues.None? {
        return Err(Dependency);
      }
      if !q.authorized {
        return Err(Denied);
      }
      var candidate: Values;
      if q.change.SetValues? {
        candidate := validate(q.ns, q.change.values.value).value;
      } else {
        var target := FindRevision(Rows(history, q.ns), q.change.target);
        if target.None? {
          return Err(NotFound);
        }
        var checked := Checked(validate, q.ns, target.value.doc);
        if checked.None? {
          return Err(Dependency);
        }
        candidate := checked.value;
      }
      var hash := OfRequest(RequestDoc(q.actor, q.expected, SplitSql.Trim(q.reason), candidate, RollbackFrom(q)));
      var existing := FindRequest(Rows(history, q.ns), q.id);
      if existing.Some? {
        if existing.value.requestHash != hash {
          return Err(Conflict);
        }
        return Ok(CurrentRow(existing.value.doc, existing.value.actor));
      }
      if previous.revision != q.expected {
        return Err(Conflict);
      }
      if candidate == oldValues.value {
        return Err(Invalid);
      }
      var saved := CurrentRow(Stored(previous.revision + 1, 1, Doc(candidate), OfText(Doc(candidate))), q.actor);
      var row := HistoryRow(q.ns, saved.doc, q.id, hash, q.actor, SplitSql.Trim(q.reason), RollbackFrom(q));
      if q.ns == "registration" && Enabled(oldValues.value) && Disabled(candidate) {
        locked := locked.(epoch := locked.epoch + 1);
      }
      locked := locked.(generation := locked.generation + 1, revision := locked.revision + 1);
      var ok := SaveSiteConfig(saved, row, locked);
      if !ok {
        return Err(Dependency);
      }
      return Ok(saved);
    }
  }
}
