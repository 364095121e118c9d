/**
 The transactions of ManualSteps as the code runs them: a row is read, checked, changed and written,
 and a rejected transaction leaves the stored tables as they were.
 */
module ManualStore {
  import opened Common
  import opened Manuals
  import opened ManualSteps

  /** Complete order of the active items: every value parses, is known and is new. */
  method ParseCompleteItemOrder(values: seq<Option<int>>, known: set<int>) returns (r: Option<seq<int>>)
    ensures r == ParseOrder(values, known)
  {
    if |values| != |known| { return None; }
    var ordered, seen: set<int> := [], {};
    for i := 0 to |values|
      invariant ParseIds(values[..i], known) == Some(ordered)
      invariant seen == Elements(ordered)
    {
      assert values[..i + 1] == values[..i] + [values[i]];
      var value := values[i];
      if value.None? || value.value in seen || value.value !in known {
        ParseFails(values, known, i);
        return None;
      }
      SnocElements(ordered, value.value);
      seen := seen + {value.value};
      ordered := ordered + [value.value];
    }
    assert values[..|values|] == values;
    return Some(ordered);
  }

  lemma {:induction false} ParseFails(values: seq<Option<int>>, known: set<int>, i: nat)
    requires i < |values| && ParseIds(values[..i + 1], known).None?
    ensures ParseIds(values, known).None?
    decreases |values|
  {
    if i + 1 == |values| {
      assert values[..i + 1] == values;
    } else {
      assert values[..|values| - 1][..i + 1] == values[..i + 1];
      ParseFails(values[..|values| - 1], known, i);
    }
  }

  /** The CASE arms of the position statement. */
  method ChangedPositions(ordered: seq<int>, items: map<int, Item>) returns (positions: map<int, int>)
    requires forall id | id in ordered :: id in items
    ensures positions == Moves(ordered, items)
  {
    positions := map[];
    for i := 0 to |ordered|
      invariant positions == Moves(ordered[..i], items)
    {
      ghost var upto := ordered[..i + 1];
      assert upto[..|upto| - 1] == ordered[..i] && upto[|upto| - 1] == ordered[i];
      assert ordered[i] in ordered;
      if items[ordered[i]].position != i + 1 { positions := positions[ordered[i] := i + 1]; }
    }
    assert ordered[..|ordered|] == ordered;
  }

  class Store {
    var manuals: map<int, Manual>
    var items: map<int, Item>

    ghost function Contents(): Tables
      reads this
    {
      Tables(manuals, items)
    }

    /** SUM(size_bytes) over some rows, refused for a negative row or a sum outside int64. */
    method SumItemBytes(ids: set<int>) returns (bytes: Option<int>)
      requires forall id | id in ids :: id in items
      ensures bytes == RecordedBytes(items, ids)
    {
      var rest, sum, invalid := ids, 0, 0;
      while rest != {}
        invariant rest <= ids
        invariant Bytes(items, ids) == sum + Bytes(items, rest)
        invariant invalid == 0 <==> forall id | id in ids - rest :: items[id].size >= 0
        invariant invalid >= 0
        decreases |rest|
      {
        ghost var some := Pick(rest);
        var id :| id in rest;
        BytesSplit(items, rest, id);
        sum := sum + items[id].size;
        if items[id].size < 0 { invalid := invalid + 1; }
        assert ids - (rest - {id}) == (ids - rest) + {id};
        rest := rest - {id};
      }
      assert ids - rest == ids;
      if invalid != 0 || sum > MAX_INT64 { return None; }
      return Some(sum);
    }

    /** checkItemQuota. */
    method CheckItemQuota(lim: Limits, owner: int, m: int, addition: int) returns (error: Option<Error>)
      ensures error == ItemQuota(lim, Contents(), owner, m, addition)
    {
      if |ActiveIds(items, m)| >= lim.maxItems { return Some(RateLimited); }
      var manualBytes := SumItemBytes(RowsOf(items, m));
      var userBytes := SumItemBytes(OwnedRows(Tables(manuals, items), owner));
      if manualBytes.None? || userBytes.None? { return Some(Dependency); }
      if addition < 0 || manualBytes.value > MAX_INT64 - addition || userBytes.value > MAX_INT64 - addition { return Some(Dependency); }
      if manualBytes.value + addition > lim.maxManualBytes || userBytes.value + addition > lim.maxUserBytes { return Some(RateLimited); }
      return None;
    }

    method FindItemByRequestID(m: int, requestId: string) returns (found: Option<int>)
      requires UniqueRequests(items)
      ensures found == Existing(items, m, requestId)
    {
      var rest := items.Keys;
      while rest != {}
        invariant rest <= items.Keys
        invariant forall id | id in items.Keys - rest :: !FindsRequest(items, m, requestId, id)
        decreases |rest|
      {
        ghost var some := Pick(rest);
        var id :| id in rest;
        if items[id].manual == m && items[id].requestId == requestId {
          assert FindsRequest(items, m, requestId, id);
          return Some(id);
        }
        rest := rest - {id};
      }
      return None;
    }

    /** The conditional UPDATE: it matches only the expected owner and revision. */
    method UpdateManualFieldsCAS(owner: int, m: int, revision: int, row: Manual) returns (updated: bool)
      modifies `manuals
      ensures updated <==> old(m in manuals && manuals[m].owner == owner && manuals[m].revision == revision)
      ensures manuals == if updated then old(manuals)[m := row] else old(manuals)
    {
      updated := m in manuals && manuals[m].owner == owner && manuals[m].revision == revision;
      if updated { manuals := manuals[m := row]; }
    }

    method Refused(auth: Auth, owner: int, m: int) returns (refusal: Option<Error>)
      ensures refusal == Refusal(Contents(), auth, owner, m)
    {
      if !auth.policy { return Some(Denied); }
      if m !in manuals || manuals[m].owner != owner || manuals[m].status == Deleted { return Some(NotFound); }
      return None;
    }

    method AppendItem(lim: Limits, auth: Auth, owner: int, m: int, req: Request) returns (r: Outcome)
      requires UniqueRequests(items)
      modifies this
      ensures (Contents(), r) == Append(lim, old(Contents()), auth, owner, m, req)
    {
      var refusal := Refused(auth, owner, m);
      if refusal.Some? { return Err(refusal.value); }
      var existing := FindItemByRequestID(m, req.requestId);
      if existing.Some? {
        var row := items[existing.value];
        if row.deleted || row.hash != req.hash { return Err(Conflict); }
        return Ok(Replayed(existing.value, manuals[m].revision));
      }
      var quota := CheckItemQuota(lim, owner, m, req.size);
      if quota.Some? { return Err(quota.value); }
      var position := |ActiveIds(items, m)| + 1;
      if !auth.unexpired { return Err(Denied); }
      if req.id in items { return Err(Conflict); }
      var revision := manuals[m].revision;
      items := items[req.id := NewItem(m, position, req)];
      var updated := UpdateManualFieldsCAS(owner, m, revision, manuals[m].(revision := revision + 1));
      r := if updated then Ok(Stored(req.id, revision + 1)) else Err(Conflict);
    }

    /** The position UPDATE, which reports whether every named row changed. */
    method UpdateItemPositions(m: int, positions: map<int, int>) returns (updated: bool)
      modifies `items
      ensures updated <==> |Affected(old(items), m, positions)| == |positions|
      ensures items == Reposition(old(items), m, positions)
    {
      if |positions| == 0 {
        assert Affected(items, m, positions) == {};
        assert Reposition(items, m, positions) == items;
        return true;
      }
      updated := |Affected(items, m, positions)| == |positions|;
      items := Reposition(items, m, positions);
    }

    method UpdateManual(auth: Auth, owner: int, m: int, revision: int, p: Patch) returns (r: Outcome)
      modifies this
      ensures (Contents(), r) == Update(old(Contents()), auth, owner, m, revision, p)
    {
      if revision <= 0 || !HasPatch(p) { return Err(Invalid); }
      var refusal := Refused(auth, owner, m);
      if refusal.Some? { return Err(refusal.value); }
      if manuals[m].revision != revision { return Err(Conflict); }
      if !p.textValid { return Err(Invalid); }
      var before := items;
      var cover, status := manuals[m].cover, manuals[m].status;
      if p.order.Some? {
        var known := ActiveIds(items, m);
        var ordered := ParseCompleteItemOrder(p.order.value, known);
        if ordered.None? { return Err(Invalid); }
        ParsedIds(p.order.value, known);
        var positions := ChangedPositions(ordered.value, items);
        var moved := UpdateItemPositions(m, positions);
        if !moved { items := before; return Err(Conflict); }
      }
      if p.cover == Clear {
        cover := None;
      } else if p.cover.Choose? {
        if p.cover.id.None? || !IsActive(before, m, p.cover.id.value) { items := before; return Err(Invalid); }
        cover := p.cover.id;
      }
      if p.status.Some? {
        var parsed := p.status.value;
        if parsed.None? || parsed.value == Deleted || (parsed.value != status && !(status == Draft && parsed.value == Active)) {
          items := before;
          return Err(Invalid);
        }
        if parsed.value == Active && |ActiveIds(before, m)| == 0 { items := before; return Err(Unprocessable); }
        status := parsed.value;
      }
      if !auth.unexpired { items := before; return Err(Denied); }
      var updated := UpdateManualFieldsCAS(owner, m, revision, Manual(owner, status, cover, revision + 1));
      r := if updated then Ok(Changed(revision + 1, cover)) else Err(Conflict);
    }

    method DeleteManualItem(auth: Auth, owner: int, m: int, id: int, revision: int) returns (r: Outcome)
      modifies this
      ensures (Contents(), r) == DeleteItem(old(Contents()), auth, owner, m, id, revision)
    {
      if revision <= 0 { return Err(Invalid); }
      var refusal := Refused(auth, owner, m);
      if refusal.Some? { return Err(refusal.value); }
      if manuals[m].revision != revision { return Err(Conflict); }
      if !IsActive(items, m, id) { return Err(NotFound); }
      if manuals[m].status == Active && |ActiveIds(items, m)| == 1 { return Err(Unprocessable); }
      var before, position, cover := items, items[id].position, manuals[m].cover;
      items := items[id := items[id].(deleted := true)];
      items := Compact(items, m, position);
      if cover == Some(id) { cover := None; }
      if !auth.unexpired { items := before; return Err(Denied); }
      var updated := UpdateManualFieldsCAS(owner, m, revision, manuals[m].(cover := cover, revision := revision + 1));
      r := if updated then Ok(Changed(revision + 1, cover)) else Err(Conflict);
    }

    method DeleteManual(auth: Auth, owner: int, m: int, revision: int) returns (r: Outcome)
      modifies this
      ensures (Contents(), r) == Delete(old(Contents()), auth, owner, m, revision)
    {
      if revision <= 0 { return Err(Invalid); }
      var refusal := Refused(auth, owner, m);
      if refusal.Some? { return Err(refusal.value); }
      if manuals[m].revision != revision { return Err(Conflict); }
      if !auth.unexpired { return Err(Denied); }
      var cover := manuals[m].cover;
      var updated := UpdateManualFieldsCAS(owner, m, revision, manuals[m].(status := Deleted, revision := revision + 1));
      r := if updated then Ok(Changed(revision + 1, cover)) else Err(Conflict);
    }
  }
}
