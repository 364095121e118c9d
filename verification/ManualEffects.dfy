/**
 When each transaction on a manual succeeds and what it leaves of every row, and what deleting a manual means for
 all later ones (app/manuals/items.go, app/manuals/update.go).
 */
module ManualEffects {
  import opened Common
  import opened Manuals
  import opened ManualSteps

  /** Both policy checks pass and the owner's manual exists and is not deleted. */
  predicate MayWrite(t: Tables, auth: Auth, owner: int, m: int) {
    auth.policy && auth.unexpired && m in t.manuals && t.manuals[m].owner == owner && t.manuals[m].status != Deleted
  }

  /** ... at exactly the revision the request names. */
  predicate MayChange(t: Tables, auth: Auth, owner: int, m: int, revision: int) {
    MayWrite(t, auth, owner, m) && revision > 0 && t.manuals[m].revision == revision
  }

  /** Only the row of manual m differs. */
  ghost predicate OnlyManual(t: Tables, t': Tables, m: int) {
    m in t.manuals && m in t'.manuals && t'.manuals == t.manuals[m := t'.manuals[m]]
  }

  // ---------------------------------------------------------------- deleting a manual

  /** A deletion succeeds exactly for the owner at the current revision; it sets the status, counts one revision and
      keeps cover, items and everything else. */
  lemma DeleteDecides(t: Tables, auth: Auth, owner: int, m: int, revision: int)
    ensures var (t', r) := Delete(t, auth, owner, m, revision);
      && (r.Ok? <==> MayChange(t, auth, owner, m, revision))
      && (r.Err? ==> t' == t)
      && (r.Ok? ==>
            && OnlyManual(t, t', m) && t'.items == t.items && t'.manuals[m].status == Deleted
            && t'.manuals[m].owner == owner && t'.manuals[m].cover == t.manuals[m].cover && t'.manuals[m].revision == revision + 1)
  {
  }

  /** Whatever happens after a deletion, every transaction on that manual is refused and changes nothing. */
  lemma DeletedIsFinal(lim: Limits, t: Tables, auth: Auth, owner: int, m: int, revision: int, steps: seq<Step>, s: Step)
    requires Delete(t, auth, owner, m, revision).1.Ok? && s.m == m
    ensures var t' := Delete(t, auth, owner, m, revision).0; var later := Run(lim, t', steps);
      && Untouched(t', later, m) && later.manuals[m].status == Deleted
      && Apply(lim, later, s).1.Err? && Apply(lim, later, s).0 == later
  {
    var t' := Delete(t, auth, owner, m, revision).0;
    RunIsLater(lim, t', steps);
    hide Run, ItemQuota, Existing, Reordered, NewCover, NewStatus, Compact, Remove, ActiveIds;
  }

  // ---------------------------------------------------------------- deleting an item

  /** What the deletion of item `id` makes of item row k. */
  function AfterDeletion(items: map<int, Item>, m: int, id: int, k: int): Item
    requires k in items && id in items
  {
    if k == id then items[k].(deleted := true)
    else if items[k].manual == m && !items[k].deleted && items[k].position > items[id].position
    then items[k].(position := items[k].position - 1)
    else items[k]
  }

  /** An item is deleted exactly when the owner asks at the current revision, the item is there, and it is not the last one
      of an active manual; later items move up by one, and the cover is cleared only when it was this item. */
  lemma DeleteItemDecides(t: Tables, auth: Auth, owner: int, m: int, id: int, revision: int)
    ensures var (t', r) := DeleteItem(t, auth, owner, m, id, revision);
      && (r.Ok? <==> MayChange(t, auth, owner, m, revision) && IsActive(t.items, m, id)
                     && (t.manuals[m].status == Active ==> |ActiveIds(t.items, m)| != 1))
      && (r.Err? ==> t' == t)
      && (r.Ok? ==>
            && OnlyManual(t, t', m) && t'.items.Keys == t.items.Keys && (forall k | k in t.items :: t'.items[k] == AfterDeletion(t.items, m, id, k))
            && t'.manuals[m].owner == owner && t'.manuals[m].status == t.manuals[m].status && t'.manuals[m].revision == revision + 1
            && t'.manuals[m].cover == if t.manuals[m].cover == Some(id) then None else t.manuals[m].cover)
  {
    hide ActiveIds;
  }

  // ---------------------------------------------------------------- patch

  /** The list names every active item of the manual exactly once. */
  predicate ListsAll(items: map<int, Item>, m: int, order: seq<Option<int>>) {
    && |order| == |ActiveIds(items, m)|
    && (forall i | 0 <= i < |order| :: order[i].Some? && order[i].value in ActiveIds(items, m))
    && forall i, j | 0 <= i < j < |order| :: order[i] != order[j]
  }

  predicate StatusAllowed(was: Status, patch: Option<Option<Status>>, items: nat) {
    patch.Some? ==>
      && patch.value.Some? && patch.value.value != Deleted && (patch.value.value == was || (was == Draft && patch.value.value == Active))
      && (patch.value.value == Active ==> items > 0)
  }

  lemma {:induction false} IdsParse(values: seq<Option<int>>, known: set<int>)
    ensures ParseIds(values, known).Some? <==>
      (forall i | 0 <= i < |values| :: values[i].Some? && values[i].value in known) && forall i, j | 0 <= i < j < |values| :: values[i] != values[j]
    ensures ParseIds(values, known).Some? ==>
      |ParseIds(values, known).value| == |values| && forall i | 0 <= i < |values| :: values[i] == Some(ParseIds(values, known).value[i])
  {
    if values != [] {
      var front, last := values[..|values| - 1], values[|values| - 1];
      IdsParse(front, known);
      assert forall i | 0 <= i < |front| :: front[i] == values[i];
    }
  }

  /** A patch succeeds exactly when it asks for something, the owner names the current revision, and each part it has is
      acceptable: valid text, every active item listed once, an active item as cover, an allowed status. */
  lemma UpdateDecides(t: Tables, auth: Auth, owner: int, m: int, revision: int, p: Patch)
    ensures var (t', r) := Update(t, auth, owner, m, revision, p);
      && (r.Ok? <==>
            && (p.text || p.status.Some? || p.cover != Keep || p.order.Some?) && MayChange(t, auth, owner, m, revision) && p.textValid
            && (p.order.Some? ==> ListsAll(t.items, m, p.order.value))
            && (p.cover.Choose? ==> p.cover.id.Some? && IsActive(t.items, m, p.cover.id.value))
            && StatusAllowed(t.manuals[m].status, p.status, |ActiveIds(t.items, m)|))
      && (r.Err? ==> t' == t)
      && (r.Ok? ==> OnlyManual(t, t', m) && t'.manuals[m].owner == owner && t'.manuals[m].revision == revision + 1)
  {
    OrderNeverConflicts(t.items, m, p.order);
    if p.order.Some? { IdsParse(p.order.value, ActiveIds(t.items, m)); }
    assert p.order.Some? ==> (Reordered(t.items, m, p.order).Ok? <==> ListsAll(t.items, m, p.order.value));
    hide Reordered, ParseOrder, ActiveIds;
  }

  // ---------------------------------------------------------------- append

  /** The new item fits the number of items and both byte budgets. */
  ghost predicate Fits(lim: Limits, t: Tables, owner: int, m: int, size: int) {
    && |ActiveIds(t.items, m)| < lim.maxItems && size >= 0
    && Bytes(t.items, RowsOf(t.items, m)) + size <= lim.maxManualBytes && Bytes(t.items, OwnedRows(t, owner)) + size <= lim.maxUserBytes
  }

  lemma {:induction false} BytesAreNatural(items: map<int, Item>, ids: set<int>)
    requires forall id | id in items :: items[id].size >= 0
    ensures Bytes(items, ids) >= 0
    decreases |ids|
  {
    SumIsNatural(ids, id => if id in items then items[id].size else 0);
  }

  lemma {:induction false} SumIsNatural(ids: set<int>, size: int -> int)
    requires forall id :: size(id) >= 0
    ensures Sum(ids, size) >= 0
    decreases |ids|
  {
    if ids != {} { SumIsNatural(ids - {Pick(ids)}, size); }
  }

  /** Within the budgets the quota check refuses exactly what does not fit. */
  lemma QuotaDecides(lim: Limits, t: Tables, owner: int, m: int, size: int)
    requires Inv(t) && WithinBudget(lim, t) && ValidLimits(lim) && m in t.manuals
    ensures ItemQuota(lim, t, owner, m, size).None? <==> Fits(lim, t, owner, m, size)
  {
    BytesAreNatural(t.items, RowsOf(t.items, m));
    BytesAreNatural(t.items, OwnedRows(t, owner));
    hide Bytes, ActiveIds, RowsOf, OwnedRows;
  }

  /** An append stores a new item exactly when the manual may be written, the request is new and the item fits; it replays
      exactly when the request's row is there, not deleted and of the same content. A stored append leaves the manual's cover
      and status alone. */
  lemma AppendDecides(lim: Limits, t: Tables, auth: Auth, owner: int, m: int, req: Request)
    requires Inv(t) && WithinBudget(lim, t) && ValidLimits(lim)
    ensures var (t', r) := Append(lim, t, auth, owner, m, req);
      var known := m in t.manuals && t.manuals[m].owner == owner && t.manuals[m].status != Deleted && auth.policy;
      && (r.Ok? && r.value.Stored? <==>
            known && auth.unexpired && (forall id :: !FindsRequest(t.items, m, req.requestId, id)) && Fits(lim, t, owner, m, req.size) && req.id !in t.items)
      && (r.Ok? && r.value.Replayed? <==>
            known && exists id :: FindsRequest(t.items, m, req.requestId, id) && !t.items[id].deleted && t.items[id].hash == req.hash)
      && (r.Ok? && r.value.Replayed? ==> FindsRequest(t.items, m, req.requestId, r.value.item) && t' == t)
      && (r.Ok? && r.value.Stored? ==>
            && OnlyManual(t, t', m) && r.value == Stored(req.id, t.manuals[m].revision + 1)
            && t'.manuals[m] == t.manuals[m].(revision := t.manuals[m].revision + 1))
      && (r.Err? ==> t' == t)
  {
    if m in t.manuals { QuotaDecides(lim, t, owner, m, req.size); }
    var existing := Existing(t.items, m, req.requestId);
    if existing.Some? {
      forall id | FindsRequest(t.items, m, req.requestId, id) ensures id == existing.value { }
    }
    hide ItemQuota, Fits, WithinBudget, ValidLimits, ManualOk, ActiveIds, Existing;
  }

  // ---------------------------------------------------------------- refusals

  /** The manual is there for this owner. */
  predicate Known(t: Tables, auth: Auth, owner: int, m: int) {
    auth.policy && m in t.manuals && t.manuals[m].owner == owner && t.manuals[m].status != Deleted
  }

  /** All four transactions refuse alike: a denied policy first, then a manual that is not there, is another's or is deleted,
      which look the same; after that a stale revision is a conflict. */
  lemma RefusalsAreAlike(lim: Limits, t: Tables, auth: Auth, owner: int, m: int, revision: int, id: int, p: Patch, req: Request)
    requires revision > 0 && HasPatch(p)
    ensures var changes := {Update(t, auth, owner, m, revision, p).1, DeleteItem(t, auth, owner, m, id, revision).1, Delete(t, auth, owner, m, revision).1};
      var all := changes + {Append(lim, t, auth, owner, m, req).1};
      && (!auth.policy ==> all == {Err(Denied)})
      && (auth.policy && !Known(t, auth, owner, m) ==> all == {Err(NotFound)})
      && (Known(t, auth, owner, m) && t.manuals[m].revision != revision ==> changes == {Err(Conflict)})
  {
    hide ActiveIds, Existing, ItemQuota, Reordered, NewCover, NewStatus, HasPatch;
  }

  /** Why an item of a known manual at its revision is not deleted. */
  lemma ItemRefusals(t: Tables, auth: Auth, owner: int, m: int, id: int, revision: int)
    requires Known(t, auth, owner, m) && revision > 0 && t.manuals[m].revision == revision
    ensures DeleteItem(t, auth, owner, m, id, revision).1 == Err(NotFound) <==> !IsActive(t.items, m, id)
    ensures DeleteItem(t, auth, owner, m, id, revision).1 == Err(Unprocessable) <==>
      IsActive(t.items, m, id) && t.manuals[m].status == Active && |ActiveIds(t.items, m)| == 1
  {
    hide ActiveIds, Compact, Remove;
  }

  /** Why an append to a known manual is refused: its request is on record deleted or with other content, or it is new and
      does not fit; a size no int64 budget can hold is a failed dependency instead. */
  lemma AppendRefusals(lim: Limits, t: Tables, auth: Auth, owner: int, m: int, req: Request)
    requires Inv(t) && WithinBudget(lim, t) && ValidLimits(lim) && Known(t, auth, owner, m)
    ensures var r := Append(lim, t, auth, owner, m, req).1;
      && (forall id | FindsRequest(t.items, m, req.requestId, id) :: r == Err(Conflict) <==> t.items[id].deleted || t.items[id].hash != req.hash)
      && ((forall id :: !FindsRequest(t.items, m, req.requestId, id)) && |ActiveIds(t.items, m)| < lim.maxItems && req.size >= 0 ==>
            (r == Err(Dependency) <==> Bytes(t.items, RowsOf(t.items, m)) + req.size > MAX_INT64 || Bytes(t.items, OwnedRows(t, owner)) + req.size > MAX_INT64))
      && ((forall id :: !FindsRequest(t.items, m, req.requestId, id)) && !Fits(lim, t, owner, m, req.size) && req.size >= 0 ==>
            r == Err(RateLimited) || r == Err(Dependency))
  {
    BytesAreNatural(t.items, RowsOf(t.items, m));
    BytesAreNatural(t.items, OwnedRows(t, owner));
    var existing := Existing(t.items, m, req.requestId);
    if existing.Some? {
      forall id | FindsRequest(t.items, m, req.requestId, id) ensures id == existing.value { }
    }
    hide Bytes, ActiveIds, RowsOf, OwnedRows, ManualOk, Existing;
  }
}
