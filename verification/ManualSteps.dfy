/**
 The transactions on manuals, their invariant over whole runs, and the byte budget.

 A rejected transaction rolls back, so it returns the tables it was given.
 Row locks make each transaction one step.
 */
module ManualSteps {
  import opened Common
  import opened Manuals

  /** The two authorisation checks: on entry, and again just before writing. */
  datatype Auth = Auth(policy: bool, unexpired: bool)

  datatype Request = Request(id: int, requestId: string, hash: string, size: int, kind: Kind, ready: bool, stored: bool)

  datatype CoverPatch = Keep | Clear | Choose(id: Option<int>)

  /** Absent fields are `None`; an id or status that does not parse is an inner `None`. */
  datatype Patch = Patch(text: bool, textValid: bool, status: Option<Option<Status>>, cover: CoverPatch,
                         order: Option<seq<Option<int>>>)

  datatype Reply =
    | Stored(item: int, revision: int)
    | Replayed(item: int, revision: int)
    | Changed(revision: int, cover: Option<int>)

  type Outcome = Result<Reply, Error>

  // ---------------------------------------------------------------- shared guards

  function Refusal(t: Tables, auth: Auth, owner: int, m: int): Option<Error> {
    if !auth.policy then Some(Denied)
    else if m !in t.manuals || t.manuals[m].owner != owner || t.manuals[m].status == Deleted then Some(NotFound)
    else None
  }

  ghost function Existing(items: map<int, Item>, m: int, requestId: string): (r: Option<int>)
    ensures r.Some? ==> FindsRequest(items, m, requestId, r.value)
    ensures r.None? ==> forall id :: !FindsRequest(items, m, requestId, id)
  {
    if exists id :: FindsRequest(items, m, requestId, id) then
      var id :| FindsRequest(items, m, requestId, id);
      Some(id)
    else None
  }

  // ---------------------------------------------------------------- append

  /** A recorded sum is refused when a row is negative or the sum leaves int64. */
  ghost function RecordedBytes(items: map<int, Item>, ids: set<int>): Option<int> {
    if (exists id :: id in ids && id in items && items[id].size < 0) || Bytes(items, ids) > MAX_INT64 then None
    else Some(Bytes(items, ids))
  }

  function QuotaError(lim: Limits, manualBytes: int, userBytes: int, addition: int): Option<Error> {
    if addition < 0 || manualBytes > MAX_INT64 - addition || userBytes > MAX_INT64 - addition then Some(Dependency)
    else if manualBytes + addition > lim.maxManualBytes || userBytes + addition > lim.maxUserBytes then Some(RateLimited)
    else None
  }

  ghost function ItemQuota(lim: Limits, t: Tables, owner: int, m: int, addition: int): Option<Error> {
    if |ActiveIds(t.items, m)| >= lim.maxItems then Some(RateLimited)
    else
      var manualBytes, userBytes := RecordedBytes(t.items, RowsOf(t.items, m)), RecordedBytes(t.items, OwnedRows(t, owner));
      if manualBytes.None? || userBytes.None? then Some(Dependency)
      else QuotaError(lim, manualBytes.value, userBytes.value, addition)
  }

  function NewItem(m: int, position: int, req: Request): Item {
    Item(m, position, false, req.requestId, req.hash, req.size, req.kind, req.ready, req.stored)
  }

  function Inserted(t: Tables, m: int, req: Request): Tables
    requires m in t.manuals
  {
    Tables(t.manuals[m := t.manuals[m].(revision := t.manuals[m].revision + 1)],
           t.items[req.id := NewItem(m, |ActiveIds(t.items, m)| + 1, req)])
  }

  ghost function Append(lim: Limits, t: Tables, auth: Auth, owner: int, m: int, req: Request): (Tables, Outcome) {
    var refusal := Refusal(t, auth, owner, m);
    if refusal.Some? then (t, Err(refusal.value))
    else
      var existing := Existing(t.items, m, req.requestId);
      if existing.Some? then
        var row := t.items[existing.value];
        if row.deleted || row.hash != req.hash then (t, Err(Conflict))
        else (t, Ok(Replayed(existing.value, t.manuals[m].revision)))
      else
        var quota := ItemQuota(lim, t, owner, m, req.size);
        if quota.Some? then (t, Err(quota.value))
        else if !auth.unexpired then (t, Err(Denied))
        else if req.id in t.items then (t, Err(Conflict))
        else (Inserted(t, m, req), Ok(Stored(req.id, t.manuals[m].revision + 1)))
  }

  // ---------------------------------------------------------------- patch

  predicate HasPatch(p: Patch) {
    p.text || p.status.Some? || p.cover != Keep || p.order.Some?
  }

  /** The order part of a patch: the items it leaves, or why it is rejected. */
  function Reordered(items: map<int, Item>, m: int, order: Option<seq<Option<int>>>): Result<map<int, Item>, Error> {
    if order.None? then Ok(items)
    else
      var known := ActiveIds(items, m);
      var parsed := ParseOrder(order.value, known);
      if parsed.None? then Err(Invalid)
      else
        ParsedIds(order.value, known);
        var moves := Moves(parsed.value, items);
        if |Affected(items, m, moves)| != |moves| then Err(Conflict) else Ok(Reposition(items, m, moves))
  }

  function NewCover(items: map<int, Item>, m: int, cover: Option<int>, patch: CoverPatch): Result<Option<int>, Error> {
    match patch
    case Keep => Ok(cover)
    case Clear => Ok(None)
    case Choose(id) => if id.Some? && IsActive(items, m, id.value) then Ok(id) else Err(Invalid)
  }

  function NewStatus(status: Status, patch: Option<Option<Status>>, items: nat): Result<Status, Error> {
    if patch.None? then Ok(status)
    else if patch.value.None? || patch.value.value == Deleted then Err(Invalid)
    else if patch.value.value != status && !(status == Draft && patch.value.value == Active) then Err(Invalid)
    else if patch.value.value == Active && items == 0 then Err(Unprocessable)
    else Ok(patch.value.value)
  }

  function Update(t: Tables, auth: Auth, owner: int, m: int, revision: int, p: Patch): (Tables, Outcome) {
    if revision <= 0 || !HasPatch(p) then (t, Err(Invalid))
    else
      var refusal := Refusal(t, auth, owner, m);
      if refusal.Some? then (t, Err(refusal.value))
      else if t.manuals[m].revision != revision then (t, Err(Conflict))
      else if !p.textValid then (t, Err(Invalid))
      else
        var items := Reordered(t.items, m, p.order);
        if items.Err? then (t, Err(items.error))
        else
          var cover := NewCover(t.items, m, t.manuals[m].cover, p.cover);
          if cover.Err? then (t, Err(cover.error))
          else
            var status := NewStatus(t.manuals[m].status, p.status, |ActiveIds(t.items, m)|);
            if status.Err? then (t, Err(status.error))
            else if !auth.unexpired then (t, Err(Denied))
            else (Tables(t.manuals[m := Manual(owner, status.value, cover.value, revision + 1)], items.value),
                  Ok(Changed(revision + 1, cover.value)))
  }

  // ---------------------------------------------------------------- delete

  function CoverAfter(cover: Option<int>, id: int): Option<int> {
    if cover == Some(id) then None else cover
  }

  function DeleteItem(t: Tables, auth: Auth, owner: int, m: int, id: int, revision: int): (Tables, Outcome) {
    if revision <= 0 then (t, Err(Invalid))
    else
      var refusal := Refusal(t, auth, owner, m);
      if refusal.Some? then (t, Err(refusal.value))
      else if t.manuals[m].revision != revision then (t, Err(Conflict))
      else if !IsActive(t.items, m, id) then (t, Err(NotFound))
      else if t.manuals[m].status == Active && |ActiveIds(t.items, m)| == 1 then (t, Err(Unprocessable))
      else if !auth.unexpired then (t, Err(Denied))
      else
        var cover := CoverAfter(t.manuals[m].cover, id);
        (Tables(t.manuals[m := t.manuals[m].(cover := cover, revision := revision + 1)],
                Compact(Remove(t.items, m, id), m, t.items[id].position)),
         Ok(Changed(revision + 1, cover)))
  }

  function Delete(t: Tables, auth: Auth, owner: int, m: int, revision: int): (Tables, Outcome) {
    if revision <= 0 then (t, Err(Invalid))
    else
      var refusal := Refusal(t, auth, owner, m);
      if refusal.Some? then (t, Err(refusal.value))
      else if t.manuals[m].revision != revision then (t, Err(Conflict))
      else if !auth.unexpired then (t, Err(Denied))
      else (Tables(t.manuals[m := t.manuals[m].(status := Deleted, revision := revision + 1)], t.items),
            Ok(Changed(revision + 1, t.manuals[m].cover)))
  }

  // ---------------------------------------------------------------- steps and runs

  datatype Step =
    | DoCreate(m: int, owner: int)
    | DoAppend(m: int, owner: int, auth: Auth, req: Request)
    | DoUpdate(m: int, owner: int, auth: Auth, revision: int, patch: Patch)
    | DoDeleteItem(m: int, owner: int, auth: Auth, id: int, revision: int)
    | DoDelete(m: int, owner: int, auth: Auth, revision: int)

  ghost function Apply(lim: Limits, t: Tables, s: Step): (Tables, Outcome) {
    match s
    case DoCreate(m, owner) =>
      if m in t.manuals then (t, Err(Conflict))
      else (Tables(t.manuals[m := Manual(owner, Draft, None, 1)], t.items), Ok(Changed(1, None)))
    case DoAppend(m, owner, auth, req) => Append(lim, t, auth, owner, m, req)
    case DoUpdate(m, owner, auth, revision, patch) => Update(t, auth, owner, m, revision, patch)
    case DoDeleteItem(m, owner, auth, id, revision) => DeleteItem(t, auth, owner, m, id, revision)
    case DoDelete(m, owner, auth, revision) => Delete(t, auth, owner, m, revision)
  }

  ghost function Run(lim: Limits, t: Tables, steps: seq<Step>): Tables {
    if steps == [] then t else Apply(lim, Run(lim, t, steps[..|steps| - 1]), steps[|steps| - 1]).0
  }

  // ---------------------------------------------------------------- what a step may touch

  /** Everything of an item row that no transaction rewrites. */
  predicate SameIdentity(a: Item, b: Item) {
    b == a.(position := b.position, deleted := b.deleted)
  }

  ghost predicate KeepsRows(a: map<int, Item>, b: map<int, Item>, m: int) {
    forall id | id in a :: id in b && SameIdentity(a[id], b[id]) && (a[id].deleted || a[id].manual != m ==> b[id] == a[id])
  }

  ghost predicate OtherManualsKept(t: Tables, t': Tables, m: int) {
    && (forall k | k in t.manuals :: k in t'.manuals && t'.manuals[k].owner == t.manuals[k].owner)
    && (forall k | k in t'.manuals && k != m :: k in t.manuals && t'.manuals[k] == t.manuals[k])
  }

  ghost predicate NewRowsIn(t: Tables, t': Tables, m: int) {
    forall id | id in t'.items && id !in t.items :: t'.items[id].manual == m && m in t'.manuals
  }

  ghost predicate Touches(t: Tables, t': Tables, m: int) {
    KeepsRows(t.items, t'.items, m) && OtherManualsKept(t, t', m) && NewRowsIn(t, t', m)
  }

  /** Nothing of the manual changed: neither its row nor any row of its items. */
  ghost predicate Untouched(t: Tables, t': Tables, m: int) {
    && m in t.manuals && m in t'.manuals && t'.manuals[m] == t.manuals[m]
    && RowsOf(t'.items, m) == RowsOf(t.items, m)
    && forall id | id in RowsOf(t.items, m) :: t'.items[id] == t.items[id]
  }

  ghost predicate Counted(t: Tables, applied: (Tables, Outcome), m: int)
    requires m in t.manuals && applied.1.Ok? && m in applied.0.manuals
  {
    var (t', reply) := (applied.0, applied.1.value);
    && t.manuals[m].status != Deleted && reply.revision == t'.manuals[m].revision
    && t'.manuals[m].revision == t.manuals[m].revision + if reply.Replayed? then 0 else 1
  }

  lemma CompactRows(items: map<int, Item>, m: int, id: int, position: int)
    ensures KeepsRows(items, Compact(Remove(items, m, id), m, position), m)
    ensures Compact(Remove(items, m, id), m, position).Keys == items.Keys
  {
  }

  lemma ReorderRows(items: map<int, Item>, m: int, order: Option<seq<Option<int>>>)
    requires Reordered(items, m, order).Ok?
    ensures KeepsRows(items, Reordered(items, m, order).value, m)
    ensures Reordered(items, m, order).value.Keys == items.Keys
  {
  }

  lemma NothingIsTouched(t: Tables, m: int)
    ensures Touches(t, t, m)
  {
  }

  lemma UpdateTouches(t: Tables, auth: Auth, owner: int, m: int, revision: int, p: Patch)
    ensures var (t', r) := Update(t, auth, owner, m, revision, p);
      Touches(t, t', m) && ((r.Ok? && r.value.Changed?) || (r.Err? && t' == t))
  {
    hide NewStatus, NewCover, ActiveIds, Reordered, HasPatch, KeepsRows;
    NothingIsTouched(t, m);
    if Reordered(t.items, m, p.order).Ok? { ReorderRows(t.items, m, p.order); }
  }

  lemma DeleteItemTouches(t: Tables, auth: Auth, owner: int, m: int, id: int, revision: int)
    ensures var (t', r) := DeleteItem(t, auth, owner, m, id, revision);
      Touches(t, t', m) && ((r.Ok? && r.value.Changed?) || (r.Err? && t' == t))
  {
    hide ActiveIds, Compact, Remove, KeepsRows;
    NothingIsTouched(t, m);
    if id in t.items { CompactRows(t.items, m, id, t.items[id].position); }
  }

  /** A step touches the rows of one manual only, and a rejected one or a replay touches nothing. */
  lemma StepTouches(lim: Limits, t: Tables, s: Step)
    ensures var (t', r) := Apply(lim, t, s); Touches(t, t', s.m) && (r.Err? || r.value.Replayed? ==> t' == t)
  {
    hide ItemQuota, Existing, ActiveIds, Update, DeleteItem, QuotaError;
    match s
    case DoUpdate(m, owner, auth, revision, patch) => UpdateTouches(t, auth, owner, m, revision, patch);
    case DoDeleteItem(m, owner, auth, id, revision) => DeleteItemTouches(t, auth, owner, m, id, revision);
    case DoAppend(_, _, _, _) =>
    case DoCreate(_, _) =>
    case DoDelete(_, _, _, _) =>
  }

  /** A success on a manual finds it not deleted and, unless a replay, raises its revision by exactly one. */
  lemma StepCounts(lim: Limits, t: Tables, s: Step)
    requires Apply(lim, t, s).1.Ok? && s.m in t.manuals
    ensures s.m in Apply(lim, t, s).0.manuals && Counted(t, Apply(lim, t, s), s.m)
  {
    hide ItemQuota, Reordered, NewCover, NewStatus, Compact, Remove, ActiveIds;
  }

  // ---------------------------------------------------------------- the invariant

  lemma OthersUntouched(t: Tables, t': Tables, m: int, k: int)
    requires Touches(t, t', m) && k in t.manuals && k != m
    ensures Untouched(t, t', k)
    ensures ActiveIds(t'.items, k) == ActiveIds(t.items, k)
    ensures ManualOk(t, k) ==> ManualOk(t', k)
  {
    forall id ensures id in RowsOf(t'.items, k) <==> id in RowsOf(t.items, k) {
    }
    forall id ensures IsActive(t'.items, k, id) <==> IsActive(t.items, k, id) {
    }
    assert ActiveIds(t'.items, k) == ActiveIds(t.items, k);
  }

  lemma AppendKeepsManual(t: Tables, m: int, req: Request)
    requires m in t.manuals && ManualOk(t, m) && req.id !in t.items
    ensures ManualOk(Inserted(t, m, req), m)
    ensures ActiveIds(Inserted(t, m, req).items, m) == ActiveIds(t.items, m) + {req.id}
  {
    var t' := Inserted(t, m, req);
    forall id ensures IsActive(t'.items, m, id) <==> IsActive(t.items, m, id) || id == req.id {
    }
    assert ActiveIds(t'.items, m) == ActiveIds(t.items, m) + {req.id};
    assert req.id !in ActiveIds(t.items, m);
  }

  lemma OrderKeepsManual(items: map<int, Item>, m: int, order: Option<seq<Option<int>>>)
    requires Positioned(items, m) && Reordered(items, m, order).Ok?
    ensures Positioned(Reordered(items, m, order).value, m)
    ensures ActiveIds(Reordered(items, m, order).value, m) == ActiveIds(items, m)
  {
    if order.Some? {
      OrderIsComplete(order.value, ActiveIds(items, m));
      var ids := ParseOrder(order.value, ActiveIds(items, m)).value;
      ReorderKeepsPositions(items, m, ids);
      ReorderPlaces(items, m, ids);
    }
  }

  /** The position statement always writes as many rows as it names. */
  lemma OrderNeverConflicts(items: map<int, Item>, m: int, order: Option<seq<Option<int>>>)
    ensures Reordered(items, m, order) != Err(Conflict)
    ensures Reordered(items, m, order).Ok? <==> order.Some? ==> ParseOrder(order.value, ActiveIds(items, m)).Some?
  {
    if order.Some? && ParseOrder(order.value, ActiveIds(items, m)).Some? {
      OrderIsComplete(order.value, ActiveIds(items, m));
      ReorderWritesOnlyMoves(items, m, ParseOrder(order.value, ActiveIds(items, m)).value);
    }
  }

  lemma UpdateKeepsManual(t: Tables, auth: Auth, owner: int, m: int, revision: int, p: Patch)
    requires m in t.manuals && ManualOk(t, m) && Update(t, auth, owner, m, revision, p).1.Ok?
    ensures var t' := Update(t, auth, owner, m, revision, p).0;
      ManualOk(t', m) && ActiveIds(t'.items, m) == ActiveIds(t.items, m)
  {
    OrderKeepsManual(t.items, m, p.order);
    var t' := Update(t, auth, owner, m, revision, p).0;
    forall id ensures IsActive(t'.items, m, id) <==> IsActive(t.items, m, id) {
      assert id in ActiveIds(t'.items, m) <==> id in ActiveIds(t.items, m);
    }
  }

  lemma OrderIsApplied(items: map<int, Item>, m: int, order: Option<seq<Option<int>>>)
    requires Reordered(items, m, order).Ok?
    ensures order.None? ==> Reordered(items, m, order).value == items
    ensures order.Some? ==> var items' := Reordered(items, m, order).value;
      |order.value| == |ActiveIds(items', m)| && forall i | 0 <= i < |order.value| ::
        order.value[i].Some? && IsActive(items', m, order.value[i].value) && items'[order.value[i].value].position == i + 1
  {
    if order.Some? {
      OrderIsComplete(order.value, ActiveIds(items, m));
      ParsedInOrder(order.value, ActiveIds(items, m));
      ReorderPlaces(items, m, ParseOrder(order.value, ActiveIds(items, m)).value);
    }
  }

  /** A committed patch puts the listed items in the listed order, and sets cover and status as asked. */
  lemma PatchIsApplied(t: Tables, auth: Auth, owner: int, m: int, revision: int, p: Patch)
    requires Update(t, auth, owner, m, revision, p).1.Ok?
    ensures var t' := Update(t, auth, owner, m, revision, p).0;
      && m in t'.manuals && t'.manuals[m].owner == t.manuals[m].owner
      && (p.order.Some? ==> |p.order.value| == |ActiveIds(t'.items, m)| && forall i | 0 <= i < |p.order.value| ::
            p.order.value[i].Some? && IsActive(t'.items, m, p.order.value[i].value) && t'.items[p.order.value[i].value].position == i + 1)
      && (p.order.None? ==> t'.items == t.items)
      && t'.manuals[m].cover == (if p.cover.Choose? then p.cover.id else if p.cover.Clear? then None else t.manuals[m].cover)
      && (p.cover.Choose? ==> p.cover.id.Some? && IsActive(t.items, m, p.cover.id.value))
      && Some(t'.manuals[m].status) == (if p.status.Some? then p.status.value else Some(t.manuals[m].status))
      && (t'.manuals[m].status != t.manuals[m].status ==> t.manuals[m].status == Draft && t'.manuals[m].status == Active)
  {
    hide Reordered, ActiveIds, HasPatch;
    assert Reordered(t.items, m, p.order).Ok?;
    OrderIsApplied(t.items, m, p.order);
  }

  lemma {:induction false} ParsedInOrder(values: seq<Option<int>>, known: set<int>)
    requires ParseIds(values, known).Some?
    ensures |ParseIds(values, known).value| == |values|
    ensures forall i | 0 <= i < |values| :: values[i] == Some(ParseIds(values, known).value[i])
  {
    if values != [] { ParsedInOrder(values[..|values| - 1], known); }
  }

  /** A stored append adds one active item at the end, with the request's content. */
  lemma AppendGoesLast(lim: Limits, t: Tables, auth: Auth, owner: int, m: int, req: Request)
    requires Append(lim, t, auth, owner, m, req).1.Ok? && Append(lim, t, auth, owner, m, req).1.value.Stored?
    ensures var t' := Append(lim, t, auth, owner, m, req).0;
      && req.id !in t.items && ActiveIds(t'.items, m) == ActiveIds(t.items, m) + {req.id}
      && req.id in t'.items && var row := t'.items[req.id];
      && row.manual == m && row.position == |ActiveIds(t'.items, m)| && !row.deleted && row.requestId == req.requestId && row.hash == req.hash
      && row.size == req.size && row.kind == req.kind && row.ready == req.ready && row.stored == req.stored
      && forall id | id in t.items :: id in t'.items && t'.items[id] == t.items[id]
  {
    var t' := Inserted(t, m, req);
    forall id ensures IsActive(t'.items, m, id) <==> IsActive(t.items, m, id) || id == req.id {
    }
    assert ActiveIds(t'.items, m) == ActiveIds(t.items, m) + {req.id};
    assert req.id !in ActiveIds(t.items, m);
  }

  lemma DeleteItemKeepsManual(t: Tables, auth: Auth, owner: int, m: int, id: int, revision: int)
    requires m in t.manuals && ManualOk(t, m) && DeleteItem(t, auth, owner, m, id, revision).1.Ok?
    ensures var t' := DeleteItem(t, auth, owner, m, id, revision).0;
      ManualOk(t', m) && ActiveIds(t'.items, m) == ActiveIds(t.items, m) - {id}
  {
    CompactionKeepsPositions(t.items, m, id);
    var t' := DeleteItem(t, auth, owner, m, id, revision).0;
    assert id in ActiveIds(t.items, m);
    forall k ensures IsActive(t'.items, m, k) <==> IsActive(t.items, m, k) && k != id {
      assert k in ActiveIds(t'.items, m) <==> k in ActiveIds(t.items, m) - {id};
    }
  }

  ghost predicate UniqueRequests(items: map<int, Item>) {
    forall a, b | a in items && b in items && items[a].manual == items[b].manual && items[a].requestId == items[b].requestId :: a == b
  }

  /** A new row answers to a request no row answered to. */
  lemma RequestsStayUnique(lim: Limits, t: Tables, s: Step)
    requires UniqueRequests(t.items)
    ensures UniqueRequests(Apply(lim, t, s).0.items)
  {
    StepTouches(lim, t, s);
    var t' := Apply(lim, t, s).0;
    if t'.items.Keys == t.items.Keys {
      forall a, b | a in t'.items && b in t'.items && t'.items[a].manual == t'.items[b].manual && t'.items[a].requestId == t'.items[b].requestId
        ensures a == b
      {
        assert SameIdentity(t.items[a], t'.items[a]) && SameIdentity(t.items[b], t'.items[b]);
      }
    } else {
      assert s.DoAppend?;
      forall id | id in t.items ensures !FindsRequest(t.items, s.m, s.req.requestId, id) {
        assert Existing(t.items, s.m, s.req.requestId).None?;
      }
    }
  }

  /** Which items the list of the step's manual holds afterwards. */
  function ActiveAfter(items: map<int, Item>, s: Step): set<int> {
    match s
    case DoCreate(_, _) => {}
    case DoAppend(m, _, _, req) => ActiveIds(items, m) + {req.id}
    case DoUpdate(m, _, _, _, _) => ActiveIds(items, m)
    case DoDeleteItem(m, _, _, id, _) => ActiveIds(items, m) - {id}
    case DoDelete(m, _, _, _) => ActiveIds(items, m)
  }

  lemma CreateKeepsManual(t: Tables, m: int, owner: int)
    requires Inv(t) && m !in t.manuals
    ensures ManualOk(Tables(t.manuals[m := Manual(owner, Draft, None, 1)], t.items), m) && ActiveIds(t.items, m) == {}
  {
    assert forall id :: !IsActive(t.items, m, id);
  }

  lemma DeleteKeepsManual(t: Tables, m: int)
    requires m in t.manuals && ManualOk(t, m)
    ensures ManualOk(Tables(t.manuals[m := t.manuals[m].(status := Deleted, revision := t.manuals[m].revision + 1)], t.items), m)
  {
  }

  lemma CommitKeepsManual(lim: Limits, t: Tables, s: Step)
    requires Inv(t) && Apply(lim, t, s).1.Ok? && !Apply(lim, t, s).1.value.Replayed?
    ensures var t' := Apply(lim, t, s).0; s.m in t'.manuals && ManualOk(t', s.m) && ActiveIds(t'.items, s.m) == ActiveAfter(t.items, s)
  {
    hide ManualOk, ActiveIds, Reordered, NewCover, NewStatus, ItemQuota, Existing, Compact, Remove, IsActive;
    match s
    case DoUpdate(m, owner, auth, revision, patch) => UpdateKeepsManual(t, auth, owner, m, revision, patch);
    case DoDeleteItem(m, owner, auth, id, revision) => DeleteItemKeepsManual(t, auth, owner, m, id, revision);
    case DoAppend(m, _, _, req) => AppendKeepsManual(t, m, req);
    case DoCreate(m, owner) => CreateKeepsManual(t, m, owner);
    case DoDelete(m, _, _, _) => DeleteKeepsManual(t, m);
  }

  lemma StepKeepsManuals(lim: Limits, t: Tables, s: Step)
    requires Inv(t)
    ensures forall k | k in Apply(lim, t, s).0.manuals :: ManualOk(Apply(lim, t, s).0, k)
  {
    StepTouches(lim, t, s);
    var (t', r) := Apply(lim, t, s);
    if r.Ok? && !r.value.Replayed? { CommitKeepsManual(lim, t, s); }
    hide Apply, ManualOk;
    forall k | k in t'.manuals ensures ManualOk(t', k) {
      if t' != t && k != s.m {
        OthersUntouched(t, t', s.m, k);
      }
    }
  }

  /** Every transaction keeps the invariant. */
  lemma StepKeepsInv(lim: Limits, t: Tables, s: Step)
    requires Inv(t)
    ensures Inv(Apply(lim, t, s).0)
  {
    StepKeepsManuals(lim, t, s);
    RequestsStayUnique(lim, t, s);
    StepTouches(lim, t, s);
    var t' := Apply(lim, t, s).0;
    forall id | id in t'.items ensures t'.items[id].manual in t'.manuals && t'.items[id].size >= 0 {
      if id in t.items { assert SameIdentity(t.items[id], t'.items[id]); }
    }
  }

  // ---------------------------------------------------------------- the byte budget

  lemma {:induction false} SumSplit(ids: set<int>, size: int -> int, x: int)
    requires x in ids
    ensures Sum(ids, size) == size(x) + Sum(ids - {x}, size)
    decreases |ids|
  {
    var id := Pick(ids);
    if id != x {
      var rest := ids - {id};
      SumSplit(rest, size, x);
      SumSplit(ids - {x}, size, id);
      assert rest - {x} == ids - {x} - {id};
    }
  }

  lemma {:induction false} SumSame(ids: set<int>, f: int -> int, g: int -> int)
    requires forall id | id in ids :: f(id) == g(id)
    ensures Sum(ids, f) == Sum(ids, g)
    decreases |ids|
  {
    if ids != {} {
      SumSame(ids - {Pick(ids)}, f, g);
    }
  }

  lemma BytesSplit(items: map<int, Item>, ids: set<int>, id: int)
    requires id in ids && id in items
    ensures Bytes(items, ids) == items[id].size + Bytes(items, ids - {id})
  {
    SumSplit(ids, k => if k in items then items[k].size else 0, id);
  }

  lemma BytesSame(a: map<int, Item>, b: map<int, Item>, ids: set<int>)
    requires forall id | id in ids :: id in a && id in b && a[id].size == b[id].size
    ensures Bytes(a, ids) == Bytes(b, ids)
  {
    SumSame(ids, id => if id in a then a[id].size else 0, id => if id in b then b[id].size else 0);
  }

  lemma BytesAdded(a: map<int, Item>, b: map<int, Item>, ids: set<int>, id: int)
    requires forall k | k in ids :: k in a && k in b && a[k].size == b[k].size
    requires id !in ids && id in b
    ensures Bytes(b, ids + {id}) == Bytes(a, ids) + b[id].size
  {
    SumSplit(ids + {id}, k => if k in b then b[k].size else 0, id);
    assert ids + {id} - {id} == ids;
    BytesSame(a, b, ids);
  }

  /** A step that inserts no item row leaves every recorded sum alone. */
  lemma SumsKept(t: Tables, t': Tables, m: int)
    requires Inv(t) && Touches(t, t', m) && t'.items.Keys == t.items.Keys
    ensures forall k :: Bytes(t'.items, RowsOf(t'.items, k)) == Bytes(t.items, RowsOf(t.items, k))
    ensures forall owner :: Bytes(t'.items, OwnedRows(t', owner)) == Bytes(t.items, OwnedRows(t, owner))
  {
    forall id | id in t.items ensures t'.items[id].manual == t.items[id].manual && t'.items[id].size == t.items[id].size {
      assert SameIdentity(t.items[id], t'.items[id]);
    }
    forall k ensures Bytes(t'.items, RowsOf(t'.items, k)) == Bytes(t.items, RowsOf(t.items, k)) {
      assert RowsOf(t'.items, k) == RowsOf(t.items, k);
      BytesSame(t'.items, t.items, RowsOf(t.items, k));
    }
    forall owner ensures Bytes(t'.items, OwnedRows(t', owner)) == Bytes(t.items, OwnedRows(t, owner)) {
      forall id ensures id in OwnedRows(t', owner) <==> id in OwnedRows(t, owner) {
        if id in t.items { assert t.items[id].manual in t.manuals; }
      }
      assert OwnedRows(t', owner) == OwnedRows(t, owner);
      BytesSame(t'.items, t.items, OwnedRows(t, owner));
    }
  }

  /** An append adds its size to the sums of its manual and its owner, and to no others. */
  lemma SumsAfterAppend(t: Tables, m: int, req: Request)
    requires m in t.manuals && req.id !in t.items
    ensures var t' := Inserted(t, m, req);
      forall k :: Bytes(t'.items, RowsOf(t'.items, k)) == Bytes(t.items, RowsOf(t.items, k)) + if k == m then req.size else 0
    ensures var t' := Inserted(t, m, req); forall owner ::
      Bytes(t'.items, OwnedRows(t', owner)) == Bytes(t.items, OwnedRows(t, owner)) + if owner == t.manuals[m].owner then req.size else 0
  {
    var t' := Inserted(t, m, req);
    forall k ensures Bytes(t'.items, RowsOf(t'.items, k)) == Bytes(t.items, RowsOf(t.items, k)) + if k == m then req.size else 0 {
      var rows := RowsOf(t.items, k);
      assert RowsOf(t'.items, k) == if k == m then rows + {req.id} else rows;
      if k == m { BytesAdded(t.items, t'.items, rows, req.id); } else { BytesSame(t.items, t'.items, rows); }
    }
    forall owner
      ensures Bytes(t'.items, OwnedRows(t', owner)) == Bytes(t.items, OwnedRows(t, owner)) + if owner == t.manuals[m].owner then req.size else 0
    {
      var rows := OwnedRows(t, owner);
      assert OwnedRows(t', owner) == if owner == t.manuals[m].owner then rows + {req.id} else rows;
      if owner == t.manuals[m].owner { BytesAdded(t.items, t'.items, rows, req.id); } else { BytesSame(t.items, t'.items, rows); }
    }
  }

  /** What the quota check promises of the sums after the insertion. */
  lemma QuotaBounds(lim: Limits, t: Tables, owner: int, m: int, addition: int)
    requires ItemQuota(lim, t, owner, m, addition).None?
    ensures addition >= 0 && |ActiveIds(t.items, m)| < lim.maxItems
    ensures Bytes(t.items, RowsOf(t.items, m)) + addition <= lim.maxManualBytes
    ensures Bytes(t.items, OwnedRows(t, owner)) + addition <= lim.maxUserBytes
  {
  }

  /** Only an append past the quota check inserts an item row. */
  lemma StepInserts(lim: Limits, t: Tables, s: Step)
    requires Apply(lim, t, s).0.items.Keys != t.items.Keys
    ensures s.DoAppend? && s.m in t.manuals && t.manuals[s.m].owner == s.owner && s.req.id !in t.items
    ensures Apply(lim, t, s).0 == Inserted(t, s.m, s.req) && ItemQuota(lim, t, s.owner, s.m, s.req.size).None?
  {
    hide ItemQuota, NewCover, NewStatus, ActiveIds, Existing;
  }

  lemma CommitsFindManual(lim: Limits, t: Tables, s: Step)
    requires Apply(lim, t, s).1.Ok? && !s.DoCreate?
    ensures s.m in t.manuals
  {
    hide ItemQuota, Existing, NewStatus, NewCover, ActiveIds, Reordered, Compact, Remove;
  }

  lemma StoredPassedQuota(lim: Limits, t: Tables, auth: Auth, owner: int, m: int, req: Request)
    requires Append(lim, t, auth, owner, m, req).1.Ok? && !Append(lim, t, auth, owner, m, req).1.value.Replayed?
    ensures |ActiveIds(t.items, m)| < lim.maxItems && req.id !in t.items
  {
  }

  lemma ActiveCountAfter(lim: Limits, t: Tables, s: Step, k: int)
    requires Inv(t) && WithinBudget(lim, t) && ValidLimits(lim) && k in Apply(lim, t, s).0.manuals
    ensures |ActiveIds(Apply(lim, t, s).0.items, k)| <= lim.maxItems
  {
    hide Append, Update, DeleteItem, Delete, ManualOk, ActiveIds, Bytes;
    StepTouches(lim, t, s);
    var (t', r) := Apply(lim, t, s);
    if r.Ok? && !r.value.Replayed? {
      if k != s.m {
        OthersUntouched(t, t', s.m, k);
      } else {
        CommitKeepsManual(lim, t, s);
        if s.DoAppend? { StoredPassedQuota(lim, t, s.auth, s.owner, s.m, s.req); }
        if s.DoDeleteItem? { SubsetCount(ActiveIds(t'.items, k), ActiveIds(t.items, k)); }
        if !s.DoCreate? { CommitsFindManual(lim, t, s); }
      }
    }
  }

  /** Recorded bytes, deleted rows included, never pass the budgets; active items never pass the count limit. */
  lemma StepKeepsBudget(lim: Limits, t: Tables, s: Step)
    requires Inv(t) && WithinBudget(lim, t) && ValidLimits(lim)
    ensures WithinBudget(lim, Apply(lim, t, s).0)
  {
    StepTouches(lim, t, s);
    var (t', r) := Apply(lim, t, s);
    forall k | k in t'.manuals ensures |ActiveIds(t'.items, k)| <= lim.maxItems { ActiveCountAfter(lim, t, s, k); }
    if t'.items.Keys == t.items.Keys {
      hide Apply, ActiveIds, Bytes, Touches;
      SumsKept(t, t', s.m);
    } else {
      StepInserts(lim, t, s);
      hide Apply, ActiveIds, Bytes, ItemQuota, Touches, Inserted;
      SumsAfterAppend(t, s.m, s.req);
      QuotaBounds(lim, t, s.owner, s.m, s.req.size);
    }
  }

  // ---------------------------------------------------------------- no overflow

  predicate Int64(x: int) { -MAX_INT64 - 1 <= x <= MAX_INT64 }

  /** int64 arithmetic wraps around. */
  function Wrap(x: int): int {
    (x + MAX_INT64 + 1) % (2 * (MAX_INT64 + 1)) - MAX_INT64 - 1
  }

  function WrappedQuotaError(lim: Limits, manualBytes: int, userBytes: int, addition: int): Option<Error> {
    if addition < 0 || manualBytes > Wrap(MAX_INT64 - addition) || userBytes > Wrap(MAX_INT64 - addition) then Some(Dependency)
    else if Wrap(manualBytes + addition) > lim.maxManualBytes || Wrap(userBytes + addition) > lim.maxUserBytes then Some(RateLimited)
    else None
  }

  /** On int64 inputs the check never wraps, because a negative size is refused before anything is added to it. */
  lemma QuotaNeverOverflows(lim: Limits, manualBytes: int, userBytes: int, addition: int)
    requires Int64(manualBytes) && Int64(userBytes) && Int64(addition)
    ensures WrappedQuotaError(lim, manualBytes, userBytes, addition) == QuotaError(lim, manualBytes, userBytes, addition)
    ensures QuotaError(lim, manualBytes, userBytes, addition).None? ==>
      Int64(manualBytes + addition) && Int64(userBytes + addition)
  {
    if addition >= 0 {
      assert Wrap(MAX_INT64 - addition) == MAX_INT64 - addition;
    }
  }

  /** Within the budgets the overflow guard stays silent exactly for sizes that fit int64 on top of both full budgets:
      it is needed for negative sizes and for files larger than that, and for nothing else. */
  lemma OverflowGuardIsNeeded(lim: Limits, addition: int)
    requires ValidLimits(lim)
    ensures 0 <= addition <= MAX_INT64 - lim.maxManualBytes && addition <= MAX_INT64 - lim.maxUserBytes <==>
      forall manualBytes, userBytes | 0 <= manualBytes <= lim.maxManualBytes && 0 <= userBytes <= lim.maxUserBytes ::
        QuotaError(lim, manualBytes, userBytes, addition) != Some(Dependency)
  {
    if !(0 <= addition <= MAX_INT64 - lim.maxManualBytes && addition <= MAX_INT64 - lim.maxUserBytes) {
      assert QuotaError(lim, lim.maxManualBytes, lim.maxUserBytes, addition) == Some(Dependency);
    }
  }

  /** A step that changes anything of a manual, its row or a row of its items, raises its revision by exactly one. */
  lemma ChangeIsCounted(lim: Limits, t: Tables, s: Step, k: int)
    requires k in t.manuals
    ensures var t' := Apply(lim, t, s).0;
      Untouched(t, t', k) || (k in t'.manuals && t'.manuals[k].revision == t.manuals[k].revision + 1 && t.manuals[k].status != Deleted)
  {
    StepTouches(lim, t, s);
    var (t', r) := Apply(lim, t, s);
    if k != s.m { OthersUntouched(t, t', s.m, k); } else if r.Ok? { StepCounts(lim, t, s); }
  }

  // ---------------------------------------------------------------- whole runs

  lemma {:induction false} RunKeepsInv(lim: Limits, steps: seq<Step>)
    requires ValidLimits(lim)
    ensures var t := Run(lim, Tables(map[], map[]), steps); Inv(t) && WithinBudget(lim, t)
  {
    if steps == [] {
      assert forall owner :: OwnedRows(Tables(map[], map[]), owner) == {};
    } else {
      RunKeepsInv(lim, steps[..|steps| - 1]);
      var t := Run(lim, Tables(map[], map[]), steps[..|steps| - 1]);
      StepKeepsInv(lim, t, steps[|steps| - 1]);
      StepKeepsBudget(lim, t, steps[|steps| - 1]);
    }
  }

  /** Rows are never removed; a deleted item or a deleted manual never changes again. */
  ghost predicate Later(t: Tables, t': Tables) {
    && (forall m | m in t.manuals :: m in t'.manuals && t'.manuals[m].owner == t.manuals[m].owner
          && t'.manuals[m].revision >= t.manuals[m].revision)
    && (forall m | m in t.manuals && t.manuals[m].status == Deleted :: Untouched(t, t', m))
    && (forall id | id in t.items :: id in t'.items && SameIdentity(t.items[id], t'.items[id]))
    && (forall id | id in t.items && t.items[id].deleted :: t'.items[id] == t.items[id])
  }

  lemma StepIsLater(lim: Limits, t: Tables, s: Step)
    ensures Later(t, Apply(lim, t, s).0)
  {
    StepTouches(lim, t, s);
    var (t', r) := Apply(lim, t, s);
    if r.Ok? && s.m in t.manuals { StepCounts(lim, t, s); }
    forall m | m in t.manuals && t.manuals[m].status == Deleted ensures Untouched(t, t', m) {
      if m != s.m { OthersUntouched(t, t', s.m, m); }
    }
  }

  /** In every run from any state, deleted manuals and items are final and revisions never go back. */
  lemma {:induction false} RunIsLater(lim: Limits, t: Tables, steps: seq<Step>)
    ensures Later(t, Run(lim, t, steps))
  {
    if steps != [] {
      RunIsLater(lim, t, steps[..|steps| - 1]);
      var mid := Run(lim, t, steps[..|steps| - 1]);
      StepIsLater(lim, mid, steps[|steps| - 1]);
    }
  }

  /** How many steps of the run committed a change of the manual. */
  ghost function Commits(lim: Limits, t: Tables, steps: seq<Step>, m: int): nat {
    if steps == [] then 0 else
      var front, s := steps[..|steps| - 1], steps[|steps| - 1];
      var r := Apply(lim, Run(lim, t, front), s).1;
      Commits(lim, t, front, m) + if s.m == m && r.Ok? && !r.value.Replayed? then 1 else 0
  }

  /** The revision counts the committed changes, no more and no fewer. */
  lemma {:induction false} RevisionCountsCommits(lim: Limits, t: Tables, steps: seq<Step>, m: int)
    requires m in t.manuals
    ensures m in Run(lim, t, steps).manuals
    ensures Run(lim, t, steps).manuals[m].revision == t.manuals[m].revision + Commits(lim, t, steps, m)
  {
    if steps != [] {
      var front, s := steps[..|steps| - 1], steps[|steps| - 1];
      RevisionCountsCommits(lim, t, front, m);
      var mid := Run(lim, t, front);
      StepTouches(lim, mid, s);
      if s.m == m && Apply(lim, mid, s).1.Ok? { StepCounts(lim, mid, s); }
    }
  }

  /** After an append committed, repeating the request at any later time changes nothing; it returns the same row
      while that row and the manual still exist, and is refused otherwise. */
  lemma AppendHappensOnce(lim: Limits, t: Tables, auth: Auth, owner: int, m: int, req: Request, steps: seq<Step>,
                          again: Request, auth': Auth)
    requires Inv(t) && Append(lim, t, auth, owner, m, req).1.Ok?
    requires again == req.(id := again.id)
    ensures var (t', r) := Append(lim, t, auth, owner, m, req);
      var later := Run(lim, t', steps);
      var (end, reply) := Append(lim, later, auth', owner, m, again);
      end == later && m in later.manuals && r.value.item in later.items && ReplayOf(later, auth', m, r.value.item, reply)
  {
    hide Run, ItemQuota, ActiveIds, ManualOk, QuotaError;
    var s := DoAppend(m, owner, auth, req);
    var (t', r) := Append(lim, t, auth, owner, m, req);
    StepKeepsInv(lim, t, s);
    var id := r.value.item;
    assert FindsRequest(t'.items, m, req.requestId, id);
    RunIsLater(lim, t', steps);
    RunKeepsInvFrom(lim, t', steps);
    var later := Run(lim, t', steps);
    assert SameIdentity(t'.items[id], later.items[id]);
    assert FindsRequest(later.items, m, req.requestId, id);
    assert Existing(later.items, m, req.requestId) == Some(id);
  }

  ghost predicate ReplayOf(t: Tables, auth: Auth, m: int, id: int, reply: Outcome)
    requires m in t.manuals && id in t.items
  {
    reply ==
      if !auth.policy then Err(Denied)
      else if t.manuals[m].status == Deleted then Err(NotFound)
      else if t.items[id].deleted then Err(Conflict)
      else Ok(Replayed(id, t.manuals[m].revision))
  }

  lemma {:induction false} RunKeepsInvFrom(lim: Limits, t: Tables, steps: seq<Step>)
    requires Inv(t)
    ensures Inv(Run(lim, t, steps))
  {
    if steps != [] {
      RunKeepsInvFrom(lim, t, steps[..|steps| - 1]);
      StepKeepsInv(lim, Run(lim, t, steps[..|steps| - 1]), steps[|steps| - 1]);
    }
  }
}
