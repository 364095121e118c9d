/**
 Manuals and their ordered items: append, patch with full reorder, delete with compaction
 (app/manuals/items.go, app/manuals/update.go, domain/dal/manual.go).

 Each transaction is one step on the two tables; primary keys are the keys of the maps, and
 deleted items stay as rows. The write-policy checks are one boolean, field validation another.
 */
module Manuals {
  import opened Common

  const MAX_INT64 := 0x7fff_ffff_ffff_ffff

  datatype Status = Draft | Active | Deleted

  datatype Kind = Image | Pdf | Text | Url

  datatype Manual = Manual(owner: int, status: Status, cover: Option<int>, revision: int)

  datatype Item = Item(manual: int, position: int, deleted: bool, requestId: string, hash: string, size: int,
                       kind: Kind, ready: bool, stored: bool)

  datatype Tables = Tables(manuals: map<int, Manual>, items: map<int, Item>)

  datatype Limits = Limits(maxItems: int, maxManualBytes: int, maxUserBytes: int)

  datatype Error = Invalid | Denied | NotFound | Conflict | RateLimited | Unprocessable | Dependency

  // ---------------------------------------------------------------- queries

  predicate IsActive(items: map<int, Item>, m: int, id: int) {
    id in items && items[id].manual == m && !items[id].deleted
  }

  /** The rows ListManualItems and CountActiveManualItems see. */
  function ActiveIds(items: map<int, Item>, m: int): set<int> {
    set id | id in items && IsActive(items, m, id)
  }

  function RowsOf(items: map<int, Item>, m: int): set<int> {
    set id | id in items && items[id].manual == m
  }

  function OwnedRows(t: Tables, owner: int): set<int> {
    set id | id in t.items && t.items[id].manual in t.manuals && t.manuals[t.items[id].manual].owner == owner
  }

  /** SUM over a set of rows. */
  ghost function Sum(ids: set<int>, size: int -> int): int {
    if ids == {} then 0 else
      var id := Pick(ids);
      size(id) + Sum(ids - {id}, size)
  }

  ghost function Bytes(items: map<int, Item>, ids: set<int>): int {
    Sum(ids, id => if id in items then items[id].size else 0)
  }

  ghost predicate FindsRequest(items: map<int, Item>, m: int, requestId: string, id: int) {
    id in items && items[id].manual == m && items[id].requestId == requestId
  }

  // ---------------------------------------------------------------- table updates

  /** UPDATE ... SET position = CASE id ... on the active rows of the manual. */
  function Reposition(items: map<int, Item>, m: int, positions: map<int, int>): map<int, Item> {
    map id | id in items :: if id in positions && IsActive(items, m, id) then items[id].(position := positions[id]) else items[id]
  }

  /** The rows MySQL reports as affected: matched and really changed. */
  function Affected(items: map<int, Item>, m: int, positions: map<int, int>): set<int> {
    set id | id in items && id in positions && IsActive(items, m, id) && items[id].position != positions[id]
  }

  function Remove(items: map<int, Item>, m: int, id: int): map<int, Item> {
    if IsActive(items, m, id) then items[id := items[id].(deleted := true)] else items
  }

  /** Closes the gap a deleted position leaves. */
  function Compact(items: map<int, Item>, m: int, removed: int): map<int, Item> {
    map id | id in items ::
      if IsActive(items, m, id) && items[id].position > removed then items[id].(position := items[id].position - 1) else items[id]
  }

  // ---------------------------------------------------------------- invariant

  /** The positions of a manual's active items are 1..n, one each. */
  ghost predicate Positioned(items: map<int, Item>, m: int) {
    && (forall id {:trigger IsActive(items, m, id)} | IsActive(items, m, id) :: 1 <= items[id].position <= |ActiveIds(items, m)|)
    && (forall a, b {:trigger IsActive(items, m, a), IsActive(items, m, b)} |
          IsActive(items, m, a) && IsActive(items, m, b) && items[a].position == items[b].position :: a == b)
  }

  ghost predicate ManualOk(t: Tables, m: int)
    requires m in t.manuals
  {
    && Positioned(t.items, m)
    && (t.manuals[m].cover.Some? ==> IsActive(t.items, m, t.manuals[m].cover.value))
    && (t.manuals[m].status == Active ==> |ActiveIds(t.items, m)| >= 1)
  }

  ghost predicate Inv(t: Tables) {
    && (forall m | m in t.manuals :: ManualOk(t, m))
    && (forall id | id in t.items :: t.items[id].manual in t.manuals && t.items[id].size >= 0)
    && (forall a, b | a in t.items && b in t.items && t.items[a].manual == t.items[b].manual
          && t.items[a].requestId == t.items[b].requestId :: a == b)
  }

  ghost predicate WithinBudget(lim: Limits, t: Tables) {
    && (forall m | m in t.manuals :: |ActiveIds(t.items, m)| <= lim.maxItems && Bytes(t.items, RowsOf(t.items, m)) <= lim.maxManualBytes)
    && (forall owner :: Bytes(t.items, OwnedRows(t, owner)) <= lim.maxUserBytes)
  }

  ghost predicate ValidLimits(lim: Limits) {
    0 <= lim.maxItems && 0 <= lim.maxManualBytes <= MAX_INT64 && 0 <= lim.maxUserBytes <= MAX_INT64
  }

  // ---------------------------------------------------------------- positions 1..n

  function Range(n: nat): (r: set<int>)
    ensures |r| == n
    ensures forall p :: p in r <==> 1 <= p <= n
  {
    if n == 0 then {} else Range(n - 1) + {n}
  }

  function PositionsTaken(items: map<int, Item>, ids: set<int>): set<int> {
    set id | id in ids && id in items :: items[id].position
  }

  lemma {:induction false} DistinctPositions(items: map<int, Item>, ids: set<int>)
    requires forall id | id in ids :: id in items
    requires forall a, b | a in ids && b in ids && items[a].position == items[b].position :: a == b
    ensures |PositionsTaken(items, ids)| == |ids|
  {
    if ids == {} {
      assert PositionsTaken(items, ids) == {};
    } else {
      var id := Pick(ids);
      var rest := ids - {id};
      DistinctPositions(items, rest);
      assert PositionsTaken(items, ids) == PositionsTaken(items, rest) + {items[id].position};
      assert items[id].position !in PositionsTaken(items, rest);
    }
  }

  /** By pigeonhole every position from 1 to n is taken, by exactly one active item. */
  lemma EveryPositionTaken(items: map<int, Item>, m: int, p: int)
    requires Positioned(items, m) && 1 <= p <= |ActiveIds(items, m)|
    ensures exists id :: IsActive(items, m, id) && items[id].position == p
    ensures forall a, b | IsActive(items, m, a) && IsActive(items, m, b) && items[a].position == items[b].position == p :: a == b
  {
    var ids := ActiveIds(items, m);
    forall a, b | a in ids && b in ids && items[a].position == items[b].position ensures a == b {
      assert IsActive(items, m, a) && IsActive(items, m, b);
    }
    DistinctPositions(items, ids);
    var taken := PositionsTaken(items, ids);
    forall q | q in taken ensures q in Range(|ids|) {
      var id :| id in ids && items[id].position == q;
      assert IsActive(items, m, id);
    }
    SubsetCount(taken, Range(|ids|));
    assert p in taken;
  }

  // ---------------------------------------------------------------- reorder

  /** parseCompleteItemOrder: as many ids as active items, each parsed, known and new. */
  function ParseOrder(values: seq<Option<int>>, known: set<int>): Option<seq<int>> {
    if |values| != |known| then None else ParseIds(values, known)
  }

  function ParseIds(values: seq<Option<int>>, known: set<int>): Option<seq<int>> {
    if values == [] then Some([])
    else
      var last := values[|values| - 1];
      var front := ParseIds(values[..|values| - 1], known);
      if front.None? || last.None? || last.value in front.value || last.value !in known then None
      else Some(front.value + [last.value])
  }

  /** The CASE arms: only rows whose position changes. */
  function Moves(ordered: seq<int>, items: map<int, Item>): map<int, int>
    requires forall id | id in ordered :: id in items
  {
    if ordered == [] then map[]
    else
      var id, p := ordered[|ordered| - 1], Moves(ordered[..|ordered| - 1], items);
      if items[id].position != |ordered| then p[id := |ordered|] else p
  }

  lemma {:induction false} ParsedIds(values: seq<Option<int>>, known: set<int>)
    requires ParseIds(values, known).Some?
    ensures var ids := ParseIds(values, known).value; |ids| == |values| && Distinct(ids) && (forall id | id in ids :: id in known)
  {
    if values != [] { ParsedIds(values[..|values| - 1], known); }
  }

  /** A same-length list of distinct known ids is a permutation of them. */
  lemma OrderIsComplete(values: seq<Option<int>>, known: set<int>)
    requires ParseOrder(values, known).Some?
    ensures var ids := ParseOrder(values, known).value; Distinct(ids) && Elements(ids) == known && |ids| == |known|
  {
    ParsedIds(values, known);
    var ids := ParseOrder(values, known).value;
    DistinctCount(ids);
    SubsetCount(Elements(ids), known);
  }

  predicate MovesTo(ordered: seq<int>, items: map<int, Item>, i: nat)
    requires i < |ordered| && forall id | id in ordered :: id in items
  {
    var id, moves := ordered[i], Moves(ordered, items);
    if items[id].position == i + 1 then id !in moves else id in moves && moves[id] == i + 1
  }

  lemma {:induction false} MovesExactly(ordered: seq<int>, items: map<int, Item>)
    requires Distinct(ordered) && forall id | id in ordered :: id in items
    ensures forall i | 0 <= i < |ordered| :: MovesTo(ordered, items, i)
    ensures forall id | id in Moves(ordered, items) :: id in ordered
  {
    if ordered != [] {
      var front := ordered[..|ordered| - 1];
      assert ordered == front + [ordered[|front|]] && ordered[|front|] !in front;
      MovesExactly(front, items);
      forall i | 0 <= i < |front| ensures MovesTo(ordered, items, i) {
        assert MovesTo(front, items, i);
      }
    }
  }

  /** After the update the i-th id of the order stands at position i + 1. */
  lemma ReorderPlaces(items: map<int, Item>, m: int, ordered: seq<int>)
    requires Distinct(ordered) && Elements(ordered) == ActiveIds(items, m)
    ensures forall id | id in ordered :: id in items
    ensures var items' := Reposition(items, m, Moves(ordered, items));
      && ActiveIds(items', m) == ActiveIds(items, m)
      && forall i | 0 <= i < |ordered| :: IsActive(items', m, ordered[i]) && items'[ordered[i]].position == i + 1
  {
    forall id | id in ordered ensures IsActive(items, m, id) { assert id in Elements(ordered); }
    MovesExactly(ordered, items);
    var items' := Reposition(items, m, Moves(ordered, items));
    forall i | 0 <= i < |ordered| ensures IsActive(items', m, ordered[i]) && items'[ordered[i]].position == i + 1 {
      assert MovesTo(ordered, items, i) && ordered[i] in ordered;
    }
  }

  lemma ReorderKeepsPositions(items: map<int, Item>, m: int, ordered: seq<int>)
    requires Distinct(ordered) && Elements(ordered) == ActiveIds(items, m)
    ensures forall id | id in ordered :: id in items
    ensures Positioned(Reposition(items, m, Moves(ordered, items)), m)
  {
    ReorderPlaces(items, m, ordered);
    var items' := Reposition(items, m, Moves(ordered, items));
    DistinctCount(ordered);
    forall id | IsActive(items', m, id) ensures exists i :: 0 <= i < |ordered| && ordered[i] == id {
      assert id in ActiveIds(items', m);
      assert id in Elements(ordered);
    }
  }

  /** Only moved rows are written, so MySQL reports exactly the rows the statement names. */
  lemma ReorderWritesOnlyMoves(items: map<int, Item>, m: int, ordered: seq<int>)
    requires Distinct(ordered) && Elements(ordered) == ActiveIds(items, m)
    ensures forall id | id in ordered :: id in items
    ensures Affected(items, m, Moves(ordered, items)) == Moves(ordered, items).Keys
  {
    forall id | id in ordered ensures IsActive(items, m, id) { assert id in Elements(ordered); }
    MovesExactly(ordered, items);
    var moves := Moves(ordered, items);
    forall id | id in moves ensures id in Affected(items, m, moves) {
      var i :| 0 <= i < |ordered| && ordered[i] == id;
      assert MovesTo(ordered, items, i);
    }
  }

  // ---------------------------------------------------------------- delete with compaction

  lemma CompactionKeepsPositions(items: map<int, Item>, m: int, id: int)
    requires Positioned(items, m) && IsActive(items, m, id)
    ensures var items' := Compact(Remove(items, m, id), m, items[id].position);
      && ActiveIds(items', m) == ActiveIds(items, m) - {id} && Positioned(items', m)
      && forall k | IsActive(items', m, k) ::
           items'[k].position == items[k].position - if items[k].position > items[id].position then 1 else 0
  {
    var gone := Remove(items, m, id);
    var items' := Compact(gone, m, items[id].position);
    forall k ensures IsActive(items', m, k) <==> IsActive(items, m, k) && k != id {
    }
    assert ActiveIds(items', m) == ActiveIds(items, m) - {id};
    assert id in ActiveIds(items, m);
    forall k | IsActive(items', m, k)
      ensures items'[k].position == items[k].position - (if items[k].position > items[id].position then 1 else 0)
      ensures 1 <= items'[k].position <= |ActiveIds(items', m)|
    {
      assert IsActive(items, m, k) && IsActive(items, m, id);
    }
    forall a, b | IsActive(items', m, a) && IsActive(items', m, b) && items'[a].position == items'[b].position ensures a == b {
      assert IsActive(items, m, a) && IsActive(items, m, b) && IsActive(items, m, id);
    }
  }
}
