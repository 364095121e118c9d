/**
 Two ways to pick the cover of a manual: the detail page scans its ordered items, the list page takes
 explicit rows and the first row of a window query (app/manuals/read.go, domain/dal/manual.go).
 */
module ManualCovers {
  import opened Common
  import opened Manuals

  // ---------------------------------------------------------------- query results

  predicate Before(items: map<int, Item>, a: int, b: int)
    requires a in items && b in items
  {
    items[a].position < items[b].position || (items[a].position == items[b].position && a <= b)
  }

  predicate Known(items: map<int, Item>, list: seq<int>) {
    forall i | 0 <= i < |list| :: list[i] in items
  }

  /** The result of ListManualItems: the active rows by position, then id. */
  ghost predicate IsListing(items: map<int, Item>, m: int, list: seq<int>) {
    && Distinct(list) && Elements(list) == ActiveIds(items, m)
    && Known(items, list)
    && forall i, j | 0 <= i < j < |list| :: Before(items, list[i], list[j])
  }

  predicate HasThumbnail(item: Item) {
    (item.kind == Image || item.kind == Pdf) && item.ready
  }

  /** The window ordering: ready images and PDFs first, then position, then id. */
  predicate RankedBefore(items: map<int, Item>, a: int, b: int)
    requires a in items && b in items
  {
    if HasThumbnail(items[a]) != HasThumbnail(items[b]) then HasThumbnail(items[a]) else Before(items, a, b)
  }

  /** The row with cover_rank 1 in the partition of the manual. */
  ghost predicate RankOne(items: map<int, Item>, m: int, id: int) {
    IsActive(items, m, id) && forall k | IsActive(items, m, k) :: RankedBefore(items, id, k)
  }

  /** Rows returned for the explicit ids, in any order. */
  ghost predicate ArePreviews(items: map<int, Item>, ids: seq<int>, rows: seq<int>) {
    && Distinct(rows) && Known(items, rows)
    && forall id :: id in rows <==> id in ids && id in items && !items[id].deleted
  }

  /** Rows returned by the window query for some manuals, in any order. */
  ghost predicate AreAutomatic(items: map<int, Item>, manuals: seq<int>, rows: seq<int>) {
    && Distinct(rows) && Known(items, rows)
    && (forall id | id in rows :: id in items && items[id].manual in manuals && RankOne(items, items[id].manual, id))
    && forall m, id | m in manuals && RankOne(items, m, id) :: id in rows
  }

  // ---------------------------------------------------------------- the detail page

  function FirstThumbnail(items: map<int, Item>, list: seq<int>): Option<int>
    requires Known(items, list)
  {
    if list == [] then None
    else if HasThumbnail(items[list[0]]) then Some(list[0])
    else FirstThumbnail(items, list[1..])
  }

  function DetailCover(items: map<int, Item>, explicit: Option<int>, list: seq<int>): Option<int>
    requires Known(items, list)
  {
    if explicit.Some? && explicit.value in list then explicit
    else if FirstThumbnail(items, list).Some? then FirstThumbnail(items, list)
    else if list != [] then Some(list[0])
    else None
  }

  method ChooseDetailCover(items: map<int, Item>, explicit: Option<int>, list: seq<int>) returns (cover: Option<int>)
    requires Known(items, list)
    ensures cover == DetailCover(items, explicit, list)
  {
    if explicit.Some? {
      for i := 0 to |list|
        invariant explicit.value !in list[..i]
      {
        if list[i] == explicit.value { return Some(list[i]); }
      }
      assert list[..|list|] == list;
    }
    for i := 0 to |list|
      invariant FirstThumbnail(items, list) == FirstThumbnail(items, list[i..])
    {
      if HasThumbnail(items[list[i]]) { return Some(list[i]); }
    }
    if |list| > 0 { return Some(list[0]); }
    return None;
  }

  lemma {:induction false} FirstThumbnailIsFirst(items: map<int, Item>, list: seq<int>)
    requires Known(items, list)
    ensures FirstThumbnail(items, list).None? ==> forall i | 0 <= i < |list| :: !HasThumbnail(items[list[i]])
    ensures FirstThumbnail(items, list).Some? ==> exists i :: IsFirst(items, list, i) && list[i] == FirstThumbnail(items, list).value
  {
    if list != [] {
      FirstThumbnailIsFirst(items, list[1..]);
      var r := FirstThumbnail(items, list);
      if HasThumbnail(items[list[0]]) {
        assert IsFirst(items, list, 0);
      } else if r.Some? {
        var i :| IsFirst(items, list[1..], i) && list[1..][i] == r.value;
        forall j | 0 <= j < i + 1 ensures !HasThumbnail(items[list[j]]) {
          if j > 0 { assert list[j] == list[1..][j - 1]; }
        }
        assert IsFirst(items, list, i + 1);
      } else {
        forall i | 0 <= i < |list| ensures !HasThumbnail(items[list[i]]) {
          if i > 0 { assert list[i] == list[1..][i - 1]; }
        }
      }
    }
  }

  ghost predicate IsFirst(items: map<int, Item>, list: seq<int>, i: int)
    requires Known(items, list)
  {
    0 <= i < |list| && HasThumbnail(items[list[i]]) && forall j | 0 <= j < i :: !HasThumbnail(items[list[j]])
  }

  /** Without an explicit cover the scan finds exactly the row the window query ranks first. */
  lemma ScanIsRankOne(items: map<int, Item>, m: int, list: seq<int>)
    requires IsListing(items, m, list)
    ensures Known(items, list)
    ensures DetailCover(items, None, list).None? <==> ActiveIds(items, m) == {}
    ensures forall id :: RankOne(items, m, id) <==> DetailCover(items, None, list) == Some(id)
  {
    FirstThumbnailIsFirst(items, list);
    forall id ensures IsActive(items, m, id) <==> id in list {
      assert id in Elements(list) <==> id in ActiveIds(items, m);
    }
    if list != [] {
      assert list[0] in Elements(list);
      var i := ScanIndex(items, list);
      forall k | IsActive(items, m, k) ensures RankedBefore(items, list[i], k) {
        var j :| 0 <= j < |list| && list[j] == k;
        if j < i { assert !HasThumbnail(items[list[j]]) && HasThumbnail(items[list[i]]); }
      }
      assert RankOne(items, m, list[i]);
      forall id | RankOne(items, m, id) ensures id == list[i] {
        assert RankedBefore(items, id, list[i]) && RankedBefore(items, list[i], id);
      }
    } else {
      assert ActiveIds(items, m) == {};
    }
  }

  /** The first item of the list that is a ready image or PDF. */
  predicate IsFirstReady(items: map<int, Item>, list: seq<int>, i: int)
    requires Known(items, list)
  {
    && 0 <= i < |list| && (items[list[i]].kind == Image || items[list[i]].kind == Pdf) && items[list[i]].ready
    && forall j | 0 <= j < i :: !((items[list[j]].kind == Image || items[list[j]].kind == Pdf) && items[list[j]].ready)
  }

  /** The detail page shows the chosen cover while it is listed, otherwise the first ready image or PDF, otherwise the first
      item, and nothing only for an empty manual. */
  lemma DetailCoverDecides(items: map<int, Item>, explicit: Option<int>, list: seq<int>)
    requires Known(items, list)
    ensures var cover := DetailCover(items, explicit, list);
      if explicit.Some? && explicit.value in list then cover == explicit
      else if exists i :: IsFirstReady(items, list, i) then exists i :: IsFirstReady(items, list, i) && cover == Some(list[i])
      else cover == if list == [] then None else Some(list[0])
  {
    FirstThumbnailIsFirst(items, list);
    forall i ensures IsFirst(items, list, i) <==> IsFirstReady(items, list, i) { }
    if i :| IsFirstReady(items, list, i) {
      assert FirstThumbnail(items, list).Some?;
    }
    hide FirstThumbnail;
  }

  lemma ScanIndex(items: map<int, Item>, list: seq<int>) returns (i: nat)
    requires list != [] && Known(items, list)
    ensures i < |list| && DetailCover(items, None, list) == Some(list[i])
    ensures IsFirst(items, list, i) || (i == 0 && forall j | 0 <= j < |list| :: !HasThumbnail(items[list[j]]))
  {
    FirstThumbnailIsFirst(items, list);
    if FirstThumbnail(items, list).Some? {
      i :| IsFirst(items, list, i) && list[i] == FirstThumbnail(items, list).value;
    } else {
      i := 0;
    }
  }

  // ---------------------------------------------------------------- the list page

  /** The manuals split by whether they name a cover. */
  method SplitByCover(t: Tables, manuals: seq<int>) returns (explicit: seq<int>, automatic: seq<int>)
    requires forall m | m in manuals :: m in t.manuals
    ensures forall m :: m in automatic <==> m in manuals && t.manuals[m].cover.None?
    ensures forall id :: id in explicit <==> exists m :: m in manuals && t.manuals[m].cover == Some(id)
  {
    explicit, automatic := [], [];
    for i := 0 to |manuals|
      invariant forall m :: m in automatic <==> m in manuals[..i] && t.manuals[m].cover.None?
      invariant forall id :: id in explicit <==> exists m :: m in manuals[..i] && t.manuals[m].cover == Some(id)
    {
      var m := manuals[i];
      assert manuals[..i + 1] == manuals[..i] + [m];
      if t.manuals[m].cover.None? { automatic := automatic + [m]; } else { explicit := explicit + [t.manuals[m].cover.value]; }
    }
    assert manuals[..|manuals|] == manuals;
  }

  /** The covers of a page, keyed by the manual of each returned row. */
  method CoversByManual(items: map<int, Item>, rows: seq<int>) returns (covers: map<int, int>)
    requires Known(items, rows)
    requires forall a, b | a in rows && b in rows && items[a].manual == items[b].manual :: a == b
    ensures forall m, id :: m in covers && covers[m] == id <==> id in rows && items[id].manual == m
  {
    covers := map[];
    for i := 0 to |rows|
      invariant forall m, id :: m in covers && covers[m] == id <==> id in rows[..i] && items[id].manual == m
    {
      assert rows[..i + 1] == rows[..i] + [rows[i]];
      covers := covers[items[rows[i]].manual := rows[i]];
    }
    assert rows[..|rows|] == rows;
  }

  /** In every state the transactions can reach, the list page and the detail page show the same cover.
      `previews` and `automatic` answer the two queries. */
  method ListCovers(t: Tables, manuals: seq<int>, previews: seq<int> -> seq<int>, automatic: seq<int> -> seq<int>)
    returns (covers: map<int, int>)
    requires Inv(t) && forall m | m in manuals :: m in t.manuals
    requires forall ids :: ArePreviews(t.items, ids, previews(ids))
    requires forall ids :: AreAutomatic(t.items, ids, automatic(ids))
    ensures forall m, list | m in manuals && IsListing(t.items, m, list) :: SameCover(t, m, list, covers)
  {
    var explicitIds, automaticIds := SplitByCover(t, manuals);
    var rows, ranked := previews(explicitIds), automatic(automaticIds);
    covers := CoversByManual(t.items, rows + ranked);
    forall m, list | m in manuals && IsListing(t.items, m, list) ensures SameCover(t, m, list, covers) {
      CoverAgrees(t, manuals, rows + ranked, m, list, covers);
    }
  }

  ghost predicate SameCover(t: Tables, m: int, list: seq<int>, covers: map<int, int>)
    requires m in t.manuals && IsListing(t.items, m, list)
  {
    Known(t.items, list) && DetailCover(t.items, t.manuals[m].cover, list) == if m in covers then Some(covers[m]) else None
  }

  lemma CoverAgrees(t: Tables, manuals: seq<int>, rows: seq<int>, m: int, list: seq<int>, covers: map<int, int>)
    requires Inv(t) && m in t.manuals && m in manuals && IsListing(t.items, m, list)
    requires Known(t.items, rows)
    requires forall id | id in t.items && t.items[id].manual == m ::
      id in rows <==> t.manuals[m].cover == Some(id) || (t.manuals[m].cover.None? && RankOne(t.items, m, id))
    requires forall k, id :: k in covers && covers[k] == id <==> id in rows && t.items[id].manual == k
    ensures SameCover(t, m, list, covers)
  {
    ScanIsRankOne(t.items, m, list);
    var cover := t.manuals[m].cover;
    assert ManualOk(t, m);
    if cover.Some? {
      assert cover.value in ActiveIds(t.items, m);
      assert cover.value in Elements(list);
      assert cover.value in rows;
    } else {
      var scanned := DetailCover(t.items, None, list);
      if scanned.Some? {
        assert RankOne(t.items, m, scanned.value);
        assert scanned.value in rows;
      } else if m in covers {
        assert covers[m] in rows;
        assert RankOne(t.items, m, covers[m]);
      }
    }
  }
}
