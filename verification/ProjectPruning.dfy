/** Which ready releases make room for a new one (domain/service/webprojects/cleanup.go). */
module ProjectPruning {
  import opened Common

  datatype Item = Item(id: int, bytes: int)

  datatype Error = Invalid | TooLarge | RateLimited

  datatype Limits = Limits(maxBytes: int, maxReleases: int)

  /** What is retired so far, and what then remains. */
  datatype Pruned = Pruned(retired: seq<int>, bytes: int, count: int)

  function Total(items: seq<Item>): int {
    if items == [] then 0 else Total(items[..|items| - 1]) + items[|items| - 1].bytes
  }

  predicate Fits(lim: Limits, incoming: int, p: Pruned) {
    p.bytes + incoming <= lim.maxBytes && p.count + 1 <= lim.maxReleases
  }

  function PruneOne(lim: Limits, current: Option<int>, incoming: int, p: Pruned, item: Item): Pruned {
    if Fits(lim, incoming, p) || current == Some(item.id) then p
    else Pruned(p.retired + [item.id], p.bytes - item.bytes, p.count - 1)
  }

  /** After looking at the first items, oldest first. */
  function Prune(lim: Limits, current: Option<int>, incoming: int, items: seq<Item>, looked: seq<Item>): Pruned {
    if looked == [] then Pruned([], Total(items), |items|)
    else PruneOne(lim, current, incoming, Prune(lim, current, incoming, items, looked[..|looked| - 1]), looked[|looked| - 1])
  }

  function Select(items: seq<Item>, current: Option<int>, lim: Limits, incoming: int): Result<seq<int>, Error> {
    if lim.maxBytes <= 0 || lim.maxReleases <= 0 || incoming < 0 || exists i | 0 <= i < |items| :: items[i].bytes < 0 then Err(Invalid)
    else
      var p := Prune(lim, current, incoming, items, items);
      if p.bytes + incoming > lim.maxBytes then Err(TooLarge)
      else if p.count + 1 > lim.maxReleases then Err(RateLimited)
      else Ok(p.retired)
  }

  method SelectReleasesForPruning(items: seq<Item>, current: Option<int>, lim: Limits, incoming: int) returns (r: Result<seq<int>, Error>)
    ensures r == Select(items, current, lim, incoming)
  {
    if lim.maxBytes <= 0 || lim.maxReleases <= 0 || incoming < 0 { return Err(Invalid); }
    var totalBytes := 0;
    for i := 0 to |items|
      invariant totalBytes == Total(items[..i]) && forall j | 0 <= j < i :: items[j].bytes >= 0
    {
      ghost var upto := items[..i + 1];
      assert upto[..|upto| - 1] == items[..i] && upto[|upto| - 1] == items[i];
      if items[i].bytes < 0 { return Err(Invalid); }
      totalBytes := totalBytes + items[i].bytes;
    }
    assert items[..|items|] == items;
    var remaining, retired: seq<int> := |items|, [];
    for i := 0 to |items|
      invariant Pruned(retired, totalBytes, remaining) == Prune(lim, current, incoming, items, items[..i])
    {
      ghost var upto := items[..i + 1];
      assert upto[..|upto| - 1] == items[..i] && upto[|upto| - 1] == items[i];
      if totalBytes + incoming <= lim.maxBytes && remaining + 1 <= lim.maxReleases {
        FitStays(lim, current, incoming, items, i);
        break;
      }
      if current == Some(items[i].id) { continue; }
      retired, totalBytes, remaining := retired + [items[i].id], totalBytes - items[i].bytes, remaining - 1;
    }
    if totalBytes + incoming > lim.maxBytes { return Err(TooLarge); }
    if remaining + 1 > lim.maxReleases { return Err(RateLimited); }
    return Ok(retired);
  }

  /** Once the new release fits, nothing more is retired. */
  lemma {:induction false} FitStays(lim: Limits, current: Option<int>, incoming: int, items: seq<Item>, n: nat)
    requires n <= |items| && Fits(lim, incoming, Prune(lim, current, incoming, items, items[..n]))
    ensures Prune(lim, current, incoming, items, items) == Prune(lim, current, incoming, items, items[..n])
    decreases |items| - n
  {
    if n == |items| {
      assert items[..n] == items;
    } else {
      assert items[..n + 1][..n] == items[..n];
      FitStays(lim, current, incoming, items, n + 1);
    }
  }

  // ---------------------------------------------------------------- what the selection promises

  /** Bytes and number of the listed releases that are not retired. */
  function KeptBytes(items: seq<Item>, retired: seq<int>): int {
    if items == [] then 0
    else
      var last := items[|items| - 1];
      KeptBytes(items[..|items| - 1], retired) + if last.id in retired then 0 else last.bytes
  }

  function KeptCount(items: seq<Item>, retired: seq<int>): nat {
    if items == [] then 0
    else KeptCount(items[..|items| - 1], retired) + if items[|items| - 1].id in retired then 0 else 1
  }

  ghost predicate DistinctIds(items: seq<Item>) {
    forall i, j | 0 <= i < j < |items| :: items[i].id != items[j].id
  }

  lemma {:induction false} KeptAll(items: seq<Item>)
    ensures KeptBytes(items, []) == Total(items) && KeptCount(items, []) == |items|
  {
    if items != [] { KeptAll(items[..|items| - 1]); }
  }

  lemma {:induction false} KeptWithoutOther(items: seq<Item>, retired: seq<int>, id: int)
    requires forall i | 0 <= i < |items| :: items[i].id != id
    ensures KeptBytes(items, retired + [id]) == KeptBytes(items, retired) && KeptCount(items, retired + [id]) == KeptCount(items, retired)
  {
    if items != [] {
      assert items[|items| - 1].id != id;
      KeptWithoutOther(items[..|items| - 1], retired, id);
    }
  }

  lemma {:induction false} KeptWithout(items: seq<Item>, retired: seq<int>, k: nat)
    requires DistinctIds(items) && k < |items| && items[k].id !in retired
    ensures KeptBytes(items, retired + [items[k].id]) == KeptBytes(items, retired) - items[k].bytes
    ensures KeptCount(items, retired + [items[k].id]) == KeptCount(items, retired) - 1
    decreases |items|
  {
    var front := items[..|items| - 1];
    if k < |front| {
      assert front[k] == items[k];
      KeptWithout(front, retired, k);
    } else {
      KeptWithoutOther(front, retired, items[k].id);
    }
  }

  /** Retired ones are listed, looked at, distinct and not current; the running totals are those of what is kept. */
  ghost predicate PruneOk(items: seq<Item>, current: Option<int>, n: nat, p: Pruned)
    requires n <= |items|
  {
    && (forall k | 0 <= k < |p.retired| :: exists i :: 0 <= i < n && items[i].id == p.retired[k])
    && Distinct(p.retired) && (current.Some? ==> current.value !in p.retired)
    && p.bytes == KeptBytes(items, p.retired) && p.count == KeptCount(items, p.retired)
  }

  lemma {:induction false} PruneKeepsOk(lim: Limits, current: Option<int>, incoming: int, items: seq<Item>, n: nat)
    requires DistinctIds(items) && n <= |items|
    ensures PruneOk(items, current, n, Prune(lim, current, incoming, items, items[..n]))
  {
    if n == 0 {
      KeptAll(items);
    } else {
      assert items[..n][..n - 1] == items[..n - 1];
      PruneKeepsOk(lim, current, incoming, items, n - 1);
      var p := Prune(lim, current, incoming, items, items[..n - 1]);
      var id := items[n - 1].id;
      assert id !in p.retired;
      KeptWithout(items, p.retired, n - 1);
    }
  }

  /** A selection names distinct listed releases, never the current one, and what is kept leaves room for the new one. */
  lemma SelectionMakesRoom(items: seq<Item>, current: Option<int>, lim: Limits, incoming: int)
    requires DistinctIds(items) && Select(items, current, lim, incoming).Ok?
    ensures var retired := Select(items, current, lim, incoming).value;
      && Distinct(retired) && (current.Some? ==> current.value !in retired)
      && (forall k | 0 <= k < |retired| :: exists i :: 0 <= i < |items| && items[i].id == retired[k])
      && KeptBytes(items, retired) + incoming <= lim.maxBytes && KeptCount(items, retired) + 1 <= lim.maxReleases
  {
    PruneKeepsOk(lim, current, incoming, items, |items|);
    assert items[..|items|] == items;
  }

  /** Nothing is retired in vain: before its last retirement the new release did not fit. */
  lemma {:induction false} SelectionIsMinimal(lim: Limits, current: Option<int>, incoming: int, items: seq<Item>, n: nat)
    requires DistinctIds(items) && n <= |items|
    ensures var retired := Prune(lim, current, incoming, items, items[..n]).retired;
      retired != [] ==>
        var fewer := retired[..|retired| - 1];
        !Fits(lim, incoming, Pruned(fewer, KeptBytes(items, fewer), KeptCount(items, fewer)))
  {
    if n > 0 {
      assert items[..n][..n - 1] == items[..n - 1];
      SelectionIsMinimal(lim, current, incoming, items, n - 1);
      PruneKeepsOk(lim, current, incoming, items, n - 1);
      var p := Prune(lim, current, incoming, items, items[..n - 1]);
      assert (p.retired + [items[n - 1].id])[..|p.retired|] == p.retired;
    }
  }

  /** An upload is refused for space only when keeping the current release alone would still leave no room. */
  lemma {:induction false} RefusalIsNeeded(lim: Limits, current: Option<int>, incoming: int, items: seq<Item>, n: nat)
    requires n <= |items| && !Fits(lim, incoming, Prune(lim, current, incoming, items, items[..n]))
    ensures forall i | 0 <= i < n && current != Some(items[i].id) :: items[i].id in Prune(lim, current, incoming, items, items[..n]).retired
  {
    if n > 0 {
      assert items[..n][..n - 1] == items[..n - 1];
      var p := Prune(lim, current, incoming, items, items[..n - 1]);
      RefusalIsNeeded(lim, current, incoming, items, n - 1);
    }
  }

  /** Releases are retired in the order they are listed, oldest first: none before everything older but the current one. */
  lemma {:induction false} OldestFirst(lim: Limits, current: Option<int>, incoming: int, items: seq<Item>, n: nat)
    requires DistinctIds(items) && n <= |items|
    ensures var retired := Prune(lim, current, incoming, items, items[..n]).retired;
      forall i, k | 0 <= i < k < n && items[k].id in retired && current != Some(items[i].id) :: items[i].id in retired
  {
    if n > 0 {
      assert items[..n][..n - 1] == items[..n - 1];
      OldestFirst(lim, current, incoming, items, n - 1);
      PruneKeepsOk(lim, current, incoming, items, n - 1);
      var p := Prune(lim, current, incoming, items, items[..n - 1]);
      assert items[n - 1].id !in p.retired;
      if !Fits(lim, incoming, p) { RefusalIsNeeded(lim, current, incoming, items, n - 1); }
    }
  }

  /** Bytes and number of the current release, if it is listed. */
  function CurrentBytes(items: seq<Item>, current: Option<int>): int {
    if items == [] then 0
    else CurrentBytes(items[..|items| - 1], current) + if current == Some(items[|items| - 1].id) then items[|items| - 1].bytes else 0
  }

  function CurrentCount(items: seq<Item>, current: Option<int>): nat {
    if items == [] then 0 else CurrentCount(items[..|items| - 1], current) + if current == Some(items[|items| - 1].id) then 1 else 0
  }

  lemma {:induction false} CurrentIsKept(items: seq<Item>, current: Option<int>, retired: seq<int>)
    requires (current.Some? ==> current.value !in retired) && forall i | 0 <= i < |items| :: items[i].bytes >= 0
    ensures CurrentBytes(items, current) <= KeptBytes(items, retired) && CurrentCount(items, current) <= KeptCount(items, retired)
    ensures (forall i | 0 <= i < |items| && current != Some(items[i].id) :: items[i].id in retired) ==>
      KeptBytes(items, retired) == CurrentBytes(items, current) && KeptCount(items, retired) == CurrentCount(items, current)
  {
    if items != [] {
      var front := items[..|items| - 1];
      assert forall i | 0 <= i < |front| :: front[i] == items[i];
      CurrentIsKept(front, current, retired);
    }
  }

  /** Room is found exactly when limits and sizes make sense and the new release fits beside the current one alone. */
  lemma SelectDecides(items: seq<Item>, current: Option<int>, lim: Limits, incoming: int)
    requires DistinctIds(items)
    ensures Select(items, current, lim, incoming).Ok? <==>
      && lim.maxBytes > 0 && lim.maxReleases > 0 && incoming >= 0 && (forall i | 0 <= i < |items| :: items[i].bytes >= 0)
      && CurrentBytes(items, current) + incoming <= lim.maxBytes && CurrentCount(items, current) + 1 <= lim.maxReleases
    ensures Select(items, current, lim, incoming) == Err(TooLarge) ==> CurrentBytes(items, current) + incoming > lim.maxBytes
    ensures Select(items, current, lim, incoming) == Err(RateLimited) ==>
      CurrentBytes(items, current) + incoming <= lim.maxBytes && CurrentCount(items, current) + 1 > lim.maxReleases
    ensures Select(items, current, lim, incoming) == Err(Invalid) <==>
      lim.maxBytes <= 0 || lim.maxReleases <= 0 || incoming < 0 || exists i | 0 <= i < |items| :: items[i].bytes < 0
  {
    assert items[..|items|] == items;
    PruneKeepsOk(lim, current, incoming, items, |items|);
    var p := Prune(lim, current, incoming, items, items);
    if forall i | 0 <= i < |items| :: items[i].bytes >= 0 {
      CurrentIsKept(items, current, p.retired);
      if !Fits(lim, incoming, p) { RefusalIsNeeded(lim, current, incoming, items, |items|); }
    }
    hide Prune, KeptBytes, KeptCount, CurrentBytes, CurrentCount;
  }
}
