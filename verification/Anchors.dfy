/**
 Text anchors of comments on hosted pages: capture from a selection, and re-anchoring by quotation
 (api/webprojects/container/runtime.js).

 A `char` stands for one UTF-16 code unit. The page is the tree of its nodes; elements that are ignored or keep
 their own interaction are barriers and count as one NUL in the page text.
 */
module Anchors {
  import opened Common

  const NUL := '\0'

  // ---------------------------------------------------------------- String.prototype

  function Min(a: int, b: int): int { if a < b then a else b }

  function Max(a: int, b: int): int { if a > b then a else b }

  /** slice: negative bounds count from the end, both are clamped. */
  function Slice(s: string, from: int, to: int): string {
    var a := if from < 0 then Max(|s| + from, 0) else Min(from, |s|);
    var b := if to < 0 then Max(|s| + to, 0) else Min(to, |s|);
    if a < b then s[a..b] else ""
  }

  predicate StartsWith(s: string, p: string) { |p| <= |s| && s[..|p|] == p }

  predicate EndsWith(s: string, p: string) { |p| <= |s| && s[|s| - |p|..] == p }

  predicate IsSpace(c: char) {
    c in "\t\n\U{0b}\U{0c}\r \U{a0}\U{1680}\U{2028}\U{2029}\U{202f}\U{205f}\U{3000}\U{feff}" || '\U{2000}' <= c <= '\U{200a}'
  }

  predicate Blank(s: string) { forall i | 0 <= i < |s| :: IsSpace(s[i]) }

  // ---------------------------------------------------------------- quoteOffset

  predicate Occurs(text: string, exact: string, k: int) {
    0 <= k <= |text| - |exact| && text[k..k + |exact|] == exact
  }

  /** Every offset from `from` on where the quotation occurs, overlapping ones included. */
  function Occurrences(text: string, exact: string, from: nat): seq<int>
    decreases |text| - from
  {
    if from + |exact| > |text| || from >= |text| then []
    else (if Occurs(text, exact, from) then [from] else []) + Occurrences(text, exact, from + 1)
  }

  predicate InContext(text: string, exact: string, prefix: string, suffix: string, k: int) {
    && (prefix == "" || EndsWith(Slice(text, Max(0, k - |prefix|), k), prefix))
    && (suffix == "" || StartsWith(Slice(text, k + |exact|, k + |exact| + |suffix|), suffix))
  }

  function Contextual(text: string, exact: string, prefix: string, suffix: string, offsets: seq<int>): seq<int> {
    if offsets == [] then []
    else
      var k := offsets[|offsets| - 1];
      Contextual(text, exact, prefix, suffix, offsets[..|offsets| - 1]) + if InContext(text, exact, prefix, suffix, k) then [k] else []
  }

  function QuoteOffset(text: string, exact: string, prefix: string, suffix: string): int {
    if exact == "" || NUL in exact then -1
    else
      var matches := Occurrences(text, exact, 0);
      if |matches| == 1 then matches[0]
      else if matches == [] || (prefix == "" && suffix == "") then -1
      else
        var contextual := Contextual(text, exact, prefix, suffix, matches);
        if |contextual| == 1 then contextual[0] else -1
  }

  /** indexOf from an offset, for a non-empty quotation. */
  method IndexOf(text: string, exact: string, from: nat) returns (k: int)
    requires exact != ""
    ensures k == -1 ==> Occurrences(text, exact, from) == []
    ensures k != -1 ==> k >= from && Occurs(text, exact, k) && Occurrences(text, exact, from) == [k] + Occurrences(text, exact, k + 1)
  {
    k := from;
    while k + |exact| <= |text|
      invariant k >= from && Occurrences(text, exact, from) == Occurrences(text, exact, k)
      decreases |text| - k
    {
      if text[k..k + |exact|] == exact { return; }
      k := k + 1;
    }
    k := -1;
  }

  method AllMatches(text: string, exact: string) returns (matches: seq<int>)
    requires exact != ""
    ensures matches == Occurrences(text, exact, 0)
  {
    matches := [];
    var k := IndexOf(text, exact, 0);
    while k >= 0
      invariant k == -1 || (k >= 0 && k < |text|)
      invariant Occurrences(text, exact, 0) == matches + if k < 0 then [] else [k] + Occurrences(text, exact, k + 1)
      decreases if k < 0 then -1 else |text| - k
    {
      matches := matches + [k];
      k := IndexOf(text, exact, k + 1);
    }
  }

  method ContextualMatches(text: string, exact: string, prefix: string, suffix: string, matches: seq<int>) returns (contextual: seq<int>)
    ensures contextual == Contextual(text, exact, prefix, suffix, matches)
  {
    contextual := [];
    for i := 0 to |matches|
      invariant contextual == Contextual(text, exact, prefix, suffix, matches[..i])
    {
      ghost var upto := matches[..i + 1];
      assert upto[..|upto| - 1] == matches[..i] && upto[|upto| - 1] == matches[i];
      if InContext(text, exact, prefix, suffix, matches[i]) { contextual := contextual + [matches[i]]; }
    }
    assert matches[..|matches|] == matches;
  }

  method FindQuote(text: string, exact: string, prefix: string, suffix: string) returns (offset: int)
    ensures offset == QuoteOffset(text, exact, prefix, suffix)
  {
    if exact == "" || NUL in exact { return -1; }
    var matches := AllMatches(text, exact);
    if |matches| == 1 { return matches[0]; }
    if |matches| == 0 || (prefix == "" && suffix == "") { return -1; }
    var contextual := ContextualMatches(text, exact, prefix, suffix, matches);
    return if |contextual| == 1 then contextual[0] else -1;
  }

  // ---------------------------------------------------------------- what is found

  lemma {:induction false} OccurrencesAre(text: string, exact: string, from: nat)
    requires exact != ""
    ensures forall k :: k in Occurrences(text, exact, from) <==> k >= from && Occurs(text, exact, k)
    ensures Distinct(Occurrences(text, exact, from))
    decreases |text| - from
  {
    if from + |exact| <= |text| { OccurrencesAre(text, exact, from + 1); }
  }

  lemma {:induction false} ContextualAre(text: string, exact: string, prefix: string, suffix: string, offsets: seq<int>)
    requires Distinct(offsets)
    ensures forall k :: k in Contextual(text, exact, prefix, suffix, offsets) <==> k in offsets && InContext(text, exact, prefix, suffix, k)
    ensures Distinct(Contextual(text, exact, prefix, suffix, offsets))
  {
    if offsets != [] {
      var front := offsets[..|offsets| - 1];
      assert offsets == front + [offsets[|front|]];
      ContextualAre(text, exact, prefix, suffix, front);
    }
  }

  lemma OnlyOne(xs: seq<int>, k: int)
    requires Distinct(xs) && k in xs
    ensures |xs| == 1 <==> forall j | j in xs :: j == k
    ensures |xs| == 1 ==> xs[0] == k
  {
    if |xs| > 1 { assert xs[0] in xs && xs[1] in xs && xs[0] != xs[1]; }
  }

  /** Why a quotation that occurs at an offset, in the given context, may still not be found there. */
  ghost predicate Ambiguous(text: string, exact: string, prefix: string, suffix: string, at: int) {
    exists k :: k != at && Occurs(text, exact, k) && ((prefix == "" && suffix == "") || InContext(text, exact, prefix, suffix, k))
  }

  /** A quotation that stands at an offset in its context is found at that offset or not at all; it is found exactly
      when it has no NUL and no other occurrence fits the context as well. */
  lemma QuoteIsFoundOrLost(text: string, exact: string, prefix: string, suffix: string, at: int)
    requires exact != "" && Occurs(text, exact, at) && InContext(text, exact, prefix, suffix, at)
    ensures QuoteOffset(text, exact, prefix, suffix) == if NUL !in exact && !Ambiguous(text, exact, prefix, suffix, at) then at else -1
  {
    OccurrencesAre(text, exact, 0);
    var matches := Occurrences(text, exact, 0);
    OnlyOne(matches, at);
    ContextualAre(text, exact, prefix, suffix, matches);
    OnlyOne(Contextual(text, exact, prefix, suffix, matches), at);
  }

  // ---------------------------------------------------------------- the page text

  datatype Node =
    | Text(id: int, data: string)
    | Element(id: int, skipped: bool, children: seq<Node>)
    | Comment

  datatype Entry = Entry(node: int, start: nat, data: string)

  datatype Barrier = Barrier(node: int, at: nat)

  datatype Index = Index(text: string, nodes: seq<Entry>, barriers: seq<Barrier>)

  function Visit(node: Node, x: Index): Index {
    match node
    case Text(id, data) => Index(x.text + data, x.nodes + [Entry(id, |x.text|, data)], x.barriers)
    case Element(id, skipped, children) =>
      if skipped then Index(x.text + [NUL], x.nodes, x.barriers + [Barrier(id, |x.text|)]) else VisitAll(children, x)
    case Comment => x
  }

  function VisitAll(children: seq<Node>, x: Index): Index {
    if children == [] then x else Visit(children[|children| - 1], VisitAll(children[..|children| - 1], x))
  }

  function TextIndex(scope: Node): Index { Visit(scope, Index("", [], [])) }

  class Indexer {
    var text: string
    var nodes: seq<Entry>
    var barriers: seq<Barrier>

    ghost function Contents(): Index
      reads this
    {
      Index(text, nodes, barriers)
    }

    constructor ()
      ensures Contents() == Index("", [], [])
    {
      text, nodes, barriers := "", [], [];
    }

    method Walk(node: Node)
      modifies this
      ensures Contents() == Visit(node, old(Contents()))
      decreases node
    {
      match node
      case Text(id, data) =>
        nodes := nodes + [Entry(id, |text|, data)];
        text := text + data;
      case Comment =>
      case Element(id, skipped, children) =>
        if skipped {
          barriers := barriers + [Barrier(id, |text|)];
          text := text + [NUL];
          return;
        }
        for i := 0 to |children|
          invariant Contents() == VisitAll(children[..i], old(Contents()))
        {
          ghost var upto := children[..i + 1];
          assert upto[..|upto| - 1] == children[..i] && upto[|upto| - 1] == children[i];
          Walk(children[i]);
        }
        assert children[..|children|] == children;
    }
  }

  predicate Within(e: Entry, p: int) { e.start <= p < e.start + |e.data| }

  ghost predicate InNode(x: Index, p: int) {
    exists i :: 0 <= i < |x.nodes| && Within(x.nodes[i], p)
  }

  ghost predicate AtBarrier(x: Index, p: int) {
    exists b :: 0 <= b < |x.barriers| && x.barriers[b].at == p
  }

  /** Entries lie in order and spell the text; a position outside all of them is exactly that of a barrier, a NUL. */
  ghost predicate WellIndexed(x: Index) {
    && (forall i | 0 <= i < |x.nodes| :: Spelled(x.text, x.nodes[i]))
    && (forall i, j | 0 <= i < j < |x.nodes| :: x.nodes[i].start + |x.nodes[i].data| <= x.nodes[j].start)
    && (forall b | 0 <= b < |x.barriers| :: x.barriers[b].at < |x.text| && x.text[x.barriers[b].at] == NUL)
    && (forall p {:trigger InNode(x, p)} {:trigger AtBarrier(x, p)} | 0 <= p < |x.text| :: InNode(x, p) <==> !AtBarrier(x, p))
  }

  predicate Spelled(text: string, e: Entry) {
    e.start + |e.data| <= |text| && text[e.start..e.start + |e.data|] == e.data
  }

  lemma PlainIsInNode(x: Index, p: nat)
    requires WellIndexed(x) && p < |x.text| && x.text[p] != NUL
    ensures InNode(x, p)
  {
    assert !AtBarrier(x, p);
  }

  lemma AddTextKeeps(x: Index, id: int, data: string)
    requires WellIndexed(x)
    ensures WellIndexed(Index(x.text + data, x.nodes + [Entry(id, |x.text|, data)], x.barriers))
  {
    var y := Index(x.text + data, x.nodes + [Entry(id, |x.text|, data)], x.barriers);
    forall i | 0 <= i < |y.nodes| ensures Spelled(y.text, y.nodes[i]) {
      if i < |x.nodes| { assert Spelled(x.text, x.nodes[i]); }
    }
    forall i, j | 0 <= i < j < |y.nodes| ensures y.nodes[i].start + |y.nodes[i].data| <= y.nodes[j].start {
      assert Spelled(x.text, x.nodes[i]);
    }
    forall p | 0 <= p < |y.text| ensures InNode(y, p) <==> !AtBarrier(y, p) { AddTextPosition(x, y, p); }
  }

  lemma AddTextPosition(x: Index, y: Index, p: nat)
    requires WellIndexed(x) && p < |y.text| && y.barriers == x.barriers && x.text <= y.text
    requires |y.nodes| == |x.nodes| + 1 && y.nodes[..|x.nodes|] == x.nodes
    requires y.nodes[|x.nodes|].start == |x.text| && |x.text| + |y.nodes[|x.nodes|].data| == |y.text|
    ensures InNode(y, p) <==> !AtBarrier(y, p)
  {
    assert AtBarrier(y, p) <==> AtBarrier(x, p);
    forall i | 0 <= i < |x.nodes| ensures y.nodes[i] == x.nodes[i] { assert y.nodes[..|x.nodes|][i] == x.nodes[i]; }
    if p < |x.text| {
      assert InNode(x, p) <==> !AtBarrier(x, p);
      assert !Within(y.nodes[|x.nodes|], p);
      if InNode(x, p) { var i :| 0 <= i < |x.nodes| && Within(x.nodes[i], p); assert Within(y.nodes[i], p); }
    } else {
      assert Within(y.nodes[|x.nodes|], p);
    }
  }

  lemma AddBarrierKeeps(x: Index, id: int)
    requires WellIndexed(x)
    ensures WellIndexed(Index(x.text + [NUL], x.nodes, x.barriers + [Barrier(id, |x.text|)]))
  {
    var y := Index(x.text + [NUL], x.nodes, x.barriers + [Barrier(id, |x.text|)]);
    forall i | 0 <= i < |x.nodes| ensures Spelled(y.text, x.nodes[i]) { assert Spelled(x.text, x.nodes[i]); }
    forall p | 0 <= p < |y.text| ensures InNode(y, p) <==> !AtBarrier(y, p) { AddBarrierPosition(x, y, p); }
  }

  lemma AddBarrierPosition(x: Index, y: Index, p: nat)
    requires WellIndexed(x) && p < |y.text| == |x.text| + 1 && y.nodes == x.nodes
    requires |y.barriers| == |x.barriers| + 1 && y.barriers[..|x.barriers|] == x.barriers && y.barriers[|x.barriers|].at == |x.text|
    ensures InNode(y, p) <==> !AtBarrier(y, p)
  {
    assert InNode(y, p) <==> InNode(x, p);
    forall b | 0 <= b < |x.barriers| ensures y.barriers[b] == x.barriers[b] { assert y.barriers[..|x.barriers|][b] == x.barriers[b]; }
    if p < |x.text| {
      assert InNode(x, p) <==> !AtBarrier(x, p);
      if AtBarrier(x, p) { var b :| 0 <= b < |x.barriers| && x.barriers[b].at == p; assert y.barriers[b].at == p; }
    } else {
      assert y.barriers[|x.barriers|].at == p;
      forall i | 0 <= i < |x.nodes| ensures !Within(x.nodes[i], p) { assert Spelled(x.text, x.nodes[i]); }
    }
  }

  lemma {:induction false} VisitKeeps(node: Node, x: Index)
    requires WellIndexed(x)
    ensures WellIndexed(Visit(node, x))
  {
    match node
    case Text(id, data) => AddTextKeeps(x, id, data);
    case Element(id, skipped, children) => if skipped { AddBarrierKeeps(x, id); } else { VisitAllKeeps(children, x); }
    case Comment =>
  }

  lemma {:induction false} VisitAllKeeps(children: seq<Node>, x: Index)
    requires WellIndexed(x)
    ensures WellIndexed(VisitAll(children, x))
  {
    if children != [] {
      VisitAllKeeps(children[..|children| - 1], x);
      VisitKeeps(children[|children| - 1], VisitAll(children[..|children| - 1], x));
    }
  }

  // ---------------------------------------------------------------- capture

  datatype Anchor = Anchor(exact: string, prefix: string, suffix: string)

  /** The part after the last NUL. */
  function AfterLastNul(s: string): string {
    if s == "" || s[|s| - 1] == NUL then "" else AfterLastNul(s[..|s| - 1]) + [s[|s| - 1]]
  }

  /** The part before the first NUL. */
  function BeforeFirstNul(s: string): string {
    if s == "" || s[0] == NUL then "" else [s[0]] + BeforeFirstNul(s[1..])
  }

  /** Where the selection is taken to start: where its first node says, or where its text stands alone. */
  function CaptureStart(text: string, exact: string, guess: int): int {
    if Slice(text, guess, guess + |exact|) != exact then QuoteOffset(text, exact, "", "") else guess
  }

  /** `guess` is -1 when the selection does not start in an indexed text node. */
  function Capture(text: string, exact: string, guess: int): Option<Anchor> {
    var start := CaptureStart(text, exact, guess);
    if Blank(exact) || |exact| > 4096 || start < 0 then None
    else Some(Anchor(exact, AfterLastNul(Slice(text, Max(0, start - 48), start)),
                     BeforeFirstNul(Slice(text, start + |exact|, start + |exact| + 48))))
  }

  lemma {:induction false} AfterLastNulIs(s: string)
    ensures var r := AfterLastNul(s); |r| <= |s| && s[|s| - |r|..] == r && NUL !in r
  {
    if s != "" && s[|s| - 1] != NUL {
      var front := s[..|s| - 1];
      AfterLastNulIs(front);
      var r := AfterLastNul(front);
      assert s[|s| - |r| - 1..] == front[|front| - |r|..] + [s[|s| - 1]];
    }
  }

  lemma {:induction false} BeforeFirstNulIs(s: string)
    ensures var r := BeforeFirstNul(s); |r| <= |s| && s[..|r|] == r && NUL !in r
  {
    if s != "" && s[0] != NUL {
      BeforeFirstNulIs(s[1..]);
      var r := BeforeFirstNul(s[1..]);
      assert s[..|r| + 1] == [s[0]] + s[1..][..|r|];
    }
  }

  lemma QuoteOccurs(text: string, exact: string, prefix: string, suffix: string)
    requires QuoteOffset(text, exact, prefix, suffix) >= 0
    ensures Occurs(text, exact, QuoteOffset(text, exact, prefix, suffix)) && exact != "" && NUL !in exact
  {
    OccurrencesAre(text, exact, 0);
    var matches := Occurrences(text, exact, 0);
    ContextualAre(text, exact, prefix, suffix, matches);
    if |matches| == 1 {
      assert matches[0] in matches;
    } else {
      assert Contextual(text, exact, prefix, suffix, matches)[0] in matches;
    }
  }

  lemma CaptureOccurs(text: string, exact: string, guess: int)
    requires guess >= -1 && exact != "" && CaptureStart(text, exact, guess) >= 0
    ensures Occurs(text, exact, CaptureStart(text, exact, guess))
  {
    if Slice(text, guess, guess + |exact|) != exact {
      QuoteOccurs(text, exact, "", "");
    }
  }

  /** The captured context is the text around the start, as long as it stays free of barriers. */
  lemma CaptureContext(text: string, exact: string, guess: int)
    requires guess >= -1 && Capture(text, exact, guess).Some?
    ensures exact != "" && Occurs(text, exact, CaptureStart(text, exact, guess))
    ensures var a := Capture(text, exact, guess).value; InContext(text, exact, a.prefix, a.suffix, CaptureStart(text, exact, guess))
  {
    hide CaptureStart, InContext, AfterLastNul, BeforeFirstNul, Slice, QuoteOffset, Blank;
    assert exact != "" by { NotBlank(exact); }
    CaptureOccurs(text, exact, guess);
    assert 0 <= CaptureStart(text, exact, guess) <= |text| - |exact|;
    ContextAt(text, exact, CaptureStart(text, exact, guess));
  }

  lemma NotBlank(s: string)
    ensures !Blank(s) ==> s != ""
  {
  }

  lemma ContextAt(text: string, exact: string, start: nat)
    requires start + |exact| <= |text|
    ensures InContext(text, exact, AfterLastNul(Slice(text, Max(0, start - 48), start)),
                      BeforeFirstNul(Slice(text, start + |exact|, start + |exact| + 48)), start)
  {
    hide InContext, AfterLastNul, BeforeFirstNul, Slice;
    PrefixFits(text, start);
    SuffixFits(text, start + |exact|);
    ContextIs(text, exact, Anchor(exact, AfterLastNul(Slice(text, Max(0, start - 48), start)),
                                  BeforeFirstNul(Slice(text, start + |exact|, start + |exact| + 48))), start);
  }

  lemma ContextIs(text: string, exact: string, a: Anchor, start: nat)
    requires start + |exact| <= |text|
    requires a.prefix == "" || (|a.prefix| <= start && text[start - |a.prefix|..start] == a.prefix)
    requires a.suffix == "" || (start + |exact| + |a.suffix| <= |text| && text[start + |exact|..start + |exact| + |a.suffix|] == a.suffix)
    ensures InContext(text, exact, a.prefix, a.suffix, start)
  {
    if a.prefix != "" { SliceIs(text, start - |a.prefix|, start); }
    if a.suffix != "" { SliceIs(text, start + |exact|, start + |exact| + |a.suffix|); }
    hide Slice;
  }

  lemma SliceIs(text: string, a: nat, b: nat)
    requires a <= b <= |text|
    ensures Slice(text, a, b) == text[a..b]
    ensures EndsWith(text[a..b], text[a..b]) && StartsWith(text[a..b], text[a..b])
  {
  }

  lemma PrefixFits(text: string, start: nat)
    requires start <= |text|
    ensures var p := AfterLastNul(Slice(text, Max(0, start - 48), start)); |p| <= start && text[start - |p|..start] == p
  {
    var before := Slice(text, Max(0, start - 48), start);
    AfterLastNulIs(before);
    var p := AfterLastNul(before);
    hide AfterLastNul;
    assert before == text[Max(0, start - 48)..start];
    assert text[start - |p|..start] == before[|before| - |p|..];
  }

  lemma SuffixFits(text: string, from: nat)
    requires from <= |text|
    ensures var s := BeforeFirstNul(Slice(text, from, from + 48)); from + |s| <= |text| && text[from..from + |s|] == s
  {
    var after := Slice(text, from, from + 48);
    BeforeFirstNulIs(after);
    var s := BeforeFirstNul(after);
    hide BeforeFirstNul;
    assert after == text[from..Min(from + 48, |text|)];
    assert text[from..from + |s|] == after[..|s|];
  }

  /** On unchanged text a captured anchor resolves to the offset it was captured at, or not at all: never to another
      occurrence. It resolves exactly when no other occurrence shares its context. */
  lemma AnchorResolvesToItself(text: string, exact: string, guess: int)
    requires guess >= -1 && Capture(text, exact, guess).Some?
    ensures var a, at := Capture(text, exact, guess).value, CaptureStart(text, exact, guess);
      QuoteOffset(text, a.exact, a.prefix, a.suffix) ==
        if NUL !in exact && !Ambiguous(text, exact, a.prefix, a.suffix, at) then at else -1
  {
    CaptureContext(text, exact, guess);
    var a := Capture(text, exact, guess).value;
    QuoteIsFoundOrLost(text, exact, a.prefix, a.suffix, CaptureStart(text, exact, guess));
  }

  // ---------------------------------------------------------------- locate

  datatype Range = Range(first: nat, from: int, last: nat, to: int)

  method FindStart(nodes: seq<Entry>, offset: int) returns (i: nat)
    ensures i <= |nodes| && (i < |nodes| ==> nodes[i].start + |nodes[i].data| > offset)
    ensures forall k | 0 <= k < i :: nodes[k].start + |nodes[k].data| <= offset
  {
    i := 0;
    while i < |nodes|
      invariant i <= |nodes| && forall k | 0 <= k < i :: nodes[k].start + |nodes[k].data| <= offset
    {
      if nodes[i].start + |nodes[i].data| > offset { return; }
      i := i + 1;
    }
  }

  predicate EndsIn(e: Entry, end: int) { e.start < end && e.start + |e.data| >= end }

  method FindEnd(nodes: seq<Entry>, end: int) returns (i: nat)
    ensures i <= |nodes| && (i < |nodes| ==> EndsIn(nodes[i], end))
    ensures forall k | 0 <= k < i :: !EndsIn(nodes[k], end)
  {
    i := 0;
    while i < |nodes|
      invariant i <= |nodes| && forall k | 0 <= k < i :: !EndsIn(nodes[k], end)
    {
      if EndsIn(nodes[i], end) { return; }
      i := i + 1;
    }
  }

  /** What the range selects: the tail of its first node, the nodes between, the head of its last node. */
  function RangeText(nodes: seq<Entry>, r: Range): string
    requires r.first <= r.last < |nodes| && 0 <= r.from <= |nodes[r.first].data| && 0 <= r.to <= |nodes[r.last].data|
    requires r.first == r.last ==> r.from <= r.to
    decreases r.last - r.first
  {
    if r.first == r.last then nodes[r.first].data[r.from..r.to]
    else nodes[r.first].data[r.from..] + RangeText(nodes, Range(r.first + 1, 0, r.last, r.to))
  }

  ghost predicate Selects(x: Index, r: Range, exact: string) {
    && r.first <= r.last < |x.nodes| && 0 <= r.from <= |x.nodes[r.first].data| && 0 <= r.to <= |x.nodes[r.last].data|
    && (r.first == r.last ==> r.from <= r.to)
    && RangeText(x.nodes, r) == exact
  }

  /** The range runs over no barrier. */
  predicate Clear(x: Index, r: Range)
    requires r.first < |x.nodes| && r.last < |x.nodes|
  {
    forall b | 0 <= b < |x.barriers| ::
      !(x.nodes[r.first].start + r.from <= x.barriers[b].at < x.nodes[r.last].start + r.to)
  }

  predicate Plain(text: string, from: nat, to: nat)
    requires from <= to <= |text|
  {
    forall p | from <= p < to :: text[p] != NUL
  }

  lemma {:induction false} NodesSpell(x: Index, r: Range, offset: nat, end: nat)
    requires WellIndexed(x) && offset < end <= |x.text| && Plain(x.text, offset, end)
    requires r.first <= r.last < |x.nodes| && r.from == offset - x.nodes[r.first].start && r.to == end - x.nodes[r.last].start
    requires Within(x.nodes[r.first], offset) && Within(x.nodes[r.last], end - 1)
    ensures Selects(x, r, x.text[offset..end])
    decreases r.last - r.first, 1
  {
    var e := x.nodes[r.first];
    assert Spelled(x.text, e);
    if r.first == r.last {
      SliceOfEntry(x.text, e, offset, end);
      hide WellIndexed, Plain;
    } else {
      var next := e.start + |e.data|;
      assert next <= x.nodes[r.last].start;
      SliceOfEntry(x.text, e, offset, next);
      NextNode(x, r.first, next);
      SkipEmpty(x, r.first + 1, r.last, next, end, r.to);
      Join(x, r, offset, next, end);
    }
  }

  /** The tail of a node followed by what the rest of the range selects. */
  lemma Join(x: Index, r: Range, offset: nat, next: nat, end: nat)
    requires offset <= next <= end <= |x.text| && r.first < r.last < |x.nodes| && 0 <= r.from <= |x.nodes[r.first].data|
    requires x.text[offset..next] == x.nodes[r.first].data[r.from..|x.nodes[r.first].data|]
    requires Selects(x, Range(r.first + 1, 0, r.last, r.to), x.text[next..end])
    ensures Selects(x, r, x.text[offset..end])
  {
    assert x.text[offset..end] == x.text[offset..next] + x.text[next..end];
  }

  lemma SliceOfEntry(text: string, e: Entry, from: nat, to: nat)
    requires Spelled(text, e) && e.start <= from <= to <= e.start + |e.data|
    ensures text[from..to] == e.data[from - e.start..to - e.start]
  {
    forall p | 0 <= p < to - from ensures text[from..to][p] == e.data[from - e.start..to - e.start][p] {
      assert text[e.start..e.start + |e.data|][from - e.start + p] == text[from + p];
    }
  }

  /** Text without a barrier goes on in the following node, or that node is empty. */
  lemma NextNode(x: Index, i: nat, next: nat)
    requires WellIndexed(x) && i < |x.nodes| && next == x.nodes[i].start + |x.nodes[i].data| && next < |x.text| && x.text[next] != NUL
    ensures i + 1 < |x.nodes| && x.nodes[i + 1].start == next
    ensures Within(x.nodes[i + 1], next) || x.nodes[i + 1].data == ""
  {
    PlainIsInNode(x, next);
    var j :| 0 <= j < |x.nodes| && Within(x.nodes[j], next);
    assert j > i;
    if j > i + 1 { assert x.nodes[i + 1].start + |x.nodes[i + 1].data| <= x.nodes[j].start; }
  }

  lemma {:induction false} SkipEmpty(x: Index, i: nat, last: nat, next: nat, end: nat, to: int)
    requires WellIndexed(x) && next < end <= |x.text| && Plain(x.text, next, end)
    requires 0 < i <= last < |x.nodes| && x.nodes[i - 1].start + |x.nodes[i - 1].data| == next
    requires Within(x.nodes[last], end - 1) && to == end - x.nodes[last].start
    ensures Selects(x, Range(i, 0, last, to), x.text[next..end])
    decreases last - i, 2
  {
    NextNode(x, i - 1, next);
    hide Selects, WellIndexed;
    if Within(x.nodes[i], next) {
      NodesSpell(x, Range(i, 0, last, to), next, end);
    } else {
      assert i < last;
      SkipEmpty(x, i + 1, last, next, end, to);
    }
  }

  /** Locating a quotation in the index of a page: the range found spells it exactly and crosses no barrier. */
  method Locate(x: Index, a: Anchor) returns (r: Option<Range>)
    requires WellIndexed(x)
    ensures r.Some? <==> QuoteOffset(x.text, a.exact, a.prefix, a.suffix) >= 0
    ensures r.Some? ==> Selects(x, r.value, a.exact) && r.value.first < |x.nodes| && r.value.last < |x.nodes| && Clear(x, r.value)
    ensures r.Some? ==> r.value.first < |x.nodes| && x.nodes[r.value.first].start + r.value.from == QuoteOffset(x.text, a.exact, a.prefix, a.suffix)
  {
    hide WellIndexed, QuoteOffset, Selects;
    var offset := FindQuote(x.text, a.exact, a.prefix, a.suffix);
    if offset < 0 { return None; }
    QuoteOccurs(x.text, a.exact, a.prefix, a.suffix);
    var end := offset + |a.exact|;
    var first := FindStart(x.nodes, offset);
    var last := FindEnd(x.nodes, end);
    HoldsPosition(x, offset, end, first, last);
    r := Some(Range(first, offset - x.nodes[first].start, last, end - x.nodes[last].start));
    NodesSpell(x, r.value, offset, end);
    PlainIsClear(x, r.value, offset, end);
  }

  lemma PlainIsClear(x: Index, r: Range, offset: nat, end: nat)
    requires WellIndexed(x) && offset < end <= |x.text| && Plain(x.text, offset, end)
    requires r.first < |x.nodes| && r.last < |x.nodes| && r.from == offset - x.nodes[r.first].start && r.to == end - x.nodes[r.last].start
    ensures Clear(x, r)
  {
  }

  /** The nodes the two searches stop at hold the first and the last quoted position. */
  lemma HoldsPosition(x: Index, offset: nat, end: nat, first: nat, last: nat)
    requires WellIndexed(x) && offset < end <= |x.text| && x.text[offset] != NUL && x.text[end - 1] != NUL
    requires first <= |x.nodes| && (first < |x.nodes| ==> x.nodes[first].start + |x.nodes[first].data| > offset)
    requires forall k | 0 <= k < first :: x.nodes[k].start + |x.nodes[k].data| <= offset
    requires last <= |x.nodes| && (last < |x.nodes| ==> EndsIn(x.nodes[last], end))
    requires forall k | 0 <= k < last :: !EndsIn(x.nodes[k], end)
    ensures first <= last < |x.nodes| && Within(x.nodes[first], offset) && Within(x.nodes[last], end - 1)
  {
    PlainIsInNode(x, offset);
    PlainIsInNode(x, end - 1);
    var i :| 0 <= i < |x.nodes| && Within(x.nodes[i], offset);
    var j :| 0 <= j < |x.nodes| && Within(x.nodes[j], end - 1);
    assert EndsIn(x.nodes[j], end);
    assert first == i && last == j;
  }

  /** The index built of any page is in order, so `Locate` applies to it. */
  lemma PageIsWellIndexed(scope: Node)
    ensures WellIndexed(TextIndex(scope))
  {
    VisitKeeps(scope, Index("", [], []));
  }
}
