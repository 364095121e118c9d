/**
 What the text index of a page contains and what a captured anchor holds, in terms of the page tree and of character
 positions (api/webprojects/container/runtime.js).
 */
module AnchorTexts {
  import opened Common
  import opened Anchors

  // ---------------------------------------------------------------- the page in document order

  /** The text nodes and barriers of a page in document order; nothing below a barrier and no comment is seen. */
  function Leaves(node: Node): seq<Node> {
    match node
    case Text(_, _) => [node]
    case Comment => []
    case Element(_, skipped, children) => if skipped then [node] else LeavesOfAll(children)
  }

  function LeavesOfAll(children: seq<Node>): seq<Node> {
    if children == [] then [] else Leaves(children[0]) + LeavesOfAll(children[1..])
  }

  /** Text nodes read as their data, barriers as one NUL. */
  function Spell(leaves: seq<Node>): string {
    if leaves == [] then ""
    else (match leaves[0] case Text(_, data) => data case _ => [NUL]) + Spell(leaves[1..])
  }

  function TextLeaves(leaves: seq<Node>): seq<(int, string)> {
    if leaves == [] then []
    else (match leaves[0] case Text(id, data) => [(id, data)] case _ => []) + TextLeaves(leaves[1..])
  }

  function BarrierLeaves(leaves: seq<Node>): seq<int> {
    if leaves == [] then []
    else (match leaves[0] case Element(id, _, _) => [id] case _ => []) + BarrierLeaves(leaves[1..])
  }

  function EntriesOf(nodes: seq<Entry>): seq<(int, string)> {
    seq(|nodes|, i requires 0 <= i < |nodes| => (nodes[i].node, nodes[i].data))
  }

  function NodesOf(barriers: seq<Barrier>): seq<int> {
    seq(|barriers|, i requires 0 <= i < |barriers| => barriers[i].node)
  }

  /** y is x followed by these leaves. */
  predicate Extends(x: Index, y: Index, leaves: seq<Node>) {
    && y.text == x.text + Spell(leaves)
    && EntriesOf(y.nodes) == EntriesOf(x.nodes) + TextLeaves(leaves)
    && NodesOf(y.barriers) == NodesOf(x.barriers) + BarrierLeaves(leaves)
  }

  lemma {:induction false} SpellConcat(a: seq<Node>, b: seq<Node>)
    ensures Spell(a + b) == Spell(a) + Spell(b)
  {
    if a == [] {
      assert a + b == b;
    } else {
      assert (a + b)[0] == a[0] && (a + b)[1..] == a[1..] + b;
      SpellConcat(a[1..], b);
    }
  }

  lemma {:induction false} TextsConcat(a: seq<Node>, b: seq<Node>)
    ensures TextLeaves(a + b) == TextLeaves(a) + TextLeaves(b)
  {
    if a == [] {
      assert a + b == b;
    } else {
      assert (a + b)[0] == a[0] && (a + b)[1..] == a[1..] + b;
      TextsConcat(a[1..], b);
    }
  }

  lemma {:induction false} BarriersConcat(a: seq<Node>, b: seq<Node>)
    ensures BarrierLeaves(a + b) == BarrierLeaves(a) + BarrierLeaves(b)
  {
    if a == [] {
      assert a + b == b;
    } else {
      assert (a + b)[0] == a[0] && (a + b)[1..] == a[1..] + b;
      BarriersConcat(a[1..], b);
    }
  }

  lemma {:induction false} LeavesSnoc(children: seq<Node>, last: Node)
    ensures LeavesOfAll(children + [last]) == LeavesOfAll(children) + Leaves(last)
  {
    var all := children + [last];
    if children == [] {
      assert all[0] == last && all[1..] == [] && LeavesOfAll([]) == [];
    } else {
      assert all[0] == children[0] && all[1..] == children[1..] + [last];
      LeavesSnoc(children[1..], last);
    }
  }

  lemma ExtendsTwice(x: Index, y: Index, z: Index, a: seq<Node>, b: seq<Node>)
    requires Extends(x, y, a) && Extends(y, z, b)
    ensures Extends(x, z, a + b)
  {
    SpellConcat(a, b);
    TextsConcat(a, b);
    BarriersConcat(a, b);
    hide Spell, TextLeaves, BarrierLeaves, EntriesOf, NodesOf;
  }

  lemma {:induction false} VisitExtends(node: Node, x: Index)
    ensures Extends(x, Visit(node, x), Leaves(node))
  {
    match node
    case Text(id, data) =>
      assert [node][1..] == [] && Spell([node]) == data + "" && TextLeaves([node]) == [(id, data)];
    case Comment =>
    case Element(id, skipped, children) =>
      if skipped {
        assert [node][1..] == [] && Spell([node]) == [NUL] + "" && BarrierLeaves([node]) == [id];
      } else {
        VisitAllExtends(children, x);
      }
  }

  lemma {:induction false} VisitAllExtends(children: seq<Node>, x: Index)
    ensures Extends(x, VisitAll(children, x), LeavesOfAll(children))
  {
    if children != [] {
      var front, last := children[..|children| - 1], children[|children| - 1];
      assert children == front + [last];
      hide Extends;
      VisitAllExtends(front, x);
      VisitExtends(last, VisitAll(front, x));
      LeavesSnoc(front, last);
      ExtendsTwice(x, VisitAll(front, x), VisitAll(children, x), LeavesOfAll(front), Leaves(last));
    }
  }

  /** The index of a page spells its leaves in document order and lists every text node and every barrier exactly once. */
  lemma IndexIsTheWholePage(scope: Node)
    ensures var x := TextIndex(scope);
      x.text == Spell(Leaves(scope)) && EntriesOf(x.nodes) == TextLeaves(Leaves(scope)) && NodesOf(x.barriers) == BarrierLeaves(Leaves(scope))
  {
    VisitExtends(scope, Index("", [], []));
  }

  // ---------------------------------------------------------------- context and capture

  /** For an occurrence the context fits exactly when the characters before and after it are the prefix and the suffix. */
  lemma ContextDecides(text: string, exact: string, prefix: string, suffix: string, k: int)
    requires Occurs(text, exact, k)
    ensures InContext(text, exact, prefix, suffix, k) <==>
      && |prefix| <= k && text[k - |prefix|..k] == prefix
      && k + |exact| + |suffix| <= |text| && text[k + |exact|..k + |exact| + |suffix|] == suffix
  {
    var from, to := Max(0, k - |prefix|), k + |exact|;
    if prefix != "" { assert Slice(text, from, k) == text[from..k]; }
    if suffix != "" { assert Slice(text, to, to + |suffix|) == text[to..Min(to + |suffix|, |text|)]; }
    assert prefix == "" ==> text[k..k] == prefix;
    assert suffix == "" ==> text[to..to] == suffix;
  }

  /** A quotation without context is found exactly when it stands in the text once. */
  lemma AloneDecides(text: string, exact: string, k: int)
    requires k >= 0
    ensures QuoteOffset(text, exact, "", "") == k <==>
      exact != "" && NUL !in exact && Occurs(text, exact, k) && forall j | Occurs(text, exact, j) :: j == k
  {
    if exact != "" && Occurs(text, exact, k) {
      QuoteIsFoundOrLost(text, exact, "", "", k);
    } else if QuoteOffset(text, exact, "", "") == k {
      QuoteOccurs(text, exact, "", "");
    }
  }

  /** Where the selection really stands: at the guess if its text is there, otherwise where its text stands alone. */
  predicate StandsAt(text: string, exact: string, guess: int, start: int) {
    if guess >= 0 && Occurs(text, exact, guess) then start == guess
    else NUL !in exact && Occurs(text, exact, start) && forall j | 0 <= j <= |text| && Occurs(text, exact, j) :: j == start
  }

  /** As much of the 48 characters before `at` as follows the last barrier among them. */
  predicate IsPrefix(text: string, at: int, prefix: string) {
    && |prefix| <= at <= |text| && |prefix| <= 48 && text[at - |prefix|..at] == prefix && NUL !in prefix
    && (|prefix| == 48 || |prefix| == at || text[at - |prefix| - 1] == NUL)
  }

  /** As much of the 48 characters from `at` on as precedes the first barrier among them. */
  predicate IsSuffix(text: string, at: int, suffix: string) {
    && 0 <= at && at + |suffix| <= |text| && |suffix| <= 48 && text[at..at + |suffix|] == suffix && NUL !in suffix
    && (|suffix| == 48 || at + |suffix| == |text| || text[at + |suffix|] == NUL)
  }

  lemma {:induction false} AfterLastNulStops(s: string)
    ensures |AfterLastNul(s)| <= |s| && (|AfterLastNul(s)| < |s| ==> s[|s| - |AfterLastNul(s)| - 1] == NUL)
  {
    if s != "" && s[|s| - 1] != NUL { AfterLastNulStops(s[..|s| - 1]); }
  }

  lemma {:induction false} BeforeFirstNulStops(s: string)
    ensures |BeforeFirstNul(s)| <= |s| && (|BeforeFirstNul(s)| < |s| ==> s[|BeforeFirstNul(s)|] == NUL)
  {
    if s != "" && s[0] != NUL { BeforeFirstNulStops(s[1..]); }
  }

  lemma PrefixIs(text: string, at: nat)
    requires at <= |text|
    ensures IsPrefix(text, at, AfterLastNul(Slice(text, Max(0, at - 48), at)))
  {
    var before := Slice(text, Max(0, at - 48), at);
    AfterLastNulIs(before);
    AfterLastNulStops(before);
    PrefixFits(text, at);
    assert before == text[Max(0, at - 48)..at];
    hide AfterLastNul;
  }

  lemma SuffixIs(text: string, at: nat)
    requires at <= |text|
    ensures IsSuffix(text, at, BeforeFirstNul(Slice(text, at, at + 48)))
  {
    var after := Slice(text, at, at + 48);
    BeforeFirstNulIs(after);
    BeforeFirstNulStops(after);
    SuffixFits(text, at);
    assert after == text[at..Min(at + 48, |text|)];
    hide BeforeFirstNul;
  }

  lemma GuessDecides(text: string, exact: string, guess: int)
    requires guess >= -1 && exact != ""
    ensures Slice(text, guess, guess + |exact|) == exact <==> guess >= 0 && Occurs(text, exact, guess)
  {
  }

  lemma StartDecides(text: string, exact: string, guess: int)
    requires guess >= -1 && exact != ""
    ensures forall start | start >= 0 :: CaptureStart(text, exact, guess) == start <==> StandsAt(text, exact, guess, start)
    ensures CaptureStart(text, exact, guess) >= -1
  {
    hide QuoteOffset, Slice;
    GuessDecides(text, exact, guess);
    LostIsMinusOne(text, exact, "", "");
    forall start | start >= 0 ensures CaptureStart(text, exact, guess) == start <==> StandsAt(text, exact, guess, start) {
      AloneDecides(text, exact, start);
      assert forall j | Occurs(text, exact, j) :: 0 <= j <= |text|;
    }
  }

  lemma LostIsMinusOne(text: string, exact: string, prefix: string, suffix: string)
    ensures QuoteOffset(text, exact, prefix, suffix) >= -1
  {
    if QuoteOffset(text, exact, prefix, suffix) != -1 {
      OccurrencesAre(text, exact, 0);
      ContextualAre(text, exact, prefix, suffix, Occurrences(text, exact, 0));
      var k := QuoteOffset(text, exact, prefix, suffix);
      assert k in Occurrences(text, exact, 0);
    }
  }

  /** A selection is captured exactly when it is not blank, not longer than 4096 characters, and its place in the page text is
      known; the anchor holds its text and up to 48 characters before and after it, cut at the nearest barriers. */
  lemma CaptureDecides(text: string, exact: string, guess: int)
    requires guess >= -1
    ensures Capture(text, exact, guess).Some? <==>
      (exists i :: 0 <= i < |exact| && !IsSpace(exact[i])) && |exact| <= 4096 && exists start :: start >= 0 && StandsAt(text, exact, guess, start)
    ensures Capture(text, exact, guess).Some? ==>
      forall start | start >= 0 && StandsAt(text, exact, guess, start) ::
        var a := Capture(text, exact, guess).value; a.exact == exact && IsPrefix(text, start, a.prefix) && IsSuffix(text, start + |exact|, a.suffix)
  {
    hide *;
    CaptureParts(text, exact, guess);
    BlankDecides(exact);
    if exact != "" {
      StartDecides(text, exact, guess);
      var start := CaptureStart(text, exact, guess);
      if start >= 0 { assert StandsAt(text, exact, guess, start); }
    }
  }

  lemma BlankDecides(exact: string)
    ensures !Blank(exact) <==> exists i :: 0 <= i < |exact| && !IsSpace(exact[i])
    ensures exact == "" ==> Blank(exact)
  {
  }

  lemma CaptureParts(text: string, exact: string, guess: int)
    requires guess >= -1
    ensures var start := CaptureStart(text, exact, guess);
      && (Capture(text, exact, guess).Some? <==> !Blank(exact) && |exact| <= 4096 && start >= 0)
      && (Capture(text, exact, guess).Some? ==>
            var a := Capture(text, exact, guess).value; a.exact == exact && IsPrefix(text, start, a.prefix) && IsSuffix(text, start + |exact|, a.suffix))
  {
    hide CaptureStart, Slice, AfterLastNul, BeforeFirstNul, Blank, IsPrefix, IsSuffix, QuoteOffset;
    var start := CaptureStart(text, exact, guess);
    if Capture(text, exact, guess).Some? {
      NotBlank(exact);
      CaptureOccurs(text, exact, guess);
      assert 0 <= start <= |text| - |exact|;
      PrefixIs(text, start);
      SuffixIs(text, start + |exact|);
    }
  }
}
