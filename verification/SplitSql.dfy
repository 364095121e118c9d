/**
 splitSQL of internal/accountsmigrate/schema.go: cutting migration text at delimiters that
 stand outside quotes and parentheses.

 The Go loop looks one character ahead to skip doubled quotes. The specification is a plain
 character automaton without look-ahead, whose runs compose; the loop is proved to refine it.
 */
module SplitSql {
  import opened Common

  // Where the scanner stands; Broken is after an unmatched closing parenthesis.
  datatype Scan = Scan(quote: Option<char>, depth: nat) | Broken

  const Top := Scan(None, 0)

  predicate IsQuote(c: char) { c == '\'' || c == '"' || c == '`' }

  /** A delimiter the scanner does not interpret itself. The callers use ',' and ';'. */
  predicate Plain(c: char) { !IsQuote(c) && c != '(' && c != ')' }

  /** unicode.IsSpace, as strings.TrimSpace uses it. */
  predicate IsSpace(c: char) {
    c in {'\t', '\n', '\U{0B}', '\U{0C}', '\r', ' ', '\U{85}', '\U{A0}', '\U{1680}', '\U{2028}', '\U{2029}', '\U{202F}', '\U{205F}', '\U{3000}'}
    || '\U{2000}' <= c <= '\U{200A}'
  }

  function Feed(st: Scan, c: char): Scan {
    if st.Broken? then Broken
    else if st.quote.Some? then (if c == st.quote.value then st.(quote := None) else st)
    else if IsQuote(c) then st.(quote := Some(c))
    else if c == '(' then st.(depth := st.depth + 1)
    else if c == ')' then (if st.depth == 0 then Broken else st.(depth := st.depth - 1))
    else st
  }

  function Run(st: Scan, s: string): Scan
    decreases |s|
  {
    if s == "" then st else Run(Feed(st, s[0]), s[1..])
  }

  /** Whether the scanner in state st cuts at c: outside quotes, with all parentheses closed. */
  predicate Cuts(st: Scan, c: char, d: char) {
    c == d && st.Scan? && st.quote.None? && !IsQuote(c) && Feed(st, c) == Top
  }

  /** No delimiter of s stands at the top level when scanning starts in st. */
  predicate NoSplit(st: Scan, s: string, d: char)
    decreases |s|
  {
    s == "" || (!Cuts(st, s[0], d) && NoSplit(Feed(st, s[0]), s[1..], d))
  }

  /** The raw pieces of s, `cur` being the piece under construction. */
  function Pieces(st: Scan, cur: string, s: string, d: char): seq<string>
    decreases |s|
  {
    if s == "" then [cur]
    else if Cuts(st, s[0], d) then [cur] + Pieces(Top, "", s[1..], d)
    else Pieces(Feed(st, s[0]), cur + [s[0]], s[1..], d)
  }

  function TrimLeft(s: string): string {
    if s != "" && IsSpace(s[0]) then TrimLeft(s[1..]) else s
  }

  function TrimRight(s: string): string {
    if s != "" && IsSpace(s[|s| - 1]) then TrimRight(s[..|s| - 1]) else s
  }

  function Trim(s: string): string { TrimRight(TrimLeft(s)) }

  function Clean(pieces: seq<string>): seq<string> {
    if pieces == [] then []
    else
      var last := Trim(pieces[|pieces| - 1]);
      Clean(pieces[..|pieces| - 1]) + if last != "" then [last] else []
  }

  /** The specification: fail on unbalanced text, otherwise the trimmed non-empty pieces. */
  function Split(s: string, d: char): Result<seq<string>, ()> {
    if Run(Top, s) != Top then Err(()) else Ok(Clean(Pieces(Top, "", s, d)))
  }

  // ---------------------------------------------------------------- the loop

  /** What remains to be scanned agrees with the specification of the whole input. */
  ghost predicate Progress(input: string, d: char, raw: seq<string>, st: Scan, start: nat, i: nat) {
    && start <= i <= |input|
    && Run(Top, input) == Run(st, input[i..])
    && Pieces(Top, "", input, d) == raw + Pieces(st, input[start..i], input[i..], d)
  }

  /** One character of the automaton. */
  lemma Advance(input: string, d: char, raw: seq<string>, st: Scan, start: nat, i: nat)
    requires Progress(input, d, raw, st, start, i) && i < |input|
    ensures if Cuts(st, input[i], d) then Progress(input, d, raw + [input[start..i]], Top, i + 1, i + 1)
            else Progress(input, d, raw, Feed(st, input[i]), start, i + 1)
  {
    assert input[i..][0] == input[i] && input[i..][1..] == input[i + 1..];
    assert input[start..i] + [input[i]] == input[start..i + 1] && input[i + 1..i + 1] == "";
  }

  lemma Finish(input: string, d: char, raw: seq<string>, st: Scan, start: nat)
    requires Progress(input, d, raw, st, start, |input|)
    ensures Split(input, d) == if st == Top then Ok(Clean(raw + [input[start..]])) else Err(())
  {
    assert input[|input|..] == "" && input[start..|input|] == input[start..];
  }

  method SplitSQL(input: string, delimiter: char) returns (r: Result<seq<string>, ()>)
    ensures r == Split(input, delimiter)
  {
    hide Progress, Split, Clean, Trim;
    var output: seq<string> := [];
    ghost var raw: seq<string> := [];
    var quote: Option<char> := None;
    var depth, start, i := 0, 0, 0;
    Begin(input, delimiter);
    while i < |input|
      invariant 0 <= start <= i <= |input| && depth >= 0
      invariant Progress(input, delimiter, raw, Scan(quote, depth), start, i)
      invariant output == Clean(raw)
      invariant quote.Some? ==> IsQuote(quote.value)
    {
      var c := input[i];
      Advance(input, delimiter, raw, Scan(quote, depth), start, i);
      if quote.Some? {
        if c == quote.value {
          if i + 1 < |input| && input[i + 1] == quote.value {
            Advance(input, delimiter, raw, Scan(None, depth), start, i + 1);
            i := i + 2;
            continue;
          }
          quote := None;
        }
        i := i + 1;
        continue;
      }
      if IsQuote(c) {
        quote := Some(c);
        i := i + 1;
        continue;
      }
      if c == '(' {
        depth := depth + 1;
      }
      if c == ')' {
        depth := depth - 1;
      }
      if depth < 0 {
        BrokenStays(input[i + 1..]);
        BrokenFails(input, delimiter, raw, start, i + 1);
        return Err(());
      }
      if c == delimiter && depth == 0 {
        var part := Trim(input[start..i]);
        CleanSnoc(raw, input[start..i]);
        if part != "" {
          output := output + [part];
        }
        raw := raw + [input[start..i]];
        start := i + 1;
      }
      i := i + 1;
    }
    Finish(input, delimiter, raw, Scan(quote, depth), start);
    if quote.Some? || depth != 0 {
      return Err(());
    }
    var part := Trim(input[start..]);
    CleanSnoc(raw, input[start..]);
    if part != "" {
      output := output + [part];
    }
    return Ok(output);
  }

  lemma Begin(input: string, d: char)
    ensures Progress(input, d, [], Top, 0, 0) && Clean([]) == []
  {
    assert input[0..] == input && input[0..0] == "" && [] + Pieces(Top, "", input, d) == Pieces(Top, "", input, d);
  }

  lemma BrokenFails(input: string, d: char, raw: seq<string>, start: nat, i: nat)
    requires Progress(input, d, raw, Broken, start, i) && Run(Broken, input[i..]) == Broken
    ensures Split(input, d) == Err(())
  {
  }

  lemma CleanSnoc(raw: seq<string>, p: string)
    ensures Clean(raw + [p]) == if Trim(p) != "" then Clean(raw) + [Trim(p)] else Clean(raw)
  {
    assert (raw + [p])[..|raw|] == raw;
  }

  lemma {:induction false} BrokenStays(s: string)
    ensures Run(Broken, s) == Broken
    decreases |s|
  {
    if s != "" { BrokenStays(s[1..]); }
  }

  // ---------------------------------------------------------------- composition

  lemma {:induction false} RunConcat(st: Scan, a: string, b: string)
    ensures Run(st, a + b) == Run(Run(st, a), b)
    decreases |a|
  {
    if a == "" {
      assert a + b == b;
    } else {
      assert (a + b)[1..] == a[1..] + b;
      RunConcat(Feed(st, a[0]), a[1..], b);
    }
  }

  lemma {:induction false} NoSplitConcat(st: Scan, a: string, b: string, d: char)
    ensures NoSplit(st, a + b, d) <==> NoSplit(st, a, d) && NoSplit(Run(st, a), b, d)
    decreases |a|
  {
    if a == "" {
      assert a + b == b;
    } else {
      assert (a + b)[1..] == a[1..] + b;
      NoSplitConcat(Feed(st, a[0]), a[1..], b, d);
    }
  }

  lemma {:induction false} WholePiece(st: Scan, cur: string, s: string, d: char)
    requires NoSplit(st, s, d)
    ensures Pieces(st, cur, s, d) == [cur + s]
    decreases |s|
  {
    if s == "" {
      assert cur + s == cur;
    } else {
      assert cur + [s[0]] + s[1..] == cur + s;
      WholePiece(Feed(st, s[0]), cur + [s[0]], s[1..], d);
    }
  }

  lemma {:induction false} CutAtDelimiter(st: Scan, cur: string, a: string, b: string, d: char)
    requires Plain(d) && NoSplit(st, a, d) && Run(st, a) == Top
    ensures Pieces(st, cur, a + [d] + b, d) == [cur + a] + Pieces(Top, "", b, d)
    decreases |a|
  {
    var s := a + [d] + b;
    if a == "" {
      assert s[0] == d && s[1..] == b && cur + a == cur;
    } else {
      assert s[0] == a[0] && s[1..] == a[1..] + [d] + b;
      assert cur + [a[0]] + a[1..] == cur + a;
      CutAtDelimiter(Feed(st, a[0]), cur + [a[0]], a[1..], b, d);
    }
  }

  // ---------------------------------------------------------------- round trip

  /** Balanced text without a top-level delimiter. */
  predicate Closed(p: string, d: char) { Run(Top, p) == Top && NoSplit(Top, p, d) }

  /** What a caller may put between delimiters: closed, trimmed and not empty. */
  predicate SelfContained(p: string, d: char) { Closed(p, d) && p != "" && Trim(p) == p }

  function Join(parts: seq<string>, d: char): string {
    if parts == [] then ""
    else if |parts| == 1 then parts[0]
    else parts[0] + [d] + Join(parts[1..], d)
  }

  lemma {:induction false} CleanPrepend(p: string, ps: seq<string>)
    ensures Clean([p] + ps) == (if Trim(p) != "" then [Trim(p)] else []) + Clean(ps)
  {
    var all := [p] + ps;
    if ps == [] {
      assert all[..|all| - 1] == [];
    } else {
      assert all[..|all| - 1] == [p] + ps[..|ps| - 1];
      CleanPrepend(p, ps[..|ps| - 1]);
    }
  }

  lemma {:induction false} JoinSplits(parts: seq<string>, d: char)
    requires Plain(d) && forall p | p in parts :: SelfContained(p, d)
    ensures Run(Top, Join(parts, d)) == Top && Clean(Pieces(Top, "", Join(parts, d), d)) == parts
  {
    if parts == [] {
      CleanPrepend("", []);
    } else if |parts| == 1 {
      assert SelfContained(parts[0], d);
      WholePiece(Top, "", parts[0], d);
      CleanPrepend(parts[0], []);
      assert "" + parts[0] == parts[0] && [parts[0]] + [] == [parts[0]] == parts;
    } else {
      var p, rest := parts[0], parts[1..];
      assert SelfContained(p, d);
      JoinSplits(rest, d);
      var tail := Join(rest, d);
      CutAtDelimiter(Top, "", p, tail, d);
      assert "" + p == p;
      CleanPrepend(p, Pieces(Top, "", tail, d));
      RunConcat(Top, p + [d], tail);
      RunConcat(Top, p, [d]);
      assert Feed(Top, d) == Top && [d][1..] == "";
      assert [p] + rest == parts;
    }
  }

  /** Round trip: joining self-contained parts and splitting again gives the same parts. */
  lemma SplitAfterJoin(parts: seq<string>, d: char)
    requires Plain(d) && forall p | p in parts :: SelfContained(p, d)
    ensures Split(Join(parts, d), d) == Ok(parts)
  {
    JoinSplits(parts, d);
  }

  // ---------------------------------------------------------------- pieces are self-contained

  lemma {:induction false} PiecesClosed(st: Scan, cur: string, s: string, d: char)
    requires Plain(d) && Run(Top, cur) == st && NoSplit(Top, cur, d) && Run(st, s) == Top
    ensures forall p | p in Pieces(st, cur, s, d) :: Closed(p, d)
    decreases |s|
  {
    if s == "" {
    } else if Cuts(st, s[0], d) {
      PiecesClosed(Top, "", s[1..], d);
    } else {
      var c := [s[0]];
      RunConcat(Top, cur, c);
      NoSplitConcat(Top, cur, c, d);
      assert c[1..] == "";
      PiecesClosed(Feed(st, s[0]), cur + c, s[1..], d);
    }
  }

  lemma {:induction false} TrimLeftCloses(p: string, d: char)
    requires Closed(p, d)
    ensures Closed(TrimLeft(p), d) && (TrimLeft(p) != "" ==> !IsSpace(TrimLeft(p)[0]))
  {
    if p != "" && IsSpace(p[0]) {
      TrimLeftCloses(p[1..], d);
    }
  }

  predicate QuoteOk(st: Scan) { st.Scan? && st.quote.Some? ==> IsQuote(st.quote.value) }

  lemma {:induction false} QuotesAreQuotes(st: Scan, s: string)
    requires QuoteOk(st)
    ensures QuoteOk(Run(st, s))
    decreases |s|
  {
    if s != "" { QuotesAreQuotes(Feed(st, s[0]), s[1..]); }
  }

  /** Removing trailing spaces cannot cut into a quote: the scan ends outside of one. */
  lemma {:induction false} TrimRightCloses(p: string, d: char)
    requires Closed(p, d)
    ensures Closed(TrimRight(p), d)
    ensures TrimRight(p) <= p && (TrimRight(p) != "" ==> !IsSpace(TrimRight(p)[|TrimRight(p)| - 1]))
  {
    if p != "" && IsSpace(p[|p| - 1]) {
      var front, c := p[..|p| - 1], p[|p| - 1];
      assert p == front + [c] && [c][1..] == "";
      RunConcat(Top, front, [c]);
      NoSplitConcat(Top, front, [c], d);
      assert Feed(Run(Top, front), c) == Top;
      QuotesAreQuotes(Top, front);
      TrimRightCloses(front, d);
    }
  }

  lemma {:induction false} TrimFixed(p: string)
    requires p != "" ==> !IsSpace(p[0]) && !IsSpace(p[|p| - 1])
    ensures Trim(p) == p
  {
  }

  lemma TrimCloses(p: string, d: char)
    requires Closed(p, d)
    ensures Closed(Trim(p), d) && Trim(Trim(p)) == Trim(p)
  {
    TrimLeftCloses(p, d);
    TrimRightCloses(TrimLeft(p), d);
    TrimFixed(Trim(p));
  }

  lemma {:induction false} CleanKeeps(pieces: seq<string>, d: char)
    requires forall p | p in pieces :: Closed(p, d)
    ensures forall q | q in Clean(pieces) :: SelfContained(q, d)
  {
    if pieces != [] {
      CleanKeeps(pieces[..|pieces| - 1], d);
      TrimCloses(pieces[|pieces| - 1], d);
    }
  }

  /** Every piece of a successful split is balanced and splits to itself alone. */
  lemma PiecesSplitToThemselves(s: string, d: char)
    requires Plain(d) && Split(s, d).Ok?
    ensures forall p | p in Split(s, d).value :: SelfContained(p, d) && Split(p, d) == Ok([p])
  {
    PiecesClosed(Top, "", s, d);
    CleanKeeps(Pieces(Top, "", s, d), d);
    forall p | p in Split(s, d).value ensures SelfContained(p, d) && Split(p, d) == Ok([p]) {
      JoinSplits([p], d);
    }
  }

  /** Splitting loses nothing but empty pieces and outer space: the raw pieces join to the text. */
  lemma {:induction false} PiecesJoin(st: Scan, cur: string, s: string, d: char)
    ensures Pieces(st, cur, s, d) != [] && Join(Pieces(st, cur, s, d), d) == cur + s
    decreases |s|
  {
    if s == "" {
      assert cur + s == cur;
    } else if Cuts(st, s[0], d) {
      PiecesJoin(Top, "", s[1..], d);
      var rest := Pieces(Top, "", s[1..], d);
      assert ([cur] + rest)[1..] == rest;
      assert cur + [d] + ("" + s[1..]) == cur + s;
    } else {
      PiecesJoin(Feed(st, s[0]), cur + [s[0]], s[1..], d);
      assert cur + [s[0]] + s[1..] == cur + s;
    }
  }

  // ---------------------------------------------------------------- one clause, one statement

  /** Cutting at d leaves no new top-level e behind. */
  lemma {:induction false} PiecesKeepOther(st: Scan, cur: string, s: string, d: char, e: char)
    requires Plain(d) && Run(Top, cur) == st && NoSplit(Top, cur, e) && NoSplit(st, s, e)
    ensures forall p | p in Pieces(st, cur, s, d) :: NoSplit(Top, p, e)
    decreases |s|
  {
    if s == "" {
    } else if Cuts(st, s[0], d) {
      PiecesKeepOther(Top, "", s[1..], d, e);
    } else {
      var c := [s[0]];
      RunConcat(Top, cur, c);
      NoSplitConcat(Top, cur, c, e);
      assert c[1..] == "";
      PiecesKeepOther(Feed(st, s[0]), cur + c, s[1..], d, e);
    }
  }

  /** Every character acts injectively on the scanner, so two scans that end well together began together. */
  lemma {:induction false} RunIsInjective(a: Scan, b: Scan, s: string)
    requires QuoteOk(a) && QuoteOk(b) && Run(a, s) == Run(b, s) && Run(a, s).Scan?
    ensures a == b
    decreases |s|
  {
    if s != "" {
      if a.Broken? || b.Broken? { BrokenStays(s); }
      QuotesAreQuotes(a, [s[0]]);
      QuotesAreQuotes(b, [s[0]]);
      assert [s[0]][1..] == "";
      if Feed(a, s[0]).Broken? || Feed(b, s[0]).Broken? { BrokenStays(s[1..]); }
      RunIsInjective(Feed(a, s[0]), Feed(b, s[0]), s[1..]);
    }
  }

  /** Text without quotes and parentheses does not move the scanner. */
  lemma {:induction false} PlainRun(s: string)
    requires forall i | 0 <= i < |s| :: Plain(s[i])
    ensures Run(Top, s) == Top
    decreases |s|
  {
    if s != "" { PlainRun(s[1..]); }
  }

  lemma {:induction false} QuotedRun(quote: char, s: string)
    requires forall i | 0 <= i < |s| :: s[i] != quote
    ensures Run(Scan(Some(quote), 0), s) == Scan(Some(quote), 0)
    decreases |s|
  {
    if s != "" { QuotedRun(quote, s[1..]); }
  }

  lemma {:induction false} NoDelimiter(st: Scan, s: string, d: char)
    requires forall i | 0 <= i < |s| :: s[i] != d
    ensures NoSplit(st, s, d)
    decreases |s|
  {
    if s != "" { NoDelimiter(Feed(st, s[0]), s[1..], d); }
  }

  lemma {:induction false} TrimKeepsLast(s: string)
    requires s != "" && !IsSpace(s[|s| - 1])
    ensures TrimLeft(s) != "" && TrimLeft(s)[|TrimLeft(s)| - 1] == s[|s| - 1]
    decreases |s|
  {
    if IsSpace(s[0]) { TrimKeepsLast(s[1..]); }
  }

  function Upper(c: char): char { if 'a' <= c <= 'z' then c - 'a' + 'A' else c }

  /** The upper-cased text starts with the keyword. */
  predicate Begins(s: string, keyword: string) {
    |keyword| <= |s| && forall i | 0 <= i < |keyword| :: Upper(s[i]) == keyword[i]
  }

  predicate IsKeyword(keyword: string) {
    && keyword != "" && keyword[|keyword| - 1] == ' '
    && forall i | 0 <= i < |keyword| :: 'A' <= keyword[i] <= 'Z' || keyword[i] == ' '
  }

  /** What follows a keyword of a self-contained text is, trimmed, self-contained again. */
  lemma AfterKeyword(s: string, keyword: string, d: char)
    requires SelfContained(s, d) && IsKeyword(keyword) && Begins(s, keyword)
    ensures SelfContained(Trim(s[|keyword|..]), d)
  {
    var head, rest := s[..|keyword|], s[|keyword|..];
    assert s == head + rest;
    forall i | 0 <= i < |head| ensures Plain(head[i]) { assert Upper(s[i]) == keyword[i]; }
    PlainRun(head);
    RunConcat(Top, head, rest);
    NoSplitConcat(Top, head, rest, d);
    TrimLeftCloses(s, d);
    TrimRightCloses(TrimLeft(s), d);
    assert Upper(s[|keyword| - 1]) == ' ';
    assert rest != "" && rest[|rest| - 1] == s[|s| - 1];
    TrimKeepsLast(rest);
    TrimCloses(rest, d);
  }

  /** The definition ParseDDL keeps of an ADD clause. */
  function Definition(clause: string): string
    requires Begins(clause, "ADD ")
  {
    var definition := Trim(clause[4..]);
    if Begins(definition, "COLUMN ") then Trim(definition[7..]) else definition
  }

  predicate IsName(name: string) {
    forall i | 0 <= i < |name| :: 'a' <= name[i] <= 'z' || 'A' <= name[i] <= 'Z' || '0' <= name[i] <= '9' || name[i] == '_'
  }

  /** The statement ParseDDL makes of one clause. */
  function ClauseSql(name: string, clause: string): string
    requires Begins(clause, "ADD ")
  {
    "ALTER TABLE `" + name + "` ADD " + Definition(clause)
  }

  lemma QuotedNameRun(name: string)
    requires IsName(name)
    ensures Run(Top, ['`'] + name + ['`']) == Top
  {
    var inside := Scan(Some('`'), 0);
    RunConcat(Top, ['`'] + name, ['`']);
    RunConcat(Top, ['`'], name);
    assert ['`'][1..] == "" && Feed(Top, '`') == inside && Feed(inside, '`') == Top;
    QuotedRun('`', name);
  }

  lemma PrefixCloses(name: string)
    requires IsName(name)
    ensures Closed("ALTER TABLE `" + name + "` ADD ", ';')
  {
    hide Run, NoSplit;
    var prefix := "ALTER TABLE `" + name + "` ADD ";
    var quoted := ['`'] + name + ['`'];
    QuotedNameRun(name);
    PlainRun("ALTER TABLE ");
    PlainRun(" ADD ");
    RunConcat(Top, "ALTER TABLE ", quoted);
    RunConcat(Top, "ALTER TABLE " + quoted, " ADD ");
    assert prefix == "ALTER TABLE " + quoted + " ADD ";
    NoDelimiter(Top, prefix, ';');
  }

  /** The clauses of a statement are self-contained also as statements: wherever the body of the statement begins, a
      body that splits at all begins outside every quote and parenthesis. */
  lemma ClausesAreClosed(text: string, statement: string, head: string, body: string, clause: string)
    requires Split(text, ';').Ok? && statement in Split(text, ';').value && statement == head + body
    requires Split(body, ',').Ok? && clause in Split(body, ',').value
    ensures SelfContained(clause, ';')
  {
    PiecesSplitToThemselves(text, ';');
    RunConcat(Top, head, body);
    QuotesAreQuotes(Top, head);
    RunIsInjective(Run(Top, head), Top, body);
    NoSplitConcat(Top, head, body, ';');
    PiecesClosed(Top, "", body, ',');
    PiecesKeepOther(Top, "", body, ',', ';');
    var raw := Pieces(Top, "", body, ',');
    assert forall p | p in raw :: Closed(p, ';');
    CleanKeeps(raw, ';');
  }

  /**
   What the additive planner relies on when it parses each step again: an ADD clause cut out of any statement of the
   migration text, with ADD and COLUMN removed and a fresh prefix, is exactly one statement.
  */
  lemma ClauseIsOneStatement(text: string, statement: string, head: string, body: string, clause: string, name: string)
    requires Split(text, ';').Ok? && statement in Split(text, ';').value && statement == head + body
    requires Split(body, ',').Ok? && clause in Split(body, ',').value && Begins(clause, "ADD ") && IsName(name)
    ensures Definition(clause) != "" && Split(ClauseSql(name, clause), ';') == Ok([ClauseSql(name, clause)])
  {
    ClausesAreClosed(text, statement, head, body, clause);
    AfterKeyword(clause, "ADD ", ';');
    var definition := Trim(clause[4..]);
    if Begins(definition, "COLUMN ") { AfterKeyword(definition, "COLUMN ", ';'); }
    PrefixCloses(name);
    PrefixedIsOneStatement("ALTER TABLE `" + name + "` ADD ", Definition(clause));
  }

  lemma PrefixedIsOneStatement(prefix: string, definition: string)
    requires Closed(prefix, ';') && prefix != "" && !IsSpace(prefix[0]) && SelfContained(definition, ';')
    ensures Split(prefix + definition, ';') == Ok([prefix + definition])
  {
    var whole := prefix + definition;
    RunConcat(Top, prefix, definition);
    NoSplitConcat(Top, prefix, definition, ';');
    TrimLeftCloses(definition, ';');
    TrimRightCloses(TrimLeft(definition), ';');
    assert whole[|whole| - 1] == definition[|definition| - 1];
    TrimFixed(whole);
    JoinSplits([whole], ';');
  }
}
