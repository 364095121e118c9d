/**
 What the SQL splitter keeps together and where it cuts, in terms of characters alone
 (splitSQL in internal/accountsmigrate/schema.go).
 */
module SplitText {
  import opened Common
  import opened SplitSql

  /** A character the scanner takes literally: no quote and no parenthesis. */
  predicate Literal(c: char) { c != '\'' && c != '"' && c != '`' && c != '(' && c != ')' }

  predicate IsLiteral(s: string) { forall i | 0 <= i < |s| :: Literal(s[i]) }

  lemma {:induction false} LiteralStays(depth: nat, s: string)
    requires IsLiteral(s)
    ensures Run(Scan(None, depth), s) == Scan(None, depth)
    decreases |s|
  {
    if s != "" {
      assert Literal(s[0]);
      LiteralStays(depth, s[1..]);
    }
  }

  lemma {:induction false} InQuote(q: char, depth: nat, s: string)
    requires forall i | 0 <= i < |s| :: s[i] != q
    ensures Run(Scan(Some(q), depth), s) == Scan(Some(q), depth)
    decreases |s|
  {
    if s != "" { InQuote(q, depth, s[1..]); }
  }

  lemma {:induction false} NoCutInQuote(q: char, depth: nat, s: string, d: char)
    requires forall i | 0 <= i < |s| :: s[i] != q
    ensures NoSplit(Scan(Some(q), depth), s, d)
    decreases |s|
  {
    if s != "" { NoCutInQuote(q, depth, s[1..], d); }
  }

  /** Literal text without the delimiter is kept together. */
  lemma {:induction false} LiteralIsClosed(s: string, d: char)
    requires IsLiteral(s) && forall i | 0 <= i < |s| :: s[i] != d
    ensures Closed(s, d)
    decreases |s|
  {
    if s != "" {
      assert Literal(s[0]);
      LiteralIsClosed(s[1..], d);
    }
  }

  /** Text between two equal quotes is kept together whatever it holds, delimiters, parentheses and other quotes included. */
  lemma QuotedIsClosed(q: char, s: string, d: char)
    requires q == '\'' || q == '"' || q == '`'
    requires forall i | 0 <= i < |s| :: s[i] != q
    ensures Closed([q] + s + [q], d)
  {
    var t := s + [q];
    assert [q] + s + [q] == [q] + t && ([q] + t)[1..] == t;
    InQuote(q, 0, s);
    NoCutInQuote(q, 0, s, d);
    RunConcat(Scan(Some(q), 0), s, [q]);
    NoSplitConcat(Scan(Some(q), 0), s, [q], d);
    assert [q][1..] == "";
  }

  /** Closed texts one after the other are closed, so a doubled quote stays inside its string. */
  lemma ClosedConcat(a: string, b: string, d: char)
    requires Closed(a, d) && Closed(b, d)
    ensures Closed(a + b, d)
  {
    RunConcat(Top, a, b);
    NoSplitConcat(Top, a, b, d);
  }

  /** One level deeper. */
  function Deeper(st: Scan): Scan {
    if st.Broken? then Broken else st.(depth := st.depth + 1)
  }

  lemma {:induction false} RunDeeper(st: Scan, s: string, d: char)
    requires Run(st, s) != Broken && Plain(d) && st.Scan?
    ensures Run(Deeper(st), s) == Deeper(Run(st, s)) && NoSplit(Deeper(st), s, d)
    decreases |s|
  {
    if s != "" {
      if Feed(st, s[0]).Broken? { BrokenStays(s[1..]); }
      RunDeeper(Feed(st, s[0]), s[1..], d);
    }
  }

  /** Balanced text in parentheses is kept together, with any delimiters in it. */
  lemma ParenthesisedIsClosed(s: string, d: char)
    requires Plain(d) && Run(Top, s) == Top
    ensures Closed("(" + s + ")", d)
  {
    RunDeeper(Top, s, d);
    var t := s + ")";
    assert "(" + s + ")" == "(" + t && ("(" + t)[1..] == t && ")"[1..] == "";
    assert Feed(Top, '(') == Deeper(Top);
    RunConcat(Deeper(Top), s, ")");
    NoSplitConcat(Deeper(Top), s, ")", d);
  }

  /** A delimiter after closed text cuts: what stands before it is the first piece, trimmed, and the rest is split on its own. */
  lemma DelimiterCuts(a: string, b: string, d: char)
    requires Plain(d) && Closed(a, d) && Split(b, d).Ok?
    ensures Split(a + [d] + b, d) == Ok((if Trim(a) == "" then [] else [Trim(a)]) + Split(b, d).value)
  {
    CutAtDelimiter(Top, "", a, b, d);
    assert "" + a == a;
    CleanPrepend(a, Pieces(Top, "", b, d));
    RunConcat(Top, a + [d], b);
    RunConcat(Top, a, [d]);
    assert [d][1..] == "";
  }

  /** An unfinished quote, an unfinished parenthesis and a closing parenthesis too many are errors. */
  lemma UnbalancedFails(a: string, s: string, q: char, d: char)
    requires Run(Top, a) == Top
    ensures (q == '\'' || q == '"' || q == '`') && (forall i | 0 <= i < |s| :: s[i] != q) ==> Split(a + [q] + s, d) == Err(())
    ensures Run(Top, s) == Top && Plain(d) ==> Split(a + "(" + s, d) == Err(())
    ensures Split(a + ")" + s, d) == Err(())
  {
    Continue(a, q, s);
    Continue(a, '(', s);
    Continue(a, ')', s);
    BrokenStays(s);
    if forall i | 0 <= i < |s| :: s[i] != q { InQuote(q, 0, s); }
    if Run(Top, s) == Top && Plain(d) { RunDeeper(Top, s, d); }
    assert "(" == ['('] && ")" == [')'];
  }

  /** A concatenation is cut where its parts meet. */
  lemma CutsBack(head: string, tail: string)
    ensures |head + tail| == |head| + |tail| && (head + tail)[|head|..] == tail && (head + tail)[..|head|] == head
  {
  }

  lemma BeginsWith(keyword: string, rest: string)
    requires forall i | 0 <= i < |keyword| :: Upper(keyword[i]) == keyword[i]
    ensures Begins(keyword + rest, keyword)
  {
  }

  /** With and without the word COLUMN a clause makes the same statement, and its definition is kept to the letter. */
  lemma ColumnKeywordIsOptional(name: string, definition: string)
    requires definition != "" && !IsSpace(definition[0]) && !IsSpace(definition[|definition| - 1]) && !Begins(definition, "COLUMN ")
    ensures var long := "ADD " + ("COLUMN " + definition);
      && Begins(long, "ADD ") && Begins("ADD " + definition, "ADD ")
      && ClauseSql(name, long) == ClauseSql(name, "ADD " + definition) == "ALTER TABLE `" + name + "` ADD " + definition
  {
    var column := "COLUMN " + definition;
    BeginsWith("ADD ", column);
    BeginsWith("ADD ", definition);
    BeginsWith("COLUMN ", definition);
    CutsBack("ADD ", column);
    CutsBack("ADD ", definition);
    CutsBack("COLUMN ", definition);
    assert column[0] == 'C' && column[|column| - 1] == definition[|definition| - 1];
    TrimFixed(column);
    TrimFixed(definition);
    hide Trim, Begins;
  }

  lemma Continue(a: string, c: char, s: string)
    requires Run(Top, a) == Top
    ensures Run(Top, a + [c] + s) == Run(Feed(Top, c), s)
  {
    RunConcat(Top, a, [c] + s);
    assert a + [c] + s == a + ([c] + s) && ([c] + s)[1..] == s;
  }
}
