/**
 A written SET clause and the statement splitter, which read the same quoting; and where the
 identifier reader does not: a mark doubled inside its own quotes.
 */
module SetScan {
  import opened Wrappers
  import opened SqlText
  import opened ValuesClause
  import opened SplitSql
  import opened SetClause

  // ----- names that hold their own mark -----

  lemma {:induction false} DoubledUpTo(a: string, b: string, mark: char)
    requires mark !in a
    ensures Doubled(a + ([mark] + b), mark) == a + ([mark] + ([mark] + Doubled(b, mark)))
  {
    var s := a + ([mark] + b);
    if a == [] {
      assert s == [mark] + b && s[1..] == b;
    } else {
      assert s[0] == a[0] && s[1..] == a[1..] + ([mark] + b) && a[0] in a;
      DoubledUpTo(a[1..], b, mark);
    }
  }

  lemma {:induction false} DoubledPlain(name: string, mark: char)
    requires mark !in name
    ensures Doubled(name, mark) == name
  {
    if name != [] {
      assert name[0] in name;
      DoubledPlain(name[1..], mark);
    }
  }

  lemma {:induction false} FirstMarkSplits(name: string, mark: char) returns (a: string, b: string)
    requires mark in name
    ensures name == a + ([mark] + b) && mark !in a
  {
    if name[0] == mark {
      a, b := [], name[1..];
      assert name == [mark] + b;
    } else {
      a, b := FirstMarkSplits(name[1..], mark);
      a := [name[0]] + a;
    }
  }

  /** A name written with its closing mark doubled, as the statement splitter reads it, is taken only
      up to its first such mark. */
  lemma {:induction false} StopsAtMark(open: char, close: char, a: string, b: string, rest: string)
    requires (open == '`' && close == '`') || (open == '[' && close == ']') || (open == '"' && close == '"')
    requires close !in a
    ensures TakeIdent([open] + (Doubled(a + ([close] + b), close) + ([close] + rest))).0 == Some(a)
  {
    var later := [close] + Doubled(b, close);
    var text := [open] + (Doubled(a + ([close] + b), close) + ([close] + rest));
    DoubledUpTo(a, b, close);
    ConcatAssoc(a, [close] + later, [close] + rest);
    ConcatAssoc([close], later, [close] + rest);
    TakeMarked([], open, close, a, later + ([close] + rest));
    assert [] + text == text;
  }

  /** So it is taken whole exactly when it holds no such mark. */
  lemma {:induction false} MarkedNameExact(open: char, close: char, name: string, rest: string)
    requires (open == '`' && close == '`') || (open == '[' && close == ']') || (open == '"' && close == '"')
    ensures TakeIdent([open] + (Doubled(name, close) + ([close] + rest))).0 == Some(name) <==> close !in name
  {
    hide TakeIdent;
    if close !in name {
      var text := [open] + (Doubled(name, close) + ([close] + rest));
      DoubledPlain(name, close);
      TakeMarked([], open, close, name, rest);
      assert [] + text == text;
    } else {
      var first, later := FirstMarkSplits(name, close);
      StopsAtMark(open, close, first, later, rest);
      assert |first| < |name|;
    }
  }

  // ----- the statement splitter reads the same quoting -----

  lemma {:induction false} BareIsText(name: string, rest: string)
    requires forall i :: 0 <= i < |name| ==> IdentChar(name[i])
    ensures Scan(Normal, name + rest) == Scan(Normal, rest)
    decreases |name|
  {
    if name == [] {
      assert name + rest == rest;
    } else {
      assert (name + rest)[0] == name[0] && (name + rest)[1..] == name[1..] + rest;
      assert Token(Normal, name + rest) == (Normal, 1);
      BareIsText(name[1..], rest);
    }
  }

  lemma {:induction false} MarkedIsText(mode: Mode, name: string, rest: string)
    requires IsQuoting(mode) && CloseMark(mode) !in name && (rest == [] || rest[0] != CloseMark(mode))
    ensures Scan(Normal, [OpenMark(mode)] + (name + [CloseMark(mode)]) + rest) == Scan(Normal, rest)
  {
    var open, close := [OpenMark(mode)], [CloseMark(mode)];
    DoubledPlain(name, CloseMark(mode));
    QuotedRunPasses(mode, name, rest);
    ConcatAssoc(name, close, rest);
    ConcatAssoc(open, name + close, rest);
  }

  lemma {:induction false} ColumnIsText(c: Column, rest: string)
    requires IsColumn(c) && rest != [] && (IsSpace(rest[0]) || rest[0] == '=')
    ensures Scan(Normal, ColumnText(c) + rest) == Scan(Normal, rest)
  {
    match c
    case Bare(name) => BareIsText(name, rest);
    case InDoubleQuotes(name) => MarkedIsText(SplitSql.Double, name, rest);
    case InBackticks(name) => MarkedIsText(Backtick, name, rest);
    case InBrackets(name) => MarkedIsText(Bracket, name, rest);
  }

  lemma {:induction false} SignIsText(rest: string)
    ensures Scan(Normal, "=" + rest) == Scan(Normal, rest)
  {
    assert ("=" + rest)[1..] == rest;
  }

  lemma {:induction false} CommaIsText(rest: string)
    ensures Scan(Normal, "," + rest) == Scan(Normal, rest)
  {
    assert ("," + rest)[1..] == rest;
  }

  lemma {:induction false} ValueIsText(val: string, rest: string)
    requires rest == [] || rest[0] != '\''
    ensures Scan(Normal, Quoted(val) + rest) == Scan(Normal, rest)
  {
    DoubleIsDoubled(val);
    ConcatAssoc(ValuesClause.Double(val), "'", rest);
    ConcatAssoc("'", ValuesClause.Double(val) + "'", rest);
    QuotedRunPasses(Single, val, rest);
  }

  /** The splitter reads the value from Normal to Normal. */
  predicate ClosedText(c: Content) {
    c.Expr? ==> Scan(Normal, c.text) == Some(Normal)
  }

  /** What comes after the value is no part of it. */
  predicate CanFollow(c: Content, rest: string) {
    if c.Str? then rest == [] || rest[0] != '\'' else Separable(rest)
  }

  lemma {:induction false} ContentIsText(c: Content, rest: string)
    requires ClosedText(c) && CanFollow(c, rest)
    ensures Scan(Normal, ContentText(c) + rest) == Scan(Normal, rest)
  {
    match c
    case Str(v) => ValueIsText(v, rest);
    case Expr(t) => ScanConcat(Normal, t, rest);
  }

  lemma {:induction false} AssignmentIsText(lead: string, pad: string, a: Assignment, rest: string)
    requires AllSpace(lead) && AllSpace(pad) && IsAssignment(a) && ClosedText(a.val) && CanFollow(a.val, rest)
    ensures Scan(Normal, (lead + AssignmentText(pad, a)) + rest) == Scan(Normal, rest)
  {
    var column, value := ColumnText(a.col), ContentText(a.val);
    var afterSign := pad + (value + rest);
    var afterColumn := pad + ("=" + afterSign);
    ConcatAssoc(pad, value, rest);
    ConcatAssoc("=", pad + value, rest);
    ConcatAssoc(pad, "=" + (pad + value), rest);
    ConcatAssoc(column, pad + ("=" + (pad + value)), rest);
    ConcatAssoc(lead, AssignmentText(pad, a), rest);
    assert (lead + AssignmentText(pad, a)) + rest == lead + (column + afterColumn);
    ScanLeadingSpaces(lead, column + afterColumn);
    assert IsSpace(afterColumn[0]) || afterColumn[0] == '=';
    ColumnIsText(a.col, afterColumn);
    ScanLeadingSpaces(pad, "=" + afterSign);
    SignIsText(afterSign);
    ScanLeadingSpaces(pad, value + rest);
    ContentIsText(a.val, rest);
  }

  /** However many ';', comment marks and quotes the strings and the marked columns hold, the splitter
      keeps a written SET clause in one statement and leaves it in Normal mode. */
  lemma {:induction false} SetNeverSplits(
    lead: string, gap: string, pad: string, assignments: seq<Assignment>, rest: string)
    requires AllSpace(lead) && AllSpace(gap) && AllSpace(pad)
    requires assignments != [] && forall a | a in assignments :: IsAssignment(a) && ClosedText(a.val)
    requires CanFollow(assignments[|assignments| - 1].val, rest)
    ensures Scan(Normal, SetText(lead, gap, pad, assignments) + rest) == Scan(Normal, rest)
    decreases |assignments|
  {
    hide Scan, AssignmentText, IsAssignment, ClosedText;
    var first := lead + AssignmentText(pad, assignments[0]);
    if |assignments| == 1 {
      AssignmentIsText(lead, pad, assignments[0], rest);
    } else {
      var later := SetText(gap, gap, pad, assignments[1..]);
      ConcatAssoc(",", later, rest);
      ConcatAssoc(first, "," + later, rest);
      AssignmentIsText(lead, pad, assignments[0], "," + (later + rest));
      CommaIsText(later + rest);
      SetNeverSplits(gap, gap, pad, assignments[1..], rest);
    }
  }
}
