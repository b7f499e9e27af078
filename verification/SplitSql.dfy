/**
 The statement splitter: a seven-mode scanner with one character of lookahead.
 */
module SplitSql {
  import opened Wrappers
  import opened SqlText
  import opened Pieces

  datatype Mode = Normal | Single | Double | Backtick | Bracket | LineComment | BlockComment

  predicate Peek(s: string, c: char) {
    1 < |s| && s[1] == c
  }

  /** Inside a quoted run that `close` ends: a doubled `close` stays inside. */
  function QuotedToken(mode: Mode, s: string, close: char): (Mode, nat)
    requires s != []
  {
    if s[0] == close then (if Peek(s, close) then (mode, 2) else (Normal, 1)) else (mode, 1)
  }

  /** The mode after the next token, and how many characters it takes. */
  function Token(mode: Mode, s: string): (r: (Mode, nat))
    requires s != []
    ensures 1 <= r.1 <= 2 && r.1 <= |s|
  {
    match mode
    case Normal =>
      if s[0] == '\'' then (Single, 1)
      else if s[0] == '"' then (Double, 1)
      else if s[0] == '`' then (Backtick, 1)
      else if s[0] == '[' then (Bracket, 1)
      else if s[0] == '-' && Peek(s, '-') then (LineComment, 2)
      else if s[0] == '/' && Peek(s, '*') then (BlockComment, 2)
      else (Normal, 1)
    case Single => QuotedToken(mode, s, '\'')
    case Double => QuotedToken(mode, s, '"')
    case Backtick => QuotedToken(mode, s, '`')
    case Bracket => QuotedToken(mode, s, ']')
    case LineComment => (if s[0] == '\n' then Normal else LineComment, 1)
    case BlockComment => if s[0] == '*' && Peek(s, '/') then (Normal, 2) else (BlockComment, 1)
  }

  predicate IsSeparator(mode: Mode, s: string) {
    mode == Normal && s != [] && s[0] == ';'
  }

  /** The raw text between separators, untrimmed. */
  function Segments(mode: Mode, s: string): (segs: seq<string>)
    ensures 0 < |segs|
    decreases |s|
  {
    if s == [] then [[]]
    else if IsSeparator(mode, s) then [[]] + Segments(Normal, s[1..])
    else
      var (after, k) := Token(mode, s);
      Prepend(s[..k], Segments(after, s[k..]))
  }

  /** The trimmed segments that are not empty, in order. */
  function Statements(segs: seq<string>): seq<string> {
    if segs == [] then []
    else
      var t := Trim(segs[0]);
      (if t == [] then [] else [t]) + Statements(segs[1..])
  }

  function Split(sql: string): seq<string> {
    Statements(Segments(Normal, sql))
  }

  lemma {:induction false} StatementsHead(current: string, others: seq<string>)
    ensures Statements([current] + others) == (if Trim(current) == [] then [] else [Trim(current)]) + Statements(others)
  {
    assert ([current] + others)[1..] == others;
  }

  /** What the split comes to from the middle of a statement. */
  function Remaining(statements: seq<string>, current: string, mode: Mode, rest: string): seq<string> {
    statements + Statements(Prepend(current, Segments(mode, rest)))
  }

  /** The scanner as the program runs it: one pass over the characters, with the mode, the text of
      the current statement and the finished statements as its variables. */
  method SplitStatements(sql: string) returns (statements: seq<string>)
    ensures statements == Split(sql)
  {
    hide Remaining, Segments, Statements, Trim;
    statements := [];
    var current: string := [];
    var mode := Normal;
    var i := 0;
    RemainingAtStart(sql);
    while i < |sql|
      invariant i <= |sql|
      invariant Remaining(statements, current, mode, sql[i..]) == Split(sql)
    {
      var c := sql[i];
      var peeked := if i + 1 < |sql| then Some(sql[i + 1]) else None;
      ghost var rest, was, mode0 := sql[i..], current, mode;
      var width := 1;
      if mode == Normal && c == ';' {
        SeparatorStep(statements, current, rest);
        var stmt := Trim(current);
        if stmt != [] {
          statements := statements + [stmt];
        }
        current := [];
      } else {
        current := current + [c];
        match mode {
          case Normal =>
            if c == '\'' { mode := Single; }
            else if c == '"' { mode := Double; }
            else if c == '`' { mode := Backtick; }
            else if c == '[' { mode := Bracket; }
            else if c == '-' && peeked == Some('-') { mode := LineComment; current := current + ['-']; width := 2; }
            else if c == '/' && peeked == Some('*') { mode := BlockComment; current := current + ['*']; width := 2; }
          case Single =>
            if c == '\'' {
              if peeked == Some('\'') { current := current + ['\'']; width := 2; } else { mode := Normal; }
            }
          case Double =>
            if c == '"' {
              if peeked == Some('"') { current := current + ['"']; width := 2; } else { mode := Normal; }
            }
          case Backtick =>
            if c == '`' {
              if peeked == Some('`') { current := current + ['`']; width := 2; } else { mode := Normal; }
            }
          case Bracket =>
            if c == ']' {
              if peeked == Some(']') { current := current + [']']; width := 2; } else { mode := Normal; }
            }
          case LineComment =>
            if c == '\n' { mode := Normal; }
          case BlockComment =>
            if c == '*' && peeked == Some('/') { current := current + ['/']; width := 2; mode := Normal; }
        }
        TokenStep(statements, was, mode0, rest, current, mode, width);
      }
      assert rest[width..] == sql[i + width..];
      i := i + width;
    }
    RemainingAtEnd(statements, current, mode, sql[i..]);
    var stmt := Trim(current);
    if stmt != [] {
      statements := statements + [stmt];
    }
  }

  lemma RemainingAtStart(sql: string)
    ensures Remaining([], [], Normal, sql[0..]) == Split(sql)
  {
    assert sql[0..] == sql;
    PrependNothing(Segments(Normal, sql));
  }

  lemma RemainingAtEnd(statements: seq<string>, current: string, mode: Mode, rest: string)
    requires rest == []
    ensures Remaining(statements, current, mode, rest)
            == if Trim(current) == [] then statements else statements + [Trim(current)]
  {
    assert Prepend(current, [[]]) == [current] by { assert current + [] == current; }
    StatementsHead(current, []);
    assert [current] + [] == [current];
  }

  lemma SeparatorStep(before: seq<string>, current: string, s: string)
    requires IsSeparator(Normal, s)
    ensures
      var after := if Trim(current) == [] then before else before + [Trim(current)];
      Remaining(before, current, Normal, s) == Remaining(after, [], Normal, s[1..])
  {
    var rest := Segments(Normal, s[1..]);
    PrependNothing(rest);
    assert current + [] == current;
    assert Prepend(current, Segments(Normal, s)) == [current] + rest;
    StatementsHead(current, rest);
    if Trim(current) != [] {
      ConcatAssoc(before, [Trim(current)], Statements(rest));
    }
  }

  /** The characters the scanner has pushed are those of the token. */
  lemma TokenStep(before: seq<string>, was: string, mode: Mode, s: string, current: string, after: Mode, k: nat)
    requires s != [] && !IsSeparator(mode, s) && Token(mode, s) == (after, k)
    requires current == if k == 1 then was + [s[0]] else was + [s[0]] + [s[1]]
    ensures Remaining(before, was, mode, s) == Remaining(before, current, after, s[k..])
  {
    var segs := Segments(after, s[k..]);
    assert current == was + s[..k] by {
      if k == 2 {
        assert s[..2] == [s[0]] + [s[1]];
      }
    }
    ConcatAssoc(was, s[..k], segs[0]);
  }

  // ----- nothing is lost -----

  /** The segments put back together with ';' are the input. */
  lemma {:induction false} RejoinIsInput(mode: Mode, s: string)
    ensures Rejoin(Segments(mode, s), ";") == s
    decreases |s|
  {
    hide Token, Prepend;
    if s == [] {
    } else if IsSeparator(mode, s) {
      RejoinIsInput(Normal, s[1..]);
      assert ([[]] + Segments(Normal, s[1..]))[1..] == Segments(Normal, s[1..]);
    } else {
      var (after, k) := Token(mode, s);
      RejoinIsInput(after, s[k..]);
      RejoinPrepend(s[..k], Segments(after, s[k..]), ";");
    }
  }

  /** The mode in which the scanner comes to position `i`, None when `i` is inside a token. */
  function ModeAt(mode: Mode, s: string, i: nat): Option<Mode>
    requires i <= |s|
    decreases |s|
  {
    if i == 0 then Some(mode)
    else
      var (after, k) := if IsSeparator(mode, s) then (Normal, 1) else Token(mode, s);
      if i < k then None else ModeAt(after, s[k..], i - k)
  }

  /** A character separates exactly when it is a ';' the scanner meets in Normal mode. */
  lemma {:induction false} CutsAreNormalSemicolons(mode: Mode, s: string, i: nat)
    requires i < |s|
    ensures IsCut(Segments(mode, s), i) <==> s[i] == ';' && ModeAt(mode, s, i) == Some(Normal)
    decreases |s|
  {
    hide IsCut, Segments, ModeAt;
    if IsSeparator(mode, s) {
      if 0 < i {
        CutsAreNormalSemicolons(Normal, s[1..], i - 1);
      }
      CutsAtSeparator(mode, s, i);
    } else {
      var (after, k) := Token(mode, s);
      if k <= i {
        CutsAreNormalSemicolons(after, s[k..], i - k);
      }
      CutsAtToken(mode, s, i);
    }
  }

  lemma {:induction false} CutsAtSeparator(mode: Mode, s: string, i: nat)
    requires i < |s| && IsSeparator(mode, s)
    requires 0 < i ==> (IsCut(Segments(Normal, s[1..]), i - 1)
        <==> s[i] == ';' && ModeAt(Normal, s[1..], i - 1) == Some(Normal))
    ensures IsCut(Segments(mode, s), i) <==> s[i] == ';' && ModeAt(mode, s, i) == Some(Normal)
  {
    var rest := Segments(Normal, s[1..]);
    if i == 0 {
      assert CutAt([[]] + rest, 0) == 0;
    } else {
      CutsShift(rest, i - 1);
    }
  }

  lemma {:induction false} CutsAtToken(mode: Mode, s: string, i: nat)
    requires i < |s| && !IsSeparator(mode, s)
    requires
      var (after, k) := Token(mode, s);
      k <= i ==> (IsCut(Segments(after, s[k..]), i - k)
          <==> s[i] == ';' && ModeAt(after, s[k..], i - k) == Some(Normal))
    ensures IsCut(Segments(mode, s), i) <==> s[i] == ';' && ModeAt(mode, s, i) == Some(Normal)
  {
    hide Token, IsCut, Prepend;
    var (after, k) := Token(mode, s);
    var rest := Segments(after, s[k..]);
    if i < k {
      NoCutInside(s[..k], rest, i);
    } else {
      CutsPrepended(s[..k], rest, i - k);
    }
  }

  // ----- splitting again -----

  /** The final mode over text with no separator, None when there is one. */
  function Scan(mode: Mode, s: string): Option<Mode>
    decreases |s|
  {
    if s == [] then Some(mode)
    else if IsSeparator(mode, s) then None
    else
      var (after, k) := Token(mode, s);
      Scan(after, s[k..])
  }

  lemma {:induction false} ScanIsOneSegment(mode: Mode, s: string)
    ensures Scan(mode, s).Some? <==> |Segments(mode, s)| == 1
    ensures Scan(mode, s).Some? ==> Segments(mode, s) == [s]
    decreases |s|
  {
    if s != [] && !IsSeparator(mode, s) {
      var (after, k) := Token(mode, s);
      ScanIsOneSegment(after, s[k..]);
      assert s[..k] + s[k..] == s;
    }
  }

  /** The characters that can be the second of a two-character token. */
  predicate Completes(c: char) {
    c in "-*'\"`]/"
  }

  /** What follows `a` cannot join its last character in a token. */
  predicate Separable(b: string) {
    b == [] || !Completes(b[0])
  }

  lemma TokenOfPrefix(mode: Mode, a: string, b: string)
    requires a != [] && Separable(b)
    ensures Token(mode, a + b) == Token(mode, a) && IsSeparator(mode, a + b) == IsSeparator(mode, a)
  {
    if |a| == 1 {
      assert b != [] ==> (a + b)[1] == b[0];
    } else {
      assert (a + b)[1] == a[1];
    }
  }

  lemma {:induction false} ScanConcat(mode: Mode, a: string, b: string)
    requires Separable(b)
    ensures Scan(mode, a + b) == if Scan(mode, a).None? then None else Scan(Scan(mode, a).value, b)
    decreases |a|
  {
    if a == [] {
      assert a + b == b;
    } else {
      TokenOfPrefix(mode, a, b);
      if !IsSeparator(mode, a) {
        var (after, k) := Token(mode, a);
        SliceOfConcat(a, b, k);
        ScanConcat(after, a[k..], b);
      }
    }
  }

  // ----- quoted runs -----

  predicate IsQuoting(mode: Mode) {
    mode in [Single, Double, Backtick, Bracket]
  }

  function OpenMark(mode: Mode): char
    requires IsQuoting(mode)
  {
    match mode case Single => '\'' case Double => '"' case Backtick => '`' case Bracket => '['
  }

  function CloseMark(mode: Mode): char
    requires IsQuoting(mode)
  {
    if mode == Bracket then ']' else OpenMark(mode)
  }

  /** The text with every `mark` written twice. */
  function Doubled(v: string, mark: char): string {
    if v == [] then []
    else (if v[0] == mark then [mark, mark] else [v[0]]) + Doubled(v[1..], mark)
  }

  lemma {:induction false} QuotedInside(mode: Mode, v: string, rest: string)
    requires IsQuoting(mode) && (rest == [] || rest[0] != CloseMark(mode))
    ensures Scan(mode, Doubled(v, CloseMark(mode)) + ([CloseMark(mode)] + rest)) == Scan(Normal, rest)
    decreases |v|
  {
    var close := CloseMark(mode);
    var s := Doubled(v, close) + ([close] + rest);
    if v == [] {
      assert s == [close] + rest && s[1..] == rest;
    } else {
      var after := Doubled(v[1..], close) + ([close] + rest);
      QuotedInside(mode, v[1..], rest);
      ConcatAssoc(if v[0] == close then [close, close] else [v[0]], Doubled(v[1..], close), [close] + rest);
      if v[0] == close {
        assert s == [close, close] + after && s[2..] == after;
        assert Token(mode, s) == (mode, 2);
      } else {
        assert s == [v[0]] + after && s[1..] == after;
        assert Token(mode, s) == (mode, 1);
      }
    }
  }

  /** Text quoted in any of the four ways, its closing marks doubled, is passed over whatever it
      contains. */
  lemma {:induction false} QuotedRunPasses(mode: Mode, v: string, rest: string)
    requires IsQuoting(mode) && (rest == [] || rest[0] != CloseMark(mode))
    ensures
      var run := Doubled(v, CloseMark(mode)) + ([CloseMark(mode)] + rest);
      Scan(Normal, [OpenMark(mode)] + run) == Scan(Normal, rest)
  {
    var run := Doubled(v, CloseMark(mode)) + ([CloseMark(mode)] + rest);
    var s := [OpenMark(mode)] + run;
    QuotedInside(mode, v, rest);
    assert Token(Normal, s) == (mode, 1) && s[1..] == run;
  }

  lemma {:induction false} SegmentsConcat(mode: Mode, a: string, b: string)
    requires Scan(mode, a) == Some(Normal)
    ensures Segments(mode, a + (";" + b)) == [a] + Segments(Normal, b)
    decreases |a|
  {
    var tail := ";" + b;
    if a == [] {
      assert a + tail == tail && tail[1..] == b;
    } else {
      TokenOfPrefix(mode, a, tail);
      var (after, k) := Token(mode, a);
      SliceOfConcat(a, tail, k);
      SegmentsConcat(after, a[k..], b);
      PrependHead(a[..k], a[k..], Segments(Normal, b));
    }
  }

  /** Whitespace before a statement leaves the scanner in Normal, whatever follows. */
  lemma {:induction false} ScanLeadingSpaces(x: string, b: string)
    requires AllSpace(x)
    ensures Scan(Normal, x + b) == Scan(Normal, b)
  {
    if x == [] {
      assert x + b == b;
    } else {
      assert (x + b)[1..] == x[1..] + b;
      ScanLeadingSpaces(x[1..], b);
    }
  }

  /** Whitespace changes the mode only by ending a line comment. */
  lemma {:induction false} ScanSpaces(mode: Mode, y: string)
    requires AllSpace(y)
    decreases |y|
    ensures Scan(mode, y) == Some(if mode == LineComment && '\n' in y then Normal else mode)
  {
    hide Token;
    if y != [] {
      SpaceToken(mode, y);
      assert y == [y[0]] + y[1..];
      ScanSpaces(Token(mode, y).0, y[1..]);
    }
  }

  lemma SpaceToken(mode: Mode, y: string)
    requires y != [] && IsSpace(y[0])
    ensures Token(mode, y) == (if mode == LineComment && y[0] == '\n' then Normal else mode, 1) && !IsSeparator(mode, y)
  {
  }

  /** Every raw segment scans alone from Normal; all but the last end in Normal. */
  ghost predicate Scannable(segs: seq<string>) {
    && (forall i :: 0 <= i < |segs| ==> Scan(Normal, segs[i]).Some?)
    && (forall i :: 0 <= i < |segs| - 1 ==> Scan(Normal, segs[i]) == Some(Normal))
  }

  lemma {:induction false} SegmentsScan(mode: Mode, s: string)
    ensures
      var segs := Segments(mode, s);
      && Scan(mode, segs[0]).Some? && (1 < |segs| ==> Scan(mode, segs[0]) == Some(Normal))
      && Scannable(segs[1..])
    decreases |s|
  {
    if s == [] {
    } else if IsSeparator(mode, s) {
      SegmentsScan(Normal, s[1..]);
      var rest := Segments(Normal, s[1..]);
      assert ([[]] + rest)[1..] == rest;
      assert forall i :: 0 < i < |rest| ==> rest[i] == rest[1..][i - 1];
    } else {
      var (after, k) := Token(mode, s);
      var rest := Segments(after, s[k..]);
      SegmentsScan(after, s[k..]);
      RejoinIsInput(after, s[k..]);
      TokenInSegment(mode, s, k, rest);
      var first := s[..k] + rest[0];
      assert first[k..] == rest[0];
      assert Prepend(s[..k], rest)[1..] == rest[1..];
    }
  }

  /** Cutting the text at the next separator does not change the token before it. */
  lemma {:induction false} TokenInSegment(mode: Mode, s: string, k: nat, rest: seq<string>)
    requires s != [] && !IsSeparator(mode, s) && k == Token(mode, s).1
    requires 0 < |rest| && Rejoin(rest, ";") == s[k..]
    ensures
      var first := s[..k] + rest[0];
      Token(mode, first) == Token(mode, s) && !IsSeparator(mode, first)
  {
    var first := s[..k] + rest[0];
    if k == 2 {
      SameTwo(mode, s, first);
    } else if rest[0] == [] {
      assert s == first + s[k..];
      assert 1 < |rest| ==> Rejoin(rest, ";")[0] == ';';
      TokenOfPrefix(mode, first, s[k..]);
    } else {
      assert s[k..][0] == rest[0][0];
      SameTwo(mode, s, first);
    }
  }

  lemma SameTwo(mode: Mode, s: string, t: string)
    requires 1 < |s| && 1 < |t| && s[0] == t[0] && s[1] == t[1]
    ensures Token(mode, s) == Token(mode, t) && IsSeparator(mode, s) == IsSeparator(mode, t)
  {
  }

  /** A statement as `Split` returns it: trimmed, not empty, with no separator of its own. */
  predicate IsStatement(t: string) {
    t != [] && Tight(t) && Scan(Normal, t).Some?
  }

  /** Ending it with a newline brings the scanner back to Normal. */
  predicate Closes(t: string) {
    Scan(Normal, t) in [Some(Normal), Some(LineComment)]
  }

  lemma {:induction false} TrimmedSegment(seg: string)
    requires Scan(Normal, seg).Some? && Trim(seg) != []
    ensures IsStatement(Trim(seg))
    ensures Scan(Normal, seg) == Some(Normal) ==> Closes(Trim(seg))
  {
    var x, y := TrimSplits(seg);
    var t := Trim(seg);
    ConcatAssoc(x, t, y);
    ScanLeadingSpaces(x, t + y);
    assert Separable(y);
    ScanConcat(Normal, t, y);
    ScanSpaces(Scan(Normal, t).value, y);
  }

  /** All are statements, and all but the last close. */
  ghost predicate WellSplit(ts: seq<string>) {
    && (forall i :: 0 <= i < |ts| ==> IsStatement(ts[i]))
    && (forall i :: 0 <= i < |ts| - 1 ==> Closes(ts[i]))
  }

  lemma {:induction false} StatementsWellSplit(segs: seq<string>)
    requires Scannable(segs)
    ensures WellSplit(Statements(segs))
  {
    if segs != [] {
      var rest := segs[1..];
      assert Scannable(rest);
      StatementsWellSplit(rest);
      if Trim(segs[0]) != [] {
        TrimmedSegment(segs[0]);
      }
      if |segs| == 1 {
        assert Statements(rest) == [];
      }
    }
  }

  lemma SplitIsWellSplit(s: string)
    ensures WellSplit(Split(s))
  {
    SegmentsScan(Normal, s);
    var segs := Segments(Normal, s);
    assert forall i :: 0 < i < |segs| ==> segs[i] == segs[1..][i - 1];
    StatementsWellSplit(segs);
  }

  /** Each statement, split again, is itself. */
  lemma ResplitStatement(t: string)
    requires IsStatement(t)
    ensures Split(t) == [t]
  {
    ScanIsOneSegment(Normal, t);
    TrimOfTight(t);
    StatementsHead(t, []);
    assert [t] + [] == [t];
  }

  /** The statements written one after the other, each but the last ended by a newline and ';'. */
  function Script(ts: seq<string>): string {
    if ts == [] then []
    else if |ts| == 1 then ts[0]
    else ts[0] + "\n" + ";" + Script(ts[1..])
  }

  lemma {:induction false} ScriptRoundTrip(ts: seq<string>)
    requires WellSplit(ts)
    ensures Split(Script(ts)) == ts
  {
    if ts == [] {
      StatementsHead([], []);
    } else if |ts| == 1 {
      ResplitStatement(ts[0]);
    } else {
      var others := ts[1..];
      assert WellSplit(others);
      ScriptRoundTrip(others);
      ScriptStep(ts[0], Script(others));
      assert [ts[0]] + others == ts;
    }
  }

  lemma {:induction false} ClosedStatement(t: string)
    requires IsStatement(t) && Closes(t)
    ensures Scan(Normal, t + "\n") == Some(Normal) && Trim(t + "\n") == t
  {
    ScanConcat(Normal, t, "\n");
    ScanSpaces(Scan(Normal, t).value, "\n");
    TrimStartOfPadded([], t + "\n");
    TrimEndOfPadded(t, "\n");
  }

  lemma ScriptStep(t: string, others: string)
    requires IsStatement(t) && Closes(t)
    ensures Split(t + "\n" + ";" + others) == [t] + Split(others)
  {
    ClosedStatement(t);
    SegmentsConcat(Normal, t + "\n", others);
    ConcatAssoc(t + "\n", ";", others);
    StatementsHead(t + "\n", Segments(Normal, others));
  }

  /** Writing out what a split returned and splitting again changes nothing, for every input; and
      every statement of the split re-splits to just itself. */
  lemma SplitRoundTrip(s: string)
    ensures Split(Script(Split(s))) == Split(s)
    ensures forall t :: t in Split(s) ==> Split(t) == [t]
  {
    SplitIsWellSplit(s);
    ScriptRoundTrip(Split(s));
    forall t | t in Split(s)
      ensures Split(t) == [t]
    {
      ResplitStatement(t);
    }
  }

  /** The newline is needed: a trimmed statement can end in an open line comment, which would
      swallow a bare ';'. */
  lemma BareSemicolonIsNotEnough()
    ensures Split("--a\n;b") == ["--a", "b"]
    ensures Split("--a" + ";" + "b") == ["--a;b"]
  {
    NewlineSeparates();
    BareSemicolonJoins();
  }

  lemma NewlineSeparates()
    ensures Split("--a\n;b") == ["--a", "b"]
  {
    hide Split;
    CommentIsStatement("a");
    assert "--" + "a" == "--a" && "b"[1..] == [];
    ScriptStep("--a", "b");
    ResplitStatement("b");
    assert "--a" + "\n" + ";" + "b" == "--a\n;b";
  }

  lemma {:induction false} CommentIsStatement(text: string)
    requires '\n' !in text && text != [] && !IsSpace(text[|text| - 1])
    ensures IsStatement("--" + text) && Scan(Normal, "--" + text) == Some(LineComment)
  {
    assert ("--" + text)[2..] == text;
    ScanLineComment(text);
  }

  lemma BareSemicolonJoins()
    ensures Split("--a" + ";" + "b") == ["--a;b"]
  {
    hide Split;
    var joined := "--a;b";
    assert "--" + "a;b" == joined;
    CommentIsStatement("a;b");
    ResplitStatement(joined);
    assert "--a" + ";" + "b" == joined;
  }

  lemma {:induction false} ScanLineComment(s: string)
    requires '\n' !in s
    ensures Scan(LineComment, s) == Some(LineComment)
  {
    if s != [] {
      ScanLineComment(s[1..]);
    }
  }

  // ----- a clause appended to a statement -----

  const RETURNING_CLAUSE := " RETURNING rowid, *"

  /** No character the scanner takes for anything but text, in any mode. */
  predicate Inert(s: string) {
    forall c | c in s :: c !in ";'\"`[]-/\n"
  }

  lemma {:induction false} InertKeepsMode(mode: Mode, s: string)
    requires Inert(s)
    ensures Scan(mode, s) == Some(mode)
  {
    if s != [] {
      assert s[0] in s && (1 < |s| ==> s[1] in s) && Inert(s[1..]);
      assert Token(mode, s) == (mode, 1);
      InertKeepsMode(mode, s[1..]);
    }
  }

  /** A clause of inert text is read in the mode the statement before it ends in. */
  lemma {:induction false} ClauseIsRead(t: string, clause: string)
    requires IsStatement(t) && Inert(clause) && clause != []
    requires !Completes(clause[0]) && !IsSpace(clause[|clause| - 1])
    ensures Scan(Normal, t + clause) == Scan(Normal, t)
    ensures Split(t + clause) == [t + clause]
  {
    ScanConcat(Normal, t, clause);
    InertKeepsMode(Scan(Normal, t).value, clause);
    ResplitStatement(t + clause);
  }

  lemma ReturningIsInert()
    ensures Inert(RETURNING_CLAUSE)
  {
    forall i | 0 <= i < |RETURNING_CLAUSE|
      ensures RETURNING_CLAUSE[i] !in ";'\"`[]-/\n"
    {
    }
  }

  /** What is appended to a statement to have its rows returned is taken as a clause exactly when the
      statement ends in Normal; otherwise it is more of the comment or quotation left open. */
  lemma {:induction false} ReturningIsRead(t: string)
    requires IsStatement(t)
    ensures Scan(Normal, t + RETURNING_CLAUSE) == Scan(Normal, t)
    ensures Split(t + RETURNING_CLAUSE) == [t + RETURNING_CLAUSE]
  {
    ReturningIsInert();
    ClauseIsRead(t, RETURNING_CLAUSE);
  }

  /** A statement as the splitter returns it can end in an open line comment, which swallows the
      clause. */
  lemma CommentSwallowsReturning()
    ensures Split("x--") == ["x--"] && Scan(Normal, "x--" + RETURNING_CLAUSE) == Some(LineComment)
  {
    var t := "x--";
    assert t[1..] == "--" && "--"[2..] == [];
    assert Scan(Normal, "--") == Some(LineComment);
    assert Scan(Normal, t) == Some(LineComment);
    ResplitStatement(t);
    ReturningIsRead(t);
  }
}
