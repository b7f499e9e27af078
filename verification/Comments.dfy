/**
 The leading-comment stripper of the webhook code, and its agreement with the statement splitter:
 two scanners written separately for the same comment syntax.
 */
module Comments {
  import opened Wrappers
  import opened SqlText
  import opened Pieces
  import opened SplitSql

  /** The first place `pattern` occurs. */
  function Find(s: string, pattern: string): (r: Option<nat>)
    ensures r.Some? ==> r.value + |pattern| <= |s| && pattern <= s[r.value..]
  {
    if pattern <= s then Some(0)
    else if s == [] then None
    else
      match Find(s[1..], pattern)
      case None => None
      case Some(i) => Some(i + 1)
  }

  function Strip(sql: string): (r: string)
    ensures |r| <= |sql|
    decreases |sql|
  {
    TrimStartShrinks(sql);
    var s := TrimStart(sql);
    if "--" <= s then
      match Find(s[2..], "\n")
      case None => []
      case Some(e) => Strip(s[2..][e + 1..])
    else if "/*" <= s then
      match Find(s[2..], "*/")
      case None => []
      case Some(e) => Strip(s[2..][e + 2..])
    else s
  }

  lemma {:induction false} TrimStartShrinks(s: string)
    ensures |TrimStart(s)| <= |s|
  {
    var _ := TrimStartSplits(s);
  }

  method StripComments(sql: string) returns (r: string)
    ensures r == Strip(sql)
  {
    var s := sql;
    while true
      invariant Strip(s) == Strip(sql)
      decreases |s|
    {
      TrimStartShrinks(s);
      StripOfTrimmed(s);
      s := TrimStart(s);
      if "--" <= s {
        var rest := s[2..];
        var newline := Find(rest, "\n");
        if newline.None? {
          return "";
        }
        s := rest[newline.value + 1..];
      } else if "/*" <= s {
        var rest := s[2..];
        var close := Find(rest, "*/");
        if close.None? {
          return "";
        }
        s := rest[close.value + 2..];
      } else {
        return s;
      }
    }
  }

  lemma {:induction false} TrimStartTwice(s: string)
    ensures TrimStart(TrimStart(s)) == TrimStart(s)
  {
    if s != [] && IsSpace(s[0]) {
      TrimStartTwice(s[1..]);
    }
  }

  lemma {:induction false} StripOfTrimmed(s: string)
    ensures Strip(TrimStart(s)) == Strip(s)
  {
    TrimStartTwice(s);
  }

  // ----- the grammar of leading blanks -----

  datatype Piece = Space(c: char) | Line(text: string) | Block(text: string)

  /** A comment the end of the text leaves open, if any. */
  datatype Tail = Closed | OpenLine(text: string) | OpenBlock(text: string)

  function PieceText(p: Piece): string {
    match p
    case Space(c) => [c]
    case Line(text) => "--" + (text + "\n")
    case Block(text) => "/*" + (text + "*/")
  }

  predicate ValidPiece(p: Piece) {
    match p
    case Space(c) => IsSpace(c)
    case Line(text) => '\n' !in text
    case Block(text) => Find(text + "*/", "*/") == Some(|text|)
  }

  function TailText(t: Tail): string {
    match t
    case Closed => []
    case OpenLine(text) => "--" + text
    case OpenBlock(text) => "/*" + text
  }

  predicate ValidTail(t: Tail) {
    match t
    case Closed => true
    case OpenLine(text) => '\n' !in text
    case OpenBlock(text) => Find(text, "*/").None?
  }

  function Text(pieces: seq<Piece>): string {
    if pieces == [] then [] else PieceText(pieces[0]) + Text(pieces[1..])
  }

  predicate ValidPieces(pieces: seq<Piece>) {
    forall p | p in pieces :: ValidPiece(p)
  }

  /** Only whitespace and comments, the last comment terminated or not. */
  ghost predicate IsBlank(s: string) {
    exists pieces, tail :: ValidPieces(pieces) && ValidTail(tail) && s == Text(pieces) + TailText(tail)
  }

  /** What is found first in a text is found first in any longer one. */
  lemma {:induction false} FirstInExtension(t: string, s: string, pattern: string)
    requires t <= s && Find(t, pattern).Some?
    ensures Find(s, pattern) == Find(t, pattern)
    decreases |t|
  {
    assert t[..|pattern|] == s[..|pattern|];
    if !(pattern <= t) {
      FirstInExtension(t[1..], s[1..], pattern);
    }
  }

  lemma {:induction false} FindNewline(text: string, rest: string)
    requires '\n' !in text
    ensures Find(text + "\n" + rest, "\n") == Some(|text|)
    ensures Find(text, "\n") == None
  {
    var s := text + "\n" + rest;
    if text == [] {
      assert s == "\n" + rest;
    } else {
      assert s[0] == text[0] && s[1..] == text[1..] + "\n" + rest;
      FindNewline(text[1..], rest);
    }
  }

  lemma {:induction false} FirstNewline(s: string)
    ensures Find(s, "\n").None? ==> '\n' !in s
    ensures Find(s, "\n").Some? ==> '\n' !in s[..Find(s, "\n").value]
  {
    if s != [] && s[0] != '\n' {
      FirstNewline(s[1..]);
    }
  }

  /** What is found first is found first in any prefix that holds it. */
  lemma {:induction false} FirstInPrefix(s: string, t: string, pattern: string)
    requires t <= s && 0 < |pattern| && Find(s, pattern).Some?
    requires Find(s, pattern).value + |pattern| <= |t|
    ensures Find(t, pattern) == Find(s, pattern)
    decreases |s|
  {
    assert t[..|pattern|] == s[..|pattern|];
    if !(pattern <= s) {
      FirstInPrefix(s[1..], t[1..], pattern);
    }
  }

  lemma {:induction false} FirstIsLeast(s: string, pattern: string)
    requires 0 < |pattern| && Find(s, pattern).Some?
    ensures
      var e := Find(s, pattern).value;
      Find(s[..e] + pattern, pattern) == Some(e)
  {
    var e := Find(s, pattern).value;
    assert s == s[..e] + s[e..];
    FirstInPrefix(s, s[..e] + pattern, pattern);
  }

  lemma {:induction false} StripLine(text: string, rest: string)
    requires '\n' !in text
    ensures Strip("--" + (text + "\n") + rest) == Strip(rest)
    ensures Strip("--" + text) == []
  {
    var s, open := "--" + (text + "\n") + rest, "--" + text;
    assert TrimStart(s) == s && TrimStart(open) == open;
    assert s[2..] == text + "\n" + rest && open[2..] == text;
    FindNewline(text, rest);
    assert s[2..][|text| + 1..] == rest;
  }

  lemma {:induction false} StripBlock(text: string, rest: string)
    requires Find(text + "*/", "*/") == Some(|text|)
    ensures Strip("/*" + (text + "*/") + rest) == Strip(rest)
  {
    hide Find;
    var s := "/*" + (text + "*/") + rest;
    assert TrimStart(s) == s && !("--" <= s);
    assert s[2..] == (text + "*/") + rest;
    FirstInExtension(text + "*/", (text + "*/") + rest, "*/");
    assert s[2..][|text| + 2..] == rest;
  }

  lemma {:induction false} StripOpenBlock(text: string)
    requires Find(text, "*/").None?
    ensures Strip("/*" + text) == []
  {
    var s := "/*" + text;
    assert TrimStart(s) == s && !("--" <= s);
    assert s[2..] == text;
  }

  lemma {:induction false} StripSpace(c: char, rest: string)
    requires IsSpace(c)
    ensures Strip([c] + rest) == Strip(rest)
  {
    assert ([c] + rest)[1..] == rest;
    StripOfTrimmed([c] + rest);
    StripOfTrimmed(rest);
  }

  lemma {:induction false} StripPiece(p: Piece, rest: string)
    requires ValidPiece(p)
    ensures Strip(PieceText(p) + rest) == Strip(rest)
  {
    match p
    case Space(c) => StripSpace(c, rest);
    case Line(text) => StripLine(text, rest);
    case Block(text) => StripBlock(text, rest);
  }

  lemma {:induction false} StripPieces(pieces: seq<Piece>, rest: string)
    requires ValidPieces(pieces)
    ensures Strip(Text(pieces) + rest) == Strip(rest)
  {
    if pieces == [] {
      assert Text(pieces) + rest == rest;
    } else {
      StripPieces(pieces[1..], rest);
      StripPiece(pieces[0], Text(pieces[1..]) + rest);
      ConcatAssoc(PieceText(pieces[0]), Text(pieces[1..]), rest);
    }
  }

  lemma StripTail(tail: Tail)
    requires ValidTail(tail)
    ensures Strip(TailText(tail)) == []
  {
    match tail
    case Closed =>
    case OpenLine(text) => StripLine(text, []);
    case OpenBlock(text) => StripOpenBlock(text);
  }

  lemma {:induction false} FoundSplits(s: string, pattern: string)
    requires Find(s, pattern).Some?
    ensures
      var e := Find(s, pattern).value;
      s == (s[..e] + pattern) + s[e + |pattern|..]
  {
    var e := Find(s, pattern).value;
    var tail := s[e..];
    assert s == s[..e] + tail && tail == pattern + tail[|pattern|..];
    assert tail[|pattern|..] == s[e + |pattern|..];
    ConcatAssoc(s[..e], pattern, s[e + |pattern|..]);
  }

  /** The terminated comment at the front of a text. */
  lemma FrontLine(s: string) returns (p: Piece, rest: string)
    requires "--" <= s && Find(s[2..], "\n").Some?
    ensures ValidPiece(p) && s == PieceText(p) + rest && |rest| < |s|
  {
    var e := Find(s[2..], "\n").value;
    FirstNewline(s[2..]);
    p, rest := Line(s[2..][..e]), s[2..][e + 1..];
    FoundSplits(s[2..], "\n");
    assert s == "--" + s[2..];
    ConcatAssoc("--", s[2..][..e] + "\n", rest);
  }

  lemma FrontBlock(s: string) returns (p: Piece, rest: string)
    requires "/*" <= s && Find(s[2..], "*/").Some?
    ensures ValidPiece(p) && s == PieceText(p) + rest && |rest| < |s|
  {
    var e := Find(s[2..], "*/").value;
    FirstIsLeast(s[2..], "*/");
    p, rest := Block(s[2..][..e]), s[2..][e + 2..];
    FoundSplits(s[2..], "*/");
    assert s == "/*" + s[2..];
    ConcatAssoc("/*", s[2..][..e] + "*/", rest);
  }

  /** Every text is leading blanks, possibly an open comment, and then what stripping returns. */
  lemma {:induction false} Decompose(s: string) returns (pieces: seq<Piece>, tail: Tail)
    ensures ValidPieces(pieces) && ValidTail(tail)
    ensures s == Text(pieces) + TailText(tail) + Strip(s)
    ensures tail != Closed ==> Strip(s) == []
    decreases |s|
  {
    hide Find, Strip, TailText;
    if s != [] && IsSpace(s[0]) {
      assert s == [s[0]] + s[1..];
      pieces, tail := Decompose(s[1..]);
      pieces, tail := Consed(Space(s[0]), s[1..], pieces, tail);
    } else if "--" <= s && Find(s[2..], "\n").Some? {
      var p, rest := FrontLine(s);
      pieces, tail := Decompose(rest);
      pieces, tail := Consed(p, rest, pieces, tail);
    } else if "/*" <= s && Find(s[2..], "*/").Some? {
      var p, rest := FrontBlock(s);
      pieces, tail := Decompose(rest);
      pieces, tail := Consed(p, rest, pieces, tail);
    } else {
      pieces := [];
      tail := Front(s);
      ConcatAssoc(Text(pieces), TailText(tail), Strip(s));
    }
  }

  /** A front that is no terminated blank is an open comment, or stripping keeps it all. */
  lemma Front(s: string) returns (tail: Tail)
    requires s != [] ==> !IsSpace(s[0])
    requires "--" <= s ==> Find(s[2..], "\n").None?
    requires "/*" <= s ==> Find(s[2..], "*/").None?
    ensures ValidTail(tail) && s == TailText(tail) + Strip(s) && (tail != Closed ==> Strip(s) == [])
  {
    assert TrimStart(s) == s;
    tail := Closed;
    if "--" <= s {
      FirstNewline(s[2..]);
      assert s == "--" + s[2..];
      tail := OpenLine(s[2..]);
    } else if "/*" <= s {
      assert s == "/*" + s[2..];
      tail := OpenBlock(s[2..]);
    }
  }

  lemma Consed(p: Piece, rest: string, pieces: seq<Piece>, tail: Tail) returns (all: seq<Piece>, same: Tail)
    requires ValidPiece(p) && ValidPieces(pieces) && ValidTail(tail)
    requires rest == Text(pieces) + TailText(tail) + Strip(rest)
    requires tail != Closed ==> Strip(rest) == []
    ensures ValidPieces(all) && same == tail
    ensures PieceText(p) + rest == Text(all) + TailText(same) + Strip(PieceText(p) + rest)
    ensures same != Closed ==> Strip(PieceText(p) + rest) == []
  {
    all, same := [p] + pieces, tail;
    assert all[1..] == pieces;
    StripPiece(p, rest);
    ConcatAssoc(PieceText(p), Text(pieces) + TailText(tail), Strip(rest));
    ConcatAssoc(PieceText(p), Text(pieces), TailText(tail));
  }

  /** Nothing is left exactly when the text is only whitespace and comments. */
  lemma {:induction false} EmptyIffBlank(s: string)
    ensures Strip(s) == [] <==> IsBlank(s)
  {
    var pieces, tail := Decompose(s);
    if Strip(s) == [] {
      assert Text(pieces) + TailText(tail) + [] == Text(pieces) + TailText(tail);
    }
    if IsBlank(s) {
      var blanks, end :| ValidPieces(blanks) && ValidTail(end) && s == Text(blanks) + TailText(end);
      StripPieces(blanks, TailText(end));
      StripTail(end);
    }
  }

  lemma {:induction false} StripTwice(s: string)
    ensures Strip(Strip(s)) == Strip(s)
    decreases |s|
  {
    TrimStartShrinks(s);
    TrimStartTwice(s);
    var t := TrimStart(s);
    if "--" <= t && Find(t[2..], "\n").Some? {
      StripTwice(t[2..][Find(t[2..], "\n").value + 1..]);
    } else if "/*" <= t && Find(t[2..], "*/").Some? {
      StripTwice(t[2..][Find(t[2..], "*/").value + 2..]);
    }
  }

  // ----- agreement with the splitter -----

  /** The splitter's mode after exactly `k` characters, if it meets no separator on the way and
      `k` does not fall inside a token. */
  function Pass(mode: Mode, s: string, k: nat): Option<Mode>
    requires k <= |s|
    decreases |s|
  {
    if k == 0 then Some(mode)
    else if IsSeparator(mode, s) then None
    else
      var (after, w) := Token(mode, s);
      if k < w then None else Pass(after, s[w..], k - w)
  }

  lemma {:induction false} PassThenPass(mode: Mode, s: string, j: nat, k: nat)
    requires j + k <= |s| && Pass(mode, s, j).Some?
    ensures Pass(mode, s, j + k) == Pass(Pass(mode, s, j).value, s[j..], k)
    decreases |s|
  {
    hide Token;
    if j == 0 {
      assert s[0..] == s;
    } else {
      var (after, w) := Token(mode, s);
      SliceTwice(s, w, j);
      PassThenPass(after, s[w..], j - w, k);
    }
  }

  lemma {:induction false} PassIsMode(mode: Mode, s: string, k: nat)
    requires k <= |s| && Pass(mode, s, k).Some?
    ensures ModeAt(mode, s, k) == Pass(mode, s, k)
    decreases |s|
  {
    hide Token;
    if 0 < k {
      var (after, w) := Token(mode, s);
      PassIsMode(after, s[w..], k - w);
    }
  }

  lemma {:induction false} PassMeansSameSegments(mode: Mode, s: string, k: nat)
    requires k <= |s| && Pass(mode, s, k).Some?
    ensures Segments(mode, s) == Prepend(s[..k], Segments(Pass(mode, s, k).value, s[k..]))
    decreases |s|
  {
    hide Token, Prepend;
    if k == 0 {
      assert s[0..] == s && s[..0] == [];
      PrependNothing(Segments(mode, s));
    } else {
      var (after, w) := Token(mode, s);
      PassMeansSameSegments(after, s[w..], k - w);
      SliceTwice(s, w, k);
      PrependTwice(s[..w], s[w..][..k - w], Segments(Pass(mode, s, k).value, s[k..]));
    }
  }

  lemma {:induction false} PassLine(text: string, rest: string)
    requires '\n' !in text
    ensures Pass(LineComment, text + "\n" + rest, |text| + 1) == Some(Normal)
  {
    var s := text + "\n" + rest;
    if text == [] {
      assert Token(LineComment, s) == (Normal, 1);
      assert Pass(Normal, s[1..], 0) == Some(Normal);
    } else {
      assert s[1..] == text[1..] + "\n" + rest;
      PassLine(text[1..], rest);
    }
  }

  lemma {:induction false} PassBlock(u: string, rest: string)
    requires 2 <= |u| && Find(u, "*/") == Some(|u| - 2)
    ensures Pass(BlockComment, u + rest, |u|) == Some(Normal)
    decreases |u|
  {
    var s := u + rest;
    SameTwo(BlockComment, s, u);
    if |u| == 2 {
      assert Token(BlockComment, u) == (Normal, 2);
      assert Pass(Normal, s[2..], 0) == Some(Normal);
    } else {
      NotClosing(u);
      assert s[1..] == u[1..] + rest;
      PassBlock(u[1..], rest);
    }
  }

  lemma {:induction false} NotClosing(u: string)
    requires 1 < |u| && Find(u, "*/") != Some(0)
    ensures Token(BlockComment, u) == (BlockComment, 1)
  {
    assert u[0] == '*' && u[1] == '/' ==> "*/" <= u;
  }

  lemma {:induction false} PassLinePiece(text: string, rest: string)
    requires '\n' !in text
    ensures Pass(Normal, "--" + (text + "\n") + rest, |text| + 3) == Some(Normal)
  {
    var s := "--" + (text + "\n") + rest;
    assert Token(Normal, s) == (LineComment, 2);
    assert s[2..] == text + "\n" + rest;
    PassLine(text, rest);
  }

  lemma {:induction false} PassBlockPiece(text: string, rest: string)
    requires Find(text + "*/", "*/") == Some(|text|)
    ensures Pass(Normal, "/*" + (text + "*/") + rest, |text| + 4) == Some(Normal)
  {
    hide Find;
    var s := "/*" + (text + "*/") + rest;
    assert Token(Normal, s) == (BlockComment, 2);
    assert s[2..] == (text + "*/") + rest;
    PassBlock(text + "*/", rest);
  }

  lemma {:induction false} PassPiece(p: Piece, rest: string)
    requires ValidPiece(p)
    ensures Pass(Normal, PieceText(p) + rest, |PieceText(p)|) == Some(Normal)
  {
    match p
    case Space(c) =>
      assert Token(Normal, [c] + rest) == (Normal, 1);
      assert Pass(Normal, ([c] + rest)[1..], 0) == Some(Normal);
    case Line(text) => PassLinePiece(text, rest);
    case Block(text) => PassBlockPiece(text, rest);
  }

  lemma {:induction false} PassTwo(a: string, b: string, rest: string)
    requires Pass(Normal, a + (b + rest), |a|) == Some(Normal) && Pass(Normal, b + rest, |b|) == Some(Normal)
    ensures Pass(Normal, (a + b) + rest, |a + b|) == Some(Normal)
  {
    ConcatAssoc(a, b, rest);
    assert (a + (b + rest))[|a|..] == b + rest;
    PassThenPass(Normal, a + (b + rest), |a|, |b|);
  }

  lemma {:induction false} PassPieces(pieces: seq<Piece>, rest: string)
    requires ValidPieces(pieces)
    ensures Pass(Normal, Text(pieces) + rest, |Text(pieces)|) == Some(Normal)
  {
    if pieces != [] {
      var p, others := pieces[0], Text(pieces[1..]);
      PassPiece(p, others + rest);
      PassPieces(pieces[1..], rest);
      PassTwo(PieceText(p), others, rest);
    }
  }

  /** What the stripper removes, the splitter passes over: it comes to the rest in Normal mode
      having cut nowhere, so the two texts split alike but for the removed prefix. */
  lemma {:induction false} ScannersAgree(s: string)
    requires Strip(s) != []
    ensures
      var k := |s| - |Strip(s)|;
      && s[k..] == Strip(s)
      && ModeAt(Normal, s, k) == Some(Normal)
      && Segments(Normal, s) == Prepend(s[..k], Segments(Normal, Strip(s)))
  {
    var pieces, tail := Decompose(s);
    var k := |s| - |Strip(s)|;
    assert Text(pieces) + TailText(tail) == Text(pieces);
    assert s == Text(pieces) + Strip(s) && s[k..] == Strip(s);
    PassPieces(pieces, Strip(s));
    PassMeansSameSegments(Normal, s, k);
    PassIsMode(Normal, s, k);
  }
}
