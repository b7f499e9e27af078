/**
 The quote- and bracket-aware scanners of the webhook code, on sequences of characters: splitting
 and searching at nesting depth 0 outside quotes.
 */
module TopLevel {
  import opened Wrappers
  import opened SqlText
  import opened Pieces

  /** The three in-a-quote flags. */
  datatype Quotes = Quotes(single: bool, double: bool, backtick: bool)

  const Unquoted := Quotes(false, false, false)

  /** A quote character flips its flag unless another kind of quote is open. */
  function Toggle(q: Quotes, c: char): Quotes {
    if c == '\'' && !q.double && !q.backtick then q.(single := !q.single)
    else if c == '"' && !q.single && !q.backtick then q.(double := !q.double)
    else if c == '`' && !q.single && !q.double then q.(backtick := !q.backtick)
    else q
  }

  datatype Nesting = Nesting(depth: int, quotes: Quotes)

  const Top := Nesting(0, Unquoted)

  function Nest(n: Nesting, c: char): Nesting {
    if n.quotes == Unquoted && (c == '(' || c == '[') then n.(depth := n.depth + 1)
    else if n.quotes == Unquoted && (c == ')' || c == ']') then n.(depth := n.depth - 1)
    else n.(quotes := Toggle(n.quotes, c))
  }

  function NestAll(n: Nesting, s: string): Nesting
    decreases |s|
  {
    if s == [] then n else NestAll(Nest(n, s[0]), s[1..])
  }

  lemma {:induction false} NestConcat(n: Nesting, a: string, b: string)
    ensures NestAll(n, a + b) == NestAll(NestAll(n, a), b)
    decreases |a|
  {
    if a == [] {
      assert a + b == b;
    } else {
      assert (a + b)[1..] == a[1..] + b;
      NestConcat(Nest(n, a[0]), a[1..], b);
    }
  }

  /** Quotes and brackets are taken as such before they can be taken as a target. */
  predicate Structural(c: char) {
    c in "'\"`()[]"
  }

  predicate Hits(n: Nesting, c: char, target: char) {
    c == target && !Structural(c) && n == Top
  }

  /** `s[i]` is the target, at depth 0 and outside quotes as counted from the start of `s`. */
  predicate TopAt(n: Nesting, s: string, i: nat, target: char)
    requires i < |s|
  {
    Hits(NestAll(n, s[..i]), s[i], target)
  }

  // ----- splitting -----

  function SplitTop(n: Nesting, s: string, sep: char): (parts: seq<string>)
    ensures 0 < |parts|
    decreases |s|
  {
    if s == [] then [[]]
    else if Hits(n, s[0], sep) then [[]] + SplitTop(n, s[1..], sep)
    else Prepend([s[0]], SplitTop(Nest(n, s[0]), s[1..], sep))
  }

  /** What the split comes to from the middle of a part. */
  function PartsFrom(parts: seq<string>, part: string, n: Nesting, rest: string, sep: char): seq<string> {
    parts + Prepend(part, SplitTop(n, rest, sep))
  }

  method SplitTopLevel(s: string, sep: char) returns (parts: seq<string>)
    ensures parts == SplitTop(Top, s, sep)
  {
    hide PartsFrom, SplitTop, Hits, Nest;
    parts := [];
    var start := 0;
    var n := Top;
    var i := 0;
    PartsAtStart(s, sep);
    while i < |s|
      invariant 0 <= start <= i <= |s|
      invariant PartsFrom(parts, s[start..i], n, s[i..], sep) == SplitTop(Top, s, sep)
    {
      var c := s[i];
      SplitStep(parts, n, s, start, i, sep);
      if Hits(n, c, sep) {
        parts := parts + [s[start..i]];
        start := i + 1;
      } else {
        n := Nest(n, c);
      }
      i := i + 1;
    }
    PartsAtEnd(parts, s[start..i], n, s[i..], sep);
    assert s[start..i] == s[start..];
    parts := parts + [s[start..]];
  }

  lemma {:induction false} PartsAtStart(s: string, sep: char)
    ensures PartsFrom([], s[0..0], Top, s[0..], sep) == SplitTop(Top, s, sep)
  {
    assert s[0..] == s && s[0..0] == [];
    PrependNothing(SplitTop(Top, s, sep));
  }

  lemma PartsAtEnd(parts: seq<string>, part: string, n: Nesting, rest: string, sep: char)
    requires rest == []
    ensures PartsFrom(parts, part, n, rest, sep) == parts + [part]
  {
    assert part + [] == part;
    assert Prepend(part, [[]]) == [part];
  }

  lemma SplitStep(parts: seq<string>, n: Nesting, s: string, start: nat, i: nat, sep: char)
    requires start <= i < |s|
    ensures PartsFrom(parts, s[start..i], n, s[i..], sep) ==
            if Hits(n, s[i], sep) then PartsFrom(parts + [s[start..i]], s[i + 1..i + 1], n, s[i + 1..], sep)
            else PartsFrom(parts, s[start..i + 1], Nest(n, s[i]), s[i + 1..], sep)
  {
    var rest, text := s[i..], s[start..i];
    SliceHead(s, i);
    assert text + [s[i]] == s[start..i + 1] && s[i + 1..i + 1] == [];
    SplitStepOf(n, text, rest, sep);
    ConcatAssoc(parts, [text], Prepend([], SplitTop(n, s[i + 1..], sep)));
  }

  lemma {:induction false} SplitStepOf(n: Nesting, text: string, rest: string, sep: char)
    requires rest != []
    ensures Prepend(text, SplitTop(n, rest, sep)) ==
            if Hits(n, rest[0], sep) then [text] + Prepend([], SplitTop(n, rest[1..], sep))
            else Prepend(text + [rest[0]], SplitTop(Nest(n, rest[0]), rest[1..], sep))
  {
    if Hits(n, rest[0], sep) {
      PrependHead(text, [], SplitTop(n, rest[1..], sep));
      PrependNothing(SplitTop(n, rest[1..], sep));
      assert text + [] == text;
    } else {
      PrependTwice(text, [rest[0]], SplitTop(Nest(n, rest[0]), rest[1..], sep));
    }
  }

  /** The parts rejoin to the input, and a position is a cut exactly when the separator stands
      there at the top level: every such separator cuts, and nothing else does. */
  lemma {:induction false} SplitTopCuts(n: Nesting, s: string, sep: char, i: nat)
    requires i < |s|
    ensures IsCut(SplitTop(n, s, sep), i) <==> TopAt(n, s, i, sep)
    decreases |s|
  {
    var rest := SplitTop(if Hits(n, s[0], sep) then n else Nest(n, s[0]), s[1..], sep);
    if i == 0 {
      if Hits(n, s[0], sep) {
        assert CutAt([[]] + rest, 0) == 0;
      } else {
        assert !IsCut(Prepend([s[0]], rest), 0);
      }
    } else {
      assert s[..i][1..] == s[1..][..i - 1];
      if Hits(n, s[0], sep) {
        CutsShift(rest, i - 1);
        SplitTopCuts(n, s[1..], sep, i - 1);
        assert Nest(n, s[0]) == n;
      } else {
        CutsPrepended([s[0]], rest, i - 1);
        SplitTopCuts(Nest(n, s[0]), s[1..], sep, i - 1);
      }
    }
  }

  lemma {:induction false} SplitTopRejoins(n: Nesting, s: string, sep: char)
    ensures Rejoin(SplitTop(n, s, sep), [sep]) == s
    decreases |s|
  {
    if s == [] {
    } else if Hits(n, s[0], sep) {
      SplitTopRejoins(n, s[1..], sep);
      assert ([[]] + SplitTop(n, s[1..], sep))[1..] == SplitTop(n, s[1..], sep);
      assert s == [sep] + s[1..];
    } else {
      SplitTopRejoins(Nest(n, s[0]), s[1..], sep);
      RejoinPrepend([s[0]], SplitTop(Nest(n, s[0]), s[1..], sep), [sep]);
    }
  }

  /** Text without a cut goes whole into the first part. */
  lemma {:induction false} SplitTopConcat(n: Nesting, a: string, b: string, sep: char)
    requires |SplitTop(n, a, sep)| == 1
    ensures SplitTop(n, a + b, sep) == Prepend(a, SplitTop(NestAll(n, a), b, sep))
    decreases |a|
  {
    if a == [] {
      assert a + b == b;
      PrependNothing(SplitTop(n, b, sep));
    } else {
      assert (a + b)[1..] == a[1..] + b;
      SplitTopConcat(Nest(n, a[0]), a[1..], b, sep);
      PrependTwice([a[0]], a[1..], SplitTop(NestAll(n, a), b, sep));
      assert [a[0]] + a[1..] == a;
    }
  }

  // ----- searching -----

  function FindTop(n: Nesting, s: string, target: char): (r: Option<nat>)
    ensures r.Some? ==> r.value < |s|
    decreases |s|
  {
    if s == [] then None
    else if Hits(n, s[0], target) then Some(0)
    else
      match FindTop(Nest(n, s[0]), s[1..], target)
      case None => None
      case Some(i) => Some(i + 1)
  }

  method FindTopLevel(s: string, target: char) returns (r: Option<nat>)
    ensures r == FindTop(Top, s, target)
  {
    var n := Top;
    assert s[0..] == s;
    for i := 0 to |s|
      invariant FindTop(Top, s, target) ==
                match FindTop(n, s[i..], target) case None => None case Some(j) => Some(i + j)
    {
      SliceHead(s, i);
      if Hits(n, s[i], target) {
        return Some(i);
      }
      n := Nest(n, s[i]);
    }
    r := None;
  }

  /** The search gives the least top-level position of the target, and None only without one. */
  lemma {:induction false} FindTopIsLeast(n: Nesting, s: string, target: char)
    ensures
      match FindTop(n, s, target)
      case None => forall i: nat :: i < |s| ==> !TopAt(n, s, i, target)
      case Some(k) => TopAt(n, s, k, target) && forall i: nat :: i < k ==> !TopAt(n, s, i, target)
    decreases |s|
  {
    if s != [] {
      FindTopIsLeast(Nest(n, s[0]), s[1..], target);
      forall i: nat | 0 < i < |s|
        ensures TopAt(n, s, i, target) == TopAt(Nest(n, s[0]), s[1..], i - 1, target)
      {
        assert s[..i][1..] == s[1..][..i - 1];
      }
    }
  }

  lemma {:induction false} FindTopConcat(n: Nesting, a: string, b: string, target: char)
    requires FindTop(n, a, target).None?
    ensures FindTop(n, a + b, target) ==
            match FindTop(NestAll(n, a), b, target) case None => None case Some(i) => Some(|a| + i)
    decreases |a|
  {
    if a == [] {
      assert a + b == b;
    } else {
      assert (a + b)[1..] == a[1..] + b;
      FindTopConcat(Nest(n, a[0]), a[1..], b, target);
    }
  }

  lemma {:induction false} OnePartWhenNotFound(n: Nesting, s: string, c: char)
    ensures |SplitTop(n, s, c)| == 1 <==> FindTop(n, s, c).None?
    decreases |s|
  {
    if s != [] && !Hits(n, s[0], c) {
      OnePartWhenNotFound(Nest(n, s[0]), s[1..], c);
    }
  }

  // ----- words -----

  predicate IsAlpha(c: char) {
    'a' <= c <= 'z' || 'A' <= c <= 'Z'
  }

  predicate WordChar(c: char) {
    IsAlpha(c) || '0' <= c <= '9' || c == '_'
  }

  function Lower(c: char): char {
    if 'A' <= c <= 'Z' then (c as int - 'A' as int + 'a' as int) as char else c
  }

  predicate SameIgnoringCase(a: string, b: string) {
    |a| == |b| && forall i :: 0 <= i < |a| ==> Lower(a[i]) == Lower(b[i])
  }

  /** The characters of words, by their ASCII codes. */
  lemma WordCodes(c: char)
    ensures IsAlpha(c) <==> 65 <= c as int <= 90 || 97 <= c as int <= 122
    ensures WordChar(c) <==> IsAlpha(c) || 48 <= c as int <= 57 || c as int == 95
  {
  }

  /** Letter case is the only difference ignored. */
  lemma SameLetter(c: char, d: char)
    ensures
      Lower(c) == Lower(d) <==>
        || c == d || ('a' <= c <= 'z' && c as int == d as int + 32) || ('a' <= d <= 'z' && d as int == c as int + 32)
  {
  }

  /** The word `kw` stands at `i`, at the top level and bounded on both sides. */
  predicate WordAt(s: string, kw: string, i: nat) {
    && i < |s| && IsAlpha(s[i]) && NestAll(Top, s[..i]) == Top
    && i + |kw| <= |s| && SameIgnoringCase(s[i..i + |kw|], kw)
    && (i == 0 || !WordChar(s[i - 1]))
    && (i + |kw| == |s| || !WordChar(s[i + |kw|]))
  }

  method FindTopLevelWord(s: string, kw: string) returns (r: Option<nat>)
    ensures r.Some? ==> WordAt(s, kw, r.value) && forall i: nat :: i < r.value ==> !WordAt(s, kw, i)
    ensures r.None? ==> forall i: nat :: !WordAt(s, kw, i)
  {
    var n := Top;
    var i: nat := 0;
    while i < |s|
      invariant i <= |s| && n == NestAll(Top, s[..i])
      invariant forall j: nat :: j < i ==> !WordAt(s, kw, j)
    {
      var c := s[i];
      ghost var before := n;
      n := Nest(n, c);
      assert IsAlpha(c) ==> n == before;
      if IsAlpha(c) && n == Top && i + |kw| <= |s| && SameIgnoringCase(s[i..i + |kw|], kw)
         && (i == 0 || !WordChar(s[i - 1])) && (i + |kw| >= |s| || !WordChar(s[i + |kw|]))
      {
        return Some(i);
      }
      NestConcat(Top, s[..i], [c]);
      assert s[..i] + [c] == s[..i + 1] && NestAll(before, [c]) == n;
      i := i + 1;
    }
    r := None;
  }
}
