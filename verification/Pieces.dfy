/** Text cut into pieces at separator characters, and where the cuts stand. */
module Pieces {
  import opened SqlText

  /** The pieces with `text` put in front of the first. */
  function Prepend(text: string, pieces: seq<string>): (r: seq<string>)
    requires 0 < |pieces|
    ensures |r| == |pieces|
  {
    [text + pieces[0]] + pieces[1..]
  }

  lemma PrependNothing(pieces: seq<string>)
    requires 0 < |pieces|
    ensures Prepend([], pieces) == pieces
  {
    assert [] + pieces[0] == pieces[0];
  }

  lemma PrependHead(text: string, first: string, others: seq<string>)
    ensures Prepend(text, [first] + others) == [text + first] + others
  {
    assert ([first] + others)[1..] == others;
  }

  lemma PrependTwice(a: string, b: string, pieces: seq<string>)
    requires 0 < |pieces|
    ensures Prepend(a, Prepend(b, pieces)) == Prepend(a + b, pieces)
  {
    ConcatAssoc(a, b, pieces[0]);
  }

  function Rejoin(pieces: seq<string>, sep: string): string
    requires 0 < |pieces|
  {
    if |pieces| == 1 then pieces[0] else pieces[0] + (sep + Rejoin(pieces[1..], sep))
  }

  lemma {:induction false} RejoinPrepend(text: string, pieces: seq<string>, sep: string)
    requires 0 < |pieces|
    ensures Rejoin(Prepend(text, pieces), sep) == text + Rejoin(pieces, sep)
  {
    var p := Prepend(text, pieces);
    assert p[0] == text + pieces[0] && p[1..] == pieces[1..];
    if 1 < |pieces| {
      ConcatAssoc(text, pieces[0], sep + Rejoin(pieces[1..], sep));
    }
  }

  /** Where the `j`-th separator stands when the pieces are put back together. */
  function CutAt(pieces: seq<string>, j: nat): nat
    requires j < |pieces|
  {
    if j == 0 then |pieces[0]| else |pieces[0]| + 1 + CutAt(pieces[1..], j - 1)
  }

  ghost predicate IsCut(pieces: seq<string>, i: nat) {
    exists j: nat :: j + 1 < |pieces| && CutAt(pieces, j) == i
  }

  lemma NoCutInside(text: string, rest: seq<string>, i: nat)
    requires 0 < |rest| && i < |text|
    ensures !IsCut(Prepend(text, rest), i)
  {
    assert forall j: nat :: j < |rest| ==> |text| <= CutAt(Prepend(text, rest), j);
  }

  lemma CutsShift(rest: seq<string>, i: nat)
    requires 0 < |rest|
    ensures IsCut([[]] + rest, i + 1) <==> IsCut(rest, i)
  {
    var pieces: seq<string> := [[]] + rest;
    assert pieces[1..] == rest;
    if IsCut(rest, i) {
      var j: nat :| j + 1 < |rest| && CutAt(rest, j) == i;
      assert CutAt(pieces, j + 1) == i + 1;
    }
    if IsCut(pieces, i + 1) {
      var j: nat :| j + 1 < |pieces| && CutAt(pieces, j) == i + 1;
      assert CutAt(rest, j - 1) == i;
    }
  }

  lemma CutsPrepended(text: string, rest: seq<string>, i: nat)
    requires 0 < |rest|
    ensures IsCut(Prepend(text, rest), i + |text|) <==> IsCut(rest, i)
  {
    var pieces := Prepend(text, rest);
    assert pieces[1..] == rest[1..];
    forall j: nat | j < |rest|
      ensures CutAt(pieces, j) == CutAt(rest, j) + |text|
    {
    }
    if IsCut(rest, i) {
      var j: nat :| j + 1 < |rest| && CutAt(rest, j) == i;
      assert CutAt(pieces, j) == i + |text|;
    }
    if IsCut(pieces, i + |text|) {
      var j: nat :| j + 1 < |pieces| && CutAt(pieces, j) == i + |text|;
      assert CutAt(rest, j) == i;
    }
  }
}
