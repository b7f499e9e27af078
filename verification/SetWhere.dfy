/**
 Finding the WHERE of an UPDATE: the word search against a written SET clause.
 */
module SetWhere {
  import opened SqlText
  import opened TopLevel
  import opened ValuesClause
  import opened SetClause

  predicate IsWord(kw: string) {
    kw != [] && forall c | c in kw :: IsAlpha(c)
  }

  /** The keyword stands nowhere in the text at the top level. */
  ghost predicate WordFree(s: string, kw: string) {
    forall i: nat :: !WordAt(s, kw, i)
  }

  /** No word runs from the end of one text into the other. */
  predicate Apart(a: string, b: string) {
    a == [] || b == [] || !WordChar(a[|a| - 1]) || !WordChar(b[0])
  }

  lemma {:induction false} WordIsAlpha(s: string, kw: string, i: nat, k: nat)
    requires IsWord(kw) && WordAt(s, kw, i) && i <= k < i + |kw|
    ensures WordChar(s[k])
  {
    assert kw[k - i] in kw && s[i..i + |kw|][k - i] == s[k];
    assert Lower(s[k]) == Lower(kw[k - i]);
  }

  /** In two texts put together the words of the first stand where they stood. */
  lemma {:induction false} WordInFirst(a: string, b: string, kw: string, i: nat)
    requires IsWord(kw) && Apart(a, b) && i < |a|
    ensures WordAt(a + b, kw, i) <==> WordAt(a, kw, i)
  {
    hide NestAll, SameIgnoringCase;
    var s := a + b;
    SliceOfFirst(a, b, i, 0);
    if i + |kw| <= |a| {
      SliceOfFirst(a, b, i, |kw|);
      if i + |kw| == |a| && WordAt(a, kw, i) {
        WordIsAlpha(a, kw, i, |a| - 1);
      }
    } else if WordAt(s, kw, i) {
      WordIsAlpha(s, kw, i, |a| - 1);
      WordIsAlpha(s, kw, i, |a|);
    }
  }

  /** And those of the second where they stood in it, when the first ends at the top level. */
  lemma {:induction false} WordInSecond(a: string, b: string, kw: string, i: nat)
    requires IsWord(kw) && Apart(a, b) && NestAll(Top, a) == Top
    ensures WordAt(a + b, kw, |a| + i) <==> WordAt(b, kw, i)
  {
    hide NestAll, SameIgnoringCase;
    if i < |b| {
      SliceOfSecond(a, b, i, 0);
      NestConcat(Top, a, b[..i]);
      if i + |kw| <= |b| {
        SliceOfSecond(a, b, i, |kw|);
      }
    }
  }

  lemma SliceOfSecond(a: string, b: string, i: nat, n: nat)
    requires i + n <= |b|
    ensures (a + b)[..|a| + i] == a + b[..i] && (a + b)[|a| + i..|a| + i + n] == b[i..i + n]
  {
  }

  lemma SliceOfFirst(a: string, b: string, i: nat, n: nat)
    requires i + n <= |a|
    ensures (a + b)[..i] == a[..i] && (a + b)[i..i + n] == a[i..i + n]
  {
  }

  lemma {:induction false} FreeConcat(a: string, b: string, kw: string)
    requires IsWord(kw) && Apart(a, b) && NestAll(Top, a) == Top
    ensures WordFree(a + b, kw) <==> WordFree(a, kw) && WordFree(b, kw)
  {
    forall i: nat
      ensures i < |a| ==> (WordAt(a + b, kw, i) <==> WordAt(a, kw, i))
      ensures |a| <= i ==> (WordAt(a + b, kw, i) <==> WordAt(b, kw, i - |a|))
    {
      if i < |a| {
        WordInFirst(a, b, kw, i);
      } else {
        WordInSecond(a, b, kw, i - |a|);
      }
    }
    if WordFree(a + b, kw) {
      forall j: nat
        ensures !WordAt(b, kw, j)
      {
        assert !WordAt(a + b, kw, |a| + j);
      }
    }
  }

  // ----- the pieces of a SET clause -----

  lemma {:induction false} NoLettersNoWord(s: string, kw: string)
    requires forall i :: 0 <= i < |s| ==> !IsAlpha(s[i])
    ensures WordFree(s, kw)
  {
  }

  lemma {:induction false} SpacesAreFree(s: string, kw: string)
    requires AllSpace(s)
    ensures WordFree(s, kw)
  {
    assert forall i :: 0 <= i < |s| ==> IsSpace(s[i]) && !IsAlpha(s[i]);
  }

  lemma {:induction false} NoTopLetter(v: string, i: nat)
    requires i < |Double(v) + "'"| && IsAlpha((Double(v) + "'")[i])
    ensures NestAll(InQuote, (Double(v) + "'")[..i]) != Top
    decreases |v|
  {
    var s := Double(v) + "'";
    if v != [] {
      var after := Double(v[1..]) + "'";
      var w := if v[0] == '\'' then 2 else 1;
      assert s[w..] == after && s[..w] == if w == 2 then "''" else [v[0]];
      if w <= i {
        NoTopLetter(v[1..], i - w);
        assert s[..i] == s[..w] + after[..i - w];
        NestConcat(InQuote, s[..w], after[..i - w]);
        QuotesReturn(v[0]);
      }
    }
  }

  lemma QuotesReturn(c: char)
    ensures c != '\'' ==> NestAll(InQuote, [c]) == InQuote
    ensures NestAll(InQuote, "''") == InQuote
  {
    assert [c][1..] == [] && "''"[1..] == "'" && "'"[1..] == [];
  }

  lemma {:induction false} ValueIsFree(v: string, kw: string)
    ensures WordFree(Quoted(v), kw)
  {
    var s, inside := Quoted(v), Double(v) + "'";
    forall i: nat
      ensures !WordAt(s, kw, i)
    {
      if 0 < i < |s| && IsAlpha(s[i]) {
        assert s[1..] == inside && s[..i][1..] == inside[..i - 1];
        NoTopLetter(v, i - 1);
        assert Nest(Top, '\'') == InQuote;
      }
    }
  }

  /** Neither the column nor, if it is an expression, the value holds the keyword. */
  ghost predicate AssignmentFree(a: Assignment, kw: string) {
    WordFree(ColumnText(a.col), kw) && (a.val.Expr? ==> WordFree(a.val.text, kw))
  }

  lemma {:induction false} AssignmentIsFree(lead: string, pad: string, a: Assignment, kw: string)
    requires AllSpace(lead) && AllSpace(pad) && IsAssignment(a) && IsWord(kw)
    ensures WordFree(lead + AssignmentText(pad, a), kw) <==> AssignmentFree(a, kw)
  {
    var value := pad + ContentText(a.val);
    SpacesPass(lead, ',');
    SpacesPass(pad, ',');
    ColumnPasses(a.col, ',');
    PlainPasses("=", ',');
    SpacesAreFree(lead, kw);
    SpacesAreFree(pad, kw);
    if a.val.Str? {
      ValueIsFree(a.val.text, kw);
    }
    NoLettersNoWord("=", kw);
    SpacesApart(pad, ContentText(a.val));
    FreeConcat(pad, ContentText(a.val), kw);
    FreeConcat("=", value, kw);
    SpacesApart(pad, "=" + value);
    FreeConcat(pad, "=" + value, kw);
    ApartFromSign(ColumnText(a.col), pad, "=" + value);
    FreeConcat(ColumnText(a.col), pad + ("=" + value), kw);
    SpacesApart(lead, AssignmentText(pad, a));
    FreeConcat(lead, AssignmentText(pad, a), kw);
  }

  lemma {:induction false} SpacesApart(pad: string, b: string)
    requires AllSpace(pad)
    ensures Apart(pad, b)
  {
    if pad != [] {
      assert IsSpace(pad[|pad| - 1]);
    }
  }

  lemma {:induction false} ApartFromSign(a: string, pad: string, b: string)
    requires AllSpace(pad) && b != [] && !WordChar(b[0])
    ensures Apart(a, pad + b)
  {
    if pad != [] {
      assert IsSpace((pad + b)[0]);
    } else {
      assert (pad + b)[0] == b[0];
    }
  }

  /** A word inside a longer one is not found: a plain name without dots holds the keyword exactly when it
      is the keyword. */
  lemma {:induction false} BareFreeExact(name: string, kw: string)
    requires IsWord(kw) && IsPlain(name) && '.' !in name
    ensures WordFree(ColumnText(Bare(name)), kw) <==> !SameIgnoringCase(name, kw)
  {
    if SameIgnoringCase(name, kw) {
      assert kw[0] in kw && Lower(name[0]) == Lower(kw[0]);
      assert name[..0] == [] && name[0..|kw|] == name;
      assert WordAt(name, kw, 0);
    } else {
      assert name[0..|name|] == name;
      forall k | 0 <= k < |name|
        ensures WordChar(name[k])
      {
        assert IdentChar(name[k]) && name[k] in name;
      }
    }
  }

  /** A name in double quotes or backticks never holds it. */
  lemma {:induction false} MarkedIsFree(col: Column, kw: string)
    requires (col.InDoubleQuotes? || col.InBackticks?) && IsColumn(col) && IsWord(kw)
    ensures WordFree(ColumnText(col), kw)
  {
    var mark := if col.InDoubleQuotes? then '"' else '`';
    var q := if col.InDoubleQuotes? then Quotes(false, true, false) else Quotes(false, false, true);
    var text := [mark] + (col.name + [mark]);
    forall i: nat
      ensures !WordAt(text, kw, i)
    {
      if 0 < i < |text| && IsAlpha(text[i]) {
        assert text[..i] == [mark] + col.name[..i - 1] && ([mark] + col.name[..i - 1])[1..] == col.name[..i - 1];
        MarkKeepsInside(q, mark, col.name[..i - 1]);
        assert Nest(Top, mark) == Nesting(0, q);
      }
    }
  }

  lemma {:induction false} MarkKeepsInside(q: Quotes, mark: char, s: string)
    requires (q == Quotes(false, true, false) && mark == '"') || (q == Quotes(false, false, true) && mark == '`')
    requires mark !in s
    ensures NestAll(Nesting(0, q), s) == Nesting(0, q)
  {
    if s != [] {
      assert s[0] in s && Nest(Nesting(0, q), s[0]) == Nesting(0, q);
      MarkKeepsInside(q, mark, s[1..]);
    }
  }

  predicate Ends(s: string) {
    NestAll(Top, s) == Top && s != []
  }

  lemma {:induction false} AssignmentEnds(lead: string, pad: string, a: Assignment)
    requires AllSpace(lead) && AllSpace(pad) && IsAssignment(a)
    ensures Ends(lead + AssignmentText(pad, a))
  {
    AssignmentStaysTop(lead, pad, a);
    AssignmentIsTight(pad, a);
  }

  lemma CommaStaysTop()
    ensures NestAll(Top, ",") == Top
  {
    assert ","[1..] == [];
  }

  /** Two texts with a comma between them. */
  lemma {:induction false} CommaBetween(first: string, later: string, kw: string)
    requires Ends(first) && Ends(later) && IsWord(kw)
    ensures Ends(first + ("," + later))
    ensures WordFree(first + ("," + later), kw) <==> WordFree(first, kw) && WordFree(later, kw)
  {
    hide NestAll, WordFree;
    var tail := "," + later;
    CommaStaysTop();
    NoLettersNoWord(",", kw);
    FreeConcat(",", later, kw);
    FreeConcat(first, tail, kw);
    NestConcat(Top, ",", later);
    NestConcat(Top, first, tail);
  }

  ghost predicate ClauseFree(assignments: seq<Assignment>, kw: string) {
    forall a | a in assignments :: AssignmentFree(a, kw)
  }

  lemma {:induction false} ClauseFreeCons(a: Assignment, others: seq<Assignment>, kw: string)
    ensures ClauseFree([a] + others, kw) <==> AssignmentFree(a, kw) && ClauseFree(others, kw)
  {
    assert forall b :: b in [a] + others <==> b == a || b in others;
  }

  /** A written SET clause holds the keyword at the top level exactly when one of its columns or
      expressions does; a string may hold it. */
  lemma {:induction false} ClauseIsFree(
    lead: string, gap: string, pad: string, assignments: seq<Assignment>, kw: string)
    requires AllSpace(lead) && AllSpace(gap) && AllSpace(pad) && IsWord(kw)
    requires assignments != [] && forall a | a in assignments :: IsAssignment(a)
    ensures Ends(SetText(lead, gap, pad, assignments))
    ensures WordFree(SetText(lead, gap, pad, assignments), kw) <==> ClauseFree(assignments, kw)
    decreases |assignments|
  {
    var a, others := assignments[0], assignments[1..];
    hide AssignmentText, AssignmentFree, WordFree, Ends, IsAssignment, AllSpace;
    AssignmentIsFree(lead, pad, a, kw);
    AssignmentEnds(lead, pad, a);
    assert assignments == [a] + others;
    ClauseFreeCons(a, others, kw);
    if others != [] {
      ClauseIsFree(gap, gap, pad, others, kw);
      CommaBetween(lead + AssignmentText(pad, a), SetText(gap, gap, pad, others), kw);
    }
  }

  lemma {:induction false} WordAfter(clause: string, tail: string, kw: string)
    requires IsWord(kw) && Ends(clause) && WordAt(tail, kw, 1) && !WordAt(tail, kw, 0)
    ensures WordAt(clause + tail, kw, |clause| + 1)
    ensures (forall i: nat :: i < |clause| + 1 ==> !WordAt(clause + tail, kw, i)) <==> WordFree(clause, kw)
  {
    WordInSecond(clause, tail, kw, 1);
    WordInSecond(clause, tail, kw, 0);
    forall i: nat
      ensures i < |clause| ==> (WordAt(clause + tail, kw, i) <==> WordAt(clause, kw, i))
      ensures |clause| <= i ==> !WordAt(clause, kw, i)
    {
      if i < |clause| {
        WordInFirst(clause, tail, kw, i);
      }
    }
  }

  /** After a written SET clause the search returns the WHERE, whatever the strings and whatever
      follows, exactly when no column or expression holds the word itself. */
  lemma {:induction false} WhereIsFound(
    lead: string, gap: string, pad: string, assignments: seq<Assignment>, rest: string)
    requires AllSpace(lead) && AllSpace(gap) && AllSpace(pad)
    requires assignments != [] && forall a | a in assignments :: IsAssignment(a)
    ensures
      var clause := SetText(lead, gap, pad, assignments);
      var text := clause + (" WHERE " + rest);
      && WordAt(text, "where", |clause| + 1)
      && ((forall i: nat :: i < |clause| + 1 ==> !WordAt(text, "where", i)) <==> ClauseFree(assignments, "where"))
  {
    hide SetText, WordAt, WordFree, ClauseFree, IsColumn, Ends;
    WhereIsWord();
    TailIsWhere(rest);
    ClauseIsFree(lead, gap, pad, assignments, "where");
    WordAfter(SetText(lead, gap, pad, assignments), " WHERE " + rest, "where");
  }

  lemma WhereIsWord()
    ensures IsWord("where")
  {
  }

  lemma {:induction false} TailIsWhere(rest: string)
    ensures WordAt(" WHERE " + rest, "where", 1) && !WordAt(" WHERE " + rest, "where", 0)
  {
    var s := " WHERE " + rest;
    assert s[..1] == " " && " "[1..] == [];
    assert NestAll(Top, " ") == Top;
    assert s[1..6] == "WHERE" && s[6] == ' ';
    assert SameIgnoringCase("WHERE", "where");
  }
}
