/**
 What the rows of a VALUES clause are cut into, for rows of any expressions, and exactly when that
 is what the top-level splitter makes of the same text.  The row reader and the splitter were
 written separately: the reader counts parentheses only, the splitter brackets too.
 */
module RowCells {
  import opened Wrappers
  import opened SqlText
  import opened Pieces
  import opened TopLevel
  import opened ValuesClause

  /** Nesting as the row reader counts it. */
  function NestParens(n: Nesting, c: char): Nesting {
    if n.quotes == Unquoted && c == '(' then n.(depth := n.depth + 1)
    else if n.quotes == Unquoted && c == ')' then n.(depth := n.depth - 1)
    else n.(quotes := Toggle(n.quotes, c))
  }

  /** The text cut at the commas outside quotes and parentheses. */
  function SplitCells(n: Nesting, s: string): (parts: seq<string>)
    ensures 0 < |parts|
    decreases |s|
  {
    if s == [] then [[]]
    else if n == Top && s[0] == ',' then [[]] + SplitCells(n, s[1..])
    else Prepend([s[0]], SplitCells(NestParens(n, s[0]), s[1..]))
  }

  /** The text between a row's parentheses: all quotes and parentheses in it are closed, and none
      of its ')' closes the row. */
  predicate Closed(n: Nesting, s: string)
    decreases |s|
  {
    if s == [] then n == Top
    else !(n.quotes == Unquoted && s[0] == ')' && n.depth == 0) && Closed(NestParens(n, s[0]), s[1..])
  }

  function NormalizeAll(parts: seq<string>): seq<string> {
    if parts == [] then [] else [Normalize(parts[0])] + NormalizeAll(parts[1..])
  }

  // ----- what a row is read as -----

  lemma {:induction false} ReadClosed(n: Nesting, s: string, rest: string, token: string, cell: seq<string>)
    requires 0 <= n.depth && Closed(n, s)
    ensures ParseRow(s + (")" + rest), n.depth + 1, n.quotes, token, cell)
            == Some(Row(cell + NormalizeAll(Prepend(token, SplitCells(n, s))), rest))
    decreases |s|
  {
    var text := s + (")" + rest);
    if s == [] {
      assert text == ")" + rest;
      ReadClose(rest, token, cell);
      OneCell(token);
    } else {
      assert text[0] == s[0] && text[1..] == s[1..] + (")" + rest);
      var after := SplitCells(NestParens(n, s[0]), s[1..]);
      if n == Top && s[0] == ',' {
        ReadClosed(n, s[1..], rest, [], cell + [Normalize(token)]);
        CellCut(token, SplitCells(n, s[1..]), cell);
      } else {
        ReadClosed(NestParens(n, s[0]), s[1..], rest, token + [s[0]], cell);
        PrependTwice(token, [s[0]], after);
      }
    }
  }

  lemma OneCell(token: string)
    ensures NormalizeAll(Prepend(token, [[]])) == [Normalize(token)]
  {
    assert token + [] == token;
    assert Prepend(token, [[]]) == [token];
    assert NormalizeAll([token]) == [Normalize(token)];
  }

  lemma {:induction false} CellCut(token: string, after: seq<string>, cell: seq<string>)
    requires 0 < |after|
    ensures cell + NormalizeAll(Prepend(token, [[]] + after))
            == cell + [Normalize(token)] + NormalizeAll(Prepend([], after))
  {
    PrependHead(token, [], after);
    assert token + [] == token;
    PrependNothing(after);
    assert ([token] + after)[1..] == after;
    ConcatAssoc(cell, [Normalize(token)], NormalizeAll(after));
  }

  lemma {:induction false} FindClose(n: Nesting, s: string, token: string, cell: seq<string>) returns (inner: string)
    requires 0 <= n.depth && ParseRow(s, n.depth + 1, n.quotes, token, cell).Some?
    ensures Closed(n, inner)
    ensures s == inner + (")" + ParseRow(s, n.depth + 1, n.quotes, token, cell).value.rest)
    decreases |s|
  {
    hide Normalize;
    if n == Top && s[0] == ')' {
      inner := [];
      assert s == ")" + s[1..];
    } else {
      var cut := n == Top && s[0] == ',';
      var later := FindClose(NestParens(n, s[0]), s[1..], if cut then [] else token + [s[0]],
                             if cut then cell + [Normalize(token)] else cell);
      inner := [s[0]] + later;
      assert inner[1..] == later && s == [s[0]] + s[1..];
    }
  }

  /** A row is read exactly when a closed text followed by ')' stands there, and its cells are that
      text cut at the commas outside quotes and parentheses, each normalized. */
  lemma {:induction false} RowIsCells(s: string)
    ensures
      match ParseRow(s, 1, Unquoted, [], [])
      case None => forall inner, rest :: s == inner + (")" + rest) ==> !Closed(Top, inner)
      case Some(row) =>
        exists inner :: Closed(Top, inner) && s == inner + (")" + row.rest)
            && row.cells == NormalizeAll(SplitCells(Top, inner))
  {
    var row := ParseRow(s, 1, Unquoted, [], []);
    if row.None? {
      forall inner, rest | s == inner + (")" + rest)
        ensures !Closed(Top, inner)
      {
        if Closed(Top, inner) {
          ReadRowOf(inner, rest);
        }
      }
    } else {
      var inner := FindClose(Top, s, [], []);
      ReadRowOf(inner, row.value.rest);
    }
  }

  lemma {:induction false} ReadRowOf(s: string, rest: string)
    requires Closed(Top, s)
    ensures ParseRow(s + (")" + rest), 1, Unquoted, [], []) == Some(Row(NormalizeAll(SplitCells(Top, s)), rest))
  {
    hide ParseRow, Closed, SplitCells;
    ReadClosed(Top, s, rest, [], []);
    PrependNothing(SplitCells(Top, s));
    assert [] + NormalizeAll(SplitCells(Top, s)) == NormalizeAll(SplitCells(Top, s));
  }

  // ----- agreement with the splitter -----

  /** Every comma outside quotes is at depth 0 for both counts or for neither. */
  predicate SameCommas(n: Nesting, p: Nesting, s: string)
    decreases |s|
  {
    s == [] ||
    ((n.quotes == Unquoted && s[0] == ',' ==> (n.depth == 0 <==> p.depth == 0)) &&
     SameCommas(Nest(n, s[0]), NestParens(p, s[0]), s[1..]))
  }

  lemma SameHead(text: string, a: seq<string>, b: seq<string>)
    requires 0 < |a| && 0 < |b|
    ensures Prepend(text, a) == Prepend(text, b) <==> a == b
    ensures [[]] + a == [[]] + b <==> a == b
    ensures text != [] ==> Prepend(text, a) != [[]] + b && [[]] + a != Prepend(text, b)
  {
    if Prepend(text, a) == Prepend(text, b) {
      assert a[0] == (text + a[0])[|text|..] == (text + b[0])[|text|..] == b[0];
      assert a == [a[0]] + Prepend(text, a)[1..] && b == [b[0]] + Prepend(text, b)[1..];
    }
    if [[]] + a == [[]] + b {
      assert a == ([[]] + a)[1..] == ([[]] + b)[1..] == b;
    }
    assert |Prepend(text, a)[0]| >= |text| && |Prepend(text, b)[0]| >= |text|;
  }

  /** The two ways of cutting agree exactly on the texts in which the two ways of counting agree at
      every comma. */
  lemma {:induction false} CellsAreParts(n: Nesting, p: Nesting, s: string)
    requires n.quotes == p.quotes
    ensures SplitTop(n, s, ',') == SplitCells(p, s) <==> SameCommas(n, p, s)
    decreases |s|
  {
    if s != [] {
      var n', p' := Nest(n, s[0]), NestParens(p, s[0]);
      CellsAreParts(n', p', s[1..]);
      SameHead([s[0]], SplitTop(n', s[1..], ','), SplitCells(p', s[1..]));
    }
  }

  /** Where the counts agree, the cells of a row are the parts between its top-level commas. */
  lemma {:induction false} RowIsSplit(s: string, rest: string)
    requires Closed(Top, s) && SameCommas(Top, Top, s)
    ensures ParseRow(s + (")" + rest), 1, Unquoted, [], []) == Some(Row(NormalizeAll(SplitTop(Top, s, ',')), rest))
  {
    ReadRowOf(s, rest);
    CellsAreParts(Top, Top, s);
  }

  predicate NoBrackets(q: Quotes, s: string)
    decreases |s|
  {
    s == [] || ((q == Unquoted ==> s[0] != '[' && s[0] != ']') && NoBrackets(Toggle(q, s[0]), s[1..]))
  }

  lemma {:induction false} SameWithoutBrackets(n: Nesting, s: string)
    requires NoBrackets(n.quotes, s)
    ensures SameCommas(n, n, s)
    decreases |s|
  {
    if s != [] {
      assert Nest(n, s[0]) == NestParens(n, s[0]);
      SameWithoutBrackets(Nest(n, s[0]), s[1..]);
    }
  }

  /** They do not agree everywhere: a comma in brackets cuts a row, but no list of assignments. */
  lemma {:induction false} BracketsCutRows(rest: string)
    ensures ParseRow(['['] + ("," + ([']'] + (")" + rest))), 1, Unquoted, [], []) == Some(Row([['['], [']']], rest))
    ensures SplitTop(Top, "[,]", ',') == ["[,]"]
  {
    var shut := [']'] + (")" + rest);
    ReadFirst('[', "," + shut, []);
    ReadBareComma(shut, ['[']);
    ReadLast(']', rest, ['[']);
    BracketsKeepPart();
  }

  lemma {:induction false} ReadBareComma(later: string, token: string)
    requires Tight(token) && '\'' !in token
    ensures ParseRow("," + later, 1, Unquoted, token, []) == ParseRow(later, 1, Unquoted, [], [token])
  {
    assert ("," + later)[1..] == later && [] + [token] == [token];
    TrimOfTight(token);
  }

  lemma {:induction false} ReadFirst(c: char, rest: string, cell: seq<string>)
    requires c !in "(),'\"`"
    ensures ParseRow([c] + rest, 1, Unquoted, [], cell) == ParseRow(rest, 1, Unquoted, [c], cell)
  {
    assert ([c] + rest)[1..] == rest && [] + [c] == [c];
  }

  lemma {:induction false} ReadLast(c: char, rest: string, before: string)
    requires c !in "(),'\"`" && !IsSpace(c)
    ensures ParseRow([c] + (")" + rest), 1, Unquoted, [], [before]) == Some(Row([before, [c]], rest))
  {
    ReadFirst(c, ")" + rest, [before]);
    ReadClose(rest, [c], [before]);
    TrimOfTight([c]);
    assert Normalize([c]) == [c] && [before] + [[c]] == [before, [c]];
  }

  lemma BracketsKeepPart()
    ensures SplitTop(Top, "[,]", ',') == ["[,]"]
  {
    var inside := Nesting(1, Unquoted);
    assert "[,]"[1..] == ",]" && ",]"[1..] == "]" && "]"[1..] == [];
    assert "]" + [] == "]" && "," + "]" == ",]" && "[" + ",]" == "[,]";
    assert SplitTop(inside, "]", ',') == Prepend("]", [[]]) == ["]"];
    assert SplitTop(inside, ",]", ',') == Prepend(",", ["]"]) == [",]"];
    assert Prepend("[", [",]"]) == ["[,]"];
  }
}
