/**
 Reading back the rows of a VALUES clause as people write them: strings and expressions mixed, with
 whitespace on either side of every comma and parenthesis.
 */
module MixedRows {
  import opened Wrappers
  import opened SqlText
  import opened Pieces
  import opened TopLevel
  import opened ValuesClause
  import opened RowCells

  datatype Cell = Cell(before: string, content: Content, after: string)

  datatype WrittenRow = WrittenRow(before: string, cells: seq<Cell>, after: string)

  /** One cell's worth of text: everything opened is closed, and no comma stands outside. */
  predicate IsOneCell(t: string) {
    Closed(Top, t) && |SplitCells(Top, t)| == 1
  }

  predicate IsCell(c: Cell) {
    && AllSpace(c.before) && AllSpace(c.after)
    && (c.content.Expr? ==> IsExpression(c.content.text) && IsOneCell(c.content.text))
  }

  predicate IsRow(r: WrittenRow) {
    AllSpace(r.before) && AllSpace(r.after) && r.cells != [] && forall c | c in r.cells :: IsCell(c)
  }

  function CellText(c: Cell): string {
    c.before + (ContentText(c.content) + c.after)
  }

  function InnerText(cells: seq<Cell>): string {
    if cells == [] then []
    else if |cells| == 1 then CellText(cells[0])
    else CellText(cells[0]) + ("," + InnerText(cells[1..]))
  }

  /** The rows with commas between them, and then `tail`. */
  function MixedText(rows: seq<WrittenRow>, tail: string): string {
    if rows == [] then tail
    else
      var later := if |rows| == 1 then tail else "," + MixedText(rows[1..], tail);
      rows[0].before + ("(" + (InnerText(rows[0].cells) + (")" + (rows[0].after + later))))
  }

  function CellValues(cells: seq<Cell>): seq<string> {
    if cells == [] then [] else [cells[0].content.text] + CellValues(cells[1..])
  }

  function RowValues(rows: seq<WrittenRow>): seq<seq<string>> {
    if rows == [] then [] else [CellValues(rows[0].cells)] + RowValues(rows[1..])
  }

  // ----- closed texts put together -----

  lemma {:induction false} ClosedConcat(n: Nesting, a: string, b: string)
    requires Closed(n, a) && Closed(Top, b)
    ensures Closed(n, a + b)
    decreases |a|
  {
    if a == [] {
      assert a + b == b;
    } else {
      assert (a + b)[0] == a[0] && (a + b)[1..] == a[1..] + b;
      ClosedConcat(NestParens(n, a[0]), a[1..], b);
    }
  }

  lemma {:induction false} SplitCellsConcat(n: Nesting, a: string, b: string)
    requires Closed(n, a) && |SplitCells(n, a)| == 1
    ensures SplitCells(n, a + b) == Prepend(a, SplitCells(Top, b))
    decreases |a|
  {
    if a == [] {
      assert a + b == b;
      PrependNothing(SplitCells(n, b));
    } else {
      assert (a + b)[0] == a[0] && (a + b)[1..] == a[1..] + b;
      SplitCellsConcat(NestParens(n, a[0]), a[1..], b);
      PrependTwice([a[0]], a[1..], SplitCells(Top, b));
      assert [a[0]] + a[1..] == a;
    }
  }

  lemma {:induction false} OneCellConcat(a: string, b: string)
    requires IsOneCell(a) && IsOneCell(b)
    ensures IsOneCell(a + b)
  {
    hide Closed, SplitCells;
    ClosedConcat(Top, a, b);
    SplitCellsConcat(Top, a, b);
  }

  lemma {:induction false} SpacesAreOneCell(s: string)
    requires AllSpace(s)
    ensures IsOneCell(s)
  {
    if s != [] {
      assert IsSpace(s[0]) && NestParens(Top, s[0]) == Top;
      SpacesAreOneCell(s[1..]);
    }
  }

  /** A string is one cell, whatever it contains. */
  lemma {:induction false} InsideString(v: string)
    ensures Closed(InQuotes, Double(v) + "'") && |SplitCells(InQuotes, Double(v) + "'")| == 1
  {
    var s := Double(v) + "'";
    if v == [] {
      assert s == "'" && s[1..] == [];
      assert NestParens(InQuotes, '\'') == Top;
    } else {
      var after := Double(v[1..]) + "'";
      InsideString(v[1..]);
      if v[0] == '\'' {
        assert s == "''" + after && s[1..] == "'" + after && s[1..][1..] == after;
        assert NestParens(InQuotes, '\'') == Top && NestParens(Top, '\'') == InQuotes;
      } else {
        assert s == [v[0]] + after && s[1..] == after;
        assert NestParens(InQuotes, v[0]) == InQuotes;
      }
    }
  }

  const InQuotes := Nesting(0, InSingle)

  lemma {:induction false} StringIsOneCell(v: string)
    ensures IsOneCell(Quoted(v))
  {
    InsideString(v);
    assert Quoted(v)[1..] == Double(v) + "'" && NestParens(Top, '\'') == InQuotes;
  }

  lemma {:induction false} CellIsOneCell(c: Cell)
    requires IsCell(c)
    ensures IsOneCell(CellText(c))
  {
    hide IsOneCell;
    SpacesAreOneCell(c.before);
    SpacesAreOneCell(c.after);
    if c.content.Str? {
      StringIsOneCell(c.content.text);
    }
    OneCellConcat(ContentText(c.content), c.after);
    OneCellConcat(c.before, ContentText(c.content) + c.after);
  }

  lemma {:induction false} OnlyCell(n: Nesting, s: string)
    requires |SplitCells(n, s)| == 1
    ensures SplitCells(n, s) == [s]
    decreases |s|
  {
    if s != [] {
      OnlyCell(NestParens(n, s[0]), s[1..]);
      assert [s[0]] + s[1..] == s;
    }
  }

  lemma {:induction false} CommaCuts(later: string)
    ensures SplitCells(Top, "," + later) == [[]] + SplitCells(Top, later)
    ensures Closed(Top, later) ==> Closed(Top, "," + later)
  {
    assert ("," + later)[1..] == later && NestParens(Top, ',') == Top;
  }

  lemma {:induction false} NormalizeHead(first: string, others: seq<string>)
    ensures NormalizeAll([first] + others) == [Normalize(first)] + NormalizeAll(others)
  {
    assert ([first] + others)[1..] == others;
  }

  lemma {:induction false} InnerCells(cells: seq<Cell>)
    requires cells != [] && forall c | c in cells :: IsCell(c)
    ensures Closed(Top, InnerText(cells))
    ensures NormalizeAll(SplitCells(Top, InnerText(cells))) == CellValues(cells)
    decreases |cells|
  {
    hide Closed, SplitCells, Normalize, IsCell;
    var first := CellText(cells[0]);
    CellIsOneCell(cells[0]);
    CellIsRead(cells[0]);
    if |cells| == 1 {
      OnlyCell(Top, first);
      NormalizeHead(first, []);
      assert [first] + [] == [first];
    } else {
      var later := InnerText(cells[1..]);
      InnerCells(cells[1..]);
      CommaCuts(later);
      ClosedConcat(Top, first, "," + later);
      SplitCellsConcat(Top, first, "," + later);
      PrependHead(first, [], SplitCells(Top, later));
      assert first + [] == first;
      NormalizeHead(first, SplitCells(Top, later));
    }
  }

  lemma {:induction false} CellIsRead(c: Cell)
    requires IsCell(c)
    ensures Normalize(CellText(c)) == c.content.text
  {
    NormalizeContent(c.before, c.content, c.after);
  }

  // ----- the round trip -----

  lemma {:induction false} ReadWrittenRow(r: WrittenRow, later: string)
    requires IsRow(r)
    ensures ParseRows(r.before + ("(" + (InnerText(r.cells) + (")" + (r.after + later)))))
            == [CellValues(r.cells)] + ParseRows(later)
  {
    hide ParseRow, ParseRows, Closed, SplitCells, NormalizeAll;
    var inner, rest := InnerText(r.cells), r.after + later;
    var text := "(" + (inner + (")" + rest));
    ParseRowsGap(r.before, text);
    ParseRowsAtRow(text);
    assert text[1..] == inner + (")" + rest);
    InnerCells(r.cells);
    ReadRowOf(inner, rest);
    ParseRowsGap(r.after, later);
  }

  /** The tokenizer reads any mixture back: a string as its value, an expression as its text, whatever
      whitespace stands around them, and whatever follows the clause. */
  lemma {:induction false} MixedRoundTrip(rows: seq<WrittenRow>, tail: string)
    requires forall r | r in rows :: IsRow(r)
    ensures ParseRows(MixedText(rows, tail)) == RowValues(rows) + ParseRows(tail)
    decreases |rows|
  {
    hide ParseRows, IsRow;
    if rows == [] {
      assert RowValues(rows) + ParseRows(tail) == ParseRows(tail);
    } else {
      var later := if |rows| == 1 then tail else "," + MixedText(rows[1..], tail);
      ReadWrittenRow(rows[0], later);
      MixedRoundTrip(rows[1..], tail);
      if |rows| == 1 {
        assert RowValues(rows) == [CellValues(rows[0].cells)];
      } else {
        ParseRowsSkips(later);
        assert later[1..] == MixedText(rows[1..], tail);
      }
      ConcatAssoc([CellValues(rows[0].cells)], RowValues(rows[1..]), ParseRows(tail));
    }
  }

  /** What follows is no row when it starts, after whitespace, with neither '(' nor a comma. */
  lemma {:induction false} TailIsNoRow(pad: string, word: string)
    requires AllSpace(pad) && (word != [] ==> !IsSpace(word[0]) && word[0] != ',' && word[0] != '(')
    ensures ParseRows(pad + word) == []
  {
    ParseRowsGap(pad, word);
    if word != [] {
      ParseRowsAtRow(word);
    }
  }
}
