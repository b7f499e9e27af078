/**
 The tokenizer for the rows of a VALUES clause, and its round trip with the way such rows are
 written in SQL: strings in single quotes, each inner quote doubled.
 */
module ValuesClause {
  import opened Wrappers
  import opened SqlText
  import opened TopLevel
  import SplitSql

  /** `replace("''", "'")`: pairs of quotes, taken from the left. */
  function Undouble(s: string): string {
    if s == [] then []
    else if 1 < |s| && s[0] == '\'' && s[1] == '\'' then ['\''] + Undouble(s[2..])
    else [s[0]] + Undouble(s[1..])
  }

  function Normalize(token: string): string {
    var t := Trim(token);
    if 2 <= |t| && t[0] == '\'' && t[|t| - 1] == '\'' then Undouble(t[1..|t| - 1]) else t
  }

  datatype Row = Row(cells: seq<string>, rest: string)

  /** The rest of a row whose '(' has been read, at nesting `depth`: its cells and the text after
      its ')', or None when the text ends first. */
  function ParseRow(s: string, depth: nat, q: Quotes, token: string, cell: seq<string>): (r: Option<Row>)
    requires 0 < depth
    ensures r.Some? ==> |r.value.rest| < |s|
    decreases |s|
  {
    if s == [] then None
    else if q == Unquoted && s[0] == '(' then ParseRow(s[1..], depth + 1, q, token + [s[0]], cell)
    else if q == Unquoted && s[0] == ')' then
      if depth == 1 then Some(Row(cell + [Normalize(token)], s[1..]))
      else ParseRow(s[1..], depth - 1, q, token + [s[0]], cell)
    else if q == Unquoted && s[0] == ',' && depth == 1 then ParseRow(s[1..], depth, q, [], cell + [Normalize(token)])
    else ParseRow(s[1..], depth, Toggle(q, s[0]), token + [s[0]], cell)
  }

  function ParseRows(text: string): seq<seq<string>>
    decreases |text|
  {
    var _ := TrimStartLength(text);
    var s := TrimStart(text);
    if s == [] then []
    else if s[0] == ',' then ParseRows(s[1..])
    else if s[0] != '(' then []
    else
      match ParseRow(s[1..], 1, Unquoted, [], [])
      case None => []
      case Some(Row(cell, rest)) => [cell] + ParseRows(rest)
  }

  function TrimStartLength(s: string): (n: nat)
    ensures n == |TrimStart(s)| <= |s|
  {
    if s != [] && IsSpace(s[0]) then TrimStartLength(s[1..]) else |s|
  }

  lemma {:induction false} ParseRowsSkips(s: string)
    requires s != []
    ensures IsSpace(s[0]) ==> ParseRows(s) == ParseRows(s[1..])
    ensures s[0] == ',' ==> ParseRows(s) == ParseRows(s[1..])
  {
    if s[0] == ',' {
      assert TrimStart(s) == s;
    }
  }

  /** The inner loop of the tokenizer: one row, from its '(' to its ')' or the end of the text. */
  method ScanRow(s: string, start: nat) returns (closed: bool, cell: seq<string>, i: nat)
    requires start < |s| && s[start] == '('
    ensures closed ==> start < i < |s| && ParseRow(s[start + 1..], 1, Unquoted, [], []) == Some(Row(cell, s[i + 1..]))
    ensures !closed ==> i == |s| && ParseRow(s[start + 1..], 1, Unquoted, [], []) == None
  {
    var depth: nat := 0;
    var q := Unquoted;
    var token: string := [];
    cell := [];
    closed := false;
    i := start;
    while i < |s|
      invariant start <= i <= |s| && !closed
      invariant depth == 0 ==> i == start && q == Unquoted && token == [] && cell == []
      invariant 0 < depth ==>
                  start < i && ParseRow(s[i..], depth, q, token, cell) == ParseRow(s[start + 1..], 1, Unquoted, [], [])
    {
      SliceHead(s, i);
      var c := s[i];
      if c == '(' && q == Unquoted {
        depth := depth + 1;
        if 1 < depth {
          token := token + [c];
        }
      } else if c == ')' && q == Unquoted {
        if depth == 1 {
          cell := cell + [Normalize(token)];
          closed := true;
          return;
        }
        depth := depth - 1;
        token := token + [c];
      } else if c == ',' && q == Unquoted && depth == 1 {
        cell := cell + [Normalize(token)];
        token := [];
      } else {
        q := Toggle(q, c);
        token := token + [c];
      }
      i := i + 1;
    }
    assert s[i..] == [];
  }

  method ParseValueRows(s: string) returns (rows: seq<seq<string>>)
    ensures rows == ParseRows(s)
  {
    hide ParseRow, ParseRows;
    var i := 0;
    rows := [];
    assert s[0..] == s;
    NoRows();
    while i < |s|
      invariant i <= |s|
      invariant rows + ParseRows(s[i..]) == ParseRows(s)
    {
      while i < |s| && IsSpace(s[i])
        invariant i <= |s|
        invariant rows + ParseRows(s[i..]) == ParseRows(s)
      {
        SliceHead(s, i);
        ParseRowsSkips(s[i..]);
        i := i + 1;
      }
      if i == |s| {
        break;
      }
      SliceHead(s, i);
      if s[i] == ',' {
        ParseRowsSkips(s[i..]);
        i := i + 1;
        continue;
      }
      ParseRowsAtRow(s[i..]);
      if s[i] != '(' {
        return;
      }
      var closed, cell, end := ScanRow(s, i);
      i := end;
      if closed {
        ConcatAssoc(rows, [cell], ParseRows(s[i + 1..]));
        rows := rows + [cell];
        i := i + 1;
      } else {
        assert s[i..] == [];
      }
    }
    assert s[i..] == [];
  }

  lemma NoRows()
    ensures ParseRows([]) == []
  {
  }

  lemma {:induction false} ParseRowsAtRow(s: string)
    requires s != [] && !IsSpace(s[0]) && s[0] != ','
    ensures ParseRows(s) ==
            if s[0] != '(' then []
            else
              match ParseRow(s[1..], 1, Unquoted, [], [])
              case None => []
              case Some(Row(cell, rest)) => [cell] + ParseRows(rest)
  {
    assert TrimStart(s) == s;
  }

  // ----- writing rows -----

  function Double(v: string): string {
    if v == [] then []
    else (if v[0] == '\'' then "''" else [v[0]]) + Double(v[1..])
  }

  function Quoted(v: string): string {
    "'" + (Double(v) + "'")
  }

  /** What is written for one value: a string in quotes, or an expression, which is read as its text. */
  datatype Content = Str(text: string) | Expr(text: string)

  function ContentText(c: Content): string {
    match c
    case Str(v) => Quoted(v)
    case Expr(t) => t
  }

  /** An expression that is not taken for a string: neither end is whitespace, and it does not both
      start and end with a quote. */
  predicate IsExpression(t: string) {
    Tight(t) && !(2 <= |t| && t[0] == '\'' && t[|t| - 1] == '\'')
  }

  /** The cells and the closing ')', with `gap` after each comma. */
  function CellsText(gap: string, row: seq<string>): string {
    if row == [] then ")"
    else if |row| == 1 then Quoted(row[0]) + ")"
    else Quoted(row[0]) + ("," + (gap + CellsText(gap, row[1..])))
  }

  function RowsText(gap: string, rows: seq<seq<string>>): string {
    if rows == [] then []
    else if |rows| == 1 then "(" + CellsText(gap, rows[0])
    else "(" + (CellsText(gap, rows[0]) + ("," + (gap + RowsText(gap, rows[1..]))))
  }

  lemma {:induction false} CellsTextThen(gap: string, row: seq<string>, rest: string)
    requires row != []
    ensures CellsText(gap, row) + rest ==
            if |row| == 1 then Quoted(row[0]) + (")" + rest)
            else Quoted(row[0]) + ("," + (gap + (CellsText(gap, row[1..]) + rest)))
  {
    if |row| == 1 {
      ConcatAssoc(Quoted(row[0]), ")", rest);
    } else {
      var later := CellsText(gap, row[1..]);
      ConcatAssoc(Quoted(row[0]), "," + (gap + later), rest);
      ConcatAssoc(",", gap + later, rest);
      ConcatAssoc(gap, later, rest);
    }
  }

  lemma {:induction false} RowsTextThen(gap: string, rows: seq<seq<string>>, rest: string)
    requires rows != []
    ensures RowsText(gap, rows) + rest ==
            "(" + (CellsText(gap, rows[0])
                   + if |rows| == 1 then rest else "," + (gap + (RowsText(gap, rows[1..]) + rest)))
  {
    var first := CellsText(gap, rows[0]);
    if |rows| == 1 {
      ConcatAssoc("(", first, rest);
    } else {
      var later := RowsText(gap, rows[1..]);
      ConcatAssoc("(", first + ("," + (gap + later)), rest);
      ConcatAssoc(first, "," + (gap + later), rest);
      ConcatAssoc(",", gap + later, rest);
      ConcatAssoc(gap, later, rest);
    }
  }

  /** What the tokenizer makes of a written row: an empty one reads as one empty value. */
  function ReadRow(row: seq<string>): seq<string> {
    if row == [] then [""] else row
  }

  function ReadRows(rows: seq<seq<string>>): seq<seq<string>> {
    if rows == [] then [] else [ReadRow(rows[0])] + ReadRows(rows[1..])
  }

  lemma {:induction false} UndoubleDouble(v: string)
    ensures Undouble(Double(v)) == v
  {
    if v != [] {
      var d := Double(v);
      UndoubleDouble(v[1..]);
      if v[0] == '\'' {
        assert d[2..] == Double(v[1..]);
      } else {
        assert d[1..] == Double(v[1..]);
      }
    }
  }

  lemma {:induction false} UndoubleQuoted(v: string)
    ensures
      var t := Quoted(v);
      2 <= |t| && t[0] == '\'' && t[|t| - 1] == '\'' && Tight(t) && Undouble(t[1..|t| - 1]) == v
  {
    var t := Quoted(v);
    assert t[1..|t| - 1] == Double(v);
    UndoubleDouble(v);
  }

  lemma {:induction false} NormalizeContent(before: string, c: Content, after: string)
    requires AllSpace(before) && AllSpace(after) && (c.Expr? ==> IsExpression(c.text))
    ensures Normalize(before + (ContentText(c) + after)) == c.text
  {
    hide Quoted, Undouble, Trim, AllSpace;
    var t := ContentText(c);
    ConcatAssoc(before, t, after);
    if c.Str? {
      UndoubleQuoted(c.text);
    }
    TrimOfTightPadded(before, t, after);
  }

  lemma {:induction false} NormalizeQuoted(gap: string, v: string)
    requires AllSpace(gap)
    ensures Normalize(gap + Quoted(v)) == v
  {
    hide Quoted, Normalize;
    NormalizeContent(gap, Str(v), []);
    assert Quoted(v) + [] == Quoted(v);
  }

  /** Only pairs are undone: text is left as it is exactly when no quote in it follows another. */
  lemma {:induction false} UndoubleExact(s: string)
    ensures Undouble(s) == s <==> forall i :: 0 <= i < |s| - 1 ==> s[i] != '\'' || s[i + 1] != '\''
  {
    if 1 < |s| && s[0] == '\'' && s[1] == '\'' {
      UndoubleIsShorter(s[2..]);
    } else if s != [] {
      UndoubleExact(s[1..]);
      assert s == [s[0]] + s[1..];
      if forall i :: 0 <= i < |s[1..]| - 1 ==> s[1..][i] != '\'' || s[1..][i + 1] != '\'' {
        forall i | 0 <= i < |s| - 1
          ensures s[i] != '\'' || s[i + 1] != '\''
        {
          if 0 < i {
            assert s[1..][i - 1] == s[i] && s[1..][i] == s[i + 1];
          }
        }
      }
    }
  }

  lemma {:induction false} UndoubleIsShorter(s: string)
    ensures |Undouble(s)| <= |s|
  {
    if 1 < |s| && s[0] == '\'' && s[1] == '\'' {
      UndoubleIsShorter(s[2..]);
    } else if s != [] {
      UndoubleIsShorter(s[1..]);
    }
  }

  /** So a tight expression is read as its text exactly when it does not both start and end with a
      quote: `'a' || 'b'` is taken for a string. */
  lemma {:induction false} ExpressionExact(t: string)
    requires Tight(t)
    ensures Normalize(t) == t <==> IsExpression(t)
  {
    TrimOfTight(t);
    if !IsExpression(t) {
      UndoubleIsShorter(t[1..|t| - 1]);
    }
  }

  const InSingle := Quotes(true, false, false)

  lemma {:induction false} ReadInside(v: string, rest: string, depth: nat, token: string, cell: seq<string>)
    requires 0 < depth
    ensures ParseRow(Double(v) + ("'" + rest), depth, InSingle, token, cell)
            == ParseRow(rest, depth, Unquoted, token + (Double(v) + "'"), cell)
    decreases |v|
  {
    var s := Double(v) + ("'" + rest);
    if v == [] {
      assert s == "'" + rest && s[1..] == rest;
      assert Double(v) + "'" == "'";
    } else {
      var others := Double(v[1..]);
      var after := others + ("'" + rest);
      ReadInside(v[1..], rest, depth, token + (if v[0] == '\'' then "''" else [v[0]]), cell);
      ConcatAssoc(token, if v[0] == '\'' then "''" else [v[0]], others + "'");
      ConcatAssoc(if v[0] == '\'' then "''" else [v[0]], others, "'");
      ConcatAssoc(if v[0] == '\'' then "''" else [v[0]], others, "'" + rest);
      if v[0] == '\'' {
        assert s == "''" + after && s[1..] == "'" + after && s[1..][1..] == after;
        assert token + ['\''] + ['\''] == token + "''";
      } else {
        assert s == [v[0]] + after && s[1..] == after;
      }
    }
  }

  lemma {:induction false} ReadQuoted(v: string, rest: string, token: string, cell: seq<string>)
    ensures ParseRow(Quoted(v) + rest, 1, Unquoted, token, cell) == ParseRow(rest, 1, Unquoted, token + Quoted(v), cell)
  {
    var inside := Double(v) + ("'" + rest);
    ConcatAssoc(Double(v), "'", rest);
    ConcatAssoc("'", Double(v) + "'", rest);
    assert Quoted(v) + rest == "'" + inside && ("'" + inside)[1..] == inside;
    ReadInside(v, rest, 1, token + ['\''], cell);
    ConcatAssoc(token, "'", Double(v) + "'");
  }

  lemma {:induction false} ReadGap(gap: string, rest: string, token: string, cell: seq<string>)
    requires AllSpace(gap)
    ensures ParseRow(gap + rest, 1, Unquoted, token, cell) == ParseRow(rest, 1, Unquoted, token + gap, cell)
    decreases |gap|
  {
    if gap == [] {
      assert gap + rest == rest && token + gap == token;
    } else {
      assert (gap + rest)[1..] == gap[1..] + rest;
      ReadGap(gap[1..], rest, token + [gap[0]], cell);
      assert token + [gap[0]] + gap[1..] == token + gap;
    }
  }

  lemma {:induction false} ReadClose(rest: string, token: string, cell: seq<string>)
    ensures ParseRow(")" + rest, 1, Unquoted, token, cell) == Some(Row(cell + [Normalize(token)], rest))
  {
    assert (")" + rest)[1..] == rest;
  }

  lemma {:induction false} ReadComma(gap: string, later: string, token: string, cell: seq<string>)
    requires AllSpace(gap)
    ensures ParseRow("," + (gap + later), 1, Unquoted, token, cell)
            == ParseRow(later, 1, Unquoted, gap, cell + [Normalize(token)])
  {
    assert ("," + (gap + later))[1..] == gap + later;
    ReadGap(gap, later, [], cell + [Normalize(token)]);
    assert [] + gap == gap;
  }

  lemma {:induction false} ReadCell(gap: string, v: string, rest: string, pad: string, cell: seq<string>)
    requires AllSpace(gap) && AllSpace(pad)
    ensures ParseRow(Quoted(v) + (")" + rest), 1, Unquoted, pad, cell) == Some(Row(cell + [v], rest))
    ensures ParseRow(Quoted(v) + ("," + (gap + rest)), 1, Unquoted, pad, cell)
        == ParseRow(rest, 1, Unquoted, gap, cell + [v])
  {
    NormalizeQuoted(pad, v);
    ReadQuoted(v, ")" + rest, pad, cell);
    ReadClose(rest, pad + Quoted(v), cell);
    ReadQuoted(v, "," + (gap + rest), pad, cell);
    ReadComma(gap, rest, pad + Quoted(v), cell);
  }

  lemma {:induction false} ReadCells(gap: string, row: seq<string>, rest: string, pad: string, cell: seq<string>)
    requires AllSpace(gap) && AllSpace(pad) && row != []
    ensures ParseRow(CellsText(gap, row) + rest, 1, Unquoted, pad, cell) == Some(Row(cell + row, rest))
    decreases |row|
  {
    CellsTextThen(gap, row, rest);
    if |row| == 1 {
      ReadCell(gap, row[0], rest, pad, cell);
      assert [row[0]] == row;
    } else {
      ReadCell(gap, row[0], CellsText(gap, row[1..]) + rest, pad, cell);
      ReadCells(gap, row[1..], rest, gap, cell + [row[0]]);
      assert [row[0]] + row[1..] == row;
      ConcatAssoc(cell, [row[0]], row[1..]);
    }
  }

  lemma {:induction false} ReadWholeRow(gap: string, row: seq<string>, rest: string)
    requires AllSpace(gap)
    ensures ParseRow(CellsText(gap, row) + rest, 1, Unquoted, [], []) == Some(Row(ReadRow(row), rest))
  {
    if row == [] {
      assert (")" + rest)[1..] == rest;
      assert [] + [Normalize([])] == [""];
    } else {
      ReadCells(gap, row, rest, [], []);
      assert [] + row == row;
    }
  }

  lemma {:induction false} ParseOneRow(gap: string, row: seq<string>, rest: string)
    requires AllSpace(gap)
    ensures ParseRows("(" + (CellsText(gap, row) + rest)) == [ReadRow(row)] + ParseRows(rest)
  {
    var s := "(" + (CellsText(gap, row) + rest);
    assert TrimStart(s) == s && s[1..] == CellsText(gap, row) + rest;
    ReadWholeRow(gap, row, rest);
  }

  lemma {:induction false} ParseRowsGap(gap: string, rest: string)
    requires AllSpace(gap)
    ensures ParseRows(gap + rest) == ParseRows(rest)
    decreases |gap|
  {
    if gap == [] {
      assert gap + rest == rest;
    } else {
      assert (gap + rest)[1..] == gap[1..] + rest;
      ParseRowsSkips(gap + rest);
      ParseRowsGap(gap[1..], rest);
    }
  }

  lemma {:induction false} ParseRowsComma(gap: string, later: string)
    requires AllSpace(gap)
    ensures ParseRows("," + (gap + later)) == ParseRows(later)
  {
    ParseRowsSkips("," + (gap + later));
    assert ("," + (gap + later))[1..] == gap + later;
    ParseRowsGap(gap, later);
  }

  /** Reading back written rows, whatever the values contain, whatever whitespace follows the
      commas, and whatever stands after the clause. */
  lemma {:induction false} RowsRoundTrip(gap: string, rows: seq<seq<string>>, tail: string)
    requires AllSpace(gap)
    ensures ParseRows(RowsText(gap, rows) + tail) == ReadRows(rows) + ParseRows(tail)
    decreases |rows|
  {
    if rows == [] {
      assert RowsText(gap, rows) + tail == tail;
    } else if |rows| == 1 {
      RowsTextThen(gap, rows, tail);
      ParseOneRow(gap, rows[0], tail);
      assert ReadRows(rows) == [ReadRow(rows[0])];
    } else {
      RowsRoundTrip(gap, rows[1..], tail);
      ParseRowThenRows(gap, rows, tail);
      ConcatAssoc([ReadRow(rows[0])], ReadRows(rows[1..]), ParseRows(tail));
    }
  }

  lemma {:induction false} ParseRowThenRows(gap: string, rows: seq<seq<string>>, tail: string)
    requires AllSpace(gap) && 1 < |rows|
    ensures ParseRows(RowsText(gap, rows) + tail) == [ReadRow(rows[0])] + ParseRows(RowsText(gap, rows[1..]) + tail)
  {
    var later := RowsText(gap, rows[1..]) + tail;
    RowsTextThen(gap, rows, tail);
    ParseOneRow(gap, rows[0], "," + (gap + later));
    ParseRowsComma(gap, later);
  }

  lemma {:induction false} ReadRowsExact(rows: seq<seq<string>>)
    ensures ReadRows(rows) == rows <==> [] !in rows
  {
    if rows != [] {
      ReadRowsExact(rows[1..]);
      assert rows == [rows[0]] + rows[1..];
      assert ReadRows(rows)[0] == ReadRow(rows[0]) && ReadRows(rows)[1..] == ReadRows(rows[1..]);
    }
  }

  /** The clause alone reads back as written exactly when no row is empty. */
  lemma {:induction false} RowsRoundTripExact(gap: string, rows: seq<seq<string>>)
    requires AllSpace(gap)
    ensures ParseRows(RowsText(gap, rows)) == rows <==> [] !in rows
  {
    RowsRoundTrip(gap, rows, []);
    assert RowsText(gap, rows) + [] == RowsText(gap, rows);
    ReadRowsExact(rows);
  }

  // ----- the statement splitter reads the same quoting -----

  lemma {:induction false} DoubleIsDoubled(v: string)
    ensures Double(v) == SplitSql.Doubled(v, '\'')
  {
    if v != [] {
      DoubleIsDoubled(v[1..]);
      assert ['\'', '\''] == "''";
    }
  }

  lemma {:induction false} SplitterQuoted(v: string, rest: string)
    requires rest != [] && rest[0] != '\''
    ensures SplitSql.Scan(SplitSql.Normal, Quoted(v) + rest) == SplitSql.Scan(SplitSql.Normal, rest)
  {
    DoubleIsDoubled(v);
    ConcatAssoc(Double(v), "'", rest);
    ConcatAssoc("'", Double(v) + "'", rest);
    SplitSql.QuotedRunPasses(SplitSql.Single, v, rest);
  }

  lemma {:induction false} SplitterCells(gap: string, row: seq<string>, rest: string)
    requires AllSpace(gap)
    ensures SplitSql.Scan(SplitSql.Normal, CellsText(gap, row) + rest) == SplitSql.Scan(SplitSql.Normal, rest)
    decreases |row|
  {
    if row == [] {
      assert (")" + rest)[1..] == rest;
    } else {
      CellsTextThen(gap, row, rest);
      if |row| == 1 {
        SplitterQuoted(row[0], ")" + rest);
        assert (")" + rest)[1..] == rest;
      } else {
        var later := CellsText(gap, row[1..]) + rest;
        SplitterQuoted(row[0], "," + (gap + later));
        SplitterComma(gap, later);
        SplitterCells(gap, row[1..], rest);
      }
    }
  }

  lemma {:induction false} SplitterComma(gap: string, later: string)
    requires AllSpace(gap)
    ensures SplitSql.Scan(SplitSql.Normal, "," + (gap + later)) == SplitSql.Scan(SplitSql.Normal, later)
  {
    assert ("," + (gap + later))[1..] == gap + later;
    SplitSql.ScanLeadingSpaces(gap, later);
  }

  /** However many ';', comment marks and quotes the values hold, the splitter keeps a written
      VALUES clause in one statement and leaves it in Normal mode. */
  lemma {:induction false} RowsNeverSplit(gap: string, rows: seq<seq<string>>, rest: string)
    requires AllSpace(gap)
    ensures SplitSql.Scan(SplitSql.Normal, RowsText(gap, rows) + rest) == SplitSql.Scan(SplitSql.Normal, rest)
    decreases |rows|
  {
    if rows == [] {
      assert RowsText(gap, rows) + rest == rest;
    } else {
      RowsTextThen(gap, rows, rest);
      var first, later := CellsText(gap, rows[0]), RowsText(gap, rows[1..]) + rest;
      var after := if |rows| == 1 then rest else "," + (gap + later);
      assert ("(" + (first + after))[1..] == first + after;
      SplitterCells(gap, rows[0], after);
      if 1 < |rows| {
        SplitterComma(gap, later);
        RowsNeverSplit(gap, rows[1..], rest);
      }
    }
  }
}
