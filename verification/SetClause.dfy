/**
 Reading the assignments of an UPDATE's SET clause, and the round trip with assignments written as
 `column = 'value'`, quotes doubled, or `column = expression`.
 */
module SetClause {
  import opened Wrappers
  import opened SqlText
  import opened Pieces
  import opened TopLevel
  import opened ValuesClause

  predicate IdentChar(c: char) {
    WordChar(c) || c == '.'
  }

  function IdentEnd(s: string): (n: nat)
    ensures n <= |s|
  {
    if s != [] && IdentChar(s[0]) then 1 + IdentEnd(s[1..]) else 0
  }

  function IndexOf(s: string, c: char): Option<nat> {
    if s == [] then None
    else if s[0] == c then Some(0)
    else
      match IndexOf(s[1..], c)
      case None => None
      case Some(i) => Some(i + 1)
  }

  lemma {:induction false} IndexOfBound(s: string, c: char)
    ensures IndexOf(s, c).Some? ==> IndexOf(s, c).value < |s|
  {
    if s != [] {
      IndexOfBound(s[1..], c);
    }
  }

  /** A quoted identifier whose opening quote has been read. */
  function TakeQuoted(s: string, close: char): (Option<string>, string) {
    IndexOfBound(s, close);
    match IndexOf(s, close)
    case Some(e) => (Some(s[..e]), s[e + 1..])
    case None => (Some(s), [])
  }

  /** The next identifier, quoted, bracketed or plain, and the text after it. */
  function TakeIdent(text: string): (Option<string>, string) {
    var s := TrimStart(text);
    if s == [] then (None, s)
    else if s[0] == '`' then TakeQuoted(s[1..], '`')
    else if s[0] == '[' then TakeQuoted(s[1..], ']')
    else if s[0] == '"' then TakeQuoted(s[1..], '"')
    else if IsAlpha(s[0]) || s[0] == '_' then (Some(s[..IdentEnd(s)]), s[IdentEnd(s)..])
    else (None, s)
  }

  /** The map after reading one part between commas. */
  function ReadPart(out: map<string, string>, raw: string): map<string, string> {
    var part := Trim(raw);
    if part == [] then out
    else
      match FindTop(Top, part, '=')
      case None => out
      case Some(eq) =>
        match TakeIdent(part[..eq]).0
        case None => out
        case Some(col) => if col == [] then out else out[col := Normalize(part[eq + 1..])]
  }

  function ReadParts(out: map<string, string>, parts: seq<string>): map<string, string>
    decreases |parts|
  {
    if parts == [] then out else ReadParts(ReadPart(out, parts[0]), parts[1..])
  }

  method ParseSetAssignments(s: string) returns (out: map<string, string>)
    ensures out == ReadParts(map[], SplitTop(Top, s, ','))
  {
    hide FindTop, SplitTop, TakeIdent, Normalize, Trim;
    out := map[];
    var parts := SplitTopLevel(s, ',');
    assert parts[0..] == parts;
    for k := 0 to |parts|
      invariant ReadParts(out, parts[k..]) == ReadParts(map[], parts)
    {
      SliceHead(parts, k);
      var part := Trim(parts[k]);
      if part == [] {
        continue;
      }
      var eq := FindTopLevel(part, '=');
      if eq.None? {
        continue;
      }
      var ident := TakeIdent(part[..eq.value]).0;
      var col := if ident.Some? then ident.value else [];
      var val := Normalize(part[eq.value + 1..]);
      if col != [] {
        out := out[col := val];
      }
    }
  }

  // ----- taking identifiers -----

  /** A plain identifier. */
  predicate IsPlain(name: string) {
    name != [] && (IsAlpha(name[0]) || name[0] == '_') && forall i :: 0 <= i < |name| ==> IdentChar(name[i])
  }

  /** A qualified name is one identifier. */
  lemma QualifiedIsPlain(table: string, column: string)
    requires IsPlain(table) && IsPlain(column)
    ensures IsPlain(table + ("." + column))
  {
  }

  lemma {:induction false} WholeIdent(name: string, rest: string)
    requires forall i :: 0 <= i < |name| ==> IdentChar(name[i])
    requires rest == [] || !IdentChar(rest[0])
    ensures IdentEnd(name + rest) == |name|
    decreases |name|
  {
    if name == [] {
      assert name + rest == rest;
    } else {
      assert (name + rest)[1..] == name[1..] + rest;
      WholeIdent(name[1..], rest);
    }
  }

  /** A plain identifier is taken up to the first other character, whatever whitespace precedes it. */
  lemma {:induction false} TakePlain(pad: string, name: string, rest: string)
    requires AllSpace(pad) && IsPlain(name) && (rest == [] || !IdentChar(rest[0]))
    ensures TakeIdent(pad + (name + rest)) == (Some(name), rest)
  {
    hide IdentEnd, TrimStart;
    var s := name + rest;
    WholeIdent(name, rest);
    assert s[0] == name[0] && s[..|name|] == name && s[|name|..] == rest;
    TrimStartOfPadded(pad, s);
  }

  lemma {:induction false} FirstMark(name: string, mark: char, rest: string)
    requires mark !in name
    ensures IndexOf(name + ([mark] + rest), mark) == Some(|name|)
    ensures IndexOf(name, mark) == None
  {
    var s := name + ([mark] + rest);
    if name == [] {
      assert s == [mark] + rest;
    } else {
      assert s[0] == name[0] && s[1..] == name[1..] + ([mark] + rest);
      FirstMark(name[1..], mark, rest);
    }
  }

  /** A quoted or bracketed identifier is taken without its marks, up to the closing one or, when
      there is none, to the end. */
  lemma {:induction false} TakeMarked(pad: string, open: char, close: char, name: string, rest: string)
    requires AllSpace(pad) && close !in name
    requires (open == '`' && close == '`') || (open == '[' && close == ']') || (open == '"' && close == '"')
    ensures TakeIdent(pad + ([open] + (name + ([close] + rest)))) == (Some(name), rest)
    ensures TakeIdent(pad + ([open] + name)) == (Some(name), [])
  {
    var closed := name + ([close] + rest);
    assert ([open] + closed)[1..] == closed && ([open] + name)[1..] == name;
    TrimStartOfPadded(pad, [open] + closed);
    TrimStartOfPadded(pad, [open] + name);
    FirstMark(name, close, rest);
    assert closed[..|name|] == name && closed[|name| + 1..] == rest;
  }

  // ----- writing assignments -----

  /** A column name and how it is written. */
  datatype Column = Bare(name: string) | InDoubleQuotes(name: string) | InBackticks(name: string)
      | InBrackets(name: string)

  datatype Assignment = Assignment(col: Column, val: Content)

  function ColumnText(c: Column): string {
    match c
    case Bare(name) => name
    case InDoubleQuotes(name) => ['"'] + (name + ['"'])
    case InBackticks(name) => ['`'] + (name + ['`'])
    case InBrackets(name) => ['['] + (name + [']'])
  }

  /** The scanner passes the text from the top level to the top level without meeting `c` there. */
  predicate Passes(s: string, c: char) {
    NestAll(Top, s) == Top && FindTop(Top, s, c).None?
  }

  /** A name that can be written so.  Quotes and backticks protect whatever they hold but their own
      mark; brackets protect only text the scanner passes. */
  predicate IsColumn(c: Column) {
    match c
    case Bare(name) => IsPlain(name)
    case InDoubleQuotes(name) => name != [] && '"' !in name
    case InBackticks(name) => name != [] && '`' !in name
    case InBrackets(name) =>
      name != [] && ']' !in name && Passes(['['] + (name + [']']), ',') && Passes(['['] + (name + [']']), '=')
  }

  /** A value that can be written so: any string, and any expression that the scanner passes without a
      comma at the top level. */
  predicate IsValue(c: Content) {
    c.Expr? ==> c.text != [] && IsExpression(c.text) && Passes(c.text, ',')
  }

  predicate IsAssignment(a: Assignment) {
    IsColumn(a.col) && IsValue(a.val)
  }

  /** `col = value` with `pad` around the '='. */
  function AssignmentText(pad: string, a: Assignment): string {
    ColumnText(a.col) + (pad + ("=" + (pad + ContentText(a.val))))
  }

  /** The assignments with commas between them, `lead` before the first and `gap` before the others. */
  function SetText(lead: string, gap: string, pad: string, assignments: seq<Assignment>): string
    decreases |assignments|
  {
    if assignments == [] then lead
    else
      var first := lead + AssignmentText(pad, assignments[0]);
      if |assignments| == 1 then first else first + ("," + SetText(gap, gap, pad, assignments[1..]))
  }

  function Assigned(out: map<string, string>, assignments: seq<Assignment>): map<string, string>
    decreases |assignments|
  {
    if assignments == [] then out
    else Assigned(out[assignments[0].col.name := assignments[0].val.text], assignments[1..])
  }

  // ----- what a written assignment is to the scanner -----

  /** Text that neither nests nor is `c`. */
  predicate Plain(s: string, c: char) {
    forall i :: 0 <= i < |s| ==> !Structural(s[i]) && s[i] != c
  }

  lemma {:induction false} PlainPasses(s: string, c: char)
    requires Plain(s, c)
    ensures Passes(s, c)
  {
    if s != [] {
      assert Nest(Top, s[0]) == Top;
      PlainPasses(s[1..], c);
    }
  }

  lemma {:induction false} SpacesPass(s: string, c: char)
    requires AllSpace(s) && !IsSpace(c)
    ensures Passes(s, c)
  {
    assert Plain(s, c) by {
      forall i | 0 <= i < |s|
        ensures !Structural(s[i]) && s[i] != c
      {
        assert IsSpace(s[i]);
      }
    }
    PlainPasses(s, c);
  }

  lemma {:induction false} PassesConcat(a: string, b: string, c: char)
    requires Passes(a, c) && Passes(b, c)
    ensures Passes(a + b, c)
  {
    NestConcat(Top, a, b);
    FindTopConcat(Top, a, b, c);
  }

  const InQuote := Nesting(0, InSingle)

  /** Inside quotes a value is never found in, and its doubled quotes leave it inside. */
  lemma {:induction false} QuotedInside(v: string, c: char)
    ensures NestAll(InQuote, Double(v) + "'") == Top
    ensures FindTop(InQuote, Double(v) + "'", c).None?
    decreases |v|
  {
    var s := Double(v) + "'";
    if v == [] {
      assert s == "'" && s[1..] == [];
    } else {
      var after := Double(v[1..]) + "'";
      QuotedInside(v[1..], c);
      if v[0] == '\'' {
        assert s == "''" + after && s[1..] == "'" + after && s[1..][1..] == after;
        assert Nest(InQuote, '\'') == Top && Nest(Top, '\'') == InQuote;
      } else {
        assert s == [v[0]] + after && s[1..] == after;
        assert Nest(InQuote, v[0]) == InQuote;
      }
    }
  }

  lemma {:induction false} ValuePasses(v: string, c: char)
    ensures Passes(Quoted(v), c)
  {
    QuotedInside(v, c);
    assert Quoted(v)[1..] == Double(v) + "'";
    assert Nest(Top, '\'') == InQuote;
  }

  lemma {:induction false} MarkedInside(q: Quotes, mark: char, name: string, c: char)
    requires (q == Quotes(false, true, false) && mark == '"') || (q == Quotes(false, false, true) && mark == '`')
    requires mark !in name
    ensures NestAll(Nesting(0, q), name + [mark]) == Top && FindTop(Nesting(0, q), name + [mark], c).None?
  {
    var s := name + [mark];
    if name == [] {
      assert s == [mark] && s[1..] == [];
    } else {
      assert s[0] == name[0] && s[1..] == name[1..] + [mark];
      assert name[0] in name && Nest(Nesting(0, q), name[0]) == Nesting(0, q);
      MarkedInside(q, mark, name[1..], c);
    }
  }

  lemma {:induction false} ColumnPasses(col: Column, c: char)
    requires IsColumn(col) && (c == ',' || c == '=')
    ensures Passes(ColumnText(col), c)
  {
    var text := ColumnText(col);
    match col
    case Bare(name) => PlainPasses(name, c);
    case InDoubleQuotes(name) =>
      MarkedInside(Quotes(false, true, false), '"', name, c);
      assert text[1..] == name + ['"'] && Nest(Top, '"') == Nesting(0, Quotes(false, true, false));
    case InBackticks(name) =>
      MarkedInside(Quotes(false, false, true), '`', name, c);
      assert text[1..] == name + ['`'] && Nest(Top, '`') == Nesting(0, Quotes(false, false, true));
    case InBrackets(_) =>
  }

  /** A written assignment, whatever its value, is one part. */
  lemma {:induction false} AssignmentStaysTop(lead: string, pad: string, a: Assignment)
    requires AllSpace(lead) && AllSpace(pad) && IsAssignment(a)
    ensures NestAll(Top, lead + AssignmentText(pad, a)) == Top
    ensures |SplitTop(Top, lead + AssignmentText(pad, a), ',')| == 1
  {
    var value := pad + ContentText(a.val);
    SpacesPass(lead, ',');
    SpacesPass(pad, ',');
    ColumnPasses(a.col, ',');
    if a.val.Str? {
      ValuePasses(a.val.text, ',');
    }
    PlainPasses("=", ',');
    PassesConcat(pad, ContentText(a.val), ',');
    PassesConcat("=", value, ',');
    PassesConcat(pad, "=" + value, ',');
    PassesConcat(ColumnText(a.col), pad + ("=" + value), ',');
    PassesConcat(lead, AssignmentText(pad, a), ',');
    OnePartWhenNotFound(Top, lead + AssignmentText(pad, a), ',');
  }

  // ----- reading assignments back -----

  lemma {:induction false} TakeColumn(c: Column, pad: string)
    requires IsColumn(c) && AllSpace(pad)
    ensures TakeIdent(ColumnText(c) + pad).0 == Some(c.name)
  {
    match c
    case Bare(name) =>
      assert pad == [] || IsSpace(pad[0]);
      TakePlain([], name, pad);
      assert [] + (name + pad) == name + pad;
    case InDoubleQuotes(name) => TakeMarkedColumn('"', '"', name, pad);
    case InBackticks(name) => TakeMarkedColumn('`', '`', name, pad);
    case InBrackets(name) => TakeMarkedColumn('[', ']', name, pad);
  }

  lemma {:induction false} TakeMarkedColumn(open: char, close: char, name: string, pad: string)
    requires close !in name
    requires (open == '`' && close == '`') || (open == '[' && close == ']') || (open == '"' && close == '"')
    ensures TakeIdent(([open] + (name + [close])) + pad).0 == Some(name)
  {
    TakeMarked([], open, close, name, pad);
    ConcatAssoc(name, [close], pad);
    ConcatAssoc([open], name + [close], pad);
    var text := [open] + (name + ([close] + pad));
    assert [] + text == text;
  }

  lemma {:induction false} ReadKeyAndValue(
    out: map<string, string>, raw: string, key: string, value: string, col: string)
    requires Trim(raw) == key + ("=" + value) && FindTop(Top, Trim(raw), '=') == Some(|key|)
    requires TakeIdent(key).0 == Some(col) && col != []
    ensures ReadPart(out, raw) == out[col := Normalize(value)]
  {
    assert Trim(raw)[..|key|] == key && Trim(raw)[|key| + 1..] == value;
  }

  lemma {:induction false} FindAssign(key: string, value: string)
    requires Passes(key, '=')
    ensures FindTop(Top, key + ("=" + value), '=') == Some(|key|)
  {
    FindTopConcat(Top, key, "=" + value, '=');
  }

  lemma {:induction false} AssignmentIsTight(pad: string, a: Assignment)
    requires IsAssignment(a)
    ensures AssignmentText(pad, a) != [] && Tight(AssignmentText(pad, a))
    ensures AssignmentText(pad, a) == (ColumnText(a.col) + pad) + ("=" + (pad + ContentText(a.val)))
  {
    var text := AssignmentText(pad, a);
    ConcatAssoc(ColumnText(a.col), pad, "=" + (pad + ContentText(a.val)));
    assert text[0] == ColumnText(a.col)[0] && text[|text| - 1] == ContentText(a.val)[|ContentText(a.val)| - 1];
  }

  lemma {:induction false} ReadAssignment(out: map<string, string>, lead: string, pad: string, a: Assignment)
    requires AllSpace(lead) && AllSpace(pad) && IsAssignment(a)
    ensures ReadPart(out, lead + AssignmentText(pad, a)) == out[a.col.name := a.val.text]
  {
    hide Normalize, FindTop, TakeIdent, TrimStart, TrimEnd, ReadPart, NestAll;
    var text, key, value := AssignmentText(pad, a), ColumnText(a.col) + pad, pad + ContentText(a.val);
    AssignmentIsTight(pad, a);
    TrimOfPadded(lead, text, []);
    assert lead + text + [] == lead + text;
    ColumnPasses(a.col, '=');
    SpacesPass(pad, '=');
    PassesConcat(ColumnText(a.col), pad, '=');
    FindAssign(key, value);
    TakeColumn(a.col, pad);
    NormalizeContent(pad, a.val, []);
    assert ContentText(a.val) + [] == ContentText(a.val);
    ReadKeyAndValue(out, lead + text, key, value, a.col.name);
  }

  /** Reading back written assignments gives every column its value, the last one when a column is
      written twice, however the columns are marked, whatever whitespace is used and whatever quotes,
      commas, brackets and '=' the strings contain; an expression is read as it is written. */
  lemma {:induction false} SetRoundTrip(
    out: map<string, string>, lead: string, gap: string, pad: string, assignments: seq<Assignment>)
    requires AllSpace(lead) && AllSpace(gap) && AllSpace(pad)
    requires assignments != [] && forall a | a in assignments :: IsAssignment(a)
    ensures ReadParts(out, SplitTop(Top, SetText(lead, gap, pad, assignments), ',')) == Assigned(out, assignments)
    decreases |assignments|
  {
    var a := assignments[0];
    var first := lead + AssignmentText(pad, a);
    AssignmentStaysTop(lead, pad, a);
    ReadAssignment(out, lead, pad, a);
    if |assignments| == 1 {
      SplitTopRejoins(Top, first, ',');
      ReadPartsHead(out, first, []);
      assert SplitTop(Top, first, ',') == [first];
    } else {
      var later := SetText(gap, gap, pad, assignments[1..]);
      SplitTopConcat(Top, first, "," + later, ',');
      SplitAtComma(later);
      PrependHead(first, [], SplitTop(Top, later, ','));
      assert first + [] == first;
      ReadPartsHead(out, first, SplitTop(Top, later, ','));
      SetRoundTrip(out[a.col.name := a.val.text], gap, gap, pad, assignments[1..]);
    }
  }

  lemma {:induction false} SplitAtComma(later: string)
    ensures SplitTop(Top, "," + later, ',') == [[]] + SplitTop(Top, later, ',')
  {
    assert ("," + later)[1..] == later;
  }

  lemma {:induction false} ReadPartsHead(out: map<string, string>, first: string, others: seq<string>)
    ensures ReadParts(out, [first] + others) == ReadParts(ReadPart(out, first), others)
  {
    assert ([first] + others)[1..] == others;
  }

  predicate Distinct(assignments: seq<Assignment>) {
    forall i, j :: 0 <= i < j < |assignments| ==> assignments[i].col.name != assignments[j].col.name
  }

  function Columns(assignments: seq<Assignment>): set<string> {
    set a | a in assignments :: a.col.name
  }

  lemma {:induction false} AssignedKeys(out: map<string, string>, assignments: seq<Assignment>)
    ensures Assigned(out, assignments).Keys == out.Keys + Columns(assignments)
    ensures forall col :: col in out && col !in Columns(assignments) ==> Assigned(out, assignments)[col] == out[col]
    decreases |assignments|
  {
    if assignments != [] {
      var a, others := assignments[0], assignments[1..];
      AssignedKeys(out[a.col.name := a.val.text], others);
      ColumnsCons(assignments);
    }
  }

  lemma ColumnsCons(assignments: seq<Assignment>)
    requires assignments != []
    ensures Columns(assignments) == {assignments[0].col.name} + Columns(assignments[1..])
    ensures Distinct(assignments) ==> assignments[0].col.name !in Columns(assignments[1..])
  {
    assert assignments == [assignments[0]] + assignments[1..];
  }

  /** With distinct columns the map holds exactly the list of assignments. */
  lemma {:induction false} AssignedDistinct(out: map<string, string>, assignments: seq<Assignment>, k: nat)
    requires Distinct(assignments) && k < |assignments|
    ensures assignments[k].col.name in Assigned(out, assignments)
    ensures Assigned(out, assignments)[assignments[k].col.name] == assignments[k].val.text
    decreases |assignments|
  {
    var a, others := assignments[0], assignments[1..];
    AssignedKeys(out[a.col.name := a.val.text], others);
    ColumnsCons(assignments);
    if 0 < k {
      AssignedDistinct(out[a.col.name := a.val.text], others, k - 1);
    }
  }

  /** The whole clause, read back: the columns written and no others, each with its value. */
  lemma {:induction false} SetClauseRoundTrip(lead: string, gap: string, pad: string, assignments: seq<Assignment>)
    requires AllSpace(lead) && AllSpace(gap) && AllSpace(pad)
    requires assignments != [] && (forall a | a in assignments :: IsAssignment(a)) && Distinct(assignments)
    ensures
      var m := ReadParts(map[], SplitTop(Top, SetText(lead, gap, pad, assignments), ','));
      && m.Keys == Columns(assignments)
      && forall k :: 0 <= k < |assignments|
          ==> assignments[k].col.name in m && m[assignments[k].col.name] == assignments[k].val.text
  {
    SetRoundTrip(map[], lead, gap, pad, assignments);
    AssignedKeys(map[], assignments);
    forall k | 0 <= k < |assignments|
      ensures assignments[k].col.name in Assigned(map[], assignments)
      ensures Assigned(map[], assignments)[assignments[k].col.name] == assignments[k].val.text
    {
      AssignedDistinct(map[], assignments, k);
    }
  }

  // ----- calls -----

  /** Arguments: every parenthesis, bracket and quote opened in the text is closed in it, and none that
      was open before. */
  predicate Enclosed(depth: nat, q: Quotes, s: string)
    decreases |s|
  {
    if s == [] then depth == 0 && q == Unquoted
    else if q == Unquoted && s[0] in "([" then Enclosed(depth + 1, q, s[1..])
    else if q == Unquoted && s[0] in ")]" then 0 < depth && Enclosed(depth - 1, q, s[1..])
    else Enclosed(depth, Toggle(q, s[0]), s[1..])
  }

  lemma {:induction false} ArgumentsInside(depth: nat, q: Quotes, args: string, c: char)
    requires Enclosed(depth, q, args)
    ensures NestAll(Nesting(depth + 1, q), args + ")") == Top
    ensures FindTop(Nesting(depth + 1, q), args + ")", c).None?
    decreases |args|
  {
    var text, n := args + ")", Nesting(depth + 1, q);
    if args == [] {
      assert text == ")" && text[1..] == [];
    } else {
      assert text[0] == args[0] && text[1..] == args[1..] + ")";
      ArgumentsInside(Nest(n, args[0]).depth - 1, Nest(n, args[0]).quotes, args[1..], c);
    }
  }

  /** Neither a comma nor an '=' inside a call is met by the scanner. */
  lemma {:induction false} CallPasses(f: string, args: string, c: char)
    requires Plain(f, c) && Enclosed(0, Unquoted, args) && !Structural(c)
    ensures Passes(f + ("(" + (args + ")")), c)
  {
    ArgumentsInside(0, Unquoted, args, c);
    PlainPasses(f, c);
    var call := "(" + (args + ")");
    assert call[1..] == args + ")" && Nest(Top, '(') == Nesting(1, Unquoted);
    assert Passes(call, c);
    PassesConcat(f, call, c);
  }

  /** So an assignment of a call is one part, its '=' is the assignment's own, and it reads back whole:
      `a = max(b, c = d)`. */
  lemma {:induction false} CallReadsBack(lead: string, pad: string, col: Column, f: string, args: string)
    requires AllSpace(lead) && AllSpace(pad) && IsColumn(col)
    requires Plain(f, ',') && (f != [] ==> !IsSpace(f[0])) && Enclosed(0, Unquoted, args)
    ensures
      var call := f + ("(" + (args + ")"));
      ReadParts(map[], SplitTop(Top, lead + AssignmentText(pad, Assignment(col, Expr(call))), ','))
      == map[col.name := call]
  {
    var call := f + ("(" + (args + ")"));
    var a := Assignment(col, Expr(call));
    CallPasses(f, args, ',');
    assert call[|call| - 1] == ')' && call[0] == if f == [] then '(' else f[0];
    hide AssignmentText, SplitTop;
    SetRoundTrip(map[], lead, [], pad, [a]);
    assert Assigned(map[], [a]) == map[col.name := call];
  }
}
