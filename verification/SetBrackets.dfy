/**
 Exactly when a SET clause reads back with a bracketed column.  Brackets are nesting to the comma
 split and the '=' search, which look for quotes and parentheses inside them; they are marks to the
 identifier reader, which does not.
 */
module SetBrackets {
  import opened Wrappers
  import opened SqlText
  import opened Pieces
  import opened TopLevel
  import opened ValuesClause
  import opened SetClause

  lemma {:induction false} SpacesKeepNesting(n: Nesting, pad: string)
    requires AllSpace(pad)
    ensures NestAll(n, pad) == n
  {
    if pad != [] {
      assert IsSpace(pad[0]) && Nest(n, pad[0]) == n;
      SpacesKeepNesting(n, pad[1..]);
    }
  }

  lemma {:induction false} FoundInside(n: Nesting, a: string, b: string, c: char)
    requires FindTop(n, a, c).Some?
    ensures FindTop(n, a + b, c) == FindTop(n, a, c)
    decreases |a|
  {
    assert (a + b)[0] == a[0] && (a + b)[1..] == a[1..] + b;
    if !Hits(n, a[0], c) {
      FoundInside(Nest(n, a[0]), a[1..], b, c);
    }
  }

  /** Whatever the column text is, the reader finds the assignment's own '=' exactly when the scanner
      passes that text. */
  lemma {:induction false} OwnSignIsFound(text: string, pad: string, rest: string)
    requires AllSpace(pad)
    ensures FindTop(Top, (text + pad) + ("=" + rest), '=') == Some(|text + pad|) <==> Passes(text, '=')
  {
    var key := text + pad;
    SpacesPass(pad, '=');
    NestConcat(Top, text, pad);
    SpacesKeepNesting(NestAll(Top, text), pad);
    if Passes(text, '=') {
      PassesConcat(text, pad, '=');
      FindAssign(key, rest);
    } else if FindTop(Top, text, '=').Some? {
      FoundInside(Top, text, pad + ("=" + rest), '=');
      ConcatAssoc(text, pad, "=" + rest);
    } else {
      SpacesFindNothing(NestAll(Top, text), pad, '=');
      FindTopConcat(Top, text, pad, '=');
      FindTopConcat(Top, key, "=" + rest, '=');
      assert !Hits(NestAll(Top, key), '=', '=');
    }
  }

  lemma {:induction false} SpacesFindNothing(n: Nesting, pad: string, c: char)
    requires AllSpace(pad) && !IsSpace(c)
    ensures FindTop(n, pad, c).None?
  {
    if pad != [] {
      assert IsSpace(pad[0]);
      SpacesFindNothing(Nest(n, pad[0]), pad[1..], c);
    }
  }

  lemma {:induction false} CommaFreeRest(text: string, rest: string)
    requires ',' !in rest
    ensures FindTop(Top, text + rest, ',') == FindTop(Top, text, ',')
  {
    if FindTop(Top, text, ',').Some? {
      FoundInside(Top, text, rest, ',');
    } else {
      NothingToFind(NestAll(Top, text), rest, ',');
      FindTopConcat(Top, text, rest, ',');
    }
  }

  lemma {:induction false} NothingToFind(n: Nesting, s: string, c: char)
    requires c !in s
    ensures FindTop(n, s, c).None?
    decreases |s|
  {
    if s != [] {
      assert s[0] in s && forall d :: d in s[1..] ==> d in s;
      NothingToFind(Nest(n, s[0]), s[1..], c);
    }
  }

  /** The first cut, and the rest from there. */
  lemma {:induction false} CutAtFirst(n: Nesting, s: string, sep: char)
    requires FindTop(n, s, sep).Some?
    ensures
      var c := FindTop(n, s, sep).value;
      SplitTop(n, s, sep) == [s[..c]] + SplitTop(Top, s[c + 1..], sep)
    decreases |s|
  {
    if Hits(n, s[0], sep) {
      assert s[..0] == [];
    } else {
      var c := FindTop(Nest(n, s[0]), s[1..], sep).value;
      CutAtFirst(Nest(n, s[0]), s[1..], sep);
      PrependHead([s[0]], s[1..][..c], SplitTop(Top, s[1..][c + 1..], sep));
      assert [s[0]] + s[1..][..c] == s[..c + 1] && s[1..][c + 1..] == s[c + 2..];
    }
  }

  // ----- what a part can be taken for -----

  /** How much of the text stands before its first ']'. */
  function Free(s: string): (n: nat)
    ensures n <= |s|
  {
    if s == [] || s[0] == ']' then 0 else 1 + Free(s[1..])
  }

  lemma {:induction false} FreeOfPrefix(s: string, n: nat)
    requires n <= |s|
    ensures Free(s[..n]) <= Free(s)
  {
    if s != [] && s[0] != ']' && 0 < n {
      assert s[..n][1..] == s[1..][..n - 1];
      FreeOfPrefix(s[1..], n - 1);
    }
  }

  lemma {:induction false} FreeOfTrimStart(s: string)
    ensures Free(TrimStart(s)) <= Free(s)
  {
    if s != [] && IsSpace(s[0]) {
      FreeOfTrimStart(s[1..]);
    }
  }

  lemma {:induction false} FreeOfTrim(s: string)
    ensures Free(Trim(s)) <= Free(s)
  {
    FreeOfTrimStart(s);
    var b := TrimEndSplits(TrimStart(s));
    assert Trim(s) == TrimStart(s)[..|Trim(s)|];
    FreeOfPrefix(TrimStart(s), |Trim(s)|);
  }

  /** A prefix without ']' is no longer than that. */
  lemma {:induction false} FreeIsLongest(s: string, n: nat)
    requires n <= |s| && ']' !in s[..n]
    ensures n <= Free(s)
  {
    if 0 < n {
      assert s[0] in s[..n];
      assert s[..n][1..] == s[1..][..n - 1];
      assert forall c :: c in s[1..][..n - 1] ==> c in s[..n];
      FreeIsLongest(s[1..], n - 1);
    }
  }

  /** An identifier with no ']' in it is taken from before the first ']' of its text. */
  lemma {:induction false} TakenFromFree(key: string, name: string)
    requires TakeIdent(key).0 == Some(name) && name != [] && ']' !in name
    ensures |name| <= Free(key)
  {
    FreeOfTrimStart(key);
    var s := TrimStart(key);
    if s[0] == '`' || s[0] == '[' || s[0] == '"' {
      var close := if s[0] == '[' then ']' else s[0];
      IndexOfBound(s[1..], close);
      assert name == s[1..][..|name|];
      FreeIsLongest(s[1..], |name|);
      assert Free(s) == 1 + Free(s[1..]);
    } else {
      assert name == s[..|name|];
      FreeIsLongest(s, |name|);
    }
  }

  /** A part adds a column only if its name fits in front of the part's first ']'. */
  lemma {:induction false} ShortPartAddsNothing(out: map<string, string>, raw: string, name: string)
    requires name != [] && ']' !in name && Free(raw) < |name| && name !in out
    ensures name !in ReadPart(out, raw)
  {
    var part := Trim(raw);
    FreeOfTrim(raw);
    if part != [] && FindTop(Top, part, '=').Some? {
      var key := part[..FindTop(Top, part, '=').value];
      FreeOfPrefix(part, |key|);
      if TakeIdent(key).0 == Some(name) {
        TakenFromFree(key, name);
      }
    }
  }

  lemma {:induction false} ShortPartsAddNothing(out: map<string, string>, parts: seq<string>, name: string)
    requires name != [] && ']' !in name && name !in out
    requires forall p | p in parts :: Free(p) < |name|
    ensures name !in ReadParts(out, parts)
    decreases |parts|
  {
    if parts != [] {
      ShortPartAddsNothing(out, parts[0], name);
      ShortPartsAddNothing(ReadPart(out, parts[0]), parts[1..], name);
    }
  }

  /** Where no comma follows the first ']', no part has more in front of its first ']' than the text. */
  lemma {:induction false} PartsAreShort(n: Nesting, s: string)
    requires ',' !in s[Free(s)..]
    ensures forall p | p in SplitTop(n, s, ',') :: Free(p) <= Free(s)
    decreases |s|
  {
    if s != [] && s[0] == ']' {
      NothingToFind(n, s, ',');
      OnePartWhenNotFound(n, s, ',');
      SplitTopRejoins(n, s, ',');
    } else if s != [] {
      var cut := Hits(n, s[0], ',');
      var after := SplitTop(if cut then n else Nest(n, s[0]), s[1..], ',');
      assert s[1..][Free(s[1..])..] == s[Free(s)..];
      PartsAreShort(if cut then n else Nest(n, s[0]), s[1..]);
      forall p | p in SplitTop(n, s, ',')
        ensures Free(p) <= Free(s)
      {
        if !cut && p == Prepend([s[0]], after)[0] {
          assert p == [s[0]] + after[0] && p[1..] == after[0] && after[0] in after;
        }
      }
    }
  }

  // ----- the bracketed column -----

  /** The text after the column when the value is empty. */
  function EmptyTail(pad: string): string {
    pad + ("=" + (pad + "''"))
  }

  function BracketText(name: string): string {
    ['['] + (name + [']'])
  }

  lemma {:induction false} WholeText(name: string, pad: string)
    ensures AssignmentText(pad, Assignment(InBrackets(name), Str([]))) == BracketText(name) + EmptyTail(pad)
    ensures BracketText(name) + EmptyTail(pad) == (BracketText(name) + pad) + ("=" + (pad + "''"))
  {
    assert Quoted([]) == "''";
    ConcatAssoc(BracketText(name), pad, "=" + (pad + "''"));
  }

  lemma {:induction false} NoCommaInTail(pad: string)
    requires AllSpace(pad)
    ensures ',' !in EmptyTail(pad)
  {
    assert forall c :: c in pad ==> IsSpace(c);
  }

  /** A prefix of a bracketed name, taken without its closing bracket, is itself. */
  lemma {:induction false} OpenPrefix(name: string, k: nat)
    requires ']' !in name && k <= |name|
    ensures TakeIdent(['['] + name[..k]).0 == Some(name[..k])
  {
    TakeMarked([], '[', ']', name[..k], []);
    assert [] + (['['] + name[..k]) == ['['] + name[..k];
  }

  /** The name is not among the columns when the column text is cut by the search for '='. */
  lemma {:induction false} CutBySign(out: map<string, string>, name: string, raw: string, k: nat)
    requires ']' !in name && k < |name| && name !in out
    requires Trim(raw) != [] && FindTop(Top, Trim(raw), '=') == Some(k + 1) && Trim(raw)[..k + 1] == ['['] + name[..k]
    ensures name !in ReadPart(out, raw)
  {
    OpenPrefix(name, k);
    assert |name[..k]| == k;
  }

  lemma {:induction false} WholeIsTight(name: string, pad: string)
    requires name != []
    ensures
      var whole := BracketText(name) + EmptyTail(pad);
      whole != [] && Tight(whole) && Trim(whole) == whole
  {
    var whole := BracketText(name) + EmptyTail(pad);
    assert whole[0] == '[' && whole[|whole| - 1] == '\'';
    TrimOfTight(whole);
  }

  /** One part, in which the search for '=' does not come to the assignment's own. */
  lemma {:induction false} LostToSign(name: string, pad: string)
    requires name != [] && ']' !in name && AllSpace(pad) && !Passes(BracketText(name), '=')
    ensures name !in ReadPart(map[], BracketText(name) + EmptyTail(pad))
  {
    var text, tail := BracketText(name), EmptyTail(pad);
    var whole := text + tail;
    WholeIsTight(name, pad);
    if FindTop(Top, text, '=').Some? {
      FoundInside(Top, text, tail, '=');
      var i := FindTop(Top, text, '=').value;
      FindTopIsLeast(Top, text, '=');
      assert text[i] == '=' && 0 < i < |text| - 1;
      assert whole[..i] == text[..i] == ['['] + name[..i - 1];
      CutBySign(map[], name, whole, i - 1);
    } else {
      OwnSignIsFound(text, pad, pad + "''");
      WholeText(name, pad);
      SignOnlyThere(text, pad);
    }
  }

  /** With an empty value, nothing after the column but the assignment's own sign can be found. */
  lemma {:induction false} SignOnlyThere(text: string, pad: string)
    requires AllSpace(pad) && FindTop(Top, text, '=').None?
    ensures
      var found := FindTop(Top, text + EmptyTail(pad), '=');
      found.Some? ==> found == Some(|text + pad|)
  {
    var n, rest := NestAll(Top, text), pad + "''";
    SpacesFindNothing(n, pad, '=');
    FindTopConcat(Top, text, EmptyTail(pad), '=');
    FindTopConcat(n, pad, "=" + rest, '=');
    assert ("=" + rest)[1..] == rest;
    assert '=' !in rest by {
      assert forall c :: c in pad ==> IsSpace(c);
    }
    NothingToFind(Nest(NestAll(n, pad), '='), rest, '=');
  }

  /** Cut at a comma in the name: no part is an assignment to it. */
  lemma {:induction false} LostToComma(name: string, pad: string)
    requires name != [] && ']' !in name && AllSpace(pad) && FindTop(Top, BracketText(name), ',').Some?
    ensures name !in ReadParts(map[], SplitTop(Top, BracketText(name) + EmptyTail(pad), ','))
  {
    var text, tail := BracketText(name), EmptyTail(pad);
    var whole := text + tail;
    var c := FindTop(Top, text, ',').value;
    NoCommaInTail(pad);
    FoundInside(Top, text, tail, ',');
    FindTopIsLeast(Top, text, ',');
    assert text[c] == ',' && 0 < c < |text| - 1;
    CutAtFirst(Top, whole, ',');
    var first, rest := whole[..c], whole[c + 1..];
    assert first == ['['] + name[..c - 1] && rest == name[c..] + ([']'] + tail);
    FirstPartFails(name, c - 1);
    FreeBeforeClose(name[c..], tail);
    PartsAreShort(Top, rest);
    ShortPartsAddNothing(ReadPart(map[], first), SplitTop(Top, rest, ','), name);
    ReadPartsHead(map[], first, SplitTop(Top, rest, ','));
  }

  lemma {:induction false} FreeBeforeClose(a: string, tail: string)
    requires ']' !in a && ',' !in tail
    ensures Free(a + ([']'] + tail)) == |a| && ',' !in (a + ([']'] + tail))[|a|..]
  {
    if a == [] {
      assert a + ([']'] + tail) == [']'] + tail;
    } else {
      assert a[0] in a && forall c :: c in a[1..] ==> c in a;
      assert (a + ([']'] + tail))[1..] == a[1..] + ([']'] + tail);
      assert (a + ([']'] + tail))[|a|..] == [']'] + tail;
      FreeBeforeClose(a[1..], tail);
    }
  }

  /** The part before the comma is at most an assignment to a shorter name. */
  lemma {:induction false} FirstPartFails(name: string, k: nat)
    requires ']' !in name && k < |name|
    ensures name !in ReadPart(map[], ['['] + name[..k])
  {
    var raw := ['['] + name[..k];
    var part := Trim(raw);
    if FindTop(Top, part, '=').Some? {
      var b := TrimEndSplits(TrimStart(raw));
      assert TrimStart(raw) == raw && part == raw[..|part|];
      var eq := FindTop(Top, part, '=').value;
      FindTopIsLeast(Top, part, '=');
      assert part[0] == '[' && 0 < eq;
      assert part[..eq] == ['['] + name[..eq - 1];
      CutBySign(map[], name, raw, eq - 1);
    }
  }

  /** A single assignment to a bracketed column reads back. */
  ghost predicate ReadsBack(name: string, pad: string, val: string) {
    var text := AssignmentText(pad, Assignment(InBrackets(name), Str(val)));
    ReadParts(map[], SplitTop(Top, text, ',')) == map[name := val]
  }

  lemma {:induction false} BracketedReadsBack(name: string, pad: string, val: string)
    requires name != [] && ']' !in name && AllSpace(pad)
    requires Passes(BracketText(name), ',') && Passes(BracketText(name), '=')
    ensures ReadsBack(name, pad, val)
  {
    var a := Assignment(InBrackets(name), Str(val));
    SetRoundTrip(map[], [], [], pad, [a]);
    assert [] + AssignmentText(pad, a) == AssignmentText(pad, a);
    assert Assigned(map[], [a]) == map[name := val];
  }

  /** An assignment to a bracketed column reads back, whatever its value, exactly when the scanner
      passes the bracketed name: from the top level to the top level, meeting neither ',' nor '='
      there.  Otherwise not even the empty value does. */
  lemma {:induction false} BracketedExact(name: string, pad: string)
    requires name != [] && ']' !in name && AllSpace(pad)
    ensures (forall val :: ReadsBack(name, pad, val))
            <==> Passes(BracketText(name), ',') && Passes(BracketText(name), '=')
    ensures ReadsBack(name, pad, []) <==> Passes(BracketText(name), ',') && Passes(BracketText(name), '=')
  {
    var text, tail := BracketText(name), EmptyTail(pad);
    if Passes(text, ',') && Passes(text, '=') {
      forall val
        ensures ReadsBack(name, pad, val)
      {
        BracketedReadsBack(name, pad, val);
      }
    } else {
      WholeText(name, pad);
      if FindTop(Top, text, ',').Some? {
        LostToComma(name, pad);
      } else {
        NoCommaInTail(pad);
        CommaFreeRest(text, tail);
        OnePartWhenNotFound(Top, text + tail, ',');
        SplitTopRejoins(Top, text + tail, ',');
        LostToSign(name, pad);
        ReadPartsHead(map[], text + tail, []);
        assert SplitTop(Top, text + tail, ',') == [text + tail] + [];
      }
      assert !ReadsBack(name, pad, []);
    }
  }

  // ----- three names -----

  predicate PassesFrom(n: Nesting, s: string, c: char) {
    NestAll(n, s) == Top && FindTop(n, s, c).None?
  }

  lemma {:induction false} PassesOne(n: Nesting, d: char, s: string, whole: string, c: char)
    requires whole == [d] + s && PassesFrom(Nest(n, d), s, c) && !Hits(n, d, c)
    ensures PassesFrom(n, whole, c)
  {
    assert whole[1..] == s;
  }

  const Bracketed := Nesting(1, Unquoted)
  const QuotedIn := Nesting(1, InSingle)

  lemma QuoteRunsOver()
    ensures Passes("[']=']", '=')
  {
    hide PassesFrom;
    assert PassesFrom(Top, [], '=') by { NothingPasses('='); }
    PassesOne(Bracketed, ']', [], "]", '=');
    PassesOne(QuotedIn, '\'', "]", "']", '=');
    PassesOne(QuotedIn, '=', "']", "=']", '=');
    PassesOne(QuotedIn, ']', "=']", "]=']", '=');
    PassesOne(Bracketed, '\'', "]=']", "']=']", '=');
    PassesOne(Top, '[', "']=']", "[']=']", '=');
    PassesIs("[']=']", '=');
  }

  lemma NothingPasses(c: char)
    ensures PassesFrom(Top, [], c)
  {
  }

  lemma PassesIs(s: string, c: char)
    ensures PassesFrom(Top, s, c) == Passes(s, c)
  {
  }

  /** Quotes that are closed inside the brackets do no harm. */
  lemma {:induction false} ClosedQuotesReadBack(pad: string, val: string)
    requires AllSpace(pad)
    ensures ReadsBack("'a'", pad, val)
  {
    hide Passes, ReadsBack;
    assert BracketText("'a'") == "['a']";
    QuotesClose(',');
    QuotesClose('=');
    BracketedReadsBack("'a'", pad, val);
  }

  lemma QuotesClose(c: char)
    requires c == ',' || c == '='
    ensures Passes("['a']", c)
  {
    hide PassesFrom;
    NothingPasses(c);
    PassesOne(Bracketed, ']', [], "]", c);
    PassesOne(QuotedIn, '\'', "]", "']", c);
    PassesOne(QuotedIn, 'a', "']", "a']", c);
    PassesOne(Bracketed, '\'', "a']", "'a']", c);
    PassesOne(Top, '[', "'a']", "['a']", c);
    PassesIs("['a']", c);
  }

  lemma ParensRunOver()
    ensures Passes("[),(]", '=')
  {
    hide PassesFrom;
    NothingPasses('=');
    PassesOne(Bracketed, ']', [], "]", '=');
    PassesOne(Top, '(', "]", "(]", '=');
    PassesOne(Top, ',', "(]", ",(]", '=');
    PassesOne(Bracketed, ')', ",(]", "),(]", '=');
    PassesOne(Top, '[', "),(]", "[),(]", '=');
    PassesIs("[),(]", '=');
  }

  lemma {:induction false} ReadSinglePart(out: map<string, string>, whole: string)
    requires FindTop(Top, whole, ',').None?
    ensures ReadParts(out, SplitTop(Top, whole, ',')) == ReadPart(out, whole)
  {
    hide ReadPart;
    OnePartWhenNotFound(Top, whole, ',');
    SplitTopRejoins(Top, whole, ',');
    ReadPartsHead(out, whole, []);
    assert SplitTop(Top, whole, ',') == [whole] + [];
  }

  /** A quote that is not closed inside the brackets: an assignment to the name is found after all for
      some values, and it is a wrong one. */
  lemma {:induction false} WrongValueIsRead()
    ensures AssignmentText("", Assignment(InBrackets("'"), Str("]=x"))) == "[']=']=x'"
    ensures ReadParts(map[], SplitTop(Top, "[']=']=x'", ',')) == map["'" := "x'"]
  {
    hide AssignmentText, ReadParts, ReadPart, SplitTop, FindTop, TakeIdent, Normalize;
    WrittenOut();
    var key, value := "[']=']", "x'";
    var whole := key + ("=" + value);
    assert whole == "[']=']=x'";
    NothingToFind(Top, whole, ',');
    ReadSinglePart(map[], whole);
    QuoteRunsOver();
    FindAssign(key, value);
    NameOfKey();
    TrimOfTight(whole);
    ReadKeyAndValue(map[], whole, key, value, "'");
    NormalizeBare();
  }

  lemma NormalizeBare()
    ensures Normalize("x'") == "x'"
  {
    TrimOfTight("x'");
  }

  lemma NameOfKey()
    ensures TakeIdent("[']=']").0 == Some("'")
  {
    hide TakeIdent;
    TakeMarked([], '[', ']', "'", "=']");
    assert [] + (['['] + ("'" + ([']'] + "=']"))) == "[']=']";
  }

  lemma {:induction false} DoubleOne(c: char, v: string, whole: string)
    requires whole == [c] + v && c != '\'' && Double(v) == v
    ensures Double(whole) == whole
  {
    assert whole[1..] == v;
  }

  lemma WrittenOut()
    ensures AssignmentText("", Assignment(InBrackets("'"), Str("]=x"))) == "[']=']=x'"
  {
    hide Double;
    assert Double([]) == [] by { DoubleNothing(); }
    DoubleOne('x', [], "x");
    DoubleOne('=', "x", "=x");
    DoubleOne(']', "=x", "]=x");
    assert Quoted("]=x") == "']=x'";
    assert ColumnText(InBrackets("'")) == "[']";
  }

  lemma DoubleNothing()
    ensures Double([]) == []
  {
  }

  /** A name the search for '=' passes, but the comma split does not: the assignment is lost. */
  lemma {:induction false} CommaIsCut()
    ensures Passes("[),(]", '=')
    ensures ReadParts(map[], SplitTop(Top, "[),(]='v'", ',')) == map[]
  {
    hide Passes, ReadParts, ReadPart, SplitTop, FindTop, Trim;
    var whole, rest := "[),(]='v'", "(]='v'";
    ParensRunOver();
    CommaIsFound();
    CutAtFirst(Top, whole, ',');
    assert whole[..2] == "[)" && whole[3..] == rest;
    NothingToFind(Top, rest, ',');
    ReadSinglePart(map[], rest);
    NoIdentAtParen(rest);
    ReadPartsHead(map[], "[)", SplitTop(Top, rest, ','));
    NoSign("[)");
  }

  lemma {:induction false} NoSign(raw: string)
    requires Tight(raw) && '=' !in raw
    ensures ReadPart(map[], raw) == map[]
  {
    TrimOfTight(raw);
    NothingToFind(Top, raw, '=');
  }

  lemma {:induction false} NoIdentAtParen(raw: string)
    requires raw != [] && Tight(raw) && raw[0] == '('
    ensures ReadPart(map[], raw) == map[]
  {
    TrimOfTight(raw);
    if FindTop(Top, raw, '=').Some? {
      FindTopIsLeast(Top, raw, '=');
      var key := raw[..FindTop(Top, raw, '=').value];
      assert key[0] == '(' && TrimStart(key) == key;
    }
  }

  lemma {:induction false} FoundLater(n: Nesting, d: char, s: string, whole: string, c: char)
    requires whole == [d] + s && !Hits(n, d, c) && FindTop(Nest(n, d), s, c).Some?
    ensures FindTop(n, whole, c) == Some(1 + FindTop(Nest(n, d), s, c).value)
  {
    assert whole[1..] == s;
  }

  lemma CommaIsFound()
    ensures FindTop(Top, "[),(]='v'", ',') == Some(2)
  {
    hide FindTop;
    FoundHere(",(]='v'", ',');
    FoundLater(Bracketed, ')', ",(]='v'", "),(]='v'", ',');
    FoundLater(Top, '[', "),(]='v'", "[),(]='v'", ',');
  }

  lemma {:induction false} FoundHere(s: string, c: char)
    requires s != [] && Hits(Top, s[0], c)
    ensures FindTop(Top, s, c) == Some(0)
  {
  }
}
