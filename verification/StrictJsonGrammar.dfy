/**
 The JSON texts that the strict parser accepts, written down as a grammar: which texts spell
 which value, without positions, counters or parsing. The grammar is that of sections 2 to 7 of
 RFC 8259, restricted to integers, with no key twice in an object.
 */
module StrictJsonGrammar {
  import opened Encoding
  import opened StrictJson
  import opened StrictJsonTheorems

  // ------------------------------------------------------------------- the grammar

  /** Section 2: insignificant white space. */
  predicate Spaces(t: Text) {
    forall i | 0 <= i < |t| :: t[i] == 0x20 || t[i] == 0x09 || t[i] == 0x0A || t[i] == 0x0D
  }

  /** Section 7: the letter `e` after a backslash stands for the unit `c`. */
  predicate ShortForm(e: CodeUnit, c: CodeUnit) {
    || (e == 0x22 && c == 0x22) || (e == 0x5C && c == 0x5C) || (e == 0x2F && c == 0x2F) || (e == 0x62 && c == 0x08)
    || (e == 0x66 && c == 0x0C) || (e == 0x6E && c == 0x0A) || (e == 0x72 && c == 0x0D) || (e == 0x74 && c == 0x09)
  }

  /** A hexadecimal digit of either case. */
  predicate HexForm(x: CodeUnit, d: nat) {
    (d < 10 && x == 0x30 + d) || (10 <= d < 16 && (x == 0x41 + (d - 10) || x == 0x61 + (d - 10)))
  }

  ghost predicate QuadForm(t: Text, c: CodeUnit) {
    && |t| == 4
    && exists a: nat, b: nat, e: nat, f: nat ::
         && HexForm(t[0], a) && HexForm(t[1], b) && HexForm(t[2], e) && HexForm(t[3], f)
         && c == 0x1000 * a + 0x100 * b + 0x10 * e + f
  }

  /** Section 7: the ways to spell one unit inside a string. */
  ghost predicate UnitForm(t: Text, c: CodeUnit) {
    || (t == [c] && c > 0x1F && c != 0x22 && c != 0x5C)
    || (|t| == 2 && t[0] == 0x5C && ShortForm(t[1], c))
    || (|t| == 6 && t[0] == 0x5C && t[1] == 0x75 && QuadForm(t[2..], c))
  }

  ghost predicate UnitsForm(t: Text, s: Text)
    decreases |s|
  {
    if s == [] then t == []
    else exists n: nat :: 0 < n <= |t| && UnitForm(t[..n], s[0]) && UnitsForm(t[n..], s[1..])
  }

  /** Section 7: a string. */
  ghost predicate StringForm(t: Text, s: Text) {
    |t| >= 2 && t[0] == 0x22 && t[|t| - 1] == 0x22 && UnitsForm(t[1..|t| - 1], s)
  }

  /** Section 6, integers only: no plus, no leading zero, no minus zero. */
  ghost predicate NumberForm(t: Text, n: int) {
    if n < 0 then t != [] && t[0] == 0x2D && DigitsForm(t[1..], 0 - n) else DigitsForm(t, n)
  }

  ghost predicate DigitsForm(t: Text, n: nat) {
    && t != [] && (forall i | 0 <= i < |t| :: 0x30 <= t[i] <= 0x39)
    && (t[0] == 0x30 ==> |t| == 1) && PlaceValue(t) == n
  }

  function PlaceValue(t: Text): int {
    if t == [] then 0 else 10 * PlaceValue(t[..|t| - 1]) + (t[|t| - 1] as int - 0x30)
  }

  /** Section 4: the names of an object are all different; here, and all listed. */
  ghost predicate Names(keys: seq<Text>, v: Value) {
    && v.Object? && (forall k :: k in keys <==> k in v.fields)
    && (forall i, j | 0 <= i < j < |keys| :: keys[i] != keys[j])
  }

  /** Sections 3 to 7: a value with nothing around it. */
  ghost predicate Bare(t: Text, v: Value)
    decreases v, 3
  {
    match v
    case Null => t == Ascii("null")
    case Bool(b) => t == if b then Ascii("true") else Ascii("false")
    case Number(n) => NumberForm(t, n)
    case String(s) => StringForm(t, s)
    case Array(items) =>
      && |t| >= 2 && t[0] == 0x5B && t[|t| - 1] == 0x5D
      && var body := t[1..|t| - 1]; if items == [] then Spaces(body) else ItemsForm(body, items)
    case Object(_) =>
      && |t| >= 2 && t[0] == 0x7B && t[|t| - 1] == 0x7D
      && var body := t[1..|t| - 1]; (v == Object(map[]) && Spaces(body)) || exists keys :: keys != [] && Names(keys, v) && MembersForm(body, v, keys)
  }

  /** Section 2: a value with white space around it. */
  ghost predicate Spells(t: Text, v: Value)
    decreases v, 4
  {
    exists i: nat, j: nat :: i <= j <= |t| && Spaces(t[..i]) && Bare(t[i..j], v) && Spaces(t[j..])
  }

  /** Section 5: values with commas between them. */
  ghost predicate ItemsForm(t: Text, items: seq<Value>)
    requires items != []
    decreases items, 5
  {
    if |items| == 1 then Spells(t, items[0])
    else exists i: nat :: i < |t| && t[i] == 0x2C && Spells(t[..i], items[0]) && ItemsForm(t[i + 1..], items[1..])
  }

  /** Section 4: members with commas between them. */
  ghost predicate MembersForm(t: Text, v: Value, keys: seq<Text>)
    requires v.Object? && keys != []
    decreases v, 2, |keys|
  {
    if |keys| == 1 then MemberForm(t, v, keys[0])
    else exists i: nat :: i < |t| && t[i] == 0x2C && MemberForm(t[..i], v, keys[0]) && MembersForm(t[i + 1..], v, keys[1..])
  }

  /** Section 4: a name, a colon and a value. */
  ghost predicate MemberForm(t: Text, v: Value, k: Text)
    requires v.Object?
    decreases v, 1
  {
    k in v.fields && exists i: nat :: i < |t| && t[i] == 0x3A && NameForm(t[..i], k) && Spells(t[i + 1..], v.fields[k])
  }

  ghost predicate NameForm(t: Text, k: Text) {
    exists i: nat, j: nat :: i <= j <= |t| && Spaces(t[..i]) && StringForm(t[i..j], k) && Spaces(t[j..])
  }

  // ------------------------------------------------------------------- white space

  /** Skipping stops at the first unit that is not white space. */
  lemma {:induction false} SkipsSpaces(text: Text, at: nat)
    requires at <= |text|
    ensures var k := SkipBlanks(text, at); Spaces(text[at..k]) && !Blank(Peek(text, k)) && SkipBlanks(text, k) == k
    decreases |text| - at
  {
    if Blank(Peek(text, at)) {
      SkipsSpaces(text, at + 1);
      var k := SkipBlanks(text, at);
      assert text[at..k] == [text[at]] + text[at + 1..k];
    }
  }

  lemma {:induction false} SkipsTo(text: Text, at: nat, k: nat)
    requires at <= k <= |text| && Spaces(text[at..k]) && !Blank(Peek(text, k))
    ensures SkipBlanks(text, at) == k
    decreases k - at
  {
    if at < k {
      assert text[at] == text[at..k][0];
      assert text[at + 1..k] == text[at..k][1..];
      SkipsTo(text, at + 1, k);
    }
  }

  lemma Sub(text: Text, a: nat, b: nat, i: nat, j: nat)
    requires a <= b <= |text| && i <= j <= b - a
    ensures text[a..b][i..j] == text[a + i..a + j]
  {
    var x, y := text[a..b][i..j], text[a + i..a + j];
    assert |x| == |y| && forall k | 0 <= k < |x| :: x[k] == y[k];
  }

  // ----------------------------------------------------------------------- strings

  lemma HexForms(x: CodeUnit, d: nat)
    ensures HexDigit(x) == Some(d) <==> HexForm(x, d)
    ensures HexForm(x, d) ==> d < 16
  {}

  lemma QuadForms(t: Text, c: CodeUnit)
    requires |t| == 4
    ensures HexQuad(t) == Some(c) <==> QuadForm(t, c)
  {
    hide HexDigit, HexForm;
    if HexQuad(t) == Some(c) {
      var a, b, e, f := HexDigit(t[0]).value, HexDigit(t[1]).value, HexDigit(t[2]).value, HexDigit(t[3]).value;
      HexForms(t[0], a);
      HexForms(t[1], b);
      HexForms(t[2], e);
      HexForms(t[3], f);
      Weights(a, b, e, f);
    }
    if QuadForm(t, c) {
      var a: nat, b: nat, e: nat, f: nat :|
        && HexForm(t[0], a) && HexForm(t[1], b) && HexForm(t[2], e) && HexForm(t[3], f)
        && c == 0x1000 * a + 0x100 * b + 0x10 * e + f;
      HexForms(t[0], a);
      HexForms(t[1], b);
      HexForms(t[2], e);
      HexForms(t[3], f);
      Weights(a, b, e, f);
    }
  }

  lemma Weights(a: nat, b: nat, e: nat, f: nat)
    ensures ((a * 16 + b) * 16 + e) * 16 + f == 0x1000 * a + 0x100 * b + 0x10 * e + f
  {}

  /** What the built-in parser reads off the front of a string body. */
  lemma DecodeFront(t: Text, n: nat, c: CodeUnit)
    requires 0 < n <= |t| && UnitForm(t[..n], c)
    ensures DecodeLiteral(t) == Cons(c, DecodeLiteral(t[n..]))
  {
    hide HexQuad;
    assert t[..n][0] == t[0];
    if n == 6 {
      assert t[..n][2..] == t[2..6];
      QuadForms(t[2..6], c);
    }
  }

  lemma {:induction false} FormDecodes(t: Text, s: Text)
    requires UnitsForm(t, s)
    ensures DecodeLiteral(t) == Some(s)
    decreases |s|
  {
    hide UnitForm, DecodeLiteral;
    if s == [] {
      NothingDecodes();
    } else {
      var n: nat :| 0 < n <= |t| && UnitForm(t[..n], s[0]) && UnitsForm(t[n..], s[1..]);
      DecodeFront(t, n, s[0]);
      FormDecodes(t[n..], s[1..]);
      assert s == [s[0]] + s[1..];
    }
  }

  lemma NothingDecodes()
    ensures DecodeLiteral([]) == Some([])
  {}

  /** A body that decodes starts with the form of its first unit. */
  lemma FrontForm(t: Text) returns (n: nat, c: CodeUnit)
    requires t != [] && DecodeLiteral(t).Some?
    ensures 0 < n <= |t| && UnitForm(t[..n], c) && DecodeLiteral(t) == Cons(c, DecodeLiteral(t[n..]))
  {
    hide HexQuad;
    if t[0] == BACKSLASH && t[1] == 0x75 {
      n, c := 6, HexQuad(t[2..6]).value;
      QuadForms(t[2..6], c);
      assert t[..6][2..] == t[2..6];
    } else if t[0] == BACKSLASH {
      n, c := 2, ShortEscape(t[1]).value;
    } else {
      n, c := 1, t[0];
      assert t[..1] == [t[0]];
    }
  }

  lemma {:induction false} DecodedForm(t: Text, s: Text)
    requires DecodeLiteral(t) == Some(s)
    ensures UnitsForm(t, s)
    decreases |t|
  {
    hide UnitForm, DecodeLiteral;
    if t == [] {
      NothingDecodes();
    } else {
      var n, c := FrontForm(t);
      var rest := DecodeLiteral(t[n..]).value;
      assert s == [c] + rest && s[1..] == rest;
      DecodedForm(t[n..], rest);
    }
  }

  /** Scanning steps over the form of one unit as a whole. */
  lemma ScansUnit(text: Text, at: nat, n: nat, c: CodeUnit)
    requires 0 < n && at + n <= |text| && UnitForm(text[at..at + n], c)
    ensures ScanString(text, at) == ScanString(text, at + n)
  {
    var t := text[at..at + n];
    assert forall i | 0 <= i < n :: t[i] == text[at + i];
    assert t[0] == text[at];
    if n == 6 {
      ScansHex(text, at + 2, t[2..]);
      assert ScanString(text, at) == ScanString(text, at + 2);
    }
  }

  lemma ScansHex(text: Text, at: nat, t: Text)
    requires at + 4 <= |text| && |t| == 4 && (forall i | 0 <= i < 4 :: t[i] == text[at + i]) && exists c :: QuadForm(t, c)
    ensures ScanString(text, at) == ScanString(text, at + 4)
  {
    assert text[at] >= 0x30 && text[at + 1] >= 0x30 && text[at + 2] >= 0x30 && text[at + 3] >= 0x30;
    assert text[at] != BACKSLASH && text[at + 1] != BACKSLASH && text[at + 2] != BACKSLASH && text[at + 3] != BACKSLASH;
    assert ScanString(text, at) == ScanString(text, at + 1);
    assert ScanString(text, at + 2) == ScanString(text, at + 3);
  }

  lemma {:induction false} ScansForm(text: Text, at: nat, end: nat, s: Text)
    requires at <= end < |text| && text[end] == QUOTE && UnitsForm(text[at..end], s)
    ensures ScanString(text, at) == Some(end + 1)
    decreases |s|
  {
    hide UnitForm;
    var t := text[at..end];
    if s != [] {
      var n: nat :| 0 < n <= |t| && UnitForm(t[..n], s[0]) && UnitsForm(t[n..], s[1..]);
      Sub(text, at, end, 0, n);
      Sub(text, at, end, n, |t|);
      assert t[..n] == t[0..n] && t[n..] == t[n..|t|];
      hide ScanString, UnitsForm;
      ScansUnit(text, at, n, s[0]);
      ScansForm(text, at + n, end, s[1..]);
    }
  }

  /** A string literal is read exactly as far and exactly as what the grammar says. */
  lemma StringExact(g: Grammar, at: nat, end: nat, s: Text, isKey: bool, nodes: nat)
    requires at <= end <= |g.text|
    ensures g.ParseString(at, isKey, nodes) == Done(s, end, nodes) <==>
            StringForm(g.text[at..end], s) && StrictText(s, if isKey then {} else g.allowed)
  {
    hide StrictText, ScanString, DecodeLiteral, UnitsForm;
    var t := g.text[at..end];
    if g.ParseString(at, isKey, nodes) == Done(s, end, nodes) {
      Sub(g.text, at, end, 1, end - at - 1);
      DecodedForm(g.text[at + 1..end - 1], s);
    }
    if StringForm(t, s) && StrictText(s, if isKey then {} else g.allowed) {
      assert g.text[at] == t[0] && g.text[end - 1] == t[|t| - 1];
      Sub(g.text, at, end, 1, end - at - 1);
      ScansForm(g.text, at + 1, end - 1, s);
      FormDecodes(g.text[at + 1..end - 1], s);
    }
  }

  // ----------------------------------------------------------------------- numbers

  lemma {:induction false} PlacesAre(t: Text)
    requires forall i | 0 <= i < |t| :: Digit(t[i])
    ensures PlaceValue(t) == DigitsValue(t) >= 0
  {
    if t != [] { PlacesAre(t[..|t| - 1]); }
  }

  /** The decimal digits of a number are its only spelling. */
  lemma {:induction false} DigitsUnique(t: Text, n: nat)
    ensures DigitsForm(t, n) <==> t == Digits(n)
    decreases |t|
  {
    DigitsRoundTrip(n);
    if t == Digits(n) { PlacesAre(t); }
    if DigitsForm(t, n) {
      var last := t[|t| - 1] as int - 0x30;
      var front := t[..|t| - 1];
      assert 0x30 <= t[|t| - 1] <= 0x39;
      if |t| == 1 {
        OneDigit(t);
      } else {
        PlacesAre(front);
        assert front[0] == t[0];
        FrontPositive(front);
        assert n == 10 * PlaceValue(front) + last;
        DigitsUnique(front, n / 10);
        assert t == front + [t[|t| - 1]];
      }
    }
  }

  lemma OneDigit(t: Text)
    requires |t| == 1 && 0x30 <= t[0] <= 0x39
    ensures 0 <= PlaceValue(t) == t[0] - 0x30 < 10 && t == Digits(t[0] - 0x30)
  {
    assert t[..0] == [];
    assert PlaceValue(t[..0]) == 0;
    assert t == [t[0]];
  }

  lemma {:induction false} FrontPositive(t: Text)
    requires t != [] && (forall i | 0 <= i < |t| :: 0x30 <= t[i] <= 0x39) && t[0] != 0x30
    ensures PlaceValue(t) > 0
  {
    if |t| == 1 {
      assert t[..0] == [];
    } else {
      assert t[..|t| - 1][0] == t[0];
      FrontPositive(t[..|t| - 1]);
    }
  }

  lemma NumberUnique(t: Text, n: int)
    ensures NumberForm(t, n) <==> t == Decimal(n)
  {
    hide DigitsForm, Digits;
    if n < 0 {
      if t != [] { DigitsUnique(t[1..], -n); }
      if NumberForm(t, n) { assert t == [MINUS] + t[1..]; }
      if t == Decimal(n) { assert t[1..] == Digits(-n); }
    } else {
      DigitsUnique(t, n);
    }
  }

  // ---------------------------------------------------------------------- literals

  /** What the parser takes for a number, `true`, `false` or `null` is one. */
  lemma LiteralForm(g: Grammar, at: nat, nodes: nat)
    requires at <= |g.text| && g.ParseLiteral(at, nodes).Done?
    ensures var r := g.ParseLiteral(at, nodes); r.at <= |g.text| && Bare(g.text[at..r.at], r.value)
  {
    hide NumberEnd, DigitsValue;
    if NumberEnd(g.text, at).Some? { NumberTokenForm(g.text, at); }
  }

  lemma NumberTokenForm(text: Text, at: nat)
    requires at <= |text| && NumberEnd(text, at).Some? && !(NumberValue(text, at) == 0 && text[at] == MINUS)
    ensures NumberForm(text[at..NumberEnd(text, at).value], NumberValue(text, at))
  {
    hide PlaceValue, DigitsValue, DigitsEnd;
    var end := NumberEnd(text, at).value;
    var start := if text[at] == MINUS then at + 1 else at;
    var digits, t := text[start..end], text[at..end];
    assert forall i | 0 <= i < |digits| :: digits[i] == text[start + i] && Digit(digits[i]);
    PlacesAre(digits);
    assert t[start - at..] == digits && t[0] == text[at];
    if start == at { assert t == digits; }
  }

  lemma FormIsLiteral(g: Grammar, at: nat, end: nat, v: Value, nodes: nat)
    requires at <= end <= |g.text| && Bare(g.text[at..end], v) && Boundary(g.text, end) && Clean(v, g.allowed)
    requires v.Null? || v.Bool? || v.Number?
    ensures g.ParseLiteral(at, nodes) == Done(v, end, nodes)
  {
    hide Decimal, Boundary, NumberForm, Grammar.ParseLiteral;
    if v.Number? {
      NumberUnique(g.text[at..end], v.n);
      NumberRoundTrip(g, at, v.n, nodes);
    } else {
      assert Render(v) == g.text[at..end];
      LiteralRoundTrip(g, at, v, nodes);
    }
  }

  /** The first unit of a value tells what it is. */
  lemma BareHead(t: Text, v: Value)
    requires Bare(t, v)
    ensures t != [] && !Blank(t[0]) && t[0] != RBRACE && t[0] != RBRACKET
    ensures (t[0] == QUOTE <==> v.String?) && (t[0] == LBRACE <==> v.Object?) && (t[0] == LBRACKET <==> v.Array?)
  {
    hide UnitsForm, ItemsForm, MembersForm, PlaceValue;
  }

  // ------------------------------------------------- what the parser accepts is spelled

  lemma SpellsAt(text: Text, at: nat, k: nat, e: nat, end: nat, v: Value)
    requires at <= k <= e <= end <= |text| && Spaces(text[at..k]) && Bare(text[k..e], v) && Spaces(text[e..end])
    ensures Spells(text[at..end], v)
  {
    hide Spaces, Bare;
    var t := text[at..end];
    Sub(text, at, end, 0, k - at);
    Sub(text, at, end, k - at, e - at);
    Sub(text, at, end, e - at, end - at);
    assert t[..k - at] == t[0..k - at] && t[e - at..] == t[e - at..end - at];
    assert Spaces(t[..k - at]) && Bare(t[k - at..e - at], v) && Spaces(t[e - at..]);
  }

  lemma NameAt(text: Text, at: nat, k: nat, e: nat, end: nat, name: Text)
    requires at <= k <= e <= end <= |text| && Spaces(text[at..k]) && StringForm(text[k..e], name) && Spaces(text[e..end])
    ensures NameForm(text[at..end], name)
  {
    hide Spaces, StringForm;
    var t := text[at..end];
    Sub(text, at, end, 0, k - at);
    Sub(text, at, end, k - at, e - at);
    Sub(text, at, end, e - at, end - at);
    assert t[..k - at] == t[0..k - at] && t[e - at..] == t[e - at..end - at];
    assert Spaces(t[..k - at]) && StringForm(t[k - at..e - at], name) && Spaces(t[e - at..]);
  }

  /** A parse does not care whether the spaces before it are skipped already. */
  lemma ValueFrom(g: Grammar, at: nat, depth: int, nodes: nat)
    requires at <= |g.text|
    ensures g.ParseValue(SkipBlanks(g.text, at), depth, nodes) == g.ParseValue(at, depth, nodes)
  {
    hide Grammar.ParseLiteral, Grammar.ParseString, Grammar.ParseItems, Grammar.ParseMembers, SkipBlanks, Spaces, Blank, StrictText;
    SkipsSpaces(g.text, at);
    var k := SkipBlanks(g.text, at);
    assert SkipBlanks(g.text, k) == k;
  }

  lemma ItemsFrom(g: Grammar, at: nat, depth: int, nodes: nat)
    requires at <= |g.text|
    ensures g.ParseItems(SkipBlanks(g.text, at), depth, nodes, []) == g.ParseItems(at, depth, nodes, [])
  {
    hide Grammar.ParseKey, Grammar.ParseValue, Grammar.ParseMembers, Grammar.ParseString, Grammar.ParseLiteral, SkipBlanks;
    ValueFrom(g, at, depth + 1, nodes);
    var k := SkipBlanks(g.text, at);
    var value := g.ParseValue(at, depth + 1, nodes);
    if value.Fail? { assert g.ParseItems(k, depth, nodes, []) == Fail(value.error); }
  }

  lemma MembersFrom(g: Grammar, at: nat, depth: int, nodes: nat)
    requires at <= |g.text|
    ensures g.ParseMembers(SkipBlanks(g.text, at), depth, nodes, map[]) == g.ParseMembers(at, depth, nodes, map[])
  {
    hide Grammar.ParseKey, Grammar.ParseValue, Grammar.ParseItems, Grammar.ParseString, Grammar.ParseLiteral, SkipBlanks, StrictText, Put;
    KeyFrom(g, at, nodes);
    var k := SkipBlanks(g.text, at);
    var key := g.ParseKey(at, nodes, map[]);
    if key.Fail? {
      assert g.ParseMembers(at, depth, nodes, map[]) == Fail(key.error);
    } else if g.ParseValue(key.at, depth + 1, nodes).Fail? {
      assert g.ParseMembers(k, depth, nodes, map[]) == Fail(g.ParseValue(key.at, depth + 1, nodes).error);
    }
  }

  lemma KeyFrom(g: Grammar, at: nat, nodes: nat)
    requires at <= |g.text|
    ensures g.ParseKey(SkipBlanks(g.text, at), nodes, map[]) == g.ParseKey(at, nodes, map[])
  {
    SkipsSpaces(g.text, at);
    hide Grammar.ParseString, SkipBlanks;
  }

  /** Which way the parser goes at the first unit of a value. */
  lemma Dispatch(g: Grammar, at: nat, depth: int, nodes: nat)
    requires at <= |g.text| && depth <= g.limits.maxDepth && nodes + 1 <= g.limits.maxNodes
    ensures var r, k := g.ParseValue(at, depth, nodes), SkipBlanks(g.text, at);
            var c := Peek(g.text, k);
            if c == QUOTE then
              var p := g.ParseString(k, false, nodes + 1);
              r == if p.Fail? then Fail(p.error) else Done(String(p.value), p.at, p.nodes)
            else if c == LBRACE then
              var first := SkipBlanks(g.text, k + 1);
              r == if Peek(g.text, first) == RBRACE then Done(Object(map[]), first + 1, nodes + 1) else g.ParseMembers(k + 1, depth, nodes + 1, map[])
            else if c == LBRACKET then
              var first := SkipBlanks(g.text, k + 1);
              r == if Peek(g.text, first) == RBRACKET then Done(Array([]), first + 1, nodes + 1) else g.ParseItems(k + 1, depth, nodes + 1, [])
            else r == g.ParseLiteral(k, nodes + 1)
  {
    hide Grammar.ParseLiteral, Grammar.ParseString, Grammar.ParseItems, Grammar.ParseMembers, SkipBlanks;
    var k := SkipBlanks(g.text, at);
    if k < |g.text| {
      ItemsFrom(g, k + 1, depth, nodes + 1);
      MembersFrom(g, k + 1, depth, nodes + 1);
    }
  }

  lemma WithinLimits(g: Grammar, at: nat, depth: int, nodes: nat)
    requires at <= |g.text| && g.ParseValue(at, depth, nodes).Done?
    ensures depth <= g.limits.maxDepth && nodes + 1 <= g.limits.maxNodes
  {}

  lemma {:induction false} ParsedSpells(g: Grammar, at: nat, depth: int, nodes: nat)
    requires at <= |g.text| && g.ParseValue(at, depth, nodes).Done?
    ensures var r, k := g.ParseValue(at, depth, nodes), SkipBlanks(g.text, at);
            at <= k < r.at <= |g.text| && Bare(g.text[k..r.at], r.value)
    decreases |g.text| - at, 1
  {
    hide Grammar.ParseValue, Grammar.ParseString, Grammar.ParseLiteral, Grammar.ParseItems, Grammar.ParseMembers, SkipBlanks, Bare, StringForm, ItemsForm, MembersForm, Names, Spaces;
    WithinLimits(g, at, depth, nodes);
    Dispatch(g, at, depth, nodes);
    var k := SkipBlanks(g.text, at);
    var r := g.ParseValue(at, depth, nodes);
    var c := Peek(g.text, k);
    if c == QUOTE {
      StringExact(g, k, r.at, r.value.s, false, nodes + 1);
      StringIsBare(g.text[k..r.at], r.value.s);
    } else if c == LBRACE {
      var first := SkipBlanks(g.text, k + 1);
      SkipsSpaces(g.text, k + 1);
      if Peek(g.text, first) == RBRACE {
        EmptyIsBare(g.text, k, first);
      } else {
        var keys := MembersSpell(g, k + 1, depth, nodes + 1, map[]);
        ObjectIsBare(g.text, k, r.at, r.value, keys);
      }
    } else if c == LBRACKET {
      var first := SkipBlanks(g.text, k + 1);
      SkipsSpaces(g.text, k + 1);
      if Peek(g.text, first) == RBRACKET {
        EmptyIsBare(g.text, k, first);
      } else {
        var items := ItemsSpell(g, k + 1, depth, nodes + 1, []);
        assert [] + items == items;
        ArrayIsBare(g.text, k, r.at, items);
      }
    } else {
      LiteralForm(g, k, nodes + 1);
    }
  }

  lemma StringIsBare(t: Text, s: Text)
    requires StringForm(t, s)
    ensures Bare(t, String(s))
  {}

  lemma EmptyIsBare(text: Text, k: nat, first: nat)
    requires k < first < |text| && Spaces(text[k + 1..first])
    ensures text[k] == LBRACE && text[first] == RBRACE ==> Bare(text[k..first + 1], Object(map[]))
    ensures text[k] == LBRACKET && text[first] == RBRACKET ==> Bare(text[k..first + 1], Array([]))
  {
    hide Spaces;
    var t := text[k..first + 1];
    assert t[0] == text[k] && t[|t| - 1] == text[first];
    Sub(text, k, first + 1, 1, first - k);
    assert t[1..|t| - 1] == text[k + 1..first];
  }

  lemma ArrayIsBare(text: Text, k: nat, end: nat, items: seq<Value>)
    requires k + 1 < end <= |text| && text[k] == LBRACKET && text[end - 1] == RBRACKET
    requires items != [] && ItemsForm(text[k + 1..end - 1], items)
    ensures Bare(text[k..end], Array(items))
  {
    hide ItemsForm;
    var t := text[k..end];
    assert t[0] == text[k] && t[|t| - 1] == text[end - 1];
    Sub(text, k, end, 1, end - k - 1);
  }

  lemma ObjectIsBare(text: Text, k: nat, end: nat, v: Value, keys: seq<Text>)
    requires k + 1 < end <= |text| && text[k] == LBRACE && text[end - 1] == RBRACE
    requires v.Object? && keys != [] && Names(keys, v) && MembersForm(text[k + 1..end - 1], v, keys)
    ensures Bare(text[k..end], v)
  {
    hide MembersForm, Names;
    var t := text[k..end];
    assert t[0] == text[k] && t[|t| - 1] == text[end - 1];
    Sub(text, k, end, 1, end - k - 1);
    assert t[1..|t| - 1] == text[k + 1..end - 1];
  }

  /** How a list that was read goes on after its first value. */
  lemma ItemsFirst(g: Grammar, at: nat, depth: int, nodes: nat, before: seq<Value>) returns (x: Value, e: nat, n: nat, next: nat)
    requires at <= |g.text| && g.ParseItems(at, depth, nodes, before).Done?
    ensures at < e <= next < |g.text| && g.ParseValue(at, depth + 1, nodes) == Done(x, e, n)
    ensures Spaces(g.text[e..next]) && (g.text[next] == RBRACKET || g.text[next] == COMMA)
    ensures g.ParseItems(at, depth, nodes, before) ==
            if g.text[next] == RBRACKET then Done(Array(before + [x]), next + 1, n) else g.ParseItems(next + 1, depth, n, before + [x])
  {
    hide Grammar.ParseValue, Grammar.ParseString, Grammar.ParseMembers, Grammar.ParseLiteral, SkipBlanks;
    var value := g.ParseValue(at, depth + 1, nodes);
    x, e, n := value.value, value.at, value.nodes;
    next := SkipBlanks(g.text, e);
    SkipsSpaces(g.text, e);
  }

  lemma {:induction false} ItemsSpell(g: Grammar, at: nat, depth: int, nodes: nat, before: seq<Value>) returns (items: seq<Value>)
    requires at <= |g.text| && g.ParseItems(at, depth, nodes, before).Done?
    ensures var r := g.ParseItems(at, depth, nodes, before);
            && at < r.at <= |g.text| && g.text[r.at - 1] == RBRACKET && items != []
            && r.value == Array(before + items) && ItemsForm(g.text[at..r.at - 1], items)
    decreases |g.text| - at, 2
  {
    hide Grammar.ParseItems, Grammar.ParseValue, SkipBlanks, Bare, Spells, ItemsForm, Spaces;
    var r := g.ParseItems(at, depth, nodes, before);
    var x, e, n, next := ItemsFirst(g, at, depth, nodes, before);
    ParsedSpells(g, at, depth + 1, nodes);
    SkipsSpaces(g.text, at);
    SpellsAt(g.text, at, SkipBlanks(g.text, at), e, next, x);
    if g.text[next] == RBRACKET {
      items := [x];
      ItemsOne(g.text[at..next], x);
    } else {
      var rest := ItemsSpell(g, next + 1, depth, n, before + [x]);
      items := [x] + rest;
      assert before + [x] + rest == before + items;
      ItemsGrow(g.text, at, next, r.at - 1, x, rest);
    }
  }

  lemma ItemsOne(t: Text, x: Value)
    requires Spells(t, x)
    ensures ItemsForm(t, [x])
  {
    hide Spells;
  }

  lemma ItemsGrow(text: Text, at: nat, next: nat, end: nat, x: Value, rest: seq<Value>)
    requires at <= next < end <= |text| && text[next] == COMMA && rest != []
    requires Spells(text[at..next], x) && ItemsForm(text[next + 1..end], rest)
    ensures ItemsForm(text[at..end], [x] + rest)
  {
    hide Spells;
    var t, i := text[at..end], next - at;
    Sub(text, at, end, 0, i);
    Sub(text, at, end, i + 1, end - at);
    assert t[i] == COMMA && t[..i] == t[0..i] && t[i + 1..] == t[i + 1..end - at];
    assert ([x] + rest)[1..] == rest;
  }

  /** How the members of an object that was read go on after the first. */
  lemma MembersFirst(g: Grammar, at: nat, depth: int, nodes: nat, fields: map<Text, Value>)
    returns (k: Text, colon: nat, x: Value, e: nat, n: nat, next: nat)
    requires at <= |g.text| && g.ParseMembers(at, depth, nodes, fields).Done?
    ensures at <= colon < e <= next < |g.text| && g.text[colon] == COLON && NameForm(g.text[at..colon], k) && k !in fields
    ensures g.ParseValue(colon + 1, depth + 1, nodes) == Done(x, e, n)
    ensures Spaces(g.text[e..next]) && (g.text[next] == RBRACE || g.text[next] == COMMA)
    ensures g.ParseMembers(at, depth, nodes, fields) ==
            if g.text[next] == RBRACE then Done(Object(Put(fields, k, x)), next + 1, n)
            else g.ParseMembers(next + 1, depth, n, Put(fields, k, x))
  {
    hide Grammar.ParseValue, Grammar.ParseString, Grammar.ParseItems, Grammar.ParseLiteral, SkipBlanks, StrictText, NameForm;
    var start := SkipBlanks(g.text, at);
    var name := g.ParseString(start, true, nodes);
    k, colon := name.value, SkipBlanks(g.text, name.at);
    SkipsSpaces(g.text, at);
    SkipsSpaces(g.text, name.at);
    StringExact(g, start, name.at, k, true, nodes);
    NameAt(g.text, at, start, name.at, colon, k);
    var value := g.ParseValue(colon + 1, depth + 1, nodes);
    x, e, n := value.value, value.at, value.nodes;
    next := SkipBlanks(g.text, e);
    SkipsSpaces(g.text, e);
  }

  /** Names that are new, all different, and exactly what was added to the object. */
  ghost predicate Adds(keys: seq<Text>, before: map<Text, Value>, v: Value) {
    && v.Object? && (forall k | k in before :: k in v.fields && v.fields[k] == before[k])
    && (forall k :: k in v.fields <==> k in before || k in keys) && (forall k | k in keys :: k !in before)
    && (forall i, j | 0 <= i < j < |keys| :: keys[i] != keys[j])
  }

  lemma AddsFirst(k: Text, x: Value, rest: seq<Text>, before: map<Text, Value>, v: Value)
    requires k !in before && Adds(rest, Put(before, k, x), v)
    ensures Adds([k] + rest, before, v) && k in v.fields && v.fields[k] == x
  {
    assert k in Put(before, k, x);
    assert forall o | o in before :: o in Put(before, k, x) && Put(before, k, x)[o] == before[o];
    assert forall o :: o in [k] + rest <==> o == k || o in rest;
  }

  lemma {:induction false} MembersSpell(g: Grammar, at: nat, depth: int, nodes: nat, fields: map<Text, Value>) returns (keys: seq<Text>)
    requires at <= |g.text| && g.ParseMembers(at, depth, nodes, fields).Done?
    ensures var r := g.ParseMembers(at, depth, nodes, fields);
            && at < r.at <= |g.text| && g.text[r.at - 1] == RBRACE && r.value.Object? && keys != []
            && Adds(keys, fields, r.value) && MembersForm(g.text[at..r.at - 1], r.value, keys)
    ensures fields == map[] ==> Names(keys, g.ParseMembers(at, depth, nodes, fields).value)
    decreases |g.text| - at, 0
  {
    hide Grammar.ParseMembers, Grammar.ParseValue, SkipBlanks, Bare, NameForm, Spells, MembersForm, MemberForm, Adds, Names, Spaces;
    var r := g.ParseMembers(at, depth, nodes, fields);
    var k, colon, x, e, n, next := MembersFirst(g, at, depth, nodes, fields);
    ParsedSpells(g, colon + 1, depth + 1, nodes);
    SkipsSpaces(g.text, colon + 1);
    SpellsAt(g.text, colon + 1, SkipBlanks(g.text, colon + 1), e, next, x);
    var grown := Put(fields, k, x);
    if g.text[next] == RBRACE {
      keys := [k];
      AddsNothing(grown);
      AddsFirst(k, x, [], fields, Object(grown));
      assert [k] + [] == [k];
      MemberAt(g.text, at, colon, next, r.value, k);
      MembersOne(g.text[at..next], r.value, k);
    } else {
      var rest := MembersSpell(g, next + 1, depth, n, grown);
      keys := [k] + rest;
      AddsFirst(k, x, rest, fields, r.value);
      MemberAt(g.text, at, colon, next, r.value, k);
      MembersGrow(g.text, at, next, r.at - 1, r.value, k, rest);
    }
    AddsNames(keys, fields, r.value);
  }

  lemma AddsNothing(fields: map<Text, Value>)
    ensures Adds([], fields, Object(fields))
  {}

  lemma AddsNames(keys: seq<Text>, fields: map<Text, Value>, v: Value)
    requires Adds(keys, fields, v)
    ensures fields == map[] ==> Names(keys, v)
  {}

  lemma MembersOne(t: Text, v: Value, k: Text)
    requires v.Object? && MemberForm(t, v, k)
    ensures MembersForm(t, v, [k])
  {
    hide MemberForm;
  }

  lemma MemberAt(text: Text, at: nat, colon: nat, next: nat, v: Value, k: Text)
    requires at <= colon < next <= |text| && text[colon] == COLON && v.Object? && k in v.fields
    requires NameForm(text[at..colon], k) && Spells(text[colon + 1..next], v.fields[k])
    ensures MemberForm(text[at..next], v, k)
  {
    hide Spells, NameForm;
    var t, i := text[at..next], colon - at;
    Sub(text, at, next, 0, i);
    Sub(text, at, next, i + 1, next - at);
    assert t[i] == COLON && t[..i] == t[0..i] && t[i + 1..] == t[i + 1..next - at];
  }

  lemma MembersGrow(text: Text, at: nat, next: nat, end: nat, v: Value, k: Text, rest: seq<Text>)
    requires at <= next < end <= |text| && text[next] == COMMA && v.Object? && rest != []
    requires MemberForm(text[at..next], v, k) && MembersForm(text[next + 1..end], v, rest)
    ensures MembersForm(text[at..end], v, [k] + rest)
  {
    hide MemberForm;
    var t, i := text[at..end], next - at;
    Sub(text, at, end, 0, i);
    Sub(text, at, end, i + 1, end - at);
    assert t[i] == COMMA && t[..i] == t[0..i] && t[i + 1..] == t[i + 1..end - at];
    assert ([k] + rest)[1..] == rest;
  }

  // ------------------------------------------------- what is spelled, the parser accepts

  /** The parts of a form, by where they stand in the text. */
  lemma SplitValue(text: Text, at: nat, end: nat, v: Value) returns (k: nat, e: nat)
    requires at <= end <= |text| && Spells(text[at..end], v)
    ensures at <= k <= e <= end && Spaces(text[at..k]) && Bare(text[k..e], v) && Spaces(text[e..end])
  {
    hide Spaces, Bare;
    var t := text[at..end];
    var i: nat, j: nat :| i <= j <= |t| && Spaces(t[..i]) && Bare(t[i..j], v) && Spaces(t[j..]);
    k, e := at + i, at + j;
    Sub(text, at, end, 0, i);
    Sub(text, at, end, i, j);
    Sub(text, at, end, j, end - at);
    assert t[..i] == t[0..i] && t[j..] == t[j..end - at];
  }

  lemma SplitName(text: Text, at: nat, end: nat, name: Text) returns (k: nat, e: nat)
    requires at <= end <= |text| && NameForm(text[at..end], name)
    ensures at <= k < e <= end && Spaces(text[at..k]) && StringForm(text[k..e], name) && Spaces(text[e..end]) && text[k] == QUOTE
  {
    hide Spaces, UnitsForm;
    var t := text[at..end];
    var i: nat, j: nat :| i <= j <= |t| && Spaces(t[..i]) && StringForm(t[i..j], name) && Spaces(t[j..]);
    k, e := at + i, at + j;
    Sub(text, at, end, 0, i);
    Sub(text, at, end, i, j);
    Sub(text, at, end, j, end - at);
    assert t[..i] == t[0..i] && t[j..] == t[j..end - at] && t[i..j][0] == text[k];
  }

  lemma SplitAt(text: Text, at: nat, end: nat, i: nat)
    requires at + i < end <= |text|
    ensures text[at..end][..i] == text[at..at + i] && text[at..end][i + 1..] == text[at + i + 1..end] && text[at..end][i] == text[at + i]
  {
    var t := text[at..end];
    Sub(text, at, end, 0, i);
    Sub(text, at, end, i + 1, end - at);
    assert t[..i] == t[0..i] && t[i + 1..] == t[i + 1..end - at];
  }

  lemma SplitItems(text: Text, at: nat, end: nat, items: seq<Value>) returns (next: nat)
    requires at <= end <= |text| && |items| > 1 && ItemsForm(text[at..end], items)
    ensures at <= next < end && text[next] == COMMA && Spells(text[at..next], items[0]) && ItemsForm(text[next + 1..end], items[1..])
  {
    hide Spells;
    var t := text[at..end];
    var i: nat :| i < |t| && t[i] == 0x2C && Spells(t[..i], items[0]) && ItemsForm(t[i + 1..], items[1..]);
    next := at + i;
    SplitAt(text, at, end, i);
  }

  lemma SplitMembers(text: Text, at: nat, end: nat, v: Value, keys: seq<Text>) returns (next: nat)
    requires at <= end <= |text| && v.Object? && |keys| > 1 && MembersForm(text[at..end], v, keys)
    ensures at <= next < end && text[next] == COMMA && MemberForm(text[at..next], v, keys[0]) && MembersForm(text[next + 1..end], v, keys[1..])
  {
    hide MemberForm;
    var t := text[at..end];
    var i: nat :| i < |t| && t[i] == 0x2C && MemberForm(t[..i], v, keys[0]) && MembersForm(t[i + 1..], v, keys[1..]);
    next := at + i;
    SplitAt(text, at, end, i);
  }

  lemma SplitMember(text: Text, at: nat, end: nat, v: Value, k: Text) returns (colon: nat)
    requires at <= end <= |text| && v.Object? && MemberForm(text[at..end], v, k)
    ensures k in v.fields && at <= colon < end && text[colon] == COLON && NameForm(text[at..colon], k) && Spells(text[colon + 1..end], v.fields[k])
  {
    hide Spells, NameForm;
    var t := text[at..end];
    var i: nat :| i < |t| && t[i] == 0x3A && NameForm(t[..i], k) && Spells(t[i + 1..], v.fields[k]);
    colon := at + i;
    SplitAt(text, at, end, i);
  }

  lemma OneOf(t: Text, items: seq<Value>)
    requires |items| == 1 && ItemsForm(t, items)
    ensures Spells(t, items[0])
  {
    hide Spells;
  }

  lemma OneMember(t: Text, v: Value, keys: seq<Text>)
    requires v.Object? && |keys| == 1 && MembersForm(t, v, keys)
    ensures MemberForm(t, v, keys[0])
  {
    hide MemberForm;
  }

  /** A value may end here: nothing could make its last number longer. */
  predicate Ends(text: Text, at: nat) {
    var c := Peek(text, at);
    c == -1 || Blank(c) || c == COMMA || c == RBRACE || c == RBRACKET
  }

  /** What limits ask of a value at some depth, with some nodes before it. */
  ghost predicate Fits(g: Grammar, v: Value, depth: int, nodes: nat) {
    Clean(v, g.allowed) && DepthWithin(v, depth, g.limits.maxDepth) && nodes + Nodes(v) <= g.limits.maxNodes
  }

  lemma {:induction false} SpelledParses(g: Grammar, at: nat, k: nat, end: nat, v: Value, depth: int, nodes: nat)
    requires at <= k <= end <= |g.text| && Spaces(g.text[at..k]) && Bare(g.text[k..end], v) && Ends(g.text, end)
    requires Fits(g, v, depth, nodes)
    ensures g.ParseValue(at, depth, nodes) == Done(v, end, nodes + Nodes(v))
    decreases v, 6
  {
    hide Grammar.ParseValue, Grammar.ParseString, Grammar.ParseLiteral, Grammar.ParseItems, Grammar.ParseMembers, SkipBlanks, Bare, Spaces, ItemNodes, FieldNodes;
    var t := g.text[k..end];
    BareHead(t, v);
    assert g.text[k] == t[0];
    SkipsTo(g.text, at, k);
    NodesPositive(v);
    Dispatch(g, at, depth, nodes);
    match v
    case String(s) =>
      BareIsString(t, s);
      StringExact(g, k, end, s, false, nodes + 1);
    case Array(items) => ArrayParses(g, k, end, v, depth, nodes);
    case Object(_) => ObjectParses(g, k, end, v, depth, nodes);
    case _ => FormIsLiteral(g, k, end, v, nodes + 1);
  }

  lemma NodesPositive(v: Value)
    ensures Nodes(v) >= 1
  {}

  lemma BareIsString(t: Text, s: Text)
    requires Bare(t, String(s))
    ensures StringForm(t, s)
  {}

  lemma {:induction false} ArrayParses(g: Grammar, k: nat, end: nat, v: Value, depth: int, nodes: nat)
    requires k <= end <= |g.text| && Bare(g.text[k..end], v) && v.Array? && Fits(g, v, depth, nodes)
    ensures k + 1 < end && g.text[k] == LBRACKET
    ensures var first := SkipBlanks(g.text, k + 1);
            if Peek(g.text, first) == RBRACKET then v == Array([]) && first + 1 == end && Nodes(v) == 1
            else g.ParseItems(k + 1, depth, nodes + 1, []) == Done(v, end, nodes + Nodes(v))
    decreases v, 5
  {
    hide Grammar.ParseItems, SkipBlanks, Spaces, ItemsForm;
    var t := g.text[k..end];
    assert g.text[k] == t[0] && g.text[end - 1] == t[|t| - 1];
    Sub(g.text, k, end, 1, end - k - 1);
    if v.items == [] {
      SkipsTo(g.text, k + 1, end - 1);
    } else {
      ItemsParse(g, k + 1, end - 1, v.items, depth, nodes + 1, []);
      assert [] + v.items == v.items;
    }
  }

  lemma {:induction false} ObjectParses(g: Grammar, k: nat, end: nat, v: Value, depth: int, nodes: nat)
    requires k <= end <= |g.text| && Bare(g.text[k..end], v) && v.Object? && Fits(g, v, depth, nodes)
    ensures k + 1 < end && g.text[k] == LBRACE
    ensures var first := SkipBlanks(g.text, k + 1);
            if Peek(g.text, first) == RBRACE then v == Object(map[]) && first + 1 == end && Nodes(v) == 1
            else g.ParseMembers(k + 1, depth, nodes + 1, map[]) == Done(v, end, nodes + Nodes(v))
    decreases v, 5
  {
    hide Grammar.ParseMembers, SkipBlanks, Spaces, MembersForm, Names, Nodes, Clean, DepthWithin;
    var t := g.text[k..end];
    assert g.text[k] == t[0] && g.text[end - 1] == t[|t| - 1];
    Sub(g.text, k, end, 1, end - k - 1);
    var body := g.text[k + 1..end - 1];
    if v == Object(map[]) && Spaces(body) {
      SkipsTo(g.text, k + 1, end - 1);
      NoNodes();
    } else {
      var keys :| keys != [] && Names(keys, v) && MembersForm(body, v, keys);
      NamesAdd(v, keys);
      MembersParse(g, k + 1, end - 1, v, keys, depth, nodes + 1, map[]);
    }
  }

  lemma NoNodes()
    ensures Nodes(Object(map[])) == 1
  {}

  /** One value of a list or an object, up to the mark that ends it. */
  lemma {:induction false} PartParses(g: Grammar, at: nat, next: nat, x: Value, depth: int, nodes: nat) returns (e: nat)
    requires at <= next < |g.text| && Ends(g.text, next) && !Blank(g.text[next])
    requires Spells(g.text[at..next], x) && Fits(g, x, depth, nodes)
    ensures at <= e <= next && g.ParseValue(at, depth, nodes) == Done(x, e, nodes + Nodes(x)) && SkipBlanks(g.text, e) == next
    ensures var c := Peek(g.text, SkipBlanks(g.text, at)); c != RBRACKET && c != RBRACE
    decreases x, 7
  {
    hide Grammar.ParseValue, SkipBlanks, Bare, Fits, Spells;
    var k;
    k, e := SplitValue(g.text, at, next, x);
    BareHead(g.text[k..e], x);
    assert g.text[k] == g.text[k..e][0];
    SkipsTo(g.text, at, k);
    SkipsTo(g.text, e, next);
    assert e < next ==> g.text[e] == g.text[e..next][0];
    SpelledParses(g, at, k, e, x, depth, nodes);
  }

  lemma ItemsGoOn(g: Grammar, at: nat, depth: int, nodes: nat, before: seq<Value>, x: Value, e: nat, n: nat, next: nat)
    requires at <= |g.text| && g.ParseValue(at, depth + 1, nodes) == Done(x, e, n) && next < |g.text| && e <= |g.text| && SkipBlanks(g.text, e) == next
    ensures g.text[next] == RBRACKET ==> g.ParseItems(at, depth, nodes, before) == Done(Array(before + [x]), next + 1, n)
    ensures g.text[next] == COMMA ==> g.ParseItems(at, depth, nodes, before) == g.ParseItems(next + 1, depth, n, before + [x])
  {
    hide Grammar.ParseValue, Grammar.ParseMembers, Grammar.ParseString, Grammar.ParseLiteral, SkipBlanks;
  }

  ghost predicate ItemsFit(g: Grammar, items: seq<Value>, depth: int, nodes: nat) {
    && (forall i | 0 <= i < |items| :: Clean(items[i], g.allowed) && DepthWithin(items[i], depth, g.limits.maxDepth))
    && nodes + ItemNodes(items) <= g.limits.maxNodes
  }

  lemma FirstFits(g: Grammar, items: seq<Value>, depth: int, nodes: nat)
    requires items != [] && ItemsFit(g, items, depth, nodes)
    ensures Fits(g, items[0], depth, nodes) && ItemsFit(g, items[1..], depth, nodes + Nodes(items[0]))
    ensures ItemNodes(items) == Nodes(items[0]) + ItemNodes(items[1..])
    ensures |items| == 1 ==> ItemNodes(items[1..]) == 0
  {
    hide Clean, DepthWithin, Nodes;
  }

  lemma {:induction false} ItemsParse(g: Grammar, at: nat, end: nat, items: seq<Value>, depth: int, nodes: nat, before: seq<Value>)
    requires at <= end < |g.text| && g.text[end] == RBRACKET && items != [] && ItemsForm(g.text[at..end], items)
    requires ItemsFit(g, items, depth + 1, nodes)
    ensures g.ParseItems(at, depth, nodes, before) == Done(Array(before + items), end + 1, nodes + ItemNodes(items))
    ensures Peek(g.text, SkipBlanks(g.text, at)) != RBRACKET
    decreases items, 8
  {
    hide Grammar.ParseItems, Grammar.ParseValue, SkipBlanks, Spells, ItemsForm, ItemsFit, Fits, ItemNodes, Nodes;
    FirstFits(g, items, depth + 1, nodes);
    var x, n := items[0], nodes + Nodes(items[0]);
    if |items| == 1 {
      OneOf(g.text[at..end], items);
      var e := PartParses(g, at, end, x, depth + 1, nodes);
      ItemsGoOn(g, at, depth, nodes, before, x, e, n, end);
      assert items == [x];
    } else {
      var next := SplitItems(g.text, at, end, items);
      var e := PartParses(g, at, next, x, depth + 1, nodes);
      ItemsGoOn(g, at, depth, nodes, before, x, e, n, next);
      ItemsParse(g, next + 1, end, items[1..], depth, n, before + [x]);
      assert before + [x] + items[1..] == before + items;
    }
  }

  lemma KeyParses(g: Grammar, at: nat, colon: nat, k: Text, nodes: nat, fields: map<Text, Value>)
    requires at <= colon < |g.text| && g.text[colon] == COLON && NameForm(g.text[at..colon], k) && StrictText(k, {}) && k !in fields
    ensures g.ParseKey(at, nodes, fields) == Done(k, colon + 1, nodes) && Peek(g.text, SkipBlanks(g.text, at)) == QUOTE
  {
    hide Grammar.ParseString, SkipBlanks, StringForm, StrictText, Spaces, NameForm;
    var start, e := SplitName(g.text, at, colon, k);
    SkipsTo(g.text, at, start);
    SkipsTo(g.text, e, colon);
    StringExact(g, start, e, k, true, nodes);
  }

  lemma MembersGoOn(g: Grammar, at: nat, depth: int, nodes: nat, before: map<Text, Value>, k: Text, start: nat, x: Value, e: nat, n: nat, next: nat)
    requires at <= |g.text| && start <= |g.text| && g.ParseKey(at, nodes, before) == Done(k, start, nodes)
    requires g.ParseValue(start, depth + 1, nodes) == Done(x, e, n) && next < |g.text| && e <= |g.text| && SkipBlanks(g.text, e) == next
    ensures g.text[next] == RBRACE ==> g.ParseMembers(at, depth, nodes, before) == Done(Object(Put(before, k, x)), next + 1, n)
    ensures g.text[next] == COMMA ==> g.ParseMembers(at, depth, nodes, before) == g.ParseMembers(next + 1, depth, n, Put(before, k, x))
  {
    hide Grammar.ParseValue, Grammar.ParseKey, Grammar.ParseString, Grammar.ParseItems, Grammar.ParseLiteral, SkipBlanks, Put;
  }

  /** The listed members of a fitting object, each with its nodes. */
  ghost predicate MembersFit(g: Grammar, v: Value, keys: seq<Text>, depth: int, nodes: nat) {
    && Listed(v, keys) && Clean(v, g.allowed) && DepthWithin(v, depth, g.limits.maxDepth)
    && nodes + ListedNodes(v, keys) <= g.limits.maxNodes
  }

  lemma FirstMemberFits(g: Grammar, v: Value, keys: seq<Text>, depth: int, nodes: nat)
    requires keys != [] && MembersFit(g, v, keys, depth, nodes)
    ensures var k := keys[0];
            && k in v.fields && StrictText(k, {}) && Fits(g, v.fields[k], depth + 1, nodes)
            && Listed(v, keys[1..]) && MembersFit(g, v, keys[1..], depth, nodes + Nodes(v.fields[k]))
            && ListedNodes(v, keys) == Nodes(v.fields[k]) + ListedNodes(v, keys[1..])
            && (|keys| == 1 ==> ListedNodes(v, keys[1..]) == 0)
  {
    hide Nodes;
  }

  /** One member, up to the mark that ends it. */
  lemma {:induction false} MemberParses(g: Grammar, at: nat, next: nat, v: Value, keys: seq<Text>, depth: int, nodes: nat, before: map<Text, Value>)
    requires at <= next < |g.text| && (g.text[next] == COMMA || g.text[next] == RBRACE)
    requires keys != [] && MembersFit(g, v, keys, depth, nodes) && v.Object? && MemberForm(g.text[at..next], v, keys[0]) && keys[0] !in before
    ensures var k := keys[0];
            && k in v.fields && Peek(g.text, SkipBlanks(g.text, at)) == QUOTE
            && (g.text[next] == RBRACE ==> g.ParseMembers(at, depth, nodes, before) == Done(Object(Put(before, k, v.fields[k])), next + 1, nodes + Nodes(v.fields[k])))
            && (g.text[next] == COMMA ==> g.ParseMembers(at, depth, nodes, before) == g.ParseMembers(next + 1, depth, nodes + Nodes(v.fields[k]), Put(before, k, v.fields[k])))
    decreases v, 1, |keys|
  {
    hide Grammar.ParseMembers, Grammar.ParseValue, Grammar.ParseKey, SkipBlanks, Spells, NameForm, MemberForm, MembersFit, Fits, Nodes, Put, StrictText;
    FirstMemberFits(g, v, keys, depth, nodes);
    var k, x := keys[0], v.fields[keys[0]];
    var colon := SplitMember(g.text, at, next, v, k);
    KeyParses(g, at, colon, k, nodes, before);
    var e := PartParses(g, colon + 1, next, x, depth + 1, nodes);
    MembersGoOn(g, at, depth, nodes, before, k, colon + 1, x, e, nodes + Nodes(x), next);
  }

  lemma {:induction false} MembersParse(g: Grammar, at: nat, end: nat, v: Value, keys: seq<Text>, depth: int, nodes: nat, before: map<Text, Value>)
    requires at <= end < |g.text| && g.text[end] == RBRACE && v.Object? && keys != [] && MembersForm(g.text[at..end], v, keys)
    requires MembersFit(g, v, keys, depth, nodes) && Listed(v, keys) && Fresh(before, v, keys)
    ensures g.ParseMembers(at, depth, nodes, before) == Done(Object(Added(before, v, keys)), end + 1, nodes + ListedNodes(v, keys))
    ensures Peek(g.text, SkipBlanks(g.text, at)) != RBRACE
    decreases v, 2, |keys|
  {
    hide Grammar.ParseMembers, SkipBlanks, MemberForm, MembersForm, MembersFit, ListedNodes, Nodes, Put;
    FirstMemberFits(g, v, keys, depth, nodes);
    var k := keys[0];
    if |keys| == 1 {
      OneMember(g.text[at..end], v, keys);
      MemberParses(g, at, end, v, keys, depth, nodes, before);
      assert keys[1..] == [];
    } else {
      var next := SplitMembers(g.text, at, end, v, keys);
      MemberParses(g, at, next, v, keys, depth, nodes, before);
      MembersParse(g, next + 1, end, v, keys[1..], depth, nodes + Nodes(v.fields[k]), Put(before, k, v.fields[k]));
    }
  }

  /** Listing every name once rebuilds the object and counts each value once. */
  lemma {:induction false} ListedOnce(before: map<Text, Value>, v: Value, keys: seq<Text>)
    requires Listed(v, keys) && Adds(keys, before, v)
    ensures Fresh(before, v, keys) && Added(before, v, keys) == v.fields
    ensures ListedNodes(v, keys) == FieldNodes(v, set k | k in keys)
    decreases keys
  {
    hide Nodes, FieldNodes, Adds, Put;
    if keys == [] {
      AddedNothing(before, v);
    } else {
      var k, x, rest := keys[0], v.fields[keys[0]], keys[1..];
      AddsRest(keys, before, v);
      FieldNodesRemove(v, (set o | o in keys), k);
      ListedOnce(Put(before, k, x), v, rest);
    }
  }

  lemma AddedNothing(before: map<Text, Value>, v: Value)
    requires Adds([], before, v)
    ensures before == v.fields
    ensures FieldNodes(v, (set k: Text | k in [])) == 0
  {
    assert (set k: Text | k in []) == {};
  }

  lemma AddsRest(keys: seq<Text>, before: map<Text, Value>, v: Value)
    requires keys != [] && Adds(keys, before, v)
    ensures var k, rest := keys[0], keys[1..];
            && k in v.fields && k !in before && Adds(rest, Put(before, k, v.fields[k]), v)
            && k in (set o | o in keys) && (set o | o in keys) <= v.fields.Keys && (set o | o in keys) - {k} == (set o | o in rest)
  {
    var k, rest := keys[0], keys[1..];
    assert forall o :: o in keys <==> o == k || o in rest;
    assert k !in rest;
  }

  lemma NamesAdd(v: Value, keys: seq<Text>)
    requires Names(keys, v)
    ensures Listed(v, keys) && Fresh(map[], v, keys) && Object(Added(map[], v, keys)) == v && Nodes(v) == 1 + ListedNodes(v, keys)
  {
    hide FieldNodes, ListedNodes;
    assert Adds(keys, map[], v);
    ListedOnce(map[], v, keys);
    assert (set k | k in keys) == v.fields.Keys;
  }

  // ------------------------------------------------------------- the canonical spelling

  lemma EscapedForm(c: CodeUnit)
    requires c > 0x1F
    ensures UnitForm(EscapeUnit(c), c)
  {}

  lemma {:induction false} EscapeForms(s: Text)
    requires forall i | 0 <= i < |s| :: s[i] > 0x1F
    ensures UnitsForm(Escape(s), s)
    decreases |s|
  {
    hide UnitForm, EscapeUnit;
    if s != [] {
      EscapeForms(s[1..]);
      EscapedForm(s[0]);
      UnitSize(s[0]);
      var n := |EscapeUnit(s[0])|;
      assert Escape(s)[..n] == EscapeUnit(s[0]) && Escape(s)[n..] == Escape(s[1..]);
    }
  }

  lemma UnitSize(c: CodeUnit)
    ensures 1 <= |EscapeUnit(c)| <= 2
  {}

  lemma QuotedForm(s: Text)
    requires StrictText(s, {})
    ensures StringForm(Quoted(s), s)
  {
    hide StrictText, Escape, UnitsForm;
    StrictHasNoControls(s);
    EscapeForms(s);
    var t := Quoted(s);
    assert t[1..|t| - 1] == Escape(s);
  }

  lemma BareSpells(t: Text, v: Value)
    requires Bare(t, v)
    ensures Spells(t, v)
  {
    hide Bare;
    assert Spaces(t[..0]) && t[0..|t|] == t && Spaces(t[|t|..]);
  }

  /** The rendering of a value spells it. */
  lemma {:induction false} RenderSpells(v: Value)
    requires Clean(v, {})
    ensures Bare(Render(v), v)
    decreases v, 1
  {
    hide StringForm, NumberForm, ItemsForm, MembersForm, RenderItems, RenderFields, SortedKeys, Names;
    match v
    case Number(n) => NumberUnique(Decimal(n), n);
    case String(s) => QuotedForm(s);
    case Array(items) =>
      var t := Render(v);
      assert t[1..|t| - 1] == RenderItems(items);
      if items == [] { NoItems(); } else { ItemsRendered(items); }
    case Object(fields) =>
      var keys := SortedKeys(fields.Keys);
      KeysAreNames(v, keys);
      var t := Render(v);
      assert t[1..|t| - 1] == RenderFields(v, keys);
      if keys == [] { NoMembers(v); } else { MembersRendered(v, keys); }
    case _ =>
  }

  lemma NoItems()
    ensures RenderItems([]) == []
  {}

  lemma NoMembers(v: Value)
    requires v.Object? && Clean(v, {}) && Names([], v)
    ensures RenderFields(v, []) == [] && v == Object(map[])
  {
    assert v.fields == map[];
  }

  lemma KeysAreNames(v: Value, keys: seq<Text>)
    requires v.Object? && Clean(v, {}) && keys == SortedKeys(v.fields.Keys)
    ensures Names(keys, v)
  {
    hide SortedKeys, LexLess, Utf8;
    forall i, j | 0 <= i < j < |keys| ensures keys[i] != keys[j] {
      assert Utf8Less(keys[i], keys[j]);
      LexTotal(Utf8(keys[i]), Utf8(keys[j]));
    }
  }

  lemma {:induction false} ItemsRendered(items: seq<Value>)
    requires items != [] && forall i | 0 <= i < |items| :: Clean(items[i], {})
    ensures ItemsForm(RenderItems(items), items)
    decreases items, 0
  {
    hide Bare, Render, Clean, Spells;
    RenderSpells(items[0]);
    BareSpells(Render(items[0]), items[0]);
    if |items| > 1 {
      ItemsRendered(items[1..]);
      var t, i := RenderItems(items), |Render(items[0])|;
      assert t[i] == COMMA && t[..i] == Render(items[0]) && t[i + 1..] == RenderItems(items[1..]);
    }
  }

  lemma {:induction false} MembersRendered(v: Value, keys: seq<Text>)
    requires v.Object? && Clean(v, {}) && keys != [] && forall k | k in keys :: k in v.fields
    ensures MembersForm(RenderFields(v, keys), v, keys)
    decreases v, 0, |keys|
  {
    hide Bare, Render, Spells, MemberForm, Quoted;
    var k := keys[0];
    assert k in keys;
    var member := Quoted(k) + [COLON] + Render(v.fields[k]);
    RenderSpells(v.fields[k]);
    MemberRendered(v, k);
    if |keys| > 1 {
      MembersRendered(v, keys[1..]);
      var t, i := RenderFields(v, keys), |member|;
      assert t == member + [COMMA] + RenderFields(v, keys[1..]);
      assert t[i] == COMMA && t[..i] == member && t[i + 1..] == RenderFields(v, keys[1..]);
    }
  }

  lemma MemberRendered(v: Value, k: Text)
    requires v.Object? && Clean(v, {}) && k in v.fields && Bare(Render(v.fields[k]), v.fields[k])
    ensures MemberForm(Quoted(k) + [COLON] + Render(v.fields[k]), v, k)
  {
    hide Bare, Render, Spells, StringForm, Quoted;
    var t, i := Quoted(k) + [COLON] + Render(v.fields[k]), |Quoted(k)|;
    assert StrictText(k, {});
    QuotedForm(k);
    hide StrictText, Clean;
    assert t[i] == COLON && t[..i] == Quoted(k) && t[i + 1..] == Render(v.fields[k]);
    BareSpells(Render(v.fields[k]), v.fields[k]);
    var q := Quoted(k);
    assert Spaces(q[..0]) && q[0..|q|] == q && Spaces(q[|q|..]);
    assert NameForm(q, k);
  }

  // --------------------------------------------------- no spelling is shorter than canonical

  lemma {:induction false} UnitsShortest(t: Text, s: Text)
    requires UnitsForm(t, s)
    ensures |Escape(s)| <= |t|
    decreases |s|
  {
    if s != [] {
      var n: nat :| 0 < n <= |t| && UnitForm(t[..n], s[0]) && UnitsForm(t[n..], s[1..]);
      UnitsShortest(t[n..], s[1..]);
    }
  }

  lemma StringShortest(t: Text, s: Text)
    requires StringForm(t, s)
    ensures |Quoted(s)| <= |t|
  {
    hide UnitsForm, Escape;
    UnitsShortest(t[1..|t| - 1], s);
  }

  /** The lengths of members together, in whatever order. */
  ghost function MemberLengths(v: Value, keys: set<Text>): nat
    requires v.Object? && Clean(v, {}) && keys <= v.fields.Keys
    decreases |keys|
  {
    if keys == {} then 0
    else
      var k :| k in keys;
      MemberLength(v, k) + MemberLengths(v, keys - {k})
  }

  ghost function MemberLength(v: Value, k: Text): nat
    requires v.Object? && Clean(v, {}) && k in v.fields
  {
    |Quoted(k)| + 1 + |Render(v.fields[k])|
  }

  lemma {:induction false} MemberLengthsRemove(v: Value, keys: set<Text>, k: Text)
    requires v.Object? && Clean(v, {}) && keys <= v.fields.Keys && k in keys
    ensures MemberLengths(v, keys) == MemberLength(v, k) + MemberLengths(v, keys - {k})
    decreases |keys|
  {
    hide MemberLength, Clean;
    var o :| o in keys && MemberLengths(v, keys) == MemberLength(v, o) + MemberLengths(v, keys - {o});
    if o != k {
      MemberLengthsRemove(v, keys - {o}, k);
      MemberLengthsRemove(v, keys - {k}, o);
      assert keys - {o} - {k} == keys - {k} - {o};
    }
  }

  /** The members take the same room in every order. */
  lemma {:induction false} MembersRoom(v: Value, keys: seq<Text>)
    requires v.Object? && Clean(v, {}) && keys != [] && (forall k | k in keys :: k in v.fields)
    requires forall i, j | 0 <= i < j < |keys| :: keys[i] != keys[j]
    ensures |RenderFields(v, keys)| == MemberLengths(v, set k | k in keys) + |keys| - 1
    decreases |keys|
  {
    hide Clean, Render, Quoted, MemberLengths;
    var k, rest, all := keys[0], keys[1..], set o | o in keys;
    assert keys == [k] + rest;
    assert k in keys && k !in rest && all - {k} == set o | o in rest;
    MemberLengthsRemove(v, all, k);
    if rest == [] {
      assert all - {k} == {};
      NoLengths(v);
    } else {
      MembersRoom(v, rest);
    }
  }

  lemma NoLengths(v: Value)
    requires v.Object? && Clean(v, {})
    ensures MemberLengths(v, {}) == 0
  {}

  lemma SameRoom(v: Value, keys: seq<Text>, others: seq<Text>)
    requires v.Object? && Clean(v, {}) && Names(keys, v) && Names(others, v) && keys != [] && others != []
    ensures |RenderFields(v, keys)| == |RenderFields(v, others)|
  {
    hide Clean, RenderFields, MemberLengths;
    MembersRoom(v, keys);
    MembersRoom(v, others);
    var all := v.fields.Keys;
    assert (set k | k in keys) == all && (set k | k in others) == all;
    Counts(keys);
    Counts(others);
  }

  lemma {:induction false} Counts(keys: seq<Text>)
    requires forall i, j | 0 <= i < j < |keys| :: keys[i] != keys[j]
    ensures |set k | k in keys| == |keys|
    decreases |keys|
  {
    var all := set k | k in keys;
    if keys == [] {
      assert all == {};
    } else {
      var rest := set k | k in keys[1..];
      Counts(keys[1..]);
      assert keys == [keys[0]] + keys[1..];
      assert keys[0] !in keys[1..];
      assert all == rest + {keys[0]};
    }
  }

  lemma {:induction false} SpellsShortest(t: Text, v: Value)
    requires Spells(t, v) && Clean(v, {})
    ensures |Render(v)| <= |t|
    decreases v, 4
  {
    hide Bare, Render, Clean, Spells;
    assert t[0..|t|] == t;
    var k, e := SplitValue(t, 0, |t|, v);
    BareShortest(t[k..e], v);
  }

  lemma {:induction false} BareShortest(t: Text, v: Value)
    requires Bare(t, v) && Clean(v, {})
    ensures |Render(v)| <= |t|
    decreases v, 3
  {
    hide StringForm, NumberForm, ItemsForm, MembersForm, RenderItems, RenderFields, SortedKeys, Names, Quoted, Decimal;
    match v
    case Number(n) => NumberUnique(t, n);
    case String(s) => StringShortest(t, s);
    case Array(items) => if items == [] { NoItems(); } else { ItemsShortest(t[1..|t| - 1], items); }
    case Object(fields) =>
      var sorted := SortedKeys(fields.Keys);
      KeysAreNames(v, sorted);
      if sorted == [] {
        NoMembers(v);
      } else {
        SomeNames(v, sorted);
        var keys :| keys != [] && Names(keys, v) && MembersForm(t[1..|t| - 1], v, keys);
        NamesListed(v, keys);
        MembersShortest(t[1..|t| - 1], v, keys);
        SameRoom(v, keys, sorted);
      }
    case _ =>
  }

  lemma SomeNames(v: Value, keys: seq<Text>)
    requires Names(keys, v) && keys != []
    ensures v != Object(map[])
  {
    assert keys[0] in keys;
  }

  lemma NamesListed(v: Value, keys: seq<Text>)
    requires Names(keys, v)
    ensures forall k | k in keys :: k in v.fields
  {}

  lemma {:induction false} ItemsShortest(t: Text, items: seq<Value>)
    requires items != [] && ItemsForm(t, items) && forall i | 0 <= i < |items| :: Clean(items[i], {})
    ensures |RenderItems(items)| <= |t|
    decreases items, 2
  {
    hide Spells, Render, Clean, ItemsForm;
    assert t[0..|t|] == t;
    if |items| == 1 {
      OneOf(t, items);
      SpellsShortest(t, items[0]);
    } else {
      var next := SplitItems(t, 0, |t|, items);
      SpellsShortest(t[0..next], items[0]);
      ItemsShortest(t[next + 1..|t|], items[1..]);
    }
  }

  lemma {:induction false} MemberShortest(t: Text, v: Value, k: Text)
    requires v.Object? && Clean(v, {}) && MemberForm(t, v, k)
    ensures k in v.fields && MemberLength(v, k) <= |t|
    decreases v, 0
  {
    hide Spells, Render, NameForm, MemberForm, StringForm, Quoted;
    assert t[0..|t|] == t;
    var colon := SplitMember(t, 0, |t|, v, k);
    var start, e := SplitName(t, 0, colon, k);
    StringShortest(t[start..e], k);
    SpellsShortest(t[colon + 1..|t|], v.fields[k]);
  }

  lemma {:induction false} MembersShortest(t: Text, v: Value, keys: seq<Text>)
    requires v.Object? && Clean(v, {}) && keys != [] && (forall k | k in keys :: k in v.fields) && MembersForm(t, v, keys)
    ensures |RenderFields(v, keys)| <= |t|
    decreases v, 1, |keys|
  {
    hide Render, MemberForm, MembersForm, Clean, Quoted;
    assert t[0..|t|] == t;
    if |keys| == 1 {
      OneMember(t, v, keys);
      MemberShortest(t, v, keys[0]);
    } else {
      var next := SplitMembers(t, 0, |t|, v, keys);
      MemberShortest(t[0..next], v, keys[0]);
      MembersShortest(t[next + 1..|t|], v, keys[1..]);
    }
  }

  // ------------------------------------------------------------------ main results

  /** What the limits and the allowed control characters ask of a value. */
  ghost predicate Admitted(v: Value, limits: Limits, allowed: set<CodeUnit>) {
    Clean(v, allowed) && DepthWithin(v, 0, limits.maxDepth) && Nodes(v) <= limits.maxNodes
  }

  /** The strict parser accepts exactly the texts within the byte limit that spell an admitted value, as that value. */
  lemma ParseExact(text: Text, limits: Limits, allowed: set<CodeUnit>, v: Value)
    ensures ParseStrictJson(text, limits, allowed) == Ok(v) <==>
            |Utf8(text)| <= limits.maxBytes && Spells(text, v) && Admitted(v, limits, allowed)
  {
    hide Grammar.ParseValue, SkipBlanks, Utf8, Bare, Spells, Clean, DepthWithin, Nodes;
    var g := Grammar(text, limits, allowed);
    var r := g.ParseValue(0, 0, 0);
    assert text[0..|text|] == text;
    if ParseStrictJson(text, limits, allowed) == Ok(v) {
      ParsedSpells(g, 0, 0, 0);
      SkipsSpaces(text, 0);
      SkipsSpaces(text, r.at);
      SpellsAt(text, 0, SkipBlanks(text, 0), r.at, |text|, v);
      ParseValueSound(g, 0, 0, 0);
    }
    if |Utf8(text)| <= limits.maxBytes && Spells(text, v) && Admitted(v, limits, allowed) {
      var k, e := SplitValue(text, 0, |text|, v);
      assert e < |text| ==> text[e] == text[e..|text|][0];
      SpelledParses(g, 0, k, e, v, 0, 0);
      SkipsTo(text, e, |text|);
    }
  }

  /** On bytes: exactly the UTF-8 of such texts. A byte-order mark spells nothing. */
  lemma ParseBytesExact(bytes: seq<Byte>, limits: Limits, allowed: set<CodeUnit>, v: Value)
    ensures ParseStrictJsonBytes(bytes, limits, allowed) == Ok(v) <==>
            && |bytes| <= limits.maxBytes && Admitted(v, limits, allowed)
            && exists text :: WellFormed(text) && Utf8(text) == bytes && Spells(text, v)
  {
    hide ParseStrictJson, DecodeUtf8, Utf8, Spells, Admitted, WellFormed;
    if DecodeUtf8(bytes).Some? {
      var text := DecodeUtf8(bytes).value;
      EncodeDecode(bytes);
      ParseExact(text, limits, allowed, v);
      if [0xEF, 0xBB, 0xBF] <= bytes && Spells(text, v) { MarkSpellsNothing(bytes, v); }
    }
    forall text | WellFormed(text) && Utf8(text) == bytes ensures DecodeUtf8(bytes) == Some(text) {
      DecodeEncode(text);
    }
  }

  lemma MarkSpellsNothing(bytes: seq<Byte>, v: Value)
    requires [0xEF, 0xBB, 0xBF] <= bytes && DecodeUtf8(bytes).Some?
    ensures !Spells(DecodeUtf8(bytes).value, v)
  {
    hide Spells;
    assert bytes[0] == 0xEF && bytes[1] == 0xBB && bytes[2] == 0xBF;
    var text := DecodeUtf8(bytes).value;
    assert text != [] && text[0] == 0xFEFF;
    if Spells(text, v) { SpelledStart(text, v); }
  }

  /** Every spelling starts with an ASCII character. */
  lemma SpelledStart(text: Text, v: Value)
    requires Spells(text, v)
    ensures text != [] && text[0] < 0x80
  {
    hide Bare, Spells;
    assert text[0..|text|] == text;
    var k, e := SplitValue(text, 0, |text|, v);
    BareStart(text[k..e], v);
    assert text[k..e][0] == text[k];
    if k > 0 { assert text[0..k][0] == text[0]; }
  }

  lemma BareStart(t: Text, v: Value)
    requires Bare(t, v)
    ensures t != [] && t[0] < 0x80
  {
    hide UnitsForm, ItemsForm, MembersForm, PlaceValue, Names, Spaces;
  }

  lemma {:induction false} CleanerStill(v: Value, allowed: set<CodeUnit>)
    requires Clean(v, {})
    ensures Clean(v, allowed)
  {
    match v
    case Array(items) => forall i | 0 <= i < |items| ensures Clean(items[i], allowed) { CleanerStill(items[i], allowed); }
    case Object(fields) => forall k | k in fields ensures Clean(fields[k], allowed) { CleanerStill(fields[k], allowed); }
    case _ =>
  }

  /** Round trip: the parser reads every accepted value's rendering back, if it fits. */
  lemma RoundTrip(v: Value, limits: Limits, allowed: set<CodeUnit>)
    requires Valid(v, limits) && |Utf8(Render(v))| <= limits.maxBytes
    ensures CanonicalJson(v, limits) == Some(Render(v))
    ensures ParseStrictJson(Render(v), limits, allowed) == Ok(v)
  {
    hide Render, Utf8, Bare, Spells, ParseStrictJson, Clean, DepthWithin, Nodes;
    RenderSpells(v);
    BareSpells(Render(v), v);
    CleanerStill(v, allowed);
    ParseExact(Render(v), limits, allowed, v);
  }

  /** Different values have different canonical bytes, so a fingerprint over them that is
      injective on bytes identifies the value. */
  lemma CanonicalBytesInjective(v: Value, w: Value, limits: Limits)
    requires Valid(v, limits) && Valid(w, limits) && Utf8(Render(v)) == Utf8(Render(w))
    ensures v == w
  {
    hide Render, Utf8, ParseStrictJson, Clean, DepthWithin, Nodes;
    RenderStrict(v);
    RenderStrict(w);
    Utf8Injective(Render(v), Render(w));
    var roomy := limits.(maxBytes := |Utf8(Render(v))|);
    RoundTrip(v, roomy, {});
    RoundTrip(w, roomy, {});
  }

  /** The canonical byte parser accepts exactly the renderings within the byte limit, and
      reads each of them as the one value it renders. */
  lemma CanonicalExact(bytes: seq<Byte>, v: Value, limits: Limits)
    ensures ParseCanonicalJsonBytes(bytes, limits) == Ok(v)
       <==> Valid(v, limits) && bytes == Utf8(Render(v)) && |bytes| <= limits.maxBytes
  {
    hide Render, Utf8, ParseStrictJsonBytes, Clean, DepthWithin, Nodes, Bare, Spells, StrictText;
    ParseBytesExact(bytes, limits, {}, v);
    if Valid(v, limits) && bytes == Utf8(Render(v)) {
      RenderStrict(v);
      RenderSpells(v);
      BareSpells(Render(v), v);
      StrictIsWellFormed(Render(v));
    }
  }

  lemma StrictIsWellFormed(t: Text)
    requires StrictText(t, {})
    ensures WellFormed(t)
  {}
}
