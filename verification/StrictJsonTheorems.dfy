/**
 The printer and the parser are inverse to each other: the parser reads every rendering
 back, and every value it returns is one the printer takes. Hence the canonical byte
 parser accepts exactly the renderings within the byte limit.
 */
module StrictJsonTheorems {
  import opened Encoding
  import opened StrictJson

  // --------------------------------------------------------------- node counting

  lemma NoFieldNodes(v: Value)
    requires v.Object?
    ensures FieldNodes(v, {}) == 0
  {}

  /** Any key may be counted first. */
  lemma {:induction false} FieldNodesRemove(v: Value, keys: set<Text>, k: Text)
    requires v.Object? && keys <= v.fields.Keys && k in keys
    ensures FieldNodes(v, keys) == Nodes(v.fields[k]) + FieldNodes(v, keys - {k})
    decreases |keys|
  {
    var c :| c in keys && FieldNodes(v, keys) == Nodes(v.fields[c]) + FieldNodes(v, keys - {c});
    if c != k {
      FieldNodesRemove(v, keys - {c}, k);
      FieldNodesRemove(v, keys - {k}, c);
      assert keys - {c} - {k} == keys - {k} - {c};
    }
  }

  lemma {:induction false} FieldNodesAgree(v: Value, w: Value, keys: set<Text>)
    requires v.Object? && w.Object? && keys <= v.fields.Keys && keys <= w.fields.Keys
    requires forall k | k in keys :: v.fields[k] == w.fields[k]
    ensures FieldNodes(v, keys) == FieldNodes(w, keys)
    decreases |keys|
  {
    if keys != {} {
      var k :| k in keys;
      FieldNodesRemove(v, keys, k);
      FieldNodesRemove(w, keys, k);
      FieldNodesAgree(v, w, keys - {k});
    }
  }

  /** Adding a member adds the nodes of its value. */
  lemma NodesOfUpdate(fields: map<Text, Value>, k: Text, x: Value)
    requires k !in fields
    ensures Nodes(Object(Put(fields, k, x))) == Nodes(Object(fields)) + Nodes(x)
  {
    var v := Object(Put(fields, k, x));
    FieldNodesRemove(v, v.fields.Keys, k);
    assert v.fields.Keys - {k} == fields.Keys;
    FieldNodesAgree(v, Object(fields), fields.Keys);
  }

  lemma {:induction false} ItemNodesAppend(items: seq<Value>, x: Value)
    ensures ItemNodes(items + [x]) == ItemNodes(items) + Nodes(x)
  {
    if items == [] {
      assert items + [x] == [x];
      assert ItemNodes([x][1..]) == 0;
    } else {
      ItemNodesAppend(items[1..], x);
      assert (items + [x])[1..] == items[1..] + [x];
    }
  }

  /** Nodes of the items from position `i` on. */
  ghost function ItemNodesFrom(items: seq<Value>, i: nat): nat
    requires i <= |items|
    decreases |items| - i
  {
    if i == |items| then 0 else Nodes(items[i]) + ItemNodesFrom(items, i + 1)
  }

  lemma {:induction false} ItemNodesSuffix(items: seq<Value>, i: nat)
    requires i <= |items|
    ensures ItemNodesFrom(items, i) == ItemNodes(items[i..])
    decreases |items| - i
  {
    if i < |items| {
      ItemNodesSuffix(items, i + 1);
      assert items[i..][1..] == items[i + 1..];
    }
  }

  // ------------------------------------------------- what the parser accepts is valid

  /** The promise for one parse: the value is acceptable and the counters moved by its size. */
  ghost predicate Sound(g: Grammar, r: Parsed<Value>, depth: int, nodes: int) {
    r.Done? ==>
      && Clean(r.value, g.allowed)
      && DepthWithin(r.value, depth, g.limits.maxDepth)
      && r.nodes == nodes + Nodes(r.value)
      && r.nodes <= g.limits.maxNodes
  }

  lemma {:induction false} ParseValueSound(g: Grammar, at: nat, depth: int, nodes: nat)
    requires at <= |g.text|
    ensures Sound(g, g.ParseValue(at, depth, nodes), depth, nodes)
    decreases |g.text| - at, 1
  {
    hide Grammar.ParseItems, Grammar.ParseMembers, SkipBlanks, NumberEnd, NumberValue, Matches;
    if depth <= g.limits.maxDepth && nodes + 1 <= g.limits.maxNodes {
      var start := SkipBlanks(g.text, at);
      var c := Peek(g.text, start);
      if c == LBRACE {
        var first := SkipBlanks(g.text, start + 1);
        if Peek(g.text, first) != RBRACE {
          ParseMembersSound(g, first, depth, nodes + 1, map[]);
        }
      } else if c == LBRACKET {
        var first := SkipBlanks(g.text, start + 1);
        if Peek(g.text, first) != RBRACKET {
          ParseItemsSound(g, first, depth, nodes + 1, []);
        }
      }
    }
  }

  /** How a list of members that was read starts: a key, a value, then the end or the rest. */
  lemma MembersInverse(g: Grammar, at: nat, depth: int, nodes: nat, fields: map<Text, Value>)
    returns (k: Text, start: nat, v: Value, end: nat, n: nat, next: nat, grown: map<Text, Value>)
    requires at <= |g.text| && g.ParseMembers(at, depth, nodes, fields).Done?
    ensures at < start < end < next <= |g.text|
    ensures k !in fields && StrictText(k, {})
    ensures g.ParseValue(start, depth + 1, nodes) == Done(v, end, n) && grown == Put(fields, k, v)
    ensures || g.ParseMembers(at, depth, nodes, fields) == Done(Object(grown), next, n)
            || g.ParseMembers(at, depth, nodes, fields) == g.ParseMembers(next, depth, n, grown)
  {
    hide Grammar.ParseValue, Grammar.ParseString, Grammar.ParseItems, Grammar.ParseLiteral, StrictText;
    var key := g.ParseKey(at, nodes, fields);
    k, start := key.value, key.at;
    var value := g.ParseValue(start, depth + 1, nodes);
    v, end, n := value.value, value.at, value.nodes;
    next, grown := SkipBlanks(g.text, end) + 1, Put(fields, k, v);
  }

  lemma {:induction false} ParseMembersSound(g: Grammar, at: nat, depth: int, nodes: nat, fields: map<Text, Value>)
    requires at <= |g.text| && depth <= g.limits.maxDepth && nodes <= g.limits.maxNodes
    requires Clean(Object(fields), g.allowed) && DepthWithin(Object(fields), depth, g.limits.maxDepth)
    ensures Sound(g, g.ParseMembers(at, depth, nodes, fields), depth, nodes - Nodes(Object(fields)))
    decreases |g.text| - at, 0
  {
    if g.ParseMembers(at, depth, nodes, fields).Done? {
      var k, start, v, end, n, next, grown := MembersInverse(g, at, depth, nodes, fields);
      ParseValueSound(g, start, depth + 1, nodes);
      NodesOfUpdate(fields, k, v);
      PutSound(g, depth, fields, k, v, grown);
      if g.ParseMembers(at, depth, nodes, fields) != Done(Object(grown), next, n) {
        ParseMembersSound(g, next, depth, n, grown);
      }
    }
  }

  lemma PutSound(g: Grammar, depth: int, fields: map<Text, Value>, k: Text, v: Value, grown: map<Text, Value>)
    requires Clean(Object(fields), g.allowed) && DepthWithin(Object(fields), depth, g.limits.maxDepth)
    requires StrictText(k, {}) && Clean(v, g.allowed) && DepthWithin(v, depth + 1, g.limits.maxDepth)
    requires grown == Put(fields, k, v)
    ensures Clean(Object(grown), g.allowed) && DepthWithin(Object(grown), depth, g.limits.maxDepth)
  {
    forall o | o in grown
      ensures StrictText(o, {}) && Clean(grown[o], g.allowed) && DepthWithin(grown[o], depth + 1, g.limits.maxDepth)
    {
      assert o == k || o in fields;
    }
  }

  lemma ItemsInverse(g: Grammar, at: nat, depth: int, nodes: nat, items: seq<Value>)
    returns (v: Value, end: nat, n: nat, next: nat, grown: seq<Value>)
    requires at <= |g.text| && g.ParseItems(at, depth, nodes, items).Done?
    ensures at < end < next <= |g.text|
    ensures g.ParseValue(at, depth + 1, nodes) == Done(v, end, n) && grown == items + [v]
    ensures || g.ParseItems(at, depth, nodes, items) == Done(Array(grown), next, n)
            || g.ParseItems(at, depth, nodes, items) == g.ParseItems(next, depth, n, grown)
  {
    hide Grammar.ParseValue, Grammar.ParseString, Grammar.ParseMembers, Grammar.ParseLiteral, StrictText;
    var value := g.ParseValue(at, depth + 1, nodes);
    v, end, n := value.value, value.at, value.nodes;
    next, grown := SkipBlanks(g.text, end) + 1, items + [v];
  }

  lemma {:induction false} ParseItemsSound(g: Grammar, at: nat, depth: int, nodes: nat, items: seq<Value>)
    requires at <= |g.text| && depth <= g.limits.maxDepth && nodes <= g.limits.maxNodes
    requires Clean(Array(items), g.allowed) && DepthWithin(Array(items), depth, g.limits.maxDepth)
    ensures Sound(g, g.ParseItems(at, depth, nodes, items), depth, nodes - Nodes(Array(items)))
    decreases |g.text| - at, 2
  {
    if g.ParseItems(at, depth, nodes, items).Done? {
      var v, end, n, next, grown := ItemsInverse(g, at, depth, nodes, items);
      ParseValueSound(g, at, depth + 1, nodes);
      ItemNodesAppend(items, v);
      if g.ParseItems(at, depth, nodes, items) != Done(Array(grown), next, n) {
        ParseItemsSound(g, next, depth, n, grown);
      }
    }
  }

  /** Whatever text the parser accepts, the printer accepts the value under the same limits. */
  lemma ParsedIsValid(text: Text, limits: Limits)
    ensures ParseStrictJson(text, limits, {}).Ok? ==> Valid(ParseStrictJson(text, limits, {}).value, limits)
  {
    ParseValueSound(Grammar(text, limits, {}), 0, 0, 0);
  }

  // ---------------------------------------------------------- reading a rendering back

  lemma MatchesSplit(text: Text, at: nat, a: Text, b: Text)
    requires Matches(text, at, a + b)
    ensures Matches(text, at, a) && Matches(text, at + |a|, b)
  {
    assert text[at..at + |a|] == text[at..at + |a + b|][..|a|] == a;
    assert text[at + |a|..at + |a| + |b|] == text[at..at + |a + b|][|a|..] == b;
  }

  lemma MatchesAt(text: Text, at: nat, a: Text, i: nat)
    requires Matches(text, at, a) && i < |a|
    ensures at + i < |text| && text[at + i] == a[i]
  {
    assert text[at..at + |a|][i] == a[i];
  }

  lemma StrictHasNoControls(s: Text)
    requires StrictText(s, {})
    ensures forall i | 0 <= i < |s| :: s[i] > 0x1F
  {
    forall i | 0 <= i < |s| ensures s[i] > 0x1F { assert !Forbidden(s[i]); }
  }

  lemma {:induction false} DigitsRoundTrip(n: nat)
    ensures forall i | 0 <= i < |Digits(n)| :: Digit(Digits(n)[i])
    ensures DigitsValue(Digits(n)) == n
    ensures Digits(n)[0] == ZERO ==> |Digits(n)| == 1 && n == 0
  {
    if n >= 10 {
      DigitsRoundTrip(n / 10);
      var d := Digits(n);
      assert d[..|d| - 1] == Digits(n / 10);
      assert d[0] == Digits(n / 10)[0];
    } else {
      assert Digits(n)[..0] == [];
    }
  }

  lemma {:induction false} DigitsEndOfRun(text: Text, at: nat, end: nat)
    requires at <= end <= |text| && (forall i | at <= i < end :: Digit(text[i])) && !Digit(Peek(text, end))
    ensures DigitsEnd(text, at) == end
    decreases end - at
  {
    if at < end { DigitsEndOfRun(text, at + 1, end); }
  }

  /** Nothing here could extend an integer token. */
  predicate Boundary(text: Text, at: nat) {
    var c := Peek(text, at);
    !Digit(c) && c != 0x2E && c != 0x65 && c != 0x45
  }

  /** Where the digits of a rendered integer stand. */
  lemma DecimalLayout(text: Text, at: nat, n: int)
    requires Matches(text, at, Decimal(n)) && Boundary(text, at + |Decimal(n)|)
    ensures var start := if n < 0 then at + 1 else at;
            var digits := Digits(if n < 0 then -n else n);
            && (n < 0 <==> text[at] == MINUS)
            && start + |digits| == at + |Decimal(n)| <= |text|
            && DigitsEnd(text, start) == start + |digits|
            && text[start..start + |digits|] == digits
  {
    var start := if n < 0 then at + 1 else at;
    var digits := Digits(if n < 0 then -n else n);
    DigitsRoundTrip(if n < 0 then -n else n);
    assert Digit(digits[0]);
    if n < 0 {
      MatchesSplit(text, at, [MINUS], digits);
      MatchesAt(text, at, [MINUS], 0);
    } else {
      MatchesAt(text, at, digits, 0);
    }
    var end := start + |digits|;
    forall i | start <= i < end ensures Digit(text[i]) {
      MatchesAt(text, start, digits, i - start);
      assert Digit(digits[i - start]);
    }
    DigitsEndOfRun(text, start, end);
  }

  lemma NumberEndOf(text: Text, at: nat, n: int)
    requires Matches(text, at, Decimal(n)) && Boundary(text, at + |Decimal(n)|)
    ensures at < |text| && NumberEnd(text, at) == Some(at + |Decimal(n)|)
  {
    DecimalLayout(text, at, n);
    var start := if n < 0 then at + 1 else at;
    var digits := Digits(if n < 0 then -n else n);
    DigitsRoundTrip(if n < 0 then -n else n);
    assert text[start] == text[start..start + |digits|][0] == digits[0];
  }

  lemma NumberRoundTrip(g: Grammar, at: nat, n: int, nodes: nat)
    requires SafeInteger(n) && Matches(g.text, at, Decimal(n)) && Boundary(g.text, at + |Decimal(n)|)
    ensures g.ParseLiteral(at, nodes) == Done(Number(n), at + |Decimal(n)|, nodes)
  {
    hide Matches, NumberEnd, Boundary, DigitsEnd, Digits;
    NumberEndOf(g.text, at, n);
    DecimalLayout(g.text, at, n);
    DigitsRoundTrip(if n < 0 then -n else n);
    assert NumberValue(g.text, at) == n;
  }

  lemma LiteralRoundTrip(g: Grammar, at: nat, v: Value, nodes: nat)
    requires v.Null? || v.Bool?
    requires Matches(g.text, at, Render(v))
    ensures g.ParseLiteral(at, nodes) == Done(v, at + |Render(v)|, nodes)
  {
    MatchesAt(g.text, at, Render(v), 0);
    assert DigitsEnd(g.text, at) == at;
    if v != Bool(true) { NoMatch(g.text, at, Ascii("true")); }
    if v.Null? { NoMatch(g.text, at, Ascii("false")); }
  }

  lemma NoMatch(text: Text, at: nat, part: Text)
    requires at < |text| && part != [] && text[at] != part[0]
    ensures !Matches(text, at, part)
  {
    if at + |part| <= |text| { assert text[at..at + |part|][0] == text[at]; }
  }

  // Reading the listed keys of an object one after the other, on top of what was read before.

  ghost predicate Listed(v: Value, keys: seq<Text>) {
    v.Object? && forall k | k in keys :: k in v.fields
  }

  ghost function Added(before: map<Text, Value>, v: Value, keys: seq<Text>): map<Text, Value>
    requires Listed(v, keys)
    decreases keys
  {
    if keys == [] then before else Added(Put(before, keys[0], v.fields[keys[0]]), v, keys[1..])
  }

  /** No listed key repeats, or was read before. */
  ghost predicate Fresh(before: map<Text, Value>, v: Value, keys: seq<Text>)
    requires Listed(v, keys)
    decreases keys
  {
    keys == [] || (keys[0] !in before && Fresh(Put(before, keys[0], v.fields[keys[0]]), v, keys[1..]))
  }

  ghost function ListedNodes(v: Value, keys: seq<Text>): nat
    requires Listed(v, keys)
  {
    if keys == [] then 0 else Nodes(v.fields[keys[0]]) + ListedNodes(v, keys[1..])
  }

  // ------------------------------------------------------- a rendering is strict text

  lemma {:induction false} WellFormedConcat(a: Text, b: Text)
    requires WellFormed(a) && WellFormed(b)
    ensures WellFormed(a + b)
  {
    if a == [] {
      assert a + b == b;
    } else {
      WellFormedConcat(a[Width(a)..], b);
      assert Width(a + b) == Width(a);
      assert (a + b)[Width(a)..] == a[Width(a)..] + b;
    }
  }

  lemma StrictConcat(a: Text, b: Text)
    requires StrictText(a, {}) && StrictText(b, {})
    ensures StrictText(a + b, {})
  {
    WellFormedConcat(a, b);
    forall i | 0 <= i < |a + b| ensures !Forbidden((a + b)[i]) {
      assert if i < |a| then !Forbidden(a[i]) else !Forbidden(b[i - |a|]);
    }
  }

  lemma {:induction false} PrintableStrict(s: Text)
    requires Printable(s)
    ensures StrictText(s, {})
  {
    if s != [] { PrintableStrict(s[1..]); }
  }

  /** Escaping goes unit by unit. */
  lemma {:induction false} EscapeConcat(a: Text, b: Text)
    ensures Escape(a + b) == Escape(a) + Escape(b)
  {
    hide EscapeUnit;
    if a == [] {
      assert a + b == b;
    } else {
      EscapeConcat(a[1..], b);
      assert (a + b)[1..] == a[1..] + b;
      Associate(EscapeUnit(a[0]), Escape(a[1..]), Escape(b));
    }
  }

  lemma Associate(a: Text, b: Text, c: Text)
    ensures a + b + c == a + (b + c)
  {}

  /** The escape of one character, pair or not, is strict. */
  lemma EscapeCharacter(s: Text)
    requires StrictText(s, {}) && s != [] && |s| == Width(s)
    ensures StrictText(Escape(s), {})
  {
    assert !Forbidden(s[0]);
    assert Escape(s[1..]) == if |s| == 1 then [] else [s[1]] + Escape(s[1..][1..]);
    assert Escape([]) == [];
    if s[0] == QUOTE || s[0] == BACKSLASH {
      assert Escape(s) == [BACKSLASH, s[0]];
      PrintableStrict([BACKSLASH, s[0]]);
    } else {
      assert Escape(s) == s;
    }
  }

  lemma StrictParts(s: Text)
    requires StrictText(s, {}) && s != []
    ensures StrictText(s[..Width(s)], {}) && StrictText(s[Width(s)..], {}) && Width(s[..Width(s)]) == Width(s)
  {
    var n := Width(s);
    var head := s[..n];
    assert head[n..] == [];
    assert WellFormed(head);
  }

  lemma {:induction false} EscapeStrict(s: Text)
    requires StrictText(s, {})
    ensures StrictText(Escape(s), {})
  {
    if s != [] {
      hide Escape, StrictText;
      var head, rest := s[..Width(s)], s[Width(s)..];
      StrictParts(s);
      EscapeCharacter(head);
      EscapeStrict(rest);
      assert s == head + rest;
      EscapeConcat(head, rest);
      StrictConcat(Escape(head), Escape(rest));
    }
  }

  lemma QuotedStrict(s: Text)
    requires StrictText(s, {})
    ensures StrictText(Quoted(s), {})
  {
    EscapeStrict(s);
    PrintableStrict([QUOTE]);
    StrictConcat([QUOTE], Escape(s));
    StrictConcat([QUOTE] + Escape(s), [QUOTE]);
  }

  lemma Enclose(open: CodeUnit, body: Text, close: CodeUnit)
    requires 0x20 <= open < 0x7F && 0x20 <= close < 0x7F && StrictText(body, {})
    ensures StrictText([open] + body + [close], {})
  {
    PrintableStrict([open]);
    PrintableStrict([close]);
    StrictConcat([open], body);
    StrictConcat([open] + body, [close]);
  }

  /** A rendering holds no control character, in particular no line break, and is well formed. */
  lemma {:induction false} RenderStrict(v: Value)
    requires Clean(v, {})
    ensures StrictText(Render(v), {})
    decreases v, 1
  {
    hide Digits, Quoted;
    match v
    case Null => PrintableStrict(Ascii("null"));
    case Bool(b) =>
      PrintableStrict(Ascii("true"));
      PrintableStrict(Ascii("false"));
    case Number(n) =>
      var m := if n < 0 then -n else n;
      DigitsRoundTrip(m);
      assert forall i | 0 <= i < |Digits(m)| :: Digit(Digits(m)[i]);
      PrintableStrict(Decimal(n));
    case String(s) => QuotedStrict(s);
    case Array(items) =>
      RenderItemsStrict(items);
      Enclose(LBRACKET, RenderItems(items), RBRACKET);
    case Object(fields) =>
      RenderFieldsStrict(v, SortedKeys(fields.Keys));
      Enclose(LBRACE, RenderFields(v, SortedKeys(fields.Keys)), RBRACE);
  }

  lemma {:induction false} RenderItemsStrict(items: seq<Value>)
    requires forall i | 0 <= i < |items| :: Clean(items[i], {})
    ensures StrictText(RenderItems(items), {})
    decreases items, 0
  {
    if items != [] {
      RenderStrict(items[0]);
      if |items| > 1 {
        RenderItemsStrict(items[1..]);
        PrintableStrict([COMMA]);
        StrictConcat(Render(items[0]), [COMMA]);
        StrictConcat(Render(items[0]) + [COMMA], RenderItems(items[1..]));
      }
    }
  }

  lemma {:induction false} RenderFieldsStrict(v: Value, keys: seq<Text>)
    requires v.Object? && Clean(v, {}) && forall k | k in keys :: k in v.fields
    ensures StrictText(RenderFields(v, keys), {})
    decreases v, 0, |keys|
  {
    if keys != [] {
      var k, x := keys[0], v.fields[keys[0]];
      RenderStrict(x);
      QuotedStrict(k);
      PrintableStrict([COLON]);
      PrintableStrict([COMMA]);
      StrictConcat(Quoted(k), [COLON]);
      var member := Quoted(k) + [COLON] + Render(x);
      StrictConcat(Quoted(k) + [COLON], Render(x));
      if |keys| > 1 {
        RenderFieldsStrict(v, keys[1..]);
        StrictConcat(member, [COMMA]);
        StrictConcat(member + [COMMA], RenderFields(v, keys[1..]));
      }
    }
  }

}
