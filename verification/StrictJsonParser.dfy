/**
 The parser and the value check as they run: a cursor and a node counter advanced by
 loops. Each method is proved against the functions of StrictJson.
 */
module StrictJsonParser {
  import opened Encoding
  import opened StrictJson
  import T = StrictJsonTheorems

  class Parser {
    const g: Grammar
    var at: nat
    var nodes: nat

    constructor (g: Grammar)
      ensures this.g == g && at == 0 && nodes == 0
    {
      this.g := g;
      at, nodes := 0, 0;
    }

    /** The object's state is the one a specified parse leaves behind. */
    ghost predicate Leaves<T>(spec: Parsed<T>, r: Result<T, Error>)
      reads this
    {
      match spec
      case Fail(e) => r == Err(e)
      case Done(v, a, n) => r == Ok(v) && at == a && nodes == n
    }

    method Whitespace()
      requires at <= |g.text|
      modifies this`at
      ensures at == SkipBlanks(g.text, old(at))
    {
      while Blank(Peek(g.text, at))
        invariant at <= |g.text| && SkipBlanks(g.text, at) == SkipBlanks(g.text, old(at))
        decreases |g.text| - at
      {
        at := at + 1;
      }
    }

    method StringLiteral(isKey: bool) returns (r: Result<Text, Error>)
      modifies this
      ensures Leaves(g.ParseString(old(at), isKey, old(nodes)), r)
    {
      hide DecodeLiteral, StrictText;
      if Peek(g.text, at) != QUOTE {
        return Err(Malformed);
      }
      var start := at;
      at := at + 1;
      while at < |g.text|
        invariant start < at && nodes == old(nodes)
        invariant ScanString(g.text, at) == ScanString(g.text, start + 1)
        decreases if at < |g.text| then |g.text| - at else 0
      {
        var c := g.text[at];
        at := at + 1;
        if c == QUOTE {
          var decoded := DecodeLiteral(g.text[start + 1..at - 1]);
          if decoded.None? {
            return Err(Malformed);
          }
          var ok := AssertStrictText(decoded.value, if isKey then {} else g.allowed);
          return if ok then Ok(decoded.value) else Err(ForbiddenText);
        }
        if c == BACKSLASH {
          at := at + 1;
        } else if c <= 0x1F {
          return Err(Malformed);
        }
      }
      return Err(Malformed);
    }

    method ReadValue(depth: int) returns (r: Result<Value, Error>)
      requires at <= |g.text|
      modifies this
      ensures Leaves(g.ParseValue(old(at), depth, old(nodes)), r)
      decreases |g.text| - at, 2
    {
      hide Grammar.ParseString, Grammar.ParseMembers, Grammar.ParseItems, SkipBlanks;
      if depth > g.limits.maxDepth {
        return Err(TooDeep);
      }
      nodes := nodes + 1;
      if nodes > g.limits.maxNodes {
        return Err(TooManyNodes);
      }
      Whitespace();
      var c := Peek(g.text, at);
      if c == QUOTE {
        var s := StringLiteral(false);
        return if s.Ok? then Ok(String(s.value)) else Err(s.error);
      }
      if c == LBRACE {
        at := at + 1;
        Whitespace();
        if Peek(g.text, at) == RBRACE {
          at := at + 1;
          return Ok(Object(map[]));
        }
        r := Members(depth);
        return;
      }
      if c == LBRACKET {
        at := at + 1;
        Whitespace();
        if Peek(g.text, at) == RBRACKET {
          at := at + 1;
          return Ok(Array([]));
        }
        r := Items(depth);
        return;
      }
      if NumberEnd(g.text, at).Some? {
        var n := NumberValue(g.text, at);
        if n == 0 && g.text[at] == MINUS {
          return Err(Malformed);
        }
        at := NumberEnd(g.text, at).value;
        return if SafeInteger(n) then Ok(Number(n)) else Err(UnsafeNumber);
      }
      if Matches(g.text, at, Ascii("true")) {
        at := at + 4;
        return Ok(Bool(true));
      } else if Matches(g.text, at, Ascii("false")) {
        at := at + 5;
        return Ok(Bool(false));
      } else if Matches(g.text, at, Ascii("null")) {
        at := at + 4;
        return Ok(Null);
      }
      return Err(Malformed);
    }

    method Key(fields: map<Text, Value>) returns (r: Result<Text, Error>)
      requires at <= |g.text|
      modifies this
      ensures Leaves(g.ParseKey(old(at), old(nodes), fields), r)
    {
      Whitespace();
      r := StringLiteral(true);
      if r.Err? {
        return;
      }
      Whitespace();
      var colon := Peek(g.text, at);
      at := at + 1;
      if colon != COLON || r.value in fields {
        r := Err(Malformed);
      }
    }

    method Members(depth: int) returns (r: Result<Value, Error>)
      requires at <= |g.text|
      modifies this
      ensures Leaves(g.ParseMembers(old(at), depth, old(nodes), map[]), r)
      decreases |g.text| - at, 1
    {
      hide Grammar.ParseString, Grammar.ParseLiteral, Grammar.ParseItems, Grammar.ParseValue, Grammar.ParseKey, SkipBlanks;
      var fields: map<Text, Value> := map[];
      ghost var spec := g.ParseMembers(at, depth, nodes, fields);
      while true
        invariant old(at) <= at <= |g.text|
        invariant g.ParseMembers(at, depth, nodes, fields) == spec
        decreases |g.text| - at
      {
        var key := Key(fields);
        if key.Err? {
          return Err(key.error);
        }
        var value := ReadValue(depth + 1);
        if value.Err? {
          return value;
        }
        fields := Put(fields, key.value, value.value);
        Whitespace();
        if Peek(g.text, at) == RBRACE {
          at := at + 1;
          return Ok(Object(fields));
        }
        var comma := Peek(g.text, at);
        at := at + 1;
        if comma != COMMA {
          return Err(Malformed);
        }
      }
    }

    method Items(depth: int) returns (r: Result<Value, Error>)
      requires at <= |g.text|
      modifies this
      ensures Leaves(g.ParseItems(old(at), depth, old(nodes), []), r)
      decreases |g.text| - at, 3
    {
      hide Grammar.ParseString, Grammar.ParseLiteral, Grammar.ParseMembers, Grammar.ParseValue, Grammar.ParseKey, SkipBlanks;
      var items: seq<Value> := [];
      ghost var spec := g.ParseItems(at, depth, nodes, items);
      while true
        invariant old(at) <= at <= |g.text|
        invariant g.ParseItems(at, depth, nodes, items) == spec
        decreases |g.text| - at
      {
        var value := ReadValue(depth + 1);
        if value.Err? {
          return value;
        }
        items := items + [value.value];
        Whitespace();
        if Peek(g.text, at) == RBRACKET {
          at := at + 1;
          return Ok(Array(items));
        }
        var comma := Peek(g.text, at);
        at := at + 1;
        if comma != COMMA {
          return Err(Malformed);
        }
      }
    }
  }

  /** `parseStrictJson`, run. */
  method Parse(text: Text, limits: Limits, allowed: set<CodeUnit>) returns (r: Result<Value, Error>)
    ensures r == ParseStrictJson(text, limits, allowed)
  {
    if |Utf8(text)| > limits.maxBytes {
      return Err(TooManyBytes);
    }
    var p := new Parser(Grammar(text, limits, allowed));
    r := p.ReadValue(0);
    if r.Ok? {
      p.Whitespace();
      if p.at != |text| {
        r := Err(Malformed);
      }
    }
  }

  /** The value check, one shared counter for the whole tree. */
  class Counter {
    const limits: Limits
    var nodes: nat

    constructor (limits: Limits)
      ensures this.limits == limits && nodes == 0
    {
      this.limits := limits;
      nodes := 0;
    }

    /** Taken alone, the value passes at this depth. */
    ghost predicate Passes(v: Value, depth: int) {
      Clean(v, {}) && DepthWithin(v, depth, limits.maxDepth)
    }

    /** `assertJsonValue`: the keys of an object may come in any order. */
    method AssertJsonValue(v: Value, depth: int) returns (ok: bool)
      modifies this
      ensures ok <==> Clean(v, {}) && DepthWithin(v, depth, limits.maxDepth) && old(nodes) + Nodes(v) <= limits.maxNodes
      ensures ok ==> nodes == old(nodes) + Nodes(v)
      decreases v, 1
    {
      hide StrictText, ItemNodes, FieldNodes;
      if depth > limits.maxDepth {
        return false;
      }
      nodes := nodes + 1;
      if nodes > limits.maxNodes {
        return false;
      }
      match v
      case Null => return true;
      case Bool(_) => return true;
      case Number(n) => return SafeInteger(n);
      case String(s) =>
        ok := AssertStrictText(s, {});
        return;
      case Array(items) =>
        ok := AssertItems(items, depth + 1);
        return;
      case Object(fields) =>
        ok := AssertFields(v, depth + 1);
        return;
    }

    method AssertItems(items: seq<Value>, depth: int) returns (ok: bool)
      requires nodes <= limits.maxNodes
      modifies this
      ensures ok <==> (forall j | 0 <= j < |items| :: Passes(items[j], depth)) && old(nodes) + ItemNodes(items) <= limits.maxNodes
      ensures ok ==> nodes == old(nodes) + ItemNodes(items)
      decreases items, 0
    {
      hide Clean, DepthWithin, Nodes;
      var i := 0;
      T.ItemNodesSuffix(items, 0);
      assert items[0..] == items;
      while i < |items|
        invariant 0 <= i <= |items|
        invariant nodes <= limits.maxNodes
        invariant forall j | 0 <= j < i :: Passes(items[j], depth)
        invariant nodes + T.ItemNodesFrom(items, i) == old(nodes) + ItemNodes(items)
      {
        ok := AssertJsonValue(items[i], depth);
        if !ok {
          return;
        }
        i := i + 1;
      }
      return true;
    }

    method AssertFields(v: Value, depth: int) returns (ok: bool)
      requires v.Object? && nodes <= limits.maxNodes
      modifies this
      ensures ok <==> && (forall k | k in v.fields :: StrictText(k, {}) && Passes(v.fields[k], depth))
                      && old(nodes) + FieldNodes(v, v.fields.Keys) <= limits.maxNodes
      ensures ok ==> nodes == old(nodes) + FieldNodes(v, v.fields.Keys)
      decreases v, 0
    {
      hide Clean, DepthWithin, Nodes, StrictText;
      var keys := v.fields.Keys;
      T.NoFieldNodes(v);
      hide FieldNodes;
      while keys != {}
        invariant keys <= v.fields.Keys
        invariant nodes <= limits.maxNodes
        invariant forall k | k in v.fields.Keys - keys :: StrictText(k, {}) && Passes(v.fields[k], depth)
        invariant nodes + FieldNodes(v, keys) == old(nodes) + FieldNodes(v, v.fields.Keys)
        decreases |keys|
      {
        var key :| key in keys;
        T.FieldNodesRemove(v, keys, key);
        ok := AssertStrictText(key, {});
        if !ok {
          return;
        }
        ok := AssertJsonValue(v.fields[key], depth);
        if !ok {
          return;
        }
        keys := keys - {key};
      }
      return true;
    }
  }
}
