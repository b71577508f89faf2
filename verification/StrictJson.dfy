/**
 The canonical printer and the strict parser of shared/strict-json.js, as functions.
 A value is what JavaScript compares structurally: an object is a finite map from keys,
 so the order its keys were inserted in is not part of it.
 */
module StrictJson {
  import opened Encoding

  datatype Value =
    | Null
    | Bool(b: bool)
    | Number(n: int)
    | String(s: Text)
    | Array(items: seq<Value>)
    | Object(fields: map<Text, Value>)

  datatype Limits = Limits(maxBytes: int, maxDepth: int, maxNodes: int)

  datatype Error = TooManyBytes | TooDeep | TooManyNodes | Malformed | ForbiddenText | UnsafeNumber | NotCanonical

  // ------------------------------------------------------------ accepted values

  /** Strings, keys and numbers are the ones the printer takes, all the way down. */
  predicate Clean(v: Value, allowed: set<CodeUnit>) {
    match v
    case Null => true
    case Bool(_) => true
    case Number(n) => SafeInteger(n)
    case String(s) => StrictText(s, allowed)
    case Array(items) => forall i | 0 <= i < |items| :: Clean(items[i], allowed)
    case Object(fields) => forall k | k in fields :: StrictText(k, {}) && Clean(fields[k], allowed)
  }

  /** Nesting stays within the depth limit when the value itself sits at `depth`. */
  predicate DepthWithin(v: Value, depth: int, maxDepth: int) {
    && depth <= maxDepth
    && match v
       case Array(items) => forall i | 0 <= i < |items| :: DepthWithin(items[i], depth + 1, maxDepth)
       case Object(fields) => forall k | k in fields :: DepthWithin(fields[k], depth + 1, maxDepth)
       case _ => true
  }

  ghost function Nodes(v: Value): nat
    decreases v, 1
  {
    match v
    case Array(items) => 1 + ItemNodes(items)
    case Object(fields) => 1 + FieldNodes(v, fields.Keys)
    case _ => 1
  }

  ghost function ItemNodes(items: seq<Value>): nat
    decreases items, 0
  {
    if items == [] then 0 else Nodes(items[0]) + ItemNodes(items[1..])
  }

  /** Nodes under the given keys of an object. */
  ghost function FieldNodes(v: Value, keys: set<Text>): nat
    requires v.Object? && keys <= v.fields.Keys
    decreases v, 0, |keys|
  {
    if keys == {} then 0
    else
      var k :| k in keys;
      Nodes(v.fields[k]) + FieldNodes(v, keys - {k})
  }

  /** What `assertJsonValue` accepts. */
  ghost predicate Valid(v: Value, limits: Limits) {
    Clean(v, {}) && DepthWithin(v, 0, limits.maxDepth) && Nodes(v) <= limits.maxNodes
  }

  // -------------------------------------------------------------------- printer

  const QUOTE: CodeUnit := 0x22
  const BACKSLASH: CodeUnit := 0x5C
  const COMMA: CodeUnit := 0x2C
  const COLON: CodeUnit := 0x3A
  const LBRACE: CodeUnit := 0x7B
  const RBRACE: CodeUnit := 0x7D
  const LBRACKET: CodeUnit := 0x5B
  const RBRACKET: CodeUnit := 0x5D
  const MINUS: CodeUnit := 0x2D
  const ZERO: CodeUnit := 0x30

  function EscapeUnit(c: CodeUnit): Text {
    if c == QUOTE || c == BACKSLASH then [BACKSLASH, c] else [c]
  }

  /** The body of a string literal. Strict text holds no character that needs another escape. */
  function Escape(s: Text): Text {
    if s == [] then [] else EscapeUnit(s[0]) + Escape(s[1..])
  }

  function Quoted(s: Text): Text {
    [QUOTE] + Escape(s) + [QUOTE]
  }

  function Digits(n: nat): (r: Text)
    ensures r != []
  {
    if n < 10 then [ZERO + n] else Digits(n / 10) + [ZERO + n % 10]
  }

  function Decimal(n: int): Text {
    if n < 0 then [MINUS] + Digits(-n) else Digits(n)
  }

  function Render(v: Value): (r: Text)
    requires Clean(v, {})
    decreases v, 1
  {
    match v
    case Null => Ascii("null")
    case Bool(b) => if b then Ascii("true") else Ascii("false")
    case Number(n) => Decimal(n)
    case String(s) => Quoted(s)
    case Array(items) => [LBRACKET] + RenderItems(items) + [RBRACKET]
    case Object(fields) => [LBRACE] + RenderFields(v, SortedKeys(fields.Keys)) + [RBRACE]
  }

  function RenderItems(items: seq<Value>): Text
    requires forall i | 0 <= i < |items| :: Clean(items[i], {})
    decreases items, 0
  {
    if items == [] then []
    else if |items| == 1 then Render(items[0])
    else Render(items[0]) + [COMMA] + RenderItems(items[1..])
  }

  /** The members of an object under the listed keys, in the listed order. */
  function RenderFields(v: Value, keys: seq<Text>): Text
    requires v.Object? && Clean(v, {}) && forall k | k in keys :: k in v.fields
    decreases v, 0, |keys|
  {
    if keys == [] then []
    else
      var member := Quoted(keys[0]) + [COLON] + Render(v.fields[keys[0]]);
      if |keys| == 1 then member else member + [COMMA] + RenderFields(v, keys[1..])
  }

  /** `canonicalJson`: no rendering for a value outside the limits. */
  ghost function CanonicalJson(v: Value, limits: Limits): Option<Text> {
    if Valid(v, limits) then Some(Render(v)) else None
  }

  // --------------------------------------------------------------------- parser

  /** A parse that failed, or a value with the cursor and the node counter after it. */
  datatype Parsed<+T> = Fail(error: Error) | Done(value: T, at: nat, nodes: nat)

  predicate Blank(c: int) { c == 0x20 || c == 0x09 || c == 0x0A || c == 0x0D }
  predicate Digit(c: int) { 0x30 <= c <= 0x39 }

  /** The code unit at a position, or -1 past the end. */
  function Peek(text: Text, at: nat): int {
    if at < |text| then text[at] else -1
  }

  function SkipBlanks(text: Text, at: nat): (r: nat)
    requires at <= |text|
    ensures at <= r <= |text|
    decreases |text| - at
  {
    if Blank(Peek(text, at)) then SkipBlanks(text, at + 1) else at
  }

  /** The position after the closing quote, scanning from inside a string literal. */
  function ScanString(text: Text, at: nat): (r: Option<nat>)
    ensures r.Some? ==> at < r.value <= |text| && text[r.value - 1] == QUOTE
    decreases if at < |text| then |text| - at else 0
  {
    if at >= |text| then None
    else if text[at] == QUOTE then Some(at + 1)
    else if text[at] == BACKSLASH then ScanString(text, at + 2)
    else if text[at] <= 0x1F then None
    else ScanString(text, at + 1)
  }

  function HexDigit(c: CodeUnit): Option<nat> {
    if 0x30 <= c <= 0x39 then Some(c - 0x30)
    else if 0x41 <= c <= 0x46 then Some(c - 0x37)
    else if 0x61 <= c <= 0x66 then Some(c - 0x57)
    else None
  }

  function HexQuad(s: Text): (r: Option<CodeUnit>)
    requires |s| == 4
  {
    var a, b, c, d := HexDigit(s[0]), HexDigit(s[1]), HexDigit(s[2]), HexDigit(s[3]);
    if a.Some? && b.Some? && c.Some? && d.Some? && a.value < 16 && b.value < 16 && c.value < 16 && d.value < 16
    then Some(((a.value * 16 + b.value) * 16 + c.value) * 16 + d.value) else None
  }

  /** A one-letter escape, as section 7 of RFC 8259 lists them. */
  function ShortEscape(c: CodeUnit): Option<CodeUnit> {
    if c == QUOTE || c == BACKSLASH || c == 0x2F then Some(c)
    else if c == 0x62 then Some(0x08)
    else if c == 0x66 then Some(0x0C)
    else if c == 0x6E then Some(0x0A)
    else if c == 0x72 then Some(0x0D)
    else if c == 0x74 then Some(0x09)
    else None
  }

  function Cons(c: CodeUnit, rest: Option<Text>): Option<Text> {
    match rest case None => None case Some(t) => Some([c] + t)
  }

  /** What the built-in JSON parser makes of the inside of a string literal. */
  function DecodeLiteral(body: Text): Option<Text> {
    if body == [] then Some([])
    else if body[0] == BACKSLASH then
      if |body| < 2 then None
      else if body[1] == 0x75 then
        if |body| < 6 then None
        else
          match HexQuad(body[2..6])
          case None => None
          case Some(c) => Cons(c, DecodeLiteral(body[6..]))
      else
        match ShortEscape(body[1])
        case None => None
        case Some(c) => Cons(c, DecodeLiteral(body[2..]))
    else if body[0] == QUOTE || body[0] <= 0x1F then None
    else Cons(body[0], DecodeLiteral(body[1..]))
  }

  /** The end of a run of digits. */
  function DigitsEnd(text: Text, at: nat): (r: nat)
    requires at <= |text|
    ensures at <= r <= |text|
    ensures forall i | at <= i < r :: Digit(text[i])
    ensures !Digit(Peek(text, r))
    decreases |text| - at
  {
    if Digit(Peek(text, at)) then DigitsEnd(text, at + 1) else at
  }

  function DigitsValue(s: Text): nat
    requires forall i | 0 <= i < |s| :: Digit(s[i])
  {
    if s == [] then 0
    else
      var last := s[|s| - 1];
      assert Digit(last);
      DigitsValue(s[..|s| - 1]) * 10 + (last - ZERO)
  }

  /** The end of the integer token at `at`: an optional minus, no leading zero, and nothing
      after it that would make it a longer number. */
  function NumberEnd(text: Text, at: nat): (r: Option<nat>)
    requires at <= |text|
    ensures r.Some? ==> at < r.value <= |text|
  {
    var start := if Peek(text, at) == MINUS then at + 1 else at;
    var end := DigitsEnd(text, start);
    var after := Peek(text, end);
    if end == start || (text[start] == ZERO && end > start + 1) || after == 0x2E || after == 0x65 || after == 0x45
    then None else Some(end)
  }

  function NumberValue(text: Text, at: nat): int
    requires at <= |text| && NumberEnd(text, at).Some?
  {
    var end := NumberEnd(text, at).value;
    if text[at] == MINUS then 0 - DigitsValue(text[at + 1..end]) else DigitsValue(text[at..end])
  }

  predicate Matches(text: Text, at: nat, part: Text) {
    at + |part| <= |text| && text[at..at + |part|] == part
  }

  function Put(fields: map<Text, Value>, key: Text, v: Value): map<Text, Value> {
    fields[key := v]
  }

  /** Everything one call of the parser holds fixed. */
  datatype Grammar = Grammar(text: Text, limits: Limits, allowed: set<CodeUnit>) {

    function ParseString(at: nat, isKey: bool, nodes: nat): (r: Parsed<Text>)
      ensures r.Done? ==> at < r.at <= |text| && r.nodes == nodes
      ensures r.Done? ==> StrictText(r.value, if isKey then {} else allowed)
    {
      if Peek(text, at) != QUOTE then Fail(Malformed)
      else
        match ScanString(text, at + 1)
        case None => Fail(Malformed)
        case Some(end) =>
          match DecodeLiteral(text[at + 1..end - 1])
          case None => Fail(Malformed)
          case Some(decoded) =>
            if StrictText(decoded, if isKey then {} else allowed) then Done(decoded, end, nodes)
            else Fail(ForbiddenText)
    }

    function ParseLiteral(at: nat, nodes: nat): (r: Parsed<Value>)
      requires at <= |text|
      ensures r.Done? ==> at < r.at <= |text| && r.nodes == nodes
    {
      if NumberEnd(text, at).Some? then
        var n := NumberValue(text, at);
        if n == 0 && text[at] == MINUS then Fail(Malformed)
        else if !SafeInteger(n) then Fail(UnsafeNumber)
        else Done(Number(n), NumberEnd(text, at).value, nodes)
      else if Matches(text, at, Ascii("true")) then Done(Bool(true), at + 4, nodes)
      else if Matches(text, at, Ascii("false")) then Done(Bool(false), at + 5, nodes)
      else if Matches(text, at, Ascii("null")) then Done(Null, at + 4, nodes)
      else Fail(Malformed)
    }

    function ParseValue(at: nat, depth: int, nodes: nat): (r: Parsed<Value>)
      requires at <= |text|
      ensures r.Done? ==> at < r.at <= |text|
      decreases |text| - at, 1
    {
      if depth > limits.maxDepth then Fail(TooDeep)
      else if nodes + 1 > limits.maxNodes then Fail(TooManyNodes)
      else
        var start := SkipBlanks(text, at);
        var c := Peek(text, start);
        if c == QUOTE then
          match ParseString(start, false, nodes + 1)
          case Fail(e) => Fail(e)
          case Done(s, a, n) => Done(String(s), a, n)
        else if c == LBRACE then
          var first := SkipBlanks(text, start + 1);
          if Peek(text, first) == RBRACE then Done(Object(map[]), first + 1, nodes + 1)
          else ParseMembers(first, depth, nodes + 1, map[])
        else if c == LBRACKET then
          var first := SkipBlanks(text, start + 1);
          if Peek(text, first) == RBRACKET then Done(Array([]), first + 1, nodes + 1)
          else ParseItems(first, depth, nodes + 1, [])
        else ParseLiteral(start, nodes + 1)
    }

    /** A key and its colon; a key already in the object is refused before its value is read. */
    function ParseKey(at: nat, nodes: nat, fields: map<Text, Value>): (r: Parsed<Text>)
      requires at <= |text|
      ensures r.Done? ==> at < r.at <= |text| && r.nodes == nodes && r.value !in fields && StrictText(r.value, {})
    {
      match ParseString(SkipBlanks(text, at), true, nodes)
      case Fail(e) => Fail(e)
      case Done(key, a, n) =>
        var colon := SkipBlanks(text, a);
        if Peek(text, colon) != COLON then Fail(Malformed)
        else if key in fields then Fail(Malformed)
        else Done(key, colon + 1, n)
    }

    /** The members from here to the closing brace, added to the ones already read. */
    function ParseMembers(at: nat, depth: int, nodes: nat, fields: map<Text, Value>): (r: Parsed<Value>)
      requires at <= |text|
      ensures r.Done? ==> at < r.at <= |text|
      decreases |text| - at, 0
    {
      match ParseKey(at, nodes, fields)
      case Fail(e) => Fail(e)
      case Done(key, a, _) =>
        match ParseValue(a, depth + 1, nodes)
        case Fail(e) => Fail(e)
        case Done(v, b, n) =>
          var next := SkipBlanks(text, b);
          if Peek(text, next) == RBRACE then Done(Object(Put(fields, key, v)), next + 1, n)
          else if Peek(text, next) != COMMA then Fail(Malformed)
          else ParseMembers(next + 1, depth, n, Put(fields, key, v))
    }

    /** The items from here to the closing bracket, added to the ones already read. */
    function ParseItems(at: nat, depth: int, nodes: nat, items: seq<Value>): (r: Parsed<Value>)
      requires at <= |text|
      ensures r.Done? ==> at < r.at <= |text|
      decreases |text| - at, 2
    {
      match ParseValue(at, depth + 1, nodes)
      case Fail(e) => Fail(e)
      case Done(v, a, n) =>
        var next := SkipBlanks(text, a);
        if Peek(text, next) == RBRACKET then Done(Array(items + [v]), next + 1, n)
        else if Peek(text, next) != COMMA then Fail(Malformed)
        else ParseItems(next + 1, depth, n, items + [v])
    }
  }

  /** `parseStrictJson`. */
  function ParseStrictJson(text: Text, limits: Limits, allowed: set<CodeUnit>): Result<Value, Error> {
    if |Utf8(text)| > limits.maxBytes then Err(TooManyBytes)
    else
      match Grammar(text, limits, allowed).ParseValue(0, 0, 0)
      case Fail(e) => Err(e)
      case Done(v, at, _) => if SkipBlanks(text, at) == |text| then Ok(v) else Err(Malformed)
  }

  /** `parseStrictJsonBytes`: no byte-order mark, and valid UTF-8 throughout. */
  function ParseStrictJsonBytes(bytes: seq<Byte>, limits: Limits, allowed: set<CodeUnit>): Result<Value, Error> {
    if |bytes| > limits.maxBytes then Err(TooManyBytes)
    else if [0xEF, 0xBB, 0xBF] <= bytes then Err(Malformed)
    else
      match DecodeUtf8(bytes)
      case None => Err(Malformed)
      case Some(text) => ParseStrictJson(text, limits, allowed)
  }

  /** `parseCanonicalJsonBytes`: the bytes must also be the rendering of what they say. */
  ghost function ParseCanonicalJsonBytes(bytes: seq<Byte>, limits: Limits): Result<Value, Error> {
    match ParseStrictJsonBytes(bytes, limits, {})
    case Err(e) => Err(e)
    case Ok(v) =>
      match CanonicalJson(v, limits)
      case None => Err(NotCanonical)
      case Some(text) => if bytes == Utf8(text) then Ok(v) else Err(NotCanonical)
  }
}
