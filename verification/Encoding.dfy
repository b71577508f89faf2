/**
 Text as JavaScript holds it (a sequence of UTF-16 code units), its UTF-8 encoding,
 the fatal UTF-8 decoder, strict text, and byte-wise lexicographic order.
 */
module Encoding {

  type CodeUnit = c: int | 0 <= c < 0x1_0000
  type Byte = b: int | 0 <= b < 0x100
  type Text = seq<CodeUnit>

  datatype Option<+T> = None | Some(value: T)
  datatype Result<+T, +E> = Ok(value: T) | Err(error: E)

  /** The largest integer a JavaScript number counts exactly. */
  const MAX_SAFE_INTEGER := 9007199254740991

  predicate SafeInteger(n: int) {
    -MAX_SAFE_INTEGER <= n <= MAX_SAFE_INTEGER
  }

  predicate Positive(n: int) {
    1 <= n <= MAX_SAFE_INTEGER
  }

  predicate NonNegative(n: int) {
    0 <= n <= MAX_SAFE_INTEGER
  }

  predicate Printable(s: Text) {
    forall i | 0 <= i < |s| :: 0x20 <= s[i] < 0x7F
  }

  predicate LowerHex(c: CodeUnit) { 0x30 <= c <= 0x39 || 0x61 <= c <= 0x66 }

  /** Sixty-four lower-case hexadecimal digits. */
  predicate Hex64(s: Text) {
    |s| == 64 && forall i | 0 <= i < |s| :: LowerHex(s[i])
  }

  /** A printable ASCII literal as text. */
  function Ascii(s: string): (t: Text)
    requires forall i | 0 <= i < |s| :: 0x20 <= s[i] as int < 0x7F
    ensures |t| == |s|
    ensures Printable(t)
    ensures forall i | 0 <= i < |s| :: t[i] == s[i] as int
  {
    seq<CodeUnit>(|s|, i requires 0 <= i < |s| => s[i] as int)
  }

  // ---------------------------------------------------------------- surrogates

  predicate High(c: CodeUnit) { 0xD800 <= c <= 0xDBFF }
  predicate Low(c: CodeUnit) { 0xDC00 <= c <= 0xDFFF }
  predicate Surrogate(c: CodeUnit) { 0xD800 <= c <= 0xDFFF }

  /** The text starts with a surrogate pair. */
  predicate PairAhead(s: Text) {
    |s| >= 2 && High(s[0]) && Low(s[1])
  }

  /** How many code units the first character of a nonempty text takes. */
  function Width(s: Text): (n: nat)
    requires s != []
    ensures 1 <= n <= |s|
  {
    if PairAhead(s) then 2 else 1
  }

  predicate WellFormed(s: Text) {
    s == [] || ((PairAhead(s) || !Surrogate(s[0])) && WellFormed(s[Width(s)..]))
  }

  /** The control characters that strict text keeps out. */
  predicate Forbidden(c: CodeUnit) {
    c <= 0x1F || 0x7F <= c <= 0x9F || c == 0x2028 || c == 0x2029
  }

  /** Well-formed text whose control characters are all among the allowed ones. */
  predicate StrictText(s: Text, allowed: set<CodeUnit>) {
    WellFormed(s) && forall i | 0 <= i < |s| :: Forbidden(s[i]) ==> s[i] in allowed
  }

  /** The scan of `assertStrictText`, which steps over the second half of a pair. */
  method AssertStrictText(value: Text, allowed: set<CodeUnit>) returns (ok: bool)
    ensures ok == StrictText(value, allowed)
  {
    var index := 0;
    while index < |value|
      invariant 0 <= index <= |value|
      invariant forall i | 0 <= i < index :: Forbidden(value[i]) ==> value[i] in allowed
      invariant WellFormed(value[index..]) == WellFormed(value)
    {
      var code := value[index];
      assert value[index..][0] == code;
      if Forbidden(code) && code !in allowed {
        return false;
      }
      if Surrogate(code) {
        if High(code) && index + 1 < |value| && Low(value[index + 1]) {
          assert value[index..][2..] == value[index + 2..];
          assert !Forbidden(value[index + 1]);
          index := index + 1;
        } else {
          assert !WellFormed(value[index..]);
          return false;
        }
      } else {
        assert value[index..][1..] == value[index + 1..];
      }
      index := index + 1;
    }
    assert value[index..] == [];
    return true;
  }

  // --------------------------------------------------------------------- UTF-8

  /** The scalar value of a surrogate pair. */
  function PairScalar(h: CodeUnit, l: CodeUnit): (cp: int)
    requires High(h) && Low(l)
    ensures 0x1_0000 <= cp <= 0x10_FFFF
  {
    0x1_0000 + (h - 0xD800) * 0x400 + (l - 0xDC00)
  }

  // Base-64 place values of a scalar, lowest first.
  function Sextet(n: int): (d: int)
    ensures 0 <= d < 0x40
  {
    n % 0x40
  }

  function Scalar2(a: int, b: int): int { a * 0x40 + b }
  function Scalar3(a: int, b: int, c: int): int { Scalar2(a, b) * 0x40 + c }
  function Scalar4(a: int, b: int, c: int, d: int): int { Scalar3(a, b, c) * 0x40 + d }

  function Encode2(c: int): (b: seq<Byte>)
    requires 0x80 <= c < 0x800
    ensures |b| == 2 && 0xC2 <= b[0] < 0xE0 && Continuation(b[1]) && Scalar2(b[0] - 0xC0, b[1] - 0x80) == c
  {
    [0xC0 + c / 0x40, 0x80 + Sextet(c)]
  }

  function Encode3(c: int): (b: seq<Byte>)
    requires 0x800 <= c < 0x1_0000
    ensures |b| == 3 && 0xE0 <= b[0] < 0xF0 && Continuation(b[1]) && Continuation(b[2])
    ensures Scalar3(b[0] - 0xE0, b[1] - 0x80, b[2] - 0x80) == c
  {
    [0xE0 + c / 0x40 / 0x40, 0x80 + Sextet(c / 0x40), 0x80 + Sextet(c)]
  }

  function Encode4(cp: int): (b: seq<Byte>)
    requires 0x1_0000 <= cp <= 0x10_FFFF
    ensures |b| == 4 && 0xF0 <= b[0] < 0xF5 && Continuation(b[1]) && Continuation(b[2]) && Continuation(b[3])
    ensures Scalar4(b[0] - 0xF0, b[1] - 0x80, b[2] - 0x80, b[3] - 0x80) == cp
  {
    [0xF0 + cp / 0x40 / 0x40 / 0x40, 0x80 + Sextet(cp / 0x40 / 0x40), 0x80 + Sextet(cp / 0x40), 0x80 + Sextet(cp)]
  }

  /** UTF-8 of one code unit that is not a surrogate. */
  function EncodeUnit(c: CodeUnit): (b: seq<Byte>)
    ensures 1 <= |b| <= 3
  {
    if c < 0x80 then [c] else if c < 0x800 then Encode2(c) else Encode3(c)
  }

  /** UTF-8 of the first character; an unpaired surrogate becomes U+FFFD. */
  function EncodeHead(s: Text): (b: seq<Byte>)
    requires s != []
    ensures 1 <= |b| <= 4
  {
    if PairAhead(s) then Encode4(PairScalar(s[0], s[1]))
    else EncodeUnit(if Surrogate(s[0]) then 0xFFFD else s[0])
  }

  function Utf8(s: Text): (b: seq<Byte>) {
    if s == [] then [] else EncodeHead(s) + Utf8(s[Width(s)..])
  }

  /** `Buffer.byteLength`, counted without encoding. */
  function ByteLength(s: Text): nat {
    if s == [] then 0
    else if PairAhead(s) then 4 + ByteLength(s[2..])
    else (if s[0] < 0x80 then 1 else if s[0] < 0x800 then 2 else 3) + ByteLength(s[1..])
  }

  lemma {:induction false} ByteLengthIs(s: Text)
    ensures ByteLength(s) == |Utf8(s)|
  {
    if s != [] { ByteLengthIs(s[Width(s)..]); }
  }

  /** The surrogate pair of a supplementary scalar value. */
  function PairUnits(cp: int): (s: Text)
    requires 0x1_0000 <= cp <= 0x10_FFFF
    ensures PairAhead(s) && |s| == 2 && PairScalar(s[0], s[1]) == cp
  {
    [0xD800 + (cp - 0x1_0000) / 0x400, 0xDC00 + (cp - 0x1_0000) % 0x400]
  }

  lemma PairUnique(h: CodeUnit, l: CodeUnit, h': CodeUnit, l': CodeUnit)
    requires High(h) && Low(l) && High(h') && Low(l') && PairScalar(h, l) == PairScalar(h', l')
    ensures h == h' && l == l'
  {}

  predicate Continuation(b: Byte) { 0x80 <= b < 0xC0 }

  datatype DecodedHead = Invalid | Head(units: Text, size: nat)

  /** The first character of a byte sequence and the bytes it takes, if those bytes are
      well-formed UTF-8: shortest form, no surrogate, nothing above U+10FFFF. */
  function DecodeHead(b: seq<Byte>): (r: DecodedHead)
    requires b != []
    ensures r.Head? ==> 1 <= r.size <= |b| && r.units != []
  {
    if b[0] < 0x80 then Head([b[0]], 1)
    else if 0xC2 <= b[0] < 0xE0 then
      if |b| >= 2 && Continuation(b[1]) then
        Head([Scalar2(b[0] - 0xC0, b[1] - 0x80)], 2)
      else Invalid
    else if 0xE0 <= b[0] < 0xF0 then
      if |b| >= 3 && Continuation(b[1]) && Continuation(b[2]) then
        var c := Scalar3(b[0] - 0xE0, b[1] - 0x80, b[2] - 0x80);
        if c < 0x800 || Surrogate(c) then Invalid else Head([c], 3)
      else Invalid
    else if 0xF0 <= b[0] < 0xF5 then
      if |b| >= 4 && Continuation(b[1]) && Continuation(b[2]) && Continuation(b[3]) then
        var cp := Scalar4(b[0] - 0xF0, b[1] - 0x80, b[2] - 0x80, b[3] - 0x80);
        if cp < 0x1_0000 || cp > 0x10_FFFF then Invalid else Head(PairUnits(cp), 4)
      else Invalid
    else Invalid
  }

  /** The fatal decoder: all of the bytes, or nothing. */
  function DecodeUtf8(b: seq<Byte>): (r: Option<Text>) {
    if b == [] then Some([])
    else
      match DecodeHead(b)
      case Invalid => None
      case Head(units, n) =>
        match DecodeUtf8(b[n..])
        case None => None
        case Some(rest) => Some(units + rest)
  }

  lemma DecodeUnit(c: CodeUnit, tail: seq<Byte>)
    requires !Surrogate(c)
    ensures DecodeHead(EncodeUnit(c) + tail) == Head([c], |EncodeUnit(c)|)
  {
    hide Encode2, Encode3, Encode4, PairUnits;
    var b := EncodeUnit(c);
    assert (b + tail)[0] == b[0];
    if |b| >= 2 { assert (b + tail)[1] == b[1]; }
    if |b| >= 3 { assert (b + tail)[2] == b[2]; }
  }

  lemma DecodePair(h: CodeUnit, l: CodeUnit, tail: seq<Byte>)
    requires High(h) && Low(l)
    ensures DecodeHead(Encode4(PairScalar(h, l)) + tail) == Head([h, l], 4)
  {
    hide Encode2, Encode3, Encode4, PairUnits;
    var b := Encode4(PairScalar(h, l));
    assert (b + tail)[0] == b[0] && (b + tail)[1] == b[1] && (b + tail)[2] == b[2] && (b + tail)[3] == b[3];
    var units := PairUnits(PairScalar(h, l));
    PairUnique(h, l, units[0], units[1]);
    assert units == [h, l];
  }

  lemma DecodeEncodeHead(s: Text, tail: seq<Byte>)
    requires s != [] && (PairAhead(s) || !Surrogate(s[0]))
    ensures DecodeHead(EncodeHead(s) + tail) == Head(s[..Width(s)], |EncodeHead(s)|)
  {
    hide DecodeHead, Encode4, EncodeUnit;
    if PairAhead(s) {
      DecodePair(s[0], s[1], tail);
      assert s[..2] == [s[0], s[1]];
    } else {
      DecodeUnit(s[0], tail);
      assert s[..1] == [s[0]];
    }
  }

  /** Decoding undoes encoding on well-formed text. */
  lemma {:induction false} DecodeEncode(s: Text)
    requires WellFormed(s)
    ensures DecodeUtf8(Utf8(s)) == Some(s)
  {
    if s != [] {
      var rest := s[Width(s)..];
      DecodeEncodeHead(s, Utf8(rest));
      DecodeEncode(rest);
      assert (EncodeHead(s) + Utf8(rest))[|EncodeHead(s)|..] == Utf8(rest);
      assert s[..Width(s)] + rest == s;
    }
  }

  lemma Sextets2(a: int, b: int, x: int, y: int)
    requires 0 <= b < 0x40 && 0 <= y < 0x40 && Scalar2(a, b) == Scalar2(x, y)
    ensures a == x && b == y
  {}

  lemma Sextets3(a: int, b: int, c: int, x: int, y: int, z: int)
    requires 0 <= b < 0x40 && 0 <= c < 0x40 && 0 <= y < 0x40 && 0 <= z < 0x40 && Scalar3(a, b, c) == Scalar3(x, y, z)
    ensures a == x && b == y && c == z
  {
    Sextets2(Scalar2(a, b), c, Scalar2(x, y), z);
    Sextets2(a, b, x, y);
  }

  lemma Sextets4(a: int, b: int, c: int, d: int, x: int, y: int, z: int, w: int)
    requires 0 <= b < 0x40 && 0 <= c < 0x40 && 0 <= d < 0x40 && 0 <= y < 0x40 && 0 <= z < 0x40 && 0 <= w < 0x40
    requires Scalar4(a, b, c, d) == Scalar4(x, y, z, w)
    ensures a == x && b == y && c == z && d == w
  {
    hide Scalar3;
    Sextets2(Scalar3(a, b, c), d, Scalar3(x, y, z), w);
    Sextets3(a, b, c, x, y, z);
  }

  lemma EncodeDecodeHead(b: seq<Byte>, tail: Text)
    requires b != [] && DecodeHead(b).Head?
    ensures var Head(units, n) := DecodeHead(b);
            && (PairAhead(units) || (|units| == 1 && !Surrogate(units[0])))
            && EncodeHead(units + tail) == b[..n]
            && Width(units + tail) == |units|
  {
    hide Encode2, Encode3, Encode4, PairUnits, Scalar2, Scalar3, Scalar4;
    var Head(units, n) := DecodeHead(b);
    assert (units + tail)[0] == units[0];
    if n == 4 {
      var cp := Scalar4(b[0] - 0xF0, b[1] - 0x80, b[2] - 0x80, b[3] - 0x80);
      var e := Encode4(cp);
      assert (units + tail)[1] == units[1];
      Sextets4(b[0] - 0xF0, b[1] - 0x80, b[2] - 0x80, b[3] - 0x80, e[0] - 0xF0, e[1] - 0x80, e[2] - 0x80, e[3] - 0x80);
      assert b[..4] == e;
    } else if n == 3 {
      var e := Encode3(units[0]);
      Sextets3(b[0] - 0xE0, b[1] - 0x80, b[2] - 0x80, e[0] - 0xE0, e[1] - 0x80, e[2] - 0x80);
      assert b[..3] == e;
    } else if n == 2 {
      TwoByteRange(b[0], b[1]);
      var e := Encode2(units[0]);
      Sextets2(b[0] - 0xC0, b[1] - 0x80, e[0] - 0xC0, e[1] - 0x80);
      assert b[..2] == e;
    } else {
      assert b[..1] == [b[0]];
    }
  }

  lemma TwoByteRange(a: Byte, b: Byte)
    requires 0xC2 <= a < 0xE0 && Continuation(b)
    ensures 0x80 <= Scalar2(a - 0xC0, b - 0x80) < 0x800
  {}

  /** Whatever the decoder accepts is well-formed text and encodes back to the same bytes. */
  lemma {:induction false} EncodeDecode(b: seq<Byte>)
    requires DecodeUtf8(b).Some?
    ensures WellFormed(DecodeUtf8(b).value) && Utf8(DecodeUtf8(b).value) == b
  {
    if b != [] {
      var Head(units, n) := DecodeHead(b);
      var rest := DecodeUtf8(b[n..]).value;
      EncodeDecode(b[n..]);
      EncodeDecodeHead(b, rest);
      assert (units + rest)[|units|..] == rest;
      assert b[..n] + b[n..] == b;
    }
  }

  /** Two well-formed texts with the same bytes are the same text. */
  lemma Utf8Injective(s: Text, t: Text)
    requires WellFormed(s) && WellFormed(t) && Utf8(s) == Utf8(t)
    ensures s == t
  {
    DecodeEncode(s);
    DecodeEncode(t);
  }

  // --------------------------------------------------------------------- order

  /** Strict lexicographic order, as `Buffer.compare` and `<` on strings give it. */
  predicate LexLess(a: seq<int>, b: seq<int>) {
    if b == [] then false
    else if a == [] then true
    else a[0] < b[0] || (a[0] == b[0] && LexLess(a[1..], b[1..]))
  }

  lemma {:induction false} LexTotal(a: seq<int>, b: seq<int>)
    ensures LexLess(a, b) || LexLess(b, a) || a == b
    ensures !(LexLess(a, b) && LexLess(b, a))
    ensures a == b ==> !LexLess(a, b)
  {
    if a != [] && b != [] {
      LexTotal(a[1..], b[1..]);
      assert a == [a[0]] + a[1..] && b == [b[0]] + b[1..];
    }
  }

  lemma {:induction false} LexTransitive(a: seq<int>, b: seq<int>, c: seq<int>)
    requires LexLess(a, b) && LexLess(b, c)
    ensures LexLess(a, c)
  {
    if a != [] && a[0] == b[0] == c[0] {
      LexTransitive(a[1..], b[1..], c[1..]);
    }
  }

  predicate Utf8Less(a: Text, b: Text) {
    LexLess(Utf8(a), Utf8(b))
  }

  predicate Least(k: Text, ks: set<Text>) {
    k in ks && forall o | o in ks :: o == k || Utf8Less(k, o)
  }

  /** A nonempty finite set of well-formed texts has a least element in byte order. */
  lemma {:induction false} LeastExists(ks: set<Text>)
    requires ks != {} && forall s | s in ks :: WellFormed(s)
    ensures exists k :: Least(k, ks)
    decreases |ks|
  {
    var x :| x in ks;
    var others := ks - {x};
    if others == {} {
      assert ks == {x};
      assert Least(x, ks);
    } else {
      LeastExists(others);
      var y :| Least(y, others);
      LexTotal(Utf8(x), Utf8(y));
      if Utf8(x) == Utf8(y) { Utf8Injective(x, y); }
      if Utf8Less(x, y) {
        forall o | o in ks && o != x ensures Utf8Less(x, o) {
          assert o in others;
          if o != y { LexTransitive(Utf8(x), Utf8(y), Utf8(o)); }
        }
        assert Least(x, ks);
      } else {
        assert Least(y, ks);
      }
    }
  }

  lemma LeastUnique(ks: set<Text>)
    ensures forall k, l :: Least(k, ks) && Least(l, ks) ==> k == l
  {
    forall k, l | Least(k, ks) && Least(l, ks) ensures k == l {
      LexTotal(Utf8(k), Utf8(l));
    }
  }

  predicate StrictlyIncreasing(ks: seq<Text>) {
    forall i, j | 0 <= i < j < |ks| :: Utf8Less(ks[i], ks[j])
  }

  /** The keys of an object in the order `sort(utf8Compare)` leaves them. */
  function SortedKeys(ks: set<Text>): (r: seq<Text>)
    requires forall s | s in ks :: WellFormed(s)
    ensures StrictlyIncreasing(r)
    ensures forall k :: k in ks <==> k in r
    decreases |ks|
  {
    if ks == {} then []
    else
      LeastExists(ks);
      LeastUnique(ks);
      var k :| k in ks && Least(k, ks);
      PrependLeast(ks, k, SortedKeys(ks - {k}));
      [k] + SortedKeys(ks - {k})
  }

  /** Every key is listed once. */
  lemma {:induction false} SortedLength(ks: set<Text>)
    requires forall s | s in ks :: WellFormed(s)
    ensures |SortedKeys(ks)| == |ks|
    decreases |ks|
  {
    hide LexLess, Utf8;
    if ks != {} {
      var r := SortedKeys(ks);
      var k := r[0];
      assert Least(k, ks) && r == [k] + SortedKeys(ks - {k}) by {
        LeastExists(ks);
        LeastUnique(ks);
      }
      SortedLength(ks - {k});
    }
  }

  lemma PrependLeast(ks: set<Text>, k: Text, rest: seq<Text>)
    requires Least(k, ks) && StrictlyIncreasing(rest)
    requires forall o :: o in ks - {k} <==> o in rest
    ensures StrictlyIncreasing([k] + rest)
    ensures forall o :: o in ks <==> o in [k] + rest
  {
    var r := [k] + rest;
    forall i, j | 0 <= i < j < |r| ensures Utf8Less(r[i], r[j]) {
      assert r[j] == rest[j - 1] && r[j] in rest;
    }
    forall o ensures o in ks <==> o in r {
      assert o in r <==> o == k || o in rest;
    }
  }

  /** Being in byte order pins the enumeration: no other order of the keys is increasing. */
  lemma {:induction false} SortedUnique(r: seq<Text>, s: seq<Text>)
    requires StrictlyIncreasing(r) && StrictlyIncreasing(s)
    requires forall k :: k in r <==> k in s
    ensures r == s
  {
    hide LexLess, Utf8;
    assert s != [] ==> s[0] in r;
    if r != [] {
      assert r[0] in s;
      var i :| 0 <= i < |s| && s[i] == r[0];
      var j :| 0 <= j < |r| && r[j] == s[0];
      if i > 0 && j > 0 { LexTotal(Utf8(r[0]), Utf8(s[0])); }
      assert r[0] == s[0];
      forall k ensures k in r[1..] <==> k in s[1..] {
        LexTotal(Utf8(k), Utf8(r[0]));
        assert k in r <==> k == r[0] || k in r[1..];
        assert k in s <==> k == s[0] || k in s[1..];
      }
      SortedUnique(r[1..], s[1..]);
      assert r == [r[0]] + r[1..] && s == [s[0]] + s[1..];
    }
  }

  // ----------------------------------------------------------- splitting and joining

  /** `String.split` at one code unit: always at least one part. */
  function Split(text: Text, sep: CodeUnit): (r: seq<Text>)
    ensures |r| >= 1
  {
    if text == [] then [[]]
    else
      var rest := Split(text[1..], sep);
      if text[0] == sep then [[]] + rest else [[text[0]] + rest[0]] + rest[1..]
  }

  function Join(parts: seq<Text>, sep: CodeUnit): Text {
    if parts == [] then []
    else if |parts| == 1 then parts[0]
    else parts[0] + [sep] + Join(parts[1..], sep)
  }

  /** Splitting loses nothing. */
  lemma {:induction false} JoinSplit(text: Text, sep: CodeUnit)
    ensures Join(Split(text, sep), sep) == text
  {
    if text != [] {
      var rest := Split(text[1..], sep);
      JoinSplit(text[1..], sep);
      assert text == [text[0]] + text[1..];
      if text[0] == sep {
        assert ([[]] + rest)[1..] == rest;
      } else {
        var r := [[text[0]] + rest[0]] + rest[1..];
        assert r[1..] == rest[1..];
      }
    }
  }

  /** No part of a split holds the separator. */
  lemma {:induction false} SplitParts(text: Text, sep: CodeUnit)
    ensures forall i | 0 <= i < |Split(text, sep)| :: sep !in Split(text, sep)[i]
  {
    if text != [] { SplitParts(text[1..], sep); }
  }

  lemma {:induction false} SplitFirst(head: Text, tail: Text, sep: CodeUnit)
    requires sep !in head
    ensures Split(head + [sep] + tail, sep) == [head] + Split(tail, sep)
    ensures Split(head, sep) == [head]
  {
    var text := head + [sep] + tail;
    if head == [] {
      assert text[1..] == tail;
    } else {
      SplitFirst(head[1..], tail, sep);
      assert text[1..] == head[1..] + [sep] + tail;
      assert head == [head[0]] + head[1..];
    }
  }

  /** Joining and splitting again gives the parts back. */
  lemma {:induction false} SplitJoin(parts: seq<Text>, sep: CodeUnit)
    requires |parts| >= 1 && forall i | 0 <= i < |parts| :: sep !in parts[i]
    ensures Split(Join(parts, sep), sep) == parts
    decreases |parts|
  {
    var head := parts[0];
    assert sep !in head;
    if |parts| == 1 {
      SplitFirst(head, [], sep);
    } else {
      var rest := parts[1..];
      assert parts == [head] + rest;
      assert Join(parts, sep) == head + [sep] + Join(rest, sep);
      SplitJoin(rest, sep);
      hide Split, Join;
      SplitFirst(head, Join(rest, sep), sep);
    }
  }
}
