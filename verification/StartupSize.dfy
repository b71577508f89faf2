/** How long the line of a startup-observation event can be. */
module StartupSize {
  import opened Encoding
  import opened StrictJson
  import opened StartupEvent

  // ----------------------------------------------------------------- sizes of scalars

  lemma {:induction false} EscapeSize(s: Text)
    ensures |Escape(s)| <= 2 * |s|
  {
    if s != [] { EscapeSize(s[1..]); }
  }

  function Power(k: nat): nat {
    if k == 0 then 1 else 10 * Power(k - 1)
  }

  lemma {:induction false} DigitsSize(n: nat, k: nat)
    requires 0 < k && n < Power(k)
    ensures |Digits(n)| <= k
  {
    if n >= 10 { DigitsSize(n / 10, k - 1); }
  }

  lemma NumberSize(n: int)
    requires SafeInteger(n)
    ensures |Decimal(n)| <= 17
  {
    hide Digits;
    assert Power(2) == 100 && Power(4) == 100 * Power(2) && Power(6) == 100 * Power(4) && Power(8) == 100 * Power(6);
    assert Power(10) == 100 * Power(8) && Power(12) == 100 * Power(10) && Power(14) == 100 * Power(12) && Power(16) == 100 * Power(14);
    DigitsSize(if n < 0 then -n else n, 16);
  }

  lemma {:induction false} Utf8Size(s: Text)
    ensures |Utf8(s)| <= 3 * |s|
  {
    if s != [] { Utf8Size(s[Width(s)..]); }
  }

  /** A scalar whose text, if it is one, has at most `n` units. */
  predicate Small(v: Value, n: nat) {
    v.Null? || v.Number? || (v.String? && |v.s| <= n)
  }

  lemma SmallSize(v: Value, n: nat)
    requires Clean(v, {}) && Small(v, n) && n >= 8
    ensures |Render(v)| <= 2 * n + 2
  {
    hide Escape, Decimal;
    match v
    case Null =>
    case Number(i) => NumberSize(i);
    case String(s) => EscapeSize(s);
  }

  // ----------------------------------------------------------------- sizes of objects

  ghost predicate Distinct(keys: seq<Text>) {
    forall i, j | 0 <= i < j < |keys| :: keys[i] != keys[j]
  }

  lemma SortedDistinct(keys: seq<Text>)
    requires StrictlyIncreasing(keys)
    ensures Distinct(keys)
  {
    hide LexLess, Utf8;
    forall i, j | 0 <= i < j < |keys| ensures keys[i] != keys[j] {
      LexTotal(Utf8(keys[i]), Utf8(keys[j]));
    }
  }

  /** A bound for one member with its separators. */
  ghost predicate MemberWithin(v: Value, k: Text, w: nat)
    requires v.Object? && Clean(v, {}) && k in v.fields
  {
    |Quoted(k)| + |Render(v.fields[k])| + 2 <= w
  }

  /** Members of at most `w`, but one that may take `x` more. */
  lemma {:induction false} FieldsSize(v: Value, keys: seq<Text>, w: nat, big: Text, x: nat)
    requires v.Object? && Clean(v, {}) && (forall k | k in keys :: k in v.fields) && Distinct(keys)
    requires forall k | k in keys :: MemberWithin(v, k, if k == big then w + x else w)
    ensures |RenderFields(v, keys)| <= |keys| * w + (if big in keys then x else 0)
    decreases |keys|
  {
    hide Clean, Render, RenderFields, MemberWithin;
    if keys == [] {
      NoFields(v);
    } else {
      var k, rest := keys[0], keys[1..];
      RestDistinct(keys);
      hide Distinct;
      FirstField(v, keys, if k == big then w + x else w);
      FieldsSize(v, rest, w, big, x);
      Product(|keys|, w);
    }
  }

  lemma NoFields(v: Value)
    requires v.Object? && Clean(v, {})
    ensures RenderFields(v, []) == []
  {}

  lemma FirstField(v: Value, keys: seq<Text>, w: nat)
    requires v.Object? && Clean(v, {}) && (forall k | k in keys :: k in v.fields)
    requires keys != [] && MemberWithin(v, keys[0], w)
    ensures |RenderFields(v, keys)| <= w + |RenderFields(v, keys[1..])|
  {
    hide Quoted, Render;
  }

  lemma RestDistinct(keys: seq<Text>)
    requires keys != [] && Distinct(keys)
    ensures Distinct(keys[1..]) && keys[0] !in keys[1..]
    ensures forall k :: k in keys <==> k == keys[0] || k in keys[1..]
  {
    assert keys == [keys[0]] + keys[1..];
  }

  lemma Product(n: nat, w: nat)
    requires n > 0
    ensures n * w == w + (n - 1) * w
  {}

  lemma ObjectSize(v: Value, w: nat, big: Text, x: nat)
    requires v.Object? && Clean(v, {})
    requires forall k | k in v.fields :: MemberWithin(v, k, if k == big then w + x else w)
    ensures |Render(v)| <= |v.fields.Keys| * w + x + 2
  {
    hide RenderFields, MemberWithin, SortedKeys, StrictlyIncreasing;
    assert forall k | k in v.fields.Keys :: WellFormed(k);
    var keys := SortedKeys(v.fields.Keys);
    SortedDistinct(keys);
    SortedLength(v.fields.Keys);
    FieldsSize(v, keys, w, big, x);
  }

  lemma SmallMember(v: Value, k: Text, keySize: nat, n: nat)
    requires v.Object? && Clean(v, {}) && k in v.fields && |k| <= keySize && Small(v.fields[k], n) && n >= 8
    ensures MemberWithin(v, k, 2 * keySize + 2 * n + 6)
  {
    hide Escape, Render;
    EscapeSize(k);
    assert Clean(v.fields[k], {});
    SmallSize(v.fields[k], n);
  }

  // -------------------------------------------------------------------- events

  const KEY_SIZE: nat := 31

  /** The texts of a state are words or fingerprints. */
  predicate ShortTexts(s: State) {
    match s
    case BotState(listener, discord, expectedSet, _, connectedSet, _) =>
      |listener| <= 64 && |discord| <= 64 && |expectedSet| <= 64 && |connectedSet| <= 64
    case DaemonState(target, _, _, _, registration) => |target| <= 64 && |registration| <= 64
  }

  lemma StateTexts(s: State)
    requires ValidState(s)
    ensures ShortTexts(s)
  {
    hide LowerHex;
  }

  ghost function StateValues(s: State): set<Value> {
    match s
    case BotState(listener, discord, expectedSet, expectedCount, connectedSet, connectedCount) =>
      {String(listener), String(discord), String(expectedSet), Number(expectedCount), String(connectedSet), Number(connectedCount)}
    case DaemonState(target, connection, attempted, accepted, registration) =>
      {String(target), Number(connection), Nullable(attempted), Nullable(accepted), String(registration)}
  }

  lemma StateMembers(s: State)
    ensures forall k | k in StateJson(s).fields :: StateJson(s).fields[k] in StateValues(s)
  {}

  lemma StateKeys()
    ensures forall k | k in BOT_KEYS :: |k| <= KEY_SIZE
    ensures forall k | k in DAEMON_KEYS :: |k| <= KEY_SIZE
  {}

  lemma ValuesSmall(s: State)
    requires ShortTexts(s)
    ensures forall v | v in StateValues(s) :: Small(v, 64)
  {}

  lemma StateSmall(s: State)
    requires ValidState(s)
    ensures forall k | k in StateJson(s).fields :: |k| <= KEY_SIZE && Small(StateJson(s).fields[k], 64)
  {
    hide ValidState, StateJson, StateValues, Small, ShortTexts;
    StateTexts(s);
    StateMembers(s);
    StateScalars(s);
    StateKeys();
    ValuesSmall(s);
  }

  lemma StateSize(s: State)
    requires ValidState(s)
    ensures Clean(StateJson(s), {}) && |Render(StateJson(s))| <= 1178
  {
    hide Clean, Render, MemberWithin, Small, StateJson, ValidState, Nodes, DepthWithin;
    var v := StateJson(s);
    StateJsonValid(s);
    StateScalars(s);
    StateSmall(s);
    forall k | k in v.fields ensures MemberWithin(v, k, 196) { SmallMember(v, k, KEY_SIZE, 64); }
    FewKeys();
    hide BOT_KEYS, DAEMON_KEYS;
    ObjectSize(v, 196, [], 0);
  }

  lemma FewKeys()
    ensures |BOT_KEYS| <= 6 && |DAEMON_KEYS| <= 6
  {}

  lemma SiblingsSmall(e: Event)
    requires ValidEvent(e)
    ensures forall v | v in Siblings(e) :: Small(v, 97)
    ensures forall k | k in EVENT_KEYS :: |k| <= KEY_SIZE
  {
    hide ValidState;
  }

  /** The byte limit of an event never refuses one that is otherwise valid. */
  lemma EventFits(e: Event)
    requires ValidEvent(e)
    ensures |EventBytes(e)| <= EVENT_BYTES
  {
    hide Clean, Render, MemberWithin, Small, EventJson, StateJson, ValidState, Nodes, DepthWithin, Utf8, Siblings, Hex64, ServiceKey;
    var v := EventJson(e);
    EventJsonValid(e);
    EventFields(e);
    EventSiblings(e);
    SiblingsSmall(e);
    StateSize(e.state);
    forall k | k in v.fields ensures MemberWithin(v, k, if k == K_STATE then 262 + 982 else 262) {
      if k == K_STATE { NestedMember(v, k); } else { SmallMember(v, k, KEY_SIZE, 97); }
    }
    EightOthers();
    assert EVENT_KEYS == (EVENT_KEYS - {K_STATE}) + {K_STATE};
    ObjectSize(v, 262, K_STATE, 982);
    Utf8Size(Render(v));
  }

  lemma NestedMember(v: Value, k: Text)
    requires v.Object? && Clean(v, {}) && k in v.fields && |k| <= KEY_SIZE
    requires Clean(v.fields[k], {}) && |Render(v.fields[k])| <= 1178
    ensures MemberWithin(v, k, 1244)
  {
    hide Escape, Render, Clean;
    EscapeSize(k);
  }
}
