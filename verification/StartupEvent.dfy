/**
 The startup-observation event of shared/service-startup-observation.js: what makes one
 valid, its JSON form, and the fact that the form can be read back.
 */
module StartupEvent {
  import opened Encoding
  import opened StrictJson
  import T = StrictJsonTheorems

  const EVENT_BYTES := 16 * 1024
  const LINE_BYTES := 16 * 1024
  const PAGE_BYTES := 1024 * 1024
  const ATTEMPT_BYTES := 16 * 1024 * 1024
  const EMITTER_QUEUE_BYTES := 64 * 1024
  const HOST_COUNT := 100000

  const EVENT_JSON_LIMITS := Limits(EVENT_BYTES, 8, 64)

  datatype Component = Bot | Daemon

  datatype Binding = Binding(component: Component, serviceKey: Text, processEpoch: Text, effectiveConfig: Text, configSource: Text)

  datatype Expected = ExpectedHosts(hostSet: Text, hostCount: int) | ExpectedTarget(target: Text)

  datatype State =
    | BotState(listener: Text, discord: Text, expectedHostSet: Text, expectedHostCount: int,
               connectedHostSet: Text, connectedHostCount: int)
    | DaemonState(target: Text, connection: int, attempted: Option<int>, accepted: Option<int>, registration: Text)

  datatype Event = Event(component: Component, serviceKey: Text, processEpoch: Text, sequence: int,
                         effectiveConfig: Text, configSource: Text, state: State)

  /** The event that a process with this binding reports. */
  function BoundEvent(b: Binding, sequence: int, state: State): Event {
    Event(b.component, b.serviceKey, b.processEpoch, sequence, b.effectiveConfig, b.configSource, state)
  }

  // ------------------------------------------------------------------- validity

  predicate LowerAlnum(c: CodeUnit) { 0x30 <= c <= 0x39 || 0x61 <= c <= 0x7A }

  /** A short lower-case name, a dash and 64 hex digits. */
  predicate DaemonServiceKey(s: Text) {
    && 66 <= |s| <= 97
    && Hex64(s[|s| - 64..]) && s[|s| - 65] == 0x2D
    && LowerAlnum(s[0]) && LowerAlnum(s[|s| - 66])
    && forall i | 0 <= i < |s| - 65 :: LowerAlnum(s[i]) || s[i] == 0x2D
  }

  predicate ServiceKey(component: Component, s: Text) {
    match component case Bot => s == Ascii("bot") case Daemon => DaemonServiceKey(s)
  }

  predicate HostCount(n: int) { 0 <= n <= HOST_COUNT }

  predicate PositiveOrNull(n: Option<int>) { n.Some? ==> Positive(n.value) }

  /** `captureBotState` and `captureDaemonState`. */
  predicate ValidState(s: State) {
    match s
    case BotState(listener, discord, expectedSet, expectedCount, connectedSet, connectedCount) =>
      && (listener == Ascii("listening") || listener == Ascii("closed"))
      && (discord == Ascii("connected") || discord == Ascii("disconnected"))
      && Hex64(expectedSet) && HostCount(expectedCount) && Hex64(connectedSet) && HostCount(connectedCount)
    case DaemonState(target, connection, attempted, accepted, registration) =>
      && Hex64(target) && Positive(connection) && PositiveOrNull(attempted) && PositiveOrNull(accepted)
      && (attempted.Some? ==> attempted.value <= connection)
      && (accepted.Some? ==> accepted.value <= connection)
      && (accepted.Some? ==> attempted.Some? && accepted.value <= attempted.value)
      && (|| (registration == Ascii("attempted") && attempted == Some(connection))
          || (registration == Ascii("accepted") && attempted == Some(connection) && accepted == Some(connection))
          || (registration == Ascii("denied") && attempted == Some(connection) && accepted != Some(connection))
          || registration == Ascii("disconnected"))
  }

  predicate ValidEvent(e: Event) {
    && (e.component.Bot? <==> e.state.BotState?)
    && Positive(e.sequence) && Hex64(e.processEpoch) && Hex64(e.effectiveConfig) && Hex64(e.configSource)
    && ServiceKey(e.component, e.serviceKey) && ValidState(e.state)
  }

  predicate ValidBinding(b: Binding) {
    && Hex64(b.processEpoch) && Hex64(b.effectiveConfig) && Hex64(b.configSource) && ServiceKey(b.component, b.serviceKey)
  }

  predicate ValidExpected(component: Component, x: Expected) {
    match x
    case ExpectedHosts(hostSet, hostCount) => component.Bot? && Hex64(hostSet) && HostCount(hostCount)
    case ExpectedTarget(target) => component.Daemon? && Hex64(target)
  }

  /** The event belongs to this process and expectation. */
  predicate Bound(e: Event, b: Binding, x: Expected) {
    && ValidBinding(b) && ValidExpected(b.component, x)
    && e.component == b.component && e.serviceKey == b.serviceKey && e.processEpoch == b.processEpoch
    && e.effectiveConfig == b.effectiveConfig && e.configSource == b.configSource
    && (e.state.BotState? ==> x.ExpectedHosts? && e.state.expectedHostSet == x.hostSet && e.state.expectedHostCount == x.hostCount)
    && (e.state.DaemonState? ==> x.ExpectedTarget? && e.state.target == x.target)
  }

  predicate Ready(s: State, x: Expected) {
    match s
    case BotState(listener, discord, _, _, connectedSet, connectedCount) =>
      && listener == Ascii("listening") && discord == Ascii("connected") && x.ExpectedHosts?
      && s.expectedHostSet == x.hostSet && s.expectedHostCount == x.hostCount
      && connectedSet == x.hostSet && connectedCount == x.hostCount
    case DaemonState(target, connection, attempted, accepted, registration) =>
      && x.ExpectedTarget? && target == x.target
      && registration == Ascii("accepted") && attempted == Some(connection) && accepted == Some(connection)
  }

  /** `daemonHistoryDoesNotRegress`. */
  predicate DoesNotRegress(previous: State, current: State)
    requires previous.DaemonState? && current.DaemonState?
  {
    && current.connection >= previous.connection
    && (previous.attempted.Some? ==> current.attempted.Some? && current.attempted.value >= previous.attempted.value)
    && (previous.accepted.Some? ==> current.accepted.Some? && current.accepted.value >= previous.accepted.value)
  }

  // ------------------------------------------------------------------ JSON form

  const KIND := Ascii("service-startup-observation")

  const K_SCHEMA := Ascii("schemaVersion")
  const K_KIND := Ascii("kind")
  const K_COMPONENT := Ascii("component")
  const K_SERVICE := Ascii("serviceKey")
  const K_EPOCH := Ascii("processEpochFingerprint")
  const K_SEQUENCE := Ascii("sequence")
  const K_CONFIG := Ascii("effectiveConfigFingerprint")
  const K_SOURCE := Ascii("configSourceIdentityFingerprint")
  const K_STATE := Ascii("state")
  const EVENT_KEYS: set<Text> := {K_SCHEMA, K_KIND, K_COMPONENT, K_SERVICE, K_EPOCH, K_SEQUENCE, K_CONFIG, K_SOURCE, K_STATE}

  const K_LISTENER := Ascii("listener")
  const K_DISCORD := Ascii("discord")
  const K_EXPECTED_SET := Ascii("expectedHostSetFingerprint")
  const K_EXPECTED_COUNT := Ascii("expectedHostCount")
  const K_CONNECTED_SET := Ascii("connectedHostSetFingerprint")
  const K_CONNECTED_COUNT := Ascii("connectedHostCount")
  const BOT_KEYS: set<Text> := {K_LISTENER, K_DISCORD, K_EXPECTED_SET, K_EXPECTED_COUNT, K_CONNECTED_SET, K_CONNECTED_COUNT}

  const K_TARGET := Ascii("targetFingerprint")
  const K_CONNECTION := Ascii("connectionGeneration")
  const K_ATTEMPTED := Ascii("attemptedGeneration")
  const K_ACCEPTED := Ascii("acceptedGeneration")
  const K_REGISTRATION := Ascii("registration")
  const DAEMON_KEYS: set<Text> := {K_TARGET, K_CONNECTION, K_ATTEMPTED, K_ACCEPTED, K_REGISTRATION}

  function ComponentText(c: Component): Text {
    match c case Bot => Ascii("bot") case Daemon => Ascii("daemon")
  }

  function Nullable(n: Option<int>): Value {
    match n case None => Null case Some(i) => Number(i)
  }

  function StateJson(s: State): (v: Value)
    ensures v.Object?
  {
    match s
    case BotState(listener, discord, expectedSet, expectedCount, connectedSet, connectedCount) =>
      Object(map[K_LISTENER := String(listener), K_DISCORD := String(discord),
                 K_EXPECTED_SET := String(expectedSet), K_EXPECTED_COUNT := Number(expectedCount),
                 K_CONNECTED_SET := String(connectedSet), K_CONNECTED_COUNT := Number(connectedCount)])
    case DaemonState(target, connection, attempted, accepted, registration) =>
      Object(map[K_TARGET := String(target), K_CONNECTION := Number(connection), K_ATTEMPTED := Nullable(attempted),
                 K_ACCEPTED := Nullable(accepted), K_REGISTRATION := String(registration)])
  }

  function EventJson(e: Event): (v: Value)
    ensures v.Object?
  {
    Object(map[K_SCHEMA := Number(1), K_KIND := String(KIND), K_COMPONENT := String(ComponentText(e.component)),
               K_SERVICE := String(e.serviceKey), K_EPOCH := String(e.processEpoch), K_SEQUENCE := Number(e.sequence),
               K_CONFIG := String(e.effectiveConfig), K_SOURCE := String(e.configSource), K_STATE := StateJson(e.state)])
  }

  predicate NullOrNumber(v: Value) { v.Null? || v.Number? }

  function NullableOf(v: Value): Option<int>
    requires NullOrNumber(v)
  {
    if v.Null? then None else Some(v.n)
  }

  /** The state in an event of this component, if it has exactly the fields of one. */
  function StateOf(component: Component, v: Value): Option<State> {
    if !v.Object? then None
    else
      var f := v.fields;
      match component
      case Bot =>
        if && f.Keys == BOT_KEYS
           && f[K_LISTENER].String? && f[K_DISCORD].String? && f[K_EXPECTED_SET].String? && f[K_EXPECTED_COUNT].Number?
           && f[K_CONNECTED_SET].String? && f[K_CONNECTED_COUNT].Number?
        then Some(BotState(f[K_LISTENER].s, f[K_DISCORD].s, f[K_EXPECTED_SET].s, f[K_EXPECTED_COUNT].n,
                           f[K_CONNECTED_SET].s, f[K_CONNECTED_COUNT].n))
        else None
      case Daemon =>
        if && f.Keys == DAEMON_KEYS
           && f[K_TARGET].String? && f[K_CONNECTION].Number? && NullOrNumber(f[K_ATTEMPTED])
           && NullOrNumber(f[K_ACCEPTED]) && f[K_REGISTRATION].String?
        then Some(DaemonState(f[K_TARGET].s, f[K_CONNECTION].n, NullableOf(f[K_ATTEMPTED]),
                              NullableOf(f[K_ACCEPTED]), f[K_REGISTRATION].s))
        else None
  }

  function ComponentOf(v: Value): Option<Component> {
    if v == String(Ascii("bot")) then Some(Bot) else if v == String(Ascii("daemon")) then Some(Daemon) else None
  }

  /** The event a JSON value spells, if it has exactly the fields of one. */
  function EventOf(v: Value): Option<Event> {
    if !v.Object? || v.fields.Keys != EVENT_KEYS then None
    else
      var f := v.fields;
      if && f[K_SCHEMA] == Number(1) && f[K_KIND] == String(KIND) && ComponentOf(f[K_COMPONENT]).Some?
         && f[K_SERVICE].String? && f[K_EPOCH].String? && f[K_SEQUENCE].Number?
         && f[K_CONFIG].String? && f[K_SOURCE].String?
      then
        var component := ComponentOf(f[K_COMPONENT]).value;
        match StateOf(component, f[K_STATE])
        case None => None
        case Some(state) =>
          Some(Event(component, f[K_SERVICE].s, f[K_EPOCH].s, f[K_SEQUENCE].n, f[K_CONFIG].s, f[K_SOURCE].s, state))
      else None
  }

  /** The canonical bytes of an event. */
  function EventBytes(e: Event): seq<Byte>
    requires ValidEvent(e)
  {
    EventJsonValid(e);
    Utf8(Render(EventJson(e)))
  }

  /** `validateServiceStartupObservationEvent` with a binding and an expected state. */
  function ValidateEvent(v: Value, b: Binding, x: Expected): Option<Event> {
    match EventOf(v)
    case None => None
    case Some(e) => if ValidEvent(e) && Bound(e, b, x) && |EventBytes(e)| <= EVENT_BYTES then Some(e) else None
  }

  // --------------------------------------------------------- the form is readable

  lemma StateRoundTrip(s: State)
    ensures StateOf(if s.BotState? then Bot else Daemon, StateJson(s)) == Some(s)
  {
    if s.BotState? {
      assert StateJson(s).fields.Keys == BOT_KEYS;
    } else {
      assert StateJson(s).fields.Keys == DAEMON_KEYS;
    }
  }

  lemma EventRoundTrip(e: Event)
    requires e.component.Bot? <==> e.state.BotState?
    ensures EventOf(EventJson(e)) == Some(e)
  {
    hide StateJson, StateOf;
    StateRoundTrip(e.state);
    assert EventJson(e).fields.Keys == EVENT_KEYS;
    assert Ascii("bot")[0] != Ascii("daemon")[0];
  }

  lemma KeysStrict(keys: set<Text>)
    requires forall k | k in keys :: Printable(k)
    ensures forall k | k in keys :: StrictText(k, {})
  {
    forall k | k in keys ensures StrictText(k, {}) { T.PrintableStrict(k); }
  }

  lemma KeysPrintable()
    ensures forall k | k in EVENT_KEYS :: Printable(k)
    ensures forall k | k in BOT_KEYS :: Printable(k)
    ensures forall k | k in DAEMON_KEYS :: Printable(k)
  {}

  lemma Hex64Strict(s: Text)
    requires Hex64(s)
    ensures StrictText(s, {})
  {
    assert forall i | 0 <= i < |s| :: LowerHex(s[i]);
    T.PrintableStrict(s);
  }

  lemma ServiceKeyStrict(component: Component, s: Text)
    requires ServiceKey(component, s)
    ensures StrictText(s, {})
  {
    if component.Daemon? {
      forall i | 0 <= i < |s| ensures 0x20 <= s[i] < 0x7F {
        if i >= |s| - 64 { assert s[i] == s[|s| - 64..][i - (|s| - 64)]; }
      }
    }
    T.PrintableStrict(s);
  }

  /** A flat object of clean scalars is clean, shallow and small. */
  lemma FlatObject(v: Value, depth: int, maxDepth: int)
    requires v.Object? && depth < maxDepth
    requires forall k | k in v.fields :: StrictText(k, {}) && Scalar(v.fields[k])
    ensures Clean(v, {}) && DepthWithin(v, depth, maxDepth) && Nodes(v) == 1 + |v.fields.Keys|
  {
    ScalarNodes(v, v.fields.Keys);
  }

  lemma {:induction false} ScalarNodes(v: Value, keys: set<Text>)
    requires v.Object? && keys <= v.fields.Keys
    requires forall k | k in keys :: Nodes(v.fields[k]) == 1
    ensures FieldNodes(v, keys) == |keys|
    decreases |keys|
  {
    if keys != {} {
      var k :| k in keys;
      T.FieldNodesRemove(v, keys, k);
      ScalarNodes(v, keys - {k});
    }
  }

  /** No member of a flat object holds another container. */
  ghost predicate Scalar(v: Value) {
    Clean(v, {}) && !v.Array? && !v.Object?
  }

  lemma StateScalars(s: State)
    requires ValidState(s)
    ensures forall k | k in StateJson(s).fields :: Scalar(StateJson(s).fields[k])
    ensures StateJson(s).fields.Keys == if s.BotState? then BOT_KEYS else DAEMON_KEYS
  {
    hide StrictText, Hex64;
    if s.BotState? {
      Hex64Strict(s.expectedHostSet);
      Hex64Strict(s.connectedHostSet);
      T.PrintableStrict(s.listener);
      T.PrintableStrict(s.discord);
    } else {
      Hex64Strict(s.target);
      T.PrintableStrict(s.registration);
    }
  }

  lemma StateJsonValid(s: State)
    requires ValidState(s)
    ensures Clean(StateJson(s), {}) && DepthWithin(StateJson(s), 1, 8) && Nodes(StateJson(s)) <= 7
  {
    hide StrictText, StateJson, Printable, DepthWithin, Clean, Nodes, ValidState;
    StateScalars(s);
    KeysPrintable();
    KeysStrict(StateJson(s).fields.Keys);
    FlatObject(StateJson(s), 1, 8);
    assert |BOT_KEYS| <= 6 && |DAEMON_KEYS| <= 6;
  }

  lemma EventFields(e: Event)
    ensures EventJson(e).fields.Keys == EVENT_KEYS && EventJson(e).fields[K_STATE] == StateJson(e.state)
  {}

  /** What stands beside the state in an event. */
  ghost function Siblings(e: Event): set<Value> {
    {Number(1), String(KIND), String(ComponentText(e.component)), String(e.serviceKey), String(e.processEpoch),
     Number(e.sequence), String(e.effectiveConfig), String(e.configSource)}
  }

  lemma EventSiblings(e: Event)
    ensures forall k | k in EventJson(e).fields && k != K_STATE :: EventJson(e).fields[k] in Siblings(e)
  {}

  lemma EventScalars(e: Event)
    requires ValidEvent(e)
    ensures forall v | v in Siblings(e) :: Scalar(v)
  {
    hide StrictText, Hex64, ServiceKey, ValidState;
    Hex64Strict(e.processEpoch);
    Hex64Strict(e.effectiveConfig);
    Hex64Strict(e.configSource);
    ServiceKeyStrict(e.component, e.serviceKey);
    T.PrintableStrict(KIND);
    T.PrintableStrict(ComponentText(e.component));
  }

  /** Every valid event is inside the limits the reducer parses lines with. */
  lemma EventJsonValid(e: Event)
    requires ValidEvent(e)
    ensures Clean(EventJson(e), {}) && DepthWithin(EventJson(e), 0, 8) && Nodes(EventJson(e)) <= 16
  {
    hide StrictText, EventJson, StateJson, Printable, DepthWithin, Clean, Nodes, ValidState, Siblings, Hex64, ServiceKey;
    EventFields(e);
    EventSiblings(e);
    EventScalars(e);
    StateJsonValid(e.state);
    KeysPrintable();
    KeysStrict(EVENT_KEYS);
    OneNested(EventJson(e), K_STATE);
    EightOthers();
  }

  /** Scalars beside one nested value. */
  lemma OneNested(v: Value, key: Text)
    requires v.Object? && key in v.fields
    requires forall k | k in v.fields :: StrictText(k, {})
    requires forall k | k in v.fields && k != key :: Scalar(v.fields[k])
    requires Clean(v.fields[key], {}) && DepthWithin(v.fields[key], 1, 8)
    ensures Clean(v, {}) && DepthWithin(v, 0, 8)
    ensures Nodes(v) == 1 + Nodes(v.fields[key]) + |v.fields.Keys - {key}|
  {
    T.FieldNodesRemove(v, v.fields.Keys, key);
    ScalarNodes(v, v.fields.Keys - {key});
  }

  lemma EightOthers()
    ensures |EVENT_KEYS - {K_STATE}| <= 8
  {
    assert EVENT_KEYS - {K_STATE} <= {K_SCHEMA, K_KIND, K_COMPONENT, K_SERVICE, K_EPOCH, K_SEQUENCE, K_CONFIG, K_SOURCE};
    SubsetSize(EVENT_KEYS - {K_STATE}, {K_SCHEMA, K_KIND, K_COMPONENT, K_SERVICE, K_EPOCH, K_SEQUENCE, K_CONFIG, K_SOURCE});
  }

  lemma SubsetSize(a: set<Text>, b: set<Text>)
    requires a <= b
    ensures |a| <= |b|
  {
    assert b == a + (b - a);
  }
}
