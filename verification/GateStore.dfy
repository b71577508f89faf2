/** Workflow gates shown on Discord: who may answer which, and what a late answer can do. */
module GateStore {
  import opened Encoding

  const TOKEN_LENGTH := 64
  const MAX_CAPACITY := 64

  datatype Status = Presenting | Answerable | Answering | Answered | Expired | Disconnected | Replaced {
    predicate Terminal() { Answered? || Expired? || Disconnected? || Replaced? }
  }

  datatype Gate = Gate(hostId: Text, requestId: Text, gateId: Text, presentationId: Text, userId: Text)

  datatype Entry = Entry(token: Text, gate: Gate, messageId: Option<Text>, channelId: Option<Text>, state: Status)

  /** The store: the entries in the order they were made, and the tokens by message. */
  datatype Store = Store(order: seq<Text>, entries: map<Text, Entry>, byMessage: map<Text, Text>)

  const EMPTY := Store([], map[], map[])

  // ------------------------------------------------------------------- the operations

  function SetState(st: Store, t: Text, s: Status): Store
    requires t in st.entries
  {
    st.(entries := st.entries[t := st.entries[t].(state := s)])
  }

  function Without(order: seq<Text>, t: Text): (r: seq<Text>)
    ensures |r| <= |order| && (t in order ==> |r| < |order|)
    ensures forall x :: x in r <==> x in order && x != t
  {
    if order == [] then []
    else
      var rest := Without(order[1..], t);
      if order[0] == t then rest else [order[0]] + rest
  }

  /** `remove`. */
  function Remove(st: Store, t: Text): Store {
    if t !in st.entries then st
    else
      var m := st.entries[t].messageId;
      Store(Without(st.order, t), st.entries - {t}, if m.Some? then st.byMessage - {m.value} else st.byMessage)
  }

  /** The oldest entry that has reached a terminal state. */
  function FirstTerminal(order: seq<Text>, entries: map<Text, Entry>): (r: Option<Text>)
    ensures r.Some? ==> r.value in order && r.value in entries && entries[r.value].state.Terminal()
    ensures r.None? ==> forall t | t in order && t in entries :: !entries[t].state.Terminal()
  {
    if order == [] then None
    else if order[0] in entries && entries[order[0]].state.Terminal() then Some(order[0])
    else FirstTerminal(order[1..], entries)
  }

  /** Makes room by dropping terminal entries, oldest first. */
  function Evict(st: Store, capacity: nat): Store
    decreases |st.order|
  {
    if |st.order| < capacity then st
    else
      match FirstTerminal(st.order, st.entries)
      case None => st
      case Some(t) => Evict(Remove(st, t), capacity)
  }

  predicate Complete(g: Gate) {
    g.hostId != [] && g.requestId != [] && g.gateId != [] && g.presentationId != [] && g.userId != []
  }

  /** `create`, given the token that the factory made. */
  function Create(st: Store, capacity: nat, token: Text, g: Gate): (Store, Option<Entry>) {
    var room := Evict(st, capacity);
    if |room.order| >= capacity || !(1 <= |token| <= TOKEN_LENGTH) || token in room.entries || !Complete(g) then (room, None)
    else (Added(room, token, g), Some(NewEntry(token, g)))
  }

  function NewEntry(token: Text, g: Gate): Entry {
    Entry.Entry(token, g, None, None, Presenting)
  }

  function Added(st: Store, token: Text, g: Gate): Store {
    st.(order := st.order + [token], entries := st.entries[token := NewEntry(token, g)])
  }

  /** `bindMessage`. */
  function Bind(st: Store, t: Text, m: Text): (Store, bool) {
    if t !in st.entries || st.entries[t].state != Presenting || st.entries[t].messageId.Some? || m == [] || m in st.byMessage then (st, false)
    else (st.(entries := st.entries[t := st.entries[t].(messageId := Some(m))], byMessage := st.byMessage[m := t]), true)
  }

  /** `activate`. */
  function Activate(st: Store, t: Text): (Store, bool) {
    if t !in st.entries || st.entries[t].state != Presenting || st.entries[t].messageId.None? then (st, false)
    else (SetState(st, t, Answerable), true)
  }

  /** `beginAnswer`. */
  function Begin(st: Store, t: Text, m: Option<Text>, userId: Text, replyTo: Option<Text>): (Store, bool) {
    if t !in st.entries || st.entries[t].state != Answerable then (st, false)
    else if st.entries[t].gate.userId != userId || st.entries[t].messageId != m then (st, false)
    else if replyTo.Some? && replyTo != st.entries[t].messageId then (st, false)
    else (SetState(st, t, Answering), true)
  }

  /** `completeAnswer` and `rejectAnswer`. */
  function Settle(st: Store, t: Text, ok: bool): (Store, bool) {
    if t !in st.entries || st.entries[t].state != Answering then (st, false)
    else (SetState(st, t, if ok then Answered else Answerable), true)
  }

  /** `retire`. */
  function Retire(st: Store, t: Text, s: Status): (Store, bool) {
    if t !in st.entries || !s.Terminal() then (st, false)
    else if st.entries[t].state.Terminal() then (st, st.entries[t].state == s)
    else (SetState(st, t, s), true)
  }

  /** The presenter notes the channel on the entry it was given. */
  function Place(st: Store, t: Text, channelId: Text): Store {
    if t !in st.entries then st
    else st.(entries := st.entries[t := st.entries[t].(channelId := Some(channelId))])
  }

  // --------------------------------------------------------------------- validity

  ghost predicate Distinct(order: seq<Text>) {
    forall i, j | 0 <= i < j < |order| :: order[i] != order[j]
  }

  ghost predicate Ordered(st: Store) {
    && Distinct(st.order) && (forall t :: t in st.order <==> t in st.entries)
    && (forall t | t in st.entries :: st.entries[t].token == t)
  }

  /** The message index is exactly the inverse of the entries' message ids. */
  ghost predicate Inverse(st: Store) {
    && (forall m | m in st.byMessage :: st.byMessage[m] in st.entries && st.entries[st.byMessage[m]].messageId == Some(m))
    && (forall t | t in st.entries && st.entries[t].messageId.Some? ::
          st.entries[t].messageId.value in st.byMessage && st.byMessage[st.entries[t].messageId.value] == t)
  }

  ghost predicate Shown(st: Store) {
    forall t | t in st.entries && (st.entries[t].state == Answerable || st.entries[t].state == Answering) :: st.entries[t].messageId.Some?
  }

  ghost predicate Valid(st: Store, capacity: nat) {
    Ordered(st) && Inverse(st) && Shown(st) && |st.order| <= capacity
  }

  lemma SetStateValid(st: Store, capacity: nat, t: Text, s: Status)
    requires Valid(st, capacity) && t in st.entries
    requires s == Answerable || s == Answering ==> st.entries[t].messageId.Some?
    ensures Valid(SetState(st, t, s), capacity)
  {}

  lemma BindValid(st: Store, capacity: nat, t: Text, m: Text)
    requires Valid(st, capacity)
    ensures Valid(Bind(st, t, m).0, capacity)
  {}

  lemma PlaceValid(st: Store, capacity: nat, t: Text, channelId: Text)
    requires Valid(st, capacity)
    ensures Valid(Place(st, t, channelId), capacity)
  {}

  lemma {:induction false} WithoutDistinct(order: seq<Text>, t: Text)
    requires Distinct(order)
    ensures Distinct(Without(order, t))
  {
    if order != [] {
      WithoutDistinct(order[1..], t);
      assert order[0] !in order[1..];
    }
  }

  lemma RemoveValid(st: Store, capacity: nat, t: Text)
    requires Valid(st, capacity)
    ensures Valid(Remove(st, t), capacity)
  {
    hide Without;
    WithoutDistinct(st.order, t);
  }

  /** Eviction keeps every live entry, changes none, and drops only terminal ones. */
  lemma {:induction false} EvictKeeps(st: Store, capacity: nat, limit: nat)
    requires Valid(st, limit)
    ensures var r := Evict(st, capacity);
            && Valid(r, limit) && |r.order| <= |st.order|
            && (forall t | t in r.entries :: t in st.entries && r.entries[t] == st.entries[t])
            && (forall t | t in st.entries && t !in r.entries :: st.entries[t].state.Terminal())
    decreases |st.order|
  {
    hide Without;
    if |st.order| >= capacity {
      var first := FirstTerminal(st.order, st.entries);
      hide FirstTerminal;
      if first.Some? {
        RemoveValid(st, limit, first.value);
        EvictKeeps(Remove(st, first.value), capacity, limit);
        hide Valid;
      }
    }
  }

  /** There is room after eviction unless every entry is live. */
  lemma {:induction false} EvictMakesRoom(st: Store, capacity: nat)
    requires Valid(st, capacity) && capacity > 0
    ensures |Evict(st, capacity).order| >= capacity <==> |st.order| >= capacity && forall t | t in st.entries :: !st.entries[t].state.Terminal()
  {
    hide Without;
    var first := FirstTerminal(st.order, st.entries);
    hide FirstTerminal;
    if |st.order| >= capacity && first.Some? {
      var r := Remove(st, first.value);
      assert |r.order| < capacity;
      assert Evict(r, capacity) == r;
    }
  }

  lemma CreateKeeps(st: Store, capacity: nat, token: Text, g: Gate)
    requires Valid(st, capacity)
    ensures var (r, e) := Create(st, capacity, token, g);
            && Valid(r, capacity)
            && (forall t | t in st.entries && !(t in r.entries && r.entries[t] == st.entries[t]) :: st.entries[t].state.Terminal())
            && (forall t | t in r.entries && t !in st.entries :: t == token)
            && (forall t | t in r.entries && t in st.entries && t != token :: r.entries[t] == st.entries[t])
            && (e.Some? ==> token in r.entries && r.entries[token].state == Presenting)
            && (e.None? ==> forall t | t in r.entries :: t in st.entries && r.entries[t] == st.entries[t])
  {
    hide Evict;
    EvictKeeps(st, capacity, capacity);
    var room := Evict(st, capacity);
    if |room.order| < capacity && token !in room.entries { AddedValid(room, capacity, token, g); }
    hide Valid;
  }

  lemma AddedValid(st: Store, capacity: nat, token: Text, g: Gate)
    requires Valid(st, capacity) && |st.order| < capacity && token !in st.entries
    ensures Valid(Added(st, token, g), capacity)
  {
    var r := Added(st, token, g);
    assert Distinct(r.order);
    assert forall t :: t in r.order <==> t in st.order || t == token;
  }

  // -------------------------------------------------------------- answers in flight

  /** The store, every token ever made, and the deliveries between begin and their result. */
  datatype System = System(store: Store, used: set<Text>, flights: map<nat, Text>, next: nat)

  datatype Event =
    | Made(token: Text, gate: Gate)
    | Bound(token: Text, messageId: Text)
    | Placed(token: Text, channelId: Text)
    | Activated(token: Text)
    | Began(token: Text, shownOn: Option<Text>, userId: Text, replyTo: Option<Text>)
    | Returned(flight: nat, ok: bool)
    | Lost(flight: nat)
    | Retired(token: Text, state: Status)

  /** One step of the bot. `Returned` is the host's verdict; `Lost` is a delivery that died before it. */
  function Next(sys: System, capacity: nat, e: Event): System {
    match e
    case Made(t, g) => sys.(store := Create(sys.store, capacity, t, g).0, used := sys.used + {t})
    case Bound(t, m) => sys.(store := Bind(sys.store, t, m).0)
    case Placed(t, c) => sys.(store := Place(sys.store, t, c))
    case Activated(t) => sys.(store := Activate(sys.store, t).0)
    case Began(t, m, u, r) =>
      var (st, ok) := Begin(sys.store, t, m, u, r);
      if ok then sys.(store := st, flights := sys.flights[sys.next := t], next := sys.next + 1) else sys
    case Returned(f, ok) =>
      if f !in sys.flights then sys
      else sys.(store := Settle(sys.store, sys.flights[f], ok).0, flights := sys.flights - {f})
    case Lost(f) => sys.(flights := sys.flights - {f})
    case Retired(t, s) => sys.(store := Retire(sys.store, t, s).0)
  }

  /** The token factory never makes a token twice. */
  predicate Fresh(sys: System, e: Event) {
    e.Made? ==> e.token !in sys.used
  }

  /** No gate is made under the token of a delivery still under way. */
  predicate Apart(sys: System, capacity: nat, e: Event) {
    e.Made? && e.token in sys.flights.Values ==> Create(sys.store, capacity, e.token, e.gate).1.None?
  }

  /** A delivery under way holds its entry: nobody else can begin, and only it or a retirement ends that. */
  ghost predicate Held(sys: System) {
    && (forall f | f in sys.flights :: f < sys.next && sys.flights[f] in sys.used)
    && (forall f, g | f in sys.flights && g in sys.flights && sys.flights[f] == sys.flights[g] :: f == g)
    && (forall f | f in sys.flights && sys.flights[f] in sys.store.entries ::
          sys.store.entries[sys.flights[f]].state == Answering || sys.store.entries[sys.flights[f]].state.Terminal())
  }

  ghost predicate Inv(sys: System, capacity: nat) {
    Valid(sys.store, capacity) && (forall t | t in sys.store.entries :: t in sys.used) && Held(sys)
  }

  const BEGINNING := System(EMPTY, {}, map[], 0)

  lemma StartInv(capacity: nat)
    ensures Inv(BEGINNING, capacity)
  {}

  lemma FreshApart(sys: System, capacity: nat, e: Event)
    requires Inv(sys, capacity) && Fresh(sys, e)
    ensures Apart(sys, capacity, e)
  {
    hide Valid, Create;
  }

  lemma NextStoreValid(sys: System, capacity: nat, e: Event)
    requires Inv(sys, capacity)
    ensures Valid(Next(sys, capacity, e).store, capacity)
  {
    hide Create, Bind, Place, Held;
    match e
    case Made(t, g) => CreateKeeps(sys.store, capacity, t, g);
    case Bound(t, m) => BindValid(sys.store, capacity, t, m);
    case Placed(t, c) => PlaceValid(sys.store, capacity, t, c);
    case Activated(t) => if Activate(sys.store, t).1 { SetStateValid(sys.store, capacity, t, Answerable); }
    case Began(t, m, u, r) => if Begin(sys.store, t, m, u, r).1 { SetStateValid(sys.store, capacity, t, Answering); }
    case Returned(f, ok) =>
      if f in sys.flights && Settle(sys.store, sys.flights[f], ok).1 {
        SetStateValid(sys.store, capacity, sys.flights[f], if ok then Answered else Answerable);
      }
    case Lost(f) =>
    case Retired(t, s) => if t in sys.store.entries && s.Terminal() { SetStateValid(sys.store, capacity, t, s); }
  }

  /**
    * A step keeps the index inverse, the capacity, and at most one delivery an entry, exactly
    * when it does not make a gate under the token of a delivery still under way.
    */
  lemma NextKeeps(sys: System, capacity: nat, e: Event)
    requires Inv(sys, capacity)
    ensures Inv(Next(sys, capacity, e), capacity) <==> Apart(sys, capacity, e)
  {
    NextStoreValid(sys, capacity, e);
    NextHeld(sys, capacity, e);
    hide Valid, Held, Create, Apart;
    if e.Made? { CreateKeeps(sys.store, capacity, e.token, e.gate); }
  }

  /** A change of the store that no delivery under way notices, except as a retirement. */
  ghost predicate Gentle(sys: System, n: System) {
    && n.flights == sys.flights && n.next == sys.next && sys.used <= n.used
    && forall f | f in sys.flights && sys.flights[f] in n.store.entries ::
         var t := sys.flights[f];
         && t in sys.store.entries
         && var before, after := sys.store.entries[t].state, n.store.entries[t].state;
            before == after || after.Terminal() || before == Presenting
  }

  lemma GentleHeld(sys: System, n: System)
    requires Held(sys) && Gentle(sys, n)
    ensures Held(n)
  {}

  lemma MadeHeld(sys: System, capacity: nat, t: Text, g: Gate)
    requires Inv(sys, capacity)
    ensures Held(Next(sys, capacity, Made(t, g))) <==> Apart(sys, capacity, Made(t, g))
  {
    hide Valid;
    var n := Next(sys, capacity, Made(t, g));
    CreateKeeps(sys.store, capacity, t, g);
    hide Create;
    if Apart(sys, capacity, Made(t, g)) {
      assert forall f | f in sys.flights :: sys.flights[f] in sys.flights.Values;
      GentleHeld(sys, n);
    } else {
      var f :| f in sys.flights && sys.flights[f] == t;
      assert n.flights[f] == t;
    }
  }

  lemma NextHeld(sys: System, capacity: nat, e: Event)
    requires Inv(sys, capacity)
    ensures Held(Next(sys, capacity, e)) <==> Apart(sys, capacity, e)
  {
    hide Valid;
    var n := Next(sys, capacity, e);
    match e
    case Made(t, g) => MadeHeld(sys, capacity, t, g);
    case Began(t, m, u, r) => BeganHeld(sys, capacity, e);
    case Returned(f, ok) => ReturnedHeld(sys, capacity, f, ok);
    case Lost(f) =>
    case Bound(t, m) => GentleHeld(sys, n);
    case Placed(t, c) => GentleHeld(sys, n);
    case Activated(t) => GentleHeld(sys, n);
    case Retired(t, s) => GentleHeld(sys, n);
  }

  lemma BeganHeld(sys: System, capacity: nat, e: Event)
    requires Inv(sys, capacity) && e.Began?
    ensures Held(Next(sys, capacity, e))
  {
    hide Valid;
  }

  lemma ReturnedHeld(sys: System, capacity: nat, f: nat, ok: bool)
    requires Inv(sys, capacity)
    ensures Held(Next(sys, capacity, Returned(f, ok)))
  {
    hide Valid;
  }

  // -------------------------------------------------------------------------- runs

  function Run(sys: System, capacity: nat, events: seq<Event>): System
    decreases |events|
  {
    if events == [] then sys else Run(Next(sys, capacity, events[0]), capacity, events[1..])
  }

  predicate FreshRun(sys: System, capacity: nat, events: seq<Event>)
    decreases |events|
  {
    events == [] || (Fresh(sys, events[0]) && FreshRun(Next(sys, capacity, events[0]), capacity, events[1..]))
  }

  predicate ApartRun(sys: System, capacity: nat, events: seq<Event>)
    decreases |events|
  {
    events == [] || (Apart(sys, capacity, events[0]) && ApartRun(Next(sys, capacity, events[0]), capacity, events[1..]))
  }

  lemma {:induction false} RunKeeps(sys: System, capacity: nat, events: seq<Event>)
    requires Inv(sys, capacity) && ApartRun(sys, capacity, events)
    ensures Inv(Run(sys, capacity, events), capacity)
    decreases |events|
  {
    hide Inv, Next, Apart;
    if events != [] {
      NextKeeps(sys, capacity, events[0]);
      RunKeeps(Next(sys, capacity, events[0]), capacity, events[1..]);
    }
  }

  lemma {:induction false} FreshRunApart(sys: System, capacity: nat, events: seq<Event>)
    requires Inv(sys, capacity) && FreshRun(sys, capacity, events)
    ensures ApartRun(sys, capacity, events)
    decreases |events|
  {
    hide Inv, Next, Fresh, Apart;
    if events != [] {
      FreshApart(sys, capacity, events[0]);
      NextKeeps(sys, capacity, events[0]);
      FreshRunApart(Next(sys, capacity, events[0]), capacity, events[1..]);
    }
  }

  /** From the empty store, with tokens that never repeat, every interleaving keeps the store in order. */
  lemma StoreIsSafe(capacity: nat, events: seq<Event>)
    requires FreshRun(BEGINNING, capacity, events)
    ensures Inv(Run(BEGINNING, capacity, events), capacity)
  {
    hide Inv, Run, FreshRun, ApartRun;
    StartInv(capacity);
    FreshRunApart(BEGINNING, capacity, events);
    RunKeeps(BEGINNING, capacity, events);
  }

  /** The gate of this token is over: retired, or already dropped. */
  predicate Over(sys: System, t: Text) {
    t in sys.used && (t in sys.store.entries ==> sys.store.entries[t].state.Terminal())
  }

  /** Terminal states are absorbing, and a dropped token never comes back. */
  lemma OverStays(sys: System, capacity: nat, e: Event, t: Text)
    requires Inv(sys, capacity) && Fresh(sys, e) && Over(sys, t)
    ensures var n := Next(sys, capacity, e);
            && Over(n, t)
            && (t in n.store.entries ==> t in sys.store.entries && n.store.entries[t].state == sys.store.entries[t].state)
            && (forall f | f in n.flights && n.flights[f] == t :: f in sys.flights && sys.flights[f] == t)
  {
    hide Create, Inverse, Ordered, Shown;
    if e.Made? { CreateKeeps(sys.store, capacity, e.token, e.gate); }
  }

  /** Over a whole run: a gate that is over stays as it is, and no new answer to it ever begins. */
  lemma {:induction false} RunOver(sys: System, capacity: nat, events: seq<Event>, t: Text)
    requires Inv(sys, capacity) && FreshRun(sys, capacity, events) && Over(sys, t)
    ensures var n := Run(sys, capacity, events);
            && Over(n, t)
            && (t in n.store.entries ==> t in sys.store.entries && n.store.entries[t].state == sys.store.entries[t].state)
            && (forall f | f in n.flights && n.flights[f] == t :: f in sys.flights && sys.flights[f] == t)
    decreases |events|
  {
    hide Inv, Next, Fresh, Over, Apart;
    if events != [] {
      FreshApart(sys, capacity, events[0]);
      NextKeeps(sys, capacity, events[0]);
      OverStays(sys, capacity, events[0], t);
      RunOver(Next(sys, capacity, events[0]), capacity, events[1..], t);
    }
  }

  /** A result that comes back after its gate was retired changes nothing in the store. */
  lemma LateResult(sys: System, capacity: nat, f: nat, ok: bool)
    requires f in sys.flights && Over(sys, sys.flights[f])
    ensures Next(sys, capacity, Returned(f, ok)).store == sys.store
  {}

  /** A result that comes back in time settles exactly its own gate. */
  lemma TimelyResult(sys: System, capacity: nat, f: nat, ok: bool)
    requires Inv(sys, capacity) && f in sys.flights && !Over(sys, sys.flights[f])
    ensures var t, n := sys.flights[f], Next(sys, capacity, Returned(f, ok));
            && t in sys.store.entries && sys.store.entries[t].state == Answering
            && n.store == SetState(sys.store, t, if ok then Answered else Answerable)
            && (forall g | g in n.flights :: n.flights[g] != t)
  {
    hide Valid;
  }

  /** A live gate is never dropped, whatever happens. */
  lemma LiveStays(sys: System, capacity: nat, e: Event, t: Text)
    requires Inv(sys, capacity) && t in sys.store.entries && !sys.store.entries[t].state.Terminal()
    ensures t in Next(sys, capacity, e).store.entries
    ensures e.Made? ==> Next(sys, capacity, e).store.entries[t] == sys.store.entries[t]
  {
    hide Create, Inverse, Ordered, Shown;
    if e.Made? { CreateKeeps(sys.store, capacity, e.token, e.gate); }
  }

  /**
    * The only ways a stored gate changes: it opens once its message is bound, its own user begins
    * an answer on that message, the delivery under way settles it, or it is retired. What it asks,
    * of whom, and where it is shown never change.
    */
  lemma Lifecycle(sys: System, capacity: nat, e: Event, t: Text)
    requires Inv(sys, capacity) && Fresh(sys, e)
    requires t in sys.store.entries && t in Next(sys, capacity, e).store.entries
    ensures var a, b := sys.store.entries[t], Next(sys, capacity, e).store.entries[t];
            && b.token == a.token && b.gate == a.gate && (a.messageId.Some? ==> b.messageId == a.messageId)
            && (|| b.state == a.state
                || (a.state == Presenting && b.state == Answerable && e == Activated(t) && a.messageId.Some?)
                || (&& a.state == Answerable && b.state == Answering && e.Began? && e.token == t && e.userId == a.gate.userId
                    && e.shownOn == a.messageId && (e.replyTo.None? || e.replyTo == a.messageId))
                || (&& a.state == Answering && e.Returned? && e.flight in sys.flights && sys.flights[e.flight] == t
                    && b.state == if e.ok then Answered else Answerable)
                || (!a.state.Terminal() && b.state.Terminal() && e == Retired(t, b.state)))
  {
    hide Create, Inverse, Shown;
    if e.Made? { CreateKeeps(sys.store, capacity, e.token, e.gate); }
  }

  // ------------------------------------------------------------ what does take effect

  /** Everything else stays as it is. */
  ghost predicate OnlyChanges(sys: System, n: System, t: Text, e: Entry) {
    && t in sys.store.entries && n.store.entries == sys.store.entries[t := e] && n.store.order == sys.store.order && n.used == sys.used
  }

  /** An answer begins exactly for an answerable gate, from its own user, on its own message, as a reply to it or not as a reply. */
  lemma BeganExactly(sys: System, capacity: nat, t: Text, m: Option<Text>, userId: Text, replyTo: Option<Text>)
    ensures var n := Next(sys, capacity, Began(t, m, userId, replyTo));
            if && t in sys.store.entries && sys.store.entries[t].state == Answerable && sys.store.entries[t].gate.userId == userId
               && sys.store.entries[t].messageId == m && (replyTo == None || replyTo == m)
            then
              && OnlyChanges(sys, n, t, sys.store.entries[t].(state := Answering)) && n.store.byMessage == sys.store.byMessage
              && n.flights == sys.flights[sys.next := t] && n.next == sys.next + 1
            else n == sys
  {}

  /** A message is bound exactly to a gate being presented that has none yet, if no stored gate has it. */
  lemma BoundExactly(sys: System, capacity: nat, t: Text, m: Text)
    requires Inv(sys, capacity)
    ensures var n := Next(sys, capacity, Bound(t, m));
            if && t in sys.store.entries && sys.store.entries[t].state == Presenting && sys.store.entries[t].messageId.None?
               && m != [] && forall o | o in sys.store.entries :: sys.store.entries[o].messageId != Some(m)
            then
              && OnlyChanges(sys, n, t, sys.store.entries[t].(messageId := Some(m))) && n.store.byMessage == sys.store.byMessage[m := t]
              && n.flights == sys.flights && n.next == sys.next
            else n == sys
  {
    hide Ordered, Shown, Held;
    MessageUnused(sys.store, m);
  }

  lemma MessageUnused(st: Store, m: Text)
    requires Inverse(st)
    ensures m !in st.byMessage <==> forall o | o in st.entries :: st.entries[o].messageId != Some(m)
  {
    if m in st.byMessage { assert st.byMessage[m] in st.entries; }
  }

  /** A gate opens exactly when it is being presented and its message is bound. */
  lemma ActivatedExactly(sys: System, capacity: nat, t: Text)
    ensures var n := Next(sys, capacity, Activated(t));
            if t in sys.store.entries && sys.store.entries[t].state == Presenting && sys.store.entries[t].messageId.Some?
            then OnlyChanges(sys, n, t, sys.store.entries[t].(state := Answerable)) && n.store.byMessage == sys.store.byMessage && n.flights == sys.flights && n.next == sys.next
            else n == sys
  {}

  /** A live gate is retired in exactly the state asked for, whatever it was doing. */
  lemma RetiredExactly(sys: System, capacity: nat, t: Text, s: Status)
    ensures var n := Next(sys, capacity, Retired(t, s));
            if t in sys.store.entries && s.Terminal() && !sys.store.entries[t].state.Terminal()
            then OnlyChanges(sys, n, t, sys.store.entries[t].(state := s)) && n.store.byMessage == sys.store.byMessage && n.flights == sys.flights && n.next == sys.next
            else n == sys
  {}

  /** What a caller is told: whether the gate changed, and of a retirement whether it now is in the state asked for. */
  lemma AnswersTell(st: Store, t: Text, m: Text, from: Option<Text>, userId: Text, replyTo: Option<Text>, ok: bool, s: Status)
    ensures Bind(st, t, m).1 <==> Bind(st, t, m).0 != st
    ensures Activate(st, t).1 <==> Activate(st, t).0 != st
    ensures Begin(st, t, from, userId, replyTo).1 <==> Begin(st, t, from, userId, replyTo).0 != st
    ensures Settle(st, t, ok).1 <==> Settle(st, t, ok).0 != st
    ensures Retire(st, t, s).1 <==> s.Terminal() && t in Retire(st, t, s).0.entries && Retire(st, t, s).0.entries[t].state == s
  {
    if t in st.entries {
      forall x: Status ensures x == st.entries[t].state || SetState(st, t, x) != st { SetsState(st, t, x); }
      if Bind(st, t, m).1 {
        assert Bind(st, t, m).0.entries[t].messageId == Some(m);
      }
    }
  }

  lemma SetsState(st: Store, t: Text, s: Status)
    requires t in st.entries
    ensures t in SetState(st, t, s).entries && SetState(st, t, s).entries[t].state == s
    ensures s == st.entries[t].state || SetState(st, t, s) != st
  {}

  /** The first terminal entry in the order of making. */
  ghost predicate Oldest(st: Store, i: nat) {
    && i < |st.order| && st.order[i] in st.entries && st.entries[st.order[i]].state.Terminal()
    && forall j | 0 <= j < i :: st.order[j] in st.entries && !st.entries[st.order[j]].state.Terminal()
  }

  lemma {:induction false} FirstIsOldest(order: seq<Text>, entries: map<Text, Entry>)
    requires forall t | t in order :: t in entries
    ensures var r := FirstTerminal(order, entries);
            r.Some? ==> exists i :: 0 <= i < |order| && order[i] == r.value && forall j | 0 <= j < i :: !entries[order[j]].state.Terminal()
  {
    if order != [] {
      if entries[order[0]].state.Terminal() {
        assert order[0] == FirstTerminal(order, entries).value;
      } else {
        FirstIsOldest(order[1..], entries);
        var r := FirstTerminal(order, entries);
        if r.Some? {
          var i :| 0 <= i < |order[1..]| && order[1..][i] == r.value && forall j | 0 <= j < i :: !entries[order[1..][j]].state.Terminal();
          assert order[i + 1] == r.value;
          forall j | 0 <= j < i + 1 ensures !entries[order[j]].state.Terminal() {
            if j > 0 { assert order[j] == order[1..][j - 1]; }
          }
        }
      }
    }
  }

  /** Making room drops at most one entry: the oldest terminal one of a full store. */
  lemma EvictsOldest(st: Store, capacity: nat)
    requires Valid(st, capacity) && capacity > 0
    ensures var r := Evict(st, capacity);
            if |st.order| < capacity || forall t | t in st.entries :: !st.entries[t].state.Terminal() then r == st
            else exists i: nat :: Oldest(st, i) && r == Remove(st, st.order[i])
  {
    hide Without;
    var first := FirstTerminal(st.order, st.entries);
    FirstIsOldest(st.order, st.entries);
    hide FirstTerminal;
    if |st.order| >= capacity && first.Some? {
      var i :| 0 <= i < |st.order| && st.order[i] == first.value && forall j | 0 <= j < i :: !st.entries[st.order[j]].state.Terminal();
      assert Oldest(st, i);
      var r := Remove(st, first.value);
      assert |r.order| < capacity;
      assert Evict(r, capacity) == r;
    }
  }

  /** A gate with a new token is made exactly when there is room or a terminal entry to drop, and nothing is missing. */
  lemma MadeExactly(st: Store, capacity: nat, token: Text, g: Gate)
    requires Valid(st, capacity) && capacity > 0 && token !in st.entries
    ensures var (r, e) := Create(st, capacity, token, g);
            && (e.Some? <==>
                 && (|st.order| < capacity || exists t :: t in st.entries && st.entries[t].state.Terminal())
                 && 1 <= |token| <= TOKEN_LENGTH && Complete(g))
            && (e.Some? ==> e.value == NewEntry(token, g) && token in r.entries && r.entries[token] == e.value && r.order == Evict(st, capacity).order + [token])
  {
    hide Evict;
    EvictKeeps(st, capacity, capacity);
    EvictMakesRoom(st, capacity);
    hide Valid;
  }

  // --------------------------------------------------------- why tokens must not repeat

  /** The gate again under an old token, up to the old delivery's result. */
  function Again(f: nat, t: Text, g: Gate, m: Text): seq<Event> {
    [Made(t, g), Bound(t, m), Activated(t), Began(t, Some(m), g.userId, None), Returned(f, true)]
  }

  /** If a dropped token is made again, the old delivery's result settles the new gate. */
  lemma ReusedTokenLeaks(sys: System, capacity: nat, f: nat, t: Text, g: Gate, m: Text)
    requires f in sys.flights && f != sys.next && sys.flights[f] == t
    requires 1 <= |t| <= TOKEN_LENGTH && Complete(g) && m != []
    requires var room := Evict(sys.store, capacity); |room.order| < capacity && t !in room.entries && m !in room.byMessage
    ensures var n := Run(sys, capacity, Again(f, t, g, m));
            && t in n.store.entries && n.store.entries[t].state == Answered
            && sys.next in n.flights && n.flights[sys.next] == t
  {
    hide Run, Evict;
    var a := Next(sys, capacity, Made(t, g));
    var b := Next(a, capacity, Bound(t, m));
    assert b.store.entries[t] == Entry.Entry(t, g, Some(m), None, Presenting);
    var c := Next(b, capacity, Activated(t));
    var d := Next(c, capacity, Began(t, Some(m), g.userId, None));
    assert d.flights == sys.flights[sys.next := t] && d.store.entries[t].state == Answering;
    var n := Next(d, capacity, Returned(f, true));
    RunFive(sys, capacity, Made(t, g), Bound(t, m), Activated(t), Began(t, Some(m), g.userId, None), Returned(f, true));
  }

  /** A store of one: the first gate is being answered when it expires and is pushed out by a second. */
  function Pushed(t: Text, other: Text, g: Gate, m: Text): seq<Event> {
    [Made(t, g), Bound(t, m), Activated(t), Began(t, Some(m), g.userId, None), Retired(t, Expired)]
    + [Made(other, g)] + [Retired(other, Expired)]
  }

  /** From the empty store: the leak needs nothing but a repeated token. */
  lemma LeakFromEmpty(t: Text, other: Text, g: Gate, m: Text)
    requires 1 <= |t| <= TOKEN_LENGTH && 1 <= |other| <= TOKEN_LENGTH && t != other && Complete(g) && m != []
    ensures var n := Run(BEGINNING, 1, Pushed(t, other, g, m) + Again(0, t, g, m));
            t in n.store.entries && n.store.entries[t].state == Answered && 1 in n.flights && n.flights[1] == t
  {
    hide Run, Evict, Next;
    var first := [Made(t, g), Bound(t, m), Activated(t), Began(t, Some(m), g.userId, None), Retired(t, Expired)];
    var d := FirstExpires(t, g, m);
    RunFive(BEGINNING, 1, Made(t, g), Bound(t, m), Activated(t), Began(t, Some(m), g.userId, None), Retired(t, Expired));
    SecondExpires(d, t, other, g);
    var e := Next(d, 1, Made(other, g));
    var n := Next(e, 1, Retired(other, Expired));
    RunAppend(BEGINNING, 1, first, [Made(other, g)]);
    RunOne(d, 1, Made(other, g), []);
    RunAppend(BEGINNING, 1, first + [Made(other, g)], [Retired(other, Expired)]);
    RunOne(e, 1, Retired(other, Expired), []);
    assert [Made(other, g)] + [] == [Made(other, g)] && [Retired(other, Expired)] + [] == [Retired(other, Expired)];
    RunAppend(BEGINNING, 1, Pushed(t, other, g, m), Again(0, t, g, m));
    ReusedTokenLeaks(n, 1, 0, t, g, m);
  }

  lemma FirstExpires(t: Text, g: Gate, m: Text) returns (d: System)
    requires 1 <= |t| <= TOKEN_LENGTH && Complete(g) && m != []
    ensures d == Next(Next(Next(Next(Next(BEGINNING, 1, Made(t, g)), 1, Bound(t, m)), 1, Activated(t)), 1, Began(t, Some(m), g.userId, None)), 1, Retired(t, Expired))
    ensures d.store.order == [t] && d.store.entries == map[t := Entry.Entry(t, g, Some(m), None, Expired)]
    ensures d.store.byMessage == map[m := t] && d.flights == map[0 := t] && d.next == 1
  {
    var b := FirstBound(t, g, m);
    hide Evict, Create;
    var c := Next(Next(b, 1, Activated(t)), 1, Began(t, Some(m), g.userId, None));
    assert c.store.entries == map[t := Entry.Entry(t, g, Some(m), None, Answering)] && c.flights == map[0 := t];
    d := Next(c, 1, Retired(t, Expired));
  }

  lemma FirstBound(t: Text, g: Gate, m: Text) returns (b: System)
    requires 1 <= |t| <= TOKEN_LENGTH && Complete(g) && m != []
    ensures b == Next(Next(BEGINNING, 1, Made(t, g)), 1, Bound(t, m))
    ensures b.store.order == [t] && b.store.entries == map[t := Entry.Entry(t, g, Some(m), None, Presenting)]
    ensures b.store.byMessage == map[m := t] && b.flights == map[] && b.next == 0
  {
    assert Evict(EMPTY, 1) == EMPTY;
    hide Evict;
    var a := Next(BEGINNING, 1, Made(t, g));
    assert a.store.order == [t] && a.store.entries == map[t := NewEntry(t, g)];
    b := Next(a, 1, Bound(t, m));
  }

  lemma SecondExpires(d: System, t: Text, other: Text, g: Gate)
    requires 1 <= |other| <= TOKEN_LENGTH && t != other && Complete(g)
    requires d.store.order == [t] && t in d.store.entries && d.store.entries.Keys == {t} && d.store.entries[t].state.Terminal()
    requires d.store.entries[t].messageId.Some? && d.store.byMessage.Keys == {d.store.entries[t].messageId.value}
    ensures var n := Next(Next(d, 1, Made(other, g)), 1, Retired(other, Expired));
            n.flights == d.flights && n.next == d.next && Evict(n.store, 1) == EMPTY
  {
    EvictOnly(d.store, t);
    hide Evict;
    var e := Next(d, 1, Made(other, g));
    assert e.store.order == [other] && e.store.entries == map[other := NewEntry(other, g)];
    var n := Next(e, 1, Retired(other, Expired));
    EvictOnly(n.store, other);
  }

  /** The only entry of a full store of one goes when it is over. */
  lemma EvictOnly(st: Store, t: Text)
    requires st.order == [t] && st.entries.Keys == {t} && st.entries[t].state.Terminal()
    requires st.byMessage.Keys == if st.entries[t].messageId.Some? then {st.entries[t].messageId.value} else {}
    ensures Evict(st, 1) == EMPTY
  {
    var r := Remove(st, t);
    assert r.order == [] by { assert [t][1..] == []; }
    assert r.entries.Keys == {} && r.byMessage.Keys == {};
    assert r == EMPTY;
    assert FirstTerminal(st.order, st.entries) == Some(t);
  }

  lemma {:induction false} RunAppend(sys: System, capacity: nat, a: seq<Event>, b: seq<Event>)
    ensures Run(sys, capacity, a + b) == Run(Run(sys, capacity, a), capacity, b)
    decreases |a|
  {
    hide Next;
    if a == [] {
      assert a + b == b;
    } else {
      assert (a + b)[1..] == a[1..] + b;
      RunAppend(Next(sys, capacity, a[0]), capacity, a[1..], b);
    }
  }

  lemma RunFive(sys: System, capacity: nat, a: Event, b: Event, c: Event, d: Event, e: Event)
    ensures Run(sys, capacity, [a, b, c, d, e]) == Next(Next(Next(Next(Next(sys, capacity, a), capacity, b), capacity, c), capacity, d), capacity, e)
  {
    hide Next;
    var s1 := Next(sys, capacity, a);
    var s2 := Next(s1, capacity, b);
    var s3 := Next(s2, capacity, c);
    var s4 := Next(s3, capacity, d);
    RunOne(sys, capacity, a, [b, c, d, e]);
    RunOne(s1, capacity, b, [c, d, e]);
    RunOne(s2, capacity, c, [d, e]);
    RunOne(s3, capacity, d, [e]);
    RunOne(s4, capacity, e, []);
    assert [a] + [b, c, d, e] == [a, b, c, d, e] && [b] + [c, d, e] == [b, c, d, e];
    assert [c] + [d, e] == [c, d, e] && [d] + [e] == [d, e] && [e] + [] == [e];
  }

  lemma RunOne(sys: System, capacity: nat, e: Event, rest: seq<Event>)
    ensures Run(sys, capacity, [e] + rest) == Run(Next(sys, capacity, e), capacity, rest)
    ensures Run(Next(sys, capacity, e), capacity, []) == Next(sys, capacity, e)
  {
    hide Next;
    assert ([e] + rest)[1..] == rest;
  }

  // ------------------------------------------------------------------- the program

  class GatePresentationStore {
    const maxEntries: nat
    var order: seq<Text>
    var entries: map<Text, Entry>
    var tokensByMessageId: map<Text, Text>

    ghost function Now(): Store
      reads this
    {
      Store(order, entries, tokensByMessageId)
    }

    constructor (maxEntries: nat)
      requires 1 <= maxEntries <= MAX_CAPACITY
      ensures this.maxEntries == maxEntries && Now() == EMPTY
    {
      this.maxEntries := maxEntries;
      order, entries, tokensByMessageId := [], map[], map[];
    }

    /** The eviction loop, the refusals, and the new entry. */
    method Make(token: Text, g: Gate) returns (e: Option<Entry>)
      requires Valid(Now(), maxEntries)
      modifies this
      ensures (Now(), e) == Create(old(Now()), maxEntries, token, g)
      ensures Valid(Now(), maxEntries)
    {
      CreateKeeps(Now(), maxEntries, token, g);
      hide Valid, Without;
      while |order| >= maxEntries
        invariant Evict(Now(), maxEntries) == Evict(old(Now()), maxEntries)
        decreases |order|
      {
        var terminal := FirstTerminal(order, entries);
        if terminal.None? {
          break;
        }
        var _ := Drop(terminal.value);
      }
      if |order| >= maxEntries || !(1 <= |token| <= TOKEN_LENGTH) || token in entries || !Complete(g) {
        return None;
      }
      e := Some(NewEntry(token, g));
      order := order + [token];
      entries := entries[token := e.value];
    }

    method Drop(token: Text) returns (ok: bool)
      modifies this
      ensures Now() == Remove(old(Now()), token) && ok == (token in old(entries))
    {
      hide Without;
      if token !in entries {
        return false;
      }
      var messageId := entries[token].messageId;
      if messageId.Some? {
        tokensByMessageId := tokensByMessageId - {messageId.value};
      }
      order := Without(order, token);
      entries := entries - {token};
      return true;
    }

    method BindMessage(token: Text, messageId: Text) returns (ok: bool)
      modifies this
      ensures (Now(), ok) == Bind(old(Now()), token, messageId)
    {
      if token !in entries || entries[token].state != Presenting || entries[token].messageId.Some?
         || messageId == [] || messageId in tokensByMessageId
      {
        return false;
      }
      entries := entries[token := entries[token].(messageId := Some(messageId))];
      tokensByMessageId := tokensByMessageId[messageId := token];
      return true;
    }

    method ChangeState(token: Text, s: Status)
      requires token in entries
      modifies this
      ensures Now() == SetState(old(Now()), token, s)
    {
      entries := entries[token := entries[token].(state := s)];
    }

    method ActivateGate(token: Text) returns (ok: bool)
      modifies this
      ensures (Now(), ok) == Activate(old(Now()), token)
    {
      if token !in entries || entries[token].state != Presenting || entries[token].messageId.None? {
        return false;
      }
      ChangeState(token, Answerable);
      return true;
    }

    method BeginAnswer(token: Text, messageId: Option<Text>, userId: Text, replyTo: Option<Text>) returns (ok: bool)
      modifies this
      ensures (Now(), ok) == Begin(old(Now()), token, messageId, userId, replyTo)
    {
      if token !in entries || entries[token].state != Answerable {
        return false;
      }
      if entries[token].gate.userId != userId || entries[token].messageId != messageId {
        return false;
      }
      if replyTo.Some? && replyTo != entries[token].messageId {
        return false;
      }
      ChangeState(token, Answering);
      return true;
    }

    method SettleAnswer(token: Text, accepted: bool) returns (ok: bool)
      modifies this
      ensures (Now(), ok) == Settle(old(Now()), token, accepted)
    {
      if token !in entries || entries[token].state != Answering {
        return false;
      }
      ChangeState(token, if accepted then Answered else Answerable);
      return true;
    }

    method RetireGate(token: Text, s: Status) returns (ok: bool)
      modifies this
      ensures (Now(), ok) == Retire(old(Now()), token, s)
    {
      if token !in entries || !s.Terminal() {
        return false;
      }
      if entries[token].state.Terminal() {
        return entries[token].state == s;
      }
      ChangeState(token, s);
      return true;
    }

    /** Finds the one entry bound to a message, in its channel. */
    method FindMessage(messageId: Text, channelId: Option<Text>) returns (e: Option<Entry>)
      requires Valid(Now(), maxEntries)
      ensures e.Some? ==>
                && e.value.token in entries && entries[e.value.token] == e.value && e.value.messageId == Some(messageId)
                && (channelId.None? || e.value.channelId == channelId)
      ensures e.None? ==>
                forall t | t in entries && entries[t].messageId == Some(messageId) :: channelId.Some? && entries[t].channelId != channelId
    {
      if messageId !in tokensByMessageId || tokensByMessageId[messageId] !in entries {
        return None;
      }
      var found := entries[tokensByMessageId[messageId]];
      return if channelId.None? || found.channelId == channelId then Some(found) else None;
    }

    /** A reply is an answer only from the gate's own user, to its message, while it can be answered. */
    method FindReply(messageId: Text, userId: Text, channelId: Option<Text>) returns (e: Option<Entry>)
      requires Valid(Now(), maxEntries)
      ensures e.Some? <==>
                exists t | t in entries ::
                  && entries[t].messageId == Some(messageId) && (channelId.None? || entries[t].channelId == channelId)
                  && entries[t].state == Answerable && entries[t].gate.userId == userId
      ensures e.Some? ==> e.value.token in entries && entries[e.value.token] == e.value && e.value.messageId == Some(messageId)
    {
      var found := FindMessage(messageId, channelId);
      return if found.Some? && found.value.state == Answerable && found.value.gate.userId == userId then found else None;
    }
  }
}
