/**
 The bounded write queue of the startup-observation emitter, as a machine whose steps are
 the calls, write callbacks, stream errors and microtasks that may interleave. The state
 carries what an observer sees: the events accepted, the calls of `write`, and every
 settling of a promise, in order.
 */
module StartupEmitter {
  import opened Encoding
  import opened StartupEvent
  import opened StartupReducer

  datatype Item = Item(id: nat, bytes: seq<Byte>)

  /** A promise settled: the line with this number, or a flush that was asked for when
      `mark` lines had been accepted. */
  datatype Settling = Line(id: nat, ok: bool) | Flushed(id: nat, mark: nat, ok: bool)

  datatype Waiter = Waiter(id: nat, mark: nat)

  datatype Emitter = Emitter(
    sequence: nat,
    pendingBytes: int,
    queue: seq<Item>,
    active: Option<Item>,
    failed: bool,
    closing: bool,
    closed: bool,
    waiters: seq<Waiter>,
    scheduled: nat,
    flushes: nat,
    events: seq<Event>,
    writes: seq<seq<Byte>>,
    log: seq<Settling>)

  const FRESH := Emitter(0, 0, [], None, false, false, false, [], 0, 0, [], [], [])

  datatype Action =
    | Emit(state: State, throws: bool)
    | WriteDone(id: nat, error: bool)
    | StreamError
    | Microtask(throws: bool)
    | Flush
    | Close
    | FinishClose(throws: bool)

  // ---------------------------------------------------------------------- steps

  function FailedLines(items: seq<Item>): (r: seq<Settling>)
    ensures |r| == |items| && forall i | 0 <= i < |items| :: r[i] == Line(items[i].id, false)
  {
    seq(|items|, i requires 0 <= i < |items| => Line(items[i].id, false))
  }

  function SettledFlushes(waiters: seq<Waiter>, ok: bool): (r: seq<Settling>)
    ensures |r| == |waiters| && forall i | 0 <= i < |waiters| :: r[i] == Flushed(waiters[i].id, waiters[i].mark, ok)
  {
    seq(|waiters|, i requires 0 <= i < |waiters| => Flushed(waiters[i].id, waiters[i].mark, ok))
  }

  function Outstanding(s: Emitter): seq<Item> {
    s.queue + (if s.active.Some? then [s.active.value] else [])
  }

  /** `settleFailure`: everything outstanding is rejected, once. */
  function SettleFailure(s: Emitter): Emitter {
    s.(failed := true, queue := [], active := None, pendingBytes := 0, waiters := [],
       log := s.log + FailedLines(Outstanding(s)) + SettledFlushes(s.waiters, false))
  }

  /** `pump`: start the next write, or tell the waiters that nothing is left. */
  function Pump(s: Emitter, throws: bool): Emitter {
    if s.active.Some? || s.failed then s
    else if s.queue == [] then
      if s.pendingBytes != 0 then s
      else s.(waiters := [], log := s.log + SettledFlushes(s.waiters, true))
    else
      var next := s.(active := Some(s.queue[0]), queue := s.queue[1..], writes := s.writes + [s.queue[0].bytes]);
      if throws then SettleFailure(next) else next
  }

  function EventFor(c: Config, sequence: nat, state: State): Event {
    BoundEvent(c.binding, sequence + 1, state)
  }

  predicate Acceptable(c: Config, e: Event): (ok: bool)
    ensures ok ==> ValidEvent(e)
  {
    ValidEvent(e) && Bound(e, c.binding, c.expected) && |EventBytes(e)| <= EVENT_BYTES
  }

  function LineBytes(e: Event): seq<Byte>
    requires ValidEvent(e)
  {
    EventBytes(e) + [LF]
  }

  function EmitStep(c: Config, s: Emitter, state: State, throws: bool): Emitter {
    if s.failed || s.closing || s.closed then s
    else if s.sequence >= MAX_SAFE_INTEGER then SettleFailure(s)
    else
      var e := EventFor(c, s.sequence, state);
      if !Acceptable(c, e) then SettleFailure(s)
      else
        var bytes := LineBytes(e);
        if |bytes| > EVENT_BYTES + 1 || s.pendingBytes + |bytes| > EMITTER_QUEUE_BYTES then SettleFailure(s)
        else Pump(Enqueued(s, e), throws)
  }

  /** The line of an accepted event joins the queue. */
  function Enqueued(s: Emitter, e: Event): Emitter
    requires ValidEvent(e)
  {
    var bytes := LineBytes(e);
    s.(sequence := s.sequence + 1, pendingBytes := s.pendingBytes + |bytes|,
       queue := s.queue + [Item(s.sequence + 1, bytes)], events := s.events + [e])
  }

  /** The callback of one write; a callback that is late or repeated does nothing. */
  function WriteDoneStep(s: Emitter, id: nat, error: bool): Emitter {
    if s.active.None? || s.active.value.id != id then s
    else
      var item := s.active.value;
      var idle := s.(active := None, pendingBytes := s.pendingBytes - |item.bytes|);
      if error then
        var failed := SettleFailure(idle);
        failed.(log := failed.log + [Line(id, false)])
      else idle.(log := s.log + [Line(id, true)], scheduled := s.scheduled + 1)
  }

  predicate Idle(s: Emitter) {
    s.pendingBytes == 0 && s.active.None? && s.queue == []
  }

  function FlushStep(s: Emitter): Emitter {
    var asked := s.(flushes := s.flushes + 1);
    if s.failed then asked.(log := s.log + [Flushed(s.flushes, s.sequence, false)])
    else if Idle(s) then asked.(log := s.log + [Flushed(s.flushes, s.sequence, true)])
    else asked.(waiters := s.waiters + [Waiter(s.flushes, s.sequence)])
  }

  function Next(c: Config, s: Emitter, a: Action): Emitter {
    match a
    case Emit(state, throws) => EmitStep(c, s, state, throws)
    case WriteDone(id, error) => WriteDoneStep(s, id, error)
    case StreamError => if s.closed then s else SettleFailure(s)
    case Microtask(throws) => if s.scheduled == 0 then s else Pump(s.(scheduled := s.scheduled - 1), throws)
    case Flush => FlushStep(s)
    case Close => if s.closed then s else FlushStep(s.(closing := true))
    case FinishClose(throws) =>
      if !s.closing || s.closed then s
      else
        var done := s.(closed := true);
        if throws then SettleFailure(done) else done
  }

  function Run(c: Config, s: Emitter, actions: seq<Action>): Emitter
    decreases |actions|
  {
    if actions == [] then s else Run(c, Next(c, s, actions[0]), actions[1..])
  }

  // ------------------------------------------------------------------ invariant

  function TotalBytes(items: seq<Item>): nat {
    if items == [] then 0 else |items[0].bytes| + TotalBytes(items[1..])
  }

  /** The line numbers settled, in order, and the flushes settled, in order. */
  function LineEntries(log: seq<Settling>): seq<(nat, bool)> {
    if log == [] then [] else LineEntry(log[0]) + LineEntries(log[1..])
  }

  function LineEntry(x: Settling): seq<(nat, bool)> {
    if x.Line? then [(x.id, x.ok)] else []
  }

  function FlushIds(log: seq<Settling>): seq<nat> {
    if log == [] then [] else FlushId(log[0]) + FlushIds(log[1..])
  }

  function FlushId(x: Settling): seq<nat> {
    if x.Flushed? then [x.id] else []
  }

  predicate Distinct(s: seq<nat>) {
    forall i, j | 0 <= i < j < |s| :: s[i] != s[j]
  }

  function WaiterIds(waiters: seq<Waiter>): (r: seq<nat>)
    ensures |r| == |waiters| && forall i | 0 <= i < |r| :: r[i] == waiters[i].id
  {
    seq(|waiters|, i requires 0 <= i < |waiters| => waiters[i].id)
  }

  /** Accepted events are numbered without gaps, and the writes are their lines in order. */
  ghost predicate Ordered(c: Config, s: Emitter) {
    && |s.events| == s.sequence
    && (forall i | 0 <= i < |s.events| :: Acceptable(c, s.events[i]) && s.events[i].sequence == i + 1)
    && |s.writes| <= s.sequence
    && (forall i | 0 <= i < |s.writes| :: s.writes[i] == LineBytes(s.events[i]))
  }

  /** How many lines have been acknowledged, while nothing failed. */
  function Acknowledged(s: Emitter): int {
    |s.writes| - (if s.active.Some? then 1 else 0)
  }

  /** The queue holds exactly the lines not yet written, the active item the last written one. */
  ghost predicate Queued(c: Config, s: Emitter)
    requires Ordered(c, s)
  {
    && |s.writes| + |s.queue| == s.sequence
    && (forall i | 0 <= i < |s.queue| :: s.queue[i] == Item(|s.writes| + i + 1, LineBytes(s.events[|s.writes| + i])))
    && (s.active.Some? ==> |s.writes| > 0 && s.active.value == Item(|s.writes|, LineBytes(s.events[|s.writes| - 1])))
    && s.pendingBytes == TotalBytes(Outstanding(s)) && s.pendingBytes <= EMITTER_QUEUE_BYTES
    && |LineEntries(s.log)| == Acknowledged(s)
    && (forall i | 0 <= i < |LineEntries(s.log)| :: LineEntries(s.log)[i] == (i + 1, true))
  }

  /** No waiter and no line is left behind: if no write is under way, a microtask will pump. */
  ghost predicate Awake(s: Emitter) {
    s.active.None? && (s.queue != [] || s.waiters != []) ==> s.scheduled > 0
  }

  ghost predicate Stopped(s: Emitter) {
    && s.queue == [] && s.active.None? && s.waiters == [] && s.pendingBytes == 0
    && |LineEntries(s.log)| == s.sequence
    && (forall i, j | 0 <= i < j < |LineEntries(s.log)| :: LineEntries(s.log)[i].0 != LineEntries(s.log)[j].0)
  }

  ghost predicate FlushesOnce(s: Emitter) {
    && Distinct(FlushIds(s.log) + WaiterIds(s.waiters)) && |FlushIds(s.log)| + |s.waiters| == s.flushes
    && (forall i | 0 <= i < |FlushIds(s.log)| :: FlushIds(s.log)[i] < s.flushes)
    && (forall i | 0 <= i < |s.waiters| :: s.waiters[i].id < s.flushes && s.waiters[i].mark <= s.sequence)
  }

  /** A flush that resolved came after every line accepted before it was asked for. */
  ghost predicate FlushesHonest(log: seq<Settling>) {
    forall i | 0 <= i < |log| && log[i].Flushed? && log[i].ok ::
      forall n | 1 <= n <= log[i].mark :: Line(n, true) in log[..i]
  }

  /** As long as nothing failed, no flush is rejected. */
  ghost predicate Blameless(s: Emitter) {
    !s.failed ==> forall i | 0 <= i < |s.log| && s.log[i].Flushed? :: s.log[i].ok
  }

  ghost predicate Sound(c: Config, s: Emitter) {
    && Ordered(c, s) && FlushesOnce(s) && FlushesHonest(s.log) && Blameless(s)
    && (if s.failed then Stopped(s) else Queued(c, s))
  }

  ghost predicate Inv(c: Config, s: Emitter) {
    Sound(c, s) && (!s.failed ==> Awake(s))
  }

  // -------------------------------------------------------------- log arithmetic

  lemma Associate<T>(a: seq<T>, b: seq<T>, c: seq<T>)
    ensures a + b + c == a + (b + c)
  {}

  lemma {:induction false} LineEntriesAppend(a: seq<Settling>, b: seq<Settling>)
    ensures LineEntries(a + b) == LineEntries(a) + LineEntries(b)
  {
    if a == [] {
      assert a + b == b;
    } else {
      hide LineEntry;
      LineEntriesAppend(a[1..], b);
      assert (a + b)[1..] == a[1..] + b;
      Associate(LineEntry(a[0]), LineEntries(a[1..]), LineEntries(b));
    }
  }

  lemma {:induction false} FlushIdsAppend(a: seq<Settling>, b: seq<Settling>)
    ensures FlushIds(a + b) == FlushIds(a) + FlushIds(b)
  {
    if a == [] {
      assert a + b == b;
    } else {
      hide FlushId;
      FlushIdsAppend(a[1..], b);
      assert (a + b)[1..] == a[1..] + b;
      Associate(FlushId(a[0]), FlushIds(a[1..]), FlushIds(b));
    }
  }

  lemma {:induction false} EntriesOfLines(items: seq<Item>)
    ensures FlushIds(FailedLines(items)) == []
    ensures |LineEntries(FailedLines(items))| == |items|
    ensures forall i | 0 <= i < |items| :: LineEntries(FailedLines(items))[i] == (items[i].id, false)
    decreases |items|
  {
    if items != [] {
      EntriesOfLines(items[1..]);
      assert FailedLines(items)[1..] == FailedLines(items[1..]);
    }
  }

  lemma {:induction false} EntriesOfFlushes(waiters: seq<Waiter>, ok: bool)
    ensures LineEntries(SettledFlushes(waiters, ok)) == []
    ensures FlushIds(SettledFlushes(waiters, ok)) == WaiterIds(waiters)
    decreases |waiters|
  {
    if waiters != [] {
      EntriesOfFlushes(waiters[1..], ok);
      assert SettledFlushes(waiters, ok)[1..] == SettledFlushes(waiters[1..], ok);
      assert WaiterIds(waiters) == [waiters[0].id] + WaiterIds(waiters[1..]);
    }
  }

  lemma {:induction false} TotalBytesAppend(a: seq<Item>, b: seq<Item>)
    ensures TotalBytes(a + b) == TotalBytes(a) + TotalBytes(b)
  {
    if a == [] {
      assert a + b == b;
    } else {
      TotalBytesAppend(a[1..], b);
      assert (a + b)[1..] == a[1..] + b;
    }
  }

  /** An acknowledged line is in the log. */
  lemma {:induction false} EntryInLog(log: seq<Settling>, n: nat)
    requires (n, true) in LineEntries(log)
    ensures Line(n, true) in log
  {
    if log != [] && log[0] != Line(n, true) {
      EntryInLog(log[1..], n);
    }
  }

  lemma HonestAppend(log: seq<Settling>, more: seq<Settling>)
    requires FlushesHonest(log)
    requires forall i | 0 <= i < |more| && more[i].Flushed? && more[i].ok ::
               forall n | 1 <= n <= more[i].mark :: Line(n, true) in log
    ensures FlushesHonest(log + more)
  {
    var all := log + more;
    forall i, n | 0 <= i < |all| && all[i].Flushed? && all[i].ok && 1 <= n <= all[i].mark
      ensures Line(n, true) in all[..i]
    {
      if i < |log| {
        assert all[..i] == log[..i];
      } else {
        assert all[i] == more[i - |log|];
        assert all[..i] == log + more[..i - |log|];
      }
    }
  }

  // ------------------------------------------------------- every step keeps it

  /** The lines rejected by a failure, with the ones acknowledged before, are all lines, once each. */
  lemma RejectedOnce(c: Config, s: Emitter, log: seq<Settling>)
    requires Ordered(c, s) && Queued(c, s)
    requires LineEntries(log) == LineEntries(s.log) + LineEntries(FailedLines(Outstanding(s)))
    ensures |LineEntries(log)| == s.sequence
    ensures forall i, j | 0 <= i < j < |LineEntries(log)| :: LineEntries(log)[i].0 != LineEntries(log)[j].0
  {
    hide Acceptable, LineEntries, LineBytes, TotalBytes;
    var items := Outstanding(s);
    var before, after := LineEntries(s.log), LineEntries(FailedLines(items));
    EntriesOfLines(items);
    forall i | 0 <= i < |items| ensures after[i].0 == if i < |s.queue| then |s.writes| + i + 1 else |s.writes| {
      assert items[i].id == if i < |s.queue| then |s.writes| + i + 1 else |s.writes|;
    }
  }

  lemma FailureKeeps(c: Config, s: Emitter)
    requires Sound(c, s)
    ensures Inv(c, SettleFailure(s))
  {
    hide Acceptable, LineEntries, FlushIds, LineBytes, TotalBytes, FlushesHonest, FlushesOnce;
    var lines, flushes := FailedLines(Outstanding(s)), SettledFlushes(s.waiters, false);
    var t := SettleFailure(s);
    FailureFlushes(s);
    LineEntriesAppend(s.log, lines);
    LineEntriesAppend(s.log + lines, flushes);
    EntriesOfLines(Outstanding(s));
    EntriesOfFlushes(s.waiters, false);
    assert LineEntries(t.log) == LineEntries(s.log) + LineEntries(lines);
    HonestAppend(s.log, lines);
    HonestAppend(s.log + lines, flushes);
    if s.failed {
      assert lines == [] && LineEntries(t.log) == LineEntries(s.log);
    } else {
      RejectedOnce(c, s, t.log);
    }
  }

  lemma FailureFlushes(s: Emitter)
    requires FlushesOnce(s)
    ensures FlushesOnce(SettleFailure(s))
  {
    hide LineEntries, FlushIds;
    var lines, flushes := FailedLines(Outstanding(s)), SettledFlushes(s.waiters, false);
    var t := SettleFailure(s);
    FlushIdsAppend(s.log, lines);
    FlushIdsAppend(s.log + lines, flushes);
    EntriesOfLines(Outstanding(s));
    EntriesOfFlushes(s.waiters, false);
    assert FlushIds(t.log) == FlushIds(s.log) + WaiterIds(s.waiters);
    assert WaiterIds(t.waiters) == [];
    assert FlushIds(t.log) + WaiterIds(t.waiters) == FlushIds(t.log);
  }

  /** While nothing failed, every acknowledged line is in the log. */
  lemma AcknowledgedLogged(c: Config, s: Emitter)
    requires Sound(c, s) && !s.failed
    ensures forall n | 1 <= n <= Acknowledged(s) :: Line(n, true) in s.log
  {
    hide Acceptable, LineEntries, LineBytes;
    forall n | 1 <= n <= Acknowledged(s) ensures Line(n, true) in s.log {
      assert LineEntries(s.log)[n - 1] == (n, true);
      EntryInLog(s.log, n);
    }
  }

  lemma WakeKeeps(c: Config, s: Emitter)
    requires Sound(c, s) && !s.failed && s.active.None? && s.queue == []
    ensures Inv(c, Pump(s, false)) && s.pendingBytes == 0
  {
    hide Acceptable, LineEntries, FlushIds, LineBytes, FlushesHonest;
    assert Outstanding(s) == [];
    var flushes := SettledFlushes(s.waiters, true);
    var t := Pump(s, false);
    LineEntriesAppend(s.log, flushes);
    FlushIdsAppend(s.log, flushes);
    EntriesOfFlushes(s.waiters, true);
    AcknowledgedLogged(c, s);
    HonestAppend(s.log, flushes);
    assert FlushIds(t.log) + WaiterIds(t.waiters) == FlushIds(s.log) + WaiterIds(s.waiters);
    assert LineEntries(t.log) == LineEntries(s.log);
  }

  lemma StartKeeps(c: Config, s: Emitter)
    requires Sound(c, s) && !s.failed && s.active.None? && s.queue != []
    ensures Inv(c, Pump(s, false))
  {
    hide Acceptable, LineEntries, FlushIds, LineBytes, FlushesHonest, FlushesOnce, TotalBytes;
    var t := Pump(s, false);
    assert Outstanding(t) == s.queue[1..] + [s.queue[0]];
    assert Outstanding(s) == [s.queue[0]] + s.queue[1..];
    TotalBytesAppend(s.queue[1..], [s.queue[0]]);
    TotalBytesAppend([s.queue[0]], s.queue[1..]);
    assert s.queue[0] == Item(|s.writes| + 1, LineBytes(s.events[|s.writes|]));
    FlushesOnceSame(s, t);
  }

  lemma FlushesOnceSame(s: Emitter, t: Emitter)
    requires FlushesOnce(s) && t.log == s.log && t.waiters == s.waiters && t.flushes == s.flushes && t.sequence >= s.sequence
    ensures FlushesOnce(t)
  {}

  lemma PumpKeeps(c: Config, s: Emitter, throws: bool)
    requires Sound(c, s)
    ensures Inv(c, Pump(s, throws))
  {
    hide Sound, SettleFailure;
    if !s.failed && s.active.None? {
      if s.queue == [] {
        WakeKeeps(c, s);
      } else {
        StartKeeps(c, s);
        FailureKeeps(c, Pump(s, false));
      }
    }
  }

  lemma EmitKeeps(c: Config, s: Emitter, state: State, throws: bool)
    requires Inv(c, s)
    ensures Inv(c, EmitStep(c, s, state, throws))
  {
    hide Acceptable, LineBytes, Sound, Awake, Pump, SettleFailure, Enqueued;
    FailureKeeps(c, s);
    var e := EventFor(c, s.sequence, state);
    if !s.failed && Acceptable(c, e) && s.pendingBytes + |LineBytes(e)| <= EMITTER_QUEUE_BYTES {
      EnqueuedSound(c, s, e);
      PumpKeeps(c, Enqueued(s, e), throws);
    }
  }

  lemma EnqueuedSound(c: Config, s: Emitter, e: Event)
    requires Sound(c, s) && !s.failed && Acceptable(c, e) && e.sequence == s.sequence + 1
    requires s.pendingBytes + |LineBytes(e)| <= EMITTER_QUEUE_BYTES
    ensures Sound(c, Enqueued(s, e))
  {
    hide Acceptable, LineEntries, FlushIds, LineBytes, FlushesHonest, FlushesOnce, TotalBytes, Outstanding;
    var t := Enqueued(s, e);
    assert Ordered(c, t);
    OutstandingGrows(s, t, Item(s.sequence + 1, LineBytes(e)));
    FlushesOnceSame(s, t);
  }

  lemma OutstandingGrows(s: Emitter, t: Emitter, item: Item)
    requires t.queue == s.queue + [item] && t.active == s.active
    ensures TotalBytes(Outstanding(t)) == TotalBytes(Outstanding(s)) + |item.bytes|
  {
    var tail := if s.active.Some? then [s.active.value] else [];
    TotalBytesAppend(s.queue + [item], tail);
    TotalBytesAppend(s.queue, [item]);
    TotalBytesAppend(s.queue, tail);
    OneItem(item);
  }

  lemma OneItem(item: Item)
    ensures TotalBytes([item]) == |item.bytes|
  {
    assert [item][1..] == [];
  }

  lemma AcknowledgeKeeps(c: Config, s: Emitter, id: nat)
    requires Inv(c, s) && s.active.Some? && s.active.value.id == id
    ensures Inv(c, WriteDoneStep(s, id, false))
  {
    hide Acceptable, LineEntries, FlushIds, LineBytes, FlushesHonest, TotalBytes;
    var t := WriteDoneStep(s, id, false);
    var item, entry := s.active.value, [Line(id, true)];
    LineEntriesAppend(s.log, entry);
    FlushIdsAppend(s.log, entry);
    OneLine(id, true);
    HonestAppend(s.log, entry);
    assert Outstanding(s) == s.queue + [item] && Outstanding(t) == s.queue;
    TotalBytesAppend(s.queue, [item]);
    OneItem(item);
    assert LineEntries(t.log) == LineEntries(s.log) + [(id, true)];
    assert FlushIds(t.log) == FlushIds(s.log);
  }

  lemma OneLine(id: nat, ok: bool)
    ensures LineEntries([Line(id, ok)]) == [(id, ok)] && FlushIds([Line(id, ok)]) == []
  {
    assert [Line(id, ok)][1..] == [];
  }

  lemma WriteErrorKeeps(c: Config, s: Emitter, id: nat)
    requires Inv(c, s) && s.active.Some? && s.active.value.id == id
    ensures Inv(c, WriteDoneStep(s, id, true))
  {
    hide Acceptable, LineEntries, FlushIds, LineBytes, TotalBytes, FlushesHonest;
    var t := WriteDoneStep(s, id, true);
    var lines, flushes, entry := FailedLines(s.queue), SettledFlushes(s.waiters, false), [Line(id, false)];
    assert t.log == s.log + lines + flushes + entry by { assert s.queue + [] == s.queue; }
    LineEntriesAppend(s.log, lines);
    LineEntriesAppend(s.log + lines, flushes);
    LineEntriesAppend(s.log + lines + flushes, entry);
    FlushIdsAppend(s.log, lines);
    FlushIdsAppend(s.log + lines, flushes);
    FlushIdsAppend(s.log + lines + flushes, entry);
    EntriesOfLines(s.queue);
    EntriesOfFlushes(s.waiters, false);
    OneLine(id, false);
    HonestAppend(s.log, lines);
    HonestAppend(s.log + lines, flushes);
    HonestAppend(s.log + lines + flushes, entry);
    assert FlushIds(t.log) + WaiterIds(t.waiters) == FlushIds(s.log) + WaiterIds(s.waiters);
    assert LineEntries(t.log) == LineEntries(s.log) + (LineEntries(lines) + [(id, false)]);
    EntriesOfLines(Outstanding(s));
    assert LineEntries(FailedLines(Outstanding(s))) == LineEntries(lines) + [(id, false)];
    RejectedOnce(c, s, t.log);
  }

  /** A flush that can be answered at once. */
  lemma FlushNowKeeps(c: Config, s: Emitter)
    requires Inv(c, s) && (s.failed || Idle(s))
    ensures Inv(c, FlushStep(s))
  {
    hide Acceptable, LineEntries, FlushIds, LineBytes, TotalBytes, FlushesHonest;
    var t := FlushStep(s);
    var entry := [Flushed(s.flushes, s.sequence, !s.failed)];
    assert t.log == s.log + entry;
    LineEntriesAppend(s.log, entry);
    FlushIdsAppend(s.log, entry);
    OneFlush(s.flushes, s.sequence, !s.failed);
    if !s.failed { AcknowledgedLogged(c, s); }
    HonestAppend(s.log, entry);
    assert LineEntries(t.log) == LineEntries(s.log);
    FlushesOnceMore(s, t);
  }

  lemma FlushesOnceMore(s: Emitter, t: Emitter)
    requires FlushesOnce(s) && FlushIds(t.log) == FlushIds(s.log) + [s.flushes]
    requires t.waiters == s.waiters && t.flushes == s.flushes + 1 && t.sequence == s.sequence
    ensures FlushesOnce(t)
  {
    hide FlushIds, Distinct;
    var logged, waiting, x := FlushIds(s.log), WaiterIds(s.waiters), s.flushes;
    assert forall i | 0 <= i < |waiting| :: waiting[i] < x;
    DistinctInsert(logged, waiting, x);
    var after := logged + [x];
    assert FlushIds(t.log) == after && WaiterIds(t.waiters) == waiting;
    assert forall i | 0 <= i < |after| :: after[i] < t.flushes;
  }

  /** A flush that has to wait. */
  lemma FlushLaterKeeps(c: Config, s: Emitter)
    requires Inv(c, s) && !s.failed && !Idle(s)
    ensures Inv(c, FlushStep(s))
  {
    hide Acceptable, LineEntries, FlushIds, LineBytes, TotalBytes, FlushesHonest;
    var t := FlushStep(s);
    NothingPending(s);
    assert WaiterIds(t.waiters) == WaiterIds(s.waiters) + [s.flushes];
    assert FlushIds(t.log) + WaiterIds(t.waiters) == (FlushIds(s.log) + WaiterIds(s.waiters)) + [s.flushes];
  }

  lemma NothingPending(s: Emitter)
    ensures s.active.None? && s.queue == [] ==> TotalBytes(Outstanding(s)) == 0
  {}

  lemma FlushKeeps(c: Config, s: Emitter)
    requires Inv(c, s)
    ensures Inv(c, FlushStep(s))
  {
    hide Inv, FlushStep;
    if s.failed || Idle(s) { FlushNowKeeps(c, s); } else { FlushLaterKeeps(c, s); }
  }

  lemma OneFlush(id: nat, mark: nat, ok: bool)
    ensures LineEntries([Flushed(id, mark, ok)]) == [] && FlushIds([Flushed(id, mark, ok)]) == [id]
  {
    assert [Flushed(id, mark, ok)][1..] == [];
  }

  lemma DistinctInsert(a: seq<nat>, b: seq<nat>, x: nat)
    requires Distinct(a + b) && x !in a && x !in b
    ensures Distinct(a + [x] + b)
  {
    var ab, all := a + b, a + [x] + b;
    forall i, j | 0 <= i < j < |all| ensures all[i] != all[j] {
      assert all[i] == if i < |a| then ab[i] else if i == |a| then x else ab[i - 1];
      assert all[j] == if j < |a| then ab[j] else if j == |a| then x else ab[j - 1];
    }
  }

  /** Every step keeps the invariant. */
  lemma NextKeeps(c: Config, s: Emitter, a: Action)
    requires Inv(c, s)
    ensures Inv(c, Next(c, s, a))
  {
    hide Ordered, Queued, Stopped, FlushesOnce, FlushesHonest, EmitStep, WriteDoneStep, Pump, SettleFailure, FlushStep;
    match a
    case Emit(state, throws) => EmitKeeps(c, s, state, throws);
    case WriteDone(id, error) =>
      if s.active.Some? && s.active.value.id == id {
        if error { WriteErrorKeeps(c, s, id); } else { AcknowledgeKeeps(c, s, id); }
      } else {
        LateCallback(s, id, error);
      }
    case StreamError => FailureKeeps(c, s);
    case Microtask(throws) =>
      if s.scheduled > 0 {
        Relabel(c, s, s.(scheduled := s.scheduled - 1));
        PumpKeeps(c, s.(scheduled := s.scheduled - 1), throws);
      }
    case Flush => FlushKeeps(c, s);
    case Close =>
      Relabel(c, s, s.(closing := true));
      FlushKeeps(c, s.(closing := true));
    case FinishClose(throws) =>
      Relabel(c, s, s.(closed := true));
      FailureKeeps(c, s.(closed := true));
  }

  lemma LateCallback(s: Emitter, id: nat, error: bool)
    requires s.active.None? || s.active.value.id != id
    ensures WriteDoneStep(s, id, error) == s
  {}

  /** The flags of the shutdown and the microtask count are outside the invariant's core. */
  lemma Relabel(c: Config, s: Emitter, t: Emitter)
    requires Sound(c, s) && t == s.(closing := t.closing, closed := t.closed, scheduled := t.scheduled)
    ensures Sound(c, t)
  {
    hide Acceptable, LineEntries, FlushIds, LineBytes, TotalBytes, FlushesHonest;
  }

  lemma FreshInv(c: Config)
    ensures Inv(c, FRESH)
  {
    FreshOrdered(c);
    FreshFlushes();
    FreshQueued(c);
    hide Ordered, FlushesOnce, FlushesHonest, Blameless, Queued, Stopped;
  }

  lemma FreshOrdered(c: Config)
    ensures Ordered(c, FRESH)
  {
    hide Acceptable, LineBytes;
  }

  lemma FreshFlushes()
    ensures FlushesOnce(FRESH) && FlushesHonest(FRESH.log) && Blameless(FRESH)
  {}

  lemma FreshQueued(c: Config)
    ensures Queued(c, FRESH) && Awake(FRESH)
  {
    hide Acceptable, LineBytes;
  }

  lemma {:induction false} RunKeeps(c: Config, s: Emitter, actions: seq<Action>)
    requires Inv(c, s)
    ensures Inv(c, Run(c, s, actions))
    decreases |actions|
  {
    hide Inv, Next;
    if actions != [] {
      NextKeeps(c, s, actions[0]);
      RunKeeps(c, Next(c, s, actions[0]), actions[1..]);
    }
  }

  // --------------------------------------------------------------- main results

  /** Under every interleaving: the byte count is exact and bounded, writes are the accepted
      lines in order without gaps, no promise settles twice, a resolved flush comes after
      every earlier line was acknowledged, and no waiter is stranded. */
  lemma QueueIsSafe(c: Config, actions: seq<Action>)
    ensures var s := Run(c, FRESH, actions);
            && (!s.failed ==> s.pendingBytes == TotalBytes(Outstanding(s)) <= EMITTER_QUEUE_BYTES)
            && |s.events| == s.sequence && |s.writes| <= s.sequence
            && (forall i | 0 <= i < |s.events| :: Acceptable(c, s.events[i]) && s.events[i].sequence == i + 1)
            && (forall i | 0 <= i < |s.writes| :: s.writes[i] == LineBytes(s.events[i]))
            && (forall i, j | 0 <= i < j < |LineEntries(s.log)| :: LineEntries(s.log)[i].0 != LineEntries(s.log)[j].0)
            && Distinct(FlushIds(s.log))
            && FlushesHonest(s.log)
            && (!s.failed && s.active.None? && (s.queue != [] || s.waiters != []) ==> s.scheduled > 0)
  {
    hide Run, Acceptable, LineEntries, FlushIds, LineBytes, TotalBytes, FlushesHonest, Outstanding;
    FreshInv(c);
    RunKeeps(c, FRESH, actions);
    var s := Run(c, FRESH, actions);
    assert Distinct(FlushIds(s.log)) by {
      var all := FlushIds(s.log) + WaiterIds(s.waiters);
      assert forall i | 0 <= i < |FlushIds(s.log)| :: FlushIds(s.log)[i] == all[i];
    }
  }

  /** A failure is final: nothing is written, accepted or resolved after it. */
  lemma {:induction false} FailureIsFinal(c: Config, s: Emitter, actions: seq<Action>)
    requires Inv(c, s) && s.failed
    ensures var t := Run(c, s, actions);
            && t.failed && t.writes == s.writes && t.events == s.events && LineEntries(t.log) == LineEntries(s.log)
    decreases |actions|
  {
    hide Ordered, FlushesOnce, FlushesHonest, LineEntries;
    if actions != [] {
      var t := Next(c, s, actions[0]);
      NextKeeps(c, s, actions[0]);
      FailedStep(c, s, actions[0]);
      FailureIsFinal(c, t, actions[1..]);
    }
  }

  lemma FailedStep(c: Config, s: Emitter, a: Action)
    requires Stopped(s) && s.failed
    ensures var t := Next(c, s, a);
            t.failed && t.writes == s.writes && t.events == s.events && LineEntries(t.log) == LineEntries(s.log)
  {
    hide LineEntries, Acceptable, LineBytes;
    var lines, flushes := FailedLines(Outstanding(s)), SettledFlushes(s.waiters, false);
    assert s.log + lines + flushes == s.log;
    var entry := [Flushed(s.flushes, s.sequence, false)];
    LineEntriesAppend(s.log, entry);
    OneFlush(s.flushes, s.sequence, false);
    assert LineEntries(s.log) + [] == LineEntries(s.log);
  }
}
