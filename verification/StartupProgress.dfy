/** What the emitter must do, beside what it must not: accept, settle every promise, drain, and stop when closed. */
module StartupProgress {
  import opened Encoding
  import opened StartupEvent
  import opened StartupReducer
  import opened StartupEmitter
  import Size = StartupSize

  // ------------------------------------------------------------- no promise is forgotten

  function Below(n: nat): (r: set<nat>)
    ensures |r| == n
    ensures forall x: nat :: x in r <==> x < n
  {
    if n == 0 then {} else Below(n - 1) + {n - 1}
  }

  function Elements(s: seq<nat>): (r: set<nat>)
    ensures forall x: nat :: x in r <==> x in s
  {
    if s == [] then {} else Elements(s[1..]) + {s[0]}
  }

  lemma {:induction false} ElementsSize(s: seq<nat>)
    requires Distinct(s)
    ensures |Elements(s)| == |s|
  {
    if s != [] {
      ElementsSize(s[1..]);
      assert s[0] !in s[1..];
    }
  }

  lemma SameSet(a: set<nat>, b: set<nat>)
    requires a <= b && |a| == |b|
    ensures a == b
  {
    assert b == a + (b - a);
  }

  /** A list of different numbers below its length holds them all. */
  lemma Pigeons(s: seq<nat>, n: nat)
    requires Distinct(s) && |s| == n && forall i | 0 <= i < |s| :: s[i] < n
    ensures forall x: nat | x < n :: x in s
  {
    hide Elements, Below;
    ElementsSize(s);
    assert Elements(s) <= Below(n);
    SameSet(Elements(s), Below(n));
  }

  /**
    * Over every run, every flush that was asked for is either settled or waiting, once; and as long
    * as nothing failed, no flush and no line is rejected.
    */
  lemma EveryFlushCounts(c: Config, actions: seq<Action>)
    ensures var s := Run(c, FRESH, actions);
            && (forall id | 0 <= id < s.flushes :: id in FlushIds(s.log) + WaiterIds(s.waiters))
            && Distinct(FlushIds(s.log) + WaiterIds(s.waiters)) && |FlushIds(s.log)| + |s.waiters| == s.flushes
            && (forall x | x in s.log && x.Flushed? && !x.ok :: s.failed)
            && (forall i | 0 <= i < |LineEntries(s.log)| && !LineEntries(s.log)[i].1 :: s.failed)
  {
    hide Run, Acceptable, LineEntries, FlushIds, LineBytes, TotalBytes, FlushesHonest, Outstanding, Distinct;
    FreshInv(c);
    RunKeeps(c, FRESH, actions);
    var s := Run(c, FRESH, actions);
    var ids := FlushIds(s.log) + WaiterIds(s.waiters);
    assert forall i | 0 <= i < |ids| :: ids[i] < s.flushes;
    Pigeons(ids, s.flushes);
  }

  // -------------------------------------------------------------------- what is accepted

  /** An open emitter accepts a state exactly when it makes a valid event of this process and its line still fits the queue; otherwise it fails. */
  lemma EmitExactly(c: Config, s: Emitter, state: State)
    requires Inv(c, s) && !s.failed && !s.closing && !s.closed
    ensures var e, t := EventFor(c, s.sequence, state), Next(c, s, Emit(state, false));
            if s.sequence < MAX_SAFE_INTEGER && ValidEvent(e) && Bound(e, c.binding, c.expected) && s.pendingBytes + |LineBytes(e)| <= EMITTER_QUEUE_BYTES
            then !t.failed && t.sequence == s.sequence + 1 && t.events == s.events + [e]
            else t.failed && t.sequence == s.sequence && t.events == s.events
  {
    hide ValidEvent, Bound, EventBytes, SettledFlushes, FailedLines, Inv;
    var e := EventFor(c, s.sequence, state);
    if ValidEvent(e) { Size.EventFits(e); }
  }

  /** Once closing, nothing more is accepted. */
  lemma {:induction false} CloseStops(c: Config, s: Emitter, actions: seq<Action>)
    requires s.closing || s.closed
    ensures var t := Run(c, s, actions); (t.closing || t.closed) && t.events == s.events && t.sequence == s.sequence
    decreases |actions|
  {
    hide Next;
    if actions != [] {
      ClosedStep(c, s, actions[0]);
      CloseStops(c, Next(c, s, actions[0]), actions[1..]);
    }
  }

  lemma ClosedStep(c: Config, s: Emitter, a: Action)
    requires s.closing || s.closed
    ensures var t := Next(c, s, a); (t.closing || t.closed) && t.events == s.events && t.sequence == s.sequence
  {
    hide Acceptable, LineBytes, SettledFlushes, FailedLines, EventFor;
  }

  /** Closing asks for a flush, and stops the emitter. */
  lemma CloseAsks(c: Config, s: Emitter)
    requires Inv(c, s) && !s.closed
    ensures var t := Next(c, s, Close); t.closing && t.flushes == s.flushes + 1
    ensures var t := Next(c, s, Close); !s.failed && Idle(s) ==> t.log == s.log + [Flushed(s.flushes, s.sequence, true)]
  {
    hide Inv;
  }

  // ------------------------------------------------------------------------- draining

  predicate Done(s: Emitter) {
    s.active.None? && s.queue == [] && s.waiters == []
  }

  /** What is still to do: a callback and a microtask for each line, and one microtask for the waiters. */
  function Work(s: Emitter): nat {
    3 * |s.queue| + (if s.active.Some? then 2 else 0) + (if s.waiters != [] then 1 else 0)
  }

  /** The next thing a healthy writer lets happen. */
  function Turn(s: Emitter): Action {
    if s.active.Some? then WriteDone(s.active.value.id, false) else Microtask(false)
  }

  lemma TurnWorks(c: Config, s: Emitter)
    requires Inv(c, s) && !s.failed && !Done(s)
    ensures var t := Next(c, s, Turn(s));
            !t.failed && Work(t) < Work(s) && t.sequence == s.sequence && t.flushes == s.flushes && t.events == s.events
  {
    hide Ordered, FlushesOnce, FlushesHonest, LineBytes, Acceptable, LineEntries, SettledFlushes, FailedLines;
    NothingLeft(s);
  }

  lemma NothingLeft(s: Emitter)
    ensures s.active.None? && s.queue == [] ==> TotalBytes(Outstanding(s)) == 0
  {}

  /** Turns until nothing is left to do. */
  function Turns(c: Config, s: Emitter, n: nat): seq<Action>
    decreases n
  {
    if n == 0 || s.failed || Done(s) then [] else [Turn(s)] + Turns(c, Next(c, s, Turn(s)), n - 1)
  }

  /**
    * From every state that has not failed, a writer that answers brings the queue to rest: all
    * accepted lines are written and acknowledged, and every flush asked for has resolved.
    */
  lemma {:induction false} Drains(c: Config, s: Emitter, n: nat)
    requires Inv(c, s) && !s.failed && n >= Work(s)
    ensures var t := Run(c, s, Turns(c, s, n));
            && Inv(c, t) && !t.failed && Done(t) && t.events == s.events && t.sequence == s.sequence && t.flushes == s.flushes
    decreases n
  {
    hide Inv, Next, Turn, Work, Done;
    if Done(s) {
      assert Turns(c, s, n) == [];
    } else {
      TurnWorks(c, s);
      WorkLeft(s);
      NextKeeps(c, s, Turn(s));
      var rest := Turns(c, Next(c, s, Turn(s)), n - 1);
      assert ([Turn(s)] + rest)[1..] == rest;
      Drains(c, Next(c, s, Turn(s)), n - 1);
    }
  }

  lemma WorkLeft(s: Emitter)
    requires !Done(s)
    ensures Work(s) > 0
  {}

  /** At rest every accepted line was written and acknowledged, and every flush resolved. */
  lemma RestMeans(c: Config, s: Emitter)
    requires Inv(c, s) && !s.failed && Done(s)
    ensures |s.writes| == s.sequence == |LineEntries(s.log)| && s.pendingBytes == 0
    ensures forall i | 0 <= i < s.sequence :: LineEntries(s.log)[i] == (i + 1, true)
    ensures |FlushIds(s.log)| == s.flushes && forall i | 0 <= i < |s.log| && s.log[i].Flushed? :: s.log[i].ok
  {
    hide FlushesHonest, LineBytes, Acceptable, LineEntries, FlushIds, Distinct;
    NothingLeft(s);
  }
}
