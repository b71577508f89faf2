/**
 The emitter's write queue as it runs: fields changed by calls and callbacks. Each method
 is one step of the machine in StartupEmitter; `events`, `writes` and `log` record what an
 observer sees.
 */
module StartupWriter {
  import opened Encoding
  import opened StartupEvent
  import opened StartupReducer
  import E = StartupEmitter

  class WriteQueue {
    const c: Config
    var sequence: nat
    var pendingBytes: int
    var queue: seq<E.Item>
    var active: Option<E.Item>
    var failed: bool
    var closing: bool
    var closed: bool
    var waiters: seq<E.Waiter>
    var scheduled: nat
    var flushes: nat
    ghost var events: seq<Event>
    ghost var writes: seq<seq<Byte>>
    ghost var log: seq<E.Settling>

    ghost function View(): E.Emitter
      reads this
    {
      E.Emitter(sequence, pendingBytes, queue, active, failed, closing, closed, waiters, scheduled, flushes, events, writes, log)
    }

    constructor (c: Config)
      ensures this.c == c && View() == E.FRESH && E.Inv(c, View())
    {
      this.c := c;
      sequence, pendingBytes, queue, active := 0, 0, [], None;
      failed, closing, closed, waiters, scheduled, flushes := false, false, false, [], 0, 0;
      events, writes, log := [], [], [];
      E.FreshInv(c);
    }

    method SettleFailure()
      modifies this
      ensures View() == E.SettleFailure(old(View()))
    {
      failed := true;
      var pending := queue + (if active.Some? then [active.value] else []);
      queue, active, pendingBytes := [], None, 0;
      for i := 0 to |pending|
        invariant View() == old(View()).(failed := true, queue := [], active := None, pendingBytes := 0,
                                         log := old(log) + E.FailedLines(pending[..i]))
      {
        log := log + [E.Line(pending[i].id, false)];
        assert E.FailedLines(pending[..i + 1]) == E.FailedLines(pending[..i]) + [E.Line(pending[i].id, false)];
      }
      assert pending[..|pending|] == pending;
      ReleaseWaiters(false);
    }

    /** Settles every waiting flush the same way. */
    method ReleaseWaiters(ok: bool)
      modifies this`waiters, this`log
      ensures View() == old(View()).(waiters := [], log := old(log) + E.SettledFlushes(old(waiters), ok))
    {
      for i := 0 to |waiters|
        invariant waiters == old(waiters)
        invariant View() == old(View()).(log := old(log) + E.SettledFlushes(waiters[..i], ok))
      {
        log := log + [E.Flushed(waiters[i].id, waiters[i].mark, ok)];
        assert E.SettledFlushes(waiters[..i + 1], ok) == E.SettledFlushes(waiters[..i], ok) + [E.Flushed(waiters[i].id, waiters[i].mark, ok)];
      }
      assert waiters[..|waiters|] == waiters;
      waiters := [];
    }

    method Pump(throws: bool)
      modifies this
      ensures View() == E.Pump(old(View()), throws)
    {
      if active.Some? || failed {
        return;
      }
      if queue == [] {
        if pendingBytes == 0 {
          ReleaseWaiters(true);
        }
        return;
      }
      var item := queue[0];
      queue := queue[1..];
      active := Some(item);
      writes := writes + [item.bytes];
      if throws {
        SettleFailure();
      }
    }

    method Emit(state: State, throws: bool)
      modifies this
      ensures View() == E.Next(c, old(View()), E.Emit(state, throws))
    {
      hide ValidEvent, Bound, EventBytes, E.Pump, E.SettleFailure, E.Acceptable, E.LineBytes;
      if failed || closing || closed {
        return;
      }
      if sequence >= MAX_SAFE_INTEGER {
        SettleFailure();
        return;
      }
      var e := E.EventFor(c, sequence, state);
      if !E.Acceptable(c, e) {
        SettleFailure();
        return;
      }
      var bytes := E.LineBytes(e);
      if |bytes| > EVENT_BYTES + 1 || pendingBytes + |bytes| > EMITTER_QUEUE_BYTES {
        SettleFailure();
        return;
      }
      sequence := sequence + 1;
      pendingBytes := pendingBytes + |bytes|;
      queue := queue + [E.Item(sequence, bytes)];
      events := events + [e];
      Pump(throws);
    }

    /** The callback passed to `write` for the line with this number. */
    method OnWritten(id: nat, error: bool)
      modifies this
      ensures View() == E.Next(c, old(View()), E.WriteDone(id, error))
    {
      if active.None? || active.value.id != id {
        return;
      }
      var item := active.value;
      active := None;
      pendingBytes := pendingBytes - |item.bytes|;
      if error {
        SettleFailure();
        log := log + [E.Line(id, false)];
        return;
      }
      log := log + [E.Line(id, true)];
      scheduled := scheduled + 1;
    }

    /** The writable reported an error; the listener is gone once the emitter is closed. */
    method OnError()
      modifies this
      ensures View() == E.Next(c, old(View()), E.StreamError)
    {
      if !closed {
        SettleFailure();
      }
    }

    method OnMicrotask(throws: bool)
      modifies this
      ensures View() == E.Next(c, old(View()), E.Microtask(throws))
    {
      if scheduled > 0 {
        scheduled := scheduled - 1;
        Pump(throws);
      }
    }

    method Flush()
      modifies this
      ensures View() == E.Next(c, old(View()), E.Flush)
    {
      if failed {
        log := log + [E.Flushed(flushes, sequence, false)];
      } else if pendingBytes == 0 && active.None? && queue == [] {
        log := log + [E.Flushed(flushes, sequence, true)];
      } else {
        waiters := waiters + [E.Waiter(flushes, sequence)];
      }
      flushes := flushes + 1;
    }

    method Close()
      modifies this
      ensures View() == E.Next(c, old(View()), E.Close)
    {
      if !closed {
        closing := true;
        Flush();
      }
    }

    /** What `close` does once its flush has settled. */
    method FinishClose(throws: bool)
      modifies this
      ensures View() == E.Next(c, old(View()), E.FinishClose(throws))
    {
      if closing && !closed {
        closed := true;
        if throws {
          SettleFailure();
        }
      }
    }
  }
}
