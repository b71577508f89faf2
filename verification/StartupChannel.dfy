/**
 End to end: what the emitter writes, the reducer reads. However the written bytes are cut
 into chunks, the reducer accepts them exactly when no daemon history regresses, and then
 holds the event of the last complete line.
 */
module StartupChannel {
  import opened Encoding
  import opened StrictJson
  import opened StartupEvent
  import opened StartupReducer
  import opened StartupChunks
  import opened StartupLines
  import opened Samples
  import V = StartupVerdict
  import Size = StartupSize
  import E = StartupEmitter
  import T = StrictJsonTheorems
  import J = StrictJsonGrammar

  // --------------------------------------------------------- one line, read back

  lemma {:induction false} StrictHasNoLf(s: Text)
    requires StrictText(s, {})
    ensures forall j | 0 <= j < |Utf8(s)| :: Utf8(s)[j] != LF && Utf8(s)[j] != CR
    decreases |s|
  {
    hide EncodeHead;
    if s != [] {
      T.StrictParts(s);
      HeadHasNoLf(s);
      StrictHasNoLf(s[Width(s)..]);
    }
  }

  lemma HeadHasNoLf(s: Text)
    requires s != [] && StrictText(s, {})
    ensures forall j | 0 <= j < |EncodeHead(s)| :: EncodeHead(s)[j] != LF && EncodeHead(s)[j] != CR
  {
    hide Encode2, Encode3, Encode4;
    assert !Forbidden(s[0]);
  }

  /** The bytes of an acceptable event are one line that says that event. */
  lemma LineReadsBack(c: Config, e: Event)
    requires E.Acceptable(c, e)
    ensures Classify(c, EventBytes(e)) == Observed(e)
    ensures StripCr(EventBytes(e)) == EventBytes(e) && FirstLf(EventBytes(e)).None?
  {
    hide EventShaped, FieldCountFromText, FieldCount, EventJson, EventOf, ValidEvent, Bound, Render, StrictText, ParseStrictJson, Utf8, DecodeUtf8, FirstLf;
    var v := EventJson(e);
    EventJsonValid(e);
    var text, line := Render(v), EventBytes(e);
    T.RenderStrict(v);
    StrictHasNoLf(text);
    NoLf(line);
    StartsWithBrace(e, line);
    DecodeOf(text);
    J.RoundTrip(v, EVENT_JSON_LIMITS, {});
    ReadsBack(e);
    KindOf(e);
  }

  lemma ReadsBack(e: Event)
    requires ValidEvent(e)
    ensures EventOf(EventJson(e)) == Some(e)
  {
    EventRoundTrip(e);
  }

  lemma DecodeOf(text: Text)
    requires StrictText(text, {})
    ensures DecodeUtf8(Utf8(text)) == Some(text)
  {
    DecodeEncode(text);
  }

  lemma StartsWithBrace(e: Event, line: seq<Byte>)
    requires ValidEvent(e) && line == EventBytes(e)
    ensures line != [] && line[0] == 0x7B && JsonLooking(line) && line[|line| - 1] != CR
  {
    hide EventJson, ValidEvent, RenderFields, SortedKeys, StrictText;
    var v := EventJson(e);
    EventJsonValid(e);
    var text := Render(v);
    assert text[0] == LBRACE;
    FirstByte(text);
    T.RenderStrict(v);
    StrictHasNoLf(text);
  }

  lemma FirstByte(text: Text)
    requires text != [] && text[0] < 0x80
    ensures Utf8(text) != [] && Utf8(text)[0] == text[0]
  {}

  // ------------------------------------------------------------- a run of lines

  /** Events as the emitter numbers them. */
  ghost predicate Numbered(c: Config, es: seq<Event>) {
    forall i | 0 <= i < |es| :: E.Acceptable(c, es[i]) && es[i].sequence == i + 1
  }

  ghost function LinesOf(es: seq<Event>): (r: seq<seq<Byte>>)
    requires forall i | 0 <= i < |es| :: ValidEvent(es[i])
    ensures |r| == |es| && forall i | 0 <= i < |es| :: r[i] == EventBytes(es[i])
  {
    if es == [] then [] else LinesOf(es[..|es| - 1]) + [EventBytes(es[|es| - 1])]
  }

  lemma LinesAreEvents(c: Config, es: seq<Event>)
    requires Numbered(c, es)
    ensures forall i | 0 <= i < |es| :: Classify(c, StripCr(LinesOf(es)[i])) == Observed(es[i])
  {
    hide E.Acceptable, EventBytes, Classify, StripCr, LinesOf;
    forall i | 0 <= i < |es| ensures Classify(c, StripCr(LinesOf(es)[i])) == Observed(es[i]) { LineReadsBack(c, es[i]); }
  }

  /** The lines of events carry exactly those events. */
  lemma {:induction false} EventsBack(c: Config, es: seq<Event>)
    requires Numbered(c, es)
    ensures EventsOf(c, LinesOf(es)) == es
    decreases |es|
  {
    hide E.Acceptable, EventBytes, Classify, StripCr, EventsOf, LinesOf;
    var lines := LinesOf(es);
    if es == [] {
      NoEvents(c);
    } else {
      var n := |es| - 1;
      EventsBack(c, es[..n]);
      LinesAreEvents(c, es);
      EventsGrow(c, lines);
      assert lines[..n] == LinesOf(es[..n]);
      assert es == es[..n] + [es[n]];
    }
  }

  lemma NoEvents(c: Config)
    ensures EventsOf(c, []) == []
  {}

  /** The event lines are accepted exactly as long as no history regresses. */
  lemma FoldOfEvents(c: Config, es: seq<Event>)
    requires Numbered(c, es)
    ensures Fold(c, Child, START, LinesOf(es)) == if NonRegressing(es) then Some(After(es)) else None
  {
    hide E.Acceptable, Classify, StripCr, Fold, After, NonRegressing, LinesOf, EventBytes;
    FoldExact(c, LinesOf(es));
    LinesAreEvents(c, es);
    EventsBack(c, es);
  }

  // ---------------------------------------------------------- the bytes on the wire

  function Concat(chunks: seq<seq<Byte>>): seq<Byte> {
    if chunks == [] then [] else chunks[0] + Concat(chunks[1..])
  }

  lemma WritesAreLines(c: Config, es: seq<Event>, writes: seq<seq<Byte>>)
    requires |writes| <= |es| && Numbered(c, es) && forall i | 0 <= i < |writes| :: writes[i] == E.LineBytes(es[i])
    ensures forall i | 0 <= i < |writes| ::
              writes[i] == LinesOf(es)[i] + [LF] && FirstLf(LinesOf(es)[i]).None? && |LinesOf(es)[i]| <= LINE_BYTES
  {
    hide E.Acceptable, EventBytes, E.LineBytes, FirstLf, LinesOf;
    forall i | 0 <= i < |writes|
      ensures writes[i] == LinesOf(es)[i] + [LF] && FirstLf(LinesOf(es)[i]).None? && |LinesOf(es)[i]| <= LINE_BYTES
    {
      LineReadsBack(c, es[i]);
      LineShape(c, es[i]);
    }
  }

  lemma FirstLine(line: seq<Byte>, tail: seq<Byte>)
    requires FirstLf(line).None?
    ensures Lines(line + [LF] + tail) == [line] + Lines(tail) && Rest(line + [LF] + tail) == Rest(tail)
  {
    hide FirstLf;
    var b := line + [LF] + tail;
    FirstLfAppend(line, [LF] + tail);
    assert line + ([LF] + tail) == b;
    assert FirstLf([LF] + tail) == Some(0) by { var t := [LF] + tail; assert t[0] == LF; }
    assert b[..|line|] == line && b[|line| + 1..] == tail;
  }

  lemma PrefixHasNoLf(line: seq<Byte>, p: seq<Byte>)
    requires FirstLf(line).None? && p <= line
    ensures FirstLf(p).None?
  {
    hide FirstLf;
    NoLf(p);
  }

  /** The complete lines of any prefix of what was written are the first lines, whole. */
  lemma {:induction false} PrefixLines(writes: seq<seq<Byte>>, lines: seq<seq<Byte>>, p: seq<Byte>)
    requires |writes| <= |lines| && p <= Concat(writes)
    requires forall i | 0 <= i < |writes| :: writes[i] == lines[i] + [LF] && FirstLf(lines[i]).None? && |lines[i]| <= LINE_BYTES
    ensures |Lines(p)| <= |writes| && Lines(p) == lines[..|Lines(p)|] && |Rest(p)| <= LINE_BYTES
    decreases |writes|
  {
    hide FirstLf, Lines, Rest;
    LinesEmpty(p);
    if writes == [] {
      NoLf(p);
    } else {
      var line, tail := lines[0], Concat(writes[1..]);
      assert writes[0] == line + [LF];
      hide Concat;
      if |p| <= |line| {
        assert p == ((line + [LF]) + tail)[..|p|] == line[..|p|];
        PrefixHasNoLf(line, p);
      } else {
        var q := PastLine(line, tail, p);
        FirstLine(line, q);
        PrefixLines(writes[1..], lines[1..], q);
        assert lines[..|Lines(q)| + 1] == [line] + lines[1..][..|Lines(q)|];
      }
    }
  }

  lemma PastLine(line: seq<Byte>, tail: seq<Byte>, p: seq<Byte>) returns (q: seq<Byte>)
    requires p <= line + [LF] + tail && |p| > |line|
    ensures p == line + [LF] + q && q <= tail
  {
    var whole := line + [LF];
    q := p[|whole|..];
    assert p[..|whole|] == (whole + tail)[..|whole|] == whole;
    assert q == (whole + tail)[|whole|..|p|] == tail[..|q|];
  }

  /** What a resumed reader skips first: the end of a line whose start it did not see. */
  ghost predicate Tail(discard: nat, skipped: seq<Byte>) {
    if discard == 0 then skipped == []
    else
      && skipped != [] && skipped[|skipped| - 1] == LF && FirstLf(skipped[..|skipped| - 1]).None?
      && discard + |skipped| - 1 <= LINE_BYTES
  }

  /** After the skipped tail only the emitter's lines count. */
  lemma AfterTail(discard: nat, skipped: seq<Byte>, child: seq<Byte>, written: seq<Byte>) returns (p: seq<Byte>)
    requires Tail(discard, skipped) && child <= skipped + written
    ensures p <= written && Counted(discard, child) == Lines(p)
    ensures LinesWithin(Lines(p)) && |Rest(p)| <= LINE_BYTES ==> Calm(discard, child)
  {
    hide FirstLf, Lines, Rest;
    LinesEmpty(child);
    if discard == 0 {
      p := child;
      assert skipped + written == written;
    } else {
      var t := skipped[..|skipped| - 1];
      assert skipped == t + [LF];
      if |child| <= |t| {
        p := [];
        assert child <= t;
        PrefixHasNoLf(t, child);
        NoLf([]);
        LinesEmpty([]);
      } else {
        p := child[|skipped|..];
        assert child[..|skipped|] == (skipped + written)[..|skipped|] == skipped;
        assert child == t + [LF] + p;
        assert p == (skipped + written)[|skipped|..|child|] == written[..|p|];
        FirstLine(t, p);
        assert Lines(child)[0] == t && Lines(child)[1..] == Lines(p);
      }
    }
  }

  /**
    * Any prefix of what the emitter wrote, after what a resumed reader skips, beside any wrapper
    * output within the line limit, cut and interleaved in any way within the page and attempt
    * limits: the reducer faults exactly if a wrapper line is a fault or a daemon history regresses
    * among the complete lines, and otherwise stands after exactly those events.
    */
  lemma EndToEnd(c: Config, actions: seq<E.Action>, discards: (nat, nat), skipped: seq<Byte>, calls: seq<Call>)
    requires forall i | 0 <= i < |calls| :: |calls[i].chunk| <= PAGE_BYTES
    requires |Delivered(calls, Wrapper)| + |Delivered(calls, Child)| <= ATTEMPT_BYTES
    requires Calm(discards.0, Delivered(calls, Wrapper)) && Tail(discards.1, skipped)
    requires Delivered(calls, Child) <= skipped + Concat(E.Run(c, E.FRESH, actions).writes)
    ensures var es := E.Run(c, E.FRESH, actions).events;
            var m := |Counted(discards.1, Delivered(calls, Child))|;
            var r := StartupChunks.Run(c, Initial(discards.0, discards.1), calls);
            && m <= |es|
            && (r.Some? <==> NonRegressing(es[..m]) && Fold(c, Wrapper, START, Counted(discards.0, Delivered(calls, Wrapper))).Some?)
            && (r.Some? ==> r.value.progress == After(es[..m]))
  {
    hide E.Run, StartupChunks.Run, LinesOf, Fold, Concat, Calm, NonRegressing, After, Lines, Rest, FirstLf, E.Acceptable, EventBytes, E.LineBytes, Delivered, Tail, Counted;
    var s, w, child := E.Run(c, E.FRESH, actions), Delivered(calls, Wrapper), Delivered(calls, Child);
    var p := AfterTail(discards.1, skipped, child, Concat(s.writes));
    var m := WrittenLines(c, actions, p);
    V.TotalDelivered(calls);
    WholeOfNothing(c, discards);
    assert [] + w == w && [] + child == child;
    var st := Initial(discards.0, discards.1);
    VerdictIsWhole(c, discards, [], [], st, calls);
    if StartupChunks.Run(c, st, calls).Some? {
      RunIsWhole(c, discards, [], [], st, calls);
    }
  }

  /** The complete lines in a prefix of the written bytes are the first events, and fold as they do. */
  lemma WrittenLines(c: Config, actions: seq<E.Action>, p: seq<Byte>) returns (m: nat)
    requires p <= Concat(E.Run(c, E.FRESH, actions).writes)
    ensures var es := E.Run(c, E.FRESH, actions).events;
            && m == |Lines(p)| <= |es| && LinesWithin(Lines(p)) && |Rest(p)| <= LINE_BYTES
            && Fold(c, Child, START, Lines(p)) == if NonRegressing(es[..m]) then Some(After(es[..m])) else None
  {
    hide E.Run, LinesOf, Fold, Concat, NonRegressing, After, Lines, Rest, FirstLf, E.Acceptable, EventBytes, E.LineBytes;
    var s := E.Run(c, E.FRESH, actions);
    E.QueueIsSafe(c, actions);
    var es := s.events;
    var lines := LinesOf(es);
    WritesAreLines(c, es, s.writes);
    PrefixLines(s.writes, lines, p);
    m := |Lines(p)|;
    FoldOfEvents(c, es[..m]);
    assert LinesOf(es[..m]) == lines[..m];
  }

  // -------------------------------------------------------------- a history that goes back

  const WITNESS := Config(
    Binding(Daemon, [0x61, 0x2D] + ZEROS, ZEROS, ZEROS, ZEROS), ExpectedTarget(ZEROS))

  /** A disconnected daemon on its n-th connection. */
  function Away(n: int): State {
    DaemonState(ZEROS, n, None, None, Ascii("disconnected"))
  }

  lemma AwayAcceptable(sequence: nat, n: int)
    requires Positive(n) && Positive(sequence + 1)
    ensures E.Acceptable(WITNESS, E.EventFor(WITNESS, sequence, Away(n)))
  {
    hide EventBytes, LowerHex;
    var key := WITNESS.binding.serviceKey;
    assert key[|key| - 64..] == ZEROS;
    var e := E.EventFor(WITNESS, sequence, Away(n));
    assert DaemonServiceKey(key);
    assert ValidEvent(e);
    Size.EventFits(e);
  }

  /** The emitter lets a daemon go back a connection, and then its own lines are a fault. */
  lemma EmitterLetsRegress()
    ensures var s := E.Run(WITNESS, E.FRESH, [E.Emit(Away(2), false), E.WriteDone(1, false), E.Emit(Away(1), false)]);
            && !s.failed && |s.events| == |s.writes| == 2 && !NonRegressing(s.events)
            && Numbered(WITNESS, s.events) && Fold(WITNESS, Child, START, LinesOf(s.events)).None?
  {
    hide E.Acceptable, E.LineBytes, Fold, LinesOf, ValidEvent;
    var actions := [E.Emit(Away(2), false), E.WriteDone(1, false), E.Emit(Away(1), false)];
    var s := TwoEmits();
    E.QueueIsSafe(WITNESS, actions);
    hide E.Run;
    assert !Follows(s.events[0].state, s.events[1].state);
    FoldOfEvents(WITNESS, s.events);
  }

  lemma TwoEmits() returns (s: E.Emitter)
    ensures s == E.Run(WITNESS, E.FRESH, [E.Emit(Away(2), false), E.WriteDone(1, false), E.Emit(Away(1), false)])
    ensures s.events == [E.EventFor(WITNESS, 0, Away(2)), E.EventFor(WITNESS, 1, Away(1))] && |s.writes| == 2 && !s.failed
  {
    hide E.Acceptable, E.LineBytes, ValidEvent, E.Run;
    var c, first, second := WITNESS, E.EventFor(WITNESS, 0, Away(2)), E.EventFor(WITNESS, 1, Away(1));
    AwayAcceptable(0, 2);
    AwayAcceptable(1, 1);
    LineShape(c, first);
    LineShape(c, second);
    var s1 := E.Next(c, E.FRESH, E.Emit(Away(2), false));
    assert s1.active == Some(E.Item(1, E.LineBytes(first))) && s1.events == [first] && s1.pendingBytes == |E.LineBytes(first)|;
    var s2 := E.Next(c, s1, E.WriteDone(1, false));
    s := E.Next(c, s2, E.Emit(Away(1), false));
    RunThree(c, E.Emit(Away(2), false), E.WriteDone(1, false), E.Emit(Away(1), false));
  }

  lemma RunThree(c: Config, x: E.Action, y: E.Action, z: E.Action)
    ensures E.Run(c, E.FRESH, [x, y, z]) == E.Next(c, E.Next(c, E.Next(c, E.FRESH, x), y), z)
  {
    hide E.Next;
    var s1 := E.Next(c, E.FRESH, x);
    var s2 := E.Next(c, s1, y);
    var s3 := E.Next(c, s2, z);
    assert [x, y, z][1..] == [y, z] && [y, z][1..] == [z] && [z][1..] == [];
    assert E.Run(c, s3, []) == s3;
    assert E.Run(c, s2, [z]) == s3;
    assert E.Run(c, s1, [y, z]) == s3;
  }

  lemma LineShape(c: Config, e: Event)
    requires E.Acceptable(c, e)
    ensures E.LineBytes(e) == EventBytes(e) + [LF] && |EventBytes(e)| <= LINE_BYTES
  {
    hide EventBytes, Bound;
  }
}
