/**
 Chunk invariance of the startup-observation reducer. A run that does not fault ends in a
 state that depends only on the bytes each stream delivered, not on how they were split
 or interleaved; and as long as no line with its CR is over the line limit, whether a run
 faults does not depend on it either.
 */
module StartupChunks {
  import opened Encoding
  import opened StartupEvent
  import opened StartupReducer

  datatype Call = Call(family: Family, chunk: seq<Byte>)

  function Run(c: Config, st: Reading, calls: seq<Call>): Option<Reading>
    decreases |calls|
  {
    if calls == [] then Some(st)
    else
      match Step(c, st, calls[0].family, calls[0].chunk)
      case None => None
      case Some(next) => Run(c, next, calls[1..])
  }

  /** All bytes of one family, in order. */
  function Delivered(calls: seq<Call>, family: Family): seq<Byte> {
    if calls == [] then []
    else (if calls[0].family == family then calls[0].chunk else []) + Delivered(calls[1..], family)
  }

  // ------------------------------------------------ the stream seen as a whole

  /** The complete lines of a stream, without their line breaks. */
  function Lines(b: seq<Byte>): seq<seq<Byte>>
    decreases |b|
  {
    match FirstLf(b)
    case None => []
    case Some(i) => [b[..i]] + Lines(b[i + 1..])
  }

  /** What follows the last line break. */
  function Rest(b: seq<Byte>): seq<Byte>
    decreases |b|
  {
    match FirstLf(b)
    case None => b
    case Some(i) => Rest(b[i + 1..])
  }

  /** The lines that count: all of them, but the first when its start was not seen. */
  function Counted(discard: nat, b: seq<Byte>): seq<seq<Byte>> {
    if discard > 0 && Lines(b) != [] then Lines(b)[1..] else Lines(b)
  }

  function Fold(c: Config, family: Family, p: Progress, lines: seq<seq<Byte>>): Option<Progress>
    decreases |lines|
  {
    if lines == [] then Some(p)
    else
      match ConsumeLine(c, family, p, StripCr(lines[0]))
      case None => None
      case Some(q) => Fold(c, family, q, lines[1..])
  }

  function StreamOf(discard: nat, b: seq<Byte>): Stream {
    if discard > 0 && Lines(b) == [] then Stream([], discard + |b|, LastByte(b)) else Stream(Rest(b), 0, None)
  }

  /** Where a reader ends that sees each stream whole. */
  function Whole(c: Config, discards: (nat, nat), wrapper: seq<Byte>, child: seq<Byte>): Option<Reading> {
    var w := Fold(c, Wrapper, START, Counted(discards.0, wrapper));
    var p := Fold(c, Child, START, Counted(discards.1, child));
    if w.None? || p.None? then None
    else Some(Reading(StreamOf(discards.0, wrapper), StreamOf(discards.1, child), |wrapper| + |child|, p.value))
  }

  // ----------------------------------------------------------- splitting lemmas

  lemma FirstLfAppend(a: seq<Byte>, b: seq<Byte>)
    ensures FirstLf(a).Some? ==> FirstLf(a + b) == FirstLf(a)
    ensures FirstLf(a).None? && FirstLf(b).Some? ==> FirstLf(a + b) == Some(|a| + FirstLf(b).value)
    ensures FirstLf(a).None? && FirstLf(b).None? ==> FirstLf(a + b) == None
  {
    hide FirstLf;
    var ab := a + b;
    if FirstLf(a).Some? {
      assert ab[FirstLf(a).value] == LF;
    } else if FirstLf(b).Some? {
      assert ab[|a| + FirstLf(b).value] == LF;
    }
  }

  lemma {:induction false} LinesAppend(a: seq<Byte>, b: seq<Byte>)
    ensures Lines(a + b) == Lines(a) + Lines(Rest(a) + b)
    ensures Rest(a + b) == Rest(Rest(a) + b)
    decreases |a|
  {
    hide FirstLf, Lines, Rest;
    FirstLfAppend(a, b);
    LinesCut(a);
    LinesCut(a + b);
    if FirstLf(a).Some? {
      var i := FirstLf(a).value;
      LinesAppend(a[i + 1..], b);
      assert (a + b)[..i] == a[..i];
      assert (a + b)[i + 1..] == a[i + 1..] + b;
      assert [a[..i]] + (Lines(a[i + 1..]) + Lines(Rest(a) + b)) == ([a[..i]] + Lines(a[i + 1..])) + Lines(Rest(a) + b);
    } else {
      assert [] + Lines(a + b) == Lines(a + b);
    }
  }

  /** The first line of some bytes, and the others. */
  lemma LinesCut(b: seq<Byte>)
    ensures match FirstLf(b)
            case Some(i) => Lines(b) == [b[..i]] + Lines(b[i + 1..]) && Rest(b) == Rest(b[i + 1..])
            case None => Lines(b) == [] && Rest(b) == b
  {
    hide FirstLf;
  }

  lemma {:induction false} FoldAppend(c: Config, family: Family, p: Progress, a: seq<seq<Byte>>, b: seq<seq<Byte>>)
    ensures Fold(c, family, p, a + b)
         == match Fold(c, family, p, a) case None => None case Some(q) => Fold(c, family, q, b)
    decreases |a|
  {
    hide ConsumeLine, StripCr;
    if a == [] {
      assert a + b == b;
    } else {
      assert (a + b)[1..] == a[1..] + b;
      var r := ConsumeLine(c, family, p, StripCr(a[0]));
      if r.Some? { FoldAppend(c, family, r.value, a[1..], b); }
    }
  }

  /** Wrapper lines either change nothing or fault, whatever was read before. */
  lemma {:induction false} WrapperFold(c: Config, p: Progress, q: Progress, lines: seq<seq<Byte>>)
    ensures Fold(c, Wrapper, p, lines).Some? ==> Fold(c, Wrapper, p, lines) == Some(p)
    ensures Fold(c, Wrapper, p, lines).Some? <==> Fold(c, Wrapper, q, lines).Some?
    decreases |lines|
  {
    hide Classify, StripCr;
    if lines != [] && ConsumeLine(c, Wrapper, p, StripCr(lines[0])).Some? {
      WrapperFold(c, p, q, lines[1..]);
    }
  }

  predicate LinesWithin(lines: seq<seq<Byte>>) {
    forall i | 0 <= i < |lines| :: |lines[i]| <= LINE_BYTES
  }

  predicate StrippedWithin(lines: seq<seq<Byte>>) {
    forall i | 0 <= i < |lines| :: |StripCr(lines[i])| <= LINE_BYTES
  }

  /** The framing loop is the fold over the complete lines, plus the length checks. */
  lemma {:induction false} FeedIsFold(c: Config, family: Family, p: Progress, b: seq<Byte>)
    ensures Feed(c, family, p, b).Some? <==>
            Fold(c, family, p, Lines(b)).Some? && StrippedWithin(Lines(b)) && |Rest(b)| <= LINE_BYTES
    ensures Feed(c, family, p, b).Some? ==> Feed(c, family, p, b) == Some(Fed(Fold(c, family, p, Lines(b)).value, Rest(b)))
    decreases |b|
  {
    hide ConsumeLine, FirstLf, StripCr;
    var lf := FirstLf(b);
    if lf.Some? {
      var i := lf.value;
      var lines, more := Lines(b), Lines(b[i + 1..]);
      assert lines[0] == b[..i] && lines[1..] == more;
      assert StrippedWithin(lines) <==> |StripCr(b[..i])| <= LINE_BYTES && StrippedWithin(more) by {
        assert forall j | 0 <= j < |more| :: lines[j + 1] == more[j];
      }
      var r := ConsumeLine(c, family, p, StripCr(b[..i]));
      if r.Some? { FeedIsFold(c, family, r.value, b[i + 1..]); }
    }
  }

  // --------------------------------------------------------- one stream, one chunk

  /** No line with its CR, and no unfinished line, is over the limit. */
  predicate Calm(discard: nat, b: seq<Byte>) {
    && LinesWithin(Lines(b)) && |Rest(b)| <= LINE_BYTES
    && (discard > 0 ==> discard + (if Lines(b) == [] then |b| else |Lines(b)[0]|) <= LINE_BYTES)
  }

  lemma LinesEmpty(b: seq<Byte>)
    ensures Lines(b) == [] <==> FirstLf(b).None?
    ensures Lines(b) == [] ==> Rest(b) == b
    ensures Lines(b) != [] ==> Lines(b)[0] == b[..FirstLf(b).value] && Lines(b)[1..] == Lines(b[FirstLf(b).value + 1..])
    ensures Lines(b) != [] ==> Rest(b) == Rest(b[FirstLf(b).value + 1..])
  {
    hide FirstLf;
  }

  /** What one more chunk must do to a stream that has delivered `b` since progress `start`. */
  ghost predicate Keeps(c: Config, family: Family, start: Progress, discard: nat, all: seq<Byte>, r: Option<(Progress, Stream)>) {
    var whole := Fold(c, family, start, Counted(discard, all));
    && (r.Some? ==> whole == Some(r.value.0) && r.value.1 == StreamOf(discard, all))
    && (Calm(discard, all) ==> (r.Some? <==> whole.Some?))
  }

  /** The start of a line is still being skipped, and no line break comes. */
  lemma SkippingOn(c: Config, family: Family, p: Progress, discard: nat, b: seq<Byte>, chunk: seq<Byte>)
    requires discard > 0 && Lines(b) == [] && FirstLf(chunk).None?
    ensures Keeps(c, family, p, discard, b + chunk, StreamStep(c, family, p, StreamOf(discard, b), chunk))
  {
    hide Feed, Fold, FirstLf, Lines, Rest, ConsumeLine, StripCr;
    var all := b + chunk;
    LinesEmpty(b);
    LinesEmpty(all);
    FirstLfAppend(b, chunk);
    assert [] + chunk == chunk;
    assert chunk != [] ==> LastByte(all) == LastByte(chunk);
    assert chunk == [] ==> all == b;
    FoldNothing(c, family, p);
  }

  lemma SkipsTo(discard: nat, b: seq<Byte>, chunk: seq<Byte>)
    requires discard > 0 && Lines(b) == [] && FirstLf(chunk).Some?
    ensures var i := FirstLf(chunk).value;
            var last := LastByte((b + chunk)[..|b| + i]);
            SkipDiscarded(StreamOf(discard, b), chunk) ==
            if discard + |b| + i - (if last == Some(CR) then 1 else 0) > LINE_BYTES then TooLong else Closed(i + 1)
  {
    hide FirstLf, Lines, Rest;
    var i := FirstLf(chunk).value;
    if i == 0 { assert (b + chunk)[..|b|] == b; }
  }

  /** The line break comes: the skipped line is dropped and framing starts after it. */
  lemma SkippingEnds(c: Config, family: Family, p: Progress, discard: nat, b: seq<Byte>, chunk: seq<Byte>)
    requires discard > 0 && Lines(b) == [] && FirstLf(chunk).Some?
    ensures Keeps(c, family, p, discard, b + chunk, StreamStep(c, family, p, StreamOf(discard, b), chunk))
  {
    hide Feed, Fold, FirstLf, Lines, Rest, ConsumeLine, StripCr, SkipDiscarded, StrippedWithin, LinesWithin, StreamStep;
    var all, i := b + chunk, FirstLf(chunk).value;
    var tail := chunk[i + 1..];
    LinesEmpty(b);
    LinesEmpty(all);
    FirstLfAppend(b, chunk);
    assert all[|b| + i + 1..] == tail;
    SkipsTo(discard, b, chunk);
    SkippedStep(c, family, p, discard, b, chunk);
    FeedIsFold(c, family, p, tail);
    if Calm(discard, all) {
      assert |Lines(all)[0]| == |b| + i;
      CalmTail(all);
    }
  }

  /** A step that ends the skipping is the feed of what follows the line break. */
  lemma SkippedStep(c: Config, family: Family, p: Progress, discard: nat, b: seq<Byte>, chunk: seq<Byte>)
    requires discard > 0 && Lines(b) == [] && FirstLf(chunk).Some?
    requires !SkipDiscarded(StreamOf(discard, b), chunk).Open?
    ensures var skip, r := SkipDiscarded(StreamOf(discard, b), chunk), StreamStep(c, family, p, StreamOf(discard, b), chunk);
            if skip.TooLong? then r.None?
            else
              var fed := Feed(c, family, p, chunk[skip.start..]);
              r == if fed.None? then None else Some((fed.value.progress, Stream(fed.value.rest, 0, None)))
  {
    hide Feed, FirstLf, Lines, Rest, SkipDiscarded;
    assert [] + chunk == chunk;
  }

  lemma FoldNothing(c: Config, family: Family, p: Progress)
    ensures Fold(c, family, p, []) == Some(p)
  {}

  /** Lines within the limit stay within it when a CR goes. */
  lemma StripWithin(lines: seq<seq<Byte>>)
    requires LinesWithin(lines)
    ensures StrippedWithin(lines)
  {
    hide StripCr;
  }

  lemma CalmTail(b: seq<Byte>)
    requires Lines(b) != [] && LinesWithin(Lines(b))
    ensures StrippedWithin(Lines(b)[1..])
  {
    var tail := Lines(b)[1..];
    assert forall i | 0 <= i < |tail| :: tail[i] == Lines(b)[i + 1];
    StripWithin(tail);
  }

  /** Once at a line start, a chunk adds exactly the lines it completes. */
  lemma FramingStep(c: Config, family: Family, start: Progress, p: Progress, discard: nat, b: seq<Byte>, chunk: seq<Byte>)
    requires discard == 0 || Lines(b) != []
    requires Fold(c, family, start, Counted(discard, b)) == Some(p)
    ensures Keeps(c, family, start, discard, b + chunk, StreamStep(c, family, p, StreamOf(discard, b), chunk))
  {
    hide Feed, Fold, FirstLf, Lines, Rest, ConsumeLine, StripCr;
    var more := Lines(Rest(b) + chunk);
    LinesAppend(b, chunk);
    assert Counted(discard, b + chunk) == Counted(discard, b) + more;
    FoldAppend(c, family, start, Counted(discard, b), more);
    FeedIsFold(c, family, p, Rest(b) + chunk);
    assert (Rest(b) + chunk)[0..] == Rest(b) + chunk;
    if Calm(discard, b + chunk) {
      assert forall i | 0 <= i < |more| :: more[i] == Lines(b + chunk)[|Lines(b)| + i];
      StripWithin(more);
    }
  }

  lemma StreamMatches(c: Config, family: Family, start: Progress, p: Progress, discard: nat, b: seq<Byte>, chunk: seq<Byte>)
    requires Fold(c, family, start, Counted(discard, b)) == Some(p)
    ensures Keeps(c, family, start, discard, b + chunk, StreamStep(c, family, p, StreamOf(discard, b), chunk))
  {
    hide Fold, FirstLf, Lines, Rest, StreamStep, StreamOf, Keeps;
    if discard == 0 || Lines(b) != [] {
      FramingStep(c, family, start, p, discard, b, chunk);
    } else {
      FoldNothing(c, family, start);
      if FirstLf(chunk).None? {
        SkippingOn(c, family, p, discard, b, chunk);
      } else {
        SkippingEnds(c, family, p, discard, b, chunk);
      }
    }
  }

  // ----------------------------------------------------------------- whole runs

  predicate Fits(wrapper: seq<Byte>, child: seq<Byte>, chunk: seq<Byte>) {
    |chunk| <= PAGE_BYTES && |wrapper| + |child| + |chunk| <= ATTEMPT_BYTES
  }

  /** One call takes the reader of these bytes to the reader of these bytes and the chunk. */
  ghost predicate StepKeeps(c: Config, discards: (nat, nat), wrapper: seq<Byte>, child: seq<Byte>, r: Option<Reading>, fits: bool) {
    && (r.Some? ==> r == Whole(c, discards, wrapper, child))
    && (fits && Calm(discards.0, wrapper) && Calm(discards.1, child) ==> (r.Some? <==> Whole(c, discards, wrapper, child).Some?))
  }

  lemma ChildStep(c: Config, discards: (nat, nat), wrapper: seq<Byte>, child: seq<Byte>, st: Reading, chunk: seq<Byte>)
    requires Whole(c, discards, wrapper, child) == Some(st)
    ensures StepKeeps(c, discards, wrapper, child + chunk, Step(c, st, Child, chunk), Fits(wrapper, child, chunk))
  {
    hide Fold, StreamStep, StreamOf, Counted, Calm;
    StreamMatches(c, Child, START, st.progress, discards.1, child, chunk);
  }

  lemma WrapperStep(c: Config, discards: (nat, nat), wrapper: seq<Byte>, child: seq<Byte>, st: Reading, chunk: seq<Byte>)
    requires Whole(c, discards, wrapper, child) == Some(st)
    ensures StepKeeps(c, discards, wrapper + chunk, child, Step(c, st, Wrapper, chunk), Fits(wrapper, child, chunk))
  {
    hide Fold, StreamStep, StreamOf, Counted, Calm;
    WrapperFold(c, START, st.progress, Counted(discards.0, wrapper));
    WrapperFold(c, st.progress, START, Counted(discards.0, wrapper));
    StreamMatches(c, Wrapper, st.progress, st.progress, discards.0, wrapper, chunk);
    WrapperFold(c, START, st.progress, Counted(discards.0, wrapper + chunk));
    WrapperFold(c, st.progress, START, Counted(discards.0, wrapper + chunk));
  }

  /** A run that does not fault ends where a reader of the whole streams ends. */
  lemma {:induction false} RunIsWhole(c: Config, discards: (nat, nat), wrapper: seq<Byte>, child: seq<Byte>, st: Reading, calls: seq<Call>)
    requires Whole(c, discards, wrapper, child) == Some(st)
    requires Run(c, st, calls).Some?
    ensures Run(c, st, calls) == Whole(c, discards, wrapper + Delivered(calls, Wrapper), child + Delivered(calls, Child))
    decreases |calls|
  {
    hide Whole, Step;
    if calls == [] {
      assert wrapper + [] == wrapper && child + [] == child;
    } else {
      var Call(family, chunk) := calls[0];
      var next := Step(c, st, family, chunk).value;
      var rest := calls[1..];
      if family == Wrapper {
        WrapperStep(c, discards, wrapper, child, st, chunk);
        RunIsWhole(c, discards, wrapper + chunk, child, next, rest);
        assert wrapper + chunk + Delivered(rest, Wrapper) == wrapper + Delivered(calls, Wrapper);
        assert [] + Delivered(rest, Child) == Delivered(rest, Child);
      } else {
        ChildStep(c, discards, wrapper, child, st, chunk);
        RunIsWhole(c, discards, wrapper, child + chunk, next, rest);
        assert child + chunk + Delivered(rest, Child) == child + Delivered(calls, Child);
        assert [] + Delivered(rest, Wrapper) == Delivered(rest, Wrapper);
      }
    }
  }

  /** Two runs over the same bytes that do not fault end in the same state: the same
      snapshot, sequence and partial-line counts. */
  lemma ChunkInvariance(c: Config, digest: Event -> Text, discards: (nat, nat), calls: seq<Call>, others: seq<Call>)
    requires forall family :: Delivered(calls, family) == Delivered(others, family)
    requires var st := Initial(discards.0, discards.1); Run(c, st, calls).Some? && Run(c, st, others).Some?
    ensures var st := Initial(discards.0, discards.1);
            var r, o := Run(c, st, calls).value, Run(c, st, others).value;
            && r == o && SnapshotOf(c, digest, r) == SnapshotOf(c, digest, o)
            && PartialLineBytes(r.wrapper) == PartialLineBytes(o.wrapper) && PartialLineBytes(r.child) == PartialLineBytes(o.child)
  {
    hide Run, SnapshotOf, Whole;
    WholeOfNothing(c, discards);
    RunIsWhole(c, discards, [], [], Initial(discards.0, discards.1), calls);
    RunIsWhole(c, discards, [], [], Initial(discards.0, discards.1), others);
  }

  lemma WholeOfNothing(c: Config, discards: (nat, nat))
    ensures Whole(c, discards, [], []) == Some(Initial(discards.0, discards.1))
  {
    hide ConsumeLine, StripCr;
  }

  // ------------------------------------------------------------ the fault verdict

  lemma CalmPrefix(discard: nat, a: seq<Byte>, b: seq<Byte>)
    requires Calm(discard, a + b)
    ensures Calm(discard, a)
  {
    hide FirstLf, Lines, Rest;
    var open := Rest(a) + b;
    LinesAppend(a, b);
    LinesEmpty(a);
    LinesEmpty(open);
    assert forall i | 0 <= i < |Lines(a)| :: Lines(a)[i] == Lines(a + b)[i];
    if Lines(open) != [] {
      RestHasNoLf(a);
      FirstLfAppend(Rest(a), b);
      assert Lines(open)[0] == Lines(a + b)[|Lines(a)|];
    }
  }

  lemma {:induction false} RestHasNoLf(b: seq<Byte>)
    ensures FirstLf(Rest(b)).None?
    decreases |b|
  {
    hide FirstLf;
    if FirstLf(b).Some? { RestHasNoLf(b[FirstLf(b).value + 1..]); }
  }

  lemma CountedGrows(discard: nat, a: seq<Byte>, b: seq<Byte>) returns (more: seq<seq<Byte>>)
    ensures Counted(discard, a + b) == Counted(discard, a) + more
  {
    hide Lines, Rest;
    LinesAppend(a, b);
    LinesEmpty(a);
    more := if discard > 0 && Lines(a) == [] then Counted(discard, a + b) else Lines(Rest(a) + b);
  }

  /** A fault in a reader of the whole streams is not undone by more bytes. */
  lemma WholeStaysFaulted(c: Config, discards: (nat, nat), w: seq<Byte>, v: seq<Byte>, w': seq<Byte>, v': seq<Byte>)
    requires Whole(c, discards, w, v).None?
    ensures Whole(c, discards, w + w', v + v').None?
  {
    hide Fold, Counted, StreamOf;
    var more := CountedGrows(discards.0, w, w');
    FoldAppend(c, Wrapper, START, Counted(discards.0, w), more);
    var more' := CountedGrows(discards.1, v, v');
    FoldAppend(c, Child, START, Counted(discards.1, v), more');
  }

  function TotalBytes(calls: seq<Call>): nat {
    if calls == [] then 0 else |calls[0].chunk| + TotalBytes(calls[1..])
  }

  /** Within the page and attempt limits, and no line with its CR over the line limit. */
  ghost predicate Quiet(discards: (nat, nat), wrapper: seq<Byte>, child: seq<Byte>, calls: seq<Call>) {
    && (forall i | 0 <= i < |calls| :: |calls[i].chunk| <= PAGE_BYTES)
    && |wrapper| + |child| + TotalBytes(calls) <= ATTEMPT_BYTES
    && Calm(discards.0, wrapper + Delivered(calls, Wrapper)) && Calm(discards.1, child + Delivered(calls, Child))
  }

  lemma {:induction false} VerdictIsWhole(c: Config, discards: (nat, nat), wrapper: seq<Byte>, child: seq<Byte>, st: Reading, calls: seq<Call>)
    requires Whole(c, discards, wrapper, child) == Some(st) && Quiet(discards, wrapper, child, calls)
    ensures Run(c, st, calls).Some?
       <==> Whole(c, discards, wrapper + Delivered(calls, Wrapper), child + Delivered(calls, Child)).Some?
    decreases |calls|
  {
    hide Whole, Step, Calm;
    if calls == [] {
      assert wrapper + [] == wrapper && child + [] == child;
    } else {
      var Call(family, chunk) := calls[0];
      var rest := calls[1..];
      var next := Step(c, st, family, chunk);
      var w := if family == Wrapper then wrapper + chunk else wrapper;
      var v := if family == Child then child + chunk else child;
      assert w + Delivered(rest, Wrapper) == wrapper + Delivered(calls, Wrapper);
      assert v + Delivered(rest, Child) == child + Delivered(calls, Child);
      CalmPrefix(discards.0, w, Delivered(rest, Wrapper));
      CalmPrefix(discards.1, v, Delivered(rest, Child));
      if family == Wrapper {
        WrapperStep(c, discards, wrapper, child, st, chunk);
      } else {
        ChildStep(c, discards, wrapper, child, st, chunk);
      }
      if next.Some? {
        VerdictIsWhole(c, discards, w, v, next.value, rest);
      } else {
        WholeStaysFaulted(c, discards, w, v, Delivered(rest, Wrapper), Delivered(rest, Child));
      }
    }
  }

  // -------------------------------------------- what stands between the two limits

  /** A skipped line is within the limit without its CR; while it is open, it may be one CR over it. */
  predicate SkippedWithin(discard: nat, b: seq<Byte>) {
    discard > 0 ==>
      if Lines(b) == [] then discard + |b| <= LINE_BYTES || (discard + |b| == LINE_BYTES + 1 && LastByte(b) == Some(CR))
      else discard + |StripCr(Lines(b)[0])| <= LINE_BYTES
  }

  /** Lines without their CR, the skipped one too, and the unfinished line are within the limit. */
  predicate Within(discard: nat, b: seq<Byte>) {
    StrippedWithin(Counted(discard, b)) && |StreamOf(discard, b).partial| <= LINE_BYTES && SkippedWithin(discard, b)
  }

  lemma FramingWithin(c: Config, family: Family, p: Progress, discard: nat, b: seq<Byte>, chunk: seq<Byte>)
    requires discard == 0 || Lines(b) != []
    requires Within(discard, b) && StreamStep(c, family, p, StreamOf(discard, b), chunk).Some?
    ensures Within(discard, b + chunk)
  {
    hide Feed, Fold, FirstLf, Lines, Rest, ConsumeLine, StripCr;
    var more := Lines(Rest(b) + chunk);
    LinesAppend(b, chunk);
    assert Counted(discard, b + chunk) == Counted(discard, b) + more;
    FeedIsFold(c, family, p, Rest(b) + chunk);
    assert (Rest(b) + chunk)[0..] == Rest(b) + chunk;
    if discard > 0 { assert Lines(b + chunk)[0] == Lines(b)[0]; }
  }

  lemma SkippingOnWithin(c: Config, family: Family, p: Progress, discard: nat, b: seq<Byte>, chunk: seq<Byte>)
    requires discard > 0 && Lines(b) == [] && FirstLf(chunk).None?
    requires StreamStep(c, family, p, StreamOf(discard, b), chunk).Some?
    ensures Within(discard, b + chunk)
  {
    hide Feed, FirstLf, Lines, Rest, StripCr;
    LinesEmpty(b);
    LinesEmpty(b + chunk);
    FirstLfAppend(b, chunk);
    assert [] + chunk == chunk;
    assert chunk != [] ==> LastByte(b + chunk) == LastByte(chunk);
  }

  lemma SkippingEndsWithin(c: Config, family: Family, p: Progress, discard: nat, b: seq<Byte>, chunk: seq<Byte>)
    requires discard > 0 && Lines(b) == [] && FirstLf(chunk).Some?
    requires StreamStep(c, family, p, StreamOf(discard, b), chunk).Some?
    ensures Within(discard, b + chunk)
  {
    hide Feed, Fold, FirstLf, Lines, Rest, StripCr, SkipDiscarded, StreamStep, StrippedWithin;
    var all, i := b + chunk, FirstLf(chunk).value;
    LinesEmpty(b);
    LinesEmpty(all);
    FirstLfAppend(b, chunk);
    assert all[|b| + i + 1..] == chunk[i + 1..];
    SkipsTo(discard, b, chunk);
    SkippedStep(c, family, p, discard, b, chunk);
    StripLength(all[..|b| + i]);
    FeedIsFold(c, family, p, chunk[i + 1..]);
  }

  lemma StripLength(line: seq<Byte>)
    ensures |StripCr(line)| == |line| - (if LastByte(line) == Some(CR) then 1 else 0)
  {}

  lemma StreamWithin(c: Config, family: Family, p: Progress, discard: nat, b: seq<Byte>, chunk: seq<Byte>)
    requires Within(discard, b) && StreamStep(c, family, p, StreamOf(discard, b), chunk).Some?
    ensures Within(discard, b + chunk)
  {
    hide StreamStep, StreamOf, Within, Lines;
    if discard == 0 || Lines(b) != [] {
      FramingWithin(c, family, p, discard, b, chunk);
    } else if FirstLf(chunk).None? {
      SkippingOnWithin(c, family, p, discard, b, chunk);
    } else {
      SkippingEndsWithin(c, family, p, discard, b, chunk);
    }
  }

  /** A run faults on every line that is over the limit without its CR, however it is split. */
  lemma {:induction false} AcceptedIsWithin(c: Config, discards: (nat, nat), wrapper: seq<Byte>, child: seq<Byte>, st: Reading, calls: seq<Call>)
    requires Whole(c, discards, wrapper, child) == Some(st) && Run(c, st, calls).Some?
    requires Within(discards.0, wrapper) && Within(discards.1, child)
    ensures Within(discards.0, wrapper + Delivered(calls, Wrapper)) && Within(discards.1, child + Delivered(calls, Child))
    decreases |calls|
  {
    hide Fold, StreamStep, StreamOf, Counted, Within;
    if calls == [] {
      assert wrapper + [] == wrapper && child + [] == child;
    } else {
      var Call(family, chunk) := calls[0];
      var rest := calls[1..];
      var next := Step(c, st, family, chunk).value;
      var w := if family == Wrapper then wrapper + chunk else wrapper;
      var v := if family == Child then child + chunk else child;
      assert w + Delivered(rest, Wrapper) == wrapper + Delivered(calls, Wrapper);
      assert v + Delivered(rest, Child) == child + Delivered(calls, Child);
      if family == Wrapper {
        WrapperStep(c, discards, wrapper, child, st, chunk);
        StreamWithin(c, Wrapper, st.progress, discards.0, wrapper, chunk);
      } else {
        ChildStep(c, discards, wrapper, child, st, chunk);
        StreamWithin(c, Child, st.progress, discards.1, child, chunk);
      }
      AcceptedIsWithin(c, discards, w, v, next, rest);
    }
  }

  lemma NoLf(b: seq<Byte>)
    requires forall j | 0 <= j < |b| :: b[j] != LF
    ensures FirstLf(b).None?
  {
    hide FirstLf;
  }

  lemma OneCall(c: Config, chunk: seq<Byte>, more: seq<Call>)
    requires |chunk| <= PAGE_BYTES
    ensures Feed(c, Child, START, chunk).None? ==> Run(c, Initial(0, 0), [Call(Child, chunk)] + more).None?
    ensures Feed(c, Child, START, chunk).Some? ==> Run(c, Initial(0, 0), [Call(Child, chunk)]).Some?
  {
    hide Feed;
    var calls := [Call(Child, chunk)];
    assert [] + chunk == chunk && chunk[0..] == chunk;
    assert calls[1..] == [];
    assert (calls + more)[0] == Call(Child, chunk);
  }

  /** And there it does depend: a full line and its CR pass when the line break comes in the
      same chunk, and fault when the chunk ends between the two. */
  lemma SplitBeforeLfFaults(c: Config, line: seq<Byte>)
    requires |line| == LINE_BYTES && (forall j | 0 <= j < |line| :: line[j] != LF) && Classify(c, line).Ignored?
    ensures Run(c, Initial(0, 0), [Call(Child, line + [CR, LF])]).Some?
    ensures Run(c, Initial(0, 0), [Call(Child, line + [CR])] + [Call(Child, [LF])]).None?
  {
    hide FirstLf, Classify, Feed, Run;
    var whole, part := line + [CR, LF], line + [CR];
    NoLf(part);
    FirstLfAppend(part, [LF]);
    assert part + [LF] == whole;
    assert FirstLf([LF]) == Some(0) by { var b := [LF]; assert b[0] == LF; }
    FeedFullLine(c, line, whole);
    FeedIsFold(c, Child, START, part);
    LinesEmpty(part);
    OneCall(c, whole, []);
    OneCall(c, part, [Call(Child, [LF])]);
  }

  lemma FeedFullLine(c: Config, line: seq<Byte>, whole: seq<Byte>)
    requires |line| == LINE_BYTES && Classify(c, line).Ignored? && whole == line + [CR, LF]
    requires FirstLf(whole) == Some(|line| + 1)
    ensures Feed(c, Child, START, whole) == Some(Fed(START, []))
  {
    hide FirstLf, Classify;
    assert whole[..|line| + 1] == line + [CR];
    assert StripCr(line + [CR]) == line;
    assert whole[|line| + 2..] == [];
    NoLf([]);
    assert Feed(c, Child, START, []) == Some(Fed(START, []));
  }

  lemma {:induction false} BlankNotJson(b: seq<Byte>)
    requires forall j | 0 <= j < |b| :: b[j] == 0x20
    ensures !JsonLooking(b)
  {
    if b != [] { BlankNotJson(b[1..]); }
  }

  /** A line of blanks is such a line. */
  lemma BlankLineIgnored(c: Config, line: seq<Byte>)
    requires forall j | 0 <= j < |line| :: line[j] == 0x20
    ensures Classify(c, line).Ignored?
  {
    BlankNotJson(line);
    forall i, marker: Text | marker == KIND || marker == K_EPOCH || marker == K_CONFIG || marker == K_SOURCE
      ensures !StandsAt(line, i, marker)
    {
      assert marker[0] != 0x20;
      if 0 <= i <= |line| - |marker| { assert line[i..i + |marker|][0] == line[i]; }
    }
  }
}
