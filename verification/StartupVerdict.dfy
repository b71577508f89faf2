/**
 When the fault verdict of the startup-observation reducer depends on how its bytes were cut
 into calls, and when it does not: both directions, over both streams, resumed or not.
 */
module StartupVerdict {
  import opened Encoding
  import opened StartupEvent
  import opened StartupReducer
  import opened StartupChunks

  /** A call sequence that delivers these bytes in chunks that `consume` takes. */
  ghost predicate Legal(calls: seq<Call>, wrapper: seq<Byte>, child: seq<Byte>) {
    && (forall i | 0 <= i < |calls| :: |calls[i].chunk| <= PAGE_BYTES)
    && Delivered(calls, Wrapper) == wrapper && Delivered(calls, Child) == child
  }

  predicate Passes(c: Config, discards: (nat, nat), calls: seq<Call>) {
    Run(c, Initial(discards.0, discards.1), calls).Some?
  }

  /** However these bytes are cut and interleaved, the verdict is the same. */
  ghost predicate Agree(c: Config, discards: (nat, nat), wrapper: seq<Byte>, child: seq<Byte>) {
    forall calls, others | Legal(calls, wrapper, child) && Legal(others, wrapper, child) ::
      Passes(c, discards, calls) <==> Passes(c, discards, others)
  }

  /** What the reducer's constructor takes as the size of an unfinished line. */
  predicate Resumable(discards: (nat, nat)) {
    discards.0 <= LINE_BYTES && discards.1 <= LINE_BYTES
  }

  // -------------------------------------------------------------- runs put together

  lemma {:induction false} RunAppend(c: Config, st: Reading, a: seq<Call>, b: seq<Call>)
    ensures Run(c, st, a + b) == match Run(c, st, a) case None => None case Some(n) => Run(c, n, b)
    decreases |a|
  {
    hide Step;
    if a == [] {
      assert a + b == b;
    } else {
      assert (a + b)[1..] == a[1..] + b;
      var next := Step(c, st, a[0].family, a[0].chunk);
      if next.Some? { RunAppend(c, next.value, a[1..], b); }
    }
  }

  lemma {:induction false} DeliveredAppend(a: seq<Call>, b: seq<Call>, family: Family)
    ensures Delivered(a + b, family) == Delivered(a, family) + Delivered(b, family)
    decreases |a|
  {
    if a == [] {
      assert a + b == b;
    } else {
      assert (a + b)[1..] == a[1..] + b;
      DeliveredAppend(a[1..], b, family);
    }
  }

  lemma RunOne(c: Config, st: Reading, call: Call)
    ensures Run(c, st, [call]) == Step(c, st, call.family, call.chunk)
    ensures Delivered([call], call.family) == call.chunk
    ensures forall family | family != call.family :: Delivered([call], family) == []
  {
    hide Step;
    assert [call][1..] == [];
  }

  // ------------------------------------------------------ a cutting that always passes

  /** One call for each line with its line break, and one for the rest. */
  function Cut(family: Family, b: seq<Byte>): seq<Call>
    decreases |b|
  {
    match FirstLf(b)
    case None => if b == [] then [] else [Call(family, b)]
    case Some(i) => [Call(family, b[..i + 1])] + Cut(family, b[i + 1..])
  }

  function Other(family: Family): Family {
    match family case Wrapper => Child case Child => Wrapper
  }

  lemma {:induction false} CutDelivers(family: Family, b: seq<Byte>)
    ensures Delivered(Cut(family, b), family) == b && Delivered(Cut(family, b), Other(family)) == []
    decreases |b|
  {
    hide FirstLf;
    var lf := FirstLf(b);
    if lf.None? {
      if b != [] { assert [Call(family, b)][1..] == []; }
    } else {
      var i := lf.value;
      CutDelivers(family, b[i + 1..]);
      assert ([Call(family, b[..i + 1])] + Cut(family, b[i + 1..]))[1..] == Cut(family, b[i + 1..]);
      assert b == b[..i + 1] + b[i + 1..];
    }
  }

  /** No line is more than one byte over the limit, so every call of the cutting fits a page. */
  ghost predicate Short(b: seq<Byte>) {
    (forall i | 0 <= i < |Lines(b)| :: |Lines(b)[i]| <= LINE_BYTES + 1) && |Rest(b)| <= LINE_BYTES + 1
  }

  lemma ShortTail(b: seq<Byte>)
    requires Short(b) && FirstLf(b).Some?
    ensures FirstLf(b).value <= LINE_BYTES + 1 && Short(b[FirstLf(b).value + 1..])
  {
    hide FirstLf;
    var i := FirstLf(b).value;
    var more := Lines(b[i + 1..]);
    assert Lines(b) == [b[..i]] + more;
    assert Lines(b)[0] == b[..i];
    assert forall j | 0 <= j < |more| :: more[j] == Lines(b)[j + 1];
  }

  lemma {:induction false} CutFits(family: Family, b: seq<Byte>)
    requires Short(b)
    ensures forall i | 0 <= i < |Cut(family, b)| :: |Cut(family, b)[i].chunk| <= PAGE_BYTES
    decreases |b|
  {
    hide FirstLf, Lines;
    if FirstLf(b).Some? {
      ShortTail(b);
      CutFits(family, b[FirstLf(b).value + 1..]);
    }
  }

  /** What a run over one stream leaves of everything else. */
  ghost predicate Leaves(st: Reading, family: Family, b: seq<Byte>, q: Progress, r: Option<Reading>) {
    && r.Some? && r.value.progress == q && r.value.bytesRead == st.bytesRead + |b|
    && r.value.Of(Other(family)) == st.Of(Other(family))
  }

  lemma StepFraming(c: Config, family: Family, st: Reading, chunk: seq<Byte>)
    requires st.Of(family) == Stream([], 0, None) && |chunk| <= PAGE_BYTES && st.bytesRead + |chunk| <= ATTEMPT_BYTES
    requires Fold(c, family, st.progress, Lines(chunk)).Some? && StrippedWithin(Lines(chunk)) && |Rest(chunk)| <= LINE_BYTES
    ensures var q := Fold(c, family, st.progress, Lines(chunk)).value;
            Step(c, st, family, chunk) ==
            Some(st.With(family, Stream(Rest(chunk), 0, None)).(bytesRead := st.bytesRead + |chunk|, progress := q))
  {
    hide Feed, Fold, Lines, Rest, FirstLf, StrippedWithin, SkipDiscarded;
    assert [] + chunk == chunk && chunk[0..] == chunk;
    FeedIsFold(c, family, st.progress, chunk);
  }

  /** The first line of a stream, taken alone with its line break. */
  lemma LineAlone(b: seq<Byte>)
    requires FirstLf(b).Some?
    ensures var i := FirstLf(b).value;
            && Lines(b[..i + 1]) == [b[..i]] && Rest(b[..i + 1]) == [] && FirstLf(b[..i + 1]) == Some(i)
            && Lines(b) == [b[..i]] + Lines(b[i + 1..]) && Rest(b) == Rest(b[i + 1..])
  {
    hide FirstLf, Lines, Rest;
    var i := FirstLf(b).value;
    var first := b[..i + 1];
    FirstLfIs(first, i);
    Unfold(b);
    Unfold(first);
    assert first[..i] == b[..i] && first[i + 1..] == [];
    NoLf([]);
    Unfold([]);
  }

  lemma FirstLfIs(b: seq<Byte>, i: nat)
    requires i < |b| && b[i] == LF && forall j | 0 <= j < i :: b[j] != LF
    ensures FirstLf(b) == Some(i)
  {
    hide FirstLf;
  }

  /** Lines and rest, one line further. */
  lemma Unfold(b: seq<Byte>)
    ensures FirstLf(b).None? ==> Lines(b) == [] && Rest(b) == b
    ensures FirstLf(b).Some? ==>
              var i := FirstLf(b).value; Lines(b) == [b[..i]] + Lines(b[i + 1..]) && Rest(b) == Rest(b[i + 1..])
  {
    hide FirstLf, Lines, Rest;
    LinesEmpty(b);
    if FirstLf(b).Some? { assert Lines(b) == [Lines(b)[0]] + Lines(b)[1..]; }
  }

  lemma FoldFirst(c: Config, family: Family, p: Progress, line: seq<Byte>, more: seq<seq<Byte>>)
    requires Fold(c, family, p, [line] + more).Some? && StrippedWithin([line] + more)
    ensures Fold(c, family, p, [line]).Some? && StrippedWithin([line]) && StrippedWithin(more)
    ensures Fold(c, family, Fold(c, family, p, [line]).value, more) == Fold(c, family, p, [line] + more)
  {
    hide Fold, StripCr;
    FoldAppend(c, family, p, [line], more);
    var all := [line] + more;
    assert all[0] == line && forall i | 0 <= i < |more| :: all[i + 1] == more[i];
  }

  /** At a line start, cutting after every line break passes whenever the lines do. */
  lemma {:induction false} FramingPasses(c: Config, family: Family, st: Reading, b: seq<Byte>)
    requires st.Of(family) == Stream([], 0, None) && st.bytesRead + |b| <= ATTEMPT_BYTES && Short(b)
    requires Fold(c, family, st.progress, Lines(b)).Some? && StrippedWithin(Lines(b)) && |Rest(b)| <= LINE_BYTES
    ensures Leaves(st, family, b, Fold(c, family, st.progress, Lines(b)).value, Run(c, st, Cut(family, b)))
    decreases |b|
  {
    hide Fold, Lines, Rest, FirstLf, StrippedWithin, Step, Run, Short;
    LinesEmpty(b);
    if FirstLf(b).None? {
      RunNothing(c, st);
      if b == [] {
        FoldNothing(c, family, st.progress);
      } else {
        StepFraming(c, family, st, b);
        RunOne(c, st, Call(family, b));
      }
    } else {
      var i := FirstLf(b).value;
      var first, rest := b[..i + 1], b[i + 1..];
      LineAlone(b);
      ShortTail(b);
      FoldFirst(c, family, st.progress, b[..i], Lines(rest));
      StepFraming(c, family, st, first);
      var next := Step(c, st, family, first).value;
      FramingPasses(c, family, next, rest);
      RunOne(c, st, Call(family, first));
      RunAppend(c, st, [Call(family, first)], Cut(family, rest));
    }
  }

  lemma RunNothing(c: Config, st: Reading)
    ensures Run(c, st, []) == Some(st)
  {}

  /** While its start is being skipped, a line within the limit passes in one call. */
  lemma SkipOpenPasses(c: Config, family: Family, st: Reading, discard: nat, b: seq<Byte>)
    requires discard > 0 && st.Of(family) == Stream([], discard, None) && st.bytesRead + |b| <= ATTEMPT_BYTES
    requires b != [] && FirstLf(b).None? && SkippedWithin(discard, b)
    ensures Leaves(st, family, b, st.progress, Step(c, st, family, b))
  {
    hide Feed, FirstLf, StripCr;
    LinesEmpty(b);
    assert [] + b == b;
  }

  /** The end of a skipped line within the limit passes with its line break. */
  lemma SkipClosedPasses(c: Config, family: Family, st: Reading, discard: nat, b: seq<Byte>)
    requires discard > 0 && st.Of(family) == Stream([], discard, None) && st.bytesRead + |b| <= ATTEMPT_BYTES
    requires FirstLf(b).Some? && discard + |StripCr(b[..FirstLf(b).value])| <= LINE_BYTES
    ensures var first := b[..FirstLf(b).value + 1];
            Step(c, st, family, first) == Some(st.With(family, Stream([], 0, None)).(bytesRead := st.bytesRead + |first|))
  {
    hide FirstLf, StripCr, Feed, SkipDiscarded;
    var i := FirstLf(b).value;
    var first := b[..i + 1];
    StripLength(b[..i]);
    LineSkipped(discard, b);
    assert [] + first == first && first[i + 1..] == [];
    FeedRest(c, family, st.progress, []);
  }

  lemma LineSkipped(discard: nat, b: seq<Byte>)
    requires FirstLf(b).Some? && discard + |StripCr(b[..FirstLf(b).value])| <= LINE_BYTES
    ensures SkipDiscarded(Stream([], discard, None), b[..FirstLf(b).value + 1]) == Closed(FirstLf(b).value + 1)
  {
    hide FirstLf, StripCr, SkipDiscarded;
    var i := FirstLf(b).value;
    var line := b[..i];
    FirstLfIs(b[..i + 1], i);
    StripLength(line);
    assert b[..i + 1] == line + [LF];
    EndSkipped(discard, line);
  }

  lemma EndSkipped(discard: nat, line: seq<Byte>)
    requires FirstLf(line + [LF]) == Some(|line|) && discard + |line| - (if LastByte(line) == Some(CR) then 1 else 0) <= LINE_BYTES
    ensures SkipDiscarded(Stream([], discard, None), line + [LF]) == Closed(|line| + 1)
  {
    hide FirstLf;
    assert line != [] ==> LastByte(line) == Some((line + [LF])[|line| - 1]);
  }

  /** Cutting after every line break passes on a stream that is within the limits, resumed or not. */
  lemma StreamPasses(c: Config, family: Family, st: Reading, discard: nat, b: seq<Byte>)
    requires st.Of(family) == Stream([], discard, None) && st.bytesRead + |b| <= ATTEMPT_BYTES && Short(b)
    requires Within(discard, b) && Fold(c, family, st.progress, Counted(discard, b)).Some?
    ensures Leaves(st, family, b, Fold(c, family, st.progress, Counted(discard, b)).value, Run(c, st, Cut(family, b)))
  {
    hide Fold, Lines, Rest, FirstLf, StrippedWithin, StripCr, Step, Run, Short;
    LinesEmpty(b);
    RunNothing(c, st);
    FoldNothing(c, family, st.progress);
    if discard == 0 {
      FramingPasses(c, family, st, b);
    } else if FirstLf(b).None? {
      if b != [] {
        SkipOpenPasses(c, family, st, discard, b);
        RunOne(c, st, Call(family, b));
      }
    } else {
      var i := FirstLf(b).value;
      var first, rest := b[..i + 1], b[i + 1..];
      LineAlone(b);
      ShortTail(b);
      SkipClosedPasses(c, family, st, discard, b);
      var next := Step(c, st, family, first).value;
      FramingPasses(c, family, next, rest);
      RunOne(c, st, Call(family, first));
      RunAppend(c, st, [Call(family, first)], Cut(family, rest));
    }
  }

  lemma WithinIsShort(discard: nat, b: seq<Byte>)
    requires Within(discard, b)
    ensures Short(b)
  {
    hide FirstLf, StripCr;
    var lines, counted := Lines(b), Counted(discard, b);
    LinesEmpty(b);
    forall i | 0 <= i < |lines| ensures |lines[i]| <= LINE_BYTES + 1 {
      StripLength(lines[i]);
      if discard == 0 {
        assert counted[i] == lines[i];
      } else if i > 0 {
        assert counted[i - 1] == lines[i];
      }
    }
  }

  /** Within the limits there is a cutting that passes. */
  lemma CutPasses(c: Config, discards: (nat, nat), wrapper: seq<Byte>, child: seq<Byte>)
    requires |wrapper| + |child| <= ATTEMPT_BYTES && Whole(c, discards, wrapper, child).Some?
    requires Within(discards.0, wrapper) && Within(discards.1, child)
    ensures var calls := Cut(Wrapper, wrapper) + Cut(Child, child);
            Legal(calls, wrapper, child) && Passes(c, discards, calls)
  {
    hide Fold, Run, Cut, Within, Short, Counted;
    var a, b := Cut(Wrapper, wrapper), Cut(Child, child);
    var st := Initial(discards.0, discards.1);
    WithinIsShort(discards.0, wrapper);
    WithinIsShort(discards.1, child);
    CutFits(Wrapper, wrapper);
    CutFits(Child, child);
    CutDelivers(Wrapper, wrapper);
    CutDelivers(Child, child);
    DeliveredAppend(a, b, Wrapper);
    DeliveredAppend(a, b, Child);
    StreamPasses(c, Wrapper, st, discards.0, wrapper);
    WrapperFold(c, START, START, Counted(discards.0, wrapper));
    StreamPasses(c, Child, Run(c, st, a).value, discards.1, child);
    RunAppend(c, st, a, b);
  }

  // ------------------------------------------------------- a cutting that then faults

  /** The bytes one at a time. */
  function Singles(family: Family, b: seq<Byte>): (calls: seq<Call>)
    ensures |calls| == |b| && forall i | 0 <= i < |b| :: calls[i] == Call(family, [b[i]])
  {
    seq(|b|, i requires 0 <= i < |b| => Call(family, [b[i]]))
  }

  lemma {:induction false} SinglesDeliver(family: Family, b: seq<Byte>)
    ensures Delivered(Singles(family, b), family) == b && Delivered(Singles(family, b), Other(family)) == []
    decreases |b|
  {
    if b != [] {
      assert Singles(family, b)[1..] == Singles(family, b[1..]);
      SinglesDeliver(family, b[1..]);
    }
  }

  /** A raw line over the limit: just before its line break the unfinished line is too long. */
  lemma {:induction false} LongLine(b: seq<Byte>) returns (k: nat)
    requires !LinesWithin(Lines(b))
    ensures k <= |b| && |Rest(b[..k])| > LINE_BYTES
    decreases |b|
  {
    hide FirstLf, Lines, Rest;
    LinesEmpty(b);
    var i := FirstLf(b).value;
    var rest := b[i + 1..];
    Unfold(b);
    if i > LINE_BYTES {
      k := i;
      NoLf(b[..i]);
      Unfold(b[..i]);
    } else {
      LaterLine(b);
      k := LongLine(rest);
      k := i + 1 + k;
      RestAfter(b, k);
      assert rest[..k - i - 1] == b[i + 1..k];
    }
  }

  lemma RestAfter(b: seq<Byte>, k: nat)
    requires FirstLf(b).Some? && FirstLf(b).value < k <= |b|
    ensures Rest(b[..k]) == Rest(b[FirstLf(b).value + 1..k]) && Lines(b[..k]) != []
  {
    hide FirstLf, Lines, Rest;
    var i := FirstLf(b).value;
    FirstLfIs(b[..k], i);
    Unfold(b[..k]);
    assert b[..k][i + 1..] == b[i + 1..k];
  }

  /** A skipped line that is one CR over the limit, and still open. */
  ghost predicate OneOver(discard: nat, b: seq<Byte>) {
    discard > 0 && Lines(b) == [] && discard + |b| == LINE_BYTES + 1
  }

  /** Between calm and within there is a place where a cut, or an empty call, faults. */
  lemma WeakSpot(discard: nat, b: seq<Byte>) returns (k: nat)
    requires discard <= LINE_BYTES && Within(discard, b) && !Calm(discard, b)
    ensures k <= |b| && (!Within(discard, b[..k]) || OneOver(discard, b[..k]))
  {
    hide FirstLf, StripCr, Lines, Rest, StrippedWithin;
    Unfold(b);
    if discard == 0 {
      k := LongLine(b);
    } else if FirstLf(b).None? {
      k := |b|;
      assert b[..k] == b;
    } else {
      var i := FirstLf(b).value;
      var line := b[..i];
      if discard + i > LINE_BYTES {
        StripLength(line);
        NoLf(line);
        Unfold(line);
        k := i;
      } else {
        LaterLine(b);
        k := LongLine(b[i + 1..]);
        k := i + 1 + k;
        RestAfter(b, k);
        assert b[i + 1..][..k - i - 1] == b[i + 1..k];
      }
    }
  }

  lemma LaterLine(b: seq<Byte>)
    requires FirstLf(b).Some? && FirstLf(b).value <= LINE_BYTES && !LinesWithin(Lines(b))
    ensures !LinesWithin(Lines(b[FirstLf(b).value + 1..]))
  {
    hide FirstLf, Lines;
    Unfold(b);
    var j :| 0 <= j < |Lines(b)| && |Lines(b)[j]| > LINE_BYTES;
    assert Lines(b[FirstLf(b).value + 1..])[j - 1] == Lines(b)[j];
  }

  /** A run that passes has kept the limits at every call. */
  lemma PrefixWithin(c: Config, discards: (nat, nat), a: seq<Call>, b: seq<Call>)
    requires Resumable(discards) && Passes(c, discards, a + b)
    ensures Passes(c, discards, a)
    ensures Within(discards.0, Delivered(a, Wrapper)) && Within(discards.1, Delivered(a, Child))
  {
    hide Run, Within, Whole;
    var st := Initial(discards.0, discards.1);
    RunAppend(c, st, a, b);
    WholeOfNothing(c, discards);
    NothingWithin(discards.0);
    NothingWithin(discards.1);
    AcceptedIsWithin(c, discards, [], [], st, a);
    assert [] + Delivered(a, Wrapper) == Delivered(a, Wrapper) && [] + Delivered(a, Child) == Delivered(a, Child);
  }

  lemma NothingWithin(discard: nat)
    requires discard <= LINE_BYTES
    ensures Within(discard, [])
  {
    NoLf([]);
  }

  /** At one CR over the limit an empty call faults. */
  lemma EmptyCallFaults(c: Config, discards: (nat, nat), family: Family, a: seq<Call>)
    requires OneOver(if family == Wrapper then discards.0 else discards.1, Delivered(a, family))
    ensures !Passes(c, discards, a + [Call(family, [])])
  {
    hide Run, Fold, Lines;
    var st := Initial(discards.0, discards.1);
    RunAppend(c, st, a, [Call(family, [])]);
    if Run(c, st, a).Some? {
      var n := Run(c, st, a).value;
      WholeOfNothing(c, discards);
      RunIsWhole(c, discards, [], [], st, a);
      assert [] + Delivered(a, Wrapper) == Delivered(a, Wrapper) && [] + Delivered(a, Child) == Delivered(a, Child);
      RunOne(c, n, Call(family, []));
      NoLf([]);
      assert Step(c, n, family, []).None?;
    }
  }

  /** The other stream one byte at a time, after everything of this one. */
  function WeakCalls(family: Family, b: seq<Byte>, other: seq<Byte>, k: nat): seq<Call>
    requires k <= |b|
  {
    Singles(family, b[..k]) + [Call(family, [])] + (Singles(family, b[k..]) + Singles(Other(family), other))
  }

  lemma WeakCallsLegal(family: Family, b: seq<Byte>, other: seq<Byte>, k: nat)
    requires k <= |b|
    ensures var calls := WeakCalls(family, b, other, k);
            if family == Wrapper then Legal(calls, b, other) else Legal(calls, other, b)
  {
    hide Delivered, Singles;
    var first, empty, second, third := Singles(family, b[..k]), [Call(family, [])], Singles(family, b[k..]), Singles(Other(family), other);
    forall f: Family ensures Delivered(WeakCalls(family, b, other, k), f) == Delivered(first, f) + Delivered(empty, f) + (Delivered(second, f) + Delivered(third, f)) {
      DeliveredAppend(first + empty, second + third, f);
      DeliveredAppend(first, empty, f);
      DeliveredAppend(second, third, f);
    }
    SinglesDeliver(family, b[..k]);
    SinglesDeliver(family, b[k..]);
    SinglesDeliver(Other(family), other);
    EmptyDelivers(family);
    assert b[..k] + [] + (b[k..] + []) == b;
    assert [] + [] + ([] + other) == other;
  }

  lemma EmptyDelivers(family: Family)
    ensures forall f :: Delivered([Call(family, [])], f) == []
  {
    assert [Call(family, [])][1..] == [];
  }

  /** So there is a cutting that faults, unless both streams are calm. */
  lemma WeakFaults(c: Config, discards: (nat, nat), family: Family, b: seq<Byte>, other: seq<Byte>) returns (calls: seq<Call>)
    requires Resumable(discards)
    requires var discard := if family == Wrapper then discards.0 else discards.1; Within(discard, b) && !Calm(discard, b)
    ensures if family == Wrapper then Legal(calls, b, other) else Legal(calls, other, b)
    ensures !Passes(c, discards, calls)
  {
    hide Within, Calm, Passes, OneOver, Delivered, Singles;
    var discard := if family == Wrapper then discards.0 else discards.1;
    var k := WeakSpot(discard, b);
    calls := WeakCalls(family, b, other, k);
    WeakCallsLegal(family, b, other, k);
    var first, rest := Singles(family, b[..k]), Singles(family, b[k..]) + Singles(Other(family), other);
    SinglesDeliver(family, b[..k]);
    if Passes(c, discards, calls) {
      PrefixWithin(c, discards, first + [Call(family, [])], rest);
      if OneOver(discard, b[..k]) {
        EmptyCallFaults(c, discards, family, first);
      } else {
        PrefixWithin(c, discards, first, [Call(family, [])]);
      }
    }
  }

  // -------------------------------------------------------------- the exact condition

  /** Both streams are calm: no line with its CR, skipped, complete or unfinished, is over the limit. */
  predicate BothCalm(discards: (nat, nat), wrapper: seq<Byte>, child: seq<Byte>) {
    Calm(discards.0, wrapper) && Calm(discards.1, child)
  }

  predicate BothWithin(discards: (nat, nat), wrapper: seq<Byte>, child: seq<Byte>) {
    Within(discards.0, wrapper) && Within(discards.1, child)
  }

  /** However they are cut, these bytes fault: too many, a line that faults, or one over the limit without its CR. */
  predicate Hopeless(c: Config, discards: (nat, nat), wrapper: seq<Byte>, child: seq<Byte>) {
    |wrapper| + |child| > ATTEMPT_BYTES || Whole(c, discards, wrapper, child).None? || !BothWithin(discards, wrapper, child)
  }

  /**
    * The verdict does not depend on the cutting exactly when these bytes always fault, or no
    * line of theirs is over the limit with its CR.
    */
  lemma VerdictExact(c: Config, discards: (nat, nat), wrapper: seq<Byte>, child: seq<Byte>)
    requires Resumable(discards)
    ensures Agree(c, discards, wrapper, child) <==> Hopeless(c, discards, wrapper, child) || BothCalm(discards, wrapper, child)
  {
    hide Whole, Within, Calm, Passes, Legal;
    if Hopeless(c, discards, wrapper, child) {
      forall calls | Legal(calls, wrapper, child) ensures !Passes(c, discards, calls) {
        AlwaysFaults(c, discards, wrapper, child, calls);
      }
    } else if BothCalm(discards, wrapper, child) {
      forall calls | Legal(calls, wrapper, child) ensures Passes(c, discards, calls) {
        CalmPasses(c, discards, wrapper, child, calls);
      }
    } else {
      CutPasses(c, discards, wrapper, child);
      var passing, faulting := Cut(Wrapper, wrapper) + Cut(Child, child), [];
      if !Calm(discards.0, wrapper) {
        faulting := WeakFaults(c, discards, Wrapper, wrapper, child);
      } else {
        faulting := WeakFaults(c, discards, Child, child, wrapper);
      }
      assert Legal(passing, wrapper, child) && Legal(faulting, wrapper, child);
    }
  }

  lemma AlwaysFaults(c: Config, discards: (nat, nat), wrapper: seq<Byte>, child: seq<Byte>, calls: seq<Call>)
    requires Resumable(discards) && Legal(calls, wrapper, child) && Hopeless(c, discards, wrapper, child)
    ensures !Passes(c, discards, calls)
  {
    hide Run, Whole, Within;
    assert [] + wrapper == wrapper && [] + child == child && calls + [] == calls;
    WholeOfNothing(c, discards);
    if Passes(c, discards, calls) {
      PrefixWithin(c, discards, calls, []);
      RunIsWhole(c, discards, [], [], Initial(discards.0, discards.1), calls);
      AttemptWithin(c, Initial(discards.0, discards.1), calls);
      WholeCounts(c, discards, wrapper, child);
    }
  }

  lemma {:induction false} AttemptWithin(c: Config, st: Reading, calls: seq<Call>)
    requires st.bytesRead <= ATTEMPT_BYTES && Run(c, st, calls).Some?
    ensures Run(c, st, calls).value.bytesRead <= ATTEMPT_BYTES
    decreases |calls|
  {
    hide StreamStep;
    if calls != [] { AttemptWithin(c, Step(c, st, calls[0].family, calls[0].chunk).value, calls[1..]); }
  }

  lemma WholeCounts(c: Config, discards: (nat, nat), wrapper: seq<Byte>, child: seq<Byte>)
    requires Whole(c, discards, wrapper, child).Some?
    ensures Whole(c, discards, wrapper, child).value.bytesRead == |wrapper| + |child|
  {
    hide Fold, Counted;
  }

  lemma CalmPasses(c: Config, discards: (nat, nat), wrapper: seq<Byte>, child: seq<Byte>, calls: seq<Call>)
    requires Legal(calls, wrapper, child) && |wrapper| + |child| <= ATTEMPT_BYTES
    requires Whole(c, discards, wrapper, child).Some? && BothCalm(discards, wrapper, child)
    ensures Passes(c, discards, calls)
  {
    hide Run, Whole, Calm;
    WholeOfNothing(c, discards);
    TotalDelivered(calls);
    assert [] + wrapper == wrapper && [] + child == child;
    VerdictIsWhole(c, discards, [], [], Initial(discards.0, discards.1), calls);
  }

  lemma {:induction false} TotalDelivered(calls: seq<Call>)
    ensures TotalBytes(calls) == |Delivered(calls, Wrapper)| + |Delivered(calls, Child)|
    decreases |calls|
  {
    if calls != [] { TotalDelivered(calls[1..]); }
  }

  // --------------------------------------------------------- the skipped line's one CR

  /** One CR over the limit the next byte must be the line break; an empty call is already a fault. */
  lemma AfterTheCr(chunk: seq<Byte>)
    ensures SkipDiscarded(Stream([], LINE_BYTES + 1, Some(CR)), chunk) == if chunk != [] && chunk[0] == LF then Closed(1) else TooLong
  {
    hide FirstLf;
    if FirstLf(chunk).Some? && FirstLf(chunk).value > 0 { assert chunk[0] != LF; }
  }

  /** A skipped line that ends one CR over the limit passes exactly when the last call brought bytes. */
  lemma SkippedCrExact(c: Config, discards: (nat, nat), a: seq<Call>, chunk: seq<Byte>)
    requires Resumable(discards) && |chunk| <= PAGE_BYTES && Legal(a, [], Delivered(a, Child))
    requires OneOver(discards.1, Delivered(a, Child) + chunk) && LastByte(Delivered(a, Child) + chunk) == Some(CR)
    ensures Passes(c, discards, a + [Call(Child, chunk)]) <==> chunk != []
  {
    hide Passes, OneOver, Delivered, Legal;
    if chunk == [] {
      assert Delivered(a, Child) + chunk == Delivered(a, Child);
      EmptyCallFaults(c, discards, Child, a);
    } else {
      SkippedCrPasses(c, discards, a, chunk);
    }
  }

  lemma SkippedCrPasses(c: Config, discards: (nat, nat), a: seq<Call>, chunk: seq<Byte>)
    requires Resumable(discards) && chunk != [] && |chunk| <= PAGE_BYTES && Legal(a, [], Delivered(a, Child))
    requires OneOver(discards.1, Delivered(a, Child) + chunk) && chunk[|chunk| - 1] == CR
    ensures Passes(c, discards, a + [Call(Child, chunk)])
  {
    hide Run, Fold, Delivered, FirstLf, Lines, Rest, Whole, Calm, Step;
    var st, b := Initial(discards.0, discards.1), Delivered(a, Child);
    SkippedPrefix(c, discards, b, chunk);
    CalmPasses(c, discards, [], b, a);
    WholeOfNothing(c, discards);
    RunIsWhole(c, discards, [], [], st, a);
    assert [] + b == b && [] + Delivered(a, Wrapper) == [];
    RunAppend(c, st, a, [Call(Child, chunk)]);
    RunOne(c, Run(c, st, a).value, Call(Child, chunk));
  }

  /** Before its CR such a line is calm, and the CR is taken. */
  lemma SkippedPrefix(c: Config, discards: (nat, nat), b: seq<Byte>, chunk: seq<Byte>)
    requires Resumable(discards) && chunk != [] && |chunk| <= PAGE_BYTES
    requires OneOver(discards.1, b + chunk) && chunk[|chunk| - 1] == CR
    ensures BothCalm(discards, [], b) && Whole(c, discards, [], b).Some?
    ensures Step(c, Whole(c, discards, [], b).value, Child, chunk).Some?
  {
    hide Feed, Fold, FirstLf, Lines, Rest, SkipDiscarded;
    LinesEmpty(b + chunk);
    FirstLfAppend(b, chunk);
    Unfold(b);
    NoLf([]);
    Unfold([]);
    FoldNothing(c, Wrapper, START);
    FoldNothing(c, Child, START);
    assert [] + chunk == chunk;
    CrTaken(discards.1 + |b|, LastByte(b), chunk);
  }

  lemma CrTaken(discarded: nat, last: Option<Byte>, chunk: seq<Byte>)
    requires chunk != [] && FirstLf(chunk).None? && discarded + |chunk| == LINE_BYTES + 1 && chunk[|chunk| - 1] == CR
    ensures SkipDiscarded(Stream([], discarded, last), chunk) == Open(Stream([], LINE_BYTES + 1, Some(CR)))
  {
    hide FirstLf;
  }
}
