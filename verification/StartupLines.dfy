/**
 What an accepted stream of lines contains: which lines are events, which are ignored, and
 what the events of a stream that does not fault look like.
 */
module StartupLines {
  import opened Encoding
  import opened StrictJson
  import opened StartupEvent
  import opened StartupReducer
  import opened StartupChunks
  import J = StrictJsonGrammar
  import Size = StartupSize

  // -------------------------------------------------------------- a stream of lines

  /** The events among some lines, in order. */
  function EventsOf(c: Config, lines: seq<seq<Byte>>): seq<Event> {
    if lines == [] then []
    else
      var front := EventsOf(c, lines[..|lines| - 1]);
      match Classify(c, StripCr(lines[|lines| - 1]))
      case Observed(e) => front + [e]
      case _ => front
  }

  predicate Follows(previous: State, current: State) {
    previous.DaemonState? && current.DaemonState? ==> DoesNotRegress(previous, current)
  }

  /** No daemon state goes back behind the one before it. */
  predicate NonRegressing(es: seq<Event>) {
    forall i | 0 < i < |es| :: Follows(es[i - 1].state, es[i].state)
  }

  /** Where a reader stands that has accepted exactly these events. */
  function After(es: seq<Event>): Progress {
    if es == [] then START
    else
      var last := es[|es| - 1];
      Progress(|es|, Some(last), if last.state.DaemonState? then Some(last.state) else None)
  }

  function OrZero(n: Option<int>): int {
    match n case None => 0 case Some(i) => i
  }

  /** The three generations of a daemon, with none yet as zero. */
  predicate CountersFall(earlier: State, later: State)
    requires earlier.DaemonState? && later.DaemonState?
  {
    || later.connection < earlier.connection || OrZero(later.attempted) < OrZero(earlier.attempted)
    || OrZero(later.accepted) < OrZero(earlier.accepted)
  }

  /** A daemon state's generations are nested, and its registration says how far the current connection got. */
  lemma DaemonStateExactly(s: State)
    requires s.DaemonState? && Positive(s.connection) && PositiveOrNull(s.attempted) && PositiveOrNull(s.accepted)
    ensures var attempted, accepted := OrZero(s.attempted), OrZero(s.accepted);
            ValidState(s) <==>
            && Hex64(s.target) && accepted <= attempted <= s.connection
            && (|| s.registration == Ascii("disconnected")
                || (s.registration == Ascii("attempted") && attempted == s.connection)
                || (s.registration == Ascii("accepted") && accepted == s.connection)
                || (s.registration == Ascii("denied") && accepted < attempted == s.connection))
  {
    hide Hex64;
  }

  lemma FollowsExactly(a: State, b: State)
    requires a.DaemonState? && b.DaemonState? && ValidState(a) && ValidState(b)
    ensures Follows(a, b) <==> !CountersFall(a, b)
  {
    hide Hex64;
  }

  /** A daemon's history does not regress exactly when none of its counters falls between any two events, however far apart. */
  lemma HistoryExactly(es: seq<Event>)
    requires forall i | 0 <= i < |es| :: es[i].state.DaemonState? && ValidState(es[i].state)
    ensures NonRegressing(es) <==> forall i, j | 0 <= i < j < |es| :: !CountersFall(es[i].state, es[j].state)
  {
    hide ValidState, Follows;
    if NonRegressing(es) {
      forall i, j | 0 <= i < j < |es| ensures !CountersFall(es[i].state, es[j].state) {
        HistoryMonotone(es, i, j);
      }
    }
    if !NonRegressing(es) {
      var i :| 0 < i < |es| && !Follows(es[i - 1].state, es[i].state);
      FollowsExactly(es[i - 1].state, es[i].state);
    }
  }

  lemma {:induction false} HistoryMonotone(es: seq<Event>, i: nat, j: nat)
    requires forall k | 0 <= k < |es| :: es[k].state.DaemonState? && ValidState(es[k].state)
    requires NonRegressing(es) && i <= j < |es|
    ensures !CountersFall(es[i].state, es[j].state)
    decreases j - i
  {
    hide ValidState, Follows;
    if i < j {
      HistoryMonotone(es, i, j - 1);
      assert Follows(es[j - 1].state, es[j].state);
      FollowsExactly(es[j - 1].state, es[j].state);
    }
  }

  /** No line is a fault by itself, and the events are numbered from one without a gap and never go back. */
  ghost predicate InOrder(c: Config, lines: seq<seq<Byte>>) {
    && (forall i | 0 <= i < |lines| :: !Classify(c, StripCr(lines[i])).Rejected?)
    && (forall i | 0 <= i < |EventsOf(c, lines)| :: EventsOf(c, lines)[i].sequence == i + 1)
    && NonRegressing(EventsOf(c, lines))
  }

  /** All events of one reader are of its component. */
  lemma {:induction false} OneComponent(c: Config, lines: seq<seq<Byte>>)
    ensures forall i | 0 <= i < |EventsOf(c, lines)| :: EventsOf(c, lines)[i].state.DaemonState? <==> c.binding.component.Daemon?
  {
    hide StripCr, ValidState, EventOf, EventBytes, ParseStrictJson, EventShaped, JsonLooking, FieldCountFromText, FieldCount, DecodeLine;
    if lines != [] { OneComponent(c, lines[..|lines| - 1]); }
  }

  lemma {:induction false} FoldSnoc(c: Config, family: Family, p: Progress, lines: seq<seq<Byte>>)
    requires lines != []
    ensures var front := Fold(c, family, p, lines[..|lines| - 1]);
            Fold(c, family, p, lines) == if front.None? then None else ConsumeLine(c, family, front.value, StripCr(lines[|lines| - 1]))
  {
    hide ConsumeLine, StripCr, Fold;
    var n := |lines| - 1;
    assert lines == lines[..n] + [lines[n]];
    FoldAppend(c, family, p, lines[..n], [lines[n]]);
    FoldSingle(c, family, p, lines[n]);
    if Fold(c, family, p, lines[..n]).Some? { FoldSingle(c, family, Fold(c, family, p, lines[..n]).value, lines[n]); }
  }

  lemma FoldSingle(c: Config, family: Family, p: Progress, line: seq<Byte>)
    ensures Fold(c, family, p, [line]) == ConsumeLine(c, family, p, StripCr(line))
  {
    hide ConsumeLine, StripCr;
    assert [line][1..] == [];
  }

  /** What the next event does to a reader that stands after some events. */
  lemma EventAfter(es: seq<Event>, e: Event)
    requires forall i | 0 <= i < |es| :: es[i].state.DaemonState? <==> e.state.DaemonState?
    requires NonRegressing(es)
    ensures Continues(After(es), e) <==> e.sequence == |es| + 1 && NonRegressing(es + [e])
    ensures Continues(After(es), e) ==> Advance(After(es), e) == After(es + [e])
  {
    var all := es + [e];
    assert forall i | 0 < i < |es| :: Follows(all[i - 1].state, all[i].state) by {
      forall i | 0 < i < |es| ensures Follows(all[i - 1].state, all[i].state) { assert all[i - 1] == es[i - 1] && all[i] == es[i]; }
    }
    if es != [] {
      assert all[|es| - 1] == es[|es| - 1] && all[|es|] == e;
    }
  }

  /**
    * A child stream is accepted exactly when no line of it is a fault by itself and its events
    * are numbered from one without a gap and never go back; then the reader stands after them.
    */
  lemma {:induction false} FoldExact(c: Config, lines: seq<seq<Byte>>)
    ensures Fold(c, Child, START, lines) == if InOrder(c, lines) then Some(After(EventsOf(c, lines))) else None
    decreases |lines|
  {
    hide Classify, StripCr, Fold, Continues, Advance, After, NonRegressing;
    if lines == [] {
      FoldNothing(c, Child, START);
      NothingRegresses();
    } else {
      var n := |lines| - 1;
      var front, line := lines[..n], StripCr(lines[n]);
      FoldExact(c, front);
      FoldSnoc(c, Child, START, lines);
      OrderSplits(c, lines);
      OneComponent(c, lines);
      if InOrder(c, front) && Classify(c, line).Observed? {
        var es, e := EventsOf(c, front), Classify(c, line).e;
        EventsGrow(c, lines);
        EventAfter(es, e);
      }
    }
  }

  lemma NothingRegresses()
    ensures NonRegressing([]) && After([]) == START
  {}

  lemma EventsGrow(c: Config, lines: seq<seq<Byte>>)
    requires lines != [] && Classify(c, StripCr(lines[|lines| - 1])).Observed?
    ensures var es, e := EventsOf(c, lines[..|lines| - 1]), Classify(c, StripCr(lines[|lines| - 1])).e;
            && EventsOf(c, lines) == es + [e]
            && (forall i | 0 <= i < |es| :: EventsOf(c, lines)[i] == es[i]) && EventsOf(c, lines)[|es|] == e
  {
    hide Classify, StripCr;
  }

  /** Order so far, and what the last line adds to it. */
  lemma OrderSplits(c: Config, lines: seq<seq<Byte>>)
    requires lines != []
    ensures var front, verdict := lines[..|lines| - 1], Classify(c, StripCr(lines[|lines| - 1]));
            InOrder(c, lines) <==>
              && InOrder(c, front) && !verdict.Rejected?
              && (verdict.Observed? ==> verdict.e.sequence == |EventsOf(c, front)| + 1 && NonRegressing(EventsOf(c, front) + [verdict.e]))
  {
    hide Classify, StripCr, Follows;
    var n := |lines| - 1;
    var front, verdict := lines[..n], Classify(c, StripCr(lines[n]));
    var es := EventsOf(c, front);
    assert forall i | 0 <= i < n :: front[i] == lines[i];
    if verdict.Observed? {
      EventsGrow(c, lines);
      var all := es + [verdict.e];
      assert NonRegressing(all) ==> NonRegressing(es) by {
        if NonRegressing(all) {
          forall i | 0 < i < |es| ensures Follows(es[i - 1].state, es[i].state) { assert all[i - 1] == es[i - 1] && all[i] == es[i]; }
        }
      }
    } else {
      assert EventsOf(c, lines) == es;
    }
  }

  /** A wrapper stream is accepted exactly when nothing in it looks like an event. */
  lemma {:induction false} WrapperExact(c: Config, p: Progress, lines: seq<seq<Byte>>)
    ensures Fold(c, Wrapper, p, lines).Some? <==> forall i | 0 <= i < |lines| :: Classify(c, StripCr(lines[i])).Ignored?
    decreases |lines|
  {
    hide Classify, StripCr;
    if lines != [] {
      var rest := lines[1..];
      WrapperExact(c, p, rest);
      assert forall i | 0 <= i < |rest| :: rest[i] == lines[i + 1];
      assert forall i | 0 < i < |lines| :: lines[i] == rest[i - 1];
    }
  }

  // ------------------------------------------------------------ what looks like an event

  ghost predicate Cuts(line: seq<Byte>, before: seq<Byte>, marker: Text, after: seq<Byte>) {
    line == before + marker + after
  }

  lemma ContainsExactly(line: seq<Byte>, marker: Text)
    requires Printable(marker)
    ensures Contains(line, marker) <==> exists before, after :: Cuts(line, before, marker, after)
  {
    if Contains(line, marker) {
      var i :| 0 <= i <= |line| && StandsAt(line, i, marker);
      assert Cuts(line, line[..i], marker, line[i + |marker|..]);
    }
    forall before, after | Cuts(line, before, marker, after) ensures Contains(line, marker) {
      assert StandsAt(line, |before|, marker);
    }
  }

  ghost function Times(line: seq<Byte>, marker: Text): nat {
    if exists before, after :: Cuts(line, before, marker, after) then 1 else 0
  }

  /** A line is shaped like an event when the kind occurs in it, or two of the three long field names. */
  lemma ShapedExactly(line: seq<Byte>)
    ensures EventShaped(line) <==>
            Times(line, KIND) > 0 || Times(line, K_EPOCH) + Times(line, K_CONFIG) + Times(line, K_SOURCE) >= 2
  {
    ContainsExactly(line, KIND);
    ContainsExactly(line, K_EPOCH);
    ContainsExactly(line, K_CONFIG);
    ContainsExactly(line, K_SOURCE);
    hide Contains, Cuts;
  }

  ghost predicate OpensAt(line: seq<Byte>, k: nat) {
    k < |line| && line[k] == 0x7B && forall i | 0 <= i < k :: line[i] == 0x20 || line[i] == 0x09 || line[i] == CR
  }

  /** A line looks like JSON when an opening brace comes first, after blanks, tabs and carriage returns alone. */
  lemma {:induction false} BraceFirst(line: seq<Byte>)
    ensures JsonLooking(line) <==> exists k: nat :: OpensAt(line, k)
  {
    if line != [] && line[0] != 0x7B {
      var rest := line[1..];
      BraceFirst(rest);
      if JsonLooking(line) {
        var k: nat :| OpensAt(rest, k);
        assert forall i | 0 < i < |line| :: line[i] == rest[i - 1];
        assert OpensAt(line, k + 1);
      }
      forall k: nat | OpensAt(line, k) ensures JsonLooking(line) {
        assert OpensAt(rest, k - 1);
      }
    } else if line != [] {
      assert OpensAt(line, 0);
    }
  }

  // --------------------------------------------------------------- what a line spells

  const BOM: seq<Byte> := [0xEF, 0xBB, 0xBF]

  /** The bytes are the UTF-8 of this text, after at most one byte-order mark. */
  ghost predicate Carries(line: seq<Byte>, text: Text) {
    WellFormed(text) && (line == BOM + Utf8(text) || (line == Utf8(text) && !(BOM <= line)))
  }

  lemma CarriesExactly(line: seq<Byte>, text: Text)
    ensures Carries(line, text) <==> DecodeLine(line) == Some(text)
  {
    hide DecodeUtf8, Utf8, WellFormed;
    var body := if BOM <= line then line[3..] else line;
    assert BOM <= line ==> line == BOM + line[3..];
    if DecodeUtf8(body).Some? { EncodeDecode(body); }
    if Carries(line, text) {
      DecodeEncode(text);
      if line == BOM + Utf8(text) { assert line[3..] == Utf8(text); }
    }
  }

  /** The JSON of an event is the only one that reads as it. */
  lemma StateOnly(component: Component, v: Value, s: State)
    requires StateOf(component, v) == Some(s)
    ensures v == StateJson(s) && (component.Bot? <==> s.BotState?)
  {
    assert v.fields == StateJson(s).fields;
  }

  lemma EventOnly(v: Value, e: Event)
    requires EventOf(v) == Some(e)
    ensures v == EventJson(e)
  {
    hide StateOf, StateJson;
    var f := v.fields;
    var component := ComponentOf(f[K_COMPONENT]).value;
    StateOnly(component, f[K_STATE], e.state);
    ComponentOnly(f[K_COMPONENT]);
    assert f == EventJson(e).fields;
  }

  lemma ComponentOnly(v: Value)
    requires ComponentOf(v).Some?
    ensures v == String(ComponentText(ComponentOf(v).value))
  {}

  /** A value is read as an event exactly when it is the JSON of a valid event of this process. */
  lemma ValidateExactly(c: Config, v: Value, e: Event)
    ensures ValidateEvent(v, c.binding, c.expected) == Some(e) <==> v == EventJson(e) && ValidEvent(e) && Bound(e, c.binding, c.expected)
  {
    hide EventOf, EventJson, EventBytes, Bound, ValidState, Hex64, ServiceKey;
    if EventOf(v).Some? { EventOnly(v, EventOf(v).value); }
    if ValidEvent(e) {
      Size.EventFits(e);
      EventRoundTrip(e);
    }
  }

  /** What a process that reports this state was told to expect. */
  function ExpectedOf(s: State): Expected {
    match s
    case BotState(_, _, hostSet, hostCount, _, _) => ExpectedHosts(hostSet, hostCount)
    case DaemonState(target, _, _, _, _) => ExpectedTarget(target)
  }

  /** The event that this very process reports under some number and state. */
  predicate OfProcess(c: Config, e: Event) {
    && ValidBinding(c.binding) && ValidExpected(c.binding.component, c.expected)
    && e == BoundEvent(c.binding, e.sequence, e.state) && ExpectedOf(e.state) == c.expected
  }

  lemma BoundExactly(c: Config, e: Event)
    ensures Bound(e, c.binding, c.expected) <==> OfProcess(c, e)
  {
    hide ValidBinding, ValidExpected;
  }

  /**
    * A line is an event exactly when it looks like one, and is a spelling, within the event limit,
    * of the JSON of a valid event of this process.
    */
  lemma ObservedExactly(c: Config, line: seq<Byte>, e: Event)
    ensures Classify(c, line) == Observed(e) <==>
            && (EventShaped(line) || JsonLooking(line)) && ValidEvent(e) && OfProcess(c, e)
            && exists text :: Carries(line, text) && |Utf8(text)| <= EVENT_BYTES && J.Spells(text, EventJson(e))
  {
    BoundExactly(c, e);
    hide EventShaped, JsonLooking, DecodeLine, ParseStrictJson, FieldCountFromText, FieldCount, ValidateEvent, EventJson, ValidEvent, Bound, OfProcess, J.Spells, Carries, Utf8, OfKind;
    if ValidEvent(e) {
      EventJsonValid(e);
      KindOf(e);
    }
    forall text | Carries(line, text) ensures DecodeLine(line) == Some(text) { CarriesExactly(line, text); }
    if DecodeLine(line).Some? {
      var text := DecodeLine(line).value;
      CarriesExactly(line, text);
      J.ParseExact(text, EVENT_JSON_LIMITS, {}, EventJson(e));
      ValidateExactly(c, EventJson(e), e);
      if ParseStrictJson(text, EVENT_JSON_LIMITS, {}).Ok? {
        ValidateExactly(c, ParseStrictJson(text, EVENT_JSON_LIMITS, {}).value, e);
      }
      hide J.Admitted;
    }
  }

  lemma KindOf(e: Event)
    ensures OfKind(EventJson(e))
  {}

  // ---------------------------------------------------------------- what is ignored

  /** This quoted name stands at `i`, and its colon at `j` after nothing but spaces. */
  ghost predicate NameAt(text: Text, i: nat, name: Text, j: nat) {
    && i + |name| + 2 <= j < |text|
    && text[i] == QUOTE && text[i + 1..i + 1 + |name|] == name && text[i + 1 + |name|] == QUOTE
    && (forall k | i + |name| + 2 <= k < j :: Space(text[k])) && text[j] == COLON
  }

  /** A quoted field name and its colon start here. */
  ghost predicate FieldAt(text: Text, i: nat) {
    exists name, j: nat :: name in EVENT_KEYS && NameAt(text, i, name, j)
  }

  ghost function FieldsFrom(text: Text, at: nat): set<nat> {
    set i | at <= i < |text| && FieldAt(text, i)
  }

  lemma {:induction false} SkipSpaceStops(text: Text, at: nat, j: nat)
    requires at <= j < |text| && (forall k | at <= k < j :: Space(text[k])) && !Space(text[j])
    ensures SkipSpace(text, at) == j
    decreases j - at
  {
    if at < j { SkipSpaceStops(text, at + 1, j); }
  }

  lemma {:induction false} SkipSpaceSkips(text: Text, at: nat)
    ensures var j := SkipSpace(text, at); (forall k | at <= k < j && k < |text| :: Space(text[k])) && (j > at ==> j <= |text|)
    decreases |text| - at
  {
    if at < |text| && Space(text[at]) { SkipSpaceSkips(text, at + 1); }
  }

  lemma QuotedAt(text: Text, i: nat, name: Text)
    ensures Matches(text, i, [QUOTE] + name + [QUOTE]) <==>
            i + |name| + 2 <= |text| && text[i] == QUOTE && text[i + 1..i + 1 + |name|] == name && text[i + 1 + |name|] == QUOTE
  {
    var quoted := [QUOTE] + name + [QUOTE];
    if i + |quoted| <= |text| {
      var t := text[i..i + |quoted|];
      assert t == [text[i]] + text[i + 1..i + 1 + |name|] + [text[i + 1 + |name|]];
      assert t[0] == text[i] && t[1 + |name|] == text[i + 1 + |name|] && quoted[1 + |name|] == QUOTE;
      assert t[1..1 + |name|] == text[i + 1..i + 1 + |name|] && quoted[1..1 + |name|] == name;
    }
  }

  lemma NameMatches(text: Text, i: nat, name: Text)
    ensures var quoted := [QUOTE] + name + [QUOTE];
            var colon := SkipSpace(text, i + |quoted|);
            && (Matches(text, i, quoted) && Peek(text, colon) == COLON ==> NameAt(text, i, name, colon))
            && (forall j: nat | NameAt(text, i, name, j) :: Matches(text, i, quoted) && colon == j && Peek(text, colon) == COLON)
  {
    hide Matches;
    var quoted := [QUOTE] + name + [QUOTE];
    QuotedAt(text, i, name);
    SkipSpaceSkips(text, i + |quoted|);
    forall j: nat | NameAt(text, i, name, j) ensures SkipSpace(text, i + |quoted|) == j {
      SkipSpaceStops(text, i + |quoted|, j);
    }
  }

  lemma {:induction false} FieldEndExactly(text: Text, i: nat, names: seq<Text>)
    ensures FieldEnd(text, i, names).Some? <==> exists name, j: nat :: name in names && NameAt(text, i, name, j)
    ensures FieldEnd(text, i, names).Some? ==> exists name, j: nat :: name in names && NameAt(text, i, name, j) && FieldEnd(text, i, names) == Some(j + 1)
  {
    hide SkipSpace, Matches, NameAt;
    if names != [] {
      NameMatches(text, i, names[0]);
      FieldEndExactly(text, i, names[1..]);
      assert forall name :: name in names <==> name == names[0] || name in names[1..];
    }
  }

  lemma NamesAreKeys()
    ensures forall name :: name in FIELD_NAMES <==> name in EVENT_KEYS
  {
    forall name ensures name in FIELD_NAMES <==> name in EVENT_KEYS { OneOfNine(name); }
  }

  lemma OneOfNine(name: Text)
    ensures name in FIELD_NAMES <==>
            || name == K_SCHEMA || name == K_KIND || name == K_COMPONENT || name == K_SERVICE || name == K_EPOCH
            || name == K_SEQUENCE || name == K_CONFIG || name == K_SOURCE || name == K_STATE
  {}

  /** Names are made of letters, so none holds a quote, a colon or a space. */
  predicate Lettered(name: Text) {
    name != [] && forall k | 0 <= k < |name| :: 0x41 <= name[k] <= 0x7A
  }

  lemma Word(s: string)
    requires s != "" && forall i | 0 <= i < |s| :: 'A' <= s[i] <= 'z'
    ensures forall i | 0 <= i < |s| :: 0x20 <= s[i] as int < 0x7F
    ensures Lettered(Ascii(s))
  {}

  lemma FirstWords()
    ensures Lettered(K_SCHEMA) && Lettered(K_KIND) && Lettered(K_COMPONENT)
  {
    hide Lettered;
    Word("schemaVersion");
    Word("kind");
    Word("component");
  }

  lemma MoreWords()
    ensures Lettered(K_SERVICE) && Lettered(K_SEQUENCE) && Lettered(K_STATE)
  {
    hide Lettered;
    Word("serviceKey");
    Word("sequence");
    Word("state");
  }

  lemma EpochWord()
    ensures Lettered(K_EPOCH)
  {
    hide Lettered;
    Word("processEpochFingerprint");
  }

  lemma ConfigWord()
    ensures Lettered(K_CONFIG)
  {
    hide Lettered;
    Word("effectiveConfigFingerprint");
  }

  lemma SourceWord()
    ensures Lettered(K_SOURCE)
  {
    hide Lettered;
    Word("configSourceIdentityFingerprint");
  }

  lemma KeysLettered()
    ensures forall name | name in FIELD_NAMES :: Lettered(name)
  {
    hide Lettered;
    FirstWords();
    MoreWords();
    EpochWord();
    ConfigWord();
    SourceWord();
    forall name | name in FIELD_NAMES ensures Lettered(name) { OneOfNine(name); }
  }

  lemma NameStarts(text: Text, m: nat, name: Text, j: nat)
    requires NameAt(text, m, name, j) && Lettered(name)
    ensures text[m] == QUOTE && m + 1 < |text| && 0x41 <= text[m + 1] <= 0x7A
  {
    assert text[m + 1] == text[m + 1..m + 1 + |name|][0];
  }

  /** Field patterns never overlap: no name can start inside one. */
  lemma NoOverlap(text: Text, i: nat, name: Text, j: nat, m: nat)
    requires NameAt(text, i, name, j) && Lettered(name) && i < m <= j
    ensures text[m] != QUOTE || (m + 1 < |text| && !(0x41 <= text[m + 1] <= 0x7A))
  {
    if m < i + 1 + |name| {
      assert text[m] == text[i + 1..i + 1 + |name|][m - i - 1];
    }
  }

  lemma {:induction false} FieldCountIs(text: Text, at: nat)
    ensures FieldCountFromText(text, at) == |FieldsFrom(text, at)|
    decreases |text| - at
  {
    hide FieldEnd, NameAt;
    if at >= |text| {
      assert FieldsFrom(text, at) == {};
    } else {
      FieldHere(text, at);
      var r := FieldEnd(text, at, FIELD_NAMES);
      if r.None? {
        FieldCountIs(text, at + 1);
        assert FieldsFrom(text, at) == FieldsFrom(text, at + 1);
      } else {
        FieldCountIs(text, r.value);
        FieldsPast(text, at, r.value);
        assert FieldsFrom(text, at) == FieldsFrom(text, r.value) + {at};
      }
    }
  }

  lemma FieldHere(text: Text, i: nat)
    ensures FieldEnd(text, i, FIELD_NAMES).Some? <==> FieldAt(text, i)
  {
    hide FieldEnd;
    FieldEndExactly(text, i, FIELD_NAMES);
    NamesAreKeys();
    if FieldEnd(text, i, FIELD_NAMES).Some? {
      var name, j: nat :| name in FIELD_NAMES && NameAt(text, i, name, j);
      assert name in EVENT_KEYS;
    }
    if FieldAt(text, i) {
      var name, j: nat :| name in EVENT_KEYS && NameAt(text, i, name, j);
      assert name in FIELD_NAMES;
    }
  }

  lemma FieldsPast(text: Text, at: nat, end: nat)
    requires FieldEnd(text, at, FIELD_NAMES) == Some(end)
    ensures at < end && forall m | at < m < end :: !FieldAt(text, m)
  {
    hide FieldEnd, NameAt, Lettered;
    FieldEndExactly(text, at, FIELD_NAMES);
    NamesAreKeys();
    KeysLettered();
    var name, j: nat :| name in FIELD_NAMES && NameAt(text, at, name, j) && FieldEnd(text, at, FIELD_NAMES) == Some(j + 1);
    forall m | at < m < end ensures !FieldAt(text, m) {
      NoOverlap(text, at, name, j, m);
      if FieldAt(text, m) {
        var other, k: nat :| other in EVENT_KEYS && NameAt(text, m, other, k);
        NameStarts(text, m, other, k);
      }
    }
  }

  /** The decoded text of a line looks like an event: by its kind, or by three of an event's fields. */
  ghost predicate TextLooks(text: Text) {
    if exists v :: Parses(text, v)
    then exists v :: Parses(text, v) && v.Object? && ((K_KIND in v.fields && v.fields[K_KIND] == String(KIND)) || |v.fields.Keys * EVENT_KEYS| >= 3)
    else |FieldsFrom(text, 0)| >= 3
  }

  /** Within the event limits the text spells this value. */
  ghost predicate Parses(text: Text, v: Value) {
    |Utf8(text)| <= EVENT_BYTES && J.Spells(text, v) && J.Admitted(v, EVENT_JSON_LIMITS, {})
  }

  /** A line is ignored exactly when neither its bytes nor its text look like an event. */
  lemma IgnoredExactly(c: Config, line: seq<Byte>)
    ensures Classify(c, line).Ignored? <==>
            !EventShaped(line) && (JsonLooking(line) ==> forall text | Carries(line, text) :: !TextLooks(text))
  {
    hide EventShaped, JsonLooking, DecodeLine, ParseStrictJson, FieldCountFromText, ValidateEvent, Carries, Parses, TextLooks;
    forall text | Carries(line, text) ensures DecodeLine(line) == Some(text) { CarriesExactly(line, text); }
    if DecodeLine(line).Some? {
      var text := DecodeLine(line).value;
      CarriesExactly(line, text);
      LooksExactly(text);
    }
  }

  lemma LooksExactly(text: Text)
    ensures var r := ParseStrictJson(text, EVENT_JSON_LIMITS, {});
            TextLooks(text) <==> if r.Ok? then OfKind(r.value) || FieldCount(r.value) >= 3 else FieldCountFromText(text, 0) >= 3
  {
    hide ParseStrictJson, FieldCountFromText, FieldsFrom, J.Spells, J.Admitted, Utf8;
    var r := ParseStrictJson(text, EVENT_JSON_LIMITS, {});
    forall v ensures Parses(text, v) <==> r == Ok(v) { J.ParseExact(text, EVENT_JSON_LIMITS, {}, v); }
    hide Parses;
    FieldCountIs(text, 0);
    if r.Ok? { assert Parses(text, r.value); }
  }

  // ----------------------------------------------------------------------- readiness

  /** A valid state of this process shows what was expected of it. */
  predicate ShowsExpected(s: State) {
    match s
    case BotState(listener, discord, expectedSet, expectedCount, connectedSet, connectedCount) =>
      listener == Ascii("listening") && discord == Ascii("connected") && connectedSet == expectedSet && connectedCount == expectedCount
    case DaemonState(_, connection, _, accepted, registration) => registration == Ascii("accepted")
  }

  /** A bot is ready when the expected hosts are connected, a daemon when its current connection is accepted. */
  lemma ReadyExactly(c: Config, e: Event)
    requires ValidEvent(e) && Bound(e, c.binding, c.expected)
    ensures Ready(e.state, c.expected) <==> ShowsExpected(e.state)
    ensures Ready(e.state, c.expected) && e.state.DaemonState? ==> e.state.accepted == e.state.attempted == Some(e.state.connection)
  {
    hide Hex64, ServiceKey;
    WordsDiffer();
  }

  lemma WordsDiffer()
    ensures Ascii("accepted") != Ascii("attempted") && Ascii("accepted") != Ascii("denied") && Ascii("accepted") != Ascii("disconnected")
  {
    assert Ascii("accepted")[1] != Ascii("attempted")[1];
  }

  /** What a reader of a whole child stream reports at its end. */
  lemma ReportExactly(c: Config, digest: Event -> Text, lines: seq<seq<Byte>>, st: Reading)
    requires InOrder(c, lines) && st.progress == After(EventsOf(c, lines))
    ensures var es, r := EventsOf(c, lines), SnapshotOf(c, digest, st);
            && (r.None? <==> es == [])
            && (r.Some? ==>
                 && r.value.sequence == |es| && r.value.state == es[|es| - 1].state
                 && (r.value.hasPartialLine <==> st.wrapper.discarded > 0 || st.wrapper.partial != [] || st.child.discarded > 0 || st.child.partial != [])
                 && (r.value.ready <==> !r.value.hasPartialLine && ShowsExpected(es[|es| - 1].state)))
  {
    hide Classify, Ready, ShowsExpected, NonRegressing;
    var es := EventsOf(c, lines);
    if es != [] {
      LastIsValid(c, lines);
      ReadyExactly(c, es[|es| - 1]);
    }
  }

  lemma {:induction false} LastIsValid(c: Config, lines: seq<seq<Byte>>)
    ensures forall i | 0 <= i < |EventsOf(c, lines)| :: ValidEvent(EventsOf(c, lines)[i]) && Bound(EventsOf(c, lines)[i], c.binding, c.expected)
  {
    hide StripCr, ValidEvent, Bound, EventOf, EventBytes, ParseStrictJson, EventShaped, JsonLooking, FieldCountFromText, FieldCount, DecodeLine;
    if lines != [] { LastIsValid(c, lines[..|lines| - 1]); }
  }
}
