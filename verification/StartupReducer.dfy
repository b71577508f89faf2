/**
 The two-stream reducer of shared/service-startup-observation.js: it frames lines out of
 arbitrary chunks, recognises event lines and latches the first fault. The functions give
 what each call does; the class is the reducer as it runs.
 */
module StartupReducer {
  import opened Encoding
  import opened StrictJson
  import opened StartupEvent
  import opened Records
  import P = StrictJsonParser

  const LF: Byte := 0x0A
  const CR: Byte := 0x0D

  datatype Family = Wrapper | Child

  datatype Config = Config(binding: Binding, expected: Expected)

  // --------------------------------------------------------- what one line means

  predicate StandsAt(line: seq<Byte>, i: int, marker: Text) {
    0 <= i <= |line| - |marker| && line[i..i + |marker|] == marker
  }

  predicate Contains(line: seq<Byte>, marker: Text) {
    exists i | 0 <= i <= |line| :: StandsAt(line, i, marker)
  }

  predicate EventShaped(line: seq<Byte>) {
    || Contains(line, KIND)
    || (Contains(line, K_EPOCH) && Contains(line, K_CONFIG))
    || (Contains(line, K_EPOCH) && Contains(line, K_SOURCE))
    || (Contains(line, K_CONFIG) && Contains(line, K_SOURCE))
  }

  /** The first byte that is neither blank nor CR opens an object. */
  predicate JsonLooking(line: seq<Byte>) {
    line != [] && if line[0] == 0x20 || line[0] == 0x09 || line[0] == CR then JsonLooking(line[1..]) else line[0] == 0x7B
  }

  /** The decoder drops one leading byte-order mark. */
  function DecodeLine(line: seq<Byte>): Option<Text> {
    DecodeUtf8(if [0xEF, 0xBB, 0xBF] <= line then line[3..] else line)
  }

  const FIELD_NAMES: seq<Text> := [K_SCHEMA, K_KIND, K_COMPONENT, K_SERVICE, K_EPOCH, K_SEQUENCE, K_CONFIG, K_SOURCE, K_STATE]

  predicate Space(c: int) {
    || 0x09 <= c <= 0x0D || c == 0x20 || c == 0xA0 || c == 0x1680 || 0x2000 <= c <= 0x200A
    || c == 0x2028 || c == 0x2029 || c == 0x202F || c == 0x205F || c == 0x3000 || c == 0xFEFF
  }

  function SkipSpace(text: Text, at: nat): (r: nat)
    ensures at <= r
    decreases |text| - at
  {
    if at < |text| && Space(text[at]) then SkipSpace(text, at + 1) else at
  }

  /** The end of a quoted field name and its colon, if one of the names stands here. */
  function FieldEnd(text: Text, at: nat, names: seq<Text>): (r: Option<nat>)
    ensures r.Some? ==> at < r.value
  {
    if names == [] then None
    else
      var quoted := [QUOTE] + names[0] + [QUOTE];
      var colon := SkipSpace(text, at + |quoted|);
      if Matches(text, at, quoted) && Peek(text, colon) == COLON then Some(colon + 1)
      else FieldEnd(text, at, names[1..])
  }

  function FieldCountFromText(text: Text, at: nat): nat
    decreases |text| - at
  {
    if at >= |text| then 0
    else
      match FieldEnd(text, at, FIELD_NAMES)
      case Some(end) => 1 + FieldCountFromText(text, end)
      case None => FieldCountFromText(text, at + 1)
  }

  function FieldCount(v: Value): nat {
    if v.Object? then |v.fields.Keys * EVENT_KEYS| else 0
  }

  predicate OfKind(v: Value) {
    v.Object? && K_KIND in v.fields && v.fields[K_KIND] == String(KIND)
  }

  datatype Verdict = Ignored | Rejected | Observed(e: Event)

  /** What a line says, whichever stream it is on and whatever came before. */
  function Classify(c: Config, line: seq<Byte>): Verdict {
    var shaped := EventShaped(line);
    if !shaped && !JsonLooking(line) then Ignored
    else
      match DecodeLine(line)
      case None => if shaped then Rejected else Ignored
      case Some(text) =>
        match ParseStrictJson(text, EVENT_JSON_LIMITS, {})
        case Err(_) => if shaped || FieldCountFromText(text, 0) >= 3 then Rejected else Ignored
        case Ok(v) =>
          if !shaped && !OfKind(v) && FieldCount(v) < 3 then Ignored
          else if !OfKind(v) then Rejected
          else
            match ValidateEvent(v, c.binding, c.expected)
            case None => Rejected
            case Some(e) => Observed(e)
  }

  /** The events accepted so far. */
  datatype Progress = Progress(sequence: nat, latest: Option<Event>, lastDaemon: Option<State>)

  const START := Progress(0, None, None)

  predicate Continues(p: Progress, e: Event) {
    && e.sequence == p.sequence + 1
    && (e.state.DaemonState? && p.lastDaemon.Some? && p.lastDaemon.value.DaemonState? ==> DoesNotRegress(p.lastDaemon.value, e.state))
  }

  function Advance(p: Progress, e: Event): Progress
    requires Continues(p, e)
  {
    Progress(p.sequence + 1, Some(e), if e.state.DaemonState? then Some(e.state) else p.lastDaemon)
  }

  /** `consumeLine`: nothing means a fault. */
  function ConsumeLine(c: Config, family: Family, p: Progress, line: seq<Byte>): Option<Progress> {
    match Classify(c, line)
    case Ignored => Some(p)
    case Rejected => None
    case Observed(e) => if family.Child? && Continues(p, e) then Some(Advance(p, e)) else None
  }

  // --------------------------------------------------------------- line framing

  function FirstLf(b: seq<Byte>): (r: Option<nat>)
    ensures r.Some? ==> r.value < |b| && b[r.value] == LF && forall j | 0 <= j < r.value :: b[j] != LF
    ensures r.None? ==> forall j | 0 <= j < |b| :: b[j] != LF
  {
    if b == [] then None
    else if b[0] == LF then Some(0)
    else
      match FirstLf(b[1..])
      case None => None
      case Some(i) => Some(i + 1)
  }

  function StripCr(raw: seq<Byte>): (line: seq<Byte>)
    ensures |raw| - 1 <= |line| <= |raw|
  {
    if raw != [] && raw[|raw| - 1] == CR then raw[..|raw| - 1] else raw
  }

  datatype Fed = Fed(progress: Progress, rest: seq<Byte>)

  /** The lines of a buffer that starts at a line start, and what is left of it. */
  function Feed(c: Config, family: Family, p: Progress, b: seq<Byte>): Option<Fed>
    decreases |b|
  {
    match FirstLf(b)
    case None => if |b| > LINE_BYTES then None else Some(Fed(p, b))
    case Some(i) =>
      var line := StripCr(b[..i]);
      if |line| > LINE_BYTES then None
      else
        match ConsumeLine(c, family, p, line)
        case None => None
        case Some(q) => Feed(c, family, q, b[i + 1..])
  }

  /** One stream between calls: an unfinished line, or the size of one whose start was not seen. */
  datatype Stream = Stream(partial: seq<Byte>, discarded: nat, last: Option<Byte>)

  datatype Reading = Reading(wrapper: Stream, child: Stream, bytesRead: nat, progress: Progress) {
    function Of(family: Family): Stream {
      match family case Wrapper => wrapper case Child => child
    }
    function With(family: Family, s: Stream): Reading {
      match family case Wrapper => this.(wrapper := s) case Child => this.(child := s)
    }
  }

  function Initial(wrapperDiscard: nat, childDiscard: nat): Reading {
    Reading(Stream([], wrapperDiscard, None), Stream([], childDiscard, None), 0, START)
  }

  function LastByte(b: seq<Byte>): Option<Byte> {
    if b == [] then None else Some(b[|b| - 1])
  }

  /** The rest of a discarded line: still open, closed at a position, or too long. */
  datatype Discard = Open(s: Stream) | Closed(start: nat) | TooLong

  function SkipDiscarded(s: Stream, b: seq<Byte>): (r: Discard)
    ensures r.Closed? ==> r.start <= |b|
  {
    match FirstLf(b)
    case None =>
      var n := s.discarded + |b|;
      if n > LINE_BYTES + 1 || (n == LINE_BYTES + 1 && LastByte(b) != Some(CR)) then TooLong
      else Open(Stream([], n, if b == [] then s.last else LastByte(b)))
    case Some(i) =>
      var last := if i > 0 then Some(b[i - 1]) else s.last;
      if s.discarded + i - (if last == Some(CR) then 1 else 0) > LINE_BYTES then TooLong else Closed(i + 1)
  }

  /** One stream takes one chunk. */
  function StreamStep(c: Config, family: Family, p: Progress, s: Stream, chunk: seq<Byte>): Option<(Progress, Stream)> {
    var combined := s.partial + chunk;
    var skipped := if s.discarded > 0 then SkipDiscarded(s, combined) else Closed(0);
    match skipped
    case TooLong => None
    case Open(t) => Some((p, t))
    case Closed(start) =>
      match Feed(c, family, p, combined[start..])
      case None => None
      case Some(fed) => Some((fed.progress, Stream(fed.rest, 0, None)))
  }

  /** `consume`: nothing means a fault. */
  function Step(c: Config, st: Reading, family: Family, chunk: seq<Byte>): Option<Reading> {
    if |chunk| > PAGE_BYTES || st.bytesRead + |chunk| > ATTEMPT_BYTES then None
    else
      match StreamStep(c, family, st.progress, st.Of(family), chunk)
      case None => None
      case Some((q, t)) => Some(st.With(family, t).(bytesRead := st.bytesRead + |chunk|, progress := q))
  }

  // ------------------------------------------------------------------- snapshot

  datatype Snapshot = Snapshot(sequence: int, state: State, applicationState: Text, ready: bool, hasPartialLine: bool)

  predicate HasPartialLine(st: Reading) {
    st.wrapper.discarded > 0 || |st.wrapper.partial| > 0 || st.child.discarded > 0 || |st.child.partial| > 0
  }

  function PartialLineBytes(s: Stream): nat { s.discarded + |s.partial| }

  /** What a caller sees while no fault has occurred; `digest` is the hash of the bound state. */
  function SnapshotOf(c: Config, digest: Event -> Text, st: Reading): Option<Snapshot> {
    match st.progress.latest
    case None => None
    case Some(e) =>
      var partialLine := HasPartialLine(st);
      Some(Snapshot(e.sequence, e.state, digest(BoundEvent(c.binding, e.sequence, e.state)), !partialLine && Ready(e.state, c.expected), partialLine))
  }

  /** The application-state fingerprint of a snapshot stands for its sequence and state. */
  lemma FingerprintPins(c: Config, digest: Event -> Text, a: Reading, b: Reading)
    requires SnapshotOf(c, digest, a).Some? && SnapshotOf(c, digest, b).Some?
    requires var x, y := SnapshotOf(c, digest, a).value, SnapshotOf(c, digest, b).value;
             && x.applicationState == y.applicationState
             && NoCollision(digest, BoundEvent(c.binding, x.sequence, x.state), BoundEvent(c.binding, y.sequence, y.state))
    ensures var x, y := SnapshotOf(c, digest, a).value, SnapshotOf(c, digest, b).value;
            x.sequence == y.sequence && x.state == y.state
  {}

  // ---------------------------------------------------------------- the reducer

  /** The line that ends at `index`, seen by position and seen by splitting. */
  lemma FramedLine(b: seq<Byte>, start: nat, index: nat, end: nat)
    requires start <= index < |b| && b[index] == LF && forall j | start <= j < index :: b[j] != LF
    requires end == if index > start && b[index - 1] == CR then index - 1 else index
    ensures FirstLf(b[start..]) == Some(index - start)
    ensures StripCr(b[start..][..index - start]) == b[start..end]
    ensures b[start..][index - start + 1..] == b[index + 1..]
  {
    var tail := b[start..];
    assert tail[index - start] == LF;
    assert forall j | 0 <= j < index - start :: tail[j] == b[start + j];
    assert tail[..index - start] == b[start..index];
    hide FirstLf;
  }

  /** What the line that ends at `index` does to the rest of the feed. */
  lemma FeedLine(c: Config, family: Family, p: Progress, b: seq<Byte>, start: nat, index: nat, end: nat)
    requires start <= index < |b| && b[index] == LF && forall j | start <= j < index :: b[j] != LF
    requires end == if index > start && b[index - 1] == CR then index - 1 else index
    ensures Feed(c, family, p, b[start..]) ==
            if end - start > LINE_BYTES then None
            else if ConsumeLine(c, family, p, b[start..end]).None? then None
            else Feed(c, family, ConsumeLine(c, family, p, b[start..end]).value, b[index + 1..])
  {
    hide ConsumeLine, FirstLf, StripCr;
    FramedLine(b, start, index, end);
  }

  lemma FeedRest(c: Config, family: Family, p: Progress, b: seq<Byte>)
    requires forall j | 0 <= j < |b| :: b[j] != LF
    ensures Feed(c, family, p, b) == if |b| > LINE_BYTES then None else Some(Fed(p, b))
  {
    hide ConsumeLine, StripCr;
  }

  class Reducer {
    const c: Config
    var wrapper: Stream
    var child: Stream
    var bytesRead: nat
    var sequence: nat
    var latest: Option<Event>
    var lastDaemon: Option<State>
    var faulted: bool

    ghost function Now(): Reading
      reads this
    {
      Reading(wrapper, child, bytesRead, Progress(sequence, latest, lastDaemon))
    }

    constructor (c: Config, wrapperDiscard: nat, childDiscard: nat)
      ensures this.c == c && !faulted && Now() == Initial(wrapperDiscard, childDiscard)
    {
      this.c := c;
      wrapper, child := Stream([], wrapperDiscard, None), Stream([], childDiscard, None);
      bytesRead, sequence, latest, lastDaemon, faulted := 0, 0, None, None, false;
    }

    /** Takes one line; false is a fault. */
    method TakeLine(family: Family, line: seq<Byte>) returns (ok: bool)
      modifies this`sequence, this`latest, this`lastDaemon
      ensures var r := ConsumeLine(c, family, old(Now().progress), line);
              ok == r.Some? && (ok ==> Now().progress == r.value)
    {
      hide EventShaped, JsonLooking, DecodeLine, ParseStrictJson, FieldCountFromText, OfKind, FieldCount, ValidateEvent;
      var shaped := EventShaped(line);
      if !shaped && !JsonLooking(line) {
        return true;
      }
      var text := DecodeLine(line);
      if text.None? {
        return !shaped;
      }
      var parsed := P.Parse(text.value, EVENT_JSON_LIMITS, {});
      if parsed.Err? {
        return !(shaped || FieldCountFromText(text.value, 0) >= 3);
      }
      var v := parsed.value;
      if !shaped && !OfKind(v) && FieldCount(v) < 3 {
        return true;
      }
      if family != Child || !OfKind(v) {
        return false;
      }
      var accepted := ValidateEvent(v, c.binding, c.expected);
      if accepted.None? || accepted.value.sequence != sequence + 1 {
        return false;
      }
      var e := accepted.value;
      if e.state.DaemonState? && lastDaemon.Some? && lastDaemon.value.DaemonState? && !DoesNotRegress(lastDaemon.value, e.state) {
        return false;
      }
      sequence := sequence + 1;
      latest := Some(e);
      if e.state.DaemonState? {
        lastDaemon := Some(e.state);
      }
      return true;
    }

    /** Takes every complete line of `combined` from `from` on; `start` is where the rest begins. */
    method TakeLines(family: Family, combined: seq<Byte>, from: nat) returns (ok: bool, start: nat)
      requires from <= |combined|
      modifies this`sequence, this`latest, this`lastDaemon
      ensures start <= |combined|
      ensures var r := Feed(c, family, old(Now().progress), combined[from..]);
              ok == r.Some? && (ok ==> Now().progress == r.value.progress && combined[start..] == r.value.rest)
    {
      hide ConsumeLine, Feed, FirstLf, StripCr;
      ghost var spec := Feed(c, family, Now().progress, combined[from..]);
      start := from;
      var index := from;
      while index < |combined|
        invariant from <= start <= index <= |combined|
        invariant forall j | start <= j < index :: combined[j] != LF
        invariant Feed(c, family, Now().progress, combined[start..]) == spec
      {
        if combined[index] == LF {
          var end := index;
          if end > start && combined[end - 1] == CR {
            end := end - 1;
          }
          FeedLine(c, family, Now().progress, combined, start, index, end);
          if end - start > LINE_BYTES {
            return false, start;
          }
          ok := TakeLine(family, combined[start..end]);
          if !ok {
            return;
          }
          start := index + 1;
        }
        index := index + 1;
      }
      FeedRest(c, family, Now().progress, combined[start..]);
      ok := |combined| - start <= LINE_BYTES;
    }

    /** Takes one chunk; a fault is latched, and every later call is refused. */
    method Consume(family: Family, chunk: seq<Byte>) returns (ok: bool)
      modifies this
      ensures old(faulted) ==> !ok && faulted
      ensures !old(faulted) ==>
        var r := Step(c, old(Now()), family, chunk);
        ok == r.Some? && faulted == r.None? && (ok ==> Now() == r.value)
    {
      hide Feed, FirstLf, SkipDiscarded;
      if faulted {
        return false;
      }
      if |chunk| > PAGE_BYTES {
        faulted := true;
        return false;
      }
      bytesRead := bytesRead + |chunk|;
      if bytesRead > ATTEMPT_BYTES {
        faulted := true;
        return false;
      }
      var s := if family == Wrapper then wrapper else child;
      var combined := s.partial + chunk;
      var start := 0;
      if s.discarded > 0 {
        var skipped := SkipDiscarded(s, combined);
        match skipped
        case TooLong =>
          faulted := true;
          return false;
        case Open(t) =>
          Put(family, t);
          return true;
        case Closed(next) =>
          start := next;
      }
      ok, start := TakeLines(family, combined, start);
      if ok {
        Put(family, Stream(combined[start..], 0, None));
      } else {
        faulted := true;
      }
    }

    method Put(family: Family, s: Stream)
      modifies this`wrapper, this`child
      ensures Now() == old(Now()).With(family, s)
    {
      if family == Wrapper {
        wrapper := s;
      } else {
        child := s;
      }
    }

    /** What the reducer reports; nothing after a fault. */
    method Report(digest: Event -> Text) returns (r: Option<Snapshot>)
      ensures r == if faulted then None else SnapshotOf(c, digest, Now())
    {
      if faulted || latest.None? {
        return None;
      }
      var e := latest.value;
      var pending := wrapper.discarded > 0 || |wrapper.partial| > 0 || child.discarded > 0 || |child.partial| > 0;
      var application := digest(BoundEvent(c.binding, e.sequence, e.state));
      return Some(Snapshot(e.sequence, e.state, application, !pending && Ready(e.state, c.expected), pending));
    }
  }
}
