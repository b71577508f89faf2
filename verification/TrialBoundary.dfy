/** A service's trial start: log cursors, the chain of boundaries, and the log evidence. */
module TrialBoundary {
  import opened Encoding
  import opened Records
  import opened Samples

  const WINDOW_MS := 60000
  const FILES_PER_FAMILY := 3
  const FILE_BYTES := 2 * 1024 * 1024
  const LOGICAL_BYTES := 16 * 1024 * 1024
  const CURSOR_BYTES := 16 * 1024 * 1024
  const PARTIAL_BYTES := 16384

  datatype Family = Wrapper | Child

  function FamilyName(f: Family): Text {
    match f case Wrapper => Ascii("wrapper") case Child => Ascii("child")
  }

  // ---------------------------------------------------------------------- records

  datatype FileCursor = FileCursor(identity: Text, start: int, length: int, prefixSha256: Text) {
    function End(): int { start + length }
  }

  datatype FamilyCursor = FamilyCursor(
    family: Family, baseName: Text, directory: Text, files: seq<FileCursor>, next: int, partial: int, absence: Option<Text>)

  datatype CursorContent = CursorContent(boot: Text, serviceKey: Text, config: Text, families: seq<FamilyCursor>)
  datatype CursorSet = CursorSet(c: CursorContent, fingerprint: Text)

  /** What a boundary says about its attempt; an attempt never changes it. */
  datatype Attempt = Attempt(
    serviceKey: Text, transactionId: Text, transactionNonce: Text, transition: Text, boot: Text, startTick: int,
    deadlineTick: int, manifest: Text, resource: Text, effectiveConfig: Text, configSource: Text)

  datatype Phase = Captured | Observed

  datatype BoundaryContent = BoundaryContent(
    attempt: int, revision: int, previous: Option<Text>, phase: Phase, id: Attempt, lastTick: int,
    wrapperEpoch: Option<Text>, childEpoch: Option<Text>, initialCursor: CursorSet, childCursor: Option<CursorSet>)
  datatype Boundary = Boundary(c: BoundaryContent, fingerprint: Text)

  datatype EvidenceContent = EvidenceContent(
    boundary: Text, boot: Text, observedTick: int, wrapperEpoch: Text, childEpoch: Text, tree: Text, fromCursor: Text,
    toCursor: CursorSet, completeEof: bool, applicationState: Text)
  datatype Evidence = Evidence(c: EvidenceContent, fingerprint: Text)

  /** The name patterns and the hash. */
  datatype Schema = Schema(
    serviceKey: Text -> bool, familyBase: (Family, Text) -> bool, safeId: Text -> bool, nonce: Text -> bool,
    cursor: CursorContent -> Text, wholeCursor: CursorSet -> Text, boundary: BoundaryContent -> Text,
    evidence: EvidenceContent -> Text)

  // ----------------------------------------------------------------------- cursors

  /** `validateServiceFileCursor`. */
  predicate ValidFile(f: FileCursor) {
    && Hex64(f.identity) && NonNegative(f.start) && f.start <= LOGICAL_BYTES
    && NonNegative(f.length) && f.length <= FILE_BYTES
    && SafeInteger(f.start + f.length) && f.start + f.length <= LOGICAL_BYTES && Hex64(f.prefixSha256)
  }

  predicate FamilyShaped(s: Schema, f: FamilyCursor) {
    && s.familyBase(f.family, f.baseName) && Hex64(f.directory) && |f.files| <= FILES_PER_FAMILY
    && NonNegative(f.next) && f.next <= LOGICAL_BYTES && NonNegative(f.partial) && f.partial <= PARTIAL_BYTES
    && NullableHex(f.absence)
  }

  /** The files are one after the other, each a file of its own. */
  ghost predicate Contiguous(files: seq<FileCursor>) {
    && (forall i | 0 <= i < |files| :: ValidFile(files[i]))
    && (forall i, j | 0 <= i < j < |files| :: files[i].identity != files[j].identity)
    && (forall i, j | 0 <= i && j == i + 1 && j < |files| :: files[j].start == files[i].End())
  }

  predicate AbsentOrAtEnd(f: FamilyCursor) {
    if f.files == [] then f.absence.Some? && f.next == 0 && f.partial == 0
    else f.absence.None? && f.next == f.files[|f.files| - 1].End() && f.partial <= f.next
  }

  ghost predicate ValidFamily(s: Schema, f: FamilyCursor) {
    FamilyShaped(s, f) && Contiguous(f.files) && AbsentOrAtEnd(f)
  }

  function Bytes(files: seq<FileCursor>): int {
    if files == [] then 0 else Bytes(files[..|files| - 1]) + files[|files| - 1].length
  }

  /** Contiguous files span exactly their bytes, and stay far below the byte limit. */
  lemma {:induction false} SpanIsBytes(files: seq<FileCursor>)
    requires Contiguous(files)
    ensures 0 <= Bytes(files) <= |files| * FILE_BYTES
    ensures files != [] ==> files[|files| - 1].End() - files[0].start == Bytes(files)
  {
    hide Hex64;
    if files != [] {
      var n := |files| - 1;
      assert ValidFile(files[n]);
      ContiguousPrefix(files, n);
      SpanIsBytes(files[..n]);
      if n > 0 {
        assert files[n].start == files[n - 1].End();
        hide Contiguous;
        assert files[..n][n - 1] == files[n - 1] && files[..n][0] == files[0];
      }
    }
  }

  lemma ContiguousPrefix(files: seq<FileCursor>, n: nat)
    requires Contiguous(files) && n <= |files|
    ensures Contiguous(files[..n])
  {
    hide ValidFile;
  }

  /** `validateServiceFamilyCursor`; its byte limit is never what refuses a cursor. */
  method ValidateFamilyCursor(s: Schema, f: FamilyCursor) returns (ok: bool)
    ensures ok == ValidFamily(s, f)
  {
    hide ValidFile, Hex64;
    if !FamilyShaped(s, f) {
      return false;
    }
    var end: Option<int> := None;
    var totalBytes := 0;
    var identities: set<Text> := {};
    for n := 0 to |f.files|
      invariant Contiguous(f.files[..n])
      invariant identities == set i | 0 <= i < n :: f.files[i].identity
      invariant end == if n == 0 then None else Some(f.files[n - 1].End())
      invariant totalBytes == Bytes(f.files[..n])
    {
      var file := f.files[n];
      if !ValidFile(file) {
        return false;
      }
      if file.identity in identities {
        return false;
      }
      identities := identities + {file.identity};
      if end.Some? && file.start != end.value {
        return false;
      }
      end := Some(file.start + file.length);
      ghost var sofar := f.files[..n + 1];
      assert sofar[..n] == f.files[..n];
      ContiguousGrows(f.files, n);
      totalBytes := totalBytes + file.length;
      SpanIsBytes(sofar);
      if !SafeInteger(totalBytes) || totalBytes > CURSOR_BYTES {
        assert false;
        return false;
      }
    }
    assert f.files[..|f.files|] == f.files;
    return AbsentOrAtEnd(f);
  }

  lemma ContiguousGrows(files: seq<FileCursor>, n: nat)
    requires n < |files| && Contiguous(files[..n]) && ValidFile(files[n])
    requires forall i | 0 <= i < n :: files[i].identity != files[n].identity
    requires n > 0 ==> files[n].start == files[n - 1].End()
    ensures Contiguous(files[..n + 1])
  {
    hide ValidFile;
    var a, b := files[..n], files[..n + 1];
    assert forall i | 0 <= i < n :: a[i] == b[i];
  }

  function ExpectedBase(serviceKey: Text, f: Family): Text {
    if serviceKey == Ascii("bot") then Ascii("gjc-remote-bot-") + FamilyName(f)
    else Ascii("gjc-remote-daemon-") + serviceKey + Ascii("-") + FamilyName(f)
  }

  ghost predicate ValidFamilies(s: Schema, serviceKey: Text, families: seq<FamilyCursor>) {
    && |families| == 2 && families[0].family == Wrapper && families[1].family == Child
    && (forall i | 0 <= i < 2 :: ValidFamily(s, families[i]) && families[i].baseName == ExpectedBase(serviceKey, families[i].family))
  }

  ghost predicate ValidCursorSet(s: Schema, c: CursorSet) {
    && Hex64(c.c.boot) && Hex64(c.c.config) && Hex64(c.fingerprint) && s.serviceKey(c.c.serviceKey)
    && ValidFamilies(s, c.c.serviceKey, c.c.families) && s.cursor(c.c) == c.fingerprint
  }

  /** Adds up the bytes of one family's files; false when the running total is over the limit. */
  method AddBytes(files: seq<FileCursor>, from: int) returns (ok: bool, totalBytes: int)
    requires Contiguous(files) && |files| <= FILES_PER_FAMILY && 0 <= from <= FILES_PER_FAMILY * FILE_BYTES
    ensures ok && totalBytes == from + Bytes(files)
  {
    hide ValidFile;
    totalBytes := from;
    for n := 0 to |files|
      invariant totalBytes == from + Bytes(files[..n])
    {
      ghost var sofar := files[..n + 1];
      assert sofar[..n] == files[..n];
      ContiguousPrefix(files, n + 1);
      SpanIsBytes(sofar);
      totalBytes := totalBytes + files[n].length;
      if !SafeInteger(totalBytes) || totalBytes > CURSOR_BYTES {
        assert false;
        return false, totalBytes;
      }
    }
    assert files[..|files|] == files;
    ok := true;
  }

  /** `validateServiceCursorSet`. */
  method ValidateCursorSet(s: Schema, c: CursorSet) returns (ok: bool)
    ensures ok == ValidCursorSet(s, c)
  {
    hide Hex64, ExpectedBase, FamilyShaped, AbsentOrAtEnd, Contiguous;
    if !Hex64(c.c.boot) || !Hex64(c.c.config) || |c.c.families| != 2 || !Hex64(c.fingerprint) || !s.serviceKey(c.c.serviceKey) {
      return false;
    }
    if c.c.families[0].family != Wrapper || c.c.families[1].family != Child {
      return false;
    }
    var totalBytes := 0;
    for n := 0 to 2
      invariant 0 <= totalBytes <= n * FILES_PER_FAMILY * FILE_BYTES
      invariant forall i | 0 <= i < n :: ValidFamily(s, c.c.families[i]) && c.c.families[i].baseName == ExpectedBase(c.c.serviceKey, c.c.families[i].family)
    {
      var family := c.c.families[n];
      ok := ValidateFamilyCursor(s, family);
      if !ok || family.baseName != ExpectedBase(c.c.serviceKey, family.family) {
        return false;
      }
      assert |family.files| <= FILES_PER_FAMILY by { FamilyFiles(s, family); }
      SpanIsBytes(family.files);
      ok, totalBytes := AddBytes(family.files, totalBytes);
      if !ok {
        return;
      }
    }
    return s.cursor(c.c) == c.fingerprint;
  }

  lemma FamilyFiles(s: Schema, f: FamilyCursor)
    requires ValidFamily(s, f)
    ensures |f.files| <= FILES_PER_FAMILY
  {
    hide Hex64, Contiguous;
  }

  // -------------------------------------------------------------------- boundaries

  predicate ValidAttempt(s: Schema, id: Attempt) {
    && s.serviceKey(id.serviceKey) && s.safeId(id.transactionId) && s.nonce(id.transactionNonce) && Hex64(id.transition)
    && Hex64(id.boot) && NonNegative(id.startTick) && NonNegative(id.deadlineTick) && Hex64(id.manifest)
    && Hex64(id.resource) && Hex64(id.effectiveConfig) && Hex64(id.configSource)
    && id.startTick <= MAX_SAFE_INTEGER - WINDOW_MS && id.deadlineTick == id.startTick + WINDOW_MS
  }

  ghost predicate BoundCursor(s: Schema, c: CursorSet, id: Attempt) {
    ValidCursorSet(s, c) && c.c.boot == id.boot && c.c.serviceKey == id.serviceKey && c.c.config == id.effectiveConfig
  }

  ghost predicate PhaseFields(s: Schema, c: BoundaryContent) {
    match c.phase
    case Captured => c.wrapperEpoch.None? && c.childEpoch.None? && c.childCursor.None?
    case Observed =>
      && c.wrapperEpoch.Some? && Hex64(c.wrapperEpoch.value) && c.childEpoch.Some? && Hex64(c.childEpoch.value)
      && c.wrapperEpoch != c.childEpoch && c.childCursor.Some? && BoundCursor(s, c.childCursor.value, c.id)
  }

  /** `validateServiceTrialBoundary`. */
  ghost predicate ValidBoundary(s: Schema, b: Boundary) {
    var c := b.c;
    && Positive(c.attempt) && Positive(c.revision) && NullableHex(c.previous) && NonNegative(c.lastTick)
    && NullableHex(c.wrapperEpoch) && NullableHex(c.childEpoch) && Hex64(b.fingerprint) && c.attempt <= c.revision
    && (c.revision == 1 <==> c.previous.None?) && (c.revision == 1 ==> c.attempt == 1)
    && ValidAttempt(s, c.id) && c.id.startTick <= c.lastTick <= c.id.deadlineTick
    && BoundCursor(s, c.initialCursor, c.id) && PhaseFields(s, c)
    && b.fingerprint == s.boundary(c)
  }

  /** The same logs, read at least as far. */
  predicate Advances(from: seq<FamilyCursor>, to: seq<FamilyCursor>) {
    && |from| == |to| == 2
    && forall i | 0 <= i < 2 ::
         && from[i].family == to[i].family && from[i].baseName == to[i].baseName
         && from[i].directory == to[i].directory && from[i].next <= to[i].next
  }

  ghost predicate SameAttempt(s: Schema, p: BoundaryContent, n: BoundaryContent) {
    && n.id == p.id && s.wholeCursor(n.initialCursor) == s.wholeCursor(p.initialCursor)
    && (p.phase == Observed ==>
         && n.phase == Observed && n.wrapperEpoch == p.wrapperEpoch && n.childCursor.Some? && p.childCursor.Some?
         && Advances(p.childCursor.value.c.families, n.childCursor.value.c.families))
  }

  ghost predicate NextAttempt(p: BoundaryContent, n: BoundaryContent) {
    && p.attempt != MAX_SAFE_INTEGER && n.attempt == p.attempt + 1 && n.phase == Captured
    && (n.id.boot == p.id.boot ==> n.id.startTick >= p.lastTick && n.lastTick >= p.lastTick)
  }

  /** `validateServiceTrialBoundarySuccessor`. */
  ghost predicate Successor(s: Schema, p: Boundary, n: Boundary) {
    && ValidBoundary(s, p) && ValidBoundary(s, n)
    && n.c.previous == Some(p.fingerprint) && p.c.revision != MAX_SAFE_INTEGER && n.c.revision == p.c.revision + 1
    && (n.c.attempt == p.c.attempt ==> n.c.lastTick >= p.c.lastTick)
    && if n.c.attempt == p.c.attempt then SameAttempt(s, p.c, n.c) else NextAttempt(p.c, n.c)
  }

  // ------------------------------------------------------------------------- runs

  ghost predicate Accepted(s: Schema, run: seq<Boundary>) {
    && (forall i | 0 <= i < |run| :: ValidBoundary(s, run[i]))
    && (forall i, j | 0 <= i && j == i + 1 && j < |run| :: Successor(s, run[i], run[j]))
  }

  /** One boundary a revision, and never more than one new attempt a boundary. */
  lemma {:induction false} RunNumbers(s: Schema, run: seq<Boundary>, i: nat, j: nat)
    requires Accepted(s, run) && i <= j < |run|
    ensures run[j].c.revision == run[i].c.revision + (j - i)
    ensures run[i].c.attempt <= run[j].c.attempt <= run[i].c.attempt + (j - i)
    decreases j - i
  {
    hide ValidBoundary, SameAttempt;
    if i < j {
      RunNumbers(s, run, i, j - 1);
      assert Successor(s, run[j - 1], run[j]);
    }
  }

  /** What every later boundary of the same attempt keeps of an earlier one. */
  ghost predicate Keeps(s: Schema, a: BoundaryContent, b: BoundaryContent) {
    && b.id == a.id && b.lastTick >= a.lastTick && s.wholeCursor(b.initialCursor) == s.wholeCursor(a.initialCursor)
    && (a.phase == Observed ==>
         && b.phase == Observed && b.wrapperEpoch == a.wrapperEpoch && a.childCursor.Some? && b.childCursor.Some?
         && Advances(a.childCursor.value.c.families, b.childCursor.value.c.families))
  }

  /**
    * Within an attempt the window and the identity are fixed, ticks and observed offsets never
    * go back, a captured trial is observed at most once, and then its wrapper is fixed.
    */
  lemma {:induction false} WithinAttempt(s: Schema, run: seq<Boundary>, i: nat, j: nat)
    requires Accepted(s, run) && i <= j < |run| && run[i].c.attempt == run[j].c.attempt
    ensures Keeps(s, run[i].c, run[j].c)
    decreases j - i
  {
    hide ValidAttempt, BoundCursor;
    if i == j {
      if run[i].c.phase == Observed { ObservedCursor(s, run[i]); }
    } else {
      RunNumbers(s, run, i, j - 1);
      RunNumbers(s, run, j - 1, j);
      WithinAttempt(s, run, i, j - 1);
      assert Successor(s, run[j - 1], run[j]);
      hide ValidBoundary;
      hide Accepted;
    }
  }

  lemma ObservedCursor(s: Schema, b: Boundary)
    requires ValidBoundary(s, b) && b.c.phase == Observed
    ensures b.c.childCursor.Some? && |b.c.childCursor.value.c.families| == 2
  {
    hide ValidAttempt, Hex64, ValidFamily;
  }

  /** As long as the boot stays the same, the clock never goes back, across attempts too. */
  lemma {:induction false} TicksNeverGoBack(s: Schema, run: seq<Boundary>, i: nat, j: nat)
    requires Accepted(s, run) && i <= j < |run|
    requires forall k | i <= k <= j :: run[k].c.id.boot == run[i].c.id.boot
    ensures run[i].c.lastTick <= run[j].c.lastTick
    ensures run[i].c.attempt < run[j].c.attempt ==> run[i].c.lastTick <= run[j].c.id.startTick
    decreases j - i
  {
    hide ValidBoundary;
    if i < j {
      TicksNeverGoBack(s, run, i, j - 1);
      assert Successor(s, run[j - 1], run[j]);
      RunNumbers(s, run, i, j - 1);
    }
  }

  // ---------------------------------------------------------------------- evidence

  /** `validateServiceLogEvidence` against a boundary. */
  ghost predicate ValidEvidence(s: Schema, e: Evidence, b: Boundary) {
    var c := e.c;
    && Hex64(c.boundary) && Hex64(c.boot) && NonNegative(c.observedTick) && Hex64(c.wrapperEpoch) && Hex64(c.childEpoch)
    && Hex64(c.tree) && Hex64(c.fromCursor) && c.completeEof && Hex64(c.applicationState) && Hex64(e.fingerprint)
    && c.wrapperEpoch != c.childEpoch && ValidCursorSet(s, c.toCursor) && c.toCursor.c.boot == c.boot
    && s.evidence(c) == e.fingerprint
    && ValidBoundary(s, b)
    && var resume := if b.c.childCursor.Some? then b.c.childCursor.value else b.c.initialCursor;
       && b.c.phase == Observed && c.boundary == b.fingerprint && c.boot == b.c.id.boot
       && b.c.lastTick <= c.observedTick <= b.c.id.deadlineTick
       && Some(c.wrapperEpoch) == b.c.wrapperEpoch && Some(c.childEpoch) == b.c.childEpoch
       && c.fromCursor == resume.fingerprint && c.toCursor.c.serviceKey == b.c.id.serviceKey
       && c.toCursor.c.config == b.c.id.effectiveConfig
       && Advances(resume.c.families, c.toCursor.c.families)
  }

  lemma AdvancesFurther(a: seq<FamilyCursor>, b: seq<FamilyCursor>, c: seq<FamilyCursor>)
    requires Advances(a, b) && Advances(b, c)
    ensures Advances(a, c)
  {}

  /**
    * Accepted evidence reaches past everything observed before it in its attempt: its logs cover
    * those offsets, and it was taken within sixty seconds of the attempt's start.
    */
  lemma EvidenceCovers(s: Schema, run: seq<Boundary>, i: nat, j: nat, e: Evidence)
    requires Accepted(s, run) && i <= j < |run| && run[i].c.attempt == run[j].c.attempt
    requires ValidEvidence(s, e, run[j])
    ensures run[i].c.lastTick <= e.c.observedTick <= run[i].c.id.startTick + WINDOW_MS
    ensures e.c.boot == run[i].c.id.boot
    ensures run[i].c.phase == Observed ==>
              && run[i].c.wrapperEpoch == Some(e.c.wrapperEpoch) && run[i].c.childCursor.Some?
              && Advances(run[i].c.childCursor.value.c.families, e.c.toCursor.c.families)
  {
    hide BoundCursor, ValidCursorSet, Advances, Hex64;
    WithinAttempt(s, run, i, j);
    if run[i].c.phase == Observed {
      AdvancesFurther(run[i].c.childCursor.value.c.families, run[j].c.childCursor.value.c.families, e.c.toCursor.c.families);
    }
  }

  // ------------------------------------------------------------ what is accepted next

  /** The same directory for each log, read at least as far. */
  predicate ReadsOn(from: seq<FamilyCursor>, to: seq<FamilyCursor>) {
    |from| == |to| == 2 && forall i | 0 <= i < 2 :: from[i].directory == to[i].directory && from[i].next <= to[i].next
  }

  /** Cursors bound to one attempt are of the same logs, so only directories and offsets matter. */
  lemma BoundReadsOn(s: Schema, id: Attempt, a: CursorSet, b: CursorSet)
    requires BoundCursor(s, a, id) && BoundCursor(s, b, id)
    ensures Advances(a.c.families, b.c.families) <==> ReadsOn(a.c.families, b.c.families)
  {
    hide Hex64, ValidFamily, ExpectedBase;
  }

  /** The boundary that begins the attempt after `p`. */
  function Restart(s: Schema, p: Boundary, id: Attempt, tick: int, cursor: CursorSet): Boundary {
    var c := BoundaryContent(p.c.attempt + 1, p.c.revision + 1, Some(p.fingerprint), Captured, id, tick, None, None, cursor, None);
    Boundary.Boundary(c, s.boundary(c))
  }

  /** When an attempt with this window and cursor may follow a boundary. */
  ghost predicate MayRestart(s: Schema, p: Boundary, id: Attempt, tick: int, cursor: CursorSet) {
    && p.c.revision < MAX_SAFE_INTEGER && ValidAttempt(s, id) && id.startTick <= tick <= id.startTick + WINDOW_MS
    && (id.boot == p.c.id.boot ==> p.c.lastTick <= id.startTick) && BoundCursor(s, cursor, id)
  }

  /** A boundary may begin a new attempt exactly like this: nothing else of the old attempt is looked at. */
  lemma RestartExactly(s: Schema, p: Boundary, n: Boundary)
    requires ValidBoundary(s, p) && Hexadecimal(s.boundary)
    ensures Successor(s, p, n) && n.c.attempt != p.c.attempt <==>
            n == Restart(s, p, n.c.id, n.c.lastTick, n.c.initialCursor) && MayRestart(s, p, n.c.id, n.c.lastTick, n.c.initialCursor)
  {
    hide Hex64, ValidCursorSet, SameAttempt;
  }

  /** The next boundary of the same attempt, with the children's epochs and logs. */
  function Observe(s: Schema, p: Boundary, tick: int, wrapper: Text, child: Text, cursor: CursorSet): Boundary {
    var c := p.c.(revision := p.c.revision + 1, previous := Some(p.fingerprint), phase := Observed, lastTick := tick,
                  wrapperEpoch := Some(wrapper), childEpoch := Some(child), childCursor := Some(cursor));
    Boundary.Boundary(c, s.boundary(c))
  }

  ghost predicate MayObserve(s: Schema, p: Boundary, tick: int, wrapper: Text, child: Text, cursor: CursorSet) {
    && p.c.revision < MAX_SAFE_INTEGER && p.c.lastTick <= tick <= p.c.id.deadlineTick
    && Hex64(wrapper) && Hex64(child) && wrapper != child && BoundCursor(s, cursor, p.c.id)
    && (p.c.childCursor.Some? ==> Some(wrapper) == p.c.wrapperEpoch && ReadsOn(p.c.childCursor.value.c.families, cursor.c.families))
  }

  /** An observation is accepted exactly in the window, of the known wrapper, and with logs read on. */
  lemma ObserveExactly(s: Schema, p: Boundary, tick: int, wrapper: Text, child: Text, cursor: CursorSet)
    requires ValidBoundary(s, p) && Hexadecimal(s.boundary)
    ensures Successor(s, p, Observe(s, p, tick, wrapper, child, cursor)) <==> MayObserve(s, p, tick, wrapper, child, cursor)
  {
    if p.c.childCursor.Some? && BoundCursor(s, cursor, p.c.id) {
      assert p.c.phase == Observed;
      BoundReadsOn(s, p.c.id, p.c.childCursor.value, cursor);
    }
    hide Hex64, ValidCursorSet, Advances, ReadsOn, ValidAttempt;
  }

  /** The evidence about an observed boundary, with what it is free to say. */
  function EvidenceOf(s: Schema, b: Boundary, tick: int, tree: Text, state: Text, cursor: CursorSet): Evidence
    requires b.c.wrapperEpoch.Some? && b.c.childEpoch.Some? && b.c.childCursor.Some?
  {
    var c := EvidenceContent(b.fingerprint, b.c.id.boot, tick, b.c.wrapperEpoch.value, b.c.childEpoch.value, tree,
                             b.c.childCursor.value.fingerprint, cursor, true, state);
    Evidence.Evidence(c, s.evidence(c))
  }

  ghost predicate MayTestify(s: Schema, b: Boundary, tick: int, tree: Text, state: Text, cursor: CursorSet)
    requires b.c.childCursor.Some?
  {
    && b.c.lastTick <= tick <= b.c.id.deadlineTick && Hex64(tree) && Hex64(state)
    && BoundCursor(s, cursor, b.c.id) && ReadsOn(b.c.childCursor.value.c.families, cursor.c.families)
  }

  /** Evidence is accepted about observed boundaries only, and there exactly what was built from them in time. */
  lemma EvidenceExactly(s: Schema, e: Evidence, b: Boundary)
    requires ValidBoundary(s, b) && Hexadecimal(s.evidence)
    ensures ValidEvidence(s, e, b) <==>
            && b.c.phase == Observed
            && e == EvidenceOf(s, b, e.c.observedTick, e.c.tree, e.c.applicationState, e.c.toCursor)
            && MayTestify(s, b, e.c.observedTick, e.c.tree, e.c.applicationState, e.c.toCursor)
  {
    if b.c.phase == Observed {
      ObservedFingerprint(s, b);
      if BoundCursor(s, e.c.toCursor, b.c.id) {
        BoundReadsOn(s, b.c.id, b.c.childCursor.value, e.c.toCursor);
      }
    }
    hide Hex64, ValidCursorSet, Advances, ReadsOn;
  }

  lemma ObservedFingerprint(s: Schema, b: Boundary)
    requires ValidBoundary(s, b) && b.c.phase == Observed
    ensures Hex64(b.c.id.boot) && Hex64(b.fingerprint) && b.c.childCursor.Some? && Hex64(b.c.childCursor.value.fingerprint)
  {
    hide Hex64, ValidFamilies;
  }

  // ------------------------------------------------------ what the chain does not tie

  function WithChildCursor(s: Schema, b: Boundary, cursor: CursorSet): Boundary {
    var c := b.c.(childCursor := Some(cursor));
    Boundary.Boundary(c, s.boundary(c))
  }

  /** The first observation is not compared with the captured cursor: it may carry exactly the bound ones. */
  lemma FirstObservationIsFree(s: Schema, p: Boundary, n: Boundary, cursor: CursorSet)
    requires Successor(s, p, n) && p.c.phase == Captured && n.c.phase == Observed && Hexadecimal(s.boundary)
    ensures Successor(s, p, WithChildCursor(s, n, cursor)) <==> BoundCursor(s, cursor, n.c.id)
  {
    hide Hex64, ValidCursorSet, ValidAttempt;
  }

  /** The captured cursor is one and the same throughout an attempt. */
  lemma CaptureFixed(s: Schema, run: seq<Boundary>, i: nat, j: nat)
    requires Accepted(s, run) && i <= j < |run| && run[i].c.attempt == run[j].c.attempt
    requires NoCollision(s.wholeCursor, run[j].c.initialCursor, run[i].c.initialCursor)
    ensures run[j].c.initialCursor == run[i].c.initialCursor
  {
    hide Accepted, Advances;
    WithinAttempt(s, run, i, j);
  }

  /** Everything observed of an attempt from boundary `k` on, and all evidence for it, is past these offsets. */
  ghost predicate PastFrom(s: Schema, run: seq<Boundary>, k: nat, from: seq<FamilyCursor>) {
    && (forall j | k <= j < |run| && run[j].c.attempt == run[k].c.attempt ::
          run[j].c.childCursor.Some? && Advances(from, run[j].c.childCursor.value.c.families))
    && (forall j, e | k <= j < |run| && run[j].c.attempt == run[k].c.attempt && ValidEvidence(s, e, run[j]) ::
          Advances(from, e.c.toCursor.c.families))
  }

  /** An attempt stays past its captured cursor exactly when its first observation is past it. */
  lemma PastTheCapture(s: Schema, run: seq<Boundary>, i: nat, k: nat)
    requires Accepted(s, run) && i <= k < |run| && run[i].c.attempt == run[k].c.attempt && run[k].c.phase == Observed
    requires NoCollision(s.wholeCursor, run[k].c.initialCursor, run[i].c.initialCursor)
    ensures run[k].c.initialCursor == run[i].c.initialCursor
    ensures PastFrom(s, run, k, run[i].c.initialCursor.c.families) <==>
            run[k].c.childCursor.Some? && Advances(run[i].c.initialCursor.c.families, run[k].c.childCursor.value.c.families)
  {
    hide Accepted, Advances, ValidEvidence, ValidBoundary;
    CaptureFixed(s, run, i, k);
    var from := run[i].c.initialCursor.c.families;
    if run[k].c.childCursor.Some? && Advances(from, run[k].c.childCursor.value.c.families) {
      var at := run[k].c.childCursor.value.c.families;
      forall j | k <= j < |run| && run[j].c.attempt == run[k].c.attempt
        ensures run[j].c.childCursor.Some? && Advances(from, run[j].c.childCursor.value.c.families)
      {
        WithinAttempt(s, run, k, j);
        AdvancesFurther(from, at, run[j].c.childCursor.value.c.families);
      }
      forall j, e | k <= j < |run| && run[j].c.attempt == run[k].c.attempt && ValidEvidence(s, e, run[j])
        ensures Advances(from, e.c.toCursor.c.families)
      {
        EvidenceCovers(s, run, k, j, e);
        AdvancesFurther(from, at, e.c.toCursor.c.families);
      }
    }
  }

  // ------------------------------------------------------- an observation that goes back

  const BOT_KEY: Text := Ascii("bot")

  /** A log of `n` bytes in one file, or none at all. */
  function LogOf(f: Family, n: nat): FamilyCursor {
    var files := if n == 0 then [] else [FileCursor(ZEROS, 0, n, ZEROS)];
    FamilyCursor(f, ExpectedBase(BOT_KEY, f), ZEROS, files, n, 0, if n == 0 then Some(ZEROS) else None)
  }

  function CursorAt(s: Schema, n: nat): CursorSet {
    var c := CursorContent(ZEROS, BOT_KEY, ZEROS, [LogOf(Wrapper, n), LogOf(Child, 0)]);
    CursorSet.CursorSet(c, s.cursor(c))
  }

  lemma LogValid(s: Schema, f: Family, n: nat)
    requires s.familyBase(f, ExpectedBase(BOT_KEY, f)) && n <= FILE_BYTES
    ensures ValidFamily(s, LogOf(f, n))
  {
    hide Hex64, ExpectedBase, HexText;
  }

  lemma CursorValid(s: Schema, n: nat)
    requires s.serviceKey(BOT_KEY) && Hexadecimal(s.cursor) && n <= FILE_BYTES
    requires forall f :: s.familyBase(f, ExpectedBase(BOT_KEY, f))
    ensures ValidCursorSet(s, CursorAt(s, n))
  {
    hide Hex64, ExpectedBase, HexText, ValidFamily;
    LogValid(s, Wrapper, n);
    LogValid(s, Child, 0);
  }

  /** Whatever the hash, some accepted first observation lies behind the capture. */
  lemma ObservationGoesBack(s: Schema, transactionId: Text, nonce: Text) returns (p: Boundary, n: Boundary)
    requires s.serviceKey(BOT_KEY) && s.safeId(transactionId) && s.nonce(nonce)
    requires forall f :: s.familyBase(f, ExpectedBase(BOT_KEY, f))
    requires Hexadecimal(s.cursor) && Hexadecimal(s.boundary)
    ensures Successor(s, p, n) && p.c.phase == Captured && n.c.phase == Observed
    ensures n.c.childCursor.Some? && n.c.childCursor.value.c.families[0].next < p.c.initialCursor.c.families[0].next
  {
    CursorValid(s, 0);
    CursorValid(s, 1);
    assert ZEROS[0] != ONES[0];
    hide Hex64, ValidCursorSet, HexText;
    var id := Attempt(BOT_KEY, transactionId, nonce, ZEROS, ZEROS, 0, WINDOW_MS, ZEROS, ZEROS, ZEROS, ZEROS);
    var before := BoundaryContent(1, 1, None, Captured, id, 0, None, None, CursorAt(s, 1), None);
    p := Boundary.Boundary(before, s.boundary(before));
    var after := BoundaryContent(1, 2, Some(p.fingerprint), Observed, id, 0, Some(ZEROS), Some(ONES), CursorAt(s, 1), Some(CursorAt(s, 0)));
    n := Boundary.Boundary(after, s.boundary(after));
  }

  // ------------------------------------------------------------------ runs of any length

  /** A run that captures and observes attempt after attempt, each observation with accepted evidence. */
  ghost predicate Alternates(s: Schema, run: seq<Boundary>) {
    forall i | 0 <= i < |run| ::
      && run[i].c.revision == i + 1 && run[i].c.attempt == i / 2 + 1
      && run[i].c.phase == (if i % 2 == 0 then Captured else Observed)
      && (i % 2 == 1 ==> HasEvidence(s, run[i]))
  }

  ghost predicate HasEvidence(s: Schema, b: Boundary) {
    exists e :: ValidEvidence(s, e, b)
  }

  /** Every observed boundary admits evidence at its own tick and with its own logs. */
  lemma EvidenceExists(s: Schema, b: Boundary)
    requires ValidBoundary(s, b) && b.c.phase == Observed && Hexadecimal(s.evidence)
    ensures HasEvidence(s, b)
  {
    ObservedCursor(s, b);
    var e := EvidenceOf(s, b, b.c.lastTick, ZEROS, ZEROS, b.c.childCursor.value);
    EvidenceExactly(s, e, b);
    hide Hex64, HexText, ValidCursorSet, ValidEvidence, ValidAttempt;
    assert ValidEvidence(s, e, b);
  }

  predicate SchemaAdmits(s: Schema, transactionId: Text, nonce: Text) {
    s.serviceKey(BOT_KEY) && s.safeId(transactionId) && s.nonce(nonce)
    && s.familyBase(Wrapper, ExpectedBase(BOT_KEY, Wrapper)) && s.familyBase(Child, ExpectedBase(BOT_KEY, Child))
  }

  function FirstAttempt(transactionId: Text, nonce: Text): Attempt {
    Attempt(BOT_KEY, transactionId, nonce, ZEROS, ZEROS, 0, WINDOW_MS, ZEROS, ZEROS, ZEROS, ZEROS)
  }

  lemma AttemptValid(s: Schema, transactionId: Text, nonce: Text)
    requires SchemaAdmits(s, transactionId, nonce) && Hexadecimal(s.cursor)
    ensures ValidAttempt(s, FirstAttempt(transactionId, nonce))
    ensures BoundCursor(s, CursorAt(s, 0), FirstAttempt(transactionId, nonce))
  {
    CursorValid(s, 0);
    hide Hex64, HexText, ValidCursorSet;
  }

  /** The boundary after the last one of a run at tick zero: an observation, or the next attempt. */
  lemma GoesOn(s: Schema, p: Boundary, id: Attempt) returns (n: Boundary)
    requires ValidBoundary(s, p) && p.c.revision < MAX_SAFE_INTEGER && p.c.id == id && p.c.lastTick == 0
    requires id.boot == ZEROS && id.startTick == 0 && BoundCursor(s, CursorAt(s, 0), id)
    requires Hexadecimal(s.boundary) && Hexadecimal(s.evidence)
    ensures Successor(s, p, n) && n.c.id == id && n.c.lastTick == 0
    ensures p.c.phase == Captured ==> n.c.attempt == p.c.attempt && n.c.phase == Observed && HasEvidence(s, n)
    ensures p.c.phase == Observed ==> n.c.attempt == p.c.attempt + 1 && n.c.phase == Captured
  {
    var cursor := CursorAt(s, 0);
    assert ZEROS[0] != ONES[0];
    hide Hex64, HexText, CursorAt, ValidCursorSet;
    if p.c.phase == Captured {
      n := Observe(s, p, 0, ZEROS, ONES, cursor);
      ObserveExactly(s, p, 0, ZEROS, ONES, cursor);
      hide ValidAttempt;
      EvidenceExists(s, n);
    } else {
      n := Restart(s, p, id, 0, cursor);
      RestartExactly(s, p, n);
    }
  }

  /** Whatever the hash, there are accepted runs of every length that a revision can count. */
  lemma {:induction false} RunsOfAnyLength(s: Schema, transactionId: Text, nonce: Text, n: nat) returns (run: seq<Boundary>)
    requires SchemaAdmits(s, transactionId, nonce) && n <= MAX_SAFE_INTEGER
    requires Hexadecimal(s.cursor) && Hexadecimal(s.boundary) && Hexadecimal(s.evidence)
    ensures |run| == n && Accepted(s, run) && Alternates(s, run)
    ensures AtZero(run, FirstAttempt(transactionId, nonce))
  {
    if n == 0 {
      run := [];
    } else if n == 1 {
      run := FirstRun(s, transactionId, nonce);
    } else {
      run := RunsOfAnyLength(s, transactionId, nonce, n - 1);
      var next := RunGoesOn(s, run, transactionId, nonce);
      run := run + [next];
    }
  }

  ghost predicate AtZero(run: seq<Boundary>, id: Attempt) {
    forall i | 0 <= i < |run| :: run[i].c.id == id && run[i].c.lastTick == 0
  }

  lemma FirstRun(s: Schema, transactionId: Text, nonce: Text) returns (run: seq<Boundary>)
    requires SchemaAdmits(s, transactionId, nonce) && Hexadecimal(s.cursor) && Hexadecimal(s.boundary)
    ensures |run| == 1 && Accepted(s, run) && Alternates(s, run) && AtZero(run, FirstAttempt(transactionId, nonce))
  {
    var id := FirstAttempt(transactionId, nonce);
    AttemptValid(s, transactionId, nonce);
    FirstValid(s, id);
    hide ValidBoundary, ValidAttempt, BoundCursor, CursorAt, HexText;
    run := [FirstBoundary(s, id)];
  }

  lemma RunGoesOn(s: Schema, run: seq<Boundary>, transactionId: Text, nonce: Text) returns (next: Boundary)
    requires SchemaAdmits(s, transactionId, nonce) && 0 < |run| < MAX_SAFE_INTEGER
    requires Hexadecimal(s.cursor) && Hexadecimal(s.boundary) && Hexadecimal(s.evidence)
    requires Accepted(s, run) && Alternates(s, run) && AtZero(run, FirstAttempt(transactionId, nonce))
    ensures Accepted(s, run + [next]) && Alternates(s, run + [next])
    ensures AtZero(run + [next], FirstAttempt(transactionId, nonce))
  {
    var id := FirstAttempt(transactionId, nonce);
    AttemptValid(s, transactionId, nonce);
    hide ValidBoundary, ValidAttempt, BoundCursor, CursorAt, HexText, Successor, HasEvidence, SchemaAdmits;
    var n := |run|;
    var p := run[n - 1];
    LastOf(s, run);
    assert p.c.id == id && p.c.lastTick == 0;
    hide Accepted, Alternates;
    next := GoesOn(s, p, id);
    hide Hexadecimal, FirstAttempt;
    Appended(s, run, next);
  }

  lemma LastOf(s: Schema, run: seq<Boundary>)
    requires run != [] && Accepted(s, run) && Alternates(s, run)
    ensures ValidBoundary(s, run[|run| - 1]) && run[|run| - 1].c.revision == |run|
    ensures run[|run| - 1].c.phase == if |run| % 2 == 1 then Captured else Observed
  {
    hide ValidBoundary, Successor, HasEvidence;
  }

  function FirstBoundary(s: Schema, id: Attempt): Boundary {
    var c := BoundaryContent(1, 1, None, Captured, id, 0, None, None, CursorAt(s, 0), None);
    Boundary.Boundary(c, s.boundary(c))
  }

  lemma FirstValid(s: Schema, id: Attempt)
    requires ValidAttempt(s, id) && id.startTick == 0 && BoundCursor(s, CursorAt(s, 0), id) && Hexadecimal(s.boundary)
    ensures ValidBoundary(s, FirstBoundary(s, id))
  {
    hide Hex64, CursorAt, ValidCursorSet;
  }

  lemma Appended(s: Schema, run: seq<Boundary>, next: Boundary)
    requires run != [] && Accepted(s, run) && Alternates(s, run) && Successor(s, run[|run| - 1], next)
    requires if |run| % 2 == 1 then next.c.attempt == run[|run| - 1].c.attempt && next.c.phase == Observed && HasEvidence(s, next)
             else next.c.attempt == run[|run| - 1].c.attempt + 1 && next.c.phase == Captured
    ensures Accepted(s, run + [next]) && Alternates(s, run + [next])
  {
    hide ValidBoundary, SameAttempt, HasEvidence;
    var n := |run|;
    var longer := run + [next];
    assert forall i | 0 <= i < n :: longer[i] == run[i];
    assert longer[n] == next;
    assert n % 2 == 1 ==> n / 2 == (n - 1) / 2;
    assert n % 2 == 0 ==> n / 2 == (n - 1) / 2 + 1;
  }
}
