/** The authority head: five phases a transaction, each head naming the one before it. */
module SuccessorHeads {
  import opened Encoding
  import opened Records
  import opened Samples

  datatype Phase = Reserved | Closed | Replaced | ReaderPending | Terminal

  function Level(p: Phase): nat {
    match p
    case Reserved => 0
    case Closed => 1
    case Replaced => 2
    case ReaderPending => 3
    case Terminal => 4
  }

  /** What a transaction is about; a transaction never changes it. */
  datatype Identity = Identity(
    anchor: Text, sequence: int, txId: Text, rootGenesisTxId: Text, operation: Operation,
    request: Text, previousReceipt: Text)

  /** The fingerprints that the phases of a transaction leave behind. */
  datatype Evidence = Evidence(
    close: Option<Text>, commitSnapshot: Option<Text>, baseline: Option<Text>, publicationK: Option<Text>,
    publicationY: Option<Text>, finality: Option<Text>, receipt: Option<Text>, historyMarker: Option<Text>)

  datatype Content = Content(id: Identity, fence: int, phase: Phase, evidence: Evidence, previousHead: Option<Text>)

  datatype Head = Head(c: Content, fingerprint: Text)

  /** The request fields that a head is compared with. */
  datatype Request = Request(
    txId: Text, rootGenesisTxId: Text, anchor: Text, sequence: int, fingerprint: Text,
    previousFence: int, candidateFence: int, operation: Operation)

  predicate EvidenceHex(e: Evidence) {
    && NullableHex(e.close) && NullableHex(e.commitSnapshot) && NullableHex(e.baseline) && NullableHex(e.publicationK)
    && NullableHex(e.publicationY) && NullableHex(e.finality) && NullableHex(e.receipt) && NullableHex(e.historyMarker)
  }

  /** What a head of some level must carry, and what it must not carry yet. */
  predicate EvidenceAt(e: Evidence, level: nat) {
    && (level >= 1 ==> e.close.Some?)
    && (level >= 2 ==> e.commitSnapshot.Some? && e.baseline.Some? && e.publicationK.Some? && e.publicationY.Some?)
    && (level >= 3 ==> e.finality.Some?)
    && (level >= 4 ==> e.receipt.Some? && e.historyMarker.Some?)
    && (level < 3 ==> e.receipt.None? && e.historyMarker.None?)
  }

  predicate ValidIdentity(id: Identity) {
    && Hex64(id.anchor) && Positive(id.sequence) && Opaque(id.txId) && Opaque(id.rootGenesisTxId)
    && Hex64(id.request) && Hex64(id.previousReceipt)
  }

  predicate AnswersRequest(c: Content, r: Request) {
    && c.id.txId == r.txId && c.id.rootGenesisTxId == r.rootGenesisTxId && c.id.anchor == r.anchor
    && c.id.sequence == r.sequence && c.id.request == r.fingerprint && c.fence == r.candidateFence
    && c.id.operation == r.operation
  }

  predicate Rooted(h: Head, root: Option<Text>) {
    root.Some? ==> Opaque(root.value) && h.c.id.rootGenesisTxId == root.value
  }

  /** `validateAuthoritySuccessorHead`. */
  predicate ValidHead(digest: Content -> Text, h: Head, request: Option<Request>, root: Option<Text>) {
    && Rooted(h, root) && Positive(h.c.fence) && ValidIdentity(h.c.id)
    && EvidenceHex(h.c.evidence) && NullableHex(h.c.previousHead)
    && EvidenceAt(h.c.evidence, Level(h.c.phase))
    && (request.Some? ==> AnswersRequest(h.c, request.value))
    && Hex64(h.fingerprint) && h.fingerprint == digest(h.c)
  }

  predicate Stays(before: Option<Text>, after: Option<Text>) {
    before.Some? ==> after == before
  }

  predicate EvidenceStays(before: Evidence, after: Evidence) {
    && Stays(before.close, after.close) && Stays(before.commitSnapshot, after.commitSnapshot)
    && Stays(before.baseline, after.baseline) && Stays(before.publicationK, after.publicationK)
    && Stays(before.publicationY, after.publicationY) && Stays(before.finality, after.finality)
    && Stays(before.receipt, after.receipt) && Stays(before.historyMarker, after.historyMarker)
  }

  /** `validateAuthoritySuccessorHeadTransition` without a predecessor tuple. */
  predicate Transition(digest: Content -> Text, previous: Option<Head>, next: Head, request: Option<Request>, root: Option<Text>) {
    && ValidHead(digest, next, request, root)
    && if previous.None? then
         && next.c.phase == Reserved && next.c.previousHead.None?
         && (request.Some? ==> request.value.previousFence == 1 && next.c.fence == request.value.candidateFence)
       else
         var p := previous.value;
         && ValidHead(digest, p, None, root)
         && if p.c.id.txId == next.c.id.txId && p.c.id.sequence == next.c.id.sequence then
              && Level(next.c.phase) == Level(p.c.phase) + 1 && next.c.previousHead == Some(p.fingerprint)
              && next.c.fence == p.c.fence && next.c.id == p.c.id
              && EvidenceStays(p.c.evidence, next.c.evidence)
            else
              && p.c.phase == Terminal && next.c.phase == Reserved
              && next.c.id.sequence == p.c.id.sequence + 1 && next.c.previousHead == Some(p.fingerprint)
              && Some(next.c.id.previousReceipt) == p.c.evidence.receipt
              && (request.Some? ==> request.value.previousFence == p.c.fence)
              && next.c.fence == p.c.fence + 1
  }

  // ------------------------------------------------------------------------- runs

  /** One accepted call: the head and what it was checked against. */
  datatype Call = Call(head: Head, request: Option<Request>, root: Option<Text>)

  function Before(run: seq<Call>, i: nat): Option<Head>
    requires i < |run|
  {
    if i == 0 then None else Some(run[i - 1].head)
  }

  /** Every head was accepted after the one before it, starting from no head at all. */
  ghost predicate Accepted(digest: Content -> Text, run: seq<Call>) {
    forall i {:trigger Before(run, i)} | 0 <= i < |run| :: Transition(digest, Before(run, i), run[i].head, run[i].request, run[i].root)
  }

  /** A step goes up one level inside a transaction, or from its end to the start of the next. */
  lemma StepShape(digest: Content -> Text, p: Head, next: Head, request: Option<Request>, root: Option<Text>)
    requires Transition(digest, Some(p), next, request, root)
    ensures if Level(p.c.phase) < 4 then
              && Level(next.c.phase) == Level(p.c.phase) + 1
              && next.c.id == p.c.id && next.c.fence == p.c.fence && EvidenceStays(p.c.evidence, next.c.evidence)
            else
              && Level(next.c.phase) == 0
              && next.c.id.sequence == p.c.id.sequence + 1 && next.c.fence == p.c.fence + 1
  {
    hide ValidHead, EvidenceStays;
  }

  lemma Fifths(i: nat)
    ensures i % 5 < 4 ==> (i + 1) % 5 == i % 5 + 1 && (i + 1) / 5 == i / 5
    ensures i % 5 == 4 ==> (i + 1) % 5 == 0 && (i + 1) / 5 == i / 5 + 1
  {}

  /** Head number `i` of a run is in phase `i` modulo five of transaction `i` divided by five. */
  lemma {:induction false} HeadPosition(digest: Content -> Text, run: seq<Call>, i: nat)
    requires Accepted(digest, run) && i < |run|
    ensures var first, c := run[0].head.c, run[i].head.c;
            && Level(c.phase) == i % 5
            && c.id.sequence == first.id.sequence + i / 5
            && c.fence == first.fence + i / 5
    decreases i
  {
    hide ValidHead, EvidenceStays;
    assert Transition(digest, Before(run, i), run[i].head, run[i].request, run[i].root);
    if i > 0 {
      hide Transition;
      HeadPosition(digest, run, i - 1);
      StepShape(digest, run[i - 1].head, run[i].head, run[i].request, run[i].root);
      Fifths(i - 1);
    }
  }

  /** Inside one transaction the identity is fixed and evidence, once set, is never altered. */
  lemma {:induction false} WithinTransaction(digest: Content -> Text, run: seq<Call>, i: nat, j: nat)
    requires Accepted(digest, run) && i <= j < |run| && i / 5 == j / 5
    ensures run[i].head.c.id == run[j].head.c.id && run[i].head.c.fence == run[j].head.c.fence
    ensures EvidenceStays(run[i].head.c.evidence, run[j].head.c.evidence)
    decreases j
  {
    hide Transition;
    if i < j {
      assert Transition(digest, Before(run, j), run[j].head, run[j].request, run[j].root);
      hide Accepted;
      Fifths(j - 1);
      assert i / 5 <= (j - 1) / 5 <= j / 5;
      WithinTransaction(digest, run, i, j - 1);
      HeadPosition(digest, run, j - 1);
      StepShape(digest, run[j - 1].head, run[j].head, run[j].request, run[j].root);
    }
  }

  /** A new transaction continues from the receipt that the last one ended with. */
  lemma ReceiptCarries(digest: Content -> Text, run: seq<Call>, i: nat)
    requires Accepted(digest, run) && 0 < i < |run| && i % 5 == 0
    ensures Some(run[i].head.c.id.previousReceipt) == run[i - 1].head.c.evidence.receipt
    ensures run[i - 1].head.c.evidence.historyMarker.Some?
  {
    HeadPosition(digest, run, i - 1);
    HeadPosition(digest, run, i);
    assert Transition(digest, Before(run, i), run[i].head, run[i].request, run[i].root);
  }

  ghost predicate NoCollisions(digest: Content -> Text, run: seq<Call>, other: seq<Call>) {
    forall i, j | 0 <= i < |run| && 0 <= j < |other| :: NoCollision(digest, run[i].head.c, other[j].head.c)
  }

  function Heads(run: seq<Call>): (r: seq<Head>)
    ensures |r| == |run| && forall i | 0 <= i < |r| :: r[i] == run[i].head
  {
    seq(|run|, i requires 0 <= i < |run| => run[i].head)
  }

  /** What the last head of a run says about the head before it. */
  lemma NamesPrevious(digest: Content -> Text, run: seq<Call>, i: nat)
    requires Accepted(digest, run) && i < |run|
    ensures run[i].head.fingerprint == digest(run[i].head.c)
    ensures run[i].head.c.previousHead == if i == 0 then None else Some(run[i - 1].head.fingerprint)
  {
    hide EvidenceStays, EvidenceAt;
    assert Transition(digest, Before(run, i), run[i].head, run[i].request, run[i].root);
  }

  lemma AcceptedPrefix(digest: Content -> Text, run: seq<Call>, n: nat)
    requires Accepted(digest, run) && n <= |run|
    ensures Accepted(digest, run[..n])
  {
    hide Transition;
    forall i | 0 <= i < n
      ensures Transition(digest, Before(run[..n], i), run[..n][i].head, run[..n][i].request, run[..n][i].root)
    {
      assert Before(run[..n], i) == Before(run, i);
    }
  }

  /** Two runs that end in the same fingerprint are the same run of heads. */
  lemma {:induction false} UniqueHistory(digest: Content -> Text, run: seq<Call>, other: seq<Call>)
    requires Accepted(digest, run) && Accepted(digest, other) && run != [] && other != []
    requires NoCollisions(digest, run, other)
    requires run[|run| - 1].head.fingerprint == other[|other| - 1].head.fingerprint
    ensures Heads(run) == Heads(other)
    decreases |run|
  {
    hide Accepted;
    var m, n := |run| - 1, |other| - 1;
    NamesPrevious(digest, run, m);
    NamesPrevious(digest, other, n);
    assert NoCollision(digest, run[m].head.c, other[n].head.c);
    assert run[m].head == other[n].head;
    if m > 0 && n > 0 {
      AcceptedPrefix(digest, run, m);
      AcceptedPrefix(digest, other, n);
      UniqueHistory(digest, run[..m], other[..n]);
      LastHead(run);
      LastHead(other);
    }
  }

  lemma LastHead(run: seq<Call>)
    requires run != []
    ensures Heads(run) == Heads(run[..|run| - 1]) + [run[|run| - 1].head]
  {}

  /** No head is accepted twice in one run, whatever the hash. */
  lemma NeverRepeats(digest: Content -> Text, run: seq<Call>, i: nat, j: nat)
    requires Accepted(digest, run) && i < j < |run|
    ensures run[i].head != run[j].head
  {
    HeadPosition(digest, run, i);
    HeadPosition(digest, run, j);
  }

  function Reanchored(digest: Content -> Text, h: Head, anchor: Text): Head {
    var c := h.c.(id := h.c.id.(anchor := anchor));
    Head.Head(c, digest(c))
  }

  /** The anchor is not part of the chain: a new transaction may name exactly the well-formed ones. */
  lemma AnchorNotCarried(digest: Content -> Text, p: Head, next: Head, root: Option<Text>, anchor: Text)
    requires Transition(digest, Some(p), next, None, root) && p.c.phase == Terminal
    requires Hexadecimal(digest)
    ensures Transition(digest, Some(p), Reanchored(digest, next, anchor), None, root) <==> Hex64(anchor)
  {
    hide Hex64;
    StepShape(digest, p, next, None, root);
  }

  // ------------------------------------------------------------ what is accepted next

  /** The fingerprints of a transaction in the order in which they fall due, and the level that needs each. */
  function Fields(e: Evidence): (r: seq<Option<Text>>)
    ensures |r| == |DUE|
  {
    [e.close, e.commitSnapshot, e.baseline, e.publicationK, e.publicationY, e.finality, e.receipt, e.historyMarker]
  }

  const DUE: seq<nat> := [1, 2, 2, 2, 2, 3, 4, 4]

  /** A field of this level may be empty until it is due; the terminal ones must be, up to one level before. */
  predicate FieldFits(field: Option<Text>, due: nat, level: nat) {
    match field
    case None => level < due
    case Some(t) => Hex64(t) && (due == 4 ==> level >= 3)
  }

  ghost predicate EvidenceFits(e: Evidence, level: nat) {
    forall k | 0 <= k < |DUE| :: FieldFits(Fields(e)[k], DUE[k], level)
  }

  ghost predicate NothingForgotten(a: Evidence, b: Evidence) {
    forall k | 0 <= k < |DUE| :: Fields(a)[k].Some? ==> Fields(b)[k] == Fields(a)[k]
  }

  lemma EvidenceExactly(e: Evidence, level: nat)
    requires level <= 4
    ensures EvidenceHex(e) && EvidenceAt(e, level) <==> EvidenceFits(e, level)
  {
    hide Hex64;
    var f := Fields(e);
    if EvidenceFits(e, level) {
      assert FieldFits(f[0], 1, level) && FieldFits(f[1], 2, level) && FieldFits(f[2], 2, level) && FieldFits(f[3], 2, level);
      assert FieldFits(f[4], 2, level) && FieldFits(f[5], 3, level) && FieldFits(f[6], 4, level) && FieldFits(f[7], 4, level);
    }
  }

  lemma NothingForgottenExactly(a: Evidence, b: Evidence)
    ensures EvidenceStays(a, b) <==> NothingForgotten(a, b)
  {
    var f, g := Fields(a), Fields(b);
    if NothingForgotten(a, b) {
      assert Stays(f[0], g[0]) && Stays(f[1], g[1]) && Stays(f[2], g[2]) && Stays(f[3], g[3]);
      assert Stays(f[4], g[4]) && Stays(f[5], g[5]) && Stays(f[6], g[6]) && Stays(f[7], g[7]);
    }
  }

  /** The head of the next phase of the same transaction. */
  function Advance(digest: Content -> Text, p: Head, phase: Phase, evidence: Evidence): Head {
    var c := Content(p.c.id, p.c.fence, phase, evidence, Some(p.fingerprint));
    Head.Head(c, digest(c))
  }

  /** The head that opens a transaction on a fence. */
  function Open(digest: Content -> Text, id: Identity, fence: int, evidence: Evidence, previous: Option<Text>): Head {
    var c := Content(id, fence, Reserved, evidence, previous);
    Head.Head(c, digest(c))
  }

  /** Inside a transaction exactly these heads come next: the phase above, all that falls due there, nothing forgotten. */
  lemma AdvanceExactly(digest: Content -> Text, p: Head, next: Head, root: Option<Text>)
    requires ValidHead(digest, p, None, root) && p.c.phase != Terminal && Hexadecimal(digest)
    ensures Transition(digest, Some(p), next, None, root) <==>
            && Level(next.c.phase) == Level(p.c.phase) + 1
            && next == Advance(digest, p, next.c.phase, next.c.evidence)
            && EvidenceFits(next.c.evidence, Level(next.c.phase)) && NothingForgotten(p.c.evidence, next.c.evidence)
  {
    EvidenceExactly(next.c.evidence, Level(next.c.phase));
    NothingForgottenExactly(p.c.evidence, next.c.evidence);
    hide Hex64, Opaque, EvidenceHex, EvidenceAt, EvidenceStays, EvidenceFits, NothingForgotten;
  }

  /** A transaction opens exactly like this: its identity is free but for what the head before it and a given root fix. */
  lemma OpenExactly(digest: Content -> Text, previous: Option<Head>, next: Head, root: Option<Text>)
    requires previous.Some? ==> ValidHead(digest, previous.value, None, root) && previous.value.c.phase == Terminal
    requires Hexadecimal(digest)
    ensures Transition(digest, previous, next, None, root) <==>
            && next == Open(digest, next.c.id, next.c.fence, next.c.evidence, if previous.None? then None else Some(previous.value.fingerprint))
            && ValidIdentity(next.c.id) && Positive(next.c.fence) && Rooted(next, root) && EvidenceFits(next.c.evidence, 0)
            && (previous.Some? ==>
                 && next.c.id.sequence == previous.value.c.id.sequence + 1 && next.c.fence == previous.value.c.fence + 1
                 && Some(next.c.id.previousReceipt) == previous.value.c.evidence.receipt)
  {
    EvidenceExactly(next.c.evidence, Level(next.c.phase));
    hide Hex64, Opaque, EvidenceHex, EvidenceAt, EvidenceStays, EvidenceFits, ValidIdentity;
  }

  /** The request that a head answers, given the fence before it. */
  function RequestOf(h: Head, previousFence: int): Request {
    Request(h.c.id.txId, h.c.id.rootGenesisTxId, h.c.id.anchor, h.c.id.sequence, h.c.id.request, previousFence, h.c.fence, h.c.id.operation)
  }

  /** A request is met exactly when it is the head's own; only a transaction's first head looks at the fence before it. */
  lemma RequestPinned(digest: Content -> Text, previous: Option<Head>, next: Head, r: Request, root: Option<Text>)
    ensures Transition(digest, previous, next, Some(r), root) <==>
            && Transition(digest, previous, next, None, root)
            && r == RequestOf(next, r.previousFence)
            && (next.c.phase == Reserved ==> r.previousFence == if previous.None? then 1 else previous.value.c.fence)
  {
    assert AnswersRequest(next.c, r) <==> r == RequestOf(next, r.previousFence) by {
      if AnswersRequest(next.c, r) {
        assert r == RequestOf(next, r.previousFence);
      }
    }
    assert AnswersRequest(next.c, r) ==> next.c.fence == r.candidateFence;
    hide AnswersRequest, RequestOf;
    hide Hex64, Opaque, EvidenceHex, EvidenceAt, EvidenceStays, ValidIdentity, Rooted;
    assert next.c.phase == Reserved <==> Level(next.c.phase) == 0;
  }

  // ------------------------------------------------------------------ runs of any length

  /** All that falls due up to some level, under one fingerprint. */
  function EvidenceOf(level: nat): Evidence {
    var due := (d: nat) => if d <= level then Some(ZEROS) else None;
    Evidence.Evidence(due(1), due(2), due(2), due(2), due(2), due(3), due(4), due(4))
  }

  lemma EvidenceOfFits(level: nat)
    requires level <= 4
    ensures EvidenceFits(EvidenceOf(level), level) && NothingForgotten(EvidenceOf(level), EvidenceOf(level + 1))
  {
    assert Hex64(ZEROS);
    hide Hex64, HexText;
  }

  function PhaseAt(level: nat): (p: Phase)
    requires level <= 4
    ensures Level(p) == level
  {
    match level case 0 => Reserved case 1 => Closed case 2 => Replaced case 3 => ReaderPending case _ => Terminal
  }

  /** Where a run begins: its name, and the numbers of its first transaction. */
  datatype Start = Start(txId: Text, operation: Operation, sequence: int, fence: int)

  /** The head at some level of transaction `k`: all under one name, with all evidence as it falls due. */
  function HeadAt(digest: Content -> Text, s: Start, k: nat, level: nat): Head
    requires level <= 4
    decreases k, level, 1
  {
    var previous := PreviousAt(digest, s, k, level);
    var id := Identity(ZEROS, s.sequence + k, s.txId, s.txId, s.operation, ZEROS, ZEROS);
    var c := Content(id, s.fence + k, PhaseAt(level), EvidenceOf(level), if previous.None? then None else Some(previous.value.fingerprint));
    Head.Head(c, digest(c))
  }

  function PreviousAt(digest: Content -> Text, s: Start, k: nat, level: nat): Option<Head>
    requires level <= 4
    decreases k, level, 0
  {
    if level > 0 then Some(HeadAt(digest, s, k, level - 1))
    else if k > 0 then Some(HeadAt(digest, s, k - 1, 4))
    else None
  }

  /** Each head is checked against the request that it answers and against its root. */
  function CallAt(digest: Content -> Text, s: Start, k: nat, level: nat): Call
    requires level <= 4
  {
    var h := HeadAt(digest, s, k, level);
    Call(h, Some(RequestOf(h, if k == 0 then 1 else s.fence + k - 1)), Some(s.txId))
  }

  /** Five calls a transaction. */
  function CallsTo(digest: Content -> Text, s: Start, n: nat): (run: seq<Call>)
    ensures |run| == n && forall i | 0 <= i < n :: run[i] == CallAt(digest, s, i / 5, i % 5)
  {
    seq(n, i requires 0 <= i < n => CallAt(digest, s, i / 5, i % 5))
  }

  predicate Countable(s: Start, k: nat) {
    Positive(s.sequence) && Positive(s.fence) && s.sequence + k <= MAX_SAFE_INTEGER && s.fence + k <= MAX_SAFE_INTEGER
  }

  lemma HeadAtIs(digest: Content -> Text, s: Start, k: nat, level: nat)
    requires Hexadecimal(digest) && Opaque(s.txId) && Countable(s, k) && level <= 4
    ensures ValidHead(digest, HeadAt(digest, s, k, level), None, Some(s.txId))
  {
    EvidenceOfFits(level);
    EvidenceExactly(EvidenceOf(level), level);
    assert Hex64(ZEROS);
    assert var p := PreviousAt(digest, s, k, level); p.Some? ==> Hex64(p.value.fingerprint);
    hide Hex64, HexText, Opaque, EvidenceHex, EvidenceAt, EvidenceFits, EvidenceOf;
  }

  lemma OpeningAccepted(digest: Content -> Text, previous: Option<Head>, h: Head, root: Option<Text>)
    requires Hexadecimal(digest) && ValidHead(digest, h, None, root)
    requires previous.Some? ==>
               && ValidHead(digest, previous.value, None, root) && previous.value.c.phase == Terminal
               && h.c.id.sequence == previous.value.c.id.sequence + 1 && h.c.fence == previous.value.c.fence + 1
               && Some(h.c.id.previousReceipt) == previous.value.c.evidence.receipt
    requires h == Open(digest, h.c.id, h.c.fence, EvidenceOf(0), if previous.None? then None else Some(previous.value.fingerprint))
    ensures Transition(digest, previous, h, None, root)
  {
    EvidenceOfFits(0);
    OpenExactly(digest, previous, h, root);
    hide Hex64, HexText, Opaque, EvidenceFits, EvidenceOf, EvidenceHex, EvidenceAt, Transition, Hexadecimal;
  }

  lemma AdvanceAccepted(digest: Content -> Text, p: Head, h: Head, root: Option<Text>, level: nat)
    requires Hexadecimal(digest) && ValidHead(digest, p, None, root) && 1 <= level <= 4
    requires Level(p.c.phase) == level - 1 && Level(h.c.phase) == level
    requires p.c.evidence == EvidenceOf(level - 1) && h == Advance(digest, p, h.c.phase, EvidenceOf(level))
    ensures Transition(digest, Some(p), h, None, root)
  {
    EvidenceOfFits(level);
    EvidenceOfFits(level - 1);
    AdvanceExactly(digest, p, h, root);
    hide ValidHead, EvidenceOf, EvidenceFits, NothingForgotten, Transition, Hexadecimal, HexText;
  }

  lemma HeadAccepted(digest: Content -> Text, s: Start, k: nat, level: nat)
    requires Hexadecimal(digest) && Opaque(s.txId) && Countable(s, k) && level <= 4
    ensures Transition(digest, PreviousAt(digest, s, k, level), HeadAt(digest, s, k, level), None, Some(s.txId))
  {
    var root := Some(s.txId);
    if level > 0 {
      HeadAtIs(digest, s, k, level - 1);
      hide ValidHead, Transition, Opaque, Hexadecimal, EvidenceOf, HexText;
      AdvanceAccepted(digest, HeadAt(digest, s, k, level - 1), HeadAt(digest, s, k, level), root, level);
    } else {
      HeadAtIs(digest, s, k, 0);
      if k > 0 { HeadAtIs(digest, s, k - 1, 4); }
      hide ValidHead, Transition, Opaque, Hexadecimal, HexText;
      OpeningAccepted(digest, PreviousAt(digest, s, k, 0), HeadAt(digest, s, k, 0), root);
    }
  }

  lemma CallAccepted(digest: Content -> Text, s: Start, k: nat, level: nat)
    requires Hexadecimal(digest) && Opaque(s.txId) && Countable(s, k) && level <= 4
    ensures Transition(digest, PreviousAt(digest, s, k, level), HeadAt(digest, s, k, level), CallAt(digest, s, k, level).request, Some(s.txId))
  {
    HeadAccepted(digest, s, k, level);
    RequestPinned(digest, PreviousAt(digest, s, k, level), HeadAt(digest, s, k, level), CallAt(digest, s, k, level).request.value, Some(s.txId));
    hide Opaque, Transition, EvidenceOf, Hexadecimal, HexText;
  }

  ghost predicate BeginsAt(run: seq<Call>, sequence: int, fence: int) {
    run != [] && run[0].head.c.id.sequence == sequence && run[0].head.c.fence == fence
  }

  /** Whatever the hash, runs are accepted of exactly the lengths whose sequences and fences can still be counted. */
  lemma RunsOfEveryLength(digest: Content -> Text, s: Start, n: nat)
    requires Hexadecimal(digest) && Opaque(s.txId) && n > 0
    ensures (exists run :: Accepted(digest, run) && |run| == n && BeginsAt(run, s.sequence, s.fence)) <==> Countable(s, (n - 1) / 5)
  {
    hide Opaque, Transition, Hexadecimal, HeadAt;
    if Countable(s, (n - 1) / 5) {
      CallsAccepted(digest, s, n);
    }
    forall run | Accepted(digest, run) && |run| == n && BeginsAt(run, s.sequence, s.fence) ensures Countable(s, (n - 1) / 5) {
      HeadPosition(digest, run, n - 1);
      Numbered(digest, run, 0);
      Numbered(digest, run, n - 1);
    }
  }

  /** The calls built here are accepted, each with its request and root. */
  lemma CallsAccepted(digest: Content -> Text, s: Start, n: nat)
    requires Hexadecimal(digest) && Opaque(s.txId) && n > 0 && Countable(s, (n - 1) / 5)
    ensures Accepted(digest, CallsTo(digest, s, n)) && BeginsAt(CallsTo(digest, s, n), s.sequence, s.fence)
  {
    hide Opaque, Transition, Hexadecimal;
    var run := CallsTo(digest, s, n);
    assert BeginsAt(run, s.sequence, s.fence);
    hide HeadAt;
    forall i | 0 <= i < n
      ensures Transition(digest, Before(run, i), run[i].head, run[i].request, run[i].root)
    {
      assert i / 5 <= (n - 1) / 5;
      CallAccepted(digest, s, i / 5, i % 5);
      if i > 0 { Fifths(i - 1); }
    }
  }

  lemma Numbered(digest: Content -> Text, run: seq<Call>, i: nat)
    requires Accepted(digest, run) && i < |run|
    ensures Positive(run[i].head.c.id.sequence) && Positive(run[i].head.c.fence)
  {
    hide Hex64, Opaque, EvidenceHex, EvidenceAt, EvidenceStays;
    assert Transition(digest, Before(run, i), run[i].head, run[i].request, run[i].root);
  }
}
