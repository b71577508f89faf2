/** The bot's half of a successor transaction: lease, projection and acknowledgement, written in order. */
module SuccessorReader {
  import opened Encoding
  import opened Records
  import opened Samples
  import SuccessorHeads
  import HistorySeal

  const READER_VERSION := 2

  datatype Reader = Reader(instanceId: Text, startNonce: Text, nonce: Text)
  datatype TargetState = GenesisEmpty | ManagedEmpty | Managed | LegacyRetained

  // ---------------------------------------------------------------------- records

  /** The authority counters before and after the transaction. */
  datatype Generations = Generations(revision: int, authorityEpoch: int, tokenConfig: int, mapping: int)

  datatype RequestContent = RequestContent(
    sequence: int, txId: Text, rootGenesisTxId: Text, idempotencyKey: Text, operation: Operation,
    anchor: Text, actorPrincipal: Text, previousReceipt: Text, previousTarget: Text, previousWrapper: Text,
    previous: Generations, candidate: Generations, previousAttestation: Text, candidateAttestation: Text,
    previousSnapshot: Text, candidateSnapshot: Text, candidateTarget: Text,
    previousFence: int, candidateFence: int, mappingRecoveryTx: Option<Text>, targetState: TargetState,
    reader: Option<Reader>)
  datatype Request = Request(c: RequestContent, fingerprint: Text)

  datatype FenceContent = FenceContent(
    txId: Text, rootGenesisTxId: Text, request: Text, fence: int, anchor: Text, commitSnapshot: Text,
    readerInstanceId: Text, readerStartNonce: Text, readerVersion: int, previousBinding: Text)
  datatype Fence = Fence(c: FenceContent, fingerprint: Text)

  /** The finality fields that no reader record is compared with. */
  datatype Settlement = Settlement(
    baseline: Text, close: Text, reservation: Text, authorityEpochRecord: Text, tokenFloor: Text, publicationK: Text,
    publicationY: Text, operationEvidence: Text, auditEntry: Text, targetIdentity: Text, targetAcl: Text,
    controlRoot: Text, snapshot: Text)
  datatype FinalityContent = FinalityContent(
    sequence: int, txId: Text, rootGenesisTxId: Text, request: Text, fence: int, operation: Operation, anchor: Text,
    commitSnapshot: Text, attestation: Text, target: Text, wrapper: Text, generations: Generations, settlement: Settlement)
  datatype Finality = Finality(c: FinalityContent, fingerprint: Text)

  datatype LeaseContent = LeaseContent(
    txId: Text, rootGenesisTxId: Text, request: Text, fence: int, readerInstanceId: Text, readerStartNonce: Text,
    readerVersion: int, fenceBinding: Text, previousLease: Text)
  datatype Lease = Lease(c: LeaseContent, fingerprint: Text)

  datatype ProjectionContent = ProjectionContent(
    txId: Text, rootGenesisTxId: Text, request: Text, fence: int, finality: Text, anchor: Text, commitSnapshot: Text,
    target: Text, wrapper: Text, generations: Generations, readerInstanceId: Text, readerStartNonce: Text,
    readerVersion: int, readerNonce: Text, fenceBinding: Text, leaseBinding: Text)
  datatype Projection = Projection(c: ProjectionContent, fingerprint: Text)

  datatype AckContent = AckContent(
    txId: Text, rootGenesisTxId: Text, request: Text, fence: int, finality: Text, projection: Text, leaseBinding: Text,
    readerInstanceId: Text, readerStartNonce: Text, readerVersion: int, readerNonce: Text)
  datatype Ack = Ack(c: AckContent, fingerprint: Text)

  /** The hash, on each kind of record. */
  datatype Digests = Digests(
    request: RequestContent -> Text, fence: FenceContent -> Text, finality: FinalityContent -> Text,
    lease: LeaseContent -> Text, projection: ProjectionContent -> Text, ack: AckContent -> Text)

  ghost predicate Proper(d: Digests) {
    Hexadecimal(d.lease) && Hexadecimal(d.projection) && Hexadecimal(d.ack)
  }

  // ------------------------------------------------------------------- validators

  predicate CountersFrom(g: Generations) {
    Positive(g.revision) && Positive(g.authorityEpoch) && Positive(g.tokenConfig) && NonNegative(g.mapping)
  }

  /** Which counter moves: the tokens' or the mapping's, never both. */
  predicate Lineage(c: RequestContent) {
    if c.operation == TokensAttest then
      && c.candidate.tokenConfig == c.previous.tokenConfig + 1 && c.candidate.mapping == c.previous.mapping
      && c.mappingRecoveryTx.None?
    else
      && c.candidate.tokenConfig == c.previous.tokenConfig && c.candidateAttestation == c.previousAttestation
      && c.candidate.mapping == c.previous.mapping + 1
      && c.mappingRecoveryTx.Some? && Hex64(c.mappingRecoveryTx.value)
  }

  /** `validateAuthoritySuccessorRequest`. */
  predicate ValidRequest(d: Digests, r: Request) {
    var c := r.c;
    && Positive(c.sequence) && Opaque(c.txId) && Opaque(c.rootGenesisTxId) && Opaque(c.idempotencyKey)
    && Hex64(c.anchor) && Hex64(c.actorPrincipal) && Hex64(c.previousReceipt) && Hex64(c.previousTarget)
    && Hex64(c.previousWrapper) && Hex64(c.previousAttestation) && Hex64(c.candidateAttestation)
    && Hex64(c.previousSnapshot) && Hex64(c.candidateSnapshot) && Hex64(c.candidateTarget)
    && NonNegative(c.previous.revision) && NonNegative(c.previous.authorityEpoch) && NonNegative(c.previous.tokenConfig)
    && NonNegative(c.previous.mapping) && CountersFrom(c.candidate)
    && c.candidate.revision == c.previous.revision + 1 && c.candidate.authorityEpoch == c.previous.authorityEpoch + 1
    && NullableHex(c.mappingRecoveryTx) && (c.targetState == LegacyRetained ==> c.operation == TokensAttest)
    && Positive(c.previousFence) && Positive(c.candidateFence) && c.candidateFence == c.previousFence + 1
    && Lineage(c)
    && (c.reader.Some? ==> Opaque(c.reader.value.instanceId) && Opaque(c.reader.value.startNonce) && Opaque(c.reader.value.nonce))
    && Hex64(r.fingerprint) && r.fingerprint == d.request(c)
  }

  /** `validateAuthoritySuccessorFence`, given the request. */
  predicate ValidFence(d: Digests, f: Fence, r: Request) {
    && Positive(f.c.fence) && Opaque(f.c.txId) && Opaque(f.c.rootGenesisTxId) && Opaque(f.c.readerInstanceId)
    && Opaque(f.c.readerStartNonce) && Hex64(f.c.request) && Hex64(f.c.anchor) && Hex64(f.c.commitSnapshot)
    && Hex64(f.c.previousBinding) && f.c.readerVersion == READER_VERSION
    && r.c.reader.Some? && f.c.txId == r.c.txId && f.c.rootGenesisTxId == r.c.rootGenesisTxId && f.c.request == r.fingerprint
    && f.c.fence == r.c.candidateFence && f.c.anchor == r.c.anchor
    && f.c.readerInstanceId == r.c.reader.value.instanceId && f.c.readerStartNonce == r.c.reader.value.startNonce
    && f.c.previousBinding == r.c.previousReceipt
    && Hex64(f.fingerprint) && f.fingerprint == d.fence(f.c)
  }

  predicate SettlementHex(s: Settlement) {
    && Hex64(s.baseline) && Hex64(s.close) && Hex64(s.reservation) && Hex64(s.authorityEpochRecord) && Hex64(s.tokenFloor)
    && Hex64(s.publicationK) && Hex64(s.publicationY) && Hex64(s.operationEvidence) && Hex64(s.auditEntry)
    && Hex64(s.targetIdentity) && Hex64(s.targetAcl) && Hex64(s.controlRoot) && Hex64(s.snapshot)
  }

  /** `validateAuthoritySuccessorFinality`, given the request. */
  predicate ValidFinality(d: Digests, z: Finality, r: Request) {
    && Positive(z.c.fence) && Positive(z.c.sequence) && Opaque(z.c.txId) && Opaque(z.c.rootGenesisTxId)
    && Hex64(z.c.request) && Hex64(z.c.anchor) && Hex64(z.c.commitSnapshot) && Hex64(z.c.attestation)
    && Hex64(z.c.target) && Hex64(z.c.wrapper) && SettlementHex(z.c.settlement) && CountersFrom(z.c.generations)
    && z.c.txId == r.c.txId && z.c.sequence == r.c.sequence && z.c.rootGenesisTxId == r.c.rootGenesisTxId
    && z.c.request == r.fingerprint && z.c.fence == r.c.candidateFence && z.c.operation == r.c.operation
    && z.c.anchor == r.c.anchor && z.c.generations == r.c.candidate && z.c.attestation == r.c.candidateAttestation
    && Hex64(z.fingerprint) && z.fingerprint == d.finality(z.c)
  }

  /** `validateAuthoritySuccessorLease`, given the request and the fence. */
  predicate ValidLease(d: Digests, l: Lease, r: Request, f: Fence) {
    && Positive(l.c.fence) && Opaque(l.c.txId) && Opaque(l.c.rootGenesisTxId) && Opaque(l.c.readerInstanceId)
    && Opaque(l.c.readerStartNonce) && Hex64(l.c.request) && Hex64(l.c.fenceBinding) && Hex64(l.c.previousLease)
    && l.c.readerVersion == READER_VERSION
    && ValidRequest(d, r) && l.c.previousLease == r.c.previousReceipt
    && r.c.reader.Some? && l.c.txId == r.c.txId && l.c.rootGenesisTxId == r.c.rootGenesisTxId && l.c.request == r.fingerprint
    && l.c.fence == r.c.candidateFence && l.c.readerInstanceId == r.c.reader.value.instanceId
    && l.c.readerStartNonce == r.c.reader.value.startNonce
    && l.c.txId == f.c.txId && l.c.rootGenesisTxId == f.c.rootGenesisTxId && l.c.request == f.c.request
    && l.c.fence == f.c.fence && l.c.readerInstanceId == f.c.readerInstanceId && l.c.readerStartNonce == f.c.readerStartNonce
    && l.c.readerVersion == f.c.readerVersion && l.c.fenceBinding == f.fingerprint
    && Hex64(l.fingerprint) && l.fingerprint == d.lease(l.c)
  }

  /** `validateAuthoritySuccessorReaderProjection`, given the request, the finality and the lease. */
  predicate ValidProjection(d: Digests, p: Projection, r: Request, z: Finality, l: Lease) {
    && Positive(p.c.fence) && Opaque(p.c.txId) && Opaque(p.c.rootGenesisTxId) && Opaque(p.c.readerInstanceId)
    && Opaque(p.c.readerStartNonce) && Opaque(p.c.readerNonce) && Hex64(p.c.request) && Hex64(p.c.finality)
    && Hex64(p.c.anchor) && Hex64(p.c.commitSnapshot) && Hex64(p.c.target) && Hex64(p.c.wrapper)
    && Hex64(p.c.fenceBinding) && Hex64(p.c.leaseBinding) && CountersFrom(p.c.generations)
    && p.c.readerVersion == READER_VERSION
    && r.c.reader.Some? && p.c.txId == r.c.txId && p.c.rootGenesisTxId == r.c.rootGenesisTxId && p.c.request == r.fingerprint
    && p.c.fence == r.c.candidateFence && p.c.anchor == r.c.anchor && p.c.readerInstanceId == r.c.reader.value.instanceId
    && p.c.readerStartNonce == r.c.reader.value.startNonce && p.c.readerNonce == r.c.reader.value.nonce
    && p.c.txId == z.c.txId && p.c.rootGenesisTxId == z.c.rootGenesisTxId && p.c.request == z.c.request
    && p.c.finality == z.fingerprint && p.c.fence == z.c.fence && p.c.anchor == z.c.anchor
    && p.c.commitSnapshot == z.c.commitSnapshot && p.c.target == z.c.target && p.c.wrapper == z.c.wrapper
    && p.c.generations == z.c.generations
    && p.c.txId == l.c.txId && p.c.rootGenesisTxId == l.c.rootGenesisTxId && p.c.request == l.c.request
    && p.c.fence == l.c.fence && p.c.readerInstanceId == l.c.readerInstanceId && p.c.readerStartNonce == l.c.readerStartNonce
    && p.c.readerVersion == l.c.readerVersion && p.c.fenceBinding == l.c.fenceBinding && p.c.leaseBinding == l.fingerprint
    && Hex64(p.fingerprint) && p.fingerprint == d.projection(p.c)
  }

  /** `validateAuthoritySuccessorAck`, given the request, the finality and the projection. */
  predicate ValidAck(d: Digests, a: Ack, r: Request, z: Finality, p: Projection) {
    && Positive(a.c.fence) && Opaque(a.c.txId) && Opaque(a.c.rootGenesisTxId) && Opaque(a.c.readerInstanceId)
    && Opaque(a.c.readerStartNonce) && Opaque(a.c.readerNonce) && Hex64(a.c.request) && Hex64(a.c.finality)
    && Hex64(a.c.projection) && Hex64(a.c.leaseBinding) && a.c.readerVersion == READER_VERSION
    && r.c.reader.Some? && a.c.txId == r.c.txId && a.c.rootGenesisTxId == r.c.rootGenesisTxId && a.c.request == r.fingerprint
    && a.c.fence == r.c.candidateFence && a.c.readerInstanceId == r.c.reader.value.instanceId
    && a.c.readerStartNonce == r.c.reader.value.startNonce && a.c.readerNonce == r.c.reader.value.nonce
    && a.c.txId == z.c.txId && a.c.rootGenesisTxId == z.c.rootGenesisTxId && a.c.request == z.c.request
    && a.c.fence == z.c.fence && a.c.finality == z.fingerprint
    && a.c.txId == p.c.txId && a.c.rootGenesisTxId == p.c.rootGenesisTxId && a.c.request == p.c.request
    && a.c.fence == p.c.fence && a.c.finality == p.c.finality && a.c.projection == p.fingerprint
    && a.c.leaseBinding == p.c.leaseBinding && a.c.readerInstanceId == p.c.readerInstanceId
    && a.c.readerStartNonce == p.c.readerStartNonce && a.c.readerVersion == p.c.readerVersion && a.c.readerNonce == p.c.readerNonce
    && Hex64(a.fingerprint) && a.fingerprint == d.ack(a.c)
  }

  // --------------------------------------------------------- what the reader builds

  function BuildLease(d: Digests, r: Request, f: Fence): Lease
    requires r.c.reader.Some?
  {
    var c := LeaseContent(
      r.c.txId, r.c.rootGenesisTxId, r.fingerprint, r.c.candidateFence, r.c.reader.value.instanceId,
      r.c.reader.value.startNonce, READER_VERSION, f.fingerprint, r.c.previousReceipt);
    Lease.Lease(c, d.lease(c))
  }

  function BuildProjection(d: Digests, r: Request, f: Fence, z: Finality, l: Lease): Projection
    requires r.c.reader.Some?
  {
    var c := ProjectionContent(
      r.c.txId, r.c.rootGenesisTxId, r.fingerprint, r.c.candidateFence, z.fingerprint, r.c.anchor, z.c.commitSnapshot,
      z.c.target, z.c.wrapper, z.c.generations, r.c.reader.value.instanceId, r.c.reader.value.startNonce,
      READER_VERSION, r.c.reader.value.nonce, f.fingerprint, l.fingerprint);
    Projection.Projection(c, d.projection(c))
  }

  function BuildAck(d: Digests, r: Request, z: Finality, l: Lease, p: Projection): Ack
    requires r.c.reader.Some?
  {
    var c := AckContent(
      r.c.txId, r.c.rootGenesisTxId, r.fingerprint, r.c.candidateFence, z.fingerprint, p.fingerprint, l.fingerprint,
      r.c.reader.value.instanceId, r.c.reader.value.startNonce, READER_VERSION, r.c.reader.value.nonce);
    Ack.Ack(c, d.ack(c))
  }

  /** The transaction that the reader completes; it is fixed while the head is pending. */
  datatype Transaction = Transaction(request: Request, fence: Fence, finality: Finality)

  predicate ValidTransaction(d: Digests, t: Transaction) {
    && ValidRequest(d, t.request) && t.request.c.reader.Some?
    && ValidFence(d, t.fence, t.request) && ValidFinality(d, t.finality, t.request)
  }

  /** There are such transactions, whatever the hash. */
  lemma TransactionExists(d: Digests)
    requires Hexadecimal(d.request) && Hexadecimal(d.fence) && Hexadecimal(d.finality)
    ensures exists t :: ValidTransaction(d, t)
  {
    var id: Text, h := [0x61], ZEROS;
    assert Opaque(id);
    hide Hex64, Opaque;
    var r := RequestContent(1, id, id, id, TokensAttest, h, h, h, h, h, Generations(0, 0, 0, 0), Generations(1, 1, 1, 0),
                            h, h, h, h, h, 1, 2, None, Managed, Some(Reader.Reader(id, id, id)));
    var request := Request.Request(r, d.request(r));
    var f := FenceContent(id, id, request.fingerprint, 2, h, h, id, id, READER_VERSION, h);
    var z := FinalityContent(1, id, id, request.fingerprint, 2, TokensAttest, h, h, h, h, h, Generations(1, 1, 1, 0),
                             Settlement(h, h, h, h, h, h, h, h, h, h, h, h, h));
    assert ValidTransaction(d, Transaction(request, Fence.Fence(f, d.fence(f)), Finality.Finality(z, d.finality(z))));
  }

  /** The one lease that passes is the one the reader builds. */
  lemma LeasePinned(d: Digests, t: Transaction, l: Lease)
    requires Proper(d) && ValidTransaction(d, t)
    ensures ValidLease(d, l, t.request, t.fence) <==> l == BuildLease(d, t.request, t.fence)
  {
    hide Hex64, Opaque;
  }

  lemma ProjectionPinned(d: Digests, t: Transaction, p: Projection)
    requires Proper(d) && ValidTransaction(d, t)
    ensures var l := BuildLease(d, t.request, t.fence);
            ValidProjection(d, p, t.request, t.finality, l) <==> p == BuildProjection(d, t.request, t.fence, t.finality, l)
  {
    hide Hex64, Opaque;
  }

  lemma AckPinned(d: Digests, t: Transaction, a: Ack)
    requires Proper(d) && ValidTransaction(d, t)
    ensures var l := BuildLease(d, t.request, t.fence);
            var p := BuildProjection(d, t.request, t.fence, t.finality, l);
            ValidAck(d, a, t.request, t.finality, p) <==> a == BuildAck(d, t.request, t.finality, l, p)
  {
    hide Hex64, Opaque;
  }

  // ------------------------------------------------------------------------- slots

  datatype Slots = Slots(lease: Option<Lease>, projection: Option<Projection>, ack: Option<Ack>)

  /** What the bundle check asks of the reader's records before the reader acts. */
  predicate ValidSlots(d: Digests, t: Transaction, s: Slots) {
    && (s.lease.Some? ==> ValidLease(d, s.lease.value, t.request, t.fence))
    && (s.projection.Some? ==> s.lease.Some? && ValidProjection(d, s.projection.value, t.request, t.finality, s.lease.value))
    && (s.ack.Some? ==> s.projection.Some? && ValidAck(d, s.ack.value, t.request, t.finality, s.projection.value))
  }

  datatype Write = WriteLease(lease: Lease) | WriteProjection(projection: Projection) | WriteAck(ack: Ack)

  /** The three records, in the order the reader writes them. */
  function Script(d: Digests, t: Transaction): (w: seq<Write>)
    requires t.request.c.reader.Some?
    ensures |w| == 3
  {
    var l := BuildLease(d, t.request, t.fence);
    var p := BuildProjection(d, t.request, t.fence, t.finality, l);
    [WriteLease(l), WriteProjection(p), WriteAck(BuildAck(d, t.request, t.finality, l, p))]
  }

  function Stored(s: Slots, w: Write): Slots {
    match w
    case WriteLease(l) => s.(lease := Some(l))
    case WriteProjection(p) => s.(projection := Some(p))
    case WriteAck(a) => s.(ack := Some(a))
  }

  /** The slots after the first `k` records of the script. */
  function Filled(d: Digests, t: Transaction, k: nat): Slots
    requires t.request.c.reader.Some? && k <= 3
  {
    if k == 0 then Slots(None, None, None) else Stored(Filled(d, t, k - 1), Script(d, t)[k - 1])
  }

  lemma FilledIs(d: Digests, t: Transaction)
    requires t.request.c.reader.Some?
    ensures var l := BuildLease(d, t.request, t.fence);
            var p := BuildProjection(d, t.request, t.fence, t.finality, l);
            var a := BuildAck(d, t.request, t.finality, l, p);
            && Filled(d, t, 0) == Slots(None, None, None)
            && Filled(d, t, 1) == Slots(Some(l), None, None)
            && Filled(d, t, 2) == Slots(Some(l), Some(p), None)
            && Filled(d, t, 3) == Slots(Some(l), Some(p), Some(a))
  {
    hide BuildLease, BuildProjection, BuildAck;
    assert Filled(d, t, 1) == Stored(Filled(d, t, 0), Script(d, t)[0]);
    assert Filled(d, t, 2) == Stored(Filled(d, t, 1), Script(d, t)[1]);
  }

  /** Only four contents of the slots pass, and each is a beginning of the script. */
  lemma SlotsPinned(d: Digests, t: Transaction, s: Slots)
    requires Proper(d) && ValidTransaction(d, t)
    ensures ValidSlots(d, t, s) <==> exists k | 0 <= k <= 3 :: s == Filled(d, t, k)
  {
    hide ValidLease, ValidProjection, ValidAck, ValidFinality, ValidFence, ValidRequest, BuildLease, BuildProjection, BuildAck, Proper, Filled;
    FilledIs(d, t);
    var l := BuildLease(d, t.request, t.fence);
    var p := BuildProjection(d, t.request, t.fence, t.finality, l);
    var a := BuildAck(d, t.request, t.finality, l, p);
    LeasePinned(d, t, l);
    ProjectionPinned(d, t, p);
    AckPinned(d, t, a);
    if s.lease.Some? { LeasePinned(d, t, s.lease.value); }
    if s.projection.Some? { ProjectionPinned(d, t, s.projection.value); }
    if s.ack.Some? { AckPinned(d, t, s.ack.value); }
    if ValidSlots(d, t, s) {
      assert s == Filled(d, t, 0) || s == Filled(d, t, 1) || s == Filled(d, t, 2) || s == Filled(d, t, 3);
    }
  }

  // ------------------------------------------------------------- crashes and reruns

  /** One invocation that gets `budget` writes done before it stops, ends, or is killed. */
  function Attempt(d: Digests, t: Transaction, s: Slots, budget: nat): (Slots, seq<Write>)
    requires t.request.c.reader.Some?
  {
    var l := if s.lease.Some? then s.lease.value else BuildLease(d, t.request, t.fence);
    var p := if s.projection.Some? then s.projection.value else BuildProjection(d, t.request, t.fence, t.finality, l);
    var a := if s.ack.Some? then s.ack.value else BuildAck(d, t.request, t.finality, l, p);
    var missing :=
      (if s.lease.None? then [WriteLease(l)] else []) +
      (if s.projection.None? then [WriteProjection(p)] else []) +
      (if s.ack.None? then [WriteAck(a)] else []);
    var done := missing[..if budget < |missing| then budget else |missing|];
    (StoredAll(s, done), done)
  }

  function StoredAll(s: Slots, writes: seq<Write>): Slots
    decreases |writes|
  {
    if writes == [] then s else StoredAll(Stored(s, writes[0]), writes[1..])
  }

  lemma StoredFew(s: Slots, w: seq<Write>)
    requires |w| <= 3
    ensures |w| == 0 ==> StoredAll(s, w) == s
    ensures |w| == 1 ==> StoredAll(s, w) == Stored(s, w[0])
    ensures |w| == 2 ==> StoredAll(s, w) == Stored(Stored(s, w[0]), w[1])
    ensures |w| == 3 ==> StoredAll(s, w) == Stored(Stored(Stored(s, w[0]), w[1]), w[2])
  {
    hide Stored;
    if |w| > 1 { assert StoredAll(Stored(s, w[0]), w[1..]) == StoredAll(Stored(Stored(s, w[0]), w[1]), w[1..][1..]); }
    if |w| > 2 { assert w[1..][1..][0] == w[2] && w[1..][1..][1..] == []; }
  }

  function Min(a: nat, b: nat): nat { if a < b then a else b }

  /** An invocation resumes exactly where the last one stopped. */
  lemma AttemptResumes(d: Digests, t: Transaction, k: nat, budget: nat)
    requires t.request.c.reader.Some? && k <= 3
    ensures var n := Min(3, k + budget);
            Attempt(d, t, Filled(d, t, k), budget) == (Filled(d, t, n), Script(d, t)[k..n])
  {
    hide BuildLease, BuildProjection, BuildAck, Filled;
    FilledIs(d, t);
    var n := Min(3, k + budget);
    var script := Script(d, t);
    var w := Attempt(d, t, Filled(d, t, k), budget).1;
    assert w == script[k..n];
    StoredFew(Filled(d, t, k), w);
    hide StoredAll;
  }

  function Sum(budgets: seq<nat>): nat
    decreases |budgets|
  {
    if budgets == [] then 0 else budgets[0] + Sum(budgets[1..])
  }

  /** A schedule of invocations, each validating what it reads; nothing when one of them is refused. */
  function Schedule(d: Digests, t: Transaction, s: Slots, budgets: seq<nat>): Option<(Slots, seq<Write>)>
    requires t.request.c.reader.Some?
    decreases |budgets|
  {
    if budgets == [] then Some((s, []))
    else if !ValidSlots(d, t, s) then None
    else
      var (s', w) := Attempt(d, t, s, budgets[0]);
      match Schedule(d, t, s', budgets[1..])
      case None => None
      case Some((end, more)) => Some((end, w + more))
  }

  /**
    * Whatever the crashes, the slots fill in script order, no invocation is refused, and over
    * the whole schedule each record is written at most once.
    */
  lemma {:induction false} CrashResume(d: Digests, t: Transaction, k: nat, budgets: seq<nat>)
    requires Proper(d) && ValidTransaction(d, t) && k <= 3
    ensures var n := Min(3, k + Sum(budgets));
            Schedule(d, t, Filled(d, t, k), budgets) == Some((Filled(d, t, n), Script(d, t)[k..n]))
    decreases |budgets|
  {
    hide ValidSlots, ValidFinality, ValidFence, ValidRequest, BuildLease, BuildProjection, BuildAck, Proper, Filled, Attempt, Script;
    if budgets == [] {
      assert Script(d, t)[k..k] == [];
    } else {
      var m := Min(3, k + budgets[0]);
      SlotsPinned(d, t, Filled(d, t, k));
      AttemptResumes(d, t, k, budgets[0]);
      CrashResume(d, t, m, budgets[1..]);
      var n := Min(3, k + Sum(budgets));
      assert n == Min(3, m + Sum(budgets[1..]));
      assert Script(d, t)[k..m] + Script(d, t)[m..n] == Script(d, t)[k..n];
    }
  }

  /** Every schedule with enough life in it ends as one uninterrupted invocation would. */
  lemma SameAsUninterrupted(d: Digests, t: Transaction, s: Slots, budgets: seq<nat>)
    requires Proper(d) && ValidTransaction(d, t) && ValidSlots(d, t, s) && Sum(budgets) >= 3
    ensures Schedule(d, t, s, budgets) == Some(Attempt(d, t, s, 3))
  {
    hide ValidSlots, ValidFinality, ValidFence, ValidRequest, BuildLease, BuildProjection, BuildAck, Proper, Filled, Attempt, Script, Schedule;
    SlotsPinned(d, t, s);
    var k :| 0 <= k <= 3 && s == Filled(d, t, k);
    CrashResume(d, t, k, budgets);
    AttemptResumes(d, t, k, 3);
  }

  // ------------------------------------------------------------------- the program

  /** The native storage behind the bot's three write calls; `log` is what it was told to write. */
  class Storage {
    var lease: Option<Lease>
    var projection: Option<Projection>
    var ack: Option<Ack>
    ghost var log: seq<Write>

    ghost function Now(): Slots
      reads this
    {
      Slots(lease, projection, ack)
    }

    constructor ()
      ensures Now() == Slots(None, None, None) && log == []
    {
      lease, projection, ack, log := None, None, None, [];
    }
  }

  datatype Outcome = NotPending | Refused | Stopped | Completed

  /** The bundle that an invocation read, without the three reader records. */
  datatype Bundle = Bundle(
    request: Request, fence: Option<Fence>, finality: Option<Finality>, phase: SuccessorHeads.Phase,
    historyMarker: Option<HistorySeal.Marker>, historyMarkerSeal: Option<HistorySeal.Marker>)

  /** The invocation reaches its writes. */
  ghost predicate Proceeds(md: HistorySeal.Content -> Text, b: Bundle, floorsHold: bool) {
    && floorsHold && HistorySeal.Sealed(md, b.historyMarker, b.historyMarkerSeal, Some(b.request.c.anchor), [])
    && b.phase == SuccessorHeads.ReaderPending && b.request.c.reader.Some? && b.fence.Some? && b.finality.Some?
  }

  /**
    * `completePendingSuccessor`: `budget` is how many writes happen before a live-proof check
    * fails, a write call fails, or the process dies.
    */
  method CompletePending(d: Digests, md: HistorySeal.Content -> Text, b: Bundle, floorsHold: bool, store: Storage, budget: nat) returns (r: Outcome)
    modifies store
    ensures !Proceeds(md, b, floorsHold) ==> r in {NotPending, Refused} && store.Now() == old(store.Now()) && store.log == old(store.log)
    ensures Proceeds(md, b, floorsHold) ==>
      var (s, w) := Attempt(d, Transaction(b.request, b.fence.value, b.finality.value), old(store.Now()), budget);
      && store.Now() == s && store.log == old(store.log) + w
      && r == (if s.lease.Some? && s.projection.Some? && s.ack.Some? then Completed else Stopped)
  {
    hide BuildLease, BuildProjection, BuildAck, HistorySeal.Sealed;
    if !floorsHold {
      return Refused;
    }
    var sealed := HistorySeal.ValidateSeal(md, b.historyMarker, b.historyMarkerSeal, Some(b.request.c.anchor), []);
    if !sealed {
      return Refused;
    }
    if b.phase != SuccessorHeads.ReaderPending || b.request.c.reader.None? {
      return NotPending;
    }
    if b.fence.None? || b.finality.None? {
      return Refused;
    }
    r := WriteMissing(d, Transaction(b.request, b.fence.value, b.finality.value), store, budget);
  }

  /** The three conditional writes. */
  method WriteMissing(d: Digests, t: Transaction, store: Storage, budget: nat) returns (r: Outcome)
    requires t.request.c.reader.Some?
    modifies store
    ensures var (s, w) := Attempt(d, t, old(store.Now()), budget);
            && store.Now() == s && store.log == old(store.log) + w
            && r == (if s.lease.Some? && s.projection.Some? && s.ack.Some? then Completed else Stopped)
  {
    hide BuildLease, BuildProjection, BuildAck, StoredAll;
    ghost var s, log, written := store.Now(), store.log, Attempt(d, t, store.Now(), budget).1;
    StoredFew(s, written);
    var left, projection, ack := budget, store.projection, store.ack;
    var l2 := if store.lease.Some? then store.lease.value else BuildLease(d, t.request, t.fence);
    if store.lease.None? {
      if left == 0 {
        return Stopped;
      }
      store.lease, left := Some(l2), left - 1;
      store.log := store.log + [WriteLease(l2)];
    }
    var rp2 := if projection.Some? then projection.value else BuildProjection(d, t.request, t.fence, t.finality, l2);
    if projection.None? {
      if left == 0 {
        return Stopped;
      }
      store.projection, left := Some(rp2), left - 1;
      store.log := store.log + [WriteProjection(rp2)];
    }
    var ak2 := if ack.Some? then ack.value else BuildAck(d, t.request, t.finality, l2, rp2);
    if ack.None? {
      if left == 0 {
        return Stopped;
      }
      store.ack := Some(ak2);
      store.log := store.log + [WriteAck(ak2)];
    }
    return Completed;
  }

  /**
    * With everything else in place, a bundle that its own predecessor list seals proceeds exactly
    * when its history is at most two long.
    */
  lemma ProceedsExactly(md: HistorySeal.Content -> Text, b: Bundle, predecessors: seq<HistorySeal.Marker>)
    requires b.phase == SuccessorHeads.ReaderPending && b.request.c.reader.Some? && b.fence.Some? && b.finality.Some?
    requires HistorySeal.Sealed(md, b.historyMarker, b.historyMarkerSeal, Some(b.request.c.anchor), predecessors)
    ensures Proceeds(md, b, true) <==> b.historyMarker.value.c.sequence <= 2
  {
    hide HistorySeal.Linked, HistorySeal.ValidList, HistorySeal.ValidMarker;
    HistorySeal.SealedWithoutList(md, b.historyMarker.value, b.historyMarkerSeal.value, Some(b.request.c.anchor), predecessors);
  }

  /** The reader passes no predecessors, so it never acts once the history is longer than two. */
  lemma LongHistoryNeverProceeds(md: HistorySeal.Content -> Text, b: Bundle, floorsHold: bool)
    requires b.historyMarker.Some? && b.historyMarker.value.c.sequence > 2
    ensures !Proceeds(md, b, floorsHold)
  {
    hide HistorySeal.Linked, HistorySeal.ValidList;
    if Proceeds(md, b, floorsHold) {
      HistorySeal.NoPredecessors(md, b.historyMarker.value, b.historyMarkerSeal.value, Some(b.request.c.anchor));
    }
  }
}
