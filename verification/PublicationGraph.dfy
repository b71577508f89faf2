/** The twelve records of one publication and the graph check over them. */
module PublicationGraph {
  import opened Encoding
  import opened Records
  import J = StrictJson

  const READER_VERSION := 2
  const ID_LENGTH := 256

  datatype Target = GenesisEmpty | HandshakePending | ManagedEmpty | Managed | LegacyUnmigrated | LegacyRetained
  datatype Phase = Prepared | Replaced | Committed

  /** What every record of a publication repeats. */
  datatype Stamp = Stamp(txId: Text, genesisTxId: Text, fence: int, generation: int)

  // ---------------------------------------------------------------------- records

  datatype TransactionContent = TransactionContent(stamp: Stamp, baseline: Text)
  datatype UContent = UContent(
    stamp: Stamp, baseline: Text, anchor: Text, target: Target, attestation: Text, reservation: Text, commitSnapshot: Text,
    fenceBinding: Option<Text>, leaseBinding: Option<Text>, readerProjection: Option<Text>,
    readerInstanceId: Option<Text>, readerStartNonce: Option<Text>, readerVersion: Option<int>)
  datatype PContent = PContent(
    stamp: Stamp, u: Text, state: Text, target: Target, commitSnapshot: Text, fenceBinding: Option<Text>,
    leaseBinding: Option<Text>, readerInstanceId: Option<Text>, readerStartNonce: Option<Text>, readerVersion: Option<int>)
  datatype SContent = SContent(
    stamp: Stamp, p: Text, state: Text, payload: Text, target: Target, commitSnapshot: Text,
    fenceBinding: Option<Text>, readerVersion: Option<int>)
  datatype CContent = CContent(
    stamp: Stamp, s: Text, state: Text, payload: Text, snapshot: Text, commitSnapshot: Text, fenceBinding: Option<Text>,
    readerInstanceId: J.Value, readerStartNonce: J.Value, readerVersion: Option<int>)
  datatype QContent = QContent(
    stamp: Stamp, c: Text, baseline: Text, state: Text, payload: Text, snapshot: Text, commitSnapshot: Text,
    fenceBinding: Option<Text>)
  datatype ZpContent = ZpContent(stamp: Stamp, q: Text, publication: Text, state: Text, payload: Text, snapshot: Text)
  datatype KContent = KContent(stamp: Stamp, zp: Text, publication: Text, commitSnapshot: Text, checkpoint: Text)
  datatype YContent = YContent(
    stamp: Stamp, k: Text, publication: Text, target: Target, commitSnapshot: Text, fenceBinding: J.Value,
    targetFingerprint: Text)
  datatype StateContent = StateContent(stamp: Stamp, publication: Text, phase: Phase)

  /** A record: its content and its fingerprint. */
  datatype Record<C> = Record(c: C, fp: Text)

  datatype Digests = Digests(
    transaction: TransactionContent -> Text, u: UContent -> Text, p: PContent -> Text, s: SContent -> Text,
    c: CContent -> Text, q: QContent -> Text, zp: ZpContent -> Text, k: KContent -> Text, y: YContent -> Text,
    state: StateContent -> Text)

  ghost predicate Proper(d: Digests) {
    && Hexadecimal(d.transaction) && Hexadecimal(d.u) && Hexadecimal(d.p) && Hexadecimal(d.s) && Hexadecimal(d.c)
    && Hexadecimal(d.q) && Hexadecimal(d.zp) && Hexadecimal(d.k) && Hexadecimal(d.y) && Hexadecimal(d.state)
  }

  datatype Graph = Graph(
    transaction: Record<TransactionContent>, u: Record<UContent>, p: Record<PContent>, s: Record<SContent>,
    prepared: Record<StateContent>, replaced: Record<StateContent>, committed: Record<StateContent>,
    c: Record<CContent>, q: Record<QContent>, zp: Record<ZpContent>, k: Record<KContent>, y: Record<YContent>)

  // ------------------------------------------------------------------- validators

  predicate Id(t: Text) { 1 <= |t| <= ID_LENGTH }

  predicate NullableId(t: Option<Text>) { t.Some? ==> Id(t.value) }

  predicate ValidStamp(s: Stamp) {
    Id(s.txId) && Id(s.genesisTxId) && Positive(s.fence) && Positive(s.generation)
  }

  /** A record's stamp is well formed and its fingerprint is its content's. */
  predicate Common<C>(digest: C -> Text, r: Record<C>, stamp: Stamp) {
    ValidStamp(stamp) && Hex64(r.fp) && digest(r.c) == r.fp
  }

  /** The reader fields are all absent, or a version-two reader is bound. */
  predicate ReaderBranch(c: UContent) {
    && NullableHex(c.fenceBinding) && NullableHex(c.leaseBinding) && NullableHex(c.readerProjection)
    && NullableId(c.readerInstanceId) && NullableId(c.readerStartNonce)
    && (c.readerVersion.Some? ==> c.readerVersion.value == READER_VERSION)
    && if c.readerVersion.None? then
         && c.fenceBinding.None? && c.leaseBinding.None? && c.readerProjection.None?
         && c.readerInstanceId.None? && c.readerStartNonce.None?
       else
         && c.fenceBinding.Some? && c.readerInstanceId.Some? && c.readerStartNonce.Some?
         && (c.leaseBinding.None? <==> c.readerProjection.None?)
  }

  predicate ValidTransaction(d: Digests, t: Record<TransactionContent>) {
    Common(d.transaction, t, t.c.stamp) && Hex64(t.c.baseline)
  }

  predicate ValidU(d: Digests, u: Record<UContent>, baseline: Text) {
    && Common(d.u, u, u.c.stamp) && Hex64(u.c.baseline) && Hex64(u.c.anchor) && Hex64(u.c.attestation)
    && Hex64(u.c.reservation) && Hex64(u.c.commitSnapshot) && ReaderBranch(u.c) && u.c.baseline == baseline
  }

  predicate ValidP(d: Digests, p: Record<PContent>, u: Record<UContent>) {
    && Common(d.p, p, p.c.stamp) && Hex64(p.c.u) && Hex64(p.c.state) && Hex64(p.c.commitSnapshot)
    && p.c.u == u.fp && p.c.target == u.c.target && p.c.commitSnapshot == u.c.commitSnapshot
    && p.c.fenceBinding == u.c.fenceBinding && p.c.leaseBinding == u.c.leaseBinding
    && p.c.readerInstanceId == u.c.readerInstanceId && p.c.readerStartNonce == u.c.readerStartNonce
    && p.c.readerVersion == u.c.readerVersion && p.c.stamp.fence == u.c.stamp.fence
  }

  predicate ValidS(d: Digests, s: Record<SContent>, p: Record<PContent>) {
    && Common(d.s, s, s.c.stamp) && Hex64(s.c.p) && Hex64(s.c.state) && Hex64(s.c.payload) && Hex64(s.c.commitSnapshot)
    && s.c.p == p.fp && s.c.state == p.c.state && s.c.target == p.c.target && s.c.commitSnapshot == p.c.commitSnapshot
    && s.c.fenceBinding == p.c.fenceBinding && s.c.readerVersion == p.c.readerVersion && s.c.stamp.fence == p.c.stamp.fence
  }

  predicate ValidC(d: Digests, c: Record<CContent>, s: Record<SContent>) {
    && Common(d.c, c, c.c.stamp) && Hex64(c.c.s) && Hex64(c.c.state) && Hex64(c.c.payload) && Hex64(c.c.snapshot)
    && Hex64(c.c.commitSnapshot)
    && c.c.s == s.fp && c.c.state == s.c.state && c.c.payload == s.c.payload && c.c.commitSnapshot == s.c.commitSnapshot
    && c.c.fenceBinding == s.c.fenceBinding && c.c.readerVersion == s.c.readerVersion && c.c.stamp.fence == s.c.stamp.fence
  }

  predicate ValidQ(d: Digests, q: Record<QContent>, c: Record<CContent>) {
    && Common(d.q, q, q.c.stamp) && Hex64(q.c.c) && Hex64(q.c.baseline) && Hex64(q.c.state) && Hex64(q.c.payload)
    && Hex64(q.c.snapshot) && Hex64(q.c.commitSnapshot)
    && q.c.c == c.fp && q.c.state == c.c.state && q.c.payload == c.c.payload && q.c.snapshot == c.c.snapshot
    && q.c.commitSnapshot == c.c.commitSnapshot && q.c.fenceBinding == c.c.fenceBinding && q.c.stamp.fence == c.c.stamp.fence
  }

  predicate ValidZp(d: Digests, zp: Record<ZpContent>, q: Record<QContent>) {
    && Common(d.zp, zp, zp.c.stamp) && Hex64(zp.c.q) && Hex64(zp.c.publication) && Hex64(zp.c.state)
    && Hex64(zp.c.payload) && Hex64(zp.c.snapshot)
    && zp.c.stamp.fence == q.c.stamp.fence
    && zp.c.q == q.fp && zp.c.state == q.c.state && zp.c.payload == q.c.payload && zp.c.snapshot == q.c.snapshot
  }

  predicate ValidK(d: Digests, k: Record<KContent>, zp: Record<ZpContent>) {
    && Common(d.k, k, k.c.stamp) && Hex64(k.c.zp) && Hex64(k.c.publication) && Hex64(k.c.commitSnapshot)
    && Hex64(k.c.checkpoint) && k.c.stamp.fence == zp.c.stamp.fence
    && k.c.zp == zp.fp && k.c.publication == zp.c.publication
  }

  predicate ValidY(d: Digests, y: Record<YContent>, k: Record<KContent>) {
    && Common(d.y, y, y.c.stamp) && Hex64(y.c.k) && Hex64(y.c.publication) && Hex64(y.c.commitSnapshot)
    && Hex64(y.c.targetFingerprint) && y.c.stamp.fence == k.c.stamp.fence
    && y.c.k == k.fp && y.c.publication == k.c.publication && y.c.commitSnapshot == k.c.commitSnapshot
  }

  predicate ValidState(d: Digests, s: Record<StateContent>, t: Record<TransactionContent>) {
    Common(d.state, s, s.c.stamp) && Hex64(s.c.publication) && s.c.stamp == t.c.stamp
  }

  /** `validatePublicationGraph` without an expected graph. */
  predicate ValidGraph(d: Digests, g: Graph) {
    && ValidTransaction(d, g.transaction) && ValidU(d, g.u, g.transaction.c.baseline)
    && ValidP(d, g.p, g.u) && ValidS(d, g.s, g.p)
    && ValidState(d, g.prepared, g.transaction) && ValidState(d, g.replaced, g.transaction) && ValidState(d, g.committed, g.transaction)
    && g.prepared.c.phase == Prepared && g.replaced.c.phase == Replaced && g.committed.c.phase == Committed
    && ValidC(d, g.c, g.s) && ValidQ(d, g.q, g.c) && ValidZp(d, g.zp, g.q) && ValidK(d, g.k, g.zp) && ValidY(d, g.y, g.k)
    && OneStamp(g) && OnePublication(g)
  }

  predicate OneStamp(g: Graph) {
    var stamp := g.transaction.c.stamp;
    && g.u.c.stamp == stamp && g.p.c.stamp == stamp && g.s.c.stamp == stamp && g.prepared.c.stamp == stamp
    && g.replaced.c.stamp == stamp && g.committed.c.stamp == stamp && g.c.c.stamp == stamp && g.q.c.stamp == stamp
    && g.zp.c.stamp == stamp && g.k.c.stamp == stamp && g.y.c.stamp == stamp
  }

  predicate OnePublication(g: Graph) {
    var publication := g.zp.c.publication;
    && g.prepared.c.publication == publication && g.replaced.c.publication == publication
    && g.committed.c.publication == publication && g.k.c.publication == publication && g.y.c.publication == publication
  }

  // ------------------------------------------------- what an accepted graph amounts to

  /**
    * Everything about a publication that the check leaves free. Note what it does not tie:
    * q's baseline, c's reader, k's commit snapshot, y's target state and fence binding; c's
    * reader and y's fence binding may be any JSON at all.
    */
  datatype Choices = Choices(
    stamp: Stamp, u: UContent, state: Text, payload: Text, snapshot: Text,
    cReaderInstanceId: J.Value, cReaderStartNonce: J.Value, qBaseline: Text, publication: Text,
    kCommitSnapshot: Text, checkpoint: Text, yTarget: Target, yFenceBinding: J.Value, targetFingerprint: Text)

  predicate ValidChoices(ch: Choices) {
    && ValidStamp(ch.stamp) && ch.u.stamp == ch.stamp && Hex64(ch.u.baseline) && Hex64(ch.u.anchor)
    && Hex64(ch.u.attestation) && Hex64(ch.u.reservation) && Hex64(ch.u.commitSnapshot) && ReaderBranch(ch.u)
    && Hex64(ch.state) && Hex64(ch.payload) && Hex64(ch.snapshot) && Hex64(ch.qBaseline) && Hex64(ch.publication)
    && Hex64(ch.kCommitSnapshot) && Hex64(ch.checkpoint) && Hex64(ch.targetFingerprint)
  }

  function ChoicesOf(g: Graph): Choices {
    Choices(
      g.transaction.c.stamp, g.u.c, g.p.c.state, g.s.c.payload, g.c.c.snapshot, g.c.c.readerInstanceId,
      g.c.c.readerStartNonce, g.q.c.baseline, g.zp.c.publication, g.k.c.commitSnapshot, g.k.c.checkpoint,
      g.y.c.target, g.y.c.fenceBinding, g.y.c.targetFingerprint)
  }

  /** The builders' `build`: the fingerprint is filled in from the rest. */
  function Fingerprinted<C>(digest: C -> Text, c: C): Record<C> {
    Record(c, digest(c))
  }

  function BuildFirst(d: Digests, ch: Choices): (Record<UContent>, Record<PContent>, Record<SContent>) {
    var u := Fingerprinted(d.u, ch.u);
    var p := Fingerprinted(d.p, PContent(
      ch.stamp, u.fp, ch.state, ch.u.target, ch.u.commitSnapshot, ch.u.fenceBinding, ch.u.leaseBinding,
      ch.u.readerInstanceId, ch.u.readerStartNonce, ch.u.readerVersion));
    var s := Fingerprinted(d.s, SContent(
      ch.stamp, p.fp, ch.state, ch.payload, ch.u.target, ch.u.commitSnapshot, ch.u.fenceBinding, ch.u.readerVersion));
    (u, p, s)
  }

  /** Builds the graph record by record, each naming the one before it. */
  function Build(d: Digests, ch: Choices): Graph {
    var (u, p, s) := BuildFirst(d, ch);
    var c := Fingerprinted(d.c, CContent(
      ch.stamp, s.fp, ch.state, ch.payload, ch.snapshot, ch.u.commitSnapshot, ch.u.fenceBinding,
      ch.cReaderInstanceId, ch.cReaderStartNonce, ch.u.readerVersion));
    var q := Fingerprinted(d.q, QContent(
      ch.stamp, c.fp, ch.qBaseline, ch.state, ch.payload, ch.snapshot, ch.u.commitSnapshot, ch.u.fenceBinding));
    var zp := Fingerprinted(d.zp, ZpContent(ch.stamp, q.fp, ch.publication, ch.state, ch.payload, ch.snapshot));
    var k := Fingerprinted(d.k, KContent(ch.stamp, zp.fp, ch.publication, ch.kCommitSnapshot, ch.checkpoint));
    var y := Fingerprinted(d.y, YContent(
      ch.stamp, k.fp, ch.publication, ch.yTarget, ch.kCommitSnapshot, ch.yFenceBinding, ch.targetFingerprint));
    Graph(
      Fingerprinted(d.transaction, TransactionContent(ch.stamp, ch.u.baseline)), u, p, s,
      Fingerprinted(d.state, StateContent(ch.stamp, ch.publication, Prepared)),
      Fingerprinted(d.state, StateContent(ch.stamp, ch.publication, Replaced)),
      Fingerprinted(d.state, StateContent(ch.stamp, ch.publication, Committed)),
      c, q, zp, k, y)
  }

  /** A graph is accepted exactly when it is what the builders make of its free fields. */
  lemma AcceptedIsBuilt(d: Digests, g: Graph)
    requires Proper(d)
    ensures ValidGraph(d, g) <==> ValidChoices(ChoicesOf(g)) && g == Build(d, ChoicesOf(g))
  {
    hide Hex64, ReaderBranch, ValidStamp;
  }

  /** Every choice of the free fields gives an accepted graph, and a different one. */
  lemma BuiltIsAccepted(d: Digests, ch: Choices)
    requires Proper(d) && ValidChoices(ch)
    ensures ValidGraph(d, Build(d, ch)) && ChoicesOf(Build(d, ch)) == ch
  {
    hide Hex64, ReaderBranch, ValidStamp;
  }

  // ----------------------------------------------------------------- graph pinning

  /** The hash tells apart the linked records of these two graphs. */
  ghost predicate NoCollisions(d: Digests, g: Graph, h: Graph) {
    && NoCollision(d.u, g.u.c, h.u.c) && NoCollision(d.p, g.p.c, h.p.c) && NoCollision(d.s, g.s.c, h.s.c)
    && NoCollision(d.c, g.c.c, h.c.c) && NoCollision(d.q, g.q.c, h.q.c) && NoCollision(d.zp, g.zp.c, h.zp.c)
    && NoCollision(d.k, g.k.c, h.k.c) && NoCollision(d.y, g.y.c, h.y.c)
  }

  /** The fingerprint of y fixes all twelve records, also the four that nothing points to. */
  lemma GraphPinned(d: Digests, g: Graph, h: Graph)
    requires ValidGraph(d, g) && ValidGraph(d, h) && NoCollisions(d, g, h)
    requires g.y.fp == h.y.fp
    ensures g == h
  {
    hide Hex64, ReaderBranch, ValidStamp;
    assert g.y == h.y;
    assert g.k == h.k;
    assert g.zp == h.zp;
    assert g.q == h.q;
    assert g.c == h.c;
    assert g.s == h.s;
    assert g.p == h.p;
    assert g.u == h.u;
    assert g.transaction == h.transaction;
  }
}
