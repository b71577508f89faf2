/** The token-generation floor: reserve, attest and commit as compare-and-set steps. */
module TokenFloor {
  import opened Encoding
  import opened Records

  datatype Phase = Reserved | Attested | Committed

  datatype Content = Content(
    anchor: Text, fence: int, genesis: int, reserved: int, committed: int, lastReservationTx: Option<Text>,
    lastCommittedTx: Option<Text>, lastAttestation: Option<Text>, phase: Phase, proof: Option<Text>)
  datatype Floor = Floor(c: Content, fingerprint: Text)

  predicate Shaped(c: Content) {
    && Hex64(c.anchor) && Positive(c.genesis) && SafeInteger(c.reserved) && SafeInteger(c.committed)
    && c.genesis - 1 <= c.committed <= c.reserved
    && NullableOpaque(c.lastReservationTx) && NullableOpaque(c.lastCommittedTx) && NullableHex(c.lastAttestation)
    && NullableHex(c.proof) && Positive(c.fence)
    && (c.reserved < c.genesis <==> c.lastReservationTx.None?)
    && (c.committed < c.genesis <==> c.lastCommittedTx.None? || c.lastAttestation.None?)
    && (c.phase == Reserved ==> c.proof.None?)
    && (c.phase == Attested ==> c.proof.Some? && c.reserved == c.committed + 1)
    && (c.phase == Committed ==> c.proof.Some? && c.reserved == c.committed)
  }

  /** `validateTokenFloor`. */
  predicate Valid(digest: Content -> Text, f: Floor) {
    Shaped(f.c) && Hex64(f.fingerprint) && f.fingerprint == digest(f.c)
  }

  /** Fills in the fingerprint and checks the result. */
  function Sealed(digest: Content -> Text, c: Content): (r: Option<Floor>)
    ensures r.Some? ==> Valid(digest, r.value) && r.value.c == c
  {
    var f := Floor.Floor(c, digest(c));
    if Valid(digest, f) then Some(f) else None
  }

  /** `reserveTokenGeneration`. */
  function Reserve(digest: Content -> Text, f: Floor, generation: int, txId: Text, fence: int): Option<Floor> {
    if !Valid(digest, f) || f.c.phase == Attested then None
    else if !SafeInteger(generation) || generation != f.c.reserved + 1 || !Opaque(txId) || !Positive(fence) || fence < f.c.fence then None
    else Sealed(digest, f.c.(fence := fence, reserved := generation, lastReservationTx := Some(txId), phase := Reserved, proof := None))
  }

  /** `validateTokenFloorReservation`. */
  predicate ValidReservation(digest: Content -> Text, f: Floor) {
    && Valid(digest, f) && f.c.phase == Reserved && f.c.reserved == f.c.committed + 1 && f.c.lastReservationTx.Some?
    && (f.c.lastCommittedTx.None? <==> f.c.lastAttestation.None?)
  }

  /** `attestTokenFloor`. */
  function Attest(digest: Content -> Text, f: Floor, proof: Text): Option<Floor> {
    if !ValidReservation(digest, f) || !Hex64(proof) then None
    else Sealed(digest, f.c.(phase := Attested, proof := Some(proof)))
  }

  /** `commitTokenFloor`. */
  function Commit(digest: Content -> Text, f: Floor, generation: int, txId: Text, attestation: Text, fence: int): Option<Floor> {
    if !Valid(digest, f) || f.c.phase != Attested || !SafeInteger(generation) then None
    else if generation != f.c.reserved || generation != f.c.committed + 1 || f.c.lastReservationTx != Some(txId) then None
    else if !Opaque(txId) || !Hex64(attestation) || !Positive(fence) || fence < f.c.fence then None
    else Sealed(digest, f.c.(
      fence := fence, committed := generation, lastCommittedTx := Some(txId), lastAttestation := Some(attestation), phase := Committed))
  }

  // ---------------------------------------------------------- exactly when a step succeeds

  /** A reservation succeeds exactly on a valid floor that is not attested, for the next generation and any fence not below the floor's. */
  lemma ReserveExactly(digest: Content -> Text, f: Floor, generation: int, txId: Text, fence: int)
    requires Hexadecimal(digest)
    ensures Reserve(digest, f, generation, txId, fence).Some? <==>
            && Valid(digest, f) && f.c.phase != Attested && generation == f.c.reserved + 1 && SafeInteger(generation)
            && Opaque(txId) && Positive(fence) && fence >= f.c.fence
  {
    hide Hex64, Opaque;
  }

  /** An attestation succeeds exactly on a reservation that is the only one open, with complete or no commit evidence. */
  lemma AttestExactly(digest: Content -> Text, f: Floor, proof: Text)
    requires Hexadecimal(digest)
    ensures Attest(digest, f, proof).Some? <==>
            && Valid(digest, f) && f.c.phase == Reserved && f.c.reserved == f.c.committed + 1
            && (f.c.lastCommittedTx.None? <==> f.c.lastAttestation.None?) && Hex64(proof)
  {
    hide Hex64, Opaque;
  }

  /** A commit succeeds exactly on an attested floor, for its reserved generation, transaction and any fence not below the floor's. */
  lemma CommitExactly(digest: Content -> Text, f: Floor, generation: int, txId: Text, attestation: Text, fence: int)
    requires Hexadecimal(digest)
    ensures Commit(digest, f, generation, txId, attestation, fence).Some? <==>
            && Valid(digest, f) && f.c.phase == Attested && generation == f.c.reserved && f.c.lastReservationTx == Some(txId)
            && Hex64(attestation) && Positive(fence) && fence >= f.c.fence
  {
    hide Hex64, Opaque;
  }

  // ------------------------------------------------------------------------- runs

  datatype Step =
    | ReserveStep(generation: int, txId: Text, fence: int)
    | AttestStep(proof: Text)
    | CommitStep(generation: int, txId: Text, attestation: Text, fence: int)

  function Apply(digest: Content -> Text, f: Floor, step: Step): Option<Floor> {
    match step
    case ReserveStep(g, tx, fence) => Reserve(digest, f, g, tx, fence)
    case AttestStep(proof) => Attest(digest, f, proof)
    case CommitStep(g, tx, attestation, fence) => Commit(digest, f, g, tx, attestation, fence)
  }

  /** The floor after a sequence of steps that all succeed. */
  function Run(digest: Content -> Text, f: Floor, steps: seq<Step>): Option<Floor>
    decreases |steps|
  {
    if steps == [] then Some(f)
    else
      match Apply(digest, f, steps[0])
      case None => None
      case Some(next) => Run(digest, next, steps[1..])
  }

  function Reservations(steps: seq<Step>): nat
    decreases |steps|
  {
    if steps == [] then 0 else (if steps[0].ReserveStep? then 1 else 0) + Reservations(steps[1..])
  }

  function Commits(steps: seq<Step>): nat
    decreases |steps|
  {
    if steps == [] then 0 else (if steps[0].CommitStep? then 1 else 0) + Commits(steps[1..])
  }

  /** The transaction of the last reservation, whether in these steps or before them. */
  function LatestReservation(before: Option<Text>, steps: seq<Step>): Option<Text>
    decreases |steps|
  {
    if steps == [] then before
    else LatestReservation(if steps[0].ReserveStep? then Some(steps[0].txId) else before, steps[1..])
  }

  /** What one successful step does to the two marks. */
  lemma StepCounts(digest: Content -> Text, f: Floor, step: Step)
    requires Apply(digest, f, step).Some?
    ensures var n := Apply(digest, f, step).value;
            && Valid(digest, f) && Valid(digest, n)
            && n.c.anchor == f.c.anchor && n.c.genesis == f.c.genesis && n.c.fence >= f.c.fence
            && n.c.reserved == f.c.reserved + (if step.ReserveStep? then 1 else 0)
            && n.c.committed == f.c.committed + (if step.CommitStep? then 1 else 0)
            && n.c.lastReservationTx == (if step.ReserveStep? then Some(step.txId) else f.c.lastReservationTx)
            && (step.CommitStep? ==> step.generation == f.c.reserved == n.c.committed && Some(step.txId) == f.c.lastReservationTx == n.c.lastCommittedTx)
            && (match step
                case ReserveStep(_, _, fence) => n.c.phase == Reserved && n.c.fence == fence
                case AttestStep(proof) => n.c.phase == Attested && n.c.proof == Some(proof) && n.c.fence == f.c.fence
                case CommitStep(_, _, attestation, fence) =>
                  n.c.phase == Committed && n.c.lastAttestation == Some(attestation) && n.c.proof == f.c.proof && n.c.fence == fence)
            && (!step.CommitStep? ==> n.c.lastCommittedTx == f.c.lastCommittedTx && n.c.lastAttestation == f.c.lastAttestation)
  {
    hide Hex64, Opaque;
  }

  /**
    * Over every run: the floor stays valid, nothing but the marks, the fence and the evidence
    * changes, and each mark rises by exactly the number of its steps.
    */
  lemma {:induction false} RunCounts(digest: Content -> Text, f: Floor, steps: seq<Step>)
    requires Valid(digest, f) && Run(digest, f, steps).Some?
    ensures var n := Run(digest, f, steps).value;
            && Valid(digest, n)
            && n.c.anchor == f.c.anchor && n.c.genesis == f.c.genesis && n.c.fence >= f.c.fence
            && n.c.reserved == f.c.reserved + Reservations(steps)
            && n.c.committed == f.c.committed + Commits(steps)
            && n.c.lastReservationTx == LatestReservation(f.c.lastReservationTx, steps)
    decreases |steps|
  {
    hide Valid, Apply;
    if steps != [] {
      StepCounts(digest, f, steps[0]);
      RunCounts(digest, Apply(digest, f, steps[0]).value, steps[1..]);
    }
  }

  /** A commit takes the generation after the last one, and names the run's latest reservation. */
  lemma CommitFollowsReservation(digest: Content -> Text, f: Floor, steps: seq<Step>, commit: Step)
    requires Valid(digest, f) && Run(digest, f, steps).Some? && commit.CommitStep?
    requires Apply(digest, Run(digest, f, steps).value, commit).Some?
    ensures Some(commit.txId) == LatestReservation(f.c.lastReservationTx, steps)
    ensures commit.generation == f.c.committed + Commits(steps) + 1 == f.c.reserved + Reservations(steps)
  {
    hide Valid, Apply, Run;
    RunCounts(digest, f, steps);
    StepCounts(digest, Run(digest, f, steps).value, commit);
  }

  // ---------------------------------------------------------------------- liveness

  /** The evidence of the last commit is complete: both parts or neither. */
  predicate Paired(f: Floor) {
    f.c.lastCommittedTx.None? <==> f.c.lastAttestation.None?
  }

  /** Nothing can be attested or committed any more. */
  predicate Stuck(f: Floor) {
    || f.c.reserved >= f.c.committed + 2
    || (f.c.phase != Attested && !Paired(f))
    || (f.c.reserved == f.c.committed && f.c.reserved == MAX_SAFE_INTEGER)
  }

  /** A stuck floor stays stuck: its runs only reserve. */
  lemma {:induction false} StuckIsFinal(digest: Content -> Text, f: Floor, steps: seq<Step>)
    requires Valid(digest, f) && Stuck(f) && Run(digest, f, steps).Some?
    ensures forall i | 0 <= i < |steps| :: steps[i].ReserveStep?
    ensures Run(digest, f, steps).value.c.committed == f.c.committed
    decreases |steps|
  {
    hide Hex64, Opaque;
    if steps != [] {
      StepCounts(digest, f, steps[0]);
      assert steps[0].ReserveStep?;
      assert Stuck(Apply(digest, f, steps[0]).value);
      hide Valid, Apply;
      StuckIsFinal(digest, Apply(digest, f, steps[0]).value, steps[1..]);
      assert forall i | 1 <= i < |steps| :: steps[i] == steps[1..][i - 1];
    }
  }

  /** Once two reservations are open, nothing can be attested or committed ever again. */
  lemma GapIsFinal(digest: Content -> Text, f: Floor, before: seq<Step>, after: seq<Step>)
    requires Valid(digest, f) && Run(digest, f, before).Some?
    requires f.c.reserved + Reservations(before) >= f.c.committed + Commits(before) + 2
    requires Run(digest, Run(digest, f, before).value, after).Some?
    ensures forall i | 0 <= i < |after| :: after[i].ReserveStep?
  {
    hide Valid, Run;
    RunCounts(digest, f, before);
    StuckIsFinal(digest, Run(digest, f, before).value, after);
  }

  /** Steps that take a floor to a commit. */
  function Finish(f: Floor, txId: Text, proof: Text, attestation: Text): seq<Step> {
    var c := f.c;
    if c.phase == Attested && c.lastReservationTx.Some? then [CommitStep(c.reserved, c.lastReservationTx.value, attestation, c.fence)]
    else if c.reserved == c.committed then
      [ReserveStep(c.reserved + 1, txId, c.fence), AttestStep(proof), CommitStep(c.reserved + 1, txId, attestation, c.fence)]
    else if c.lastReservationTx.Some? then
      [AttestStep(proof), CommitStep(c.reserved, c.lastReservationTx.value, attestation, c.fence)]
    else []
  }

  /** A floor can still commit exactly when it is not stuck. */
  lemma CommitReachable(digest: Content -> Text, f: Floor, txId: Text, proof: Text, attestation: Text)
    requires Hexadecimal(digest) && Valid(digest, f) && Opaque(txId) && Hex64(proof) && Hex64(attestation)
    ensures !Stuck(f) <==> exists steps :: Run(digest, f, steps).Some? && Commits(steps) > 0
  {
    hide Run, Commits, Valid, Stuck;
    if !Stuck(f) {
      FinishRuns(digest, f, txId, proof, attestation);
    } else {
      forall steps | Run(digest, f, steps).Some? ensures Commits(steps) == 0 {
        StuckIsFinal(digest, f, steps);
        RunCounts(digest, f, steps);
      }
    }
  }

  lemma FinishRuns(digest: Content -> Text, f: Floor, txId: Text, proof: Text, attestation: Text)
    requires Hexadecimal(digest) && Valid(digest, f) && !Stuck(f) && Opaque(txId) && Hex64(proof) && Hex64(attestation)
    ensures var steps := Finish(f, txId, proof, attestation);
            Run(digest, f, steps).Some? && Commits(steps) == 1
  {
    hide Hex64, Opaque, Run, Commits;
    var c := f.c;
    if c.phase == Attested {
      var commit := CommitStep(c.reserved, c.lastReservationTx.value, attestation, c.fence);
      OneStep(digest, f, commit, []);
      assert [commit] + [] == [commit];
    } else if c.reserved == c.committed {
      var a := ReserveStep(c.reserved + 1, txId, c.fence);
      FinishReserved(digest, Apply(digest, f, a).value, proof, attestation);
      var rest := [AttestStep(proof), CommitStep(c.reserved + 1, txId, attestation, c.fence)];
      OneStep(digest, f, a, rest);
      assert [a] + rest == Finish(f, txId, proof, attestation);
    } else {
      FinishReserved(digest, f, proof, attestation);
    }
  }

  lemma FinishReserved(digest: Content -> Text, f: Floor, proof: Text, attestation: Text)
    requires Hexadecimal(digest) && ValidReservation(digest, f) && Hex64(proof) && Hex64(attestation)
    ensures var steps := [AttestStep(proof), CommitStep(f.c.reserved, f.c.lastReservationTx.value, attestation, f.c.fence)];
            Run(digest, f, steps).Some? && Commits(steps) == 1
  {
    hide Hex64, Opaque, Run, Commits;
    var commit := CommitStep(f.c.reserved, f.c.lastReservationTx.value, attestation, f.c.fence);
    OneStep(digest, Apply(digest, f, AttestStep(proof)).value, commit, []);
    assert [commit] + [] == [commit];
    OneStep(digest, f, AttestStep(proof), [commit]);
    assert [AttestStep(proof)] + [commit] == [AttestStep(proof), commit];
  }

  lemma OneStep(digest: Content -> Text, f: Floor, step: Step, rest: seq<Step>)
    requires Apply(digest, f, step).Some?
    ensures Run(digest, f, [step] + rest) == Run(digest, Apply(digest, f, step).value, rest)
    ensures Commits([step] + rest) == Commits(rest) + (if step.CommitStep? then 1 else 0)
    ensures Run(digest, f, []) == Some(f) && Commits([]) == 0
    ensures Run(digest, Apply(digest, f, step).value, []).Some?
  {
    hide Apply;
    assert ([step] + rest)[1..] == rest;
  }
}
