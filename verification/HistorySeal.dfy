/** The managed-history marker and its seal: a walk from the marker back to sequence one. */
module HistorySeal {
  import opened Encoding
  import opened Records
  import opened Samples

  datatype Content = Content(anchor: Text, sequence: int, fence: int, previous: Option<Text>)
  datatype Marker = Marker(c: Content, fingerprint: Text)

  /** `validateManagedHistoryMarker`; an absent anchor or sequence is not compared. */
  predicate ValidMarker(digest: Content -> Text, m: Marker, anchor: Option<Text>, sequence: Option<int>) {
    && Hex64(m.c.anchor) && Positive(m.c.sequence) && Positive(m.c.fence)
    && (if m.c.sequence == 1 then m.c.previous.None? else m.c.previous.Some? && Hex64(m.c.previous.value))
    && (anchor.Some? ==> m.c.anchor == anchor.value)
    && (sequence.Some? ==> m.c.sequence == sequence.value)
    && Hex64(m.fingerprint) && m.fingerprint == digest(m.c)
  }

  // ------------------------------------------------------------------ the meaning

  /** `next` follows `m` in the history. */
  predicate Follows(m: Marker, next: Marker) {
    next.c.previous == Some(m.fingerprint) && next.c.sequence == m.c.sequence + 1 && next.c.fence == m.c.fence + 1
  }

  /** A history from the seal to the marker whose inner members all come from the list. */
  ghost predicate Chain(ch: seq<Marker>, seal: Marker, marker: Marker, predecessors: seq<Marker>) {
    && |ch| == marker.c.sequence && |ch| >= 2 && ch[0] == seal && ch[|ch| - 1] == marker
    && (forall i | 0 < i < |ch| :: Follows(ch[i - 1], ch[i]))
    && (forall i | 0 < i < |ch| - 1 :: ch[i] in predecessors)
  }

  ghost predicate Linked(seal: Marker, marker: Marker, predecessors: seq<Marker>) {
    exists ch :: Chain(ch, seal, marker, predecessors)
  }

  ghost predicate ValidList(digest: Content -> Text, anchor: Option<Text>, predecessors: seq<Marker>) {
    && (forall i | 0 <= i < |predecessors| :: ValidMarker(digest, predecessors[i], anchor, None))
    && (forall i, j | 0 <= i < j < |predecessors| :: predecessors[i].fingerprint != predecessors[j].fingerprint)
  }

  /** What the seal check promises. */
  ghost predicate Sealed(digest: Content -> Text, marker: Option<Marker>, seal: Option<Marker>, anchor: Option<Text>, predecessors: seq<Marker>) {
    && marker.Some? && seal.Some?
    && ValidMarker(digest, marker.value, anchor, None) && ValidMarker(digest, seal.value, anchor, Some(1))
    && if marker.value.c.sequence == 1
       then marker.value.fingerprint == seal.value.fingerprint && marker.value.c.fence == seal.value.c.fence
       else ValidList(digest, anchor, predecessors) && Linked(seal.value, marker.value, predecessors)
  }

  // ------------------------------------------------------------------ the program

  ghost predicate Indexes(byFingerprint: map<Text, Marker>, list: seq<Marker>) {
    && (forall i | 0 <= i < |list| :: list[i].fingerprint in byFingerprint && byFingerprint[list[i].fingerprint] == list[i])
    && (forall f | f in byFingerprint :: byFingerprint[f].fingerprint == f && byFingerprint[f] in list)
  }

  /** Fills the map; false when a predecessor is invalid or listed twice. */
  method IndexPredecessors(digest: Content -> Text, anchor: Option<Text>, predecessors: seq<Marker>) returns (ok: bool, byFingerprint: map<Text, Marker>)
    ensures ok == ValidList(digest, anchor, predecessors)
    ensures ok ==> Indexes(byFingerprint, predecessors)
  {
    hide ValidMarker;
    byFingerprint := map[];
    for n := 0 to |predecessors|
      invariant ValidList(digest, anchor, predecessors[..n])
      invariant Indexes(byFingerprint, predecessors[..n])
    {
      var p := predecessors[n];
      if !ValidMarker(digest, p, anchor, None) {
        return false, byFingerprint;
      }
      if p.fingerprint in byFingerprint {
        assert byFingerprint[p.fingerprint] in predecessors[..n];
        return false, byFingerprint;
      }
      byFingerprint := byFingerprint[p.fingerprint := p];
      assert predecessors[..n + 1] == predecessors[..n] + [p];
    }
    assert predecessors[..|predecessors|] == predecessors;
    ok := true;
  }

  /** Every chain ends with what the walk has seen. */
  ghost predicate Forced(seal: Marker, marker: Marker, predecessors: seq<Marker>, at: nat, tail: seq<Marker>) {
    forall ch {:trigger Chain(ch, seal, marker, predecessors)} | Chain(ch, seal, marker, predecessors) :: at <= |ch| && ch[at..] == tail
  }

  /** What the walk has seen is the end of a chain. */
  ghost predicate ChainEnd(seal: Marker, marker: Marker, predecessors: seq<Marker>, at: nat, tail: seq<Marker>) {
    && at + |tail| == marker.c.sequence && tail != [] && tail[|tail| - 1] == marker
    && tail[0].c.sequence == at + 1
    && (forall i | 0 < i < |tail| :: Follows(tail[i - 1], tail[i]))
    && (forall i | 0 < at + i < marker.c.sequence - 1 && 0 <= i < |tail| :: tail[i] in predecessors)
    && (at == 0 ==> tail[0] == seal)
  }

  /** `validateManagedHistoryMarkerSeal`. */
  method ValidateSeal(digest: Content -> Text, marker: Option<Marker>, seal: Option<Marker>, anchor: Option<Text>, predecessors: seq<Marker>) returns (ok: bool)
    ensures ok == Sealed(digest, marker, seal, anchor, predecessors)
  {
    if marker.None? || seal.None? || !ValidMarker(digest, marker.value, anchor, None) || !ValidMarker(digest, seal.value, anchor, Some(1)) {
      return false;
    }
    if marker.value.c.sequence == 1 {
      return marker.value.fingerprint == seal.value.fingerprint && marker.value.c.fence == seal.value.c.fence;
    }
    hide ValidList, Linked, ValidMarker;
    var listed, byFingerprint := IndexPredecessors(digest, anchor, predecessors);
    if !listed {
      return false;
    }
    ok := Walk(marker.value, seal.value, predecessors, byFingerprint);
  }

  method Walk(marker: Marker, seal: Marker, predecessors: seq<Marker>, byFingerprint: map<Text, Marker>) returns (ok: bool)
    requires marker.c.sequence >= 2 && seal.c.sequence == 1 && Indexes(byFingerprint, predecessors)
    requires marker.c.previous.Some?
    ensures ok == Linked(seal, marker, predecessors)
  {
    var cursor := marker;
    var sequence := marker.c.sequence - 1;
    ghost var tail := [marker];
    WalkStarts(marker, seal, predecessors);
    hide Forced, ChainEnd, Indexes, Linked;
    while sequence >= 1
      invariant 0 <= sequence < marker.c.sequence
      invariant tail != [] && tail[0] == cursor
      invariant Forced(seal, marker, predecessors, sequence, tail)
      invariant ChainEnd(seal, marker, predecessors, sequence, tail)
    {
      var predecessor :=
        if sequence == 1 then Some(seal)
        else if cursor.c.previous.Some? && cursor.c.previous.value in byFingerprint then Some(byFingerprint[cursor.c.previous.value])
        else None;
      if predecessor.None? || predecessor.value.c.sequence != sequence
         || cursor.c.previous != Some(predecessor.value.fingerprint)
         || cursor.c.fence != predecessor.value.c.fence + 1
      {
        WalkStuck(seal, marker, predecessors, byFingerprint, sequence, tail, predecessor);
        return false;
      }
      WalkStep(seal, marker, predecessors, byFingerprint, sequence, tail, predecessor.value);
      cursor := predecessor.value;
      tail := [cursor] + tail;
      sequence := sequence - 1;
    }
    WalkEnds(seal, marker, predecessors, tail);
    return true;
  }

  lemma WalkStarts(marker: Marker, seal: Marker, predecessors: seq<Marker>)
    requires marker.c.sequence >= 2
    ensures Forced(seal, marker, predecessors, marker.c.sequence - 1, [marker])
    ensures ChainEnd(seal, marker, predecessors, marker.c.sequence - 1, [marker])
  {}

  /** In any chain the element before the walk is the one the walk looks up. */
  lemma LooksUp(ch: seq<Marker>, seal: Marker, marker: Marker, predecessors: seq<Marker>, byFingerprint: map<Text, Marker>, at: nat)
    requires Chain(ch, seal, marker, predecessors) && Indexes(byFingerprint, predecessors) && 1 <= at < |ch|
    ensures Follows(ch[at - 1], ch[at])
    ensures if at == 1 then ch[at - 1] == seal else ch[at - 1].fingerprint in byFingerprint && byFingerprint[ch[at - 1].fingerprint] == ch[at - 1]
  {
    if at > 1 { assert ch[at - 1] in predecessors; }
  }

  lemma WalkStuck(seal: Marker, marker: Marker, predecessors: seq<Marker>, byFingerprint: map<Text, Marker>, at: nat, tail: seq<Marker>, p: Option<Marker>)
    requires Indexes(byFingerprint, predecessors) && 1 <= at < marker.c.sequence && tail != []
    requires Forced(seal, marker, predecessors, at, tail) && ChainEnd(seal, marker, predecessors, at, tail)
    requires var previous := tail[0].c.previous;
             p == if at == 1 then Some(seal)
                  else if previous.Some? && previous.value in byFingerprint then Some(byFingerprint[previous.value])
                  else None
    requires p.None? || p.value.c.sequence != at || tail[0].c.previous != Some(p.value.fingerprint) || tail[0].c.fence != p.value.c.fence + 1
    ensures !Linked(seal, marker, predecessors)
  {
    hide Indexes;
    if ch :| Chain(ch, seal, marker, predecessors) {
      assert ch[at..] == tail;
      assert ch[at] == tail[0];
      LooksUp(ch, seal, marker, predecessors, byFingerprint, at);
      assert false;
    }
  }

  lemma WalkStep(seal: Marker, marker: Marker, predecessors: seq<Marker>, byFingerprint: map<Text, Marker>, at: nat, tail: seq<Marker>, p: Marker)
    requires Indexes(byFingerprint, predecessors) && 1 <= at < marker.c.sequence && tail != []
    requires Forced(seal, marker, predecessors, at, tail) && ChainEnd(seal, marker, predecessors, at, tail)
    requires if at == 1 then p == seal
             else tail[0].c.previous.Some? && tail[0].c.previous.value in byFingerprint && p == byFingerprint[tail[0].c.previous.value]
    requires Follows(p, tail[0])
    ensures Forced(seal, marker, predecessors, at - 1, [p] + tail)
    ensures ChainEnd(seal, marker, predecessors, at - 1, [p] + tail)
  {
    StepForced(seal, marker, predecessors, byFingerprint, at, tail, p);
    hide Forced;
    var t := [p] + tail;
    assert at > 1 ==> p in predecessors;
    forall i | 0 < i < |t| ensures Follows(t[i - 1], t[i]) {
      assert i > 1 ==> t[i - 1] == tail[i - 2];
    }
    forall i | 0 < at - 1 + i < marker.c.sequence - 1 && 0 <= i < |t| ensures t[i] in predecessors {
      assert i > 0 ==> t[i] == tail[i - 1];
    }
    assert p.c.sequence + 1 == tail[0].c.sequence;
  }

  lemma StepForced(seal: Marker, marker: Marker, predecessors: seq<Marker>, byFingerprint: map<Text, Marker>, at: nat, tail: seq<Marker>, p: Marker)
    requires Indexes(byFingerprint, predecessors) && 1 <= at < marker.c.sequence && tail != []
    requires Forced(seal, marker, predecessors, at, tail)
    requires if at == 1 then p == seal
             else tail[0].c.previous.Some? && tail[0].c.previous.value in byFingerprint && p == byFingerprint[tail[0].c.previous.value]
    ensures Forced(seal, marker, predecessors, at - 1, [p] + tail)
  {
    hide Indexes, Chain;
    forall ch | Chain(ch, seal, marker, predecessors) ensures at - 1 <= |ch| && ch[at - 1..] == [p] + tail {
      assert ch[at..] == tail && ch[at] == tail[0];
      LooksUp(ch, seal, marker, predecessors, byFingerprint, at);
      assert ch[at - 1..] == [ch[at - 1]] + ch[at..];
    }
  }

  lemma WalkEnds(seal: Marker, marker: Marker, predecessors: seq<Marker>, tail: seq<Marker>)
    requires marker.c.sequence >= 2 && ChainEnd(seal, marker, predecessors, 0, tail)
    ensures Linked(seal, marker, predecessors)
  {
    assert Chain(tail, seal, marker, predecessors);
  }

  // -------------------------------------------------------------- what it amounts to

  lemma {:induction false} ChainCounts(ch: seq<Marker>, seal: Marker, marker: Marker, predecessors: seq<Marker>, i: nat)
    requires Chain(ch, seal, marker, predecessors) && i < |ch|
    ensures ch[i].c.sequence == seal.c.sequence + i && ch[i].c.fence == seal.c.fence + i
    decreases i
  {
    if i > 0 {
      ChainCounts(ch, seal, marker, predecessors, i - 1);
      assert Follows(ch[i - 1], ch[i]);
    }
  }

  /** A sealed marker's fence is exactly as far from the seal's as its sequence is from one. */
  lemma SealedFence(digest: Content -> Text, marker: Marker, seal: Marker, anchor: Option<Text>, predecessors: seq<Marker>)
    requires Sealed(digest, Some(marker), Some(seal), anchor, predecessors)
    ensures marker.c.fence == seal.c.fence + marker.c.sequence - 1
  {
    hide ValidList;
    if marker.c.sequence != 1 {
      var ch :| Chain(ch, seal, marker, predecessors);
      ChainCounts(ch, seal, marker, predecessors, |ch| - 1);
    }
  }

  /** Without predecessors only the seal itself or its direct successor is sealed. */
  lemma NoPredecessors(digest: Content -> Text, marker: Marker, seal: Marker, anchor: Option<Text>)
    requires ValidMarker(digest, marker, anchor, None) && ValidMarker(digest, seal, anchor, Some(1)) && marker.c.sequence != 1
    ensures Sealed(digest, Some(marker), Some(seal), anchor, []) <==> Follows(seal, marker)
    ensures Sealed(digest, Some(marker), Some(seal), anchor, []) ==> marker.c.sequence == 2
  {
    if Linked(seal, marker, []) {
      var ch :| Chain(ch, seal, marker, []);
      var inner := ch[1];
      assert |ch| == 2;
      assert Follows(ch[0], ch[1]);
    }
    if Follows(seal, marker) {
      assert Chain([seal, marker], seal, marker, []);
    }
  }

  /** Dropping the list from a sealed marker's check keeps it sealed exactly up to sequence two. */
  lemma SealedWithoutList(digest: Content -> Text, marker: Marker, seal: Marker, anchor: Option<Text>, predecessors: seq<Marker>)
    requires Sealed(digest, Some(marker), Some(seal), anchor, predecessors)
    ensures Sealed(digest, Some(marker), Some(seal), anchor, []) <==> marker.c.sequence <= 2
  {
    hide ValidMarker;
    if marker.c.sequence != 1 {
      var ch :| Chain(ch, seal, marker, predecessors);
      assert Follows(ch[0], ch[1]);
      NoPredecessors(digest, marker, seal, anchor);
    }
  }

  function Stamped(digest: Content -> Text, sequence: int, previous: Option<Text>): Marker {
    var c := Content(ZEROS, sequence, sequence, previous);
    Marker.Marker(c, digest(c))
  }

  /** Whatever the hash, there is a history of three that is sealed with its list and not without. */
  lemma ThirdNeedsItsList(digest: Content -> Text) returns (seal: Marker, middle: Marker, marker: Marker)
    requires Hexadecimal(digest)
    ensures marker.c.sequence == 3
    ensures Sealed(digest, Some(marker), Some(seal), Some(ZEROS), [middle])
    ensures !Sealed(digest, Some(marker), Some(seal), Some(ZEROS), [])
  {
    hide Hex64;
    seal := Stamped(digest, 1, None);
    middle := Stamped(digest, 2, Some(seal.fingerprint));
    marker := Stamped(digest, 3, Some(middle.fingerprint));
    assert ValidList(digest, Some(ZEROS), [middle]);
    assert Chain([seal, middle, marker], seal, marker, [middle]);
    SealedWithoutList(digest, marker, seal, Some(ZEROS), [middle]);
  }

  /** Marker number `n` of a history under one anchor, with fences from `fence` on. */
  function MarkerAt(digest: Content -> Text, anchor: Text, fence: int, n: nat): Marker
    requires n >= 1
  {
    var c := Content(anchor, n, fence + n - 1, if n == 1 then None else Some(MarkerAt(digest, anchor, fence, n - 1).fingerprint));
    Marker.Marker(c, digest(c))
  }

  /** The markers of that history from `from` up to, and without, `to`. */
  function MarkersFrom(digest: Content -> Text, anchor: Text, fence: int, from: nat, to: nat): (r: seq<Marker>)
    requires 1 <= from <= to
    ensures |r| == to - from && forall i | 0 <= i < |r| :: r[i] == MarkerAt(digest, anchor, fence, from + i)
  {
    seq(to - from, i requires 0 <= i < to - from => MarkerAt(digest, anchor, fence, from + i))
  }

  lemma MarkerAtValid(digest: Content -> Text, anchor: Text, fence: int, n: nat)
    requires Hexadecimal(digest) && Hex64(anchor) && n >= 1 && Countable(fence, n)
    ensures ValidMarker(digest, MarkerAt(digest, anchor, fence, n), Some(anchor), Some(n))
  {
    hide Hex64;
  }

  ghost predicate Distinct(list: seq<Marker>) {
    forall i, j | 0 <= i < j < |list| :: list[i].fingerprint != list[j].fingerprint
  }

  predicate Countable(fence: int, n: nat) {
    Positive(fence) && n <= MAX_SAFE_INTEGER && fence + n - 1 <= MAX_SAFE_INTEGER
  }

  /**
    * Histories under one anchor are sealed by their own inner markers at exactly the lengths that
    * sequences and fences can count, as long as the hash tells those markers apart.
    */
  lemma SealedOfEveryLength(digest: Content -> Text, anchor: Text, fence: int, n: nat)
    requires Hexadecimal(digest) && n >= 2
    ensures var list := MarkersFrom(digest, anchor, fence, 2, n);
            Sealed(digest, Some(MarkerAt(digest, anchor, fence, n)), Some(MarkerAt(digest, anchor, fence, 1)), Some(anchor), list) <==>
            Hex64(anchor) && Countable(fence, n) && Distinct(list)
  {
    var list := MarkersFrom(digest, anchor, fence, 2, n);
    ChainOfAll(digest, anchor, fence, n);
    if Hex64(anchor) && Countable(fence, n) {
      AllValid(digest, anchor, fence, n);
    } else {
      assert !ValidMarker(digest, MarkerAt(digest, anchor, fence, 1), Some(anchor), Some(1))
             || !ValidMarker(digest, MarkerAt(digest, anchor, fence, n), Some(anchor), None) by { hide Hex64; }
    }
    hide ValidMarker, Hex64, Hexadecimal, MarkerAt, Linked;
    assert Hex64(anchor) && Countable(fence, n) ==> (ValidList(digest, Some(anchor), list) <==> Distinct(list));
  }

  lemma ChainOfAll(digest: Content -> Text, anchor: Text, fence: int, n: nat)
    requires n >= 2
    ensures Linked(MarkerAt(digest, anchor, fence, 1), MarkerAt(digest, anchor, fence, n), MarkersFrom(digest, anchor, fence, 2, n))
    ensures MarkerAt(digest, anchor, fence, n).c.sequence == n
  {
    var list := MarkersFrom(digest, anchor, fence, 2, n);
    var ch := MarkersFrom(digest, anchor, fence, 1, n + 1);
    assert MarkerAt(digest, anchor, fence, n).c.sequence == n;
    forall i | 0 < i < |ch| ensures Follows(ch[i - 1], ch[i]) {
      assert ch[i - 1] == MarkerAt(digest, anchor, fence, i) && ch[i] == MarkerAt(digest, anchor, fence, i + 1);
    }
    hide MarkerAt, Follows;
    forall i | 0 < i < |ch| - 1 ensures ch[i] in list {
      assert ch[i] == list[i - 1];
    }
    assert Chain(ch, MarkerAt(digest, anchor, fence, 1), MarkerAt(digest, anchor, fence, n), list);
  }

  lemma AllValid(digest: Content -> Text, anchor: Text, fence: int, n: nat)
    requires Hexadecimal(digest) && Hex64(anchor) && n >= 2 && Countable(fence, n)
    ensures forall i | 2 <= i <= n :: ValidMarker(digest, MarkerAt(digest, anchor, fence, i), Some(anchor), None)
    ensures ValidMarker(digest, MarkerAt(digest, anchor, fence, 1), Some(anchor), Some(1))
  {
    MarkerAtValid(digest, anchor, fence, 1);
    forall i | 2 <= i <= n ensures ValidMarker(digest, MarkerAt(digest, anchor, fence, i), Some(anchor), None) {
      MarkerAtValid(digest, anchor, fence, i);
      Unnumbered(digest, MarkerAt(digest, anchor, fence, i), Some(anchor), i);
    }
  }

  lemma Unnumbered(digest: Content -> Text, m: Marker, anchor: Option<Text>, n: int)
    requires ValidMarker(digest, m, anchor, Some(n))
    ensures ValidMarker(digest, m, anchor, None) && m.c.sequence == n
  {
    hide Hex64;
  }

  /** A marker that can stand between the seal and the marker. */
  predicate Relevant(m: Marker, seal: Marker, marker: Marker) {
    1 < m.c.sequence < marker.c.sequence && m.c.fence == seal.c.fence + m.c.sequence - 1
  }

  /** Only the relevant members of the list matter, not their order and not the rest. */
  lemma ListOrderAndExtrasIrrelevant(digest: Content -> Text, marker: Marker, seal: Marker, anchor: Option<Text>, a: seq<Marker>, b: seq<Marker>)
    requires ValidList(digest, anchor, a) && ValidList(digest, anchor, b)
    requires forall m | Relevant(m, seal, marker) :: m in a <==> m in b
    ensures Sealed(digest, Some(marker), Some(seal), anchor, a) <==> Sealed(digest, Some(marker), Some(seal), anchor, b)
  {
    hide ValidList;
    if ValidMarker(digest, seal, anchor, Some(1)) && marker.c.sequence != 1 {
      hide ValidMarker;
      if Linked(seal, marker, a) { Relist(seal, marker, a, b); }
      if Linked(seal, marker, b) { Relist(seal, marker, b, a); }
    }
  }

  lemma Relist(seal: Marker, marker: Marker, a: seq<Marker>, b: seq<Marker>)
    requires seal.c.sequence == 1 && Linked(seal, marker, a)
    requires forall m | Relevant(m, seal, marker) && m in a :: m in b
    ensures Linked(seal, marker, b)
  {
    var ch :| Chain(ch, seal, marker, a);
    forall i | 0 < i < |ch| - 1 ensures ch[i] in b {
      ChainCounts(ch, seal, marker, a, i);
      assert ch[i] in a;
      assert Relevant(ch[i], seal, marker);
    }
    assert Chain(ch, seal, marker, b);
  }

  /** One marker has one history, whichever lists it was checked against. */
  lemma UniqueChain(digest: Content -> Text, marker: Marker, seal: Marker, other: Marker, a: seq<Marker>, b: seq<Marker>, ch: seq<Marker>, dh: seq<Marker>)
    requires Chain(ch, seal, marker, a) && Chain(dh, other, marker, b)
    requires forall i | 0 <= i < |ch| :: ch[i].fingerprint == digest(ch[i].c)
    requires forall i | 0 <= i < |dh| :: dh[i].fingerprint == digest(dh[i].c)
    requires forall i, j | 0 <= i < |ch| && 0 <= j < |dh| :: NoCollision(digest, ch[i].c, dh[j].c)
    ensures ch == dh
  {
    var n := |ch|;
    for k := 1 to n
      invariant ch[n - k..] == dh[n - k..]
    {
      var i := n - k;
      assert ch[i] == ch[i..][0] == dh[i..][0] == dh[i];
      assert Follows(ch[i - 1], ch[i]) && Follows(dh[i - 1], dh[i]);
      assert NoCollision(digest, ch[i - 1].c, dh[i - 1].c);
      assert ch[i - 1..] == [ch[i - 1]] + ch[i..] && dh[i - 1..] == [dh[i - 1]] + dh[i..];
    }
    assert ch[0..] == ch && dh[0..] == dh;
  }
}
