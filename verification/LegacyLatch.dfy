/** When the bot may still route by the legacy channel map, and when never again. */
module LegacyLatch {
  import opened Encoding
  import opened Records

  type Bytes = seq<Byte>

  // -------------------------------------------------------------- the file system

  /** What makes two looks at a file the same file, unchanged. */
  datatype Stat = Stat(dev: int, ino: int, size: int, mtime: int, ctime: int)

  /** One path at one moment; `bytes` is what reading it gives, if it can be read. */
  datatype Node = Missing | Unreadable | Present(stat: Stat, regular: bool, bytes: Option<Bytes>)

  datatype Fs = Fs(target: Node, controlDirectory: Node, controlRoot: Node, historyMarker: Node, blocker: Node)

  /** The file system over time: every call sees it at its own moment. */
  type World = nat -> Fs

  /** Which of the two later marker paths are configured. */
  datatype Options = Options(history: bool, blocker: bool)

  datatype Fence = Fence(generation: Text, target: Stat)

  datatype Read = Threw | Marked(history: bool, blocker: Option<bool>) | Clean(bytes: Bytes, fence: Fence)

  predicate Exists(n: Node) { n.Present? }

  /** The four marker probes, at four moments; an inspection error fails them all. */
  datatype Probes = Failed | Probed(directory: bool, root: bool, history: bool, blocker: bool) {
    predicate Any() { Probed? && (directory || root || history || blocker) }
  }

  function ProbeMarkers(w: World, at: nat, o: Options): Probes {
    if w(at).controlDirectory.Unreadable? || w(at + 1).controlRoot.Unreadable? then Failed
    else if o.history && w(at + 2).historyMarker.Unreadable? then Failed
    else if o.blocker && w(at + 3).blocker.Unreadable? then Failed
    else Probed(
      Exists(w(at).controlDirectory), Exists(w(at + 1).controlRoot),
      o.history && Exists(w(at + 2).historyMarker), o.blocker && Exists(w(at + 3).blocker))
  }

  /** No configured marker exists, at the moment each is looked at. */
  predicate Unmarked(w: World, at: nat, o: Options) {
    && w(at).controlDirectory.Missing? && w(at + 1).controlRoot.Missing?
    && (o.history ==> w(at + 2).historyMarker.Missing?) && (o.blocker ==> w(at + 3).blocker.Missing?)
  }

  /** What `readLegacyV0SourceSnapshot` returns when its calls start at moment `at`. */
  function ReadAt(w: World, at: nat, o: Options, hash: Bytes -> Text): Read {
    var before := ProbeMarkers(w, at, o);
    if before.Failed? then Threw
    else if before.Any() then Marked(before.history, if o.blocker then Some(before.blocker) else None)
    else
      var beforeTarget, read, afterTarget := w(at + 4).target, w(at + 5).target, w(at + 6).target;
      if !beforeTarget.Present? || !beforeTarget.regular || !read.Present? || read.bytes.None? || !afterTarget.Present? then Threw
      else
        var after := ProbeMarkers(w, at + 7, o);
        if after.Failed? || after.Any() || beforeTarget.stat != afterTarget.stat then Threw
        else Clean(read.bytes.value, Fence.Fence(hash(read.bytes.value), afterTarget.stat))
  }

  /** A verified read: the markers were absent on both sides of it, and the file did not change under it. */
  lemma CleanRead(w: World, at: nat, o: Options, hash: Bytes -> Text)
    ensures ReadAt(w, at, o, hash).Clean? <==>
              && Unmarked(w, at, o) && Unmarked(w, at + 7, o)
              && w(at + 4).target.Present? && w(at + 4).target.regular && w(at + 6).target.Present?
              && w(at + 4).target.stat == w(at + 6).target.stat
              && w(at + 5).target.Present? && w(at + 5).target.bytes.Some?
    ensures ReadAt(w, at, o, hash).Clean? ==>
              var r := ReadAt(w, at, o, hash);
              && w(at + 5).target.bytes == Some(r.bytes)
              && r.fence == Fence.Fence(hash(r.bytes), w(at + 6).target.stat)
  {}

  /** Some configured marker exists at the moment it is looked at. */
  predicate MarkedAt(w: World, at: nat, o: Options) {
    || w(at).controlDirectory.Present? || w(at + 1).controlRoot.Present?
    || (o.history && w(at + 2).historyMarker.Present?) || (o.blocker && w(at + 3).blocker.Present?)
  }

  predicate Inspectable(w: World, at: nat, o: Options) {
    && !w(at).controlDirectory.Unreadable? && !w(at + 1).controlRoot.Unreadable?
    && (o.history ==> !w(at + 2).historyMarker.Unreadable?) && (o.blocker ==> !w(at + 3).blocker.Unreadable?)
  }

  /** A read reports a marker exactly when one stands before it; one that comes up during it is an error. */
  lemma MarkedRead(w: World, at: nat, o: Options, hash: Bytes -> Text)
    ensures ReadAt(w, at, o, hash).Marked? <==> Inspectable(w, at, o) && MarkedAt(w, at, o)
    ensures ReadAt(w, at, o, hash).Marked? ==> ReadAt(w, at, o, hash).history == (o.history && w(at + 2).historyMarker.Present?)
    ensures ReadAt(w, at, o, hash).Marked? ==> (ReadAt(w, at, o, hash).blocker == Some(true) <==> o.blocker && w(at + 3).blocker.Present?)
    ensures Unmarked(w, at, o) && (MarkedAt(w, at + 7, o) || !Inspectable(w, at + 7, o)) ==> ReadAt(w, at, o, hash).Threw?
  {}

  // --------------------------------------------------------------------- the latch

  /** A mapping snapshot, from the legacy reader or from the managed one. */
  datatype Snapshot = Snapshot(
    managementMarker: bool, historyMarker: bool, sidecar: bool, blocker: bool, genesisProbe: bool, nativeVerified: bool,
    controlRoot: Option<Bytes>, controlRootAbsent: bool, legacyVerified: bool, legacyFence: Option<Fence>, target: Bytes)

  predicate ShowsManaged(s: Snapshot) {
    s.managementMarker || s.historyMarker || s.sidecar || s.blocker || s.genesisProbe || s.nativeVerified || s.controlRoot.Some?
  }

  function AsSnapshot(r: Read): Option<Snapshot> {
    match r
    case Threw => None
    case Marked(h, b) => Some(Snapshot(true, h, false, b == Some(true), false, false, None, false, false, None, []))
    case Clean(bytes, fence) => Some(Snapshot(false, false, false, false, false, false, None, true, true, Some(fence), bytes))
  }

  class AuthoritySelection {
    var observed: bool

    constructor ()
      ensures !observed
    {
      observed := false;
    }

    /** Once true, always true. */
    method Observe(s: Option<Snapshot>) returns (r: bool)
      modifies this
      ensures observed == (old(observed) || (s.Some? && ShowsManaged(s.value))) && r == observed
    {
      if s.Some? && ShowsManaged(s.value) {
        observed := true;
      }
      return observed;
    }
  }

  // ------------------------------------------------------------------------- loads

  datatype Route = Route(hostId: Text, workDir: Text)
  type Routes = map<Text, Route>

  datatype Source = LegacyV0(fence: Option<Fence>) | ManagedV1 | LegacyRetained | Unavailable

  /** `source` is absent when the load failed and the current map stays. */
  datatype Loaded = Loaded(ok: bool, routes: Routes, source: Option<Source>)

  datatype Kind = ManagedKind | RetainedKind

  /** The parsers: of a legacy map, of strict legacy bytes, of a managed envelope and of its routes. */
  datatype Parsers = Parsers(
    legacy: Bytes -> Option<Routes>, strictLegacy: Bytes -> bool, envelope: Snapshot -> Option<Kind>, project: Snapshot -> Option<Routes>)

  const NO_ROUTE := Loaded(false, map[], Some(Unavailable))

  function LoadManaged(ps: Parsers, s: Snapshot): Loaded {
    if s.controlRoot.Some? then
      match ps.envelope(s)
      case None => NO_ROUTE
      case Some(ManagedKind) =>
        (match ps.project(s)
         case None => NO_ROUTE
         case Some(routes) => Loaded(true, routes, Some(ManagedV1)))
      case Some(RetainedKind) => Loaded(true, map[], Some(LegacyRetained))
    else if ps.strictLegacy(s.target) then Loaded(true, map[], Some(LegacyV0(None)))
    else NO_ROUTE
  }

  /** `loadManagedChannelMapState`, given what the latch said before; the second part is what it says after. */
  function Load(ps: Parsers, observed: bool, current: Routes, got: Option<Snapshot>): (Loaded, bool) {
    match got
    case None => (Loaded(false, current, None), observed)
    case Some(s) =>
      var latched := observed || ShowsManaged(s);
      if s.controlRootAbsent && !latched then
        if !s.legacyVerified || s.legacyFence.None? then (NO_ROUTE, latched)
        else
          match ps.legacy(s.target)
          case None => (Loaded(false, current, None), latched)
          case Some(routes) => (Loaded(true, routes, Some(LegacyV0(s.legacyFence))), latched)
      else if s.controlRootAbsent || !s.nativeVerified then (NO_ROUTE, latched)
      else (LoadManaged(ps, s), latched)
  }

  method LoadMapping(ps: Parsers, selection: AuthoritySelection, current: Routes, got: Option<Snapshot>) returns (r: Loaded)
    modifies selection
    ensures (r, selection.observed) == Load(ps, old(selection.observed), current, got)
  {
    hide LoadManaged;
    if got.None? {
      return Loaded(false, current, None);
    }
    var s := got.value;
    var present := selection.Observe(got);
    if s.controlRootAbsent && !present {
      if !s.legacyVerified || s.legacyFence.None? {
        return NO_ROUTE;
      }
      var next := ps.legacy(s.target);
      if next.None? {
        return Loaded(false, current, None);
      }
      return Loaded(true, next.value, Some(LegacyV0(s.legacyFence)));
    }
    if s.controlRootAbsent || !s.nativeVerified {
      return NO_ROUTE;
    }
    return LoadManaged(ps, s);
  }

  // -------------------------------------------------------------------------- runs

  /** What the bot keeps between loads. */
  datatype Bot = Bot(observed: bool, routes: Routes, mapping: Source)

  const STARTUP := Bot(false, map[], Unavailable)

  function AfterLoad(ps: Parsers, b: Bot, got: Option<Snapshot>): Bot {
    var (r, observed) := Load(ps, b.observed, b.routes, got);
    Bot(observed, r.routes, if r.source.Some? then r.source.value else Unavailable)
  }

  function Run(ps: Parsers, b: Bot, loads: seq<Option<Snapshot>>): Bot {
    if loads == [] then b else AfterLoad(ps, Run(ps, b, loads[..|loads| - 1]), loads[|loads| - 1])
  }

  ghost predicate EverManaged(loads: seq<Option<Snapshot>>) {
    exists i :: 0 <= i < |loads| && loads[i].Some? && ShowsManaged(loads[i].value)
  }

  /** A legacy map with a fence is in force only while the latch is open. */
  predicate Guarded(b: Bot) {
    b.observed && b.mapping.LegacyV0? ==> b.mapping.fence.None? && b.routes == map[]
  }

  /** Over any run of loads the latch is exactly the memory of a managed marker, and the map is guarded. */
  lemma {:induction false} LatchRun(ps: Parsers, loads: seq<Option<Snapshot>>)
    ensures Run(ps, STARTUP, loads).observed <==> EverManaged(loads)
    ensures Guarded(Run(ps, STARTUP, loads))
  {
    hide ShowsManaged;
    if loads != [] {
      var n := |loads| - 1;
      LatchRun(ps, loads[..n]);
      assert EverManaged(loads) <==> EverManaged(loads[..n]) || (loads[n].Some? && ShowsManaged(loads[n].value)) by {
        if EverManaged(loads) {
          var i :| 0 <= i < |loads| && loads[i].Some? && ShowsManaged(loads[i].value);
          assert i < n ==> loads[..n][i] == loads[i];
        }
        if EverManaged(loads[..n]) {
          var i :| 0 <= i < n && loads[..n][i].Some? && ShowsManaged(loads[..n][i].value);
          assert loads[i] == loads[..n][i];
        }
      }
    }
  }

  /**
    * A latched load can still call its source legacy-v0, in exactly one case: a natively
    * verified snapshot without control-root bytes whose target is a strict legacy map.
    * Then it has no fence and no routes.
    */
  lemma LegacyAfterLatch(ps: Parsers, current: Routes, s: Snapshot)
    ensures var r := Load(ps, true, current, Some(s)).0;
            && (r.source.Some? && r.source.value.LegacyV0? <==>
                 s.nativeVerified && !s.controlRootAbsent && s.controlRoot.None? && ps.strictLegacy(s.target))
            && (r.source.Some? && r.source.value.LegacyV0? ==> r.source.value.fence.None? && r.routes == map[])
  {}

  /** One such snapshot, for any strict legacy target. */
  lemma LatchedYetLegacy(ps: Parsers, current: Routes, target: Bytes)
    requires ps.strictLegacy(target)
    ensures var s := Snapshot(false, false, false, false, false, true, None, false, false, None, target);
            ShowsManaged(s) && Load(ps, false, current, Some(s)) == (Loaded(true, map[], Some(LegacyV0(None))), true)
  {}

  // ---------------------------------------------------------------------- dispatch

  datatype Dispatch = Unmapped | Blocked | Ready(route: Route)

  /** `verifyLegacyV0SourceFence`. */
  predicate FenceHolds(w: World, at: nat, o: Options, hash: Bytes -> Text, expected: Option<Fence>) {
    var r := ReadAt(w, at, o, hash);
    r.Clean? && Some(r.fence) == expected
  }

  /** `resolveDispatchRoute` with the re-read that starts at moment `at`. */
  function Resolve(b: Bot, channel: Text, w: World, at: nat, o: Options, hash: Bytes -> Text): Dispatch {
    if channel !in b.routes then Unmapped
    else if b.mapping.LegacyV0? && FenceHolds(w, at, o, hash, b.mapping.fence) then Ready(b.routes[channel])
    else Blocked
  }

  /** Legacy snapshots come from the legacy reader. */
  ghost predicate FromReader(w: World, o: Options, hash: Bytes -> Text, got: Option<Snapshot>) {
    got.Some? && got.value.legacyFence.Some? ==> exists at: nat :: got == AsSnapshot(ReadAt(w, at, o, hash))
  }

  /** What a fenced legacy mapping was made from. */
  lemma FencedLoad(ps: Parsers, b: Bot, got: Option<Snapshot>, w: World, o: Options, hash: Bytes -> Text) returns (from: nat)
    requires FromReader(w, o, hash, got)
    requires var n := AfterLoad(ps, b, got); n.mapping.LegacyV0? && n.mapping.fence.Some?
    ensures var n, r := AfterLoad(ps, b, got), ReadAt(w, from, o, hash);
            !n.observed && r.Clean? && n.mapping.fence == Some(r.fence) && ps.legacy(r.bytes) == Some(n.routes)
  {
    hide ReadAt;
    from :| got == AsSnapshot(ReadAt(w, from, o, hash));
  }

  /** The channel map can be read at this moment. */
  predicate ReadableAt(w: World, at: nat) {
    w(at).target.Present? && w(at).target.bytes.Some?
  }

  /**
    * A route is ready only while no load has ever shown a managed marker; the file that the
    * fence re-reads holds the very bytes that the map was parsed from, and no configured marker
    * exists just before or just after that read.
    */
  lemma ReadyMeans(ps: Parsers, loads: seq<Option<Snapshot>>, channel: Text, w: World, at: nat, o: Options, hash: Bytes -> Text) returns (from: nat)
    requires forall i | 0 <= i < |loads| :: FromReader(w, o, hash, loads[i])
    requires Resolve(Run(ps, STARTUP, loads), channel, w, at, o, hash).Ready?
    requires forall i: nat, j: nat | ReadableAt(w, i) && ReadableAt(w, j) :: NoCollision(hash, w(i).target.bytes.value, w(j).target.bytes.value)
    ensures !EverManaged(loads)
    ensures Unmarked(w, at, o) && Unmarked(w, at + 7, o) && Unmarked(w, from, o) && Unmarked(w, from + 7, o)
    ensures ReadableAt(w, at + 5) && ReadableAt(w, from + 5) && w(at + 5).target.bytes == w(from + 5).target.bytes
    ensures ps.legacy(w(at + 5).target.bytes.value) == Some(Run(ps, STARTUP, loads).routes)
  {
    hide ReadAt, Unmarked, AfterLoad, EverManaged;
    var n := |loads| - 1;
    var bot := Run(ps, STARTUP, loads);
    LatchRun(ps, loads);
    CleanRead(w, at, o, hash);
    assert loads != [];
    from := FencedLoad(ps, Run(ps, STARTUP, loads[..n]), loads[n], w, o, hash);
    CleanRead(w, from, o, hash);
    assert ReadableAt(w, at + 5) && ReadableAt(w, from + 5);
  }

  /** A load makes a fenced legacy map exactly from an unlatched, verified snapshot without control root that parses. */
  lemma LegacyLoadExactly(ps: Parsers, observed: bool, current: Routes, got: Option<Snapshot>, f: Fence)
    ensures var r := Load(ps, observed, current, got).0;
            r.source == Some(LegacyV0(Some(f))) <==>
              && got.Some? && !observed && !ShowsManaged(got.value) && got.value.controlRootAbsent && got.value.legacyVerified
              && got.value.legacyFence == Some(f) && ps.legacy(got.value.target).Some?
    ensures var r := Load(ps, observed, current, got).0;
            r.source == Some(LegacyV0(Some(f))) ==> r.ok && Some(r.routes) == ps.legacy(got.value.target)
  {}

  /** A load makes a managed map exactly from a natively verified snapshot whose envelope and routes pass. */
  lemma ManagedLoadExactly(ps: Parsers, observed: bool, current: Routes, s: Snapshot)
    ensures var r := Load(ps, observed, current, Some(s)).0;
            r.source == Some(ManagedV1) <==>
              && s.nativeVerified && !s.controlRootAbsent && s.controlRoot.Some?
              && ps.envelope(s) == Some(ManagedKind) && ps.project(s).Some?
    ensures var r := Load(ps, observed, current, Some(s)).0;
            r.source == Some(ManagedV1) ==> r.ok && Some(r.routes) == ps.project(s)
  {}

  /** A failed or refused load leaves no route in force: the map may stay, but nothing is ready. */
  lemma FailedLoadBlocks(ps: Parsers, b: Bot, got: Option<Snapshot>, channel: Text, w: World, at: nat, o: Options, hash: Bytes -> Text)
    requires !Load(ps, b.observed, b.routes, got).0.ok
    ensures !Resolve(AfterLoad(ps, b, got), channel, w, at, o, hash).Ready?
  {
    hide ReadAt;
  }

  /**
    * A channel is ready exactly when a fenced legacy map is in force that has it, and the re-read
    * is clean and finds the very fence; the route is the map's.
    */
  lemma ReadyExactly(b: Bot, channel: Text, w: World, at: nat, o: Options, hash: Bytes -> Text, route: Route)
    ensures Resolve(b, channel, w, at, o, hash) == Ready(route) <==>
            && channel in b.routes && b.routes[channel] == route && b.mapping.LegacyV0? && b.mapping.fence.Some?
            && Unmarked(w, at, o) && Unmarked(w, at + 7, o) && w(at + 4).target.Present? && w(at + 4).target.regular
            && w(at + 6).target.Present? && w(at + 4).target.stat == w(at + 6).target.stat == b.mapping.fence.value.target
            && ReadableAt(w, at + 5) && hash(w(at + 5).target.bytes.value) == b.mapping.fence.value.generation
    ensures Resolve(b, channel, w, at, o, hash).Unmapped? <==> channel !in b.routes
  {
    hide ReadAt;
    CleanRead(w, at, o, hash);
  }

  /** After any run of loads, a ready route is the one that the bytes now on disk give the channel. */
  lemma RouteFromDisk(ps: Parsers, loads: seq<Option<Snapshot>>, channel: Text, w: World, at: nat, o: Options, hash: Bytes -> Text)
    requires forall i | 0 <= i < |loads| :: FromReader(w, o, hash, loads[i])
    requires Resolve(Run(ps, STARTUP, loads), channel, w, at, o, hash).Ready?
    requires forall i: nat, j: nat | ReadableAt(w, i) && ReadableAt(w, j) :: NoCollision(hash, w(i).target.bytes.value, w(j).target.bytes.value)
    ensures ReadableAt(w, at + 5)
    ensures var parsed := ps.legacy(w(at + 5).target.bytes.value);
            parsed.Some? && channel in parsed.value && Resolve(Run(ps, STARTUP, loads), channel, w, at, o, hash) == Ready(parsed.value[channel])
  {
    hide ReadAt, Run;
    var _ := ReadyMeans(ps, loads, channel, w, at, o, hash);
  }

  /** An unchanged file keeps a loaded legacy map ready: what was loaded cleanly is ready as long as nothing changes. */
  lemma UnchangedStaysReady(ps: Parsers, b: Bot, w: World, from: nat, at: nat, o: Options, hash: Bytes -> Text, channel: Text)
    requires !b.observed && ReadAt(w, from, o, hash).Clean? && ps.legacy(ReadAt(w, from, o, hash).bytes).Some?
    requires ReadAt(w, at, o, hash) == ReadAt(w, from, o, hash)
    requires channel in ps.legacy(ReadAt(w, from, o, hash).bytes).value
    ensures var n := AfterLoad(ps, b, AsSnapshot(ReadAt(w, from, o, hash)));
            Resolve(n, channel, w, at, o, hash) == Ready(ps.legacy(ReadAt(w, from, o, hash).bytes).value[channel])
  {
    hide ReadAt;
  }

  /** Once a marker was seen, no channel is ready ever again, whatever is on disk. */
  lemma NeverReadyAfterMarker(ps: Parsers, loads: seq<Option<Snapshot>>, channel: Text, w: World, at: nat, o: Options, hash: Bytes -> Text)
    requires EverManaged(loads)
    ensures !Resolve(Run(ps, STARTUP, loads), channel, w, at, o, hash).Ready?
  {
    hide ReadAt, EverManaged, Run;
    LatchRun(ps, loads);
  }
}
