/** The path check over an application bundle's payload files. */
module PayloadTree {
  import opened Encoding

  const SLASH: CodeUnit := 0x2F

  /** The inventory's own file, stored beside the payload. */
  const INVENTORY_PATH: string := "bundle-files.json"

  /** One path: its segments as spelled, and the keys that the platform compares. */
  datatype Path = Path(parts: seq<Text>, keys: seq<Text>)

  predicate Keyed(p: Path) {
    |p.keys| == |p.parts|
  }

  /** The caseless key is a parameter: `fold` is lower-casing followed by upper-casing. */
  function PathOf(path: Text, win32: bool, fold: Text -> Text): (p: Path)
    ensures Keyed(p)
  {
    var parts := Split(path, SLASH);
    Path(parts, if win32 then Folded(parts, fold) else parts)
  }

  function Folded(parts: seq<Text>, fold: Text -> Text): (r: seq<Text>)
    ensures |r| == |parts| && forall i | 0 <= i < |r| :: r[i] == fold(parts[i])
  {
    seq(|parts|, i requires 0 <= i < |parts| => fold(parts[i]))
  }

  function PathsOf(entries: seq<Text>, win32: bool, fold: Text -> Text): (r: seq<Path>)
    ensures |r| == |entries| && forall i | 0 <= i < |r| :: r[i] == PathOf(entries[i], win32, fold)
  {
    seq(|entries|, i requires 0 <= i < |entries| => PathOf(entries[i], win32, fold))
  }

  // ------------------------------------------------------------------ the meaning

  predicate Extends(a: seq<Text>, b: seq<Text>) {
    |a| <= |b| && b[..|a|] == a
  }

  /**
    * Two files can stand side by side: neither is the other or one of its directories,
    * and on Windows a directory that both use is spelled one way.
    */
  ghost predicate Apart(p: Path, q: Path, win32: bool)
    requires Keyed(p) && Keyed(q)
  {
    && !Extends(p.keys, q.keys) && !Extends(q.keys, p.keys)
    && (win32 ==> forall k | 0 <= k <= |p.keys| && k <= |q.keys| && p.keys[..k] == q.keys[..k] :: p.parts[..k] == q.parts[..k])
  }

  ghost predicate AllKeyed(paths: seq<Path>) {
    forall i | 0 <= i < |paths| :: Keyed(paths[i])
  }

  ghost predicate AllApart(paths: seq<Path>, win32: bool)
    requires AllKeyed(paths)
  {
    forall i, j | 0 <= i < j < |paths| :: Apart(paths[i], paths[j], win32)
  }

  /** The first `k` segments of two paths are the same to a caseless file system. */
  ghost predicate FoldAlike(a: seq<Text>, b: seq<Text>, k: nat, fold: Text -> Text) {
    k <= |a| && k <= |b| && forall i | 0 <= i < k :: fold(a[i]) == fold(b[i])
  }

  /**
    * Two paths, by their segments, can stand in one tree: neither is the other or one of its
    * directories; on Windows, not even up to case, and a directory that both use is spelled one way.
    */
  ghost predicate SideBySide(a: seq<Text>, b: seq<Text>, win32: bool, fold: Text -> Text) {
    if win32 then
      && !FoldAlike(a, b, |a|, fold) && !FoldAlike(a, b, |b|, fold)
      && forall k: nat | FoldAlike(a, b, k, fold) :: a[..k] == b[..k]
    else !Extends(a, b) && !Extends(b, a)
  }

  /** All paths of a bundle: the reserved one of the inventory, and the entries. */
  function AllPaths(entries: seq<Text>): seq<Text> {
    [Ascii(INVENTORY_PATH)] + entries
  }

  /** What the whole check promises about a bundle's payload paths. */
  ghost predicate Coexist(entries: seq<Text>, win32: bool, fold: Text -> Text) {
    var all := AllPaths(entries);
    forall i, j | 0 <= i < j < |all| :: SideBySide(Split(all[i], SLASH), Split(all[j], SLASH), win32, fold)
  }

  lemma FoldsExtend(a: seq<Text>, b: seq<Text>, k: nat, fold: Text -> Text)
    requires k <= |a| && k <= |b|
    ensures FoldAlike(a, b, k, fold) <==> Folded(a, fold)[..k] == Folded(b, fold)[..k]
  {
    var x, y := Folded(a, fold), Folded(b, fold);
    if x[..k] == y[..k] {
      forall i | 0 <= i < k ensures fold(a[i]) == fold(b[i]) { assert x[i] == x[..k][i] && y[i] == y[..k][i]; }
    }
  }

  /** The condition on keys is the condition on segments. */
  lemma ApartMeans(p: Text, q: Text, win32: bool, fold: Text -> Text)
    ensures Apart(PathOf(p, win32, fold), PathOf(q, win32, fold), win32) <==> SideBySide(Split(p, SLASH), Split(q, SLASH), win32, fold)
  {
    hide Split, Folded, FoldAlike;
    var a, b := Split(p, SLASH), Split(q, SLASH);
    if win32 {
      var x, y := Folded(a, fold), Folded(b, fold);
      FoldedExtends(a, b, fold);
      FoldedExtends(b, a, fold);
      FoldAlikeSymmetric(a, b, |b|, fold);
      forall k: nat ensures FoldAlike(a, b, k, fold) <==> k <= |a| && k <= |b| && x[..k] == y[..k] {
        if k <= |a| && k <= |b| { FoldsExtend(a, b, k, fold); } else { FoldAlikeShort(a, b, k, fold); }
      }
    }
  }

  lemma FoldAlikeShort(a: seq<Text>, b: seq<Text>, k: nat, fold: Text -> Text)
    requires k > |a| || k > |b|
    ensures !FoldAlike(a, b, k, fold)
  {}

  lemma FoldAlikeSymmetric(a: seq<Text>, b: seq<Text>, k: nat, fold: Text -> Text)
    ensures FoldAlike(a, b, k, fold) <==> FoldAlike(b, a, k, fold)
  {}

  lemma FoldedExtends(a: seq<Text>, b: seq<Text>, fold: Text -> Text)
    ensures Extends(Folded(a, fold), Folded(b, fold)) <==> FoldAlike(a, b, |a|, fold)
  {
    hide Folded;
    if |a| <= |b| {
      FoldsExtend(a, b, |a|, fold);
      assert Folded(a, fold)[..|a|] == Folded(a, fold);
    }
  }

  lemma CoexistMeans(entries: seq<Text>, win32: bool, fold: Text -> Text)
    ensures AllKeyed(PathsOf(AllPaths(entries), win32, fold))
    ensures AllApart(PathsOf(AllPaths(entries), win32, fold), win32) <==> Coexist(entries, win32, fold)
  {
    hide Apart, SideBySide, PathOf, Split;
    var all := AllPaths(entries);
    var paths := PathsOf(all, win32, fold);
    forall i, j | 0 <= i < j < |all|
      ensures Apart(paths[i], paths[j], win32) <==> SideBySide(Split(all[i], SLASH), Split(all[j], SLASH), win32, fold)
    {
      ApartMeans(all[i], all[j], win32, fold);
    }
  }

  // -------------------------------------------------------------------- the order

  predicate KeyLess(a: seq<Text>, b: seq<Text>) {
    if a == [] then b != []
    else if b == [] then false
    else if a[0] != b[0] then LexLess(a[0], b[0])
    else KeyLess(a[1..], b[1..])
  }

  predicate KeyAtMost(a: seq<Text>, b: seq<Text>) {
    a == b || KeyLess(a, b)
  }

  lemma {:induction false} KeyTotal(a: seq<Text>, b: seq<Text>)
    ensures KeyLess(a, b) || KeyLess(b, a) || a == b
    ensures !(KeyLess(a, b) && KeyLess(b, a))
    ensures a == b ==> !KeyLess(a, b)
  {
    hide LexLess;
    if a != [] && b != [] {
      LexTotal(a[0], b[0]);
      KeyTotal(a[1..], b[1..]);
      assert a == [a[0]] + a[1..] && b == [b[0]] + b[1..];
    }
  }

  lemma {:induction false} KeyTransitive(a: seq<Text>, b: seq<Text>, c: seq<Text>)
    requires KeyAtMost(a, b) && KeyAtMost(b, c)
    ensures KeyAtMost(a, c)
  {
    hide LexLess;
    if a != b && b != c && a != [] {
      if a[0] == b[0] == c[0] {
        KeyTransitive(a[1..], b[1..], c[1..]);
        assert a == [a[0]] + a[1..] && c == [c[0]] + c[1..];
      } else if a[0] != b[0] && b[0] != c[0] {
        LexTransitive(a[0], b[0], c[0]);
        LexTotal(a[0], b[0]);
        LexTotal(c[0], b[0]);
      }
    }
  }

  /** Whatever lies between two key sequences shares what they share. */
  lemma {:induction false} Between(a: seq<Text>, m: seq<Text>, b: seq<Text>, k: nat)
    requires KeyAtMost(a, m) && KeyAtMost(m, b)
    requires k <= |a| && k <= |b| && a[..k] == b[..k]
    ensures k <= |m| && m[..k] == a[..k]
  {
    hide LexLess;
    if k > 0 && a != m && m != b {
      assert a[0] == a[..k][0] == b[..k][0] == b[0];
      LexTotal(a[0], m[0]);
      assert a[1..][..k - 1] == a[..k][1..] == b[..k][1..] == b[1..][..k - 1];
      Between(a[1..], m[1..], b[1..], k - 1);
      assert m[..k] == [m[0]] + m[1..][..k - 1];
      assert a[..k] == [a[0]] + a[1..][..k - 1];
    }
  }

  /** A sequence precedes everything that extends it. */
  lemma {:induction false} ExtensionAfter(a: seq<Text>, b: seq<Text>)
    requires Extends(a, b)
    ensures KeyAtMost(a, b)
  {
    hide LexLess;
    if a != [] && a != b {
      assert b[0] == b[..|a|][0] == a[0];
      assert b[1..][..|a| - 1] == b[..|a|][1..] == a[1..];
      ExtensionAfter(a[1..], b[1..]);
      assert a == [a[0]] + a[1..] && b == [b[0]] + b[1..];
    }
  }

  ghost predicate Sorted(paths: seq<Path>) {
    forall i, j | 0 <= i < j < |paths| :: KeyAtMost(paths[i].keys, paths[j].keys)
  }

  // ----------------------------------------------- neighbours decide for all pairs

  /** What the scan asks of one path and the next. */
  ghost predicate NeighbourOk(p: Path, q: Path, win32: bool)
    requires Keyed(p) && Keyed(q)
  {
    && !Extends(p.keys, q.keys)
    && (win32 ==> forall k | 0 <= k <= |p.keys| && k <= |q.keys| && p.keys[..k] == q.keys[..k] :: p.parts[..k] == q.parts[..k])
  }

  ghost predicate NeighboursOk(paths: seq<Path>, win32: bool)
    requires AllKeyed(paths)
  {
    forall i | 0 < i < |paths| :: NeighbourOk(paths[i - 1], paths[i], win32)
  }

  /** Shared keys are spelled alike all the way from one path to a later one. */
  lemma {:induction false} SpelledAlike(paths: seq<Path>, i: nat, j: nat, k: nat)
    requires AllKeyed(paths) && Sorted(paths) && NeighboursOk(paths, true)
    requires i < j < |paths| && k <= |paths[i].keys| && k <= |paths[j].keys|
    requires paths[i].keys[..k] == paths[j].keys[..k]
    ensures paths[i].parts[..k] == paths[j].parts[..k]
    decreases j - i
  {
    hide KeyAtMost, Extends;
    assert NeighbourOk(paths[i + 1 - 1], paths[i + 1], true);
    if i + 1 < j {
      Between(paths[i].keys, paths[i + 1].keys, paths[j].keys, k);
      SpelledAlike(paths, i + 1, j, k);
    }
  }

  /** A file that is also a directory is caught at its own neighbour. */
  lemma NotExtended(paths: seq<Path>, i: nat, j: nat, win32: bool)
    requires AllKeyed(paths) && Sorted(paths) && NeighboursOk(paths, win32)
    requires i < j < |paths|
    ensures !Extends(paths[i].keys, paths[j].keys) && !Extends(paths[j].keys, paths[i].keys)
  {
    hide KeyLess;
    var a, m, b := paths[i].keys, paths[i + 1].keys, paths[j].keys;
    assert NeighbourOk(paths[i + 1 - 1], paths[i + 1], win32);
    if Extends(b, a) {
      ExtensionAfter(b, a);
      KeyTotal(a, b);
      assert b == a;
    }
    if Extends(a, b) && i + 1 < j {
      Between(a, m, b, |a|);
    }
  }

  /** Comparing neighbours in key order is comparing all pairs. */
  lemma NeighboursDecide(paths: seq<Path>, win32: bool)
    requires AllKeyed(paths) && Sorted(paths)
    ensures NeighboursOk(paths, win32) <==> AllApart(paths, win32)
  {
    hide KeyAtMost, Extends;
    if NeighboursOk(paths, win32) {
      forall i, j | 0 <= i < j < |paths| ensures Apart(paths[i], paths[j], win32) {
        NotExtended(paths, i, j, win32);
        if win32 {
          forall k | 0 <= k <= |paths[i].keys| && k <= |paths[j].keys| && paths[i].keys[..k] == paths[j].keys[..k]
            ensures paths[i].parts[..k] == paths[j].parts[..k]
          {
            SpelledAlike(paths, i, j, k);
          }
        }
      }
    }
    if AllApart(paths, win32) {
      forall i | 0 < i < |paths| ensures NeighbourOk(paths[i - 1], paths[i], win32) {
        assert Apart(paths[i - 1], paths[i], win32);
      }
    }
  }

  // ------------------------------------------------------------ order of the input

  lemma ApartSymmetric(p: Path, q: Path, win32: bool)
    requires Keyed(p) && Keyed(q)
    ensures Apart(p, q, win32) <==> Apart(q, p, win32)
  {
    if win32 && Apart(p, q, win32) {
      assert forall k | 0 <= k <= |p.keys| && k <= |q.keys| && q.keys[..k] == p.keys[..k] :: q.parts[..k] == p.parts[..k];
    }
    if win32 && Apart(q, p, win32) {
      assert forall k | 0 <= k <= |p.keys| && k <= |q.keys| && q.keys[..k] == p.keys[..k] :: q.parts[..k] == p.parts[..k];
    }
  }

  /** The pairwise condition without positions: it only sees which paths occur, and how often. */
  ghost predicate BagApart(bag: multiset<Path>, win32: bool) {
    && (forall p | p in bag :: Keyed(p))
    && (forall p, q | p in bag && q in bag && p != q :: Keyed(p) && Keyed(q) && Apart(p, q, win32))
    && (forall p | p in bag :: bag[p] == 1)
  }

  lemma TwiceAt(paths: seq<Path>, i: nat, j: nat)
    requires i < j < |paths| && paths[i] == paths[j]
    ensures multiset(paths)[paths[i]] >= 2
  {
    assert paths == paths[..i] + [paths[i]] + paths[i + 1..j] + [paths[j]] + paths[j + 1..];
  }

  lemma {:induction false} OnceEach(paths: seq<Path>, p: Path)
    requires p in paths
    requires forall i, j | 0 <= i < j < |paths| :: paths[i] != paths[j]
    ensures multiset(paths)[p] == 1
  {
    var i :| 0 <= i < |paths| && paths[i] == p;
    assert paths == paths[..i] + [p] + paths[i + 1..];
    assert p !in paths[..i] && p !in paths[i + 1..];
  }

  lemma ApartIsBag(paths: seq<Path>, win32: bool)
    requires AllKeyed(paths)
    ensures AllApart(paths, win32) <==> BagApart(multiset(paths), win32)
  {
    hide Apart;
    if AllApart(paths, win32) {
      forall i, j | 0 <= i < j < |paths| ensures paths[i] != paths[j] {
        SelfNotApart(paths[i], win32);
      }
      forall p | p in multiset(paths) ensures multiset(paths)[p] == 1 { OnceEach(paths, p); }
      forall p, q | p in multiset(paths) && q in multiset(paths) && p != q
        ensures Keyed(p) && Keyed(q) && Apart(p, q, win32)
      {
        var i :| 0 <= i < |paths| && paths[i] == p;
        var j :| 0 <= j < |paths| && paths[j] == q;
        ApartSymmetric(p, q, win32);
      }
    }
    if BagApart(multiset(paths), win32) {
      forall i, j | 0 <= i < j < |paths| ensures Apart(paths[i], paths[j], win32) {
        assert paths[i] in multiset(paths) && paths[j] in multiset(paths);
        if paths[i] == paths[j] { TwiceAt(paths, i, j); }
      }
    }
  }

  lemma SelfNotApart(p: Path, win32: bool)
    requires Keyed(p)
    ensures !Apart(p, p, win32)
  {
    assert Extends(p.keys, p.keys);
  }

  /** The order of the payload entries does not matter. */
  lemma OrderIrrelevant(paths: seq<Path>, others: seq<Path>, win32: bool)
    requires AllKeyed(paths) && multiset(others) == multiset(paths)
    ensures AllKeyed(others) && (AllApart(paths, win32) <==> AllApart(others, win32))
  {
    hide Apart;
    forall i | 0 <= i < |others| ensures Keyed(others[i]) {
      assert others[i] in multiset(others);
    }
    ApartIsBag(paths, win32);
    ApartIsBag(others, win32);
  }

  /** Whatever the folding, paths that stand side by side on Windows do so elsewhere too. */
  lemma WindowsIsStricter(a: seq<Text>, b: seq<Text>, fold: Text -> Text)
    requires SideBySide(a, b, true, fold)
    ensures SideBySide(a, b, false, fold)
  {
    hide FoldAlike, Extends;
    if Extends(a, b) { ExtendsFolds(a, b, fold); }
    if Extends(b, a) {
      ExtendsFolds(b, a, fold);
      FoldAlikeSymmetric(a, b, |b|, fold);
    }
  }

  lemma ExtendsFolds(a: seq<Text>, b: seq<Text>, fold: Text -> Text)
    requires Extends(a, b)
    ensures FoldAlike(a, b, |a|, fold)
  {
    assert forall i | 0 <= i < |a| :: b[i] == b[..|a|][i];
  }

  /** On Windows two files in the top directory whose names fold alike are refused. */
  lemma CaselessTwins(entries: seq<Text>, i: nat, j: nat, fold: Text -> Text)
    requires i < j < |entries| && SLASH !in entries[i] && SLASH !in entries[j] && fold(entries[i]) == fold(entries[j])
    ensures !Coexist(entries, true, fold)
  {
    var all := AllPaths(entries);
    assert all[i + 1] == entries[i] && all[j + 1] == entries[j];
    SplitFirst(entries[i], [], SLASH);
    SplitFirst(entries[j], [], SLASH);
    hide Split;
    assert FoldAlike([entries[i]], [entries[j]], 1, fold);
    assert !SideBySide(Split(all[i + 1], SLASH), Split(all[j + 1], SLASH), true, fold);
  }

  /** Everywhere a file that is also a directory of another is refused. */
  lemma FileAndDirectory(entries: seq<Text>, i: nat, j: nat, win32: bool, rest: Text, fold: Text -> Text)
    requires i < |entries| && j < |entries| && i != j && entries[j] == entries[i] + [SLASH] + rest && SLASH !in entries[i]
    ensures !Coexist(entries, win32, fold)
  {
    var all := AllPaths(entries);
    assert all[i + 1] == entries[i] && all[j + 1] == entries[j];
    SplitFirst(entries[i], rest, SLASH);
    hide Split;
    var a, b := Split(entries[i], SLASH), Split(entries[j], SLASH);
    assert a == [entries[i]] && b[..1] == a;
    assert FoldAlike(a, b, 1, fold) && FoldAlike(b, a, 1, fold);
    assert !SideBySide(a, b, win32, fold) && !SideBySide(b, a, win32, fold);
  }

  // ------------------------------------------------------------------- the program

  /** The comparator: negative, zero or positive. */
  method Compare(left: Path, right: Path) returns (c: int)
    ensures c < 0 <==> KeyLess(left.keys, right.keys)
    ensures c == 0 <==> left.keys == right.keys
  {
    var a, b := left.keys, right.keys;
    var count := if |a| < |b| then |a| else |b|;
    KeyTotal(a, b);
    hide LexLess;
    for index := 0 to count
      invariant a[..index] == b[..index]
      invariant KeyLess(a, b) <==> KeyLess(a[index..], b[index..])
    {
      if a[index] != b[index] {
        LexTotal(a[index], b[index]);
        return if LexLess(a[index], b[index]) then -1 else 1;
      }
      assert a[index..][1..] == a[index + 1..] && b[index..][1..] == b[index + 1..];
      assert a[..index + 1] == a[..index] + [a[index]] && b[..index + 1] == b[..index] + [b[index]];
    }
    c := |a| - |b|;
    assert a[..count] == b[..count];
    assert |a| == |b| ==> a == a[..count] && b == b[..count];
  }

  /** Sorted up to `n`, but for the element at `i` that is still moving down. */
  ghost predicate Displaced(s: seq<Path>, n: nat, i: nat)
    requires n < |s|
  {
    forall x, y | 0 <= x < y <= n && y != i :: KeyAtMost(s[x].keys, s[y].keys)
  }

  function Swapped(s: seq<Path>, i: nat): (r: seq<Path>)
    requires 0 < i < |s|
    ensures |r| == |s| && multiset(r) == multiset(s)
  {
    s[i - 1 := s[i]][i := s[i - 1]]
  }

  lemma SwapMovesDown(s: seq<Path>, n: nat, i: nat)
    requires 0 < i <= n < |s| && Displaced(s, n, i) && KeyLess(s[i].keys, s[i - 1].keys)
    ensures Displaced(Swapped(s, i), n, i - 1)
  {
    hide KeyLess;
    var r := Swapped(s, i);
    forall x, y | 0 <= x < y <= n && y != i - 1 ensures KeyAtMost(r[x].keys, r[y].keys) {
      if y == i && x == i - 1 {
      } else if y == i {
        assert KeyAtMost(s[x].keys, s[i - 1].keys);
      } else {
        assert KeyAtMost(s[x].keys, s[y].keys);
        assert x == i ==> KeyAtMost(s[i - 1].keys, s[y].keys);
        assert x == i - 1 ==> KeyAtMost(s[i].keys, s[y].keys);
      }
    }
  }

  /** Moves `a[n]` down into the sorted stretch before it. */
  method Insert(a: array<Path>, n: nat)
    requires n < a.Length && Sorted(a[..n])
    modifies a
    ensures multiset(a[..]) == multiset(old(a[..]))
    ensures Sorted(a[..n + 1])
  {
    hide KeyLess, Swapped;
    DisplacedAtFirst(a[..], n);
    hide Displaced, Sorted;
    var i := n;
    while i > 0
      invariant 0 <= i <= n
      invariant multiset(a[..]) == multiset(old(a[..]))
      invariant Displaced(a[..], n, i)
    {
      var c := Compare(a[i - 1], a[i]);
      KeyTotal(a[i - 1].keys, a[i].keys);
      if c <= 0 {
        InsertedSorted(a[..], n, i);
        return;
      }
      SwapMovesDown(a[..], n, i);
      Swap(a, i);
      i := i - 1;
    }
    InsertedSorted(a[..], n, 0);
  }

  lemma DisplacedAtFirst(s: seq<Path>, n: nat)
    requires n < |s| && Sorted(s[..n])
    ensures Displaced(s, n, n)
  {
    hide KeyAtMost;
    forall x, y | 0 <= x < y <= n && y != n ensures KeyAtMost(s[x].keys, s[y].keys) {
      assert s[..n][x] == s[x] && s[..n][y] == s[y];
    }
  }

  method Swap(a: array<Path>, i: nat)
    requires 0 < i < a.Length
    modifies a
    ensures a[..] == Swapped(old(a[..]), i)
  {
    a[i - 1], a[i] := a[i], a[i - 1];
  }

  lemma InsertedSorted(s: seq<Path>, n: nat, i: nat)
    requires i <= n < |s| && Displaced(s, n, i)
    requires i > 0 ==> KeyAtMost(s[i - 1].keys, s[i].keys)
    ensures Sorted(s[..n + 1])
  {
    hide KeyAtMost;
    forall x, y | 0 <= x < y <= n ensures KeyAtMost(s[x].keys, s[y].keys) {
      if y == i && x < i - 1 { KeyTransitive(s[x].keys, s[i - 1].keys, s[i].keys); }
    }
  }

  /** `paths.sort(…)`. */
  method Sort(a: array<Path>)
    modifies a
    ensures multiset(a[..]) == multiset(old(a[..]))
    ensures Sorted(a[..])
  {
    hide KeyAtMost;
    for n := 0 to a.Length
      invariant multiset(a[..]) == multiset(old(a[..]))
      invariant Sorted(a[..n])
    {
      Insert(a, n);
    }
    assert a[..a.Length] == a[..];
  }

  /** The scan's work on one pair. */
  method Neighbour(previous: Path, current: Path, win32: bool) returns (ok: bool)
    requires Keyed(previous) && Keyed(current)
    ensures ok == NeighbourOk(previous, current, win32)
  {
    var a, b := previous.keys, current.keys;
    var common := 0;
    while common < |a| && common < |b| && a[common] == b[common]
      invariant common <= |a| && common <= |b|
      invariant a[..common] == b[..common]
    {
      assert a[..common + 1] == a[..common] + [a[common]] && b[..common + 1] == b[..common] + [b[common]];
      common := common + 1;
    }
    CommonLongest(a, b, common);
    if common == |a| {
      return false;
    }
    if win32 {
      for segment := 0 to common
        invariant forall i | 0 <= i < segment :: previous.parts[i] == current.parts[i]
      {
        if previous.parts[segment] != current.parts[segment] {
          assert previous.parts[..common][segment] != current.parts[..common][segment];
          return false;
        }
      }
    }
    return true;
  }

  lemma CommonLongest(a: seq<Text>, b: seq<Text>, common: nat)
    requires common <= |a| && common <= |b| && a[..common] == b[..common]
    requires common < |a| && common < |b| ==> a[common] != b[common]
    ensures forall k | 0 <= k <= |a| && k <= |b| && a[..k] == b[..k] :: k <= common
    ensures Extends(a, b) <==> common == |a|
  {
    forall k | common < k <= |a| && k <= |b| ensures a[..k] != b[..k] {
      assert a[..k][common] != b[..k][common];
    }
    if Extends(a, b) { assert a[..|a|] == a; }
    if common == |a| { assert a[..|a|] == a; }
  }

  method Scan(a: array<Path>, win32: bool) returns (ok: bool)
    requires AllKeyed(a[..])
    ensures ok == NeighboursOk(a[..], win32)
  {
    hide NeighbourOk;
    ghost var s := a[..];
    var index := 1;
    while index < a.Length
      invariant index >= 1
      invariant forall i | 0 < i < index && i < |s| :: NeighbourOk(s[i - 1], s[i], win32)
    {
      assert a[index - 1] == s[index - 1] && a[index] == s[index];
      ok := Neighbour(a[index - 1], a[index], win32);
      if !ok {
        return;
      }
      index := index + 1;
    }
    return true;
  }

  /** `validatePayloadTreePaths`: sorts, compares neighbours, and so decides the all-pairs condition. */
  method ValidatePayloadTreePaths(entries: seq<Text>, win32: bool, fold: Text -> Text) returns (ok: bool)
    ensures ok == Coexist(entries, win32, fold)
  {
    hide AllApart, NeighboursOk, Sorted, Coexist;
    var paths := PathsOf(AllPaths(entries), win32, fold);
    CoexistMeans(entries, win32, fold);
    var a := new Path[|paths|](i requires 0 <= i < |paths| => paths[i]);
    assert a[..] == paths;
    Sort(a);
    OrderIrrelevant(paths, a[..], win32);
    NeighboursDecide(a[..], win32);
    ok := Scan(a, win32);
  }

  /** The verdict is the same for every order of the entries. */
  lemma VerdictOrderIrrelevant(entries: seq<Text>, others: seq<Text>, win32: bool, fold: Text -> Text)
    requires multiset(entries) == multiset(others)
    ensures Coexist(entries, win32, fold) == Coexist(others, win32, fold)
  {
    hide AllApart, Coexist;
    CoexistMeans(entries, win32, fold);
    CoexistMeans(others, win32, fold);
    PathsBag(AllPaths(entries), AllPaths(others), win32, fold);
    OrderIrrelevant(PathsOf(AllPaths(entries), win32, fold), PathsOf(AllPaths(others), win32, fold), win32);
  }

  lemma {:induction false} PathsBag(a: seq<Text>, b: seq<Text>, win32: bool, fold: Text -> Text)
    requires multiset(a) == multiset(b)
    ensures multiset(PathsOf(a, win32, fold)) == multiset(PathsOf(b, win32, fold))
    decreases |a|
  {
    hide PathsOf;
    if a == [] {
      assert |b| == |multiset(b)| == 0;
      return;
    }
    assert a[0] in multiset(b);
    var i :| 0 <= i < |b| && b[i] == a[0];
    var rest := b[..i] + b[i + 1..];
    assert a == [a[0]] + a[1..] && b == b[..i] + ([a[0]] + b[i + 1..]);
    RestBag(a, b, i);
    PathsBag(a[1..], rest, win32, fold);
    PathsAppend([a[0]], a[1..], win32, fold);
    PathsAppend(b[..i], [a[0]] + b[i + 1..], win32, fold);
    PathsAppend([a[0]], b[i + 1..], win32, fold);
    PathsAppend(b[..i], b[i + 1..], win32, fold);
  }

  lemma RestBag(a: seq<Text>, b: seq<Text>, i: nat)
    requires multiset(a) == multiset(b) && a != [] && i < |b| && a[0] == b[i]
    ensures multiset(a[1..]) == multiset(b[..i] + b[i + 1..])
  {
    assert a == [a[0]] + a[1..];
    assert b == (b[..i] + [b[i]]) + b[i + 1..];
    assert multiset(a[1..]) == multiset(a) - multiset{a[0]};
    assert multiset(b[..i] + b[i + 1..]) == multiset(b) - multiset{b[i]};
  }

  lemma PathsAppend(a: seq<Text>, b: seq<Text>, win32: bool, fold: Text -> Text)
    ensures PathsOf(a + b, win32, fold) == PathsOf(a, win32, fold) + PathsOf(b, win32, fold)
  {
    hide PathOf;
  }
}
