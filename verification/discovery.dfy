/** Discovery of the URDF documents a package installs (`_iter_urdf_files`):
    the files below `<share>/urdf` whose name matches `*.urdf`, in sorted
    order. Walking the directory tree is the filesystem's part; the model
    takes the walk's result, every path below the share directory in
    whatever order the walk met them, as the input `tree`. */
module Discovery {
  import opened Text
  import opened Paths

  /** `pkg_share / "urdf"`. */
  function UrdfRoot(pkgShare: Path): Path
  {
    Join(pkgShare, "urdf")
  }

  /** What `root.rglob("*.urdf")` keeps: a path strictly below `root` whose
      final component ends in `.urdf`. */
  predicate IsUrdfFile(p: Path, root: Path)
  {
    StartsWith(p.text, root.text + [Separator]) && EndsWith(Name(p), ".urdf")
  }

  /** The URDF files of a tree listing, each kept as often as the listing
      holds it and nothing else kept. */
  function Matching(tree: seq<Path>, root: Path): (r: seq<Path>)
    ensures forall p :: multiset(r)[p] == if IsUrdfFile(p, root) then multiset(tree)[p] else 0
  {
    if tree == [] then []
    else
      assert tree == [tree[0]] + tree[1..];
      (if IsUrdfFile(tree[0], root) then [tree[0]] else []) + Matching(tree[1..], root)
  }

  /** `less` orders its type strictly and totally, as `<` does on paths. */
  ghost predicate StrictTotalOrder<T(!new)>(less: (T, T) -> bool)
  {
    && (forall a :: !less(a, a))
    && (forall a, b, c :: less(a, b) && less(b, c) ==> less(a, c))
    && (forall a, b :: a == b || less(a, b) || less(b, a))
  }

  /** Each element is ordered no earlier than the ones before it. */
  predicate Sorted<T>(s: seq<T>, less: (T, T) -> bool)
  {
    forall i, j :: 0 <= i < j < |s| ==> !less(s[j], s[i])
  }

  /** Each element is ordered strictly after the ones before it. */
  predicate StrictlySorted<T>(s: seq<T>, less: (T, T) -> bool)
  {
    forall i, j :: 0 <= i < j < |s| ==> less(s[i], s[j])
  }

  /** No element occurs twice. */
  ghost predicate NoDuplicates<T(!new)>(s: seq<T>)
  {
    forall p :: multiset(s)[p] <= 1
  }

  /** Puts `x` before the first element that does not precede it. */
  function Insert<T>(x: T, s: seq<T>, less: (T, T) -> bool): seq<T>
  {
    if s == [] then [x]
    else if less(s[0], x) then [s[0]] + Insert(x, s[1..], less)
    else [x] + s
  }

  /** `sorted(xs)` for the ordering `less`: a sorted rearrangement. */
  function SortBy<T(!new)>(xs: seq<T>, less: (T, T) -> bool): (r: seq<T>)
    requires StrictTotalOrder(less)
    ensures Sorted(r, less) && multiset(r) == multiset(xs)
  {
    if xs == [] then []
    else
      var rest := SortBy(xs[1..], less);
      InsertSorted(xs[0], rest, less);
      InsertPermutes(xs[0], rest, less);
      assert xs == [xs[0]] + xs[1..];
      Insert(xs[0], rest, less)
  }

  /** Python's `<` on paths as a comparison function. */
  function PathOrder(): (less: (Path, Path) -> bool)
  {
    (a: Path, b: Path) => PathLess(a, b)
  }

  lemma PathOrderIsStrictTotal()
    ensures StrictTotalOrder(PathOrder())
  {
    forall a ensures !PathLess(a, a) { PathLessIrreflexive(a); }
    forall a, b, c | PathLess(a, b) && PathLess(b, c) ensures PathLess(a, c) { PathLessTransitive(a, b, c); }
    forall a, b ensures a == b || PathLess(a, b) || PathLess(b, a) { PathLessTotal(a, b); }
  }

  /** `_iter_urdf_files`: the URDF files below `<share>/urdf`, sorted, each
      as often as the walk met it. */
  function IterUrdfFiles(pkgShare: Path, tree: seq<Path>): (r: seq<Path>)
    ensures Sorted(r, PathOrder())
    ensures forall p :: multiset(r)[p] == if IsUrdfFile(p, UrdfRoot(pkgShare)) then multiset(tree)[p] else 0
  {
    PathOrderIsStrictTotal();
    SortBy(Matching(tree, UrdfRoot(pkgShare)), PathOrder())
  }

  lemma {:induction false} InsertPermutes<T>(x: T, s: seq<T>, less: (T, T) -> bool)
    ensures multiset(Insert(x, s, less)) == multiset(s) + multiset{x}
  {
    if s != [] {
      assert s == [s[0]] + s[1..];
      if less(s[0], x) {
        InsertPermutes(x, s[1..], less);
      }
    }
  }

  lemma {:induction false} InsertSorted<T(!new)>(x: T, s: seq<T>, less: (T, T) -> bool)
    requires StrictTotalOrder(less) && Sorted(s, less)
    ensures Sorted(Insert(x, s, less), less)
  {
    InsertPermutes(x, s, less);
    if s != [] && less(s[0], x) {
      var tail := s[1..];
      SortedTail(s, less);
      InsertSorted(x, tail, less);
      InsertPermutes(x, tail, less);
      var r := Insert(x, tail, less);
      forall k | 0 <= k < |r| ensures !less(r[k], s[0]) {
        assert r[k] in multiset(tail) + multiset{x};
        if r[k] != x {
          var m :| 0 <= m < |tail| && tail[m] == r[k];
          assert s[m + 1] == r[k];
        }
      }
      SortedCons(s[0], r, less);
    } else if s != [] {
      forall k | 0 <= k < |s| ensures !less(s[k], x) {
        if k > 0 {
          assert !less(s[k], s[0]);
        }
      }
      SortedCons(x, s, less);
    }
  }

  lemma SortedTail<T>(s: seq<T>, less: (T, T) -> bool)
    requires s != [] && Sorted(s, less)
    ensures Sorted(s[1..], less)
  {
    var tail := s[1..];
    forall i, j | 0 <= i < j < |tail| ensures !less(tail[j], tail[i]) {
      assert tail[j] == s[j + 1] && tail[i] == s[i + 1];
    }
  }

  lemma SortedCons<T>(x: T, s: seq<T>, less: (T, T) -> bool)
    requires Sorted(s, less)
    requires forall k :: 0 <= k < |s| ==> !less(s[k], x)
    ensures Sorted([x] + s, less)
  {
    var t := [x] + s;
    forall i, j | 0 <= i < j < |t| ensures !less(t[j], t[i]) {
      assert t[j] == s[j - 1];
      if i > 0 { assert t[i] == s[i - 1]; }
    }
  }

  /** The result of sorting does not depend on the order its input came in:
      two sorted arrangements of the same elements are the same list. */
  lemma {:induction false} SortedUnique<T(!new)>(a: seq<T>, b: seq<T>, less: (T, T) -> bool)
    requires StrictTotalOrder(less)
    requires Sorted(a, less) && Sorted(b, less) && multiset(a) == multiset(b)
    ensures a == b
    decreases |a|
  {
    if a != [] {
      SortedSameFirst(a, b, less);
      SameTails(a, b);
      SortedTail(a, less);
      SortedTail(b, less);
      SortedUnique(a[1..], b[1..], less);
      assert a == [a[0]] + a[1..] && b == [b[0]] + b[1..];
    }
  }

  /** Two sorted arrangements of the same elements start alike. */
  lemma SortedSameFirst<T(!new)>(a: seq<T>, b: seq<T>, less: (T, T) -> bool)
    requires StrictTotalOrder(less)
    requires Sorted(a, less) && Sorted(b, less) && multiset(a) == multiset(b) && a != []
    ensures b != [] && a[0] == b[0]
  {
    assert a[0] in multiset(b);
    assert b[0] in multiset(a);
    SortedFirstIsLeast(a, b[0], less);
    SortedFirstIsLeast(b, a[0], less);
  }

  /** Removing the same first element from two arrangements of the same
      elements leaves arrangements of the same elements. */
  lemma SameTails<T>(a: seq<T>, b: seq<T>)
    requires a != [] && b != [] && a[0] == b[0] && multiset(a) == multiset(b)
    ensures multiset(a[1..]) == multiset(b[1..])
  {
    assert a == [a[0]] + a[1..] && b == [b[0]] + b[1..];
    assert multiset(a[1..]) == multiset(a) - multiset{a[0]};
    assert multiset(b[1..]) == multiset(b) - multiset{b[0]};
  }

  /** No element of a sorted list precedes its first one. */
  lemma SortedFirstIsLeast<T(!new)>(s: seq<T>, x: T, less: (T, T) -> bool)
    requires StrictTotalOrder(less) && Sorted(s, less) && x in s
    ensures !less(x, s[0])
  {
    var k :| 0 <= k < |s| && s[k] == x;
    if k > 0 {
      assert !less(s[k], s[0]);
    }
  }

  /** Discovery is deterministic: walks that meet the same files in a
      different order discover the same sorted list. */
  lemma IterUrdfFilesDeterministic(pkgShare: Path, tree1: seq<Path>, tree2: seq<Path>)
    requires multiset(tree1) == multiset(tree2)
    ensures IterUrdfFiles(pkgShare, tree1) == IterUrdfFiles(pkgShare, tree2)
  {
    var root := UrdfRoot(pkgShare);
    MatchingKeepsMultiset(tree1, tree2, root);
    PathOrderIsStrictTotal();
    var m1, m2 := Matching(tree1, root), Matching(tree2, root);
    SortedUnique(SortBy(m1, PathOrder()), SortBy(m2, PathOrder()), PathOrder());
  }

  /** Filtering two listings of the same paths keeps the same paths. */
  lemma MatchingKeepsMultiset(tree1: seq<Path>, tree2: seq<Path>, root: Path)
    requires multiset(tree1) == multiset(tree2)
    ensures multiset(Matching(tree1, root)) == multiset(Matching(tree2, root))
  {
    var m1, m2 := Matching(tree1, root), Matching(tree2, root);
    forall p ensures multiset(m1)[p] == multiset(m2)[p] { }
  }

  /** A sorted list without repeats is strictly increasing. */
  lemma SortedDistinctIsStrict<T(!new)>(s: seq<T>, less: (T, T) -> bool)
    requires StrictTotalOrder(less)
    requires Sorted(s, less) && NoDuplicates(s)
    ensures StrictlySorted(s, less)
  {
    forall i, j | 0 <= i < j < |s| ensures less(s[i], s[j]) {
      assert s == s[..j] + s[j..];
      assert multiset(s) == multiset(s[..j]) + multiset(s[j..]);
      assert s[i] in s[..j] && s[j] in s[j..];
      assert multiset(s[..j])[s[i]] >= 1 && multiset(s[j..])[s[j]] >= 1;
      assert multiset(s)[s[i]] <= 1;
      assert s[i] != s[j];
    }
  }

  /** When the walk meets each file once, the discovered list has no
      duplicates and is strictly increasing. */
  lemma IterUrdfFilesStrictlySorted(pkgShare: Path, tree: seq<Path>)
    requires NoDuplicates(tree)
    ensures NoDuplicates(IterUrdfFiles(pkgShare, tree))
    ensures StrictlySorted(IterUrdfFiles(pkgShare, tree), PathOrder())
  {
    var r := IterUrdfFiles(pkgShare, tree);
    assert NoDuplicates(r) by {
      forall p ensures multiset(r)[p] <= 1 { }
    }
    PathOrderIsStrictTotal();
    SortedDistinctIsStrict(r, PathOrder());
  }
}
