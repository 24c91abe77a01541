/**
 * Discovery of the benchmark builder: which directories under the scan
 * roots hold a test suite and a program to mutate, and in what order they
 * are processed. The file system is given as the listings `os.walk` would
 * produce.
 */
module RunDiscovery {
  import opened Wrappers
  import opened Text
  import opened Paths
  import opened Sorting
  import opened RunConfig

  /** One step of `os.walk`: a directory with the names of its sub-directories and files. */
  datatype DirEntry = DirEntry(path: Path, dirs: set<string>, files: set<string>)

  /**
   * `choose_mutate_target`: `put.py` when it exists (as any kind of entry),
   * else `nds_script.py`, else nothing.
   */
  function ChooseMutateTarget(e: DirEntry): (r: Option<string>)
    ensures r == Some("put.py") <==> "put.py" in e.dirs + e.files
    ensures r == Some("nds_script.py") <==>
      "put.py" !in e.dirs + e.files && "nds_script.py" in e.dirs + e.files
    ensures r.None? <==> "put.py" !in e.dirs + e.files && "nds_script.py" !in e.dirs + e.files
  {
    if "put.py" in e.dirs + e.files then Some("put.py")
    else if "nds_script.py" in e.dirs + e.files then Some("nds_script.py")
    else None
  }

  datatype TestDir = TestDir(rootName: string, testDir: Path, mutateTarget: string, testFile: Path)

  /** A walked directory qualifies when it lists `test_final.py` and has a mutate target. */
  predicate Qualifies(e: DirEntry) {
    "test_final.py" in e.files && ChooseMutateTarget(e).Some?
  }

  function MakeTestDir(root: string, e: DirEntry): TestDir
    requires Qualifies(e)
  {
    TestDir(root, e.path, ChooseMutateTarget(e).value, Child(e.path, "test_final.py"))
  }

  /** The qualifying directories of one walk, in walk order. */
  function Qualifying(root: string, entries: seq<DirEntry>): seq<TestDir>
    decreases |entries|
  {
    if entries == [] then []
    else
      var e := entries[|entries| - 1];
      Qualifying(root, entries[..|entries| - 1]) + (if Qualifies(e) then [MakeTestDir(root, e)] else [])
  }

  /** The qualifying directories of the given roots, root by root; a missing root contributes none. */
  function Discovered(walks: map<string, seq<DirEntry>>, roots: seq<string>): seq<TestDir>
    decreases |roots|
  {
    if roots == [] then []
    else
      var r := roots[|roots| - 1];
      Discovered(walks, roots[..|roots| - 1]) + (if r in walks then Qualifying(r, walks[r]) else [])
  }

  /** The sort key: the test directory relative to the repository root, in POSIX form. */
  function SortKey(repoRoot: Path, td: TestDir): string {
    AsPosixRelative(td.testDir, repoRoot)
  }

  /** Python's `<=` on the sort keys. */
  function KeyLe(repoRoot: Path): (TestDir, TestDir) -> bool
  {
    (a: TestDir, b: TestDir) => StrCmp(SortKey(repoRoot, a), SortKey(repoRoot, b)) <= 0
  }

  /**
   * `find_test_dirs`: walks each scan root that exists (a key of `walks`),
   * keeps the directories that qualify, and sorts them by relative path.
   */
  method FindTestDirs(repoRoot: Path, walks: map<string, seq<DirEntry>>) returns (found: seq<TestDir>)
    ensures found == SortBy(Discovered(walks, ScanRoots), KeyLe(repoRoot))
  {
    var discovered: seq<TestDir> := [];
    for ri := 0 to |ScanRoots|
      invariant discovered == Discovered(walks, ScanRoots[..ri])
    {
      var root := ScanRoots[ri];
      assert ScanRoots[..ri + 1][..ri] == ScanRoots[..ri];
      if root !in walks {
        continue;
      }
      var entries := walks[root];
      for ei := 0 to |entries|
        invariant discovered == Discovered(walks, ScanRoots[..ri]) + Qualifying(root, entries[..ei])
      {
        var e := entries[ei];
        assert entries[..ei + 1][..ei] == entries[..ei];
        if "test_final.py" !in e.files {
          continue;
        }
        var mutate := ChooseMutateTarget(e);
        if mutate.None? {
          continue;
        }
        discovered := discovered + [TestDir(root, e.path, mutate.value, Child(e.path, "test_final.py"))];
      }
      assert entries[..|entries|] == entries;
    }
    assert ScanRoots[..|ScanRoots|] == ScanRoots;
    found := SortBy(discovered, KeyLe(repoRoot));
  }

  lemma {:induction false} QualifyingMembers(root: string, entries: seq<DirEntry>, td: TestDir)
    ensures td in Qualifying(root, entries) <==>
      exists e :: e in entries && Qualifies(e) && td == MakeTestDir(root, e)
    decreases |entries|
  {
    if entries != [] {
      var init := entries[..|entries| - 1];
      QualifyingMembers(root, init, td);
      assert entries == init + [entries[|entries| - 1]];
      if td in Qualifying(root, entries) && td !in Qualifying(root, init) {
        assert entries[|entries| - 1] in entries;
      }
    }
  }

  lemma {:induction false} DiscoveredMembers(walks: map<string, seq<DirEntry>>, roots: seq<string>, td: TestDir)
    ensures td in Discovered(walks, roots) <==>
      exists r :: r in roots && r in walks && td in Qualifying(r, walks[r])
    decreases |roots|
  {
    if roots != [] {
      var init := roots[..|roots| - 1];
      DiscoveredMembers(walks, init, td);
      assert roots == init + [roots[|roots| - 1]];
    }
  }

  /**
   * A directory is found exactly when it is walked under an existing scan
   * root, lists `test_final.py`, and has a mutate target, which is `put.py`
   * whenever both candidates exist.
   */
  lemma FoundIff(repoRoot: Path, walks: map<string, seq<DirEntry>>, td: TestDir)
    ensures td in SortBy(Discovered(walks, ScanRoots), KeyLe(repoRoot)) <==>
      exists r, e :: r in ScanRoots && r in walks && e in walks[r] && Qualifies(e) && td == MakeTestDir(r, e)
  {
    SortPerm(Discovered(walks, ScanRoots), KeyLe(repoRoot));
    assert td in SortBy(Discovered(walks, ScanRoots), KeyLe(repoRoot)) <==>
      td in multiset(SortBy(Discovered(walks, ScanRoots), KeyLe(repoRoot)));
    DiscoveredMembers(walks, ScanRoots, td);
    forall r | r in ScanRoots && r in walks {
      QualifyingMembers(r, walks[r], td);
    }
  }

  /** Ordering by POSIX relative path is a total preorder. */
  lemma KeyOrderTotal(repoRoot: Path)
    ensures TotalPreorder(KeyLe(repoRoot))
  {
    var le := KeyLe(repoRoot);
    forall a: TestDir, b: TestDir ensures le(a, b) || le(b, a) {
      StrCmpAntisym(SortKey(repoRoot, a), SortKey(repoRoot, b));
    }
    forall a: TestDir, b: TestDir, c: TestDir | le(a, b) && le(b, c) ensures le(a, c) {
      StrCmpTrans(SortKey(repoRoot, a), SortKey(repoRoot, b), SortKey(repoRoot, c));
    }
  }

  /** The directories come out ordered by relative path and are a permutation of those discovered. */
  lemma FoundSorted(repoRoot: Path, walks: map<string, seq<DirEntry>>)
    ensures SortedBy(SortBy(Discovered(walks, ScanRoots), KeyLe(repoRoot)), KeyLe(repoRoot))
    ensures multiset(SortBy(Discovered(walks, ScanRoots), KeyLe(repoRoot))) ==
      multiset(Discovered(walks, ScanRoots))
  {
    KeyOrderTotal(repoRoot);
    SortSorted(Discovered(walks, ScanRoots), KeyLe(repoRoot));
    SortPerm(Discovered(walks, ScanRoots), KeyLe(repoRoot));
  }

  predicate DistinctDirs(s: seq<TestDir>) {
    forall i, j :: 0 <= i < j < |s| ==> s[i].testDir != s[j].testDir
  }

  /** What `os.walk` guarantees: each root's walk lists each directory once, below that root. */
  predicate WalksWellFormed(repoRoot: Path, walks: map<string, seq<DirEntry>>) {
    forall r :: r in walks ==>
      && (forall i, j :: 0 <= i < j < |walks[r]| ==> walks[r][i].path != walks[r][j].path)
      && (forall i :: 0 <= i < |walks[r]| ==> IsWithin(Child(repoRoot, r), walks[r][i].path))
  }

  lemma {:induction false} QualifyingDistinct(root: string, entries: seq<DirEntry>)
    requires forall i, j :: 0 <= i < j < |entries| ==> entries[i].path != entries[j].path
    ensures DistinctDirs(Qualifying(root, entries))
    ensures forall td :: td in Qualifying(root, entries) ==>
      exists i :: 0 <= i < |entries| && td.testDir == entries[i].path
    decreases |entries|
  {
    if entries != [] {
      var init := entries[..|entries| - 1];
      var e := entries[|entries| - 1];
      QualifyingDistinct(root, init);
      forall td | td in Qualifying(root, init) ensures td.testDir != e.path {
        var i :| 0 <= i < |init| && td.testDir == init[i].path;
        assert init[i] == entries[i];
      }
      forall td | td in Qualifying(root, init)
        ensures exists i :: 0 <= i < |entries| && td.testDir == entries[i].path
      {
        var i :| 0 <= i < |init| && td.testDir == init[i].path;
        assert init[i] == entries[i];
      }
      var q := Qualifying(root, init);
      if Qualifies(e) {
        var r := q + [MakeTestDir(root, e)];
        forall i, j | 0 <= i < j < |r| ensures r[i].testDir != r[j].testDir {
          if j == |q| {
            assert r[i] in q;
          }
        }
        assert MakeTestDir(root, e).testDir == entries[|entries| - 1].path;
      } else {
        assert Qualifying(root, entries) == q;
      }
    }
  }

  /** Directories under two different roots differ. */
  lemma DifferentRoots(repoRoot: Path, r1: string, r2: string, p1: Path, p2: Path)
    requires r1 != r2 && IsWithin(Child(repoRoot, r1), p1) && IsWithin(Child(repoRoot, r2), p2)
    ensures p1 != p2
  {
    var n := |repoRoot.parts|;
    assert p1.parts[n] == (repoRoot.parts + [r1])[n];
    assert p2.parts[n] == (repoRoot.parts + [r2])[n];
  }

  /** An element of a sequence of distinct directories occurs once. */
  lemma CountOne(a: seq<TestDir>, ia: int)
    requires DistinctDirs(a) && 0 <= ia < |a|
    ensures multiset(a)[a[ia]] == 1
  {
    var x := a[ia];
    assert a == a[..ia] + [x] + a[ia + 1..];
    forall k | 0 <= k < |a| && k != ia ensures a[k] != x {
      if k < ia { assert a[k].testDir != a[ia].testDir; }
      else { assert a[ia].testDir != a[k].testDir; }
    }
    assert x !in a[..ia] && x !in a[ia + 1..];
    assert multiset(a) == multiset(a[..ia]) + multiset{x} + multiset(a[ia + 1..]);
  }

  /** An element found at two positions occurs at least twice. */
  lemma CountTwo(b: seq<TestDir>, i: int, j: int)
    requires 0 <= i < j < |b| && b[i] == b[j]
    ensures multiset(b)[b[i]] >= 2
  {
    assert b == b[..j] + [b[j]] + b[j + 1..];
    assert b[i] in b[..j];
    assert multiset(b) == multiset(b[..j]) + multiset{b[j]} + multiset(b[j + 1..]);
  }

  /** A permutation keeps the test directories distinct. */
  lemma PermutationDistinct(a: seq<TestDir>, b: seq<TestDir>)
    requires multiset(a) == multiset(b) && DistinctDirs(a)
    ensures DistinctDirs(b)
  {
    forall i, j | 0 <= i < j < |b| ensures b[i].testDir != b[j].testDir {
      var x, y := b[i], b[j];
      assert x in multiset(a) && y in multiset(a);
      var ia :| 0 <= ia < |a| && a[ia] == x;
      var ja :| 0 <= ja < |a| && a[ja] == y;
      CountOne(a, ia);
      if x == y {
        CountTwo(b, i, j);
      }
      assert ia != ja;
      if ia < ja {
        assert a[ia].testDir != a[ja].testDir;
      } else {
        assert a[ja].testDir != a[ia].testDir;
      }
    }
  }

  /** The discovery list is the first root's finds followed by the second's. */
  lemma DiscoveredTwoRoots(walks: map<string, seq<DirEntry>>)
    ensures Discovered(walks, ScanRoots) ==
      (if "completions" in walks then Qualifying("completions", walks["completions"]) else []) +
      (if "assistant" in walks then Qualifying("assistant", walks["assistant"]) else [])
  {
    assert ScanRoots[..1] == ["completions"] && ScanRoots[..1][..0] == [];
  }

  /** Two lists of distinct directories with no directory in common concatenate to one. */
  lemma ConcatDistinct(p: seq<TestDir>, q: seq<TestDir>)
    requires DistinctDirs(p) && DistinctDirs(q)
    requires forall x, y :: x in p && y in q ==> x.testDir != y.testDir
    ensures DistinctDirs(p + q)
  {
    var d := p + q;
    forall i, j | 0 <= i < j < |d| ensures d[i].testDir != d[j].testDir {
      if i < |p| && j >= |p| {
        assert d[i] in p && d[j] in q;
      } else if j < |p| {
        assert d[i] == p[i] && d[j] == p[j];
      } else {
        assert d[i] == q[i - |p|] && d[j] == q[j - |p|];
      }
    }
  }

  lemma QualifyingBelow(repoRoot: Path, walks: map<string, seq<DirEntry>>, r: string, td: TestDir)
    requires WalksWellFormed(repoRoot, walks) && r in walks && td in Qualifying(r, walks[r])
    ensures IsWithin(Child(repoRoot, r), td.testDir)
  {
    QualifyingDistinct(r, walks[r]);
    var k :| 0 <= k < |walks[r]| && td.testDir == walks[r][k].path;
  }

  /** With well-formed walks each directory is found at most once. */
  lemma FoundDistinct(repoRoot: Path, walks: map<string, seq<DirEntry>>)
    requires WalksWellFormed(repoRoot, walks)
    ensures DistinctDirs(SortBy(Discovered(walks, ScanRoots), KeyLe(repoRoot)))
  {
    var qc := if "completions" in walks then Qualifying("completions", walks["completions"]) else [];
    var qs := if "assistant" in walks then Qualifying("assistant", walks["assistant"]) else [];
    if "completions" in walks {
      QualifyingDistinct("completions", walks["completions"]);
    }
    if "assistant" in walks {
      QualifyingDistinct("assistant", walks["assistant"]);
    }
    forall x, y | x in qc && y in qs ensures x.testDir != y.testDir {
      QualifyingBelow(repoRoot, walks, "completions", x);
      QualifyingBelow(repoRoot, walks, "assistant", y);
      DifferentRoots(repoRoot, "completions", "assistant", x.testDir, y.testDir);
    }
    ConcatDistinct(qc, qs);
    DiscoveredTwoRoots(walks);
    var d := Discovered(walks, ScanRoots);
    SortPerm(d, KeyLe(repoRoot));
    PermutationDistinct(d, SortBy(d, KeyLe(repoRoot)));
  }
}
