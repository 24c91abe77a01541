/**
 * The kill-matrix verifier: runs every collected test of a test suite
 * against every mutant of its target, one pair at a time, and reports which
 * tests kill which mutants.
 */
module KillMatrix {
  import opened Wrappers
  import opened Text
  import opened Paths
  import opened RunConfig
  import opened RunDiscovery
  import opened Filtering

  // ---------------------------------------------------------------------
  // Executables and the mutate target
  // ---------------------------------------------------------------------

  /** The paths `resolve_executable` tries, in order. */
  function Candidates(venv: Path, name: string): seq<Path> {
    [Child(Child(venv, "Scripts"), name), Child(Child(venv, "Scripts"), name + ".exe"),
     Child(Child(venv, "bin"), name), Child(Child(venv, "bin"), name + ".exe")]
  }

  /** The first candidate that exists. */
  function FirstExisting(cands: seq<Path>, existing: set<Path>): (r: Option<nat>)
    ensures r.Some? ==> r.value < |cands| && cands[r.value] in existing
    ensures r.Some? ==> forall j :: 0 <= j < r.value ==> cands[j] !in existing
    ensures r.None? ==> forall j :: 0 <= j < |cands| ==> cands[j] !in existing
    decreases |cands|
  {
    if cands == [] then None
    else if cands[0] in existing then Some(0)
    else
      match FirstExisting(cands[1..], existing)
      case None => None
      case Some(k) => Some(k + 1)
  }

  /**
   * `resolve_executable` of the verifier: `Scripts/x`, `Scripts/x.exe`,
   * `bin/x`, `bin/x.exe` in that order, else the fallback.
   */
  method ResolveExecutableVerify(venv: Path, name: string, fallback: string, existing: set<Path>) returns (r: Exe)
    ensures FirstExisting(Candidates(venv, name), existing).None? ==> r == OnPath(fallback)
    ensures FirstExisting(Candidates(venv, name), existing).Some? ==>
      r == InVenv(Candidates(venv, name)[FirstExisting(Candidates(venv, name), existing).value])
  {
    var subdirs := ["Scripts", "bin"];
    ghost var cands := Candidates(venv, name);
    for i := 0 to 2
      invariant forall j :: 0 <= j < 2 * i ==> cands[j] !in existing
    {
      var candidate := Child(Child(venv, subdirs[i]), name);
      assert candidate == cands[2 * i];
      if candidate in existing {
        FirstIsIndex(cands, existing, 2 * i);
        return InVenv(candidate);
      }
      var candidateExe := Child(Child(venv, subdirs[i]), name + ".exe");
      assert candidateExe == cands[2 * i + 1];
      if candidateExe in existing {
        FirstIsIndex(cands, existing, 2 * i + 1);
        return InVenv(candidateExe);
      }
    }
    FirstNone(cands, existing);
    r := OnPath(fallback);
  }

  lemma {:induction false} FirstIsIndex(cands: seq<Path>, existing: set<Path>, k: nat)
    requires k < |cands| && cands[k] in existing && forall j :: 0 <= j < k ==> cands[j] !in existing
    ensures FirstExisting(cands, existing) == Some(k)
    decreases k
  {
    if k > 0 {
      assert cands[0] !in existing;
      assert forall j :: 0 <= j < k - 1 ==> cands[1..][j] == cands[j + 1];
      FirstIsIndex(cands[1..], existing, k - 1);
    }
  }

  lemma {:induction false} FirstNone(cands: seq<Path>, existing: set<Path>)
    requires forall j :: 0 <= j < |cands| ==> cands[j] !in existing
    ensures FirstExisting(cands, existing).None?
    decreases |cands|
  {
    if cands != [] {
      assert forall j :: 0 <= j < |cands| - 1 ==> cands[1..][j] == cands[j + 1];
      FirstNone(cands[1..], existing);
    }
  }

  /** Where the builder finds `<venv>/Scripts/x`, the verifier finds the same file. */
  lemma ResolversAgree(venv: Path, name: string, fallback: string, existing: set<Path>)
    requires ResolveExecutable(venv, name, fallback, existing).InVenv?
    ensures FirstExisting(Candidates(venv, name), existing) == Some(0)
    ensures Candidates(venv, name)[0] == ResolveExecutable(venv, name, fallback, existing).path
  {
    FirstIsIndex(Candidates(venv, name), existing, 0);
  }

  /** `find_mutate_target`: `put.py`, else `nds_script.py`, else nothing. */
  function FindMutateTarget(names: set<string>): (r: Option<string>)
    ensures r.Some? <==> "put.py" in names || "nds_script.py" in names
    ensures "put.py" in names ==> r == Some("put.py")
  {
    if "put.py" in names then Some("put.py")
    else if "nds_script.py" in names then Some("nds_script.py")
    else None
  }

  /** The two scripts choose the same target for the same directory. */
  lemma TargetsAgree(e: DirEntry)
    ensures FindMutateTarget(e.dirs + e.files) == ChooseMutateTarget(e)
  {
  }

  // ---------------------------------------------------------------------
  // Collecting test names
  // ---------------------------------------------------------------------

  /**
   * A statement of the parsed test module, with the statements nested in it.
   * Expression nodes never hold definitions and are left out; a statement
   * with several bodies (`try`, `if`) lists them in order.
   */
  datatype Node =
    | ClassDef(name: string, body: seq<Node>)
    | FunctionDef(name: string, body: seq<Node>)
    | OtherNode(body: seq<Node>)

  function Size(n: Node): nat
    decreases n
  {
    1 + SizeAll(n.body)
  }

  function SizeAll(ns: seq<Node>): nat
    decreases ns
  {
    if ns == [] then 0 else Size(ns[0]) + SizeAll(ns[1..])
  }

  lemma {:induction false} SizeAllAppend(a: seq<Node>, b: seq<Node>)
    ensures SizeAll(a + b) == SizeAll(a) + SizeAll(b)
    decreases |a|
  {
    if a == [] {
      assert a + b == b;
    } else {
      assert (a + b)[0] == a[0];
      assert (a + b)[1..] == a[1..] + b;
      SizeAllAppend(a[1..], b);
    }
  }

  /** `ast.walk`: breadth first from the queue's head, children appended at the back. */
  function Walk(queue: seq<Node>): seq<Node>
    decreases SizeAll(queue)
  {
    if queue == [] then []
    else
      SizeAllAppend(queue[1..], queue[0].body);
      assert SizeAll(queue) == 1 + SizeAll(queue[0].body) + SizeAll(queue[1..]);
      [queue[0]] + Walk(queue[1..] + queue[0].body)
  }

  predicate HasClass(walk: seq<Node>) {
    exists i :: 0 <= i < |walk| && walk[i].ClassDef?
  }

  datatype TestInfo = TestInfo(name: string, className: Option<string>, fullName: string)

  predicate IsTestName(s: string) {
    StartsWith(s, "test_")
  }

  /** A collected test is named `Class::method`, or by itself when bare. */
  predicate WellNamed(t: TestInfo) {
    && IsTestName(t.name)
    && (t.className.Some? ==> t.fullName == t.className.value + "::" + t.name)
    && (t.className.None? ==> t.fullName == t.name)
  }

  /** The `test_` functions directly in a class body, in order. */
  function MethodsOf(cls: string, body: seq<Node>): (r: seq<TestInfo>)
    ensures forall t :: t in r ==> WellNamed(t) && t.className == Some(cls)
    decreases |body|
  {
    if body == [] then []
    else
      var item := body[|body| - 1];
      MethodsOf(cls, body[..|body| - 1]) +
        (if item.FunctionDef? && IsTestName(item.name) then [TestInfo(item.name, Some(cls), cls + "::" + item.name)] else [])
  }

  /** Position `i` of a class body holds a `test_` function. */
  function TestDefAt(body: seq<Node>): nat -> bool {
    (i: nat) => i < |body| && body[i].FunctionDef? && IsTestName(body[i].name)
  }

  /** The test a `test_` method of class `cls` is collected as. */
  function MethodInfo(cls: string, name: string): TestInfo {
    TestInfo(name, Some(cls), cls + "::" + name)
  }

  /** The test collected for position `i` of a class body, when it holds a function. */
  function MethodImage(cls: string, body: seq<Node>): nat -> TestInfo {
    (i: nat) => MethodInfo(cls, if i < |body| && body[i].FunctionDef? then body[i].name else "")
  }

  /**
   * The methods are collected in body order: the k-th collected test is the
   * method at the k-th position of the body holding a `test_` function, so
   * every such method is collected, once per occurrence.
   */
  lemma MethodsInOrder(cls: string, body: seq<Node>)
    ensures var idx := Positions(|body|, TestDefAt(body), 0);
      && |MethodsOf(cls, body)| == |idx|
      && forall k :: 0 <= k < |idx| ==> MethodsOf(cls, body)[k] == MethodInfo(cls, body[idx[k]].name)
  {
    MethodsPrefix(cls, body, |body|);
    assert body[..|body|] == body;
    var idx := Positions(|body|, TestDefAt(body), 0);
    forall k | 0 <= k < |idx|
      ensures MethodsOf(cls, body)[k] == MethodInfo(cls, body[idx[k]].name)
    {
      assert TestDefAt(body)(idx[k]);
    }
  }

  lemma {:induction false} MethodsPrefix(cls: string, body: seq<Node>, n: nat)
    requires n <= |body|
    ensures var idx := Positions(n, TestDefAt(body), 0);
      && |MethodsOf(cls, body[..n])| == |idx|
      && forall k :: 0 <= k < |idx| ==> MethodsOf(cls, body[..n])[k] == MethodImage(cls, body)(idx[k])
    decreases n
  {
    if n > 0 {
      var m := n - 1;
      MethodsPrefix(cls, body, m);
      PositionsSnoc(m, TestDefAt(body), 0);
      MethodsSnoc(cls, body, n);
      SelectSnoc(MethodImage(cls, body), MethodsOf(cls, body[..m]), Positions(m, TestDefAt(body), 0), m, TestDefAt(body)(m));
    }
  }

  /** Widening the body prefix by one position appends that position's test, if any. */
  lemma MethodsSnoc(cls: string, body: seq<Node>, n: nat)
    requires 0 < n <= |body|
    ensures MethodsOf(cls, body[..n]) ==
      MethodsOf(cls, body[..n - 1]) + (if TestDefAt(body)(n - 1) then [MethodImage(cls, body)(n - 1)] else [])
  {
    var m := n - 1;
    assert body[..n][..m] == body[..m];
    assert body[..n][m] == body[m];
  }

  /** Every `test_` method of a class body is collected. */
  lemma MethodsComplete(cls: string, body: seq<Node>, i: nat)
    requires i < |body| && body[i].FunctionDef? && IsTestName(body[i].name)
    ensures MethodInfo(cls, body[i].name) in MethodsOf(cls, body)
  {
    MethodsInOrder(cls, body);
    var idx := Positions(|body|, TestDefAt(body), 0);
    assert TestDefAt(body)(i);
    var k :| 0 <= k < |idx| && idx[k] == i;
    assert MethodsOf(cls, body)[k] == MethodInfo(cls, body[i].name);
  }

  /** What one walked node contributes; bare functions only when the module has no class. */
  function Found(n: Node, hasClass: bool): (r: seq<TestInfo>)
    ensures forall t :: t in r ==> WellNamed(t)
    ensures forall t :: t in r ==> (t.className.Some? <==> n.ClassDef?)
    ensures hasClass && !n.ClassDef? ==> r == []
    ensures n.ClassDef? ==> r == MethodsOf(n.name, n.body)
    ensures n.FunctionDef? && IsTestName(n.name) && !hasClass ==> r == [TestInfo(n.name, None, n.name)]
    ensures n.OtherNode? || (n.FunctionDef? && !IsTestName(n.name)) ==> r == []
  {
    match n
    case ClassDef(c, body) => MethodsOf(c, body)
    case FunctionDef(f, _) => if IsTestName(f) && !hasClass then [TestInfo(f, None, f)] else []
    case OtherNode(_) => []
  }

  /** The tests collected over the walk, in walk order, duplicates included. */
  function Collected(walk: seq<Node>, hasClass: bool): seq<TestInfo>
    decreases |walk|
  {
    if walk == [] then []
    else Collected(walk[..|walk| - 1], hasClass) + Found(walk[|walk| - 1], hasClass)
  }

  /**
   * Every collected test is well named; with a class anywhere in the module
   * all of them are methods, and without one all of them are bare functions.
   */
  lemma {:induction false} CollectedKinds(walk: seq<Node>, hasClass: bool)
    ensures forall t :: t in Collected(walk, hasClass) ==> WellNamed(t)
    ensures hasClass ==> forall t :: t in Collected(walk, hasClass) ==> t.className.Some?
    ensures !HasClass(walk) ==> forall t :: t in Collected(walk, hasClass) ==> t.className.None?
    decreases |walk|
  {
    if walk != [] {
      var init := walk[..|walk| - 1];
      CollectedKinds(init, hasClass);
      if !HasClass(walk) {
        assert !HasClass(init) by {
          forall i | 0 <= i < |init| ensures !init[i].ClassDef? {
            assert init[i] == walk[i];
          }
        }
        assert !walk[|walk| - 1].ClassDef?;
      }
    }
  }

  /** Whatever a walked node contributes is collected. */
  lemma {:induction false} FoundCollected(walk: seq<Node>, hasClass: bool, i: nat)
    requires i < |walk|
    ensures forall t :: t in Found(walk[i], hasClass) ==> t in Collected(walk, hasClass)
    decreases |walk|
  {
    var n := |walk| - 1;
    var init := walk[..n];
    var before := Collected(init, hasClass);
    var last := Found(walk[n], hasClass);
    var found := Found(walk[i], hasClass);
    assert Collected(walk, hasClass) == before + last;
    if i < n {
      assert init[i] == walk[i];
      FoundCollected(init, hasClass, i);
      forall t | t in found ensures t in before + last {
        assert t in before;
      }
    } else {
      forall t | t in found ensures t in before + last {
        assert t in last;
      }
    }
  }

  /**
   * Every `test_` function the walk reaches is collected: the direct methods
   * of every class reached, and, when the module has no class, every bare
   * `test_` function reached, nested ones included.
   */
  lemma ReachedTestsCollected(walk: seq<Node>, i: nat)
    requires i < |walk|
    ensures walk[i].ClassDef? ==> forall m :: 0 <= m < |walk[i].body| && TestDefAt(walk[i].body)(m) ==>
      MethodInfo(walk[i].name, walk[i].body[m].name) in Collected(walk, HasClass(walk))
    ensures walk[i].FunctionDef? && IsTestName(walk[i].name) && !HasClass(walk) ==>
      TestInfo(walk[i].name, None, walk[i].name) in Collected(walk, HasClass(walk))
  {
    var node := walk[i];
    FoundCollected(walk, HasClass(walk), i);
    if node.ClassDef? {
      forall m | 0 <= m < |node.body| && TestDefAt(node.body)(m)
        ensures MethodInfo(node.name, node.body[m].name) in Collected(walk, HasClass(walk))
      {
        MethodsComplete(node.name, node.body, m);
      }
    }
  }

  function Names(ts: seq<TestInfo>): set<string> {
    set t | t in ts :: t.fullName
  }

  /** The first occurrence of each full name, in order. */
  function Dedup(ts: seq<TestInfo>): seq<TestInfo>
    decreases |ts|
  {
    if ts == [] then []
    else
      var d := Dedup(ts[..|ts| - 1]);
      var t := ts[|ts| - 1];
      if t.fullName in Names(d) then d else d + [t]
  }

  /** Deduplication keeps exactly the full names of its input. */
  lemma {:induction false} DedupNames(ts: seq<TestInfo>)
    ensures Names(Dedup(ts)) == Names(ts)
    decreases |ts|
  {
    if ts != [] {
      var init := ts[..|ts| - 1];
      var t := ts[|ts| - 1];
      DedupNames(init);
      assert ts == init + [t];
      assert Names(ts) == Names(init) + {t.fullName};
    }
  }

  /** Deduplication keeps each full name once. */
  lemma {:induction false} DedupDistinct(ts: seq<TestInfo>)
    ensures forall i, j :: 0 <= i < j < |Dedup(ts)| ==> Dedup(ts)[i].fullName != Dedup(ts)[j].fullName
    decreases |ts|
  {
    if ts != [] {
      var init := ts[..|ts| - 1];
      var t := ts[|ts| - 1];
      var d := Dedup(init);
      DedupDistinct(init);
      if t.fullName !in Names(d) {
        var r := d + [t];
        forall i, j | 0 <= i < j < |r| ensures r[i].fullName != r[j].fullName {
          if j == |d| {
            assert r[i] in d;
          }
        }
      }
    }
  }

  /** Each kept test is the first in the input with its full name. */
  lemma {:induction false} DedupFirst(ts: seq<TestInfo>)
    ensures forall t :: t in Dedup(ts) ==>
      exists k :: 0 <= k < |ts| && ts[k] == t && forall j :: 0 <= j < k ==> ts[j].fullName != t.fullName
    decreases |ts|
  {
    if ts != [] {
      var init := ts[..|ts| - 1];
      var t := ts[|ts| - 1];
      var d := Dedup(init);
      DedupFirst(init);
      DedupNames(init);
      forall u | u in Dedup(ts)
        ensures exists k :: 0 <= k < |ts| && ts[k] == u && forall j :: 0 <= j < k ==> ts[j].fullName != u.fullName
      {
        if u in d {
          var k :| 0 <= k < |init| && init[k] == u && forall j :: 0 <= j < k ==> init[j].fullName != u.fullName;
          assert ts[k] == u;
          forall j | 0 <= j < k ensures ts[j].fullName != u.fullName {
            assert ts[j] == init[j];
          }
        } else {
          assert u == t && t.fullName !in Names(d);
          forall j | 0 <= j < |init| ensures ts[j].fullName != u.fullName {
            assert ts[j] == init[j] && init[j] in init;
          }
        }
      }
    }
  }

  /** Position `i` holds the first test with its full name. */
  function FirstAt(ts: seq<TestInfo>): nat -> bool {
    (i: nat) => i < |ts| && forall j :: 0 <= j < i ==> ts[j].fullName != ts[i].fullName
  }

  /** A test is the first with its full name exactly when no earlier test has that name. */
  lemma FirstAtIff(ts: seq<TestInfo>, m: nat)
    requires m < |ts|
    ensures ts[m].fullName in Names(ts[..m]) <==> !FirstAt(ts)(m)
  {
    var pre := ts[..m];
    if ts[m].fullName in Names(pre) {
      var t :| t in pre && t.fullName == ts[m].fullName;
      var j :| 0 <= j < m && pre[j] == t;
      assert ts[j] == t;
    }
    if !FirstAt(ts)(m) {
      var j :| 0 <= j < m && ts[j].fullName == ts[m].fullName;
      assert pre[j] == ts[j];
    }
  }

  lemma {:induction false} DedupPrefix(ts: seq<TestInfo>, n: nat)
    requires n <= |ts|
    ensures var idx := Positions(n, FirstAt(ts), 0);
      && |Dedup(ts[..n])| == |idx|
      && forall k :: 0 <= k < |idx| ==> Dedup(ts[..n])[k] == ts[idx[k]]
    decreases n
  {
    if n > 0 {
      var m := n - 1;
      var pre := ts[..m];
      DedupPrefix(ts, m);
      PositionsSnoc(m, FirstAt(ts), 0);
      DedupNames(pre);
      FirstAtIff(ts, m);
      var d := Dedup(pre);
      assert ts[..n][..m] == pre && ts[..n][m] == ts[m];
      assert Dedup(ts[..n]) == if FirstAt(ts)(m) then d + [ts[m]] else d;
      SelectSnocFrom(ts, d, Positions(m, FirstAt(ts), 0), m, FirstAt(ts)(m));
    }
  }

  /** Deduplication keeps the first test of each full name, in input order. */
  lemma DedupInOrder(ts: seq<TestInfo>)
    ensures var idx := Positions(|ts|, FirstAt(ts), 0);
      && |Dedup(ts)| == |idx|
      && forall k :: 0 <= k < |idx| ==> Dedup(ts)[k] == ts[idx[k]]
  {
    DedupPrefix(ts, |ts|);
    assert ts[..|ts|] == ts;
  }

  /**
   * Deduplication keeps exactly the full names of its input, each once, and
   * each kept test is the first in the input with its name; the kept tests
   * are the tests at the first-occurrence positions, in increasing order.
   */
  lemma DedupSpec(ts: seq<TestInfo>)
    ensures Names(Dedup(ts)) == Names(ts)
    ensures forall i, j :: 0 <= i < j < |Dedup(ts)| ==> Dedup(ts)[i].fullName != Dedup(ts)[j].fullName
    ensures forall t :: t in Dedup(ts) ==>
      exists k :: 0 <= k < |ts| && ts[k] == t && forall j :: 0 <= j < k ==> ts[j].fullName != t.fullName
    ensures var idx := Positions(|ts|, FirstAt(ts), 0);
      && |Dedup(ts)| == |idx|
      && forall k :: 0 <= k < |idx| ==> Dedup(ts)[k] == ts[idx[k]]
  {
    DedupNames(ts);
    DedupDistinct(ts);
    DedupFirst(ts);
    DedupInOrder(ts);
  }

  /** The collecting loop of `extract_test_names` over the walked nodes. */
  method CollectTests(walk: seq<Node>, hasClass: bool) returns (tests: seq<TestInfo>)
    ensures tests == Collected(walk, hasClass)
  {
    tests := [];
    for i := 0 to |walk|
      invariant tests == Collected(walk[..i], hasClass)
    {
      var node := walk[i];
      assert walk[..i + 1][..i] == walk[..i];
      if node.ClassDef? {
        var found := ClassTests(node.name, node.body);
        tests := tests + found;
      } else if node.FunctionDef? && StartsWith(node.name, "test_") {
        if !hasClass {
          tests := tests + [TestInfo(node.name, None, node.name)];
        }
      }
    }
    assert walk[..|walk|] == walk;
  }

  /** The inner loop of `extract_test_names` over one class body. */
  method ClassTests(cls: string, body: seq<Node>) returns (found: seq<TestInfo>)
    ensures found == MethodsOf(cls, body)
  {
    found := [];
    for j := 0 to |body|
      invariant found == MethodsOf(cls, body[..j])
    {
      var item := body[j];
      assert body[..j + 1][..j] == body[..j];
      if item.FunctionDef? && StartsWith(item.name, "test_") {
        found := found + [TestInfo(item.name, Some(cls), cls + "::" + item.name)];
      }
    }
    assert body[..|body|] == body;
  }

  /** The deduplicating loop of `extract_test_names`, through a `seen` set. */
  method DedupTests(tests: seq<TestInfo>) returns (unique: seq<TestInfo>)
    ensures unique == Dedup(tests)
  {
    var seen: set<string> := {};
    unique := [];
    for k := 0 to |tests|
      invariant unique == Dedup(tests[..k])
      invariant seen == Names(unique)
    {
      var t := tests[k];
      assert tests[..k + 1][..k] == tests[..k];
      if t.fullName !in seen {
        seen := seen + {t.fullName};
        unique := unique + [t];
      }
    }
    assert tests[..|tests|] == tests;
  }

  /** The tests `extract_test_names` finds in a parsed module (`None` when reading or parsing raised). */
  function TestsOf(tree: Option<Node>): seq<TestInfo> {
    if tree.None? then [] else Dedup(Collected(Walk([tree.value]), HasClass(Walk([tree.value]))))
  }

  /**
   * `extract_test_names`: collects over `ast.walk` of the parsed module, then
   * keeps each full name's first occurrence. The source re-walks the tree to
   * look for a class for every bare function; the answer is the same each
   * time, so it is taken once here.
   */
  method ExtractTestNames(tree: Option<Node>) returns (unique: seq<TestInfo>)
    ensures unique == TestsOf(tree)
  {
    if tree.None? {
      return [];
    }
    var walk := Walk([tree.value]);
    var hasClass := exists i :: 0 <= i < |walk| && walk[i].ClassDef?;
    var tests := CollectTests(walk, hasClass);
    unique := DedupTests(tests);
  }

  // ---------------------------------------------------------------------
  // Running the pairs
  // ---------------------------------------------------------------------

  /** How `mutmut apply <id>` ended: an exit code with its stderr, a timeout, or another exception. */
  datatype ApplyOutcome = ApplyExit(code: int, stderr: string) | ApplyTimeout | ApplyRaised(message: string)

  /** How the single `pytest` run ended. */
  datatype PytestOutcome = PytestExit(code: int) | PytestTimeout | PytestRaised(message: string)

  /** `run_single_test_against_mutant`: whether the test killed the mutant, and the error if it could not tell. */
  function ClassifyRun(apply: ApplyOutcome, pytest: PytestOutcome): (r: (bool, Option<string>))
    ensures r.0 <==> apply.ApplyExit? && apply.code == 0 && pytest.PytestExit? && pytest.code != 0
    ensures r.0 ==> r.1.None?
    ensures apply.ApplyExit? && apply.code == 0 && pytest.PytestExit? ==> r.1.None?
    ensures apply.ApplyExit? && apply.code != 0 ==> r.1 == Some("Failed to apply mutant: " + apply.stderr)
    ensures apply.ApplyTimeout? || (apply.ApplyExit? && apply.code == 0 && pytest.PytestTimeout?) ==>
      r == (false, Some("timeout"))
  {
    match apply
    case ApplyTimeout => (false, Some("timeout"))
    case ApplyRaised(msg) => (false, Some(msg))
    case ApplyExit(code, stderr) =>
      if code != 0 then (false, Some("Failed to apply mutant: " + stderr))
      else
        match pytest
        case PytestExit(rc) => (rc != 0, None)
        case PytestTimeout => (false, Some("timeout"))
        case PytestRaised(msg) => (false, Some(msg))
  }

  datatype MutantInfo = MutantInfo(id: int, line: int, statusFullSuite: string)

  datatype PairResult = PairResult(mutantId: int, testName: string, killed: bool, error: Option<string>)

  /** The outcome of run number `k` (counted from 1) for a mutant id and a test name. */
  type Runner = (nat, int, string) -> (ApplyOutcome, PytestOutcome)

  function PairOf(run: Runner, k: nat, m: MutantInfo, t: TestInfo): PairResult {
    var outcome := run(k, m.id, t.fullName);
    var c := ClassifyRun(outcome.0, outcome.1);
    PairResult(m.id, t.fullName, c.0, c.1)
  }

  /** One mutant against every test, the runs numbered on from `offset`. */
  function RowOf(m: MutantInfo, tests: seq<TestInfo>, run: Runner, offset: nat): (r: seq<PairResult>)
    ensures |r| == |tests|
  {
    seq(|tests|, j requires 0 <= j < |tests| => PairOf(run, offset + j + 1, m, tests[j]))
  }

  /** Every mutant against every test, mutant-major. */
  function Grid(mutants: seq<MutantInfo>, tests: seq<TestInfo>, run: Runner): (r: seq<PairResult>)
    ensures |r| == |mutants| * |tests|
    decreases |mutants|
  {
    if mutants == [] then []
    else
      var n := |mutants| - 1;
      Grid(mutants[..n], tests, run) + RowOf(mutants[n], tests, run, n * |tests|)
  }

  /** The nested loop of `verify_mutant_test_mapping`, with its run counter. */
  method RunAllPairs(mutants: seq<MutantInfo>, tests: seq<TestInfo>, run: Runner) returns (results: seq<PairResult>)
    ensures results == Grid(mutants, tests, run)
  {
    results := [];
    var currentRun := 0;
    for i := 0 to |mutants|
      invariant results == Grid(mutants[..i], tests, run)
      invariant currentRun == i * |tests|
    {
      assert mutants[..i + 1][..i] == mutants[..i];
      ghost var row := RowOf(mutants[i], tests, run, i * |tests|);
      for j := 0 to |tests|
        invariant results == Grid(mutants[..i], tests, run) + row[..j]
        invariant currentRun == i * |tests| + j
      {
        currentRun := currentRun + 1;
        var outcome := run(currentRun, mutants[i].id, tests[j].fullName);
        var c := ClassifyRun(outcome.0, outcome.1);
        results := results + [PairResult(mutants[i].id, tests[j].fullName, c.0, c.1)];
        assert row[..j + 1] == row[..j] + [row[j]];
      }
      assert row[..|tests|] == row;
      assert (i + 1) * |tests| == i * |tests| + |tests|;
    }
    assert mutants[..|mutants|] == mutants;
  }

  lemma MulMono(a: nat, b: nat, t: nat)
    requires a <= b
    ensures a * t <= b * t
  {
  }

  /**
   * Position `i * |tests| + j` of the results holds mutant `i` against test
   * `j`, from run number `i * |tests| + j + 1`.
   */
  lemma {:induction false} GridIndex(mutants: seq<MutantInfo>, tests: seq<TestInfo>, run: Runner, i: nat, j: nat)
    requires i < |mutants| && j < |tests|
    ensures i * |tests| + j < |Grid(mutants, tests, run)|
    ensures Grid(mutants, tests, run)[i * |tests| + j] == PairOf(run, i * |tests| + j + 1, mutants[i], tests[j])
    decreases |mutants|
  {
    var n := |mutants| - 1;
    var t := |tests|;
    MulMono(i + 1, n + 1, t);
    assert (i + 1) * t == i * t + t;
    if i < n {
      MulMono(i + 1, n, t);
      assert mutants[..n][i] == mutants[i];
      GridIndex(mutants[..n], tests, run, i, j);
    }
  }

  /** Each (mutant, test) pair appears once when mutant ids and test names are distinct. */
  lemma {:induction false} GridPairsDistinct(mutants: seq<MutantInfo>, tests: seq<TestInfo>, run: Runner)
    requires forall a, b :: 0 <= a < b < |mutants| ==> mutants[a].id != mutants[b].id
    requires forall a, b :: 0 <= a < b < |tests| ==> tests[a].fullName != tests[b].fullName
    ensures forall k1, k2 :: 0 <= k1 < k2 < |Grid(mutants, tests, run)| ==>
      (Grid(mutants, tests, run)[k1].mutantId, Grid(mutants, tests, run)[k1].testName) !=
      (Grid(mutants, tests, run)[k2].mutantId, Grid(mutants, tests, run)[k2].testName)
    ensures forall k :: 0 <= k < |Grid(mutants, tests, run)| ==>
      exists a :: 0 <= a < |mutants| && Grid(mutants, tests, run)[k].mutantId == mutants[a].id
    decreases |mutants|
  {
    if mutants != [] {
      var n := |mutants| - 1;
      var init := mutants[..n];
      GridPairsDistinct(init, tests, run);
      var g := Grid(init, tests, run);
      var row := RowOf(mutants[n], tests, run, n * |tests|);
      var all := g + row;
      assert Grid(mutants, tests, run) == all;
      forall k | 0 <= k < |all| ensures exists a :: 0 <= a < |mutants| && all[k].mutantId == mutants[a].id {
        if k < |g| {
          var a :| 0 <= a < |init| && g[k].mutantId == init[a].id;
          assert init[a] == mutants[a] && all[k] == g[k];
          assert 0 <= a < |mutants| && all[k].mutantId == mutants[a].id;
        } else {
          assert all[k] == row[k - |g|];
          assert 0 <= n < |mutants| && all[k].mutantId == mutants[n].id;
        }
      }
      forall k1, k2 | 0 <= k1 < k2 < |all|
        ensures (all[k1].mutantId, all[k1].testName) != (all[k2].mutantId, all[k2].testName)
      {
        if k2 < |g| {
          assert all[k1] == g[k1] && all[k2] == g[k2];
        } else if k1 < |g| {
          var a :| 0 <= a < |init| && g[k1].mutantId == init[a].id;
          assert init[a] == mutants[a];
          assert all[k2].mutantId == mutants[n].id;
        } else {
          assert all[k1].testName == tests[k1 - |g|].fullName;
          assert all[k2].testName == tests[k2 - |g|].fullName;
        }
      }
    } else {
      assert |Grid(mutants, tests, run)| == 0;
    }
  }

  /** What `verify_mutant_test_mapping` returns. */
  datatype Verification = Verification(mutants: seq<MutantInfo>, tests: seq<TestInfo>, results: seq<PairResult>)

  /**
   * `verify_mutant_test_mapping`, given the directory's mutate target, whether
   * the full run was skipped or succeeded, the mutants read from the cache,
   * the parsed test module, and the outcome of each run.
   */
  method VerifyMutantTestMapping(target: Option<string>, skipFullRun: bool, fullRunOk: bool,
                                 cached: seq<MutantInfo>, tree: Option<Node>, run: Runner)
    returns (v: Verification)
    ensures target.None? || (!skipFullRun && !fullRunOk) || cached == [] ==> v == Verification([], [], [])
    ensures target.Some? && (skipFullRun || fullRunOk) && cached != [] && TestsOf(tree) == [] ==>
      v == Verification(cached, [], [])
    ensures target.Some? && (skipFullRun || fullRunOk) && cached != [] && TestsOf(tree) != [] ==>
      v == Verification(cached, TestsOf(tree), Grid(cached, TestsOf(tree), run))
  {
    if target.None? {
      return Verification([], [], []);
    }
    if !skipFullRun && !fullRunOk {
      return Verification([], [], []);
    }
    if cached == [] {
      return Verification([], [], []);
    }
    var tests := ExtractTestNames(tree);
    if tests == [] {
      return Verification(cached, [], []);
    }
    var results := RunAllPairs(cached, tests, run);
    v := Verification(cached, tests, results);
  }

  // ---------------------------------------------------------------------
  // The kill matrix and the summary
  // ---------------------------------------------------------------------

  /** `kill_map` as the loop leaves it: each pair maps to its last result. */
  function KillMapOf(results: seq<PairResult>): map<(int, string), bool>
    decreases |results|
  {
    if results == [] then map[]
    else
      var r := results[|results| - 1];
      KillMapOf(results[..|results| - 1])[(r.mutantId, r.testName) := r.killed]
  }

  method BuildKillMap(results: seq<PairResult>) returns (killMap: map<(int, string), bool>)
    ensures killMap == KillMapOf(results)
  {
    killMap := map[];
    for i := 0 to |results|
      invariant killMap == KillMapOf(results[..i])
    {
      assert results[..i + 1][..i] == results[..i];
      var r := results[i];
      killMap := killMap[(r.mutantId, r.testName) := r.killed];
    }
    assert results[..|results|] == results;
  }

  /** `kill_map.get(pair, False)`. */
  function Killed(killMap: map<(int, string), bool>, id: int, test: string): bool {
    (id, test) in killMap && killMap[(id, test)]
  }

  /** A pair maps to the result of its last occurrence; a pair never run is not killed. */
  lemma {:induction false} KillMapLastWins(results: seq<PairResult>, k: int)
    requires 0 <= k < |results|
    requires forall j :: k < j < |results| ==>
      (results[j].mutantId, results[j].testName) != (results[k].mutantId, results[k].testName)
    ensures Killed(KillMapOf(results), results[k].mutantId, results[k].testName) == results[k].killed
    decreases |results|
  {
    var n := |results| - 1;
    if k < n {
      assert results[..n][k] == results[k];
      KillMapLastWins(results[..n], k);
    }
  }

  lemma {:induction false} KillMapMissing(results: seq<PairResult>, id: int, test: string)
    requires forall j :: 0 <= j < |results| ==> (results[j].mutantId, results[j].testName) != (id, test)
    ensures !Killed(KillMapOf(results), id, test)
    decreases |results|
  {
    if results != [] {
      var n := |results| - 1;
      KillMapMissing(results[..n], id, test);
    }
  }

  /**
   * With distinct mutant ids and distinct test names, the kill map built from
   * the results says of mutant `i` and test `j` exactly what their run said.
   */
  lemma MatrixFaithful(mutants: seq<MutantInfo>, tests: seq<TestInfo>, run: Runner, i: nat, j: nat)
    requires forall a, b :: 0 <= a < b < |mutants| ==> mutants[a].id != mutants[b].id
    requires forall a, b :: 0 <= a < b < |tests| ==> tests[a].fullName != tests[b].fullName
    requires i < |mutants| && j < |tests|
    ensures Killed(KillMapOf(Grid(mutants, tests, run)), mutants[i].id, tests[j].fullName) ==
      PairOf(run, i * |tests| + j + 1, mutants[i], tests[j]).killed
  {
    var g := Grid(mutants, tests, run);
    GridIndex(mutants, tests, run, i, j);
    GridPairsDistinct(mutants, tests, run);
    KillMapLastWins(g, i * |tests| + j);
  }

  /** A mutant id that was never cached is never marked killed. */
  lemma UncachedNotKilled(mutants: seq<MutantInfo>, tests: seq<TestInfo>, run: Runner, id: int, test: string)
    requires forall a, b :: 0 <= a < b < |mutants| ==> mutants[a].id != mutants[b].id
    requires forall a, b :: 0 <= a < b < |tests| ==> tests[a].fullName != tests[b].fullName
    requires forall a :: 0 <= a < |mutants| ==> mutants[a].id != id
    ensures !Killed(KillMapOf(Grid(mutants, tests, run)), id, test)
  {
    GridPairsDistinct(mutants, tests, run);
    KillMapMissing(Grid(mutants, tests, run), id, test);
  }

  /** The tests that kill one mutant, in test order. */
  function Killers(killMap: map<(int, string), bool>, id: int, tests: seq<TestInfo>): (r: seq<string>)
    ensures forall name :: name in r <==>
      exists j :: 0 <= j < |tests| && tests[j].fullName == name && Killed(killMap, id, name)
    ensures |r| <= |tests|
    decreases |tests|
  {
    if tests == [] then []
    else
      var rest := Killers(killMap, id, tests[1..]);
      assert forall j :: 1 <= j < |tests| ==> tests[j] == tests[1..][j - 1];
      (if Killed(killMap, id, tests[0].fullName) then [tests[0].fullName] else []) + rest
  }

  /** The mutants one test kills, in mutant order. */
  function KilledMutants(killMap: map<(int, string), bool>, mutants: seq<MutantInfo>, test: string): (r: seq<int>)
    ensures forall id :: id in r <==>
      exists i :: 0 <= i < |mutants| && mutants[i].id == id && Killed(killMap, id, test)
    ensures |r| <= |mutants|
    decreases |mutants|
  {
    if mutants == [] then []
    else
      var rest := KilledMutants(killMap, mutants[1..], test);
      assert forall i :: 1 <= i < |mutants| ==> mutants[i] == mutants[1..][i - 1];
      (if Killed(killMap, mutants[0].id, test) then [mutants[0].id] else []) + rest
  }

  /** Position `j` holds a test that kills mutant `id`. */
  function KillsAt(killMap: map<(int, string), bool>, id: int, tests: seq<TestInfo>): nat -> bool {
    (j: nat) => j < |tests| && Killed(killMap, id, tests[j].fullName)
  }

  lemma {:induction false} KillersFrom(killMap: map<(int, string), bool>, id: int, tests: seq<TestInfo>, from: nat)
    requires from <= |tests|
    ensures var idx := Positions(|tests|, KillsAt(killMap, id, tests), from);
      && |Killers(killMap, id, tests[from..])| == |idx|
      && forall k :: 0 <= k < |idx| ==> Killers(killMap, id, tests[from..])[k] == tests[idx[k]].fullName
    decreases |tests| - from
  {
    if from < |tests| {
      KillersFrom(killMap, id, tests, from + 1);
      assert tests[from..][1..] == tests[from + 1..];
      var img := (j: nat) => if j < |tests| then tests[j].fullName else "";
      SelectCons(img, Killers(killMap, id, tests[from + 1..]), Positions(|tests|, KillsAt(killMap, id, tests), from + 1),
        from, KillsAt(killMap, id, tests)(from));
    }
  }

  /**
   * The killers are listed in test order: the k-th is the full name of the
   * test at the k-th position whose test kills the mutant.
   */
  lemma KillersInOrder(killMap: map<(int, string), bool>, id: int, tests: seq<TestInfo>)
    ensures var idx := Positions(|tests|, KillsAt(killMap, id, tests), 0);
      && |Killers(killMap, id, tests)| == |idx|
      && forall k :: 0 <= k < |idx| ==> Killers(killMap, id, tests)[k] == tests[idx[k]].fullName
  {
    KillersFrom(killMap, id, tests, 0);
    assert tests[0..] == tests;
  }

  /** Position `i` holds a mutant that `test` kills. */
  function KilledAt(killMap: map<(int, string), bool>, mutants: seq<MutantInfo>, test: string): nat -> bool {
    (i: nat) => i < |mutants| && Killed(killMap, mutants[i].id, test)
  }

  lemma {:induction false} KilledMutantsFrom(killMap: map<(int, string), bool>, mutants: seq<MutantInfo>, test: string, from: nat)
    requires from <= |mutants|
    ensures var idx := Positions(|mutants|, KilledAt(killMap, mutants, test), from);
      && |KilledMutants(killMap, mutants[from..], test)| == |idx|
      && forall k :: 0 <= k < |idx| ==> KilledMutants(killMap, mutants[from..], test)[k] == mutants[idx[k]].id
    decreases |mutants| - from
  {
    if from < |mutants| {
      KilledMutantsFrom(killMap, mutants, test, from + 1);
      assert mutants[from..][1..] == mutants[from + 1..];
      var img := (i: nat) => if i < |mutants| then mutants[i].id else 0;
      SelectCons(img, KilledMutants(killMap, mutants[from + 1..], test), Positions(|mutants|, KilledAt(killMap, mutants, test), from + 1),
        from, KilledAt(killMap, mutants, test)(from));
    }
  }

  /**
   * The killed mutants are listed in mutant order: the k-th is the id of the
   * mutant at the k-th position that the test kills.
   */
  lemma KilledMutantsInOrder(killMap: map<(int, string), bool>, mutants: seq<MutantInfo>, test: string)
    ensures var idx := Positions(|mutants|, KilledAt(killMap, mutants, test), 0);
      && |KilledMutants(killMap, mutants, test)| == |idx|
      && forall k :: 0 <= k < |idx| ==> KilledMutants(killMap, mutants, test)[k] == mutants[idx[k]].id
  {
    KilledMutantsFrom(killMap, mutants, test, 0);
    assert mutants[0..] == mutants;
  }

  /** The two summaries of the matrix agree: a test kills a mutant in one exactly when it does in the other. */
  lemma SummariesAgree(killMap: map<(int, string), bool>, mutants: seq<MutantInfo>, tests: seq<TestInfo>, i: int, j: int)
    requires 0 <= i < |mutants| && 0 <= j < |tests|
    ensures tests[j].fullName in Killers(killMap, mutants[i].id, tests) <==>
      mutants[i].id in KilledMutants(killMap, mutants, tests[j].fullName)
  {
  }

  datatype Summary = Summary(totalMutants: nat, totalTests: nat, totalCombinations: nat, kills: nat)

  function CountKilled(results: seq<PairResult>): (n: nat)
    ensures n <= |results|
    decreases |results|
  {
    if results == [] then 0
    else (if results[0].killed then 1 else 0) + CountKilled(results[1..])
  }

  /** The summary `save_results` writes. */
  function SummaryOf(v: Verification): (s: Summary)
    ensures s.totalCombinations == |v.results| && s.kills <= s.totalCombinations
    ensures s.kills == CountKilled(v.results)
    ensures s.totalMutants == |v.mutants| && s.totalTests == |v.tests|
  {
    Summary(|v.mutants|, |v.tests|, |v.results|, CountKilled(v.results))
  }

  /** No kill is counted when every result survived or failed. */
  lemma {:induction false} NoKills(results: seq<PairResult>)
    ensures CountKilled(results) == 0 <==> forall k :: 0 <= k < |results| ==> !results[k].killed
  {
    if results != [] {
      NoKills(results[1..]);
      assert forall k :: 1 <= k < |results| ==> results[k] == results[1..][k - 1];
    }
  }

  // ---------------------------------------------------------------------
  // main
  // ---------------------------------------------------------------------

  /** The repository root as given on the command line: its resolved path and whether it exists. */
  datatype RootOption = NoRootGiven | RootGiven(path: Path, exists_: bool)

  /**
   * `main` after parsing: checks the root and the test directory, runs the
   * verification, and exits 0 exactly when it produced mutants, tests and
   * results.
   */
  method ExitStatus(root: RootOption, testDir: Path, testDirExists: bool, names: set<string>,
                    skipFullRun: bool, fullRunOk: bool, cached: seq<MutantInfo>, tree: Option<Node>, run: Runner)
    returns (exitCode: int)
    ensures exitCode == 0 || exitCode == 1
    ensures root.RootGiven? && !root.exists_ ==> exitCode == 1
    ensures root.RootGiven? && !IsWithin(root.path, testDir) ==> exitCode == 1
    ensures !testDirExists || "test_final.py" !in names ==> exitCode == 1
    ensures exitCode == 0 <==>
      && (root.RootGiven? ==> root.exists_ && IsWithin(root.path, testDir))
      && testDirExists && "test_final.py" in names
      && FindMutateTarget(names).Some? && (skipFullRun || fullRunOk)
      && cached != [] && TestsOf(tree) != []
  {
    if root.RootGiven? {
      if !root.exists_ {
        return 1;
      }
      if !IsWithin(root.path, testDir) {
        return 1;
      }
    }
    if !testDirExists {
      return 1;
    }
    if "test_final.py" !in names {
      return 1;
    }
    var v := VerifyMutantTestMapping(FindMutateTarget(names), skipFullRun, fullRunOk, cached, tree, run);
    if cached != [] && TestsOf(tree) != [] {
      MulMono(1, |cached|, |TestsOf(tree)|);
    }
    if v.mutants != [] && v.tests != [] && v.results != [] {
      exitCode := 0;
    } else {
      exitCode := 1;
    }
  }
}
