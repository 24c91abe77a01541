/**
 * The guarded removal of a test directory's `.mutmut-cache`, in its two
 * versions: the benchmark builder's, which always checks containment in the
 * repository root, and the kill-matrix verifier's, where the root is
 * optional. Both decide an action; performing it is left to the caller.
 */
module CacheGuard {
  import opened Wrappers
  import opened Paths

  /** What `.mutmut-cache` is on disk. `exists()` follows links, so a dangling link does not exist. */
  datatype CacheKind = Absent | DanglingLink | Link | RegularFile | Directory | Special {
    predicate Exists() {
      !(Absent? || DanglingLink?)
    }
  }

  /**
   * A test directory as the guard sees it: its `resolve()`d path (`None` when
   * resolution raised), the names in it that `exists()`, and the cache kind.
   */
  datatype TestDirState = TestDirState(resolved: Option<Path>, names: set<string>, cache: CacheKind)

  datatype Refusal = ResolutionFailed | RootResolutionFailed | OutsideRoot | MissingTestFile | NoMutateTarget

  datatype CacheAction =
    | Refuse(reason: Refusal)
    | NothingToDelete
    | Unlink(target: Path)
    | RemoveTree(target: Path)
    | UnknownType
  {
    predicate Deletes() {
      Unlink? || RemoveTree?
    }
  }

  const CacheName: string := ".mutmut-cache"

  predicate HasMutateTarget(names: set<string>) {
    "put.py" in names || "nds_script.py" in names
  }

  /** The final step shared by both versions, once the directory has passed every check. */
  function CacheStep(dir: Path, cache: CacheKind): (a: CacheAction)
    ensures a.Deletes() <==> cache.Exists() && cache != Special
    ensures a.Deletes() ==> a.target == Child(dir, CacheName)
    ensures a.RemoveTree? <==> cache == Directory
    ensures !a.Refuse?
  {
    if !cache.Exists() then NothingToDelete
    else if cache == Link || cache == RegularFile then Unlink(Child(dir, CacheName))
    else if cache == Directory then RemoveTree(Child(dir, CacheName))
    else UnknownType
  }

  /**
   * `remove_mutmut_cache` of the benchmark builder. `root` is the resolved
   * repository root, `None` when its resolution raised.
   */
  function RemoveCacheRun(dir: TestDirState, root: Option<Path>): (a: CacheAction)
    ensures a == Refuse(ResolutionFailed) <==> dir.resolved.None? || root.None?
    ensures a == Refuse(OutsideRoot) <==>
      dir.resolved.Some? && root.Some? && !IsWithin(root.value, dir.resolved.value)
    ensures a.Deletes() <==>
      && dir.resolved.Some? && root.Some? && IsWithin(root.value, dir.resolved.value)
      && "test_final.py" in dir.names && HasMutateTarget(dir.names)
      && dir.cache.Exists() && dir.cache != Special
  {
    if dir.resolved.None? || root.None? then Refuse(ResolutionFailed)
    else if !IsWithin(root.value, dir.resolved.value) then Refuse(OutsideRoot)
    else if "test_final.py" !in dir.names then Refuse(MissingTestFile)
    else if !HasMutateTarget(dir.names) then Refuse(NoMutateTarget)
    else CacheStep(dir.resolved.value, dir.cache)
  }

  /** Whatever the builder deletes is the cache inside the repository root. */
  lemma RunDeletesInsideRoot(dir: TestDirState, root: Option<Path>)
    requires RemoveCacheRun(dir, root).Deletes()
    ensures root.Some?
    ensures RemoveCacheRun(dir, root).target == Child(dir.resolved.value, CacheName)
    ensures IsWithin(root.value, RemoveCacheRun(dir, root).target)
  {
    ChildWithin(dir.resolved.value, CacheName);
    WithinTransitive(root.value, dir.resolved.value, Child(dir.resolved.value, CacheName));
  }

  /** The verifier's optional repository root: not given, or given and resolved (`None` if that raised). */
  datatype RootArg = NoRoot | GivenRoot(resolved: Option<Path>)

  /** `remove_mutmut_cache` of the kill-matrix verifier. */
  function RemoveCacheVerify(dir: TestDirState, root: RootArg): (a: CacheAction)
    ensures a == Refuse(ResolutionFailed) <==> dir.resolved.None?
    ensures a == Refuse(RootResolutionFailed) <==>
      dir.resolved.Some? && root == GivenRoot(None)
    ensures a.Deletes() <==>
      && dir.resolved.Some?
      && (root.GivenRoot? ==> root.resolved.Some? && IsWithin(root.resolved.value, dir.resolved.value))
      && "test_final.py" in dir.names && HasMutateTarget(dir.names)
      && dir.cache.Exists() && dir.cache != Special
  {
    if dir.resolved.None? then Refuse(ResolutionFailed)
    else if root.GivenRoot? && root.resolved.None? then Refuse(RootResolutionFailed)
    else if root.GivenRoot? && !IsWithin(root.resolved.value, dir.resolved.value) then Refuse(OutsideRoot)
    else if "test_final.py" !in dir.names then Refuse(MissingTestFile)
    else if !HasMutateTarget(dir.names) then Refuse(NoMutateTarget)
    else CacheStep(dir.resolved.value, dir.cache)
  }

  /**
   * Given the repository root, the two versions take the same action, except
   * that the verifier names a failed root resolution separately.
   */
  lemma GuardsAgree(dir: TestDirState, root: Option<Path>)
    ensures RemoveCacheVerify(dir, GivenRoot(root)) == RemoveCacheRun(dir, root) ||
      (dir.resolved.Some? && root.None? &&
       RemoveCacheVerify(dir, GivenRoot(root)) == Refuse(RootResolutionFailed) &&
       RemoveCacheRun(dir, root) == Refuse(ResolutionFailed))
  {
  }

  /** Without a root the verifier still deletes only a cache beside `test_final.py` and a mutate target. */
  lemma VerifyDeletesOnlyTestDirs(dir: TestDirState, root: RootArg)
    requires RemoveCacheVerify(dir, root).Deletes()
    ensures "test_final.py" in dir.names && HasMutateTarget(dir.names)
    ensures RemoveCacheVerify(dir, root).target == Child(dir.resolved.value, CacheName)
    ensures root.GivenRoot? ==> IsWithin(root.resolved.value, RemoveCacheVerify(dir, root).target)
  {
    if root.GivenRoot? {
      ChildWithin(dir.resolved.value, CacheName);
      WithinTransitive(root.resolved.value, dir.resolved.value, Child(dir.resolved.value, CacheName));
    }
  }
}
