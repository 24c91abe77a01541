/**
 * The benchmark builder's two process-wide tables: one lock per test
 * directory, created on first use, and the running `mutmut` processes by
 * pid. The tables are modelled single-threaded; the locks guarding them are
 * not modelled.
 */
module RunRegistry {
  import opened Paths

  /** A `threading.Lock`; only its identity matters here. */
  class DirLock {
    constructor() {}
  }

  /** A `subprocess.Popen`, by its pid. */
  class Process {
    const pid: int

    constructor(pid: int)
      ensures this.pid == pid
    {
      this.pid := pid;
    }
  }

  class Registry {
    var locks: map<Path, DirLock>
    var procs: map<int, Process>

    /** Each directory has its own lock, and each process is filed under its own pid. */
    predicate Valid()
      reads this, procs.Values
    {
      && (forall a, b :: a in locks && b in locks && a != b ==> locks[a] != locks[b])
      && (forall pid :: pid in procs ==> procs[pid].pid == pid)
    }

    constructor()
      ensures Valid() && locks == map[] && procs == map[]
    {
      locks := map[];
      procs := map[];
    }

    /** `get_per_dir_lock`: the directory's lock, created and filed the first time it is asked for. */
    method GetPerDirLock(dir: Path) returns (lock: DirLock)
      requires Valid()
      modifies this
      ensures Valid()
      ensures dir in old(locks) ==> lock == old(locks)[dir] && locks == old(locks)
      ensures dir !in old(locks) ==> fresh(lock) && locks == old(locks)[dir := lock]
      ensures procs == old(procs)
      ensures dir in locks && locks[dir] == lock
    {
      if dir in locks {
        lock := locks[dir];
      } else {
        lock := new DirLock();
        locks := locks[dir := lock];
      }
    }

    /** `register_proc`: files the process under its pid, replacing any earlier one. */
    method RegisterProc(p: Process)
      requires Valid()
      modifies this
      ensures Valid()
      ensures procs == old(procs)[p.pid := p] && locks == old(locks)
    {
      procs := procs[p.pid := p];
    }

    /** `unregister_proc`: forgets whatever is filed under the pid, if anything. */
    method UnregisterProc(p: Process)
      requires Valid()
      modifies this
      ensures Valid()
      ensures procs == old(procs) - {p.pid} && locks == old(locks)
    {
      procs := procs - {p.pid};
    }
  }

  /** Asking twice for one directory's lock gives the same lock and creates nothing more. */
  method LockTwice(r: Registry, dir: Path) returns (first: DirLock, second: DirLock)
    requires r.Valid()
    modifies r
    ensures first == second && r.Valid()
    ensures r.locks.Keys == old(r.locks.Keys) + {dir}
  {
    first := r.GetPerDirLock(dir);
    second := r.GetPerDirLock(dir);
  }

  /** Two different directories never share a lock. */
  method LocksDiffer(r: Registry, a: Path, b: Path) returns (la: DirLock, lb: DirLock)
    requires r.Valid() && a != b
    modifies r
    ensures la != lb && r.Valid()
  {
    la := r.GetPerDirLock(a);
    lb := r.GetPerDirLock(b);
  }

  /** Registering and then unregistering a process leaves no entry for its pid. */
  method RegisterThenUnregister(r: Registry, p: Process)
    requires r.Valid()
    modifies r
    ensures r.Valid() && p.pid !in r.procs
    ensures r.procs == old(r.procs) - {p.pid}
  {
    r.RegisterProc(p);
    r.UnregisterProc(p);
  }
}
