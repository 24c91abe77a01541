/**
 * Command-line validation and small helpers of the benchmark builder.
 */
module RunConfig {
  import opened Wrappers
  import opened Text
  import opened Paths

  const MaxJobs: int := 8
  const DefaultTimeout: int := 300
  const DefaultJobs: int := 1
  const DefaultHashSeed: string := "0"
  const ScanRoots: seq<string> := ["completions", "assistant"]

  /** The validated options that matter to the model; paths are taken as already resolved. */
  datatype Config = Config(timeoutSeconds: int, jobs: int, hashSeed: Option<string>)

  /** The reason `argparse` is told to exit with an error. */
  datatype ArgError = BadTimeout | BadJobs | NoScanRoots

  /**
   * `parse_args` after parsing: the checks in order, first failure wins.
   * `present` holds the names `r` for which `repo_root / r` exists.
   */
  function ParseArgs(timeout: int, jobs: int, hashSeed: string, present: set<string>): (r: Result<Config, ArgError>)
    ensures r.Success? <==>
      timeout > 0 && 1 <= jobs <= MaxJobs && exists root :: root in ScanRoots && root in present
    ensures r == Failure(BadTimeout) <==> timeout <= 0
    ensures r == Failure(BadJobs) <==> timeout > 0 && !(1 <= jobs <= MaxJobs)
    ensures r.Success? ==> r.value.timeoutSeconds == timeout && r.value.jobs == jobs
    ensures r.Success? ==> (r.value.hashSeed.None? <==> hashSeed == "")
    ensures r.Success? && hashSeed != "" ==> r.value.hashSeed == Some(hashSeed)
  {
    if timeout <= 0 then Failure(BadTimeout)
    else if !(1 <= jobs <= MaxJobs) then Failure(BadJobs)
    else
      var seed := if hashSeed == "" then None else Some(hashSeed);
      var rootsPresent := seq(|ScanRoots|, i requires 0 <= i < |ScanRoots| => ScanRoots[i] in present);
      if !(rootsPresent[0] || rootsPresent[1]) then Failure(NoScanRoots)
      else Success(Config(timeout, jobs, seed))
  }

  /** The defaults are accepted whenever one scan root exists. */
  lemma DefaultsAccepted(present: set<string>)
    requires "completions" in present || "assistant" in present
    ensures ParseArgs(DefaultTimeout, DefaultJobs, DefaultHashSeed, present) ==
      Success(Config(DefaultTimeout, DefaultJobs, Some(DefaultHashSeed)))
  {
  }

  /** `quote_if_needed`: wraps a string holding a space in double quotes unless it already is. */
  function QuoteIfNeeded(s: string): (r: string)
    ensures r == s || r == "\"" + s + "\""
    ensures ' ' !in s ==> r == s
    ensures ' ' in s ==> |r| >= 2 && r[0] == '"' && r[|r| - 1] == '"'
    ensures StartsWith(s, "\"") && EndsWith(s, "\"") ==> r == s
    ensures r == "\"" + s + "\"" <==> ' ' in s && !(StartsWith(s, "\"") && EndsWith(s, "\""))
  {
    if ' ' in s && !(StartsWith(s, "\"") && EndsWith(s, "\"")) then "\"" + s + "\""
    else s
  }

  /** Quoting twice is quoting once. */
  lemma QuoteIdempotent(s: string)
    ensures QuoteIfNeeded(QuoteIfNeeded(s)) == QuoteIfNeeded(s)
  {
    var r := QuoteIfNeeded(s);
    if r != s {
      assert StartsWith(r, "\"") && EndsWith(r, "\"") by {
        assert r[..1] == "\"" && r[|r| - 1..] == "\"";
      }
    }
  }

  /** Where an executable is taken from. */
  datatype Exe = InVenv(path: Path) | OnPath(name: string)

  /**
   * `resolve_executable` of the benchmark builder: only `<venv>/Scripts/<name>`
   * is tried; `existing` holds the paths that exist.
   */
  function ResolveExecutable(venv: Path, name: string, fallback: string, existing: set<Path>): (r: Exe)
    ensures r.InVenv? <==> Child(Child(venv, "Scripts"), name) in existing
    ensures r.InVenv? ==> r.path == Child(Child(venv, "Scripts"), name) && IsWithin(venv, r.path)
    ensures r.OnPath? ==> r.name == fallback
  {
    var candidate := Child(Child(venv, "Scripts"), name);
    assert IsWithin(venv, candidate) by {
      ChildWithin(venv, "Scripts");
      ChildWithin(Child(venv, "Scripts"), name);
      WithinTransitive(venv, Child(venv, "Scripts"), candidate);
    }
    if candidate in existing then InVenv(candidate) else OnPath(fallback)
  }
}
