/**
 * The statistics step over benchmark result tables: choosing the input
 * files by glob pattern, normalising legacy column names, checking the
 * columns and row counts, excluding failed rows, and the per-row mean,
 * median and variance across files.
 *
 * The file system (`glob`, `read_csv`) and pandas' numeric coercion are
 * parameters. Numbers are exact reals; `NaN` is `None`.
 */
module BenchStats {
  import opened Wrappers
  import opened Text
  import opened Paths
  import opened Sorting
  import opened Filtering

  const Columns: seq<string> := ["killed_mutations", "all_mutations", "score"]
  const MetaPrefix: seq<string> := ["put", "api_mode", "temperature", "repetition_id", "duration_seconds", "file_size_bytes"]
  const MetaSuffix: string := "actual_test_path"
  const StatusColumn: string := "status"

  /** Legacy column names and their current names. */
  const RenameMap: map<string, string> := map[
    "tc_id" := "put", "api" := "api_mode", "temp" := "temperature", "rep" := "repetition_id",
    "duration" := "duration_seconds", "file_size" := "file_size_bytes",
    "killed" := "killed_mutations", "all" := "all_mutations"]

  const TenPattern: string := "reproseed-10-*.csv"
  const DdPattern: string := "reproseed-dd-*.csv"

  /** The patterns tried in order when none is given; the `@` forms come first. */
  const DefaultPatterns: seq<string> :=
    ["benchmark_results_*.csv", "@" + TenPattern, TenPattern, "@" + DdPattern, DdPattern]

  /** The file-name endings of the outputs this step writes, in both spellings. */
  const AggregateSuffixes: seq<string> :=
    ["_means.csv", "_medians.csv", "_stds.csv", "_aggregated.csv",
     "-means.csv", "-medians.csv", "-stds.csv", "-aggregated.csv"]

  // ---------------------------------------------------------------------
  // Names
  // ---------------------------------------------------------------------

  /** `derive_stem_from_pattern`: the first of three markers found in the lower-cased pattern decides. */
  function DeriveStem(pat: string): (r: string)
    ensures r == "benchmark_results" || r == "reproseed-10" || r == "reproseed-dd"
    ensures Contains(Lower(pat), "benchmark_results") ==> r == "benchmark_results"
    ensures r == "reproseed-10" <==> !Contains(Lower(pat), "benchmark_results") && Contains(Lower(pat), "-10-")
    ensures r == "reproseed-dd" <==>
      !Contains(Lower(pat), "benchmark_results") && !Contains(Lower(pat), "-10-") && Contains(Lower(pat), "-dd-")
  {
    var p := Lower(pat);
    if Contains(p, "benchmark_results") then "benchmark_results"
    else if Contains(p, "-10-") then "reproseed-10"
    else if Contains(p, "-dd-") then "reproseed-dd"
    else "benchmark_results"
  }

  /** A substring occurring at a position is contained. */
  lemma {:induction false} ContainsAt(s: string, sub: string, i: nat)
    requires i + |sub| <= |s| && s[i..i + |sub|] == sub
    ensures Contains(s, sub)
    decreases i
  {
    if i > 0 {
      assert s[1..][i - 1..i - 1 + |sub|] == s[i..i + |sub|];
      ContainsAt(s[1..], sub, i - 1);
    }
  }

  /** A string missing one of the characters of `sub` does not contain `sub`. */
  lemma {:induction false} LacksChar(s: string, sub: string, j: nat)
    requires j < |sub| && sub[j] !in s
    ensures !Contains(s, sub)
    decreases |s|
  {
    assert !StartsWith(s, sub) by {
      if |sub| <= |s| {
        assert s[..|sub|][j] == s[j];
      }
    }
    if |s| > 0 {
      LacksChar(s[1..], sub, j);
    }
  }

  /** Lower-casing leaves a string without capitals unchanged. */
  lemma LowerIdentity(s: string)
    requires forall i :: 0 <= i < |s| ==> !('A' <= s[i] <= 'Z')
    ensures Lower(s) == s
  {
  }

  /** The first default pattern names the plain stem. */
  lemma DefaultStemPlain()
    ensures DeriveStem(DefaultPatterns[0]) == "benchmark_results"
  {
    var p := "benchmark_results_*.csv";
    LowerIdentity(p);
    ContainsAt(p, "benchmark_results", 0);
  }

  lemma LowerConcat(a: string, b: string)
    ensures Lower(a + b) == Lower(a) + Lower(b)
  {
  }

  /** Prefixing `@` keeps the stem a pattern derives. */
  lemma AtPrefixSameStem(p: string)
    requires forall i :: 0 <= i < |p| ==> !('A' <= p[i] <= 'Z')
    requires 'b' !in p
    ensures DeriveStem("@" + p) == DeriveStem(p)
  {
    var q := "@" + p;
    LowerIdentity(p);
    LowerConcat("@", p);
    assert Lower("@") == "@";
    assert q[1..] == p;
    LacksChar(p, "benchmark_results", 0);
    LacksChar(q, "benchmark_results", 0);
    assert !StartsWith(q, "-10-") && !StartsWith(q, "-dd-") by {
      if |q| >= 4 { assert q[..4][0] == '@'; }
    }
    assert Contains(q, "-10-") <==> Contains(p, "-10-");
    assert Contains(q, "-dd-") <==> Contains(p, "-dd-");
  }

  /** What the stem rule sees in the `-10-` pattern. */
  lemma TenPatternMarkers()
    ensures forall i :: 0 <= i < |TenPattern| ==> !('A' <= TenPattern[i] <= 'Z')
    ensures 'b' !in TenPattern && Contains(TenPattern, "-10-")
  {
    ContainsAt(TenPattern, "-10-", 9);
  }

  /** What the stem rule sees in the `-dd-` pattern. */
  lemma DdPatternMarkers()
    ensures forall i :: 0 <= i < |DdPattern| ==> !('A' <= DdPattern[i] <= 'Z')
    ensures 'b' !in DdPattern && '1' !in DdPattern && Contains(DdPattern, "-dd-")
  {
    ContainsAt(DdPattern, "-dd-", 9);
  }

  /** A pattern naming `-10-` but not `benchmark_results` derives the `-10-` stem. */
  lemma TenStem(p: string)
    requires forall i :: 0 <= i < |p| ==> !('A' <= p[i] <= 'Z')
    requires 'b' !in p && Contains(p, "-10-")
    ensures DeriveStem(p) == "reproseed-10"
  {
    LowerIdentity(p);
    LacksChar(p, "benchmark_results", 0);
  }

  /** A pattern naming `-dd-` and neither of the other markers derives the `-dd-` stem. */
  lemma DdStem(p: string)
    requires forall i :: 0 <= i < |p| ==> !('A' <= p[i] <= 'Z')
    requires 'b' !in p && '1' !in p && Contains(p, "-dd-")
    ensures DeriveStem(p) == "reproseed-dd"
  {
    LowerIdentity(p);
    LacksChar(p, "benchmark_results", 0);
    LacksChar(p, "-10-", 1);
  }

  /** The `-10-` default patterns, with or without `@`, name the `-10-` stem. */
  lemma DefaultStemsTen()
    ensures DeriveStem(DefaultPatterns[1]) == "reproseed-10" && DeriveStem(DefaultPatterns[2]) == "reproseed-10"
  {
    TenPatternMarkers();
    TenStem(TenPattern);
    AtPrefixSameStem(TenPattern);
    assert DefaultPatterns[1] == "@" + TenPattern && DefaultPatterns[2] == TenPattern;
  }

  /** The `-dd-` default patterns, with or without `@`, name the `-dd-` stem. */
  lemma DefaultStemsDd()
    ensures DeriveStem(DefaultPatterns[3]) == "reproseed-dd" && DeriveStem(DefaultPatterns[4]) == "reproseed-dd"
  {
    DdPatternMarkers();
    DdStem(DdPattern);
    AtPrefixSameStem(DdPattern);
    assert DefaultPatterns[3] == "@" + DdPattern && DefaultPatterns[4] == DdPattern;
  }

  /** `is_aggregate_output`: the lower-cased file name ends with one of the output endings. */
  predicate IsAggregateOutput(p: Path) {
    exists k :: 0 <= k < |AggregateSuffixes| && EndsWith(Lower(Name(p)), AggregateSuffixes[k])
  }

  /** A file is an aggregate output exactly when its lower-cased name has one of the eight endings. */
  lemma AggregateEndings(p: Path)
    ensures var name := Lower(Name(p));
      IsAggregateOutput(p) <==>
        || EndsWith(name, "_means.csv") || EndsWith(name, "_medians.csv")
        || EndsWith(name, "_stds.csv") || EndsWith(name, "_aggregated.csv")
        || EndsWith(name, "-means.csv") || EndsWith(name, "-medians.csv")
        || EndsWith(name, "-stds.csv") || EndsWith(name, "-aggregated.csv")
  {
    var name := Lower(Name(p));
    var sfx := AggregateSuffixes;
    if IsAggregateOutput(p) {
      var k :| 0 <= k < |sfx| && EndsWith(name, sfx[k]);
      assert sfx[k] in sfx;
    } else {
      assert !EndsWith(name, sfx[0]) && !EndsWith(name, sfx[1]) && !EndsWith(name, sfx[2]) && !EndsWith(name, sfx[3]);
      assert !EndsWith(name, sfx[4]) && !EndsWith(name, sfx[5]) && !EndsWith(name, sfx[6]) && !EndsWith(name, sfx[7]);
    }
  }

  /** A name ending in a lower-case suffix still ends in it once lower-cased. */
  lemma EndsWithLowered(stem: string, suffix: string)
    requires forall i :: 0 <= i < |suffix| ==> !('A' <= suffix[i] <= 'Z')
    ensures EndsWith(Lower(stem + suffix), suffix)
  {
    var l := Lower(stem + suffix);
    assert forall i :: 0 <= i < |suffix| ==> l[|stem| + i] == suffix[i];
    assert l[|l| - |suffix|..] == suffix;
  }

  /**
   * The four files written for any stem are aggregate outputs, so a later
   * run never takes them as inputs.
   */
  lemma OutputsAreAggregate(base: Path, stem: string)
    ensures IsAggregateOutput(Child(base, stem + "_means.csv"))
    ensures IsAggregateOutput(Child(base, stem + "_medians.csv"))
    ensures IsAggregateOutput(Child(base, stem + "_stds.csv"))
    ensures IsAggregateOutput(Child(base, stem + "_aggregated.csv"))
  {
    EndsWithLowered(stem, AggregateSuffixes[0]);
    EndsWithLowered(stem, AggregateSuffixes[1]);
    EndsWithLowered(stem, AggregateSuffixes[2]);
    EndsWithLowered(stem, AggregateSuffixes[3]);
  }

  // ---------------------------------------------------------------------
  // Choosing the inputs
  // ---------------------------------------------------------------------

  /** The matches of a pattern, in the order given, without aggregate outputs. */
  function Unaggregated(ps: seq<Path>): (r: seq<Path>)
    ensures forall k :: 0 <= k < |r| ==> !IsAggregateOutput(r[k]) && r[k] in ps
    ensures forall p :: p in ps && !IsAggregateOutput(p) ==> p in r
    decreases |ps|
  {
    if ps == [] then []
    else (if IsAggregateOutput(ps[0]) then [] else [ps[0]]) + Unaggregated(ps[1..])
  }

  /** Position `i` holds a path that is not an aggregate output. */
  function InputAt(ps: seq<Path>): nat -> bool {
    (i: nat) => i < |ps| && !IsAggregateOutput(ps[i])
  }

  /**
   * The filter keeps the order and the repetitions of the matches: the k-th
   * input is the path at the k-th position that is not an aggregate output.
   */
  lemma UnaggregatedInOrder(ps: seq<Path>)
    ensures var idx := Positions(|ps|, InputAt(ps), 0);
      && |Unaggregated(ps)| == |idx|
      && forall k :: 0 <= k < |idx| ==> Unaggregated(ps)[k] == ps[idx[k]]
  {
    UnaggregatedFrom(ps, 0);
    assert ps[0..] == ps;
  }

  lemma {:induction false} UnaggregatedFrom(ps: seq<Path>, from: nat)
    requires from <= |ps|
    ensures var idx := Positions(|ps|, InputAt(ps), from);
      && |Unaggregated(ps[from..])| == |idx|
      && forall k :: 0 <= k < |idx| ==> Unaggregated(ps[from..])[k] == ps[idx[k]]
    decreases |ps| - from
  {
    if from < |ps| {
      UnaggregatedFrom(ps, from + 1);
      assert ps[from..][1..] == ps[from + 1..];
      var img := (i: nat) => if i < |ps| then ps[i] else ps[from];
      SelectCons(img, Unaggregated(ps[from + 1..]), Positions(|ps|, InputAt(ps), from + 1), from, InputAt(ps)(from));
    }
  }

  /** The patterns tried: those given on the command line, else the defaults. */
  function PatternsOf(given: seq<string>): seq<string> {
    if given == [] then DefaultPatterns else given
  }

  /** `sorted(base.glob(pat))`, supplied by the caller. */
  type Glob = string -> seq<Path>

  /** The first pattern with at least one input, and its inputs. */
  function Selection(patterns: seq<string>, glob: Glob): (r: Option<(string, seq<Path>)>)
    ensures r.Some? ==> r.value.1 == Unaggregated(glob(r.value.0)) && r.value.1 != []
    decreases |patterns|
  {
    if patterns == [] then None
    else
      var matched := Unaggregated(glob(patterns[0]));
      if matched != [] then Some((patterns[0], matched))
      else Selection(patterns[1..], glob)
  }

  /** The selected pattern is the first one with inputs. */
  lemma {:induction false} SelectionFirst(patterns: seq<string>, glob: Glob)
    ensures Selection(patterns, glob).Some? ==>
      exists k :: 0 <= k < |patterns| && patterns[k] == Selection(patterns, glob).value.0 &&
        forall j :: 0 <= j < k ==> Unaggregated(glob(patterns[j])) == []
    decreases |patterns|
  {
    if patterns != [] && Unaggregated(glob(patterns[0])) == [] {
      var rest := patterns[1..];
      SelectionFirst(rest, glob);
      if Selection(rest, glob).Some? {
        var k :| 0 <= k < |rest| && rest[k] == Selection(rest, glob).value.0 &&
          forall j :: 0 <= j < k ==> Unaggregated(glob(rest[j])) == [];
        assert patterns[k + 1] == rest[k];
        forall j | 0 <= j < k + 1 ensures Unaggregated(glob(patterns[j])) == [] {
          if j > 0 {
            assert patterns[j] == rest[j - 1];
          }
        }
      }
    } else if patterns != [] {
      assert patterns[0] == Selection(patterns, glob).value.0;
    }
  }

  /** Nothing is selected exactly when no pattern has any input. */
  lemma {:induction false} SelectionNone(patterns: seq<string>, glob: Glob)
    ensures Selection(patterns, glob).None? <==> forall k :: 0 <= k < |patterns| ==> Unaggregated(glob(patterns[k])) == []
    decreases |patterns|
  {
    if patterns != [] && Unaggregated(glob(patterns[0])) == [] {
      var rest := patterns[1..];
      SelectionNone(rest, glob);
      assert forall k :: 1 <= k < |patterns| ==> patterns[k] == rest[k - 1];
    }
  }

  /** The pattern loop of `main`, stopping at the first pattern with inputs. */
  method SelectInputs(patterns: seq<string>, glob: Glob) returns (selected: Option<(string, seq<Path>)>)
    ensures selected == Selection(patterns, glob)
  {
    selected := None;
    for i := 0 to |patterns|
      invariant Selection(patterns, glob) == Selection(patterns[i..], glob)
    {
      assert patterns[i..][1..] == patterns[i + 1..];
      var matched := Unaggregated(glob(patterns[i]));
      if matched != [] {
        selected := Some((patterns[i], matched));
        return;
      }
    }
  }

  // ---------------------------------------------------------------------
  // Tables
  // ---------------------------------------------------------------------

  /** A cell as read from a CSV file; `Missing` is pandas' `NaN`. */
  datatype Cell = Str(s: string) | Number(x: real) | Missing

  /** A table as read: its header and its rows (a short row reads as `Missing` past its end). */
  datatype Table = Table(header: seq<string>, rows: seq<seq<Cell>>)

  /** The legacy columns renamed in one table: those present whose current name is absent. */
  function RenamePairs(header: seq<string>): map<string, string> {
    map legacy | legacy in RenameMap && legacy in header && RenameMap[legacy] !in header :: RenameMap[legacy]
  }

  /** No current name is itself a legacy name. */
  lemma RenameDisjoint()
    ensures forall legacy :: legacy in RenameMap ==> RenameMap[legacy] !in RenameMap
    ensures forall a, b :: a in RenameMap && b in RenameMap && RenameMap[a] == RenameMap[b] ==> a == b
  {
  }

  /** The header after the rename. */
  function Rename(header: seq<string>): (r: seq<string>)
    ensures |r| == |header|
    ensures forall legacy :: legacy in RenameMap ==> (RenameMap[legacy] in r <==> RenameMap[legacy] in header || legacy in header)
    ensures forall legacy :: legacy in RenameMap && RenameMap[legacy] !in header ==> legacy !in r
    ensures forall k :: 0 <= k < |header| && header[k] !in RenameMap ==> r[k] == header[k]
    ensures forall k :: 0 <= k < |header| && header[k] in RenameMap ==>
      r[k] == if RenameMap[header[k]] in header then header[k] else RenameMap[header[k]]
  {
    RenameDisjoint();
    var pairs := RenamePairs(header);
    var r := seq(|header|, k requires 0 <= k < |header| => if header[k] in pairs then pairs[header[k]] else header[k]);
    forall legacy | legacy in RenameMap
      ensures RenameMap[legacy] in r <==> RenameMap[legacy] in header || legacy in header
    {
      var nu := RenameMap[legacy];
      if nu in header {
        var k :| 0 <= k < |header| && header[k] == nu;
        assert r[k] == nu;
      } else if legacy in header {
        var k :| 0 <= k < |header| && header[k] == legacy;
        assert r[k] == nu;
      } else {
        forall k | 0 <= k < |r|
          ensures r[k] != nu
        {
          if header[k] in pairs {
            assert header[k] in header;
          }
        }
      }
    }
    r
  }

  /** Renaming a second time changes nothing. */
  lemma RenameIdempotent(header: seq<string>)
    ensures Rename(Rename(header)) == Rename(header)
  {
    RenameDisjoint();
    var once := Rename(header);
    assert RenamePairs(once) == map[] by {
      forall legacy | legacy in RenameMap && legacy in once
        ensures RenameMap[legacy] in once
      {
        assert RenameMap[legacy] in header;
      }
    }
  }

  /** Index of the first column with a name, or the header's length. */
  function ColumnIndex(header: seq<string>, name: string): (i: nat)
    ensures i <= |header| && name !in header[..i]
    ensures i < |header| <==> name in header
    ensures i < |header| ==> header[i] == name
    decreases |header|
  {
    if header == [] then 0
    else if header[0] == name then 0
    else
      var k := ColumnIndex(header[1..], name);
      assert header[..k + 1] == [header[0]] + header[1..][..k];
      1 + k
  }

  /** The cell of row `r` in column `name`. */
  function At(header: seq<string>, row: seq<Cell>, name: string): Cell {
    var k := ColumnIndex(header, name);
    if k < |row| then row[k] else Missing
  }

  /** `pd.to_numeric(errors="coerce")` for one cell; `parse` reads a numeric string. */
  function ToNumeric(c: Cell, parse: string -> Option<real>): Option<real> {
    match c
    case Number(x) => Some(x)
    case Missing => None
    case Str(s) => parse(s)
  }

  /** The three statistic columns of one row. */
  datatype Triple = Triple(killed: Option<real>, all: Option<real>, score: Option<real>)

  const Excluded: Triple := Triple(None, None, None)

  /** A row counts as failed when the table has a status column and the row's status is not exactly `ok`. */
  predicate IsFailed(header: seq<string>, row: seq<Cell>) {
    StatusColumn in header && At(header, row, StatusColumn) != Str("ok")
  }

  /** The statistic columns of one row, blanked when the row failed. */
  function SubRow(header: seq<string>, row: seq<Cell>, parse: string -> Option<real>): (t: Triple)
    ensures IsFailed(header, row) ==> t == Excluded
    ensures !IsFailed(header, row) ==> t.killed == ToNumeric(At(header, row, Columns[0]), parse)
    ensures !IsFailed(header, row) ==> t.all == ToNumeric(At(header, row, Columns[1]), parse)
    ensures !IsFailed(header, row) ==> t.score == ToNumeric(At(header, row, Columns[2]), parse)
  {
    if IsFailed(header, row) then Excluded
    else
      Triple(ToNumeric(At(header, row, Columns[0]), parse), ToNumeric(At(header, row, Columns[1]), parse),
             ToNumeric(At(header, row, Columns[2]), parse))
  }

  /** The number of failed rows. */
  function FailedCount(header: seq<string>, rows: seq<seq<Cell>>): (n: nat)
    ensures n <= |rows|
    ensures n == 0 <==> forall r :: 0 <= r < |rows| ==> !IsFailed(header, rows[r])
    decreases |rows|
  {
    if rows == [] then 0
    else
      var rest := FailedCount(header, rows[1..]);
      assert forall r :: 1 <= r < |rows| ==> rows[r] == rows[1..][r - 1];
      (if IsFailed(header, rows[0]) then 1 else 0) + rest
  }

  /** What is kept of one input file. */
  datatype Frame = Frame(sub: seq<Triple>, failed: nat, metaPrefix: seq<seq<Cell>>, metaSuffix: seq<Cell>)

  /** Every required statistic and meta column is in the header. */
  predicate HasColumns(header: seq<string>) {
    && (forall c :: c in Columns ==> c in header)
    && (forall c :: c in MetaPrefix ==> c in header)
    && MetaSuffix in header
  }

  /**
   * One file of the loop in `main`: exit 2 when it cannot be read, exit 3
   * when a statistic or meta column is missing after the rename, else its
   * blanked statistic rows, failed count and meta columns.
   */
  function LoadFrame(read: Option<Table>, parse: string -> Option<real>): (r: Result<Frame, int>)
    ensures r.Failure? ==> r.error == 2 || r.error == 3
    ensures r.Success? ==> read.Some? && |r.value.sub| == |read.value.rows|
  {
    if read.None? then Failure(2)
    else
      var header := Rename(read.value.header);
      var rows := read.value.rows;
      if !HasColumns(header) then Failure(3)
      else Success(FrameOf(header, rows, parse))
  }

  /** The frame kept of readable rows under a renamed header. */
  function FrameOf(header: seq<string>, rows: seq<seq<Cell>>, parse: string -> Option<real>): (f: Frame)
    ensures |f.sub| == |rows|
  {
    Frame(
      seq(|rows|, k requires 0 <= k < |rows| => SubRow(header, rows[k], parse)),
      FailedCount(header, rows),
      seq(|rows|, k requires 0 <= k < |rows| =>
        seq(|MetaPrefix|, c requires 0 <= c < |MetaPrefix| => At(header, rows[k], MetaPrefix[c]))),
      seq(|rows|, k requires 0 <= k < |rows| => At(header, rows[k], MetaSuffix)))
  }

  /**
   * The exit codes of one file: 2 exactly when it cannot be read, 3 exactly
   * when a column is missing after the rename; otherwise its rows, blanked
   * where they failed, and its failed count.
   */
  lemma LoadFrameSpec(read: Option<Table>, parse: string -> Option<real>)
    ensures LoadFrame(read, parse) == Failure(2) <==> read.None?
    ensures LoadFrame(read, parse) == Failure(3) <==> read.Some? && !HasColumns(Rename(read.value.header))
    ensures LoadFrame(read, parse).Success? <==> read.Some? && HasColumns(Rename(read.value.header))
    ensures LoadFrame(read, parse).Success? ==>
      LoadFrame(read, parse).value.failed == FailedCount(Rename(read.value.header), read.value.rows)
    ensures LoadFrame(read, parse).Success? ==> forall k :: 0 <= k < |read.value.rows| ==>
      LoadFrame(read, parse).value.sub[k] == SubRow(Rename(read.value.header), read.value.rows[k], parse)
  {
  }

  /** `read_csv` for one input, supplied by the caller (`None` when it raised). */
  type Reader = Path -> Option<Table>

  /** Loading the files in order; the first failure's exit code wins. */
  function LoadAll(files: seq<Path>, read: Reader, parse: string -> Option<real>): (r: Result<seq<Frame>, int>)
    ensures r.Success? ==> |r.value| == |files|
    ensures r.Success? ==> forall f :: 0 <= f < |files| ==> LoadFrame(read(files[f]), parse) == Success(r.value[f])
    decreases |files|
  {
    if files == [] then Success([])
    else
      var n := |files| - 1;
      var prev := LoadAll(files[..n], read, parse);
      if prev.Failure? then Failure(prev.error)
      else
        assert forall f :: 0 <= f < n ==> files[..n][f] == files[f];
        var current := LoadFrame(read(files[n]), parse);
        if current.Failure? then Failure(current.error)
        else
          var frames := prev.value + [current.value];
          assert forall f :: 0 <= f < n ==> frames[f] == prev.value[f];
          Success(frames)
  }

  /** The file loop of `main`, with the running total of failed rows. */
  method LoadFiles(files: seq<Path>, read: Reader, parse: string -> Option<real>)
    returns (r: Result<seq<Frame>, int>, totalFailed: nat)
    ensures r == LoadAll(files, read, parse)
    ensures r.Success? ==> totalFailed == TotalFailed(r.value)
  {
    var frames: seq<Frame> := [];
    totalFailed := 0;
    for i := 0 to |files|
      invariant LoadAll(files[..i], read, parse) == Success(frames)
      invariant totalFailed == TotalFailed(frames)
    {
      assert files[..i + 1][..i] == files[..i];
      var loaded := LoadFrame(read(files[i]), parse);
      if loaded.Failure? {
        LoadAllStops(files, read, parse, i);
        return Failure(loaded.error), totalFailed;
      }
      TotalFailedSnoc(frames, loaded.value);
      totalFailed := totalFailed + loaded.value.failed;
      frames := frames + [loaded.value];
    }
    assert files[..|files|] == files;
    r := Success(frames);
  }

  /** A failed load reports the exit code of one of the files. */
  lemma {:induction false} LoadAllFailure(files: seq<Path>, read: Reader, parse: string -> Option<real>)
    requires LoadAll(files, read, parse).Failure?
    ensures exists f :: 0 <= f < |files| && LoadFrame(read(files[f]), parse) == Failure(LoadAll(files, read, parse).error)
    decreases |files|
  {
    var n := |files| - 1;
    if LoadAll(files[..n], read, parse).Failure? {
      LoadAllFailure(files[..n], read, parse);
      var f :| 0 <= f < n && LoadFrame(read(files[..n][f]), parse) == Failure(LoadAll(files[..n], read, parse).error);
      assert files[..n][f] == files[f];
    }
  }

  /** Once a file fails to load, loading the whole list fails with its code. */
  lemma {:induction false} LoadAllStops(files: seq<Path>, read: Reader, parse: string -> Option<real>, i: nat)
    requires i < |files| && LoadAll(files[..i], read, parse).Success?
    requires LoadFrame(read(files[i]), parse).Failure?
    ensures LoadAll(files, read, parse) == Failure(LoadFrame(read(files[i]), parse).error)
    decreases |files|
  {
    var n := |files| - 1;
    var failed := LoadFrame(read(files[i]), parse);
    if i < n {
      assert files[..n][..i] == files[..i] && files[..n][i] == files[i];
      LoadAllStops(files[..n], read, parse, i);
      assert LoadAll(files[..n], read, parse) == Failure(failed.error);
    } else {
      assert files[..n] == files[..i];
      assert LoadAll(files[..n], read, parse).Success?;
    }
  }

  /** `total_failed_rows`: the failed rows summed over the files. */
  function TotalFailed(frames: seq<Frame>): nat
    decreases |frames|
  {
    if frames == [] then 0 else TotalFailed(frames[..|frames| - 1]) + frames[|frames| - 1].failed
  }

  lemma TotalFailedSnoc(frames: seq<Frame>, f: Frame)
    ensures TotalFailed(frames + [f]) == TotalFailed(frames) + f.failed
  {
    assert (frames + [f])[..|frames|] == frames;
  }

  /** No failed rows are reported exactly when no file has one. */
  lemma {:induction false} TotalFailedZero(frames: seq<Frame>)
    ensures TotalFailed(frames) == 0 <==> forall f :: 0 <= f < |frames| ==> frames[f].failed == 0
    decreases |frames|
  {
    if frames != [] {
      var n := |frames| - 1;
      TotalFailedZero(frames[..n]);
      assert forall f :: 0 <= f < n ==> frames[..n][f] == frames[f];
    }
  }

  // ---------------------------------------------------------------------
  // Statistics across files
  // ---------------------------------------------------------------------

  function Sum(xs: seq<real>): real
    decreases |xs|
  {
    if xs == [] then 0.0 else xs[0] + Sum(xs[1..])
  }

  /** The values that are not `NaN`, in order. */
  function Present(xs: seq<Option<real>>): (r: seq<real>)
    ensures |r| <= |xs|
    ensures forall v :: v in r <==> Some(v) in xs
    decreases |xs|
  {
    if xs == [] then []
    else
      var rest := Present(xs[1..]);
      assert forall k :: 1 <= k < |xs| ==> xs[k] == xs[1..][k - 1];
      assert xs == [xs[0]] + xs[1..];
      (if xs[0].Some? then [xs[0].value] else []) + rest
  }

  /** Position `i` holds a value that is not `NaN`. */
  function PresentAt(xs: seq<Option<real>>): nat -> bool {
    (i: nat) => i < |xs| && xs[i].Some?
  }

  /**
   * The present values keep their order and repetitions: the k-th is the
   * value at the k-th position that is not `NaN`.
   */
  lemma PresentInOrder(xs: seq<Option<real>>)
    ensures var idx := Positions(|xs|, PresentAt(xs), 0);
      && |Present(xs)| == |idx|
      && forall k :: 0 <= k < |idx| ==> Present(xs)[k] == xs[idx[k]].value
  {
    PresentFrom(xs, 0);
    assert xs[0..] == xs;
  }

  lemma {:induction false} PresentFrom(xs: seq<Option<real>>, from: nat)
    requires from <= |xs|
    ensures var idx := Positions(|xs|, PresentAt(xs), from);
      && |Present(xs[from..])| == |idx|
      && forall k :: 0 <= k < |idx| ==> Present(xs[from..])[k] == xs[idx[k]].value
    decreases |xs| - from
  {
    if from < |xs| {
      PresentFrom(xs, from + 1);
      assert xs[from..][1..] == xs[from + 1..];
      var img := (i: nat) => if i < |xs| && xs[i].Some? then xs[i].value else 0.0;
      SelectCons(img, Present(xs[from + 1..]), Positions(|xs|, PresentAt(xs), from + 1), from, PresentAt(xs)(from));
    }
  }

  /** `np.nanmean`: the mean of the present values, `NaN` when there are none. */
  function NanMean(xs: seq<Option<real>>): Option<real> {
    MeanOf(Present(xs))
  }

  function MeanOf(p: seq<real>): Option<real> {
    if p == [] then None else Some(Sum(p) / (|p| as real))
  }

  predicate RealLe(a: real, b: real) {
    a <= b
  }

  /** `np.nanmedian`: the middle present value, or the mean of the two middle ones. */
  function NanMedian(xs: seq<Option<real>>): Option<real> {
    MedianOf(Present(xs))
  }

  function MedianOf(p: seq<real>): Option<real> {
    var s := SortBy(p, RealLe);
    SortPerm(p, RealLe);
    assert |s| == |p| by {
      assert |multiset(s)| == |multiset(p)|;
    }
    if s == [] then None
    else if |s| % 2 == 1 then Some(s[|s| / 2])
    else Some((s[|s| / 2 - 1] + s[|s| / 2]) / 2.0)
  }

  function SquaredDeviations(xs: seq<real>, m: real): real
    decreases |xs|
  {
    if xs == [] then 0.0 else (xs[0] - m) * (xs[0] - m) + SquaredDeviations(xs[1..], m)
  }

  /**
   * The square of `np.nanstd` with `ddof`: squared deviations from the mean
   * over `n - ddof`, `NaN` when that divisor is not positive.
   */
  function NanVariance(xs: seq<Option<real>>, ddof: nat): Option<real> {
    VarianceOf(Present(xs), ddof)
  }

  function VarianceOf(p: seq<real>, ddof: nat): Option<real> {
    if |p| <= ddof then None
    else
      var m := Sum(p) / (|p| as real);
      Some(SquaredDeviations(p, m) / ((|p| - ddof) as real))
  }

  /** `ddof = 1` when several files were stacked, else 0. */
  function Ddof(files: nat): (d: nat)
    ensures d == 1 <==> files > 1
    ensures d <= 1
  {
    if files > 1 then 1 else 0
  }

  function Pick(t: Triple, c: nat): Option<real> {
    if c == 0 then t.killed else if c == 1 then t.all else t.score
  }

  /** `NaN` exactly when no file has a value. */
  lemma NanMeanMissing(xs: seq<Option<real>>)
    ensures NanMean(xs).None? <==> forall k :: 0 <= k < |xs| ==> xs[k].None?
  {
    if Present(xs) != [] {
      assert Some(Present(xs)[0]) in xs;
    }
    if exists k :: 0 <= k < |xs| && xs[k].Some? {
      var k :| 0 <= k < |xs| && xs[k].Some?;
      assert xs[k].value in Present(xs);
    }
  }

  lemma {:induction false} SumBounds(xs: seq<real>, lo: real, hi: real)
    requires forall v :: v in xs ==> lo <= v <= hi
    ensures (|xs| as real) * lo <= Sum(xs) <= (|xs| as real) * hi
    decreases |xs|
  {
    if xs != [] {
      assert forall v :: v in xs[1..] ==> v in xs;
      assert xs[0] in xs;
      SumBounds(xs[1..], lo, hi);
      var n := |xs[1..]| as real;
      assert |xs| as real == n + 1.0;
      StepBounds(n, xs[0], Sum(xs[1..]), lo, hi);
    }
  }

  /** One more value within the bounds keeps the running sum within them. */
  lemma StepBounds(n: real, x: real, tail: real, lo: real, hi: real)
    requires lo <= x <= hi && n * lo <= tail <= n * hi
    ensures (n + 1.0) * lo <= x + tail <= (n + 1.0) * hi
  {
    assert (n + 1.0) * lo == n * lo + lo;
    assert (n + 1.0) * hi == n * hi + hi;
  }

  lemma DivideBounds(total: real, n: real, lo: real, hi: real)
    requires n > 0.0 && n * lo <= total <= n * hi
    ensures lo <= total / n <= hi
  {
  }

  /** The mean lies between any bounds of the values present. */
  lemma NanMeanBounds(xs: seq<Option<real>>, lo: real, hi: real)
    requires forall k :: 0 <= k < |xs| && xs[k].Some? ==> lo <= xs[k].value <= hi
    ensures NanMean(xs).Some? ==> lo <= NanMean(xs).value <= hi
  {
    var p := Present(xs);
    if p != [] {
      forall v | v in p ensures lo <= v <= hi {
        var k :| 0 <= k < |xs| && xs[k] == Some(v);
      }
      SumBounds(p, lo, hi);
      DivideBounds(Sum(p), |p| as real, lo, hi);
    }
  }

  /** The median lies between any bounds of the values present. */
  lemma NanMedianBounds(xs: seq<Option<real>>, lo: real, hi: real)
    requires forall k :: 0 <= k < |xs| && xs[k].Some? ==> lo <= xs[k].value <= hi
    ensures NanMedian(xs).Some? ==> lo <= NanMedian(xs).value <= hi
  {
    var p := Present(xs);
    var s := SortBy(p, RealLe);
    SortPerm(p, RealLe);
    forall v | v in s ensures lo <= v <= hi {
      assert v in multiset(s);
      assert v in p;
      var k :| 0 <= k < |xs| && xs[k] == Some(v);
    }
    if s != [] {
      assert s[|s| / 2] in s;
      if |s| % 2 == 0 {
        assert s[|s| / 2 - 1] in s;
      }
    }
  }

  lemma {:induction false} SquaredDeviationsNonnegative(xs: seq<real>, m: real)
    ensures SquaredDeviations(xs, m) >= 0.0
    decreases |xs|
  {
    if xs != [] {
      SquaredDeviationsNonnegative(xs[1..], m);
      var d := xs[0] - m;
      assert d * d >= 0.0 by {
        if d < 0.0 {
          assert (-d) * (-d) == d * d;
        }
      }
    }
  }

  /** The variance is never negative. */
  lemma NanVarianceNonnegative(xs: seq<Option<real>>, ddof: nat)
    ensures NanVariance(xs, ddof).Some? ==> NanVariance(xs, ddof).value >= 0.0
  {
    var p := Present(xs);
    if |p| > ddof {
      SquaredDeviationsNonnegative(p, Sum(p) / (|p| as real));
    }
  }

  /**
   * With a single file (so `ddof` 0) the mean and median are that file's
   * value and the spread is zero.
   */
  lemma SingleValueStats(v: real)
    ensures NanMean([Some(v)]) == Some(v)
    ensures NanMedian([Some(v)]) == Some(v)
    ensures NanVariance([Some(v)], Ddof(1)) == Some(0.0)
    ensures NanVariance([Some(v)], Ddof(2)) == None
  {
    assert [Some(v)][1..] == [];
    assert Present([Some(v)]) == [v];
    assert [v][1..] == [];
    assert Sum([v]) == v;
    assert SquaredDeviations([v], v) == 0.0;
    assert SortBy([v], RealLe) == Insert([], v, RealLe);
  }

  /** Dropping a `NaN` entry keeps the present values. */
  lemma {:induction false} PresentSkipsMissing(xs: seq<Option<real>>, f: nat)
    requires f < |xs| && xs[f].None?
    ensures Present(xs) == Present(xs[..f] + xs[f + 1..])
    decreases f
  {
    if f == 0 {
      assert xs[..0] + xs[1..] == xs[1..];
    } else {
      PresentSkipsMissing(xs[1..], f - 1);
      var ys := xs[..f] + xs[f + 1..];
      assert ys[0] == xs[0];
      assert ys[1..] == xs[1..][..f - 1] + xs[1..][f..];
    }
  }

  /** One row and statistic column across the files. */
  function Across(frames: seq<Frame>, r: nat, c: nat): (xs: seq<Option<real>>)
    ensures |xs| == |frames|
  {
    seq(|frames|, f requires 0 <= f < |frames| => if r < |frames[f].sub| then Pick(frames[f].sub[r], c) else None)
  }

  /**
   * A file whose row was blanked as failed leaves that row's statistics as
   * if the file were not there.
   */
  lemma ExcludedRowIgnored(frames: seq<Frame>, f: nat, r: nat, c: nat, ddof: nat)
    requires f < |frames| && r < |frames[f].sub| && frames[f].sub[r] == Excluded
    ensures NanMean(Across(frames, r, c)) == NanMean(Across(frames[..f] + frames[f + 1..], r, c))
    ensures NanMedian(Across(frames, r, c)) == NanMedian(Across(frames[..f] + frames[f + 1..], r, c))
    ensures NanVariance(Across(frames, r, c), ddof) == NanVariance(Across(frames[..f] + frames[f + 1..], r, c), ddof)
  {
    var xs := Across(frames, r, c);
    var rest := frames[..f] + frames[f + 1..];
    assert Across(rest, r, c) == xs[..f] + xs[f + 1..] by {
      forall g | 0 <= g < |rest| ensures Across(rest, r, c)[g] == (xs[..f] + xs[f + 1..])[g] {
        if g < f {
          assert rest[g] == frames[g];
        } else {
          assert rest[g] == frames[g + 1];
        }
      }
    }
    PresentSkipsMissing(xs, f);
  }

  /** A row that failed in every file has no statistics. */
  lemma ExcludedEverywhere(frames: seq<Frame>, r: nat, c: nat, ddof: nat)
    requires forall f :: 0 <= f < |frames| ==> r < |frames[f].sub| && frames[f].sub[r] == Excluded
    ensures NanMean(Across(frames, r, c)).None? && NanMedian(Across(frames, r, c)).None?
    ensures NanVariance(Across(frames, r, c), ddof).None?
  {
    var xs := Across(frames, r, c);
    NanMeanMissing(xs);
  }

  /** One output row: the first file's meta cells around the three statistics. */
  datatype OutRow = OutRow(meta: seq<Cell>, means: Triple, medians: Triple, variances: Triple, suffix: Cell)

  function Stat(frames: seq<Frame>, r: nat, which: nat, ddof: nat): Triple {
    var f := (xs: seq<Option<real>>) => if which == 0 then NanMean(xs) else if which == 1 then NanMedian(xs) else NanVariance(xs, ddof);
    Triple(f(Across(frames, r, 0)), f(Across(frames, r, 1)), f(Across(frames, r, 2)))
  }

  /**
   * The rows written: one per input row, each framed by the first file's
   * meta cells around the statistics across the files.
   */
  function OutRows(frames: seq<Frame>): (rows: seq<OutRow>)
    requires frames != []
    ensures |rows| == |frames[0].sub|
    ensures forall r :: 0 <= r < |rows| && r < |frames[0].metaPrefix| ==> rows[r].meta == frames[0].metaPrefix[r]
    ensures forall r :: 0 <= r < |rows| && r < |frames[0].metaSuffix| ==> rows[r].suffix == frames[0].metaSuffix[r]
  {
    var ddof := Ddof(|frames|);
    var first := frames[0];
    seq(|first.sub|, r requires 0 <= r < |first.sub| =>
      OutRow(if r < |first.metaPrefix| then first.metaPrefix[r] else [],
             Stat(frames, r, 0, ddof), Stat(frames, r, 1, ddof), Stat(frames, r, 2, ddof),
             if r < |first.metaSuffix| then first.metaSuffix[r] else Missing))
  }

  /** `set(lengths)`: the row counts of the files. */
  function Lengths(frames: seq<Frame>): set<nat> {
    set f | 0 <= f < |frames| :: |frames[f].sub|
  }

  /** Every file has as many rows as the first. */
  predicate SameRowCount(frames: seq<Frame>) {
    forall f :: 0 <= f < |frames| ==> |frames[f].sub| == |frames[0].sub|
  }

  // ---------------------------------------------------------------------
  // main
  // ---------------------------------------------------------------------

  /** How a run ends: an exit code, or the outputs written under a stem. */
  datatype Outcome =
    | Exit(code: int)
    | Wrote(pattern: string, stem: string, inputs: seq<Path>, failedRows: nat, ddof: nat, rows: seq<OutRow>)

  /** `args.out_stem or derive_stem_from_pattern(...)`: an empty stem counts as none. */
  function OutStem(given: string, pattern: string): string {
    if given != "" then given else DeriveStem(pattern)
  }

  /** What `main` does, given its arguments and the file system. */
  function Statistics(given: seq<string>, outStem: string, glob: Glob, read: Reader,
                      parse: string -> Option<real>): Outcome
  {
    match Selection(PatternsOf(given), glob)
    case None => Exit(1)
    case Some(sel) =>
      match LoadAll(sel.1, read, parse)
      case Failure(code) => Exit(code)
      case Success(frames) =>
        if !SameRowCount(frames) then Exit(4)
        else Wrote(sel.0, OutStem(outStem, sel.0), sel.1, TotalFailed(frames), Ddof(|frames|), OutRows(frames))
  }

  /** `main` after parsing the command line. */
  method ComputeStatistics(given: seq<string>, outStem: string, glob: Glob, read: Reader,
                           parse: string -> Option<real>)
    returns (out: Outcome)
    ensures out == Statistics(given, outStem, glob, read, parse)
  {
    var patterns := if given == [] then DefaultPatterns else given;
    var selected := SelectInputs(patterns, glob);
    if selected.None? {
      return Exit(1);
    }
    var pattern := selected.value.0;
    var files := selected.value.1;
    var loaded, totalFailed := LoadFiles(files, read, parse);
    if loaded.Failure? {
      return Exit(loaded.error);
    }
    var frames := loaded.value;
    var lengths := Lengths(frames);
    SameRowCountIff(frames);
    if |lengths| != 1 {
      return Exit(4);
    }
    var stem := if outStem != "" then outStem else DeriveStem(pattern);
    out := Wrote(pattern, stem, files, totalFailed, if |files| > 1 then 1 else 0, OutRows(frames));
  }

  /** `len(set(lengths)) != 1` is the row-count check, for a non-empty file list. */
  lemma SameRowCountIff(frames: seq<Frame>)
    requires frames != []
    ensures |Lengths(frames)| == 1 <==> SameRowCount(frames)
  {
    var lengths := Lengths(frames);
    assert |frames[0].sub| in lengths;
    if SameRowCount(frames) {
      assert lengths == {|frames[0].sub|};
    } else {
      var f :| 0 <= f < |frames| && |frames[f].sub| != |frames[0].sub|;
      var rest := lengths - {|frames[0].sub|};
      assert |frames[f].sub| in rest;
      assert |rest| == |lengths| - 1;
    }
  }

  /** `main` exits 1 exactly when no pattern has inputs, and otherwise only with 2, 3 or 4. */
  lemma ExitCodes(given: seq<string>, outStem: string, glob: Glob, read: Reader, parse: string -> Option<real>)
    ensures var out := Statistics(given, outStem, glob, read, parse);
      out.Exit? ==> 1 <= out.code <= 4
    ensures Statistics(given, outStem, glob, read, parse) == Exit(1) <==>
      forall k :: 0 <= k < |PatternsOf(given)| ==> Unaggregated(glob(PatternsOf(given)[k])) == []
  {
    SelectionNone(PatternsOf(given), glob);
    var sel := Selection(PatternsOf(given), glob);
    if sel.Some? {
      var loaded := LoadAll(sel.value.1, read, parse);
      if loaded.Failure? {
        LoadAllFailure(sel.value.1, read, parse);
      }
    }
  }

  /**
   * Loading fails with the code of the first file that fails, and the rows
   * check fails with 4 exactly when the loaded files differ in row count.
   */
  lemma RowCountExit(given: seq<string>, outStem: string, glob: Glob, read: Reader, parse: string -> Option<real>)
    requires Selection(PatternsOf(given), glob).Some?
    requires LoadAll(Selection(PatternsOf(given), glob).value.1, read, parse).Success?
    ensures Statistics(given, outStem, glob, read, parse) == Exit(4) <==>
      !SameRowCount(LoadAll(Selection(PatternsOf(given), glob).value.1, read, parse).value)
  {
  }

  /**
   * What a successful run writes: the inputs of the first pattern that has
   * any, none of them an earlier output; one row per input row; `ddof` 1
   * exactly when there are several inputs; the failed rows of every input
   * counted.
   */
  lemma WrittenOutputs(given: seq<string>, outStem: string, glob: Glob, read: Reader, parse: string -> Option<real>)
    requires Statistics(given, outStem, glob, read, parse).Wrote?
    ensures var out := Statistics(given, outStem, glob, read, parse);
      && out.inputs != []
      && out.inputs == Unaggregated(glob(out.pattern))
      && (forall k :: 0 <= k < |out.inputs| ==> !IsAggregateOutput(out.inputs[k]))
      && out.pattern in PatternsOf(given)
      && (out.ddof == 1 <==> |out.inputs| > 1)
      && out.stem == (if outStem != "" then outStem else DeriveStem(out.pattern))
    ensures var out := Statistics(given, outStem, glob, read, parse);
      var frames := LoadAll(out.inputs, read, parse);
      && frames.Success?
      && (forall f :: 0 <= f < |frames.value| ==> |out.rows| == |frames.value[f].sub|)
      && out.failedRows == TotalFailed(frames.value)
  {
    SelectionFirst(PatternsOf(given), glob);
    var sel := Selection(PatternsOf(given), glob).value;
    var k :| 0 <= k < |PatternsOf(given)| && PatternsOf(given)[k] == sel.0 &&
      forall j :: 0 <= j < k ==> Unaggregated(glob(PatternsOf(given)[j])) == [];
  }
}
