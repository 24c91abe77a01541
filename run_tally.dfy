/**
 * Turning one `mutmut run` into a result row: the status map, the tally of
 * the result store into five buckets, the score, and the row's status.
 */
module RunTally {
  import opened Wrappers
  import opened RunMetadata

  /** The buckets counted into the denominator; "untested" and unknown statuses are not among them. */
  const WantedBuckets: seq<string> := ["killed", "timeout", "suspicious", "survived", "skipped"]

  /** A Python dict of strings, as its items in insertion order. */
  type Items = seq<(string, string)>

  /** The built-in bucket to raw-status table used when mutmut cannot be introspected. */
  const FallbackStatusMap: Items := [
    ("killed", "ok_killed"),
    ("timeout", "bad_timeout"),
    ("suspicious", "ok_suspicious"),
    ("survived", "bad_survived"),
    ("skipped", "skipped"),
    ("untested", "untested")
  ]

  /**
   * What importing mutmut from one site-packages candidate gives: its
   * `MUTANT_STATUSES` when that is a dict, `None` when the import raises or
   * the attribute is missing or not a dict.
   */
  predicate Usable(found: Option<Items>) {
    found.Some? && found.value != []
  }

  /** The first non-empty introspected table, else the fallback. */
  function FirstUsable(found: seq<Option<Items>>): (m: Items)
    ensures (forall i :: 0 <= i < |found| ==> !Usable(found[i])) ==> m == FallbackStatusMap
    ensures forall i :: 0 <= i < |found| && Usable(found[i]) && (forall j :: 0 <= j < i ==> !Usable(found[j])) ==>
      m == found[i].value
    decreases |found|
  {
    if found == [] then FallbackStatusMap
    else if Usable(found[0]) then found[0].value
    else
      var m := FirstUsable(found[1..]);
      assert forall i :: 1 <= i < |found| ==> found[i] == found[1..][i - 1];
      m
  }

  /** `load_status_mapping_from_venv`, over the outcome of each candidate's import. */
  method LoadStatusMapping(found: seq<Option<Items>>) returns (m: Items)
    ensures m == FirstUsable(found)
  {
    for i := 0 to |found|
      invariant FirstUsable(found) == FirstUsable(found[i..])
    {
      assert found[i..][1..] == found[i + 1..];
      if found[i].Some? && found[i].value != [] {
        return found[i].value;
      }
    }
    assert found[|found|..] == [];
    m := FallbackStatusMap;
  }

  /** `{raw: bucket for bucket, raw in items}`. */
  function ReverseMap(items: Items): map<string, string>
    decreases |items|
  {
    if items == [] then map[]
    else
      var n := |items| - 1;
      ReverseMap(items[..n])[items[n].1 := items[n].0]
  }

  /** The reverse map's keys are exactly the raw statuses. */
  lemma {:induction false} ReverseMapKeys(items: Items, raw: string)
    ensures raw in ReverseMap(items) <==> exists i :: 0 <= i < |items| && items[i].1 == raw
    decreases |items|
  {
    if items != [] {
      var n := |items| - 1;
      ReverseMapKeys(items[..n], raw);
      if raw in ReverseMap(items[..n]) {
        var i :| 0 <= i < n && items[..n][i].1 == raw;
        assert items[i].1 == raw;
      }
      if exists i :: 0 <= i < |items| && items[i].1 == raw {
        var i :| 0 <= i < |items| && items[i].1 == raw;
        if i < n {
          assert items[..n][i].1 == raw;
        }
      }
    }
  }

  /** A raw status maps to the bucket of its last occurrence: later entries win. */
  lemma {:induction false} ReverseMapLastWins(items: Items, i: int)
    requires 0 <= i < |items|
    requires forall j :: i < j < |items| ==> items[j].1 != items[i].1
    ensures items[i].1 in ReverseMap(items) && ReverseMap(items)[items[i].1] == items[i].0
    decreases |items|
  {
    var n := |items| - 1;
    if i < n {
      assert items[..n][i] == items[i];
      ReverseMapLastWins(items[..n], i);
    }
  }

  /** Under the fallback table each raw status names its own bucket. */
  lemma FallbackReverse(i: int)
    requires 0 <= i < |FallbackStatusMap|
    ensures FallbackStatusMap[i].1 in ReverseMap(FallbackStatusMap)
    ensures ReverseMap(FallbackStatusMap)[FallbackStatusMap[i].1] == FallbackStatusMap[i].0
  {
    ReverseMapLastWins(FallbackStatusMap, i);
  }

  /** The result store as the tally sees it. */
  datatype CacheRead =
    | CacheMissing            // no `.mutmut-cache` file
    | NoMutantTable           // the database has no `Mutant` table
    | QueryFailed             // opening or querying raised
    | Groups(rows: seq<(Option<string>, nat)>)  // `SELECT status, COUNT(*) ... GROUP BY status`

  /** `raw_to_bucket.get(status)`; a NULL status finds nothing. */
  function BucketOf(rev: map<string, string>, status: Option<string>): Option<string> {
    if status.Some? && status.value in rev then Some(rev[status.value]) else None
  }

  /** The sum of the counts whose status maps to `b`. */
  function BucketSum(rows: seq<(Option<string>, nat)>, rev: map<string, string>, b: string): nat
    decreases |rows|
  {
    if rows == [] then 0
    else
      var n := |rows| - 1;
      BucketSum(rows[..n], rev, b) + (if BucketOf(rev, rows[n].0) == Some(b) then rows[n].1 else 0)
  }

  /** The sum of the counts whose status maps to any wanted bucket. */
  function CountedSum(rows: seq<(Option<string>, nat)>, rev: map<string, string>): nat
    decreases |rows|
  {
    if rows == [] then 0
    else
      var n := |rows| - 1;
      var b := BucketOf(rev, rows[n].0);
      CountedSum(rows[..n], rev) + (if b.Some? && b.value in WantedBuckets then rows[n].1 else 0)
  }

  function SumOfBuckets(counts: map<string, int>): int
    requires forall b :: b in WantedBuckets ==> b in counts
  {
    counts["killed"] + counts["timeout"] + counts["suspicious"] + counts["survived"] + counts["skipped"]
  }

  /** The five buckets together hold exactly the counted rows. */
  lemma {:induction false} BucketsPartition(rows: seq<(Option<string>, nat)>, rev: map<string, string>)
    ensures BucketSum(rows, rev, "killed") + BucketSum(rows, rev, "timeout") + BucketSum(rows, rev, "suspicious") +
      BucketSum(rows, rev, "survived") + BucketSum(rows, rev, "skipped") == CountedSum(rows, rev)
    decreases |rows|
  {
    if rows != [] {
      BucketsPartition(rows[..|rows| - 1], rev);
    }
  }

  /** A row whose status is unknown, NULL, or maps outside the wanted buckets changes no tally. */
  lemma {:induction false} UncountedIgnored(rows: seq<(Option<string>, nat)>, rev: map<string, string>, row: (Option<string>, nat), b: string)
    requires BucketOf(rev, row.0).None? || BucketOf(rev, row.0).value !in WantedBuckets
    requires b in WantedBuckets
    ensures BucketSum(rows + [row], rev, b) == BucketSum(rows, rev, b)
    ensures CountedSum(rows + [row], rev) == CountedSum(rows, rev)
  {
    assert (rows + [row])[..|rows|] == rows;
  }

  /** `compute_counts_from_cache`: the tallies of the five buckets, or failure. */
  method ComputeCountsFromCache(read: CacheRead, statusMap: Items) returns (ok: bool, counts: map<string, int>)
    ensures ok <==> read.Groups?
    ensures !ok ==> counts == map[]
    ensures ok ==> counts.Keys == set b | b in WantedBuckets
    ensures ok ==> forall b :: b in WantedBuckets ==> counts[b] == BucketSum(read.rows, ReverseMap(statusMap), b)
  {
    if !read.Groups? {
      return false, map[];
    }
    var rev := ReverseMap(statusMap);
    var tallies: map<string, int> := map b | b in WantedBuckets :: 0;
    var rows := read.rows;
    for i := 0 to |rows|
      invariant tallies.Keys == set b | b in WantedBuckets
      invariant forall b :: b in WantedBuckets ==> tallies[b] == BucketSum(rows[..i], rev, b)
    {
      var (status, count) := rows[i];
      assert rows[..i + 1][..i] == rows[..i];
      var bucket := BucketOf(rev, status);
      if bucket.Some? && bucket.value in tallies {
        tallies := tallies[bucket.value := tallies[bucket.value] + count];
      }
    }
    assert rows[..|rows|] == rows;
    return true, tallies;
  }

  /** `compute_score`: the kill ratio, `0` when there is nothing to count. Rounding is not modelled. */
  function ComputeScore(killed: int, total: int): (s: real)
    ensures total <= 0 ==> s == 0.0
    ensures total > 0 ==> s * total as real == killed as real
    ensures 0 <= killed <= total ==> 0.0 <= s <= 1.0
    ensures total > 0 ==> (s == 1.0 <==> killed == total)
  {
    if total <= 0 then 0.0 else killed as real / total as real
  }

  datatype Status = Ok | Failed | Timeout | Error {
    function Name(): string {
      match this
      case Ok => "ok"
      case Failed => "failed"
      case Timeout => "timeout"
      case Error => "error"
    }
  }

  /** What `run_mutmut` reports: killed for running too long, or finished with an exit code. */
  datatype RunOutcome = TimedOut | Completed(exitCode: Option<int>)

  /**
   * `bool(exit_code & 1)`, or fatal when there is no exit code. For a Python
   * int, `& 1` is the floored remainder by 2, which Dafny's `%` also gives.
   */
  predicate IsFatal(exitCode: Option<int>) {
    exitCode.None? || exitCode.value % 2 == 1
  }

  datatype Row = Row(
    tcId: string, api: string, temp: string, rep: string,
    duration: Option<real>, fileSize: int,
    killed: int, total: int, score: real,
    testPath: string, status: Status)

  /**
   * The counting step of `process_one` when the run finished cleanly: the
   * killed bucket and the sum of the five buckets, or failure when the
   * cache cannot be read.
   */
  method CountCache(read: CacheRead, statusMap: Items) returns (ok: bool, killed: int, total: int)
    ensures ok <==> read.Groups?
    ensures !ok ==> killed == 0 && total == 0
    ensures ok ==> killed == BucketSum(read.rows, ReverseMap(statusMap), "killed")
    ensures ok ==> total == CountedSum(read.rows, ReverseMap(statusMap))
  {
    var counts;
    ok, counts := ComputeCountsFromCache(read, statusMap);
    if !ok {
      return false, 0, 0;
    }
    ghost var rev := ReverseMap(statusMap);
    killed := counts["killed"];
    total := SumOfBuckets(counts);
    BucketsPartition(read.rows, rev);
  }

  /**
   * `process_one` after the run: the row for one test directory, given its
   * metadata, its duration and size, the run's outcome and the result store.
   */
  method ProcessOne(md: Metadata, duration: Option<real>, fileSize: int, relTest: string,
                    outcome: RunOutcome, read: CacheRead, statusMap: Items) returns (row: Row)
    ensures row.tcId == md.tcId && row.api == md.api && row.temp == md.temp && row.rep == md.rep
    ensures row.duration == duration && row.fileSize == fileSize && row.testPath == relTest
    ensures row.status == Timeout <==> outcome.TimedOut?
    ensures row.status == Failed <==> outcome.Completed? && IsFatal(outcome.exitCode)
    ensures row.status == Error <==> outcome.Completed? && !IsFatal(outcome.exitCode) && !read.Groups?
    ensures row.status != Ok ==> row.killed == 0 && row.total == 0 && row.score == 0.0
    ensures row.status == Ok ==>
      && read.Groups?
      && row.killed == BucketSum(read.rows, ReverseMap(statusMap), "killed")
      && row.total == CountedSum(read.rows, ReverseMap(statusMap))
      && row.score == ComputeScore(row.killed, row.total)
  {
    var killed := 0;
    var total := 0;
    var score := 0.0;
    var status := Ok;
    if outcome.TimedOut? {
      status := Timeout;
    } else if IsFatal(outcome.exitCode) {
      status := Failed;
    } else {
      var ok;
      ok, killed, total := CountCache(read, statusMap);
      if !ok {
        status := Error;
      } else {
        score := ComputeScore(killed, total);
        status := Ok;
      }
    }
    row := Row(md.tcId, md.api, md.temp, md.rep, duration, fileSize, killed, total, score, relTest, status);
  }

  /**
   * The row `wrap_process` substitutes when `process_one` raises: status
   * "error", zero counts, and size 0 when the test file is gone.
   */
  function ErrorRow(md: Metadata, duration: Option<real>, fileSize: Option<nat>, relTest: string): (row: Row)
    ensures row.status == Error && row.killed == 0 && row.total == 0 && row.score == 0.0
    ensures row.fileSize == (if fileSize.Some? then fileSize.value else 0)
    ensures row.tcId == md.tcId && row.testPath == relTest
    ensures row.api == md.api && row.temp == md.temp && row.rep == md.rep && row.duration == duration
  {
    Row(md.tcId, md.api, md.temp, md.rep, duration, if fileSize.Some? then fileSize.value else 0,
        0, 0, 0.0, relTest, Error)
  }
}
