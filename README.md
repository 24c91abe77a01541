# Mutation-testing benchmark harness — Dafny model

This project models the core of a benchmark that scores generated unit tests
by mutation testing. It has five parts.

- **The benchmark builder** (`scripts/run_single_mutation_test.py`):
  - finds test-case directories under `completions/` and `assistant/`;
  - derives each case's metadata from the folder name, a sidecar file or the directory name;
  - guards the deletion of the `.mutmut-cache` results file;
  - runs `mutmut` on each directory and reads its results cache;
  - turns the outcome into a row of counts and a score;
  - writes the rows as a sorted CSV.
- **The kill-matrix verifier** (`scripts/verify_mutant_test_mapping.py`):
  - resolves the executables;
  - extracts the test names from the test module's syntax tree;
  - runs every cached mutant against every test;
  - classifies each run;
  - builds the kill map and its summaries;
  - decides the exit status.
- **The statistics step** (`scripts/compute_benchmark_statistics.py`):
  - selects the input CSVs by the first pattern that matches any non-aggregate file;
  - renames legacy columns;
  - checks the required columns;
  - masks failed rows;
  - computes the NaN-ignoring mean, median and spread across files;
  - decides the exit code and the names of the outputs.
- **One subject program** (`assistant/tc_s00_t0.0_rep1/put.py`): `correct_asserts_indent`, which re-indents every non-empty line after the first.
- **Another subject program** (`completions/tc_m01_t1.0_rep4/nds_script.py`): a mutable weighted graph of vertex objects and Dijkstra's shortest-path algorithm over it.

Code that works on values is written as functions, each with lemmas about it. Code that changes things step by step keeps that form:

- the graph and its vertices are classes whose methods update fields in place;
- the builder's per-directory lock table and process table are a class;
- the loops of the source are methods with loop invariants:
  - discovery;
  - the status-map fallback;
  - the cache tally;
  - AST collection and de-duplication;
  - the mutant × test grid;
  - the kill map;
  - input selection and file loading;
  - Dijkstra.

Each of those methods is proved equal to a specification function, and the properties are proved about the function.

The outside world is passed in as parameters:

- the file system, as a set of existing paths, directory walks, a glob function and a CSV reader;
- subprocesses, as a runner function from (run number, mutant id, test name) to the two exit outcomes;
- float parsing, as a caller-supplied function.

Shared pieces:

- `wrappers.dfy`: `Option` and `Result`.
- `text.dfy`: Python `str` operations.
  - `strip`, `split`, `join`, `lower` (ASCII only);
  - `startswith`, `endswith`, `in`;
  - ordinal string comparison.
- `paths.dfy`: lexical `pathlib` paths.
  - `/`, `.name`, `relative_to`, `as_posix`.
- `sorting.dfy`: Python's stable `sorted` as an insertion sort.
  - It is proved to be a permutation, sorted and stable.
  - It is proved unique when there are no ties.
- `shortest_paths.dfy`: the graph-theoretic definitions Dijkstra is proved against.
  - paths, their weights, lower bounds and shortest distances.

## Model

| member | source | states |
|---|---|---|
| RunConfig.ParseArgs | scripts/run_single_mutation_test.py:132-143 | Arguments are accepted iff timeout > 0, 1 <= jobs <= MAX_JOBS (8) and at least one scan root exists. A non-positive timeout is reported first, then the job count. An empty hash seed means none. |
| RunConfig.DefaultsAccepted | scripts/run_single_mutation_test.py:110-147 | The defaults (timeout 300, jobs 1, hash seed "0") are accepted whenever a scan root exists. |
| RunConfig.QuoteIfNeeded | scripts/run_single_mutation_test.py:161-165 | The result is the argument or the argument in double quotes, wrapped exactly when it holds a space and is not already both started and ended by a double quote. Without a space, or already quoted, it is unchanged; with a space the result starts and ends with a quote. |
| RunConfig.QuoteIdempotent | scripts/run_single_mutation_test.py:161-165 | Quoting twice equals quoting once. |
| RunConfig.ResolveExecutable | scripts/run_single_mutation_test.py:174-178 | The venv's `Scripts/<name>` is used iff it exists, and it lies inside the venv; otherwise the bare fallback name is used. |
| Paths.AsPosixRelative | scripts/run_single_mutation_test.py:167-172 | The path is rendered relative to the base when it is inside it, else as a whole. |
| Paths.RelativeRendering | scripts/run_single_mutation_test.py:167-172 | A path below the base renders as its remaining parts joined by `/`. |
| Paths.IsWithin | scripts/run_single_mutation_test.py:287-292 | `_is_within` (also scripts/verify_mutant_test_mapping.py:126-131) holds iff the target has the base's anchor and the base's parts are a prefix of the target's parts, i.e. iff `relative_to` succeeds. |
| Paths.WithinSelf | scripts/run_single_mutation_test.py:287-292 | Every path is within itself and renders relative to itself as ".". |
| Paths.WithinTransitive | scripts/run_single_mutation_test.py:287-292 | Containment is transitive. |
| RunDiscovery.ChooseMutateTarget | scripts/run_single_mutation_test.py:184-189 | `put.py` is chosen whenever present; `nds_script.py` only when `put.py` is absent; nothing iff neither is present. |
| RunDiscovery.FindTestDirs | scripts/run_single_mutation_test.py:191-207 | The loop over both scan roots' walks returns exactly the qualifying directories sorted by their repo-relative POSIX path. |
| RunDiscovery.FoundIff | scripts/run_single_mutation_test.py:191-207 | A directory is found iff it was walked under a scan root, holds `test_final.py` and has a mutate target. |
| RunDiscovery.FoundSorted | scripts/run_single_mutation_test.py:206 | The result is sorted by the relative-path key and is a permutation of what was discovered. |
| RunDiscovery.KeyOrderTotal | scripts/run_single_mutation_test.py:206 | The sort key's order is a total preorder. |
| RunDiscovery.FoundDistinct | scripts/run_single_mutation_test.py:191-207 | With well-formed walks, no directory is found twice, including across the two roots. |
| RunDiscovery.QualifyingDistinct | scripts/run_single_mutation_test.py:197-205 | One root's distinct walk entries give distinct test directories, each from an entry. |
| RunDiscovery.PermutationDistinct | scripts/run_single_mutation_test.py:206 | Sorting keeps distinctness. |
| RunMetadata.DeriveApi | scripts/run_single_mutation_test.py:213-220 | The label is "assistant" iff the first segment is `assistant` or `assistant_clean`, and "completions" iff it is `completions` or `completions_clean`. Otherwise it is empty. |
| RunMetadata.ApiFromFirstSegment | scripts/run_single_mutation_test.py:215 | Nothing after the first `/` affects the label. |
| RunMetadata.ParseSegment | scripts/run_single_mutation_test.py:59 | A match has a non-empty case id and temperature without `_`, and an all-digit repetition. |
| RunMetadata.RoundTrip | scripts/run_single_mutation_test.py:59 | Formatting well-formed parts and parsing the result gives the parts back. |
| RunMetadata.ParseSound | scripts/run_single_mutation_test.py:59 | Whatever parses is its parts spelled with the literals in some letter case. |
| RunMetadata.ParseComplete | scripts/run_single_mutation_test.py:59 | Every well-formed `tc_<id>_t<temp>_rep<n>`, its literals in any letter case, parses to its parts. |
| RunMetadata.FirstSegmentUnderRoot | scripts/run_single_mutation_test.py:227-235 | The segment directly below the scan root is used. The directory name is used when the directory is not below the root, or is the root itself. |
| RunMetadata.DeriveMetadata | scripts/run_single_mutation_test.py:222-260 | The result equals the chain: folder pattern, then the first existing sidecar, then the directory name. |
| RunMetadata.ApiFromPathOnly | scripts/run_single_mutation_test.py:222-260 | The API label never comes from a sidecar or the folder name. |
| RunMetadata.SegmentWins | scripts/run_single_mutation_test.py:227-241 | A matching folder name makes the sidecars irrelevant. |
| RunMetadata.OnlyFirstSidecar | scripts/run_single_mutation_test.py:243-258 | When `meta.json` exists, `metadata.json` has no influence. |
| RunMetadata.LastFallback | scripts/run_single_mutation_test.py:260 | Without a match or a usable first sidecar, the case id is the directory name and temperature and repetition are empty. |
| CacheGuard.CacheStep | scripts/run_single_mutation_test.py:310-326 | The cache is deleted iff it exists and is a file, a link or a directory. A directory is removed as a tree. |
| CacheGuard.RemoveCacheRun | scripts/run_single_mutation_test.py:294-326 | Unresolvable paths and a test dir outside the root are refused. Deletion happens iff the dir is inside the root, has `test_final.py` and a mutate target, and the cache exists. |
| CacheGuard.RunDeletesInsideRoot | scripts/run_single_mutation_test.py:294-326 | Whatever is deleted is `<test dir>/.mutmut-cache`, inside the repository root. |
| CacheGuard.RemoveCacheVerify | scripts/verify_mutant_test_mapping.py:134-171 | Same guard, but the root is optional. An unresolvable given root is refused separately. |
| CacheGuard.GuardsAgree | scripts/verify_mutant_test_mapping.py:134-171 | With a root given, the two guards agree except on how a root resolution failure is reported. |
| CacheGuard.VerifyDeletesOnlyTestDirs | scripts/verify_mutant_test_mapping.py:134-171 | The verifier deletes only the cache of a test directory, within the root when one is given. |
| RunRegistry.Registry.GetPerDirLock | scripts/run_single_mutation_test.py:98-104 | The same lock is returned for a directory every time; a fresh one is created and filed the first time. Each directory's lock is distinct. |
| RunRegistry.Registry.RegisterProc | scripts/run_single_mutation_test.py:328-330 | The process is filed under its pid; nothing else changes. |
| RunRegistry.Registry.UnregisterProc | scripts/run_single_mutation_test.py:332-334 | The pid's entry is removed if present; nothing else changes. |
| RunRegistry.Registry.constructor | scripts/run_single_mutation_test.py:95-96 | Both tables start empty. |
| RunRegistry.LockTwice | scripts/run_single_mutation_test.py:98-104 | Two requests for one directory give the same lock. |
| RunRegistry.LocksDiffer | scripts/run_single_mutation_test.py:98-104 | Two directories never share a lock. |
| RunRegistry.RegisterThenUnregister | scripts/run_single_mutation_test.py:328-334 | Registering then unregistering leaves no entry for the pid. |
| RunTally.FirstUsable | scripts/run_single_mutation_test.py:426-453 | The first non-empty status map found is used, else the built-in fallback table. |
| RunTally.LoadStatusMapping | scripts/run_single_mutation_test.py:426-453 | The search loop returns the first usable map, else the fallback. |
| RunTally.ReverseMapKeys | scripts/run_single_mutation_test.py:479 | A raw status is a key of the reverse map iff some entry maps to it. |
| RunTally.ReverseMapLastWins | scripts/run_single_mutation_test.py:479 | The last entry with a given raw status decides its bucket. |
| RunTally.FallbackReverse | scripts/run_single_mutation_test.py:432-439 | Every status of the fallback table is mapped back to its bucket. |
| RunTally.ComputeCountsFromCache | scripts/run_single_mutation_test.py:469-498 | Succeeds iff the cache was read. Then each of the five buckets (killed, timeout, suspicious, survived, skipped) holds the summed counts of the raw statuses mapped to it. |
| RunTally.BucketsPartition | scripts/run_single_mutation_test.py:480-496 | The five buckets together hold exactly the rows whose status maps to a wanted bucket. |
| RunTally.UncountedIgnored | scripts/run_single_mutation_test.py:469-498 | A row with an unmapped or unwanted status changes no bucket. |
| RunTally.ComputeScore | scripts/run_single_mutation_test.py:500-503 | Score is killed/total for positive totals, else 0; it lies in [0,1] when 0 <= killed <= total, and is 1 iff all are killed. |
| RunTally.CountCache | scripts/run_single_mutation_test.py:533-539 | Succeeds iff the cache was read. Then killed is the killed bucket and total is the sum of all counted rows; on failure both are 0. |
| RunTally.ProcessOne | scripts/run_single_mutation_test.py:509-544 | The status is timeout iff the run timed out; failed iff the exit code is missing or odd; error iff the cache could not be read. Otherwise ok, with killed = the killed bucket, total = the sum of the five buckets, and the score of those. Metadata, duration, size and path are carried over. |
| RunTally.ErrorRow | scripts/run_single_mutation_test.py:655-667 | A row for an exception carries status error, zero counts and the file size or 0, with the metadata, duration and test path carried over. |
| RunReport.ParseInt | scripts/run_single_mutation_test.py:559-566 | `int()` on the repetition succeeds only on non-blank text. |
| RunReport.RepetitionParses | scripts/run_single_mutation_test.py:559-566 | An all-digit repetition parses to its decimal value. |
| RunReport.RowOrderTotal | scripts/run_single_mutation_test.py:569-578 | The row sort key (lowered case id, lowered API, temperature, repetition, path) is a total preorder. |
| RunReport.CmpKeyAntisym | scripts/run_single_mutation_test.py:569-578 | Swapping two keys negates their comparison. |
| RunReport.CmpKeyTrans | scripts/run_single_mutation_test.py:569-578 | Key comparison is transitive. |
| RunReport.UnknownRepetitionLast | scripts/run_single_mutation_test.py:559-566 | An unparsable repetition sorts after every smaller parsed one. |
| RunReport.UnknownTemperatureLast | scripts/run_single_mutation_test.py:554-558 | An unparsable temperature sorts after every finite one. |
| RunReport.WriteOrder | scripts/run_single_mutation_test.py:569-578 | The written rows are a sorted, stable permutation of the input; without ties the order does not depend on input order. |
| RunReport.ScoreCell | scripts/run_single_mutation_test.py:592 | The score cell is "0.0" iff total <= 0, else the six-decimal score. |
| RunReport.DurationCell | scripts/run_single_mutation_test.py:583-594 | The duration cell is empty iff no duration was measured. |
| RunReport.RowCells | scripts/run_single_mutation_test.py:583-594 | A row becomes one cell per header column, with the counts, score, path and status in place. |
| RunReport.CountsPartition | scripts/run_single_mutation_test.py:595-597 | ok rows plus failed rows make all rows. |
| RunReport.OkCountSorted | scripts/run_single_mutation_test.py:595-597 | Sorting does not change the ok count. |
| RunReport.CountOk | scripts/run_single_mutation_test.py:595 | The counting loop returns the number of ok rows. |
| RunReport.WriteLines | scripts/run_single_mutation_test.py:582-594 | One line per row, in order, each the row's cells. |
| RunReport.WriteCsv | scripts/run_single_mutation_test.py:550-597 | The header, then the sorted rows' cells, and ok and failed counts that sum to the row count. |
| KillMatrix.FirstExisting | scripts/verify_mutant_test_mapping.py:104-114 | The index of the first candidate that exists; none iff none exists. |
| KillMatrix.ResolveExecutableVerify | scripts/verify_mutant_test_mapping.py:104-114 | The loop returns the first existing venv candidate (`Scripts/x`, `Scripts/x.exe`, `bin/x`, `bin/x.exe`), else the bare fallback. |
| KillMatrix.FirstIsIndex | scripts/verify_mutant_test_mapping.py:104-114 | The first existing candidate is the one found. |
| KillMatrix.ResolversAgree | scripts/verify_mutant_test_mapping.py:104-114 | Where the builder finds `Scripts/<name>`, the verifier picks the same path. |
| KillMatrix.FindMutateTarget | scripts/verify_mutant_test_mapping.py:117-123 | A target exists iff `put.py` or `nds_script.py` is present, and `put.py` wins. |
| KillMatrix.TargetsAgree | scripts/verify_mutant_test_mapping.py:117-123 | The verifier and the builder choose the same target. |
| KillMatrix.Found | scripts/verify_mutant_test_mapping.py:258-275 | A class contributes exactly its direct `test_*` methods (`MethodsOf`). A `test_*` function contributes itself as a bare test exactly when the module has no class. Any other node contributes nothing. |
| KillMatrix.MethodsInOrder | scripts/verify_mutant_test_mapping.py:260-266 | The k-th method collected from a class body is the `test_*` function at the k-th such position of the body, as `Class::name`. So every such method is collected, in body order, once per occurrence. |
| KillMatrix.MethodsComplete | scripts/verify_mutant_test_mapping.py:260-266 | Every `test_*` function directly in a class body is collected as a method of that class. |
| KillMatrix.FoundCollected | scripts/verify_mutant_test_mapping.py:257-274 | Whatever one walked node contributes is in the collected list. |
| KillMatrix.ReachedTestsCollected | scripts/verify_mutant_test_mapping.py:257-274 | Every `test_*` method of every class the walk reaches is collected. Without a class in the module, every `test_*` function the walk reaches is collected as a bare test. |
| KillMatrix.CollectedKinds | scripts/verify_mutant_test_mapping.py:258-274 | Every collected test is `test_*`-named. With a class in the module all are methods; without a class all are functions. |
| KillMatrix.CollectTests | scripts/verify_mutant_test_mapping.py:258-274 | The walk loop collects exactly the specification's tests, in walk order. |
| KillMatrix.DedupSpec | scripts/verify_mutant_test_mapping.py:276-283 | De-duplication keeps every name once, and each kept test is the first with its name. The k-th kept test is the input at the k-th first-occurrence position. |
| KillMatrix.DedupInOrder | scripts/verify_mutant_test_mapping.py:276-283 | The kept tests are exactly the inputs at the first-occurrence positions, in increasing order. |
| KillMatrix.DedupTests | scripts/verify_mutant_test_mapping.py:276-283 | The seen-set loop computes that de-duplication. |
| KillMatrix.ExtractTestNames | scripts/verify_mutant_test_mapping.py:251-288 | Unparsable modules give no tests; otherwise the de-duplicated tests collected from a breadth-first walk. |
| KillMatrix.SizeAllAppend | scripts/verify_mutant_test_mapping.py:258 | The walk's measure adds over concatenation, so the walk terminates. |
| KillMatrix.ClassifyRun | scripts/verify_mutant_test_mapping.py:310-341 | A mutant is killed iff apply exited 0 and pytest exited non-zero. An apply failure reports its stderr; a timeout of either reports a timeout. A completed pytest run reports no error. |
| KillMatrix.RowOf | scripts/verify_mutant_test_mapping.py:415-439 | One result per test. |
| KillMatrix.Grid | scripts/verify_mutant_test_mapping.py:409-439 | |mutants| × |tests| results. |
| KillMatrix.RunAllPairs | scripts/verify_mutant_test_mapping.py:409-439 | The nested loops produce exactly the mutant-major grid, with runs numbered consecutively. |
| KillMatrix.GridIndex | scripts/verify_mutant_test_mapping.py:409-439 | Position i·|tests|+j holds run number i·|tests|+j+1 of mutant i against test j. |
| KillMatrix.GridPairsDistinct | scripts/verify_mutant_test_mapping.py:409-439 | With distinct ids and names, every (mutant, test) pair occurs once, and every mutant id comes from the cache. |
| KillMatrix.VerifyMutantTestMapping | scripts/verify_mutant_test_mapping.py:356-441 | No target, a failed full run or an empty cache give nothing. No tests give the mutants only. Otherwise the full grid. |
| KillMatrix.BuildKillMap | scripts/verify_mutant_test_mapping.py:451-453 | The loop builds the kill map specification. |
| KillMatrix.KillMapLastWins | scripts/verify_mutant_test_mapping.py:451-453 | A pair's last result decides its entry. |
| KillMatrix.KillMapMissing | scripts/verify_mutant_test_mapping.py:451-453 | A pair that was never run reads as not killed. |
| KillMatrix.MatrixFaithful | scripts/verify_mutant_test_mapping.py:444-504 | The kill map of the grid reports, for every mutant and test, exactly whether that run killed it. |
| KillMatrix.UncachedNotKilled | scripts/verify_mutant_test_mapping.py:444-504 | A mutant id not in the cache is never reported killed. |
| KillMatrix.Killers | scripts/verify_mutant_test_mapping.py:482-489 | The tests listed for a mutant are exactly those that killed it. |
| KillMatrix.KillersInOrder | scripts/verify_mutant_test_mapping.py:482-489 | The k-th test listed for a mutant is the test at the k-th position that killed it, so the list follows test order, once per occurrence. |
| KillMatrix.KilledMutants | scripts/verify_mutant_test_mapping.py:497-504 | The mutants listed for a test are exactly those it killed. |
| KillMatrix.KilledMutantsInOrder | scripts/verify_mutant_test_mapping.py:497-504 | The k-th mutant listed for a test is the id of the mutant at the k-th position that the test killed, so the list follows mutant order, once per occurrence. |
| KillMatrix.SummariesAgree | scripts/verify_mutant_test_mapping.py:482-504 | The per-mutant and per-test views list the same kills. |
| KillMatrix.SummaryOf | scripts/verify_mutant_test_mapping.py:520-525 | The summary counts mutants, tests, combinations and kills, with kills <= combinations. |
| KillMatrix.NoKills | scripts/verify_mutant_test_mapping.py:520-525 | Zero kills iff no result killed. |
| KillMatrix.ExitStatus | scripts/verify_mutant_test_mapping.py:534-578 | Exit is 0 or 1, and 0 iff: the root (if given) exists and contains the dir; the dir exists and has `test_final.py`; a target exists; the full run is skipped or passes; and there are both cached mutants and tests. |
| BenchStats.DeriveStem | scripts/compute_benchmark_statistics.py:63-71 | The stem is one of three. "benchmark_results" whenever that marker occurs; "reproseed-10" iff only "-10-" occurs; "reproseed-dd" iff only "-dd-" occurs. |
| BenchStats.DefaultStemPlain | scripts/compute_benchmark_statistics.py:54-71 | The first default pattern gives "benchmark_results". |
| BenchStats.DefaultStemsTen | scripts/compute_benchmark_statistics.py:54-71 | Both "-10-" default patterns, with or without `@`, give "reproseed-10". |
| BenchStats.DefaultStemsDd | scripts/compute_benchmark_statistics.py:54-71 | Both "-dd-" default patterns give "reproseed-dd". |
| BenchStats.AtPrefixSameStem | scripts/compute_benchmark_statistics.py:63-71 | An `@` prefix does not change the stem of a lower-case pattern without `b`. |
| BenchStats.OutputsAreAggregate | scripts/compute_benchmark_statistics.py:74-86 | The four files a run writes are recognised as aggregate outputs, so later runs skip them. |
| BenchStats.Unaggregated | scripts/compute_benchmark_statistics.py:117 | The matched files are exactly the globbed ones that are not aggregate outputs. |
| BenchStats.UnaggregatedInOrder | scripts/compute_benchmark_statistics.py:117 | The k-th matched file is the glob result at the k-th position that is not an aggregate output, so the sorted glob order and repetitions are kept. |
| BenchStats.AggregateEndings | scripts/compute_benchmark_statistics.py:74-86 | A file is an aggregate output iff its lower-cased name ends with one of the eight endings: `_means.csv`, `_medians.csv`, `_stds.csv`, `_aggregated.csv`, or the same four with `-`. |
| BenchStats.Selection | scripts/compute_benchmark_statistics.py:113-129 | A selection is a pattern together with its non-aggregate matches, which are not empty. |
| BenchStats.SelectionFirst | scripts/compute_benchmark_statistics.py:113-129 | The selected pattern is one of those tried, and every pattern before it matched no non-aggregate file. |
| BenchStats.SelectionNone | scripts/compute_benchmark_statistics.py:113-131 | Nothing is selected iff no pattern has a non-aggregate match. |
| BenchStats.SelectInputs | scripts/compute_benchmark_statistics.py:113-122 | The pattern loop with `break` returns that selection. |
| BenchStats.RenameDisjoint | scripts/compute_benchmark_statistics.py:41-50 | No new name is itself a legacy name, and no two legacy names share a new one. |
| BenchStats.Rename | scripts/compute_benchmark_statistics.py:143-145 | The header keeps its length and other columns. A new name is present iff it or its legacy name was. A legacy name disappears when its new name was absent. Each legacy column becomes its new name exactly when that name was absent, and otherwise stays. |
| BenchStats.RenameIdempotent | scripts/compute_benchmark_statistics.py:143-145 | Renaming twice equals renaming once. |
| BenchStats.ColumnIndex | scripts/compute_benchmark_statistics.py:147-153 | The first position of a column, in range iff the column exists. |
| BenchStats.SubRow | scripts/compute_benchmark_statistics.py:165-175 | A failed row is all missing; otherwise each value is the numeric coercion of its column. |
| BenchStats.FailedCount | scripts/compute_benchmark_statistics.py:168-175 | At most the row count; zero iff no row is failed. |
| BenchStats.LoadFrame | scripts/compute_benchmark_statistics.py:136-188 | A file either fails with 2 or 3, or loads with one entry per row. |
| BenchStats.LoadFrameSpec | scripts/compute_benchmark_statistics.py:136-188 | Code 2 iff unreadable, code 3 iff a required column is missing after renaming. Otherwise the failed count and per-row values are those of the file. |
| BenchStats.LoadAll | scripts/compute_benchmark_statistics.py:134-188 | On success, one frame per file, each that file's load. |
| BenchStats.LoadFiles | scripts/compute_benchmark_statistics.py:134-188 | The file loop returns that result and the total of the failed rows. |
| BenchStats.LoadAllFailure | scripts/compute_benchmark_statistics.py:134-162 | A failed load carries the code of some file's failure. |
| BenchStats.LoadAllStops | scripts/compute_benchmark_statistics.py:134-162 | The first failing file decides the code. |
| BenchStats.TotalFailedZero | scripts/compute_benchmark_statistics.py:172-173 | No failed rows in total iff none in any file. |
| BenchStats.Present | scripts/compute_benchmark_statistics.py:200-203 | A value is present iff it occurs as a non-missing entry, and there are no more values than entries. |
| BenchStats.PresentInOrder | scripts/compute_benchmark_statistics.py:200-203 | The k-th present value is the entry at the k-th non-missing position, so order and repetitions are kept. |
| BenchStats.Ddof | scripts/compute_benchmark_statistics.py:202 | ddof is 1 iff there are several files, else 0. |
| BenchStats.NanMeanMissing | scripts/compute_benchmark_statistics.py:200 | The mean is missing iff every value is missing. |
| BenchStats.NanMeanBounds | scripts/compute_benchmark_statistics.py:200 | The mean lies within any bounds of the present values. |
| BenchStats.NanMedianBounds | scripts/compute_benchmark_statistics.py:201 | The median lies within any bounds of the present values. |
| BenchStats.SumBounds | scripts/compute_benchmark_statistics.py:200 | n·lo <= sum <= n·hi. |
| BenchStats.NanVarianceNonnegative | scripts/compute_benchmark_statistics.py:203 | The variance (the square of nanstd) is never negative. |
| BenchStats.SingleValueStats | scripts/compute_benchmark_statistics.py:200-203 | One file: mean and median are the value; spread is 0 with ddof 0, and missing with ddof 1. |
| BenchStats.PresentSkipsMissing | scripts/compute_benchmark_statistics.py:168-175 | Removing a missing value does not change the present ones. |
| BenchStats.ExcludedRowIgnored | scripts/compute_benchmark_statistics.py:168-175 | A masked row of one file gives the same mean, median and spread as leaving that file out. |
| BenchStats.ExcludedEverywhere | scripts/compute_benchmark_statistics.py:168-175 | A row masked in every file has missing statistics. |
| BenchStats.OutRows | scripts/compute_benchmark_statistics.py:181-219 | One output row per input row, each carrying the first file's meta prefix and suffix cells for that row. |
| BenchStats.SameRowCountIff | scripts/compute_benchmark_statistics.py:191-195 | The set of lengths has one element iff all files have the same row count. |
| BenchStats.ComputeStatistics | scripts/compute_benchmark_statistics.py:113-249 | The main flow equals the specification: select, load, check row counts, compute, name outputs. |
| BenchStats.ExitCodes | scripts/compute_benchmark_statistics.py:113-195 | Exit codes lie in 1..4, and 1 iff no pattern has inputs. |
| BenchStats.RowCountExit | scripts/compute_benchmark_statistics.py:191-195 | After a successful load, exit 4 iff the files differ in row count. |
| BenchStats.WrittenOutputs | scripts/compute_benchmark_statistics.py:113-249 | A written result uses the first matching pattern's non-aggregate inputs, ddof 1 iff several inputs, the given stem or the derived one, one row per input row, and the total of the failed rows. |
| AssertIndent.CorrectAssertsIndent | assistant/tc_s00_t0.0_rep1/put.py:7-15 | A TypeError iff the input is not a string; otherwise the corrected text. |
| AssertIndent.InputLines | assistant/tc_s00_t0.0_rep1/put.py:13 | At least one line, each stripped and free of newlines. |
| AssertIndent.Kept | assistant/tc_s00_t0.0_rep1/put.py:14 | A line value is kept iff it occurs in the input and is non-empty; no more lines than the input. |
| AssertIndent.KeptIndices | assistant/tc_s00_t0.0_rep1/put.py:14 | The positions the `len(l) > 0` filter keeps: strictly increasing, each a non-empty line, and every non-empty line's position among them. |
| AssertIndent.KeptInOrder | assistant/tc_s00_t0.0_rep1/put.py:14 | The kept lines are the input lines at those positions, in that order: order and repeats are preserved. |
| AssertIndent.ResultLines | assistant/tc_s00_t0.0_rep1/put.py:13-15 | Splitting the result on newlines gives back the output lines. |
| AssertIndent.FirstLine | assistant/tc_s00_t0.0_rep1/put.py:13-15 | The first output line is the stripped first input line. |
| AssertIndent.LaterLines | assistant/tc_s00_t0.0_rep1/put.py:14-15 | Every later output line is eight spaces plus a non-empty stripped later input line. The k-th later output line comes from the k-th non-empty later input line, so input order is kept and there is one output line per non-empty later input line. |
| AssertIndent.NonEmptyLinesKept | assistant/tc_s00_t0.0_rep1/put.py:14-15 | Every non-empty later input line appears indented in the output. |
| AssertIndent.BlankInput | assistant/tc_s00_t0.0_rep1/put.py:12-15 | Whitespace-only input gives the empty string. |
| AssertIndent.Idempotent | assistant/tc_s00_t0.0_rep1/put.py:7-15 | Correcting twice equals correcting once. |
| NdsGraph.Vertex.constructor | completions/tc_m01_t1.0_rep4/nds_script.py:31-33 | A new vertex has its key and no neighbours. |
| NdsGraph.Vertex.GetKey | completions/tc_m01_t1.0_rep4/nds_script.py:35-37 | Returns the key. |
| NdsGraph.Vertex.AddNeighbour | completions/tc_m01_t1.0_rep4/nds_script.py:39-41 | Sets the weight to the destination, replacing any earlier one. Afterwards the vertex points to the destination with that weight, and whether it points to any other vertex is unchanged. |
| NdsGraph.Vertex.DoesItPointTo | completions/tc_m01_t1.0_rep4/nds_script.py:51-53 | True iff the destination is a key of the vertex's edge dictionary. |
| NdsGraph.Vertex.GetNeighbours | completions/tc_m01_t1.0_rep4/nds_script.py:43-45 | Exactly the vertices it points to. |
| NdsGraph.Vertex.GetWeight | completions/tc_m01_t1.0_rep4/nds_script.py:47-49 | The weight iff it points to the destination, else KeyError. |
| NdsGraph.Graph.constructor | completions/tc_m01_t1.0_rep4/nds_script.py:2-4 | An empty graph. |
| NdsGraph.Graph.AddVertex | completions/tc_m01_t1.0_rep4/nds_script.py:6-9 | Files a fresh vertex under the key, replacing any earlier one; other entries stay. |
| NdsGraph.Graph.GetVertex | completions/tc_m01_t1.0_rep4/nds_script.py:11-13 | The vertex iff the key is present, else KeyError. |
| NdsGraph.Graph.DoesEdgeExist | completions/tc_m01_t1.0_rep4/nds_script.py:22-24 | KeyError for a missing endpoint (source first), else whether the edge exists. |
| NdsGraph.Graph.AddEdge | completions/tc_m01_t1.0_rep4/nds_script.py:18-20 | KeyError for a missing endpoint, changing nothing. Otherwise the edge exists with the weight (default 1) and no other vertex changes. |
| NdsGraph.Graph.Contains | completions/tc_m01_t1.0_rep4/nds_script.py:15-16 | `key in graph` iff the key is a key of the vertex dictionary. |
| NdsGraph.Graph.ContainsByKey | completions/tc_m01_t1.0_rep4/nds_script.py:11-16 | In a well-formed graph (each vertex filed under its own key, distinct keys holding distinct vertices, which the constructor, `add_vertex` and `add_edge` keep), the key is present iff iteration yields a vertex whose key it is, and `get_vertex(key).get_key()` is the key. |
| NdsGraph.Graph.Vertices | completions/tc_m01_t1.0_rep4/nds_script.py:26-27 | Iteration yields exactly the vertex objects. |
| NdsGraph.Dijkstra | completions/tc_m01_t1.0_rep4/nds_script.py:56-76 | Distances cover the vertices and the source, which gets 0, and every finite distance is a real path's weight. With non-negative weights, every distance is the shortest-path distance (infinite iff unreachable). |
| NdsGraph.RelaxNeighbours | completions/tc_m01_t1.0_rep4/nds_script.py:70-74 | Each unvisited neighbour's distance becomes the smaller of its own and the path through the closest vertex; every finite distance keeps a witnessing path. |
| NdsGraph.VisitPreserves | completions/tc_m01_t1.0_rep4/nds_script.py:62-74 | Removing a minimal vertex and relaxing its edges keeps the loop invariant. |
| NdsGraph.AllVisited | completions/tc_m01_t1.0_rep4/nds_script.py:76 | At the end every distance is reachable and, with non-negative weights, shortest. |
| ShortestPaths.MinIsShortest | completions/tc_m01_t1.0_rep4/nds_script.py:64 | With non-negative weights the minimal unvisited distance is a lower bound on every path to it. |
| ShortestPaths.ShortestUnique | completions/tc_m01_t1.0_rep4/nds_script.py:56-76 | The shortest distance is unique. |
| ShortestPaths.ShortestInf | completions/tc_m01_t1.0_rep4/nds_script.py:59 | A shortest distance is infinite iff no path reaches the vertex. |
| ShortestPaths.Relax | completions/tc_m01_t1.0_rep4/nds_script.py:73-74 | The relaxed distance is the smaller of the two, changing only when strictly greater. |
| Sorting.SortPerm | scripts/run_single_mutation_test.py:569 | Sorting is a permutation. |
| Sorting.SortSorted | scripts/run_single_mutation_test.py:569 | Sorting by a total preorder gives a sorted sequence. |
| Sorting.SortStable | scripts/run_single_mutation_test.py:569 | Equal-keyed elements keep their relative order. |
| Sorting.SortOrderIndependent | scripts/run_single_mutation_test.py:206 | Without ties the result does not depend on the input order. |

## Left out

- Subprocesses: `mutmut run`, `mutmut apply`, `pytest` and their timeouts are a caller-supplied runner or outcome values.
  - Their output parsing and the environment they get (PYTHONHASHSEED, PATH) are not modelled.
- Concurrency: the thread pool, the locks' blocking behaviour and process killing on interrupt are not modelled.
  - The lock table and the process table are modelled single-threaded.
- The `mutmut` SQLite cache and its status map: reading them is an input value.
  - This covers the `.mutmut-cache` query and the `importlib` search of `mutmut`'s status table.
- The file system is given as inputs:
  - `os.walk`, `glob`, file existence, `stat`, `read_csv`, the sidecar `json` files and `Path.resolve()`.
  - Paths are compared lexically after resolution; symlinks and `..` are not modelled.
- Paths.RelativeTo: a case-sensitive prefix of path parts; the case-insensitive `relative_to` of Windows paths is not modelled.
- `ast.parse` is an input: the syntax tree is given, and an unparsable module is `None`.
  - Only class and function definitions are modelled in the tree.
  - Other nodes matter only as children the walk visits.
- `parse_duration_seconds` (`scripts/run_single_mutation_test.py:262-281`) and its float regex: a duration is an optional real given to `ProcessOne`.
- RunTally.ComputeScore: `round(killed/total, 6)` is the exact quotient. Float rounding is not modelled.
- RunReport.ScoreCell: the `%.6f` rendering is a cell constructor over the real. `%.12g` for durations is not rendered.
- RunReport.TemperatureKey: `float()` on the temperature is a caller-supplied function.
  - A NaN temperature (a folder such as `tc_x_tnan_rep1` parses) makes Python's sort key non-total; the model excludes NaN, so the order of such rows is not modelled.
- RunReport.ParseInt: `int()` accepts ASCII digits with an optional sign and surrounding whitespace.
  - Underscores and non-ASCII digits are not accepted.
- Text.Lower: `str.lower` is ASCII-only.
- RunMetadata.ParseSegment: the regex's `$` also matching before a final newline is not modelled.
- RunMetadata.ParseSegment: `\d` in the repetition part accepts ASCII digits only; Python's `\d` also matches other Unicode decimal digits.
  - Folder names never contain newlines.
- BenchStats.NanVariance: `np.nanstd` is modelled by its square, the variance; `sqrt` is not modelled.
  - NaN is `None`, and numbers are exact reals.
- BenchStats.ToNumeric: `pd.to_numeric(errors="coerce")` is a caller-supplied parse of text cells.
- The output files' column layout and CSV writing (`scripts/compute_benchmark_statistics.py:215-240`) are not modelled.
  - `OutRows` does carry the first file's meta cells into every output row; only how the four files arrange the columns is left out.
  - The captured `status` column (`scripts/compute_benchmark_statistics.py:184-188`) is never written, so it is not modelled.
  - The meta-column existence check (`156-162`) is folded into the required-column check: both exit 3.
- Console output is not modelled:
  - `print_kill_matrix`'s table layout, `save_results`' JSON file and every log message.
- Argument parsing (`argparse`) is not modelled: options arrive as typed values.
- Restoring the original file after `mutmut apply` (`scripts/verify_mutant_test_mapping.py:342-351`) is not modelled.
- The full pre-check run (`scripts/verify_mutant_test_mapping.py:382-387`) is a boolean outcome.
- NdsGraph.Dijkstra: `min(unvisited, key=...)` picks any vertex of minimal distance.
  - Python's tie-breaking by set order is unspecified.
  - Weights are integers, not floats.
- NdsGraph.Dijkstra: a neighbour that is not a vertex of the graph is never relaxed, as the `neighbour in unvisited` test skips it.
  - Such edges are not steps of a walk (`ShortestPaths.Edge`), so they add no distance.
