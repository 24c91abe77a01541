/**
 * Row metadata of the benchmark builder: the API label taken from the first
 * segment of a test path, the `tc_<case>_t<temp>_rep<n>` folder-name parser
 * (matched case-insensitively), and the chain of fallbacks used when a
 * folder name does not follow that form.
 */
module RunMetadata {
  import opened Wrappers
  import opened Text
  import opened Paths

  /** `rel_test.split("/", 1)[0]`. */
  function FirstSegment(s: string): (r: string)
    ensures r == Split(s, '/')[0]
    ensures '/' !in r && StartsWith(s, r)
  {
    SplitHead(s, '/');
    s[..IndexOf(s, '/')]
  }

  /** `derive_api_from_actual_test_path`. */
  function DeriveApi(relTest: string): (api: string)
    ensures api == "assistant" <==> FirstSegment(relTest) in {"assistant", "assistant_clean"}
    ensures api == "completions" <==> FirstSegment(relTest) in {"completions", "completions_clean"}
    ensures api == "" <==>
      FirstSegment(relTest) !in {"assistant", "assistant_clean", "completions", "completions_clean"}
  {
    var first := FirstSegment(relTest);
    if first in {"assistant", "assistant_clean"} then "assistant"
    else if first in {"completions", "completions_clean"} then "completions"
    else ""
  }

  /** The first segment of `head/tail` is `head`. */
  lemma FirstSegmentPrefix(head: string, tail: string)
    requires '/' !in head
    ensures FirstSegment(head + "/" + tail) == head
  {
    var s := head + "/" + tail;
    assert s[|head|] == '/';
    assert forall k :: 0 <= k < |head| ==> s[k] == head[k];
    IndexOfFirst(s, '/', |head|);
    assert s[..|head|] == head;
  }

  /** The label depends on nothing after the first `/`. */
  lemma ApiFromFirstSegment(head: string, tail: string)
    requires '/' !in head
    ensures DeriveApi(head + "/" + tail) == DeriveApi(head)
  {
    FirstSegmentPrefix(head, tail);
    IndexOfFirst(head, '/', |head|);
    assert head[..|head|] == head;
    assert FirstSegment(head + "/" + tail) == FirstSegment(head);
  }

  /** `IndexOf` finds the first occurrence. */
  lemma {:induction false} IndexOfFirst(s: string, c: char, k: nat)
    requires k <= |s| && (k < |s| ==> s[k] == c) && forall j :: 0 <= j < k ==> s[j] != c
    ensures IndexOf(s, c) == k
    decreases |s|
  {
    if s != [] && s[0] != c {
      IndexOfFirst(s[1..], c, k - 1);
    }
  }

  predicate IsDigit(c: char) {
    '0' <= c <= '9'
  }

  predicate AllDigits(s: string) {
    forall i :: 0 <= i < |s| ==> IsDigit(s[i])
  }

  /** The three groups of `TC_SEGMENT_RX`. */
  datatype TcMatch = TcMatch(tc: string, temp: string, rep: string)

  /** What the groups can hold: `[^_]+`, `[^_]+` and `\d+`. */
  predicate WellFormed(m: TcMatch) {
    && m.tc != [] && '_' !in m.tc
    && m.temp != [] && '_' !in m.temp
    && m.rep != [] && AllDigits(m.rep)
  }

  /**
   * `TC_SEGMENT_RX.match(segment)`. The groups exclude `_` and the pattern
   * holds exactly three underscores, so a match is a split into four parts:
   * `tc`, the case id, `t` + temperature, `rep` + digits, the literal
   * letters in any case.
   */
  function ParseSegment(segment: string): (r: Option<TcMatch>)
    ensures r.Some? ==> WellFormed(r.value)
  {
    var parts := Split(segment, '_');
    if && |parts| == 4
       && Lower(parts[0]) == "tc"
       && parts[1] != []
       && |parts[2]| >= 2 && LowerChar(parts[2][0]) == 't'
       && |parts[3]| >= 4 && Lower(parts[3][..3]) == "rep" && AllDigits(parts[3][3..])
    then
      assert '_' !in parts[3][3..] by {
        forall i | 0 <= i < |parts[3][3..]| ensures parts[3][3..][i] != '_' {
          assert IsDigit(parts[3][3..][i]);
        }
      }
      Some(TcMatch(parts[1], parts[2][1..], parts[3][3..]))
    else None
  }

  /** The canonical folder name `tc_<case>_t<temp>_rep<n>`. */
  function Format(m: TcMatch): string {
    "tc_" + m.tc + "_t" + m.temp + "_rep" + m.rep
  }

  /** A segment with the literals in any case: `TC_`, `_T`, `_Rep`, ... */
  function Spelled(tc0: string, t0: char, rep0: string, m: TcMatch): string {
    tc0 + "_" + m.tc + "_" + [t0] + m.temp + "_" + rep0 + m.rep
  }

  predicate CaseVariants(tc0: string, t0: char, rep0: string) {
    Lower(tc0) == "tc" && LowerChar(t0) == 't' && Lower(rep0) == "rep"
  }

  lemma LowerNoUnderscore(s: string)
    requires Lower(s) == "tc" || Lower(s) == "rep"
    ensures '_' !in s
  {
    forall i | 0 <= i < |s| ensures s[i] != '_' {
      assert LowerChar(s[i]) == Lower(s)[i];
    }
  }

  /** Every well-formed match, spelled in any case, parses back to itself. */
  lemma ParseComplete(tc0: string, t0: char, rep0: string, m: TcMatch)
    requires WellFormed(m) && CaseVariants(tc0, t0, rep0)
    ensures ParseSegment(Spelled(tc0, t0, rep0, m)) == Some(m)
  {
    LowerNoUnderscore(tc0);
    LowerNoUnderscore(rep0);
    assert |rep0| == 3;
    var parts := [tc0, m.tc, [t0] + m.temp, rep0 + m.rep];
    forall i | 0 <= i < 4 ensures '_' !in parts[i] {
      if i == 2 {
        assert t0 != '_' by { assert LowerChar(t0) == 't'; }
      }
      if i == 3 {
        forall j | 0 <= j < |m.rep| ensures m.rep[j] != '_' {
          assert IsDigit(m.rep[j]);
        }
      }
    }
    SplitJoin(parts, '_');
    Join4(parts, '_');
    assert Join(parts, '_') == Spelled(tc0, t0, rep0, m);
    assert (rep0 + m.rep)[..3] == rep0;
    assert (rep0 + m.rep)[3..] == m.rep;
  }

  lemma Join4(parts: seq<string>, sep: char)
    requires |parts| == 4
    ensures Join(parts, sep) == parts[0] + [sep] + parts[1] + [sep] + parts[2] + [sep] + parts[3]
  {
    assert Join(parts[3..], sep) == parts[3];
    assert parts[2..][1..] == parts[3..];
    assert Join(parts[2..], sep) == parts[2] + [sep] + parts[3];
    assert parts[1..][1..] == parts[2..];
    assert Join(parts[1..], sep) == parts[1] + [sep] + Join(parts[2..], sep);
  }

  /** The canonical spelling round-trips. */
  lemma RoundTrip(m: TcMatch)
    requires WellFormed(m)
    ensures ParseSegment(Format(m)) == Some(m)
  {
    ParseComplete("tc", 't', "rep", m);
    assert Spelled("tc", 't', "rep", m) == Format(m);
  }

  /** Whatever parses is a well-formed match spelled with some case of the literals. */
  lemma ParseSound(segment: string)
    requires ParseSegment(segment).Some?
    ensures exists tc0, t0, rep0 ::
      CaseVariants(tc0, t0, rep0) && segment == Spelled(tc0, t0, rep0, ParseSegment(segment).value)
  {
    var parts := Split(segment, '_');
    var m := ParseSegment(segment).value;
    var t0, rep0 := parts[2][0], parts[3][..3];
    JoinSplit(segment, '_');
    Join4(parts, '_');
    assert parts[2] == [t0] + m.temp;
    assert parts[3] == rep0 + m.rep;
    var x := parts[0] + "_" + m.tc + "_";
    Associative(x, [t0], m.temp);
    var y := x + [t0] + m.temp + "_";
    Associative(y, rep0, m.rep);
    assert segment == Spelled(parts[0], t0, rep0, m);
  }

  lemma Associative(a: string, b: string, c: string)
    ensures a + (b + c) == a + b + c
  {
  }

  /** A parsed `meta.json` / `metadata.json`: each field as `str(data.get(k, "") or "")`. */
  datatype Sidecar = Unreadable | Record(tcId: string, temp: string, rep: string)

  /** `(tc_id, api, temp, rep)`. */
  datatype Metadata = Metadata(tcId: string, api: string, temp: string, rep: string)

  const SidecarNames: seq<string> := ["meta.json", "metadata.json"]

  /**
   * The first segment of the test directory below its scan root, or the
   * directory's own name when it is the root itself or not below it.
   */
  function FirstSegmentUnderRoot(repoRoot: Path, rootName: string, testDir: Path): (seg: string)
    ensures IsWithin(Child(repoRoot, rootName), testDir) && |testDir.parts| > |repoRoot.parts| + 1 ==>
      seg == testDir.parts[|repoRoot.parts| + 1]
    ensures !IsWithin(Child(repoRoot, rootName), testDir) ==> seg == Name(testDir)
    ensures testDir == Child(repoRoot, rootName) ==> seg == Name(testDir)
  {
    match RelativeTo(testDir, Child(repoRoot, rootName))
    case Some(rel) => if rel.parts != [] then rel.parts[0] else Name(testDir)
    case None => Name(testDir)
  }

  /** The sidecar the search stops at: the first of the two names that exists. */
  function FirstSidecar(sidecars: map<string, Sidecar>): Option<Sidecar> {
    if "meta.json" in sidecars then Some(sidecars["meta.json"])
    else if "metadata.json" in sidecars then Some(sidecars["metadata.json"])
    else None
  }

  /** The metadata `derive_metadata` settles on, stated as its chain of fallbacks. */
  function MetadataSpec(repoRoot: Path, rootName: string, testDir: Path, relTest: string,
                        sidecars: map<string, Sidecar>): Metadata
  {
    var api := DeriveApi(relTest);
    match ParseSegment(FirstSegmentUnderRoot(repoRoot, rootName, testDir))
    case Some(m) => Metadata(m.tc, api, m.temp, m.rep)
    case None =>
      match FirstSidecar(sidecars)
      case Some(Record(tcId, temp, rep)) =>
        if tcId != [] then Metadata(tcId, api, temp, rep) else Metadata(Name(testDir), api, [], [])
      case _ => Metadata(Name(testDir), api, [], [])
  }

  /**
   * `derive_metadata`: the folder-name pattern first, then the sidecars in
   * order, stopping at the first one that exists, then the directory name.
   * A sidecar exists when its name is a key of `sidecars`.
   */
  method DeriveMetadata(repoRoot: Path, rootName: string, testDir: Path, relTest: string,
                        sidecars: map<string, Sidecar>) returns (md: Metadata)
    ensures md == MetadataSpec(repoRoot, rootName, testDir, relTest, sidecars)
  {
    var api := DeriveApi(relTest);
    var firstSeg := FirstSegmentUnderRoot(repoRoot, rootName, testDir);
    var parsed := ParseSegment(firstSeg);
    if parsed.Some? {
      return Metadata(parsed.value.tc, api, parsed.value.temp, parsed.value.rep);
    }
    assert SidecarNames[0] == "meta.json" && SidecarNames[1] == "metadata.json";
    var i := 0;
    while i < |SidecarNames|
      invariant 0 <= i <= |SidecarNames|
      invariant forall j :: 0 <= j < i ==> SidecarNames[j] !in sidecars
    {
      var name := SidecarNames[i];
      if name in sidecars {
        var data := sidecars[name];
        assert FirstSidecar(sidecars) == Some(data);
        if data.Record? && data.tcId != [] {
          return Metadata(data.tcId, api, data.temp, data.rep);
        }
        break;
      }
      i := i + 1;
    }
    assert i == |SidecarNames| ==> FirstSidecar(sidecars).None?;
    md := Metadata(Name(testDir), api, [], []);
  }

  /** The API label never comes from a sidecar or the folder name. */
  lemma ApiFromPathOnly(repoRoot: Path, rootName: string, testDir: Path, relTest: string,
                        sidecars: map<string, Sidecar>)
    ensures MetadataSpec(repoRoot, rootName, testDir, relTest, sidecars).api == DeriveApi(relTest)
  {
  }

  /** A folder name that matches makes the sidecars irrelevant. */
  lemma SegmentWins(repoRoot: Path, rootName: string, testDir: Path, relTest: string,
                    sidecars: map<string, Sidecar>, m: TcMatch)
    requires ParseSegment(FirstSegmentUnderRoot(repoRoot, rootName, testDir)) == Some(m)
    ensures MetadataSpec(repoRoot, rootName, testDir, relTest, sidecars) ==
      Metadata(m.tc, DeriveApi(relTest), m.temp, m.rep)
  {
  }

  /**
   * Only the first existing sidecar is consulted: when `meta.json` exists,
   * `metadata.json` is never read, even if `meta.json` was unreadable or had
   * no `tc_id`.
   */
  lemma OnlyFirstSidecar(repoRoot: Path, rootName: string, testDir: Path, relTest: string,
                         sidecars: map<string, Sidecar>, other: Sidecar)
    requires "meta.json" in sidecars
    ensures MetadataSpec(repoRoot, rootName, testDir, relTest, sidecars) ==
      MetadataSpec(repoRoot, rootName, testDir, relTest, sidecars["metadata.json" := other])
  {
    assert FirstSidecar(sidecars) == FirstSidecar(sidecars["metadata.json" := other]);
  }

  /**
   * Without a matching folder name or a usable first sidecar the row gets
   * the directory name as its case id and empty temperature and repetition.
   */
  lemma LastFallback(repoRoot: Path, rootName: string, testDir: Path, relTest: string,
                     sidecars: map<string, Sidecar>)
    requires ParseSegment(FirstSegmentUnderRoot(repoRoot, rootName, testDir)).None?
    requires FirstSidecar(sidecars).None? || FirstSidecar(sidecars) == Some(Unreadable)
      || (FirstSidecar(sidecars).value.Record? && FirstSidecar(sidecars).value.tcId == [])
    ensures MetadataSpec(repoRoot, rootName, testDir, relTest, sidecars) ==
      Metadata(Name(testDir), DeriveApi(relTest), [], [])
  {
  }
}
