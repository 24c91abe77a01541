/**
 * `write_csv` of the benchmark builder: the order of the report rows, the
 * cells written for each row, and the summary counts.
 */
module RunReport {
  import opened Wrappers
  import opened Text
  import opened Sorting
  import opened RunMetadata
  import opened RunTally

  const CsvHeader: seq<string> := [
    "put", "api_mode", "temperature", "repetition_id", "duration_seconds", "file_size_bytes",
    "killed_mutations", "all_mutations", "score", "actual_test_path", "status"]

  /** The value `float()` gives for a temperature, with its infinities; NaN is not modelled. */
  datatype FloatKey = NegInf | Finite(x: real) | PosInf

  /** The repetition key of a value `int()` cannot parse: `2**31 - 1`. */
  const UnknownRepetition: int := 0x7FFF_FFFF

  function DigitValue(c: char): int
    requires IsDigit(c)
  {
    c as int - '0' as int
  }

  /** The value of a string of ASCII digits. */
  function DigitsValue(ds: string): (v: nat)
    requires AllDigits(ds)
    decreases |ds|
  {
    if ds == [] then 0
    else DigitsValue(ds[..|ds| - 1]) * 10 + DigitValue(ds[|ds| - 1])
  }

  /** `int(value)`: surrounding white space, an optional sign, and ASCII digits. */
  function ParseInt(s: string): (r: Option<int>)
    ensures r.Some? ==> Strip(s) != []
  {
    var t := Strip(s);
    if t != [] && (t[0] == '+' || t[0] == '-') && |t| > 1 && AllDigits(t[1..]) then
      var v: int := DigitsValue(t[1..]);
      Some(if t[0] == '-' then -v else v)
    else if t != [] && AllDigits(t) then Some(DigitsValue(t))
    else None
  }

  /** A repetition taken from a matched folder name always parses, to its decimal value. */
  lemma RepetitionParses(rep: string)
    requires rep != [] && AllDigits(rep)
    ensures ParseInt(rep) == Some(DigitsValue(rep))
  {
    assert IsStripped(rep) by {
      assert !IsSpace(rep[0]) by { assert IsDigit(rep[0]); }
      assert !IsSpace(rep[|rep| - 1]) by { assert IsDigit(rep[|rep| - 1]); }
    }
    StripStripped(rep);
    assert !(rep[0] == '+' || rep[0] == '-') by { assert IsDigit(rep[0]); }
  }

  /** `_repetition_key`. */
  function RepetitionKey(s: string): int {
    match ParseInt(s)
    case Some(n) => n
    case None => UnknownRepetition
  }

  /** `_temperature_key`, over the caller's model of `float()`: unparsable temperatures sort last. */
  function TemperatureKey(parseFloat: string -> Option<FloatKey>, s: string): FloatKey {
    match parseFloat(s)
    case Some(k) => k
    case None => PosInf
  }

  datatype SortKey = SortKey(tc: string, api: string, temp: FloatKey, rep: int, path: string)

  /** The tuple `write_csv` sorts by. */
  function KeyOf(parseFloat: string -> Option<FloatKey>, r: Row): SortKey {
    SortKey(Lower(r.tcId), Lower(r.api), TemperatureKey(parseFloat, r.temp), RepetitionKey(r.rep), r.testPath)
  }

  function CmpInt(a: int, b: int): int {
    if a < b then -1 else if a > b then 1 else 0
  }

  function Rank(k: FloatKey): int {
    match k
    case NegInf => 0
    case Finite(_) => 1
    case PosInf => 2
  }

  function CmpFloat(a: FloatKey, b: FloatKey): int {
    if Rank(a) != Rank(b) then CmpInt(Rank(a), Rank(b))
    else if a.Finite? && b.Finite? then (if a.x < b.x then -1 else if a.x > b.x then 1 else 0)
    else 0
  }

  /** Python's comparison of the key tuples: component by component. */
  function CmpKey(a: SortKey, b: SortKey): int {
    var c1 := StrCmp(a.tc, b.tc);
    if c1 != 0 then c1 else
    var c2 := StrCmp(a.api, b.api);
    if c2 != 0 then c2 else
    var c3 := CmpFloat(a.temp, b.temp);
    if c3 != 0 then c3 else
    var c4 := CmpInt(a.rep, b.rep);
    if c4 != 0 then c4 else
    StrCmp(a.path, b.path)
  }

  function RowLe(parseFloat: string -> Option<FloatKey>): (Row, Row) -> bool {
    (a: Row, b: Row) => CmpKey(KeyOf(parseFloat, a), KeyOf(parseFloat, b)) <= 0
  }

  lemma StrCmpLaws(a: string, b: string, c: string)
    ensures StrCmp(b, a) == -StrCmp(a, b)
    ensures StrCmp(a, b) == 0 <==> a == b
    ensures StrCmp(a, b) <= 0 && StrCmp(b, c) <= 0 ==> StrCmp(a, c) <= 0
  {
    StrCmpAntisym(a, b);
    StrCmpZero(a, b);
    if StrCmp(a, b) <= 0 && StrCmp(b, c) <= 0 {
      StrCmpTrans(a, b, c);
    }
  }

  lemma CmpKeyAntisym(a: SortKey, b: SortKey)
    ensures CmpKey(b, a) == -CmpKey(a, b)
  {
    StrCmpLaws(a.tc, b.tc, b.tc);
    StrCmpLaws(a.api, b.api, b.api);
    StrCmpLaws(a.path, b.path, b.path);
  }

  lemma CmpKeyTrans(a: SortKey, b: SortKey, c: SortKey)
    requires CmpKey(a, b) <= 0 && CmpKey(b, c) <= 0
    ensures CmpKey(a, c) <= 0
  {
    StrCmpLaws(a.tc, b.tc, c.tc);
    StrCmpLaws(b.tc, c.tc, a.tc);
    StrCmpLaws(a.tc, c.tc, b.tc);
    StrCmpLaws(a.api, b.api, c.api);
    StrCmpLaws(b.api, c.api, a.api);
    StrCmpLaws(a.api, c.api, b.api);
    StrCmpLaws(a.path, b.path, c.path);
  }

  /** The row order is a total preorder, so the sort's guarantees apply. */
  lemma RowOrderTotal(parseFloat: string -> Option<FloatKey>)
    ensures TotalPreorder(RowLe(parseFloat))
  {
    var le := RowLe(parseFloat);
    forall a: Row, b: Row ensures le(a, b) || le(b, a) {
      CmpKeyAntisym(KeyOf(parseFloat, a), KeyOf(parseFloat, b));
    }
    forall a: Row, b: Row, c: Row | le(a, b) && le(b, c) ensures le(a, c) {
      CmpKeyTrans(KeyOf(parseFloat, a), KeyOf(parseFloat, b), KeyOf(parseFloat, c));
    }
  }

  /**
   * Of two rows that agree before the repetition, one whose repetition does
   * not parse comes after one whose repetition parses to a smaller value.
   */
  lemma UnknownRepetitionLast(parseFloat: string -> Option<FloatKey>, a: Row, b: Row)
    requires Lower(a.tcId) == Lower(b.tcId) && Lower(a.api) == Lower(b.api)
    requires TemperatureKey(parseFloat, a.temp) == TemperatureKey(parseFloat, b.temp)
    requires ParseInt(a.rep).Some? && ParseInt(a.rep).value < UnknownRepetition && ParseInt(b.rep).None?
    ensures RowLe(parseFloat)(a, b) && !RowLe(parseFloat)(b, a)
  {
    var ka, kb := KeyOf(parseFloat, a), KeyOf(parseFloat, b);
    StrCmpLaws(ka.tc, kb.tc, kb.tc);
    StrCmpLaws(ka.api, kb.api, kb.api);
    assert CmpFloat(ka.temp, kb.temp) == 0;
    assert CmpInt(ka.rep, kb.rep) == -1;
  }

  /** Likewise a temperature `float()` cannot parse sorts after every finite one. */
  lemma UnknownTemperatureLast(parseFloat: string -> Option<FloatKey>, a: Row, b: Row)
    requires Lower(a.tcId) == Lower(b.tcId) && Lower(a.api) == Lower(b.api)
    requires parseFloat(a.temp).Some? && parseFloat(a.temp).value.Finite? && parseFloat(b.temp).None?
    ensures RowLe(parseFloat)(a, b) && !RowLe(parseFloat)(b, a)
  {
    var ka, kb := KeyOf(parseFloat, a), KeyOf(parseFloat, b);
    StrCmpLaws(ka.tc, kb.tc, kb.tc);
    StrCmpLaws(ka.api, kb.api, kb.api);
  }

  /** The rows in the order they are written. */
  function SortRows(parseFloat: string -> Option<FloatKey>, rows: seq<Row>): seq<Row> {
    SortBy(rows, RowLe(parseFloat))
  }

  /**
   * The written rows are a permutation of the rows, ordered by the key tuple,
   * with rows of equal keys kept in arrival order, and independent of the
   * order the rows arrived in when no two keys tie.
   */
  lemma WriteOrder(parseFloat: string -> Option<FloatKey>, rows: seq<Row>, other: seq<Row>, y: Row)
    ensures multiset(SortRows(parseFloat, rows)) == multiset(rows)
    ensures SortedBy(SortRows(parseFloat, rows), RowLe(parseFloat))
    ensures Ties(SortRows(parseFloat, rows), y, RowLe(parseFloat)) == Ties(rows, y, RowLe(parseFloat))
    ensures multiset(other) == multiset(rows) && NoTies(rows, RowLe(parseFloat)) ==>
      SortRows(parseFloat, other) == SortRows(parseFloat, rows)
  {
    RowOrderTotal(parseFloat);
    SortPerm(rows, RowLe(parseFloat));
    SortSorted(rows, RowLe(parseFloat));
    SortStable(rows, y, RowLe(parseFloat));
    if multiset(other) == multiset(rows) && NoTies(rows, RowLe(parseFloat)) {
      SortOrderIndependent(rows, other, RowLe(parseFloat));
    }
  }

  /** A CSV cell: text, an integer, `"%.12g" % x`, or `"%.6f" % x` (which always prints six decimals). */
  datatype Cell = Text(s: string) | Int(n: int) | General12(x: real) | Fixed6(x: real)

  /** The score cell: `"0.0"` when there is nothing to count, the score to six decimals otherwise. */
  function ScoreCell(r: Row): (c: Cell)
    ensures c == Text("0.0") <==> r.total <= 0
    ensures r.total > 0 ==> c == Fixed6(r.score)
  {
    if r.total > 0 then Fixed6(r.score) else Text("0.0")
  }

  function DurationCell(d: Option<real>): (c: Cell)
    ensures d.None? <==> c == Text("")
  {
    if d.None? then Text("") else General12(d.value)
  }

  /** The cells written for one row, in header order. */
  function RowCells(r: Row): (cells: seq<Cell>)
    ensures |cells| == |CsvHeader|
    ensures cells[6] == Int(r.killed) && cells[7] == Int(r.total) && cells[8] == ScoreCell(r)
    ensures cells[0] == Text(r.tcId) && cells[9] == Text(r.testPath) && cells[10] == Text(r.status.Name())
  {
    [Text(r.tcId), Text(r.api), Text(r.temp), Text(r.rep), DurationCell(r.duration), Int(r.fileSize),
     Int(r.killed), Int(r.total), ScoreCell(r), Text(r.testPath), Text(r.status.Name())]
  }

  /** The number of rows with status "ok". */
  function OkCount(rows: seq<Row>): nat {
    if rows == [] then 0
    else (if rows[0].status == Ok then 1 else 0) + OkCount(rows[1..])
  }

  /** The number of rows with any other status. */
  function NotOkCount(rows: seq<Row>): nat {
    if rows == [] then 0
    else (if rows[0].status != Ok then 1 else 0) + NotOkCount(rows[1..])
  }

  /** The two counts add up to the row count. */
  lemma {:induction false} CountsPartition(rows: seq<Row>)
    ensures OkCount(rows) + NotOkCount(rows) == |rows|
  {
    if rows != [] {
      CountsPartition(rows[1..]);
    }
  }

  lemma {:induction false} OkCountSnoc(a: seq<Row>, x: Row)
    ensures OkCount(a + [x]) == OkCount(a) + (if x.status == Ok then 1 else 0)
  {
    if a == [] {
      assert [x][1..] == [];
    } else {
      assert (a + [x])[1..] == a[1..] + [x];
      OkCountSnoc(a[1..], x);
    }
  }

  lemma {:induction false} OkCountInsert(s: seq<Row>, x: Row, le: (Row, Row) -> bool)
    ensures OkCount(Insert(s, x, le)) == OkCount(s) + (if x.status == Ok then 1 else 0)
  {
    if s != [] && !(le(x, s[0]) && !le(s[0], x)) {
      OkCountInsert(s[1..], x, le);
      assert Insert(s, x, le)[1..] == Insert(s[1..], x, le);
    } else if s != [] {
      assert Insert(s, x, le)[1..] == s;
    }
  }

  /** Sorting keeps the "ok" count. */
  lemma {:induction false} OkCountSorted(rows: seq<Row>, le: (Row, Row) -> bool)
    ensures OkCount(SortBy(rows, le)) == OkCount(rows)
    decreases |rows|
  {
    if rows != [] {
      var init, last := rows[..|rows| - 1], rows[|rows| - 1];
      OkCountSorted(init, le);
      OkCountInsert(SortBy(init, le), last, le);
      assert rows == init + [last];
      OkCountSnoc(init, last);
    }
  }

  /** `sum(1 for r in rows if r.status == "ok")`. */
  method CountOk(rows: seq<Row>) returns (okCount: nat)
    ensures okCount == OkCount(rows)
  {
    okCount := 0;
    for i := 0 to |rows|
      invariant okCount + OkCount(rows[i..]) == OkCount(rows)
    {
      assert rows[i..][1..] == rows[i + 1..];
      if rows[i].status == Ok {
        okCount := okCount + 1;
      }
    }
  }

  /** The `writerow` loop over the sorted rows. */
  method WriteLines(sorted: seq<Row>) returns (lines: seq<seq<Cell>>)
    ensures |lines| == |sorted|
    ensures forall i :: 0 <= i < |lines| ==> lines[i] == RowCells(sorted[i])
  {
    lines := [];
    for i := 0 to |sorted|
      invariant |lines| == i
      invariant forall k :: 0 <= k < i ==> lines[k] == RowCells(sorted[k])
    {
      lines := lines + [RowCells(sorted[i])];
    }
  }

  lemma SortRowsLength(parseFloat: string -> Option<FloatKey>, rows: seq<Row>)
    ensures |SortRows(parseFloat, rows)| == |rows|
    ensures multiset(SortRows(parseFloat, rows)) == multiset(rows)
  {
    SortPerm(rows, RowLe(parseFloat));
    assert |multiset(SortRows(parseFloat, rows))| == |multiset(rows)|;
  }

  /**
   * `write_csv`: the header, then one line per row in sorted order, and the
   * summary counts of "ok" rows and all others.
   */
  method WriteCsv(parseFloat: string -> Option<FloatKey>, rows: seq<Row>)
    returns (header: seq<string>, lines: seq<seq<Cell>>, okCount: nat, failedCount: int)
    ensures header == CsvHeader
    ensures |lines| == |rows| == |SortRows(parseFloat, rows)|
    ensures forall i :: 0 <= i < |lines| ==> lines[i] == RowCells(SortRows(parseFloat, rows)[i])
    ensures okCount == OkCount(rows) && failedCount == NotOkCount(rows)
    ensures okCount + failedCount == |rows|
  {
    var sorted := SortRows(parseFloat, rows);
    SortRowsLength(parseFloat, rows);
    header := CsvHeader;
    lines := WriteLines(sorted);
    okCount := CountOk(sorted);
    failedCount := |sorted| - okCount;
    OkCountSorted(rows, RowLe(parseFloat));
    CountsPartition(rows);
  }
}
