/**
 * `correct_asserts_indent` of the S-00 subject program: strips the whole
 * text, splits it into lines, strips every line, keeps the first line as it
 * is and indents every later non-empty line by eight spaces.
 */
module AssertIndent {
  import opened Text
  import opened Wrappers

  /** The argument of the Python function: a `str`, or any other object. */
  datatype PyValue = PyStr(s: string) | PyOther

  datatype TypeError = TypeError(message: string)

  const Indent: string := "        "

  /** `[l.strip() for l in lines]` */
  function StripEach(lines: seq<string>): (r: seq<string>)
    ensures |r| == |lines|
    ensures forall i :: 0 <= i < |lines| ==> r[i] == Strip(lines[i])
  {
    seq(|lines|, i requires 0 <= i < |lines| => Strip(lines[i]))
  }

  /** The lines that pass the `len(l) > 0` filter, in order. */
  function Kept(lines: seq<string>): (r: seq<string>)
    ensures |r| <= |lines|
    ensures forall l :: l in r <==> l in lines && l != []
  {
    if lines == [] then []
    else (if |lines[0]| > 0 then [lines[0]] else []) + Kept(lines[1..])
  }

  /**
   * The positions from `from` on of the non-empty lines, in increasing
   * order: the lines the filter keeps, read off the input.
   */
  function KeptIndices(lines: seq<string>, from: nat): (idx: seq<nat>)
    requires from <= |lines|
    ensures forall k :: 0 <= k < |idx| ==> from <= idx[k] < |lines| && lines[idx[k]] != []
    ensures forall a, b :: 0 <= a < b < |idx| ==> idx[a] < idx[b]
    ensures forall i :: from <= i < |lines| && lines[i] != [] ==> i in idx
    decreases |lines| - from
  {
    if from == |lines| then []
    else (if |lines[from]| > 0 then [from] else []) + KeptIndices(lines, from + 1)
  }

  /** The filter keeps the non-empty lines in input order, each as often as it occurs. */
  lemma {:induction false} KeptInOrder(lines: seq<string>, from: nat)
    requires from <= |lines|
    ensures |Kept(lines[from..])| == |KeptIndices(lines, from)|
    ensures forall k :: 0 <= k < |Kept(lines[from..])| ==> Kept(lines[from..])[k] == lines[KeptIndices(lines, from)[k]]
    decreases |lines| - from
  {
    if from < |lines| {
      KeptInOrder(lines, from + 1);
      assert lines[from..][1..] == lines[from + 1..];
    }
  }

  /** `" " * 8 + l` for every line. */
  function IndentAll(lines: seq<string>): (r: seq<string>)
    ensures |r| == |lines|
    ensures forall i :: 0 <= i < |lines| ==> r[i] == Indent + lines[i]
  {
    seq(|lines|, i requires 0 <= i < |lines| => Indent + lines[i])
  }

  /** `[l.strip() for l in code.strip().split("\n")]` */
  function InputLines(code: string): (r: seq<string>)
    ensures |r| >= 1
    ensures forall i :: 0 <= i < |r| ==> IsStripped(r[i]) && '\n' !in r[i]
  {
    StripEach(Split(Strip(code), '\n'))
  }

  /** `[lines[0]] + [" " * 8 + l for l in lines[1:] if len(l) > 0]` */
  function OutputLines(code: string): seq<string> {
    var lines := InputLines(code);
    [lines[0]] + IndentAll(Kept(lines[1..]))
  }

  function Corrected(code: string): string {
    Join(OutputLines(code), '\n')
  }

  /** `correct_asserts_indent(code)`: a `TypeError` for anything but a string. */
  function CorrectAssertsIndent(code: PyValue): (r: Result<string, TypeError>)
    ensures r.Failure? <==> code.PyOther?
    ensures r.Failure? ==> r.error == TypeError("Input must be a string")
    ensures r.Success? ==> r.value == Corrected(code.s)
  {
    match code
    case PyOther => Failure(TypeError("Input must be a string"))
    case PyStr(s) => Success(Corrected(s))
  }

  lemma KeptNoNewlines(lines: seq<string>)
    requires forall i :: 0 <= i < |lines| ==> '\n' !in lines[i]
    ensures forall i :: 0 <= i < |Kept(lines)| ==> '\n' !in Indent + Kept(lines)[i]
  {
    var kept := Kept(lines);
    forall i | 0 <= i < |kept| ensures '\n' !in Indent + kept[i] {
      assert kept[i] in lines;
      var j :| 0 <= j < |lines| && lines[j] == kept[i];
    }
  }

  lemma OutputHasNoNewlines(code: string)
    ensures forall i :: 0 <= i < |OutputLines(code)| ==> '\n' !in OutputLines(code)[i]
  {
    var lines := InputLines(code);
    var rest := lines[1..];
    forall i | 0 <= i < |rest| ensures '\n' !in rest[i] {
      assert rest[i] == lines[i + 1];
    }
    var kept := Kept(rest);
    KeptNoNewlines(rest);
    var ind := IndentAll(kept);
    var out := [lines[0]] + ind;
    assert OutputLines(code) == out;
    forall i | 0 <= i < |out| ensures '\n' !in out[i] {
      if i > 0 {
        assert out[i] == ind[i - 1] == Indent + kept[i - 1];
      }
    }
  }

  /** The lines of the result are exactly the output lines built from the input. */
  lemma {:induction false} ResultLines(code: string)
    ensures Split(Corrected(code), '\n') == OutputLines(code)
  {
    OutputHasNoNewlines(code);
    SplitJoin(OutputLines(code), '\n');
  }

  /**
   * The first result line is the first line of the stripped input, itself
   * stripped, with no indentation added.
   */
  lemma FirstLine(code: string)
    ensures Split(Corrected(code), '\n')[0] == Strip(Split(Strip(code), '\n')[0])
    ensures IsStripped(Split(Corrected(code), '\n')[0])
  {
    ResultLines(code);
  }

  /**
   * Every later result line is eight spaces followed by a non-empty, stripped
   * input line, and there is one per non-empty later input line: the k-th
   * later result line comes from the k-th non-empty later input line.
   */
  lemma LaterLines(code: string)
    ensures var out := Split(Corrected(code), '\n');
      && |out| == 1 + |Kept(InputLines(code)[1..])|
      && forall k :: 1 <= k < |out| ==>
           exists l :: out[k] == Indent + l && l != [] && IsStripped(l) && l in InputLines(code)[1..]
    ensures var out := Split(Corrected(code), '\n');
      var rest := InputLines(code)[1..];
      var idx := KeptIndices(rest, 0);
      && |out| == 1 + |idx|
      && forall k :: 1 <= k < |out| ==> out[k] == Indent + rest[idx[k - 1]]
  {
    ResultLines(code);
    var out := Split(Corrected(code), '\n');
    var rest := InputLines(code)[1..];
    var kept := Kept(rest);
    var idx := KeptIndices(rest, 0);
    KeptInOrder(rest, 0);
    assert rest[0..] == rest;
    assert out == [InputLines(code)[0]] + IndentAll(kept);
    forall k | 1 <= k < |out|
      ensures out[k] == Indent + rest[idx[k - 1]]
      ensures exists l :: out[k] == Indent + l && l != [] && IsStripped(l) && l in rest
    {
      var l := kept[k - 1];
      assert out[k] == Indent + l;
      assert l in kept;
    }
  }

  /** No non-empty later input line is lost, however short: the filter is `len(l) > 0`. */
  lemma NonEmptyLinesKept(code: string, l: string)
    requires l in InputLines(code)[1..] && l != []
    ensures Indent + l in Split(Corrected(code), '\n')[1..]
  {
    ResultLines(code);
    var kept := Kept(InputLines(code)[1..]);
    var i :| 0 <= i < |kept| && kept[i] == l;
    assert OutputLines(code)[1..][i] == Indent + l;
  }

  /** Empty or whitespace-only input gives the empty string. */
  lemma BlankInput(code: string)
    requires AllSpace(code)
    ensures Corrected(code) == ""
  {
    StripAllSpace(code);
    assert Split(Strip(code), '\n') == [[]];
    assert InputLines(code) == [[]];
    assert Kept([]) == [];
  }

  lemma {:induction false} KeptNonEmpty(lines: seq<string>)
    requires forall i :: 0 <= i < |lines| ==> lines[i] != []
    ensures Kept(lines) == lines
    decreases |lines|
  {
    if lines != [] {
      KeptNonEmpty(lines[1..]);
    }
  }

  /** The first input line of a non-blank text is non-empty. */
  lemma FirstLineNonEmpty(code: string)
    requires !AllSpace(code)
    ensures InputLines(code)[0] != []
  {
    var s := Strip(code);
    StripAllSpace(code);
    var first := Split(s, '\n')[0];
    SplitHead(s, '\n');
    assert !IsSpace(s[0]);
    assert first[0] == s[0];
    StripAllSpace(first);
  }

  /** Joining a stripped first line with indented stripped lines gives stripped text. */
  lemma JoinedStripped(first: string, kept: seq<string>)
    requires first != [] && IsStripped(first)
    requires forall i :: 0 <= i < |kept| ==> kept[i] != [] && IsStripped(kept[i])
    ensures IsStripped(Join([first] + IndentAll(kept), '\n'))
  {
    var out := [first] + IndentAll(kept);
    var r := Join(out, '\n');
    JoinStartsWith(out, '\n');
    JoinEndsWith(out, '\n');
    assert r[0] == first[0];
    var last := out[|out| - 1];
    if kept != [] {
      assert last == Indent + kept[|kept| - 1];
    }
    assert r[|r| - 1] == last[|last| - 1];
  }

  /** Stripping the indented lines again gives back the kept lines. */
  lemma StripIndentedLine(k: string)
    requires k != [] && IsStripped(k)
    ensures Strip(Indent + k) == k
  {
    assert AllSpace(Indent);
    StripPadded(Indent, k);
  }

  lemma StripIndented(first: string, kept: seq<string>)
    requires IsStripped(first)
    requires forall i :: 0 <= i < |kept| ==> kept[i] != [] && IsStripped(kept[i])
    ensures StripEach([first] + IndentAll(kept)) == [first] + kept
  {
    var out := [first] + IndentAll(kept);
    var want := [first] + kept;
    var r := StripEach(out);
    assert |r| == |want|;
    forall i | 0 <= i < |r| ensures r[i] == want[i] {
      if i == 0 {
        StripStripped(first);
      } else {
        assert out[i] == Indent + kept[i - 1];
        StripIndentedLine(kept[i - 1]);
      }
    }
  }

  /** Correcting already-corrected text changes nothing. */
  lemma Idempotent(code: string)
    ensures Corrected(Corrected(code)) == Corrected(code)
  {
    if AllSpace(code) {
      BlankInput(code);
      BlankInput("");
    } else {
      var lines := InputLines(code);
      var first := lines[0];
      var kept := Kept(lines[1..]);
      var r := Corrected(code);
      assert r == Join([first] + IndentAll(kept), '\n');
      FirstLineNonEmpty(code);
      assert forall i :: 0 <= i < |kept| ==> kept[i] != [] && IsStripped(kept[i]) by {
        forall i | 0 <= i < |kept| ensures kept[i] != [] && IsStripped(kept[i]) {
          assert kept[i] in lines[1..];
        }
      }
      JoinedStripped(first, kept);
      StripStripped(r);
      ResultLines(code);
      StripIndented(first, kept);
      assert InputLines(r) == [first] + kept;
      KeptNonEmpty(kept);
      assert OutputLines(r) == [first] + IndentAll(kept);
    }
  }
}
