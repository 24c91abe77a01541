/**
 * Order-keeping filters. A filter over a sequence is described by the
 * positions it keeps, in increasing order: the k-th element of the result
 * comes from the k-th kept position, which fixes both the order of the
 * result and how often each element occurs in it.
 */
module Filtering {

  /** The positions `i` with `from <= i < n` that satisfy `keep`, in increasing order. */
  function Positions(n: nat, keep: nat -> bool, from: nat): (idx: seq<nat>)
    requires from <= n
    ensures forall k :: 0 <= k < |idx| ==> from <= idx[k] < n && keep(idx[k])
    ensures forall a, b :: 0 <= a < b < |idx| ==> idx[a] < idx[b]
    ensures forall i :: from <= i < n && keep(i) ==> i in idx
    decreases n - from
  {
    if from == n then []
    else (if keep(from) then [from] else []) + Positions(n, keep, from + 1)
  }

  /** Widening the range by one position appends that position when it is kept. */
  lemma {:induction false} PositionsSnoc(n: nat, keep: nat -> bool, from: nat)
    requires from <= n
    ensures Positions(n + 1, keep, from) == Positions(n, keep, from) + (if keep(n) then [n] else [])
    decreases n - from
  {
    var tail: seq<nat> := if keep(n) then [n] else [];
    if from < n {
      var head: seq<nat> := if keep(from) then [from] else [];
      PositionsSnoc(n, keep, from + 1);
      var mid := Positions(n, keep, from + 1);
      calc {
        Positions(n + 1, keep, from);
        head + Positions(n + 1, keep, from + 1);
        head + (mid + tail);
        { Associative(head, mid, tail); }
        (head + mid) + tail;
        Positions(n, keep, from) + tail;
      }
    } else {
      assert Positions(n + 1, keep, from) == tail + Positions(n + 1, keep, n + 1);
    }
  }

  /**
   * One step of a filter that appends the image of position `m` when it keeps
   * it: a result whose k-th element is the image of the k-th kept position
   * keeps that shape with `m` appended.
   */
  lemma SelectSnoc<T>(img: nat -> T, d: seq<T>, before: seq<nat>, m: nat, keep: bool)
    requires |d| == |before|
    requires forall k :: 0 <= k < |before| ==> d[k] == img(before[k])
    ensures var r := if keep then d + [img(m)] else d;
      var idx := before + (if keep then [m] else []);
      && |r| == |idx|
      && forall k :: 0 <= k < |idx| ==> r[k] == img(idx[k])
  {
  }

  /** `SelectSnoc` for a filter that takes the elements themselves from `src`. */
  lemma SelectSnocFrom<T>(src: seq<T>, d: seq<T>, before: seq<nat>, m: nat, keep: bool)
    requires m < |src| && |d| == |before|
    requires forall k :: 0 <= k < |before| ==> before[k] < |src| && d[k] == src[before[k]]
    ensures var r := if keep then d + [src[m]] else d;
      var idx := before + (if keep then [m] else []);
      && |r| == |idx|
      && forall k :: 0 <= k < |idx| ==> idx[k] < |src| && r[k] == src[idx[k]]
  {
    SelectSnoc((i: nat) => if i < |src| then src[i] else src[m], d, before, m, keep);
  }

  /** The same step for a filter that prepends the image of position `i` when it keeps it. */
  lemma SelectCons<T>(img: nat -> T, rest: seq<T>, after: seq<nat>, i: nat, keep: bool)
    requires |rest| == |after|
    requires forall k :: 0 <= k < |after| ==> rest[k] == img(after[k])
    ensures var r := (if keep then [img(i)] else []) + rest;
      var idx := (if keep then [i] else []) + after;
      && |r| == |idx|
      && forall k :: 0 <= k < |idx| ==> r[k] == img(idx[k])
  {
  }

  lemma Associative<T>(a: seq<T>, b: seq<T>, c: seq<T>)
    ensures a + (b + c) == (a + b) + c
  {
  }
}
