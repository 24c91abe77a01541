/**
 * Python's `sorted(xs, key=...)` / `list.sort(key=...)`: a stable sort by a
 * total preorder on the keys. It is modelled as an insertion sort, and the
 * lemmas below prove the guarantees Python documents for it: the result is
 * ordered, is a permutation of the input, keeps equal-key elements in input
 * order, and is the only ordered permutation when no two elements tie.
 */
module Sorting {

  /** `le` compares two elements by their keys: total and transitive. */
  ghost predicate TotalPreorder<T(!new)>(le: (T, T) -> bool) {
    && (forall a, b :: le(a, b) || le(b, a))
    && (forall a, b, c :: le(a, b) && le(b, c) ==> le(a, c))
  }

  /** No two distinct elements of `s` tie under `le`. */
  ghost predicate NoTies<T>(s: seq<T>, le: (T, T) -> bool) {
    forall x, y :: x in s && y in s && le(x, y) && le(y, x) ==> x == y
  }

  predicate SortedBy<T>(s: seq<T>, le: (T, T) -> bool) {
    forall i, j :: 0 <= i < j < |s| ==> le(s[i], s[j])
  }

  /** Places `x` just before the first element that sorts strictly after it. */
  function Insert<T>(s: seq<T>, x: T, le: (T, T) -> bool): seq<T> {
    if s == [] then [x]
    else if le(x, s[0]) && !le(s[0], x) then [x] + s
    else [s[0]] + Insert(s[1..], x, le)
  }

  /** The stable sort of `xs`. */
  function SortBy<T>(xs: seq<T>, le: (T, T) -> bool): seq<T> {
    if xs == [] then []
    else Insert(SortBy(xs[..|xs| - 1], le), xs[|xs| - 1], le)
  }

  /** The elements of `s` that tie with `y`, in their order in `s`. */
  ghost function Ties<T>(s: seq<T>, y: T, le: (T, T) -> bool): seq<T> {
    if s == [] then []
    else (if le(s[0], y) && le(y, s[0]) then [s[0]] else []) + Ties(s[1..], y, le)
  }

  lemma {:induction false} InsertPerm<T>(s: seq<T>, x: T, le: (T, T) -> bool)
    ensures multiset(Insert(s, x, le)) == multiset(s) + multiset{x}
    decreases |s|
  {
    if s != [] && !(le(x, s[0]) && !le(s[0], x)) {
      InsertPerm(s[1..], x, le);
      assert s == [s[0]] + s[1..];
    }
  }

  /** The sort returns a permutation of its input. */
  lemma {:induction false} SortPerm<T>(xs: seq<T>, le: (T, T) -> bool)
    ensures multiset(SortBy(xs, le)) == multiset(xs)
    decreases |xs|
  {
    if xs != [] {
      var init := xs[..|xs| - 1];
      SortPerm(init, le);
      InsertPerm(SortBy(init, le), xs[|xs| - 1], le);
      assert xs == init + [xs[|xs| - 1]];
    }
  }

  lemma {:induction false} InsertSorted<T(!new)>(s: seq<T>, x: T, le: (T, T) -> bool)
    requires TotalPreorder(le) && SortedBy(s, le)
    ensures SortedBy(Insert(s, x, le), le)
    decreases |s|
  {
    if s != [] {
      if le(x, s[0]) && !le(s[0], x) {
        assert forall j :: 0 <= j < |s| ==> le(x, s[j]) by {
          forall j | 0 <= j < |s| ensures le(x, s[j]) {
            if j > 0 { assert le(s[0], s[j]); }
          }
        }
      } else {
        assert le(s[0], x);
        InsertSorted(s[1..], x, le);
        InsertPerm(s[1..], x, le);
        var t := Insert(s[1..], x, le);
        forall j | 0 <= j < |t| ensures le(s[0], t[j]) {
          assert t[j] in multiset(t);
          if t[j] != x {
            assert t[j] in multiset(s[1..]);
            assert t[j] in s[1..];
          }
        }
      }
    }
  }

  /** The sort orders its result. */
  lemma {:induction false} SortSorted<T(!new)>(xs: seq<T>, le: (T, T) -> bool)
    requires TotalPreorder(le)
    ensures SortedBy(SortBy(xs, le), le)
    decreases |xs|
  {
    if xs != [] {
      SortSorted(xs[..|xs| - 1], le);
      InsertSorted(SortBy(xs[..|xs| - 1], le), xs[|xs| - 1], le);
    }
  }

  lemma {:induction false} TiesConcat<T>(a: seq<T>, b: seq<T>, y: T, le: (T, T) -> bool)
    ensures Ties(a + b, y, le) == Ties(a, y, le) + Ties(b, y, le)
    decreases |a|
  {
    if a != [] {
      assert (a + b)[1..] == a[1..] + b;
      TiesConcat(a[1..], b, y, le);
    } else {
      assert a + b == b;
    }
  }

  lemma {:induction false} TiesNone<T>(s: seq<T>, y: T, le: (T, T) -> bool)
    requires forall j :: 0 <= j < |s| ==> !(le(s[j], y) && le(y, s[j]))
    ensures Ties(s, y, le) == []
    decreases |s|
  {
    if s != [] {
      TiesNone(s[1..], y, le);
    }
  }

  lemma SortedTail<T>(s: seq<T>, le: (T, T) -> bool)
    requires s != [] && SortedBy(s, le)
    ensures SortedBy(s[1..], le)
  {
    forall i, j | 0 <= i < j < |s[1..]| ensures le(s[1..][i], s[1..][j]) {
      assert s[1..][i] == s[i + 1] && s[1..][j] == s[j + 1];
    }
  }

  /** An element placed in front of a sorted sequence ties with `y` only if nothing after it does. */
  lemma InsertTiesFront<T(!new)>(s: seq<T>, x: T, y: T, le: (T, T) -> bool)
    requires TotalPreorder(le) && SortedBy(s, le)
    requires s != [] && le(x, s[0]) && !le(s[0], x)
    ensures Ties([x] + s, y, le) == Ties(s, y, le) + (if le(x, y) && le(y, x) then [x] else [])
  {
    assert ([x] + s)[1..] == s;
    if le(x, y) && le(y, x) {
      forall j | 0 <= j < |s| ensures !(le(s[j], y) && le(y, s[j])) {
        if j > 0 { assert le(s[0], s[j]); }
      }
      TiesNone(s, y, le);
    }
  }

  lemma {:induction false} InsertTies<T(!new)>(s: seq<T>, x: T, y: T, le: (T, T) -> bool)
    requires TotalPreorder(le) && SortedBy(s, le)
    ensures Ties(Insert(s, x, le), y, le)
         == Ties(s, y, le) + (if le(x, y) && le(y, x) then [x] else [])
    decreases |s|
  {
    if s == [] {
      assert Ties([x], y, le) == (if le(x, y) && le(y, x) then [x] else []) + Ties([], y, le);
    } else if le(x, s[0]) && !le(s[0], x) {
      InsertTiesFront(s, x, y, le);
    } else {
      var rest := Insert(s[1..], x, le);
      assert ([s[0]] + rest)[1..] == rest;
      SortedTail(s, le);
      InsertTies(s[1..], x, y, le);
    }
  }

  /** The sort is stable: the elements that tie with any `y` keep their input order. */
  lemma {:induction false} SortStable<T(!new)>(xs: seq<T>, y: T, le: (T, T) -> bool)
    requires TotalPreorder(le)
    ensures Ties(SortBy(xs, le), y, le) == Ties(xs, y, le)
    decreases |xs|
  {
    if xs != [] {
      var init, last := xs[..|xs| - 1], xs[|xs| - 1];
      SortStable(init, y, le);
      SortSorted(init, le);
      InsertTies(SortBy(init, le), last, y, le);
      assert xs == init + [last];
      TiesConcat(init, [last], y, le);
    }
  }

  lemma SortedHeadFirst<T(!new)>(s: seq<T>, x: T, le: (T, T) -> bool)
    requires TotalPreorder(le) && SortedBy(s, le) && x in multiset(s)
    ensures le(s[0], x)
  {
    var i :| 0 <= i < |s| && s[i] == x;
    if i > 0 { assert le(s[0], s[i]); }
  }

  lemma TailsPerm<T>(a: seq<T>, b: seq<T>)
    requires a != [] && b != [] && a[0] == b[0] && multiset(a) == multiset(b)
    ensures multiset(a[1..]) == multiset(b[1..])
  {
    assert a == [a[0]] + a[1..] && b == [b[0]] + b[1..];
    assert multiset(a[1..]) == multiset(a) - multiset{a[0]};
    assert multiset(b[1..]) == multiset(b) - multiset{b[0]};
  }

  /** Two ordered permutations of one another are equal when nothing ties. */
  lemma {:induction false} SortedUnique<T(!new)>(a: seq<T>, b: seq<T>, le: (T, T) -> bool)
    requires TotalPreorder(le)
    requires SortedBy(a, le) && SortedBy(b, le)
    requires multiset(a) == multiset(b) && NoTies(a, le)
    ensures a == b
    decreases |a|
  {
    assert |b| == |multiset(b)| == |multiset(a)| == |a|;
    if a != [] {
      SortedHeadFirst(b, a[0], le);
      SortedHeadFirst(a, b[0], le);
      assert b[0] in a by { assert b[0] in multiset(a); }
      assert a[0] == b[0];
      TailsPerm(a, b);
      assert NoTies(a[1..], le) by {
        forall x, y | x in a[1..] && y in a[1..] && le(x, y) && le(y, x) ensures x == y {
          assert x in a && y in a;
        }
      }
      SortedUnique(a[1..], b[1..], le);
      assert a == [a[0]] + a[1..] && b == [b[0]] + b[1..];
    }
  }

  /** The sorted result does not depend on the order the input arrived in. */
  lemma SortOrderIndependent<T(!new)>(xs: seq<T>, ys: seq<T>, le: (T, T) -> bool)
    requires TotalPreorder(le)
    requires multiset(xs) == multiset(ys) && NoTies(xs, le)
    ensures SortBy(xs, le) == SortBy(ys, le)
  {
    SortPerm(xs, le);
    SortPerm(ys, le);
    SortSorted(xs, le);
    SortSorted(ys, le);
    var a, b := SortBy(xs, le), SortBy(ys, le);
    forall x, y | x in a && y in a && le(x, y) && le(y, x) ensures x == y {
      assert x in multiset(a) && y in multiset(a);
      assert x in xs && y in xs;
    }
    SortedUnique(a, b, le);
  }
}
