/** The array operations the pipeline uses: `filter`, `map`, and `[...new Set(xs)]`. */
module Seqs {

  /** `xs.filter(p)`: the elements satisfying `p`, in their original order. */
  function Filter<T(!new)>(xs: seq<T>, p: T -> bool): (r: seq<T>)
    ensures |r| <= |xs|
    ensures forall i :: 0 <= i < |r| ==> p(r[i])
  {
    if xs == [] then []
    else (if p(xs[0]) then [xs[0]] else []) + Filter(xs[1..], p)
  }

  /** `xs.map(f)` */
  function Map<T, U>(xs: seq<T>, f: T -> U): (r: seq<U>)
    ensures |r| == |xs|
    ensures forall i :: 0 <= i < |xs| ==> r[i] == f(xs[i])
  {
    seq(|xs|, i requires 0 <= i < |xs| => f(xs[i]))
  }

  /** `sub` is `xs` with some elements left out and the rest in their order. */
  ghost predicate IsSubsequence<T>(sub: seq<T>, xs: seq<T>)
    decreases |xs|
  {
    if xs == [] then sub == []
    else IsSubsequence(sub, xs[1..]) || (sub != [] && sub[0] == xs[0] && IsSubsequence(sub[1..], xs[1..]))
  }

  ghost predicate Distinct<T>(xs: seq<T>) {
    forall i, j :: 0 <= i < j < |xs| ==> xs[i] != xs[j]
  }

  /** `k` is where `x` first occurs in `xs`. */
  ghost predicate IsFirstIndex<T>(xs: seq<T>, x: T, k: int) {
    0 <= k < |xs| && xs[k] == x && forall m :: 0 <= m < k ==> xs[m] != x
  }

  /** `[...new Set(xs)]`: each value once, in the order of its first occurrence. */
  function Dedup<T(==,!new)>(xs: seq<T>): (r: seq<T>)
    ensures Distinct(r)
    ensures forall x :: x in r <==> x in xs
    ensures |r| <= |xs|
  {
    if xs == [] then []
    else
      var d := Dedup(xs[..|xs| - 1]);
      var x := xs[|xs| - 1];
      assert xs == xs[..|xs| - 1] + [x];
      if x in d then d else d + [x]
  }

  // ---------------------------------------------------------------- lemmas

  /** Filtering a concatenation filters each part. */
  lemma {:induction false} FilterAppend<T(!new)>(a: seq<T>, b: seq<T>, p: T -> bool)
    ensures Filter(a + b, p) == Filter(a, p) + Filter(b, p)
    decreases |a|
  {
    if a == [] {
      assert a + b == b;
    } else {
      assert (a + b)[1..] == a[1..] + b;
      FilterAppend(a[1..], b, p);
    }
  }

  /** The filter keeps exactly the elements that satisfy `p`. */
  lemma {:induction false} FilterMembers<T(!new)>(xs: seq<T>, p: T -> bool)
    ensures forall x :: x in Filter(xs, p) <==> x in xs && p(x)
    decreases |xs|
  {
    if xs != [] {
      FilterMembers(xs[1..], p);
      assert xs == [xs[0]] + xs[1..];
    }
  }

  /** A filter that every element passes changes nothing. */
  lemma {:induction false} FilterAll<T(!new)>(xs: seq<T>, p: T -> bool)
    requires forall i :: 0 <= i < |xs| ==> p(xs[i])
    ensures Filter(xs, p) == xs
    decreases |xs|
  {
    if xs != [] {
      FilterAll(xs[1..], p);
    }
  }

  /** A filter that no element passes leaves nothing. */
  lemma {:induction false} FilterNone<T(!new)>(xs: seq<T>, p: T -> bool)
    requires forall i :: 0 <= i < |xs| ==> !p(xs[i])
    ensures Filter(xs, p) == []
    decreases |xs|
  {
    if xs != [] {
      FilterNone(xs[1..], p);
    }
  }

  /** Filtering keeps the original order. */
  lemma {:induction false} FilterIsSubsequence<T(!new)>(xs: seq<T>, p: T -> bool)
    ensures IsSubsequence(Filter(xs, p), xs)
    decreases |xs|
  {
    if xs != [] {
      FilterIsSubsequence(xs[1..], p);
      if p(xs[0]) {
        assert Filter(xs, p)[1..] == Filter(xs[1..], p);
      } else {
        assert Filter(xs, p) == Filter(xs[1..], p) by {
          assert Filter(xs, p) == [] + Filter(xs[1..], p);
        }
        assert IsSubsequence(Filter(xs, p), xs[1..]);
      }
    }
  }

  /** A filter applied after a map keeps as many elements as the matching filter before it. */
  lemma {:induction false} FilterMapLength<T(!new), U(!new)>(xs: seq<T>, f: T -> U, q: U -> bool, p: T -> bool)
    requires forall i :: 0 <= i < |xs| ==> q(f(xs[i])) == p(xs[i])
    ensures |Filter(Map(xs, f), q)| == |Filter(xs, p)|
    decreases |xs|
  {
    if xs != [] {
      assert Map(xs, f)[1..] == Map(xs[1..], f);
      FilterMapLength(xs[1..], f, q, p);
    }
  }

  lemma FirstIndexInPrefix<T>(xs: seq<T>, x: T, k: int, n: int)
    requires 0 <= n <= |xs| && x in xs[..n] && IsFirstIndex(xs, x, k)
    ensures k < n && IsFirstIndex(xs[..n], x, k)
  {
    var m :| 0 <= m < n && xs[..n][m] == x;
    assert xs[m] == x;
  }

  /** The values of `Dedup(xs)` stand in the order in which each first occurs in `xs`. */
  lemma {:induction false} DedupFirstOccurrenceOrder<T(!new)>(xs: seq<T>, i: int, j: int, a: int, b: int)
    requires 0 <= i < j < |Dedup(xs)|
    requires IsFirstIndex(xs, Dedup(xs)[i], a) && IsFirstIndex(xs, Dedup(xs)[j], b)
    ensures a < b
    decreases |xs|
  {
    var n := |xs| - 1;
    var pre := xs[..n];
    var d := Dedup(pre);
    var r := Dedup(xs);
    assert xs == pre + [xs[n]];
    FirstIndexInPrefix(xs, r[i], a, n);
    if j < |d| {
      FirstIndexInPrefix(xs, r[j], b, n);
      DedupFirstOccurrenceOrder(pre, i, j, a, b);
    } else {
      // r[j] is the last element, first seen at position n.
      assert r[j] == xs[n] && xs[n] !in pre;
      assert b == n;
    }
  }
}
