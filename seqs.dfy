/**
 * `Array.prototype.filter` and the "validate each entry, keep the good ones"
 * loops of the program, as functions on sequences, with the facts the callers
 * rely on: order is kept, membership is exactly the predicate, filtering twice
 * changes nothing.
 */
module Seqs {
  import opened Common

  /** `a` can be obtained from `b` by deleting elements (order kept). */
  predicate IsSubsequence<T(==)>(a: seq<T>, b: seq<T>)
    decreases |b|
  {
    if b == [] then a == []
    else (a != [] && a[0] == b[0] && IsSubsequence(a[1..], b[1..])) || IsSubsequence(a, b[1..])
  }

  /** Slicing a suffix is slicing the sequence, shifted by where the suffix starts. */
  lemma SuffixSlices<T>(s: seq<T>, c: nat, i: nat, j: nat)
    requires i <= j && c + j <= |s|
    ensures s[c..][i..j] == s[c + i..c + j]
    ensures s[c..][j..] == s[c + j..]
  {
  }

  /** Past the head, a consed sequence is its tail shifted by one. */
  lemma InTail<T>(s: seq<T>, x: T)
    requires x in s && x != s[0]
    ensures x in s[1..]
  {
    var k :| 0 <= k < |s| && s[k] == x;
    assert s[1..][k - 1] == x;
  }

  lemma ConsIndex<T>(x: T, tail: seq<T>, k: nat)
    requires k < |tail|
    ensures ([x] + tail)[k + 1] == tail[k]
  {
  }

  /** A common head keeps one sequence a prefix of another. */
  lemma PrefixExtends<T>(head: seq<T>, a: seq<T>, b: seq<T>)
    requires a <= b
    ensures head + a <= head + b
  {
    assert (head + b)[..|head + a|] == head + b[..|a|];
  }

  /** Whatever a subsequence holds, the sequence holds. */
  lemma {:induction false} SubsequenceMembers<T>(a: seq<T>, b: seq<T>)
    requires IsSubsequence(a, b)
    ensures forall x | x in a :: x in b
    decreases |b|
  {
    if b != [] {
      if a != [] && a[0] == b[0] && IsSubsequence(a[1..], b[1..]) {
        SubsequenceMembers(a[1..], b[1..]);
        assert forall x | x in a :: x == a[0] || x in a[1..];
      } else {
        SubsequenceMembers(a, b[1..]);
      }
    }
  }

  function Filter<T>(xs: seq<T>, p: T -> bool): (r: seq<T>)
    ensures |r| <= |xs|
    ensures forall k | 0 <= k < |r| :: p(r[k])
  {
    if xs == [] then []
    else (if p(xs[0]) then [xs[0]] else []) + Filter(xs[1..], p)
  }

  lemma {:induction false} FilterMembership<T>(xs: seq<T>, p: T -> bool, x: T)
    ensures x in Filter(xs, p) <==> x in xs && p(x)
  {
    if xs != [] {
      FilterMembership(xs[1..], p, x);
      assert xs == [xs[0]] + xs[1..];
    }
  }

  lemma {:induction false} FilterIsSubsequence<T>(xs: seq<T>, p: T -> bool)
    ensures IsSubsequence(Filter(xs, p), xs)
  {
    if xs != [] {
      FilterIsSubsequence(xs[1..], p);
      var r := Filter(xs, p);
      if p(xs[0]) {
        assert r == [xs[0]] + Filter(xs[1..], p);
        assert r[0] == xs[0] && r[1..] == Filter(xs[1..], p);
      } else {
        assert r == Filter(xs[1..], p);
      }
    }
  }

  lemma {:induction false} FilterKeepsAll<T>(xs: seq<T>, p: T -> bool)
    requires forall k | 0 <= k < |xs| :: p(xs[k])
    ensures Filter(xs, p) == xs
  {
    if xs != [] {
      FilterKeepsAll(xs[1..], p);
    }
  }

  lemma FilterIdempotent<T>(xs: seq<T>, p: T -> bool)
    ensures Filter(Filter(xs, p), p) == Filter(xs, p)
  {
    FilterKeepsAll(Filter(xs, p), p);
  }

  /** Filtering depends only on the predicate's answers on the elements. */
  lemma {:induction false} FilterCongruent<T>(xs: seq<T>, p: T -> bool, q: T -> bool)
    requires forall k | 0 <= k < |xs| :: p(xs[k]) == q(xs[k])
    ensures Filter(xs, p) == Filter(xs, q)
  {
    if xs != [] {
      FilterCongruent(xs[1..], p, q);
    }
  }

  /** Nothing passes a predicate no element satisfies. */
  lemma {:induction false} FilterKeepsNone<T>(xs: seq<T>, p: T -> bool)
    requires forall k | 0 <= k < |xs| :: !p(xs[k])
    ensures Filter(xs, p) == []
  {
    if xs != [] {
      FilterKeepsNone(xs[1..], p);
    }
  }

  /** Filtering a concatenation filters each part. */
  lemma {:induction false} FilterConcat<T>(xs: seq<T>, ys: seq<T>, p: T -> bool)
    ensures Filter(xs + ys, p) == Filter(xs, p) + Filter(ys, p)
  {
    if xs == [] {
      assert xs + ys == ys;
    } else {
      var zs := xs + ys;
      assert zs[0] == xs[0] && zs[1..] == xs[1..] + ys;
      FilterConcat(xs[1..], ys, p);
    }
  }

  /** Keeps `f(x).value` for each `x` with `f(x)` present, in order. */
  function FilterMap<A, B>(xs: seq<A>, f: A -> Option<B>): (r: seq<B>)
    ensures |r| <= |xs|
  {
    if xs == [] then []
    else (if f(xs[0]).Some? then [f(xs[0]).value] else []) + FilterMap(xs[1..], f)
  }

  lemma {:induction false} FilterMapConcat<A, B>(xs: seq<A>, ys: seq<A>, f: A -> Option<B>)
    ensures FilterMap(xs + ys, f) == FilterMap(xs, f) + FilterMap(ys, f)
  {
    if xs == [] {
      assert xs + ys == ys;
    } else {
      var zs := xs + ys;
      assert zs[0] == xs[0] && zs[1..] == xs[1..] + ys;
      FilterMapConcat(xs[1..], ys, f);
      var h := if f(xs[0]).Some? then [f(xs[0]).value] else [];
      calc {
        FilterMap(zs, f);
        h + FilterMap(xs[1..] + ys, f);
        h + (FilterMap(xs[1..], f) + FilterMap(ys, f));
        (h + FilterMap(xs[1..], f)) + FilterMap(ys, f);
      }
    }
  }

  lemma {:induction false} FilterMapAllPresent<A, B>(xs: seq<A>, f: A -> Option<B>)
    requires forall k | 0 <= k < |xs| :: f(xs[k]).Some?
    ensures |FilterMap(xs, f)| == |xs|
    ensures forall k | 0 <= k < |xs| :: FilterMap(xs, f)[k] == f(xs[k]).value
  {
    if xs != [] {
      FilterMapAllPresent(xs[1..], f);
    }
  }

  lemma {:induction false} FilterMapNonePresent<A, B>(xs: seq<A>, f: A -> Option<B>)
    requires forall k | 0 <= k < |xs| :: f(xs[k]).None?
    ensures FilterMap(xs, f) == []
  {
    if xs != [] {
      FilterMapNonePresent(xs[1..], f);
    }
  }

  /** Every kept value comes from some entry of the input. */
  lemma {:induction false} FilterMapSource<A, B>(xs: seq<A>, f: A -> Option<B>, y: B)
    requires y in FilterMap(xs, f)
    ensures exists k :: 0 <= k < |xs| && f(xs[k]) == Some(y)
  {
    if f(xs[0]).Some? && y == f(xs[0]).value {
      assert f(xs[0]) == Some(y);
    } else {
      FilterMapSource(xs[1..], f, y);
      var k :| 0 <= k < |xs[1..]| && f(xs[1..][k]) == Some(y);
      assert f(xs[k + 1]) == Some(y);
    }
  }
}
