/**
  The two JavaScript array operations the table component is built on:
  `Array.prototype.filter` with an `(item, index)` callback, and
  `Array.prototype.findIndex` with a strict-equality test. Both are pure.
 */
module ArrayOps {

  /** `a` can be obtained from `b` by deleting elements, without reordering. */
  predicate IsSubsequence<T(==)>(a: seq<T>, b: seq<T>)
    decreases |b|
  {
    if a == [] then true
    else if b == [] then false
    else (a[|a| - 1] == b[|b| - 1] && IsSubsequence(a[..|a| - 1], b[..|b| - 1]))
         || IsSubsequence(a, b[..|b| - 1])
  }

  /** No value occurs twice. */
  predicate NoDuplicates<T(==)>(s: seq<T>) {
    forall i, j :: 0 <= i < j < |s| ==> s[i] != s[j]
  }

  /** `s.filter((item, index) => keep(item, index))`: the elements whose test
      holds, in their original order. Recursion runs over the prefix so that
      every element is tested with the index it has in `s`. */
  function Filter<T>(s: seq<T>, keep: (T, nat) -> bool): (r: seq<T>)
    ensures |r| <= |s|
    decreases |s|
  {
    if s == [] then []
    else
      var k := |s| - 1;
      Filter(s[..k], keep) + (if keep(s[k], k) then [s[k]] else [])
  }

  /** `s.findIndex(value => value === x)`: the first index holding `x`, or -1. */
  function IndexOf<T(==)>(s: seq<T>, x: T): (r: int)
    ensures -1 <= r < |s|
    ensures r == -1 <==> x !in s
    ensures 0 <= r ==> s[r] == x && x !in s[..r]
  {
    if s == [] then -1
    else if s[0] == x then 0
    else
      var k := IndexOf(s[1..], x);
      if k == -1 then -1
      else
        assert s[..k + 1] == [s[0]] + s[1..][..k];
        k + 1
  }

  /** Appending the same element to both sides keeps a subsequence. */
  lemma SubsequenceAppendBoth<T>(a: seq<T>, b: seq<T>, x: T)
    requires IsSubsequence(a, b)
    ensures IsSubsequence(a + [x], b + [x])
  {
  }

  /** Appending an element to the longer side keeps a subsequence. */
  lemma SubsequenceAppendRight<T>(a: seq<T>, b: seq<T>, x: T)
    requires IsSubsequence(a, b)
    ensures IsSubsequence(a, b + [x])
  {
  }

  /** Filtering never invents or reorders elements. */
  lemma {:induction false} FilterIsSubsequence<T>(s: seq<T>, keep: (T, nat) -> bool)
    ensures IsSubsequence(Filter(s, keep), s)
    decreases |s|
  {
    if s != [] {
      var k := |s| - 1;
      FilterIsSubsequence(s[..k], keep);
      var f := Filter(s[..k], keep);
      assert s == s[..k] + [s[k]];
      if keep(s[k], k) {
        assert Filter(s, keep) == f + [s[k]];
        SubsequenceAppendBoth(f, s[..k], s[k]);
      } else {
        assert Filter(s, keep) == f;
        SubsequenceAppendRight(f, s[..k], s[k]);
      }
    }
  }

  /** A test that passes on every index keeps the whole sequence. */
  lemma {:induction false} FilterKeepsAll<T>(s: seq<T>, keep: (T, nat) -> bool)
    requires forall i :: 0 <= i < |s| ==> keep(s[i], i)
    ensures Filter(s, keep) == s
    decreases |s|
  {
    if s != [] {
      var k := |s| - 1;
      assert forall i :: 0 <= i < k ==> s[..k][i] == s[i];
      FilterKeepsAll(s[..k], keep);
      assert keep(s[k], k);
      assert s[..k] + [s[k]] == s;
    }
  }

  /** Indices `a..b-1` that all fail the test add nothing to the prefix filter. */
  lemma {:induction false} FilterSkips<T>(s: seq<T>, keep: (T, nat) -> bool, a: nat, b: nat)
    requires a <= b <= |s|
    requires forall i :: a <= i < b ==> !keep(s[i], i)
    ensures Filter(s[..b], keep) == Filter(s[..a], keep)
    decreases b
  {
    if a < b {
      assert s[..b][..b - 1] == s[..b - 1];
      assert s[..b][b - 1] == s[b - 1];
      FilterSkips(s, keep, a, b - 1);
    }
  }

  /** Filtering the prefix of length `k + 1` extends the filtered prefix of
      length `k` by element `k` exactly when that element passes. */
  lemma FilterPrefixStep<T>(s: seq<T>, keep: (T, nat) -> bool, k: nat)
    requires k < |s|
    ensures Filter(s[..k + 1], keep)
         == Filter(s[..k], keep) + (if keep(s[k], k) then [s[k]] else [])
  {
    assert s[..k + 1][..k] == s[..k];
    assert s[..k + 1][k] == s[k];
  }

  /** A weaker test keeps a superset of the elements, in the same order:
      the stricter filter is a subsequence of the looser one. */
  lemma {:induction false} FilterWeaker<T>(s: seq<T>, p: (T, nat) -> bool, q: (T, nat) -> bool)
    requires forall i :: 0 <= i < |s| ==> p(s[i], i) ==> q(s[i], i)
    ensures IsSubsequence(Filter(s, p), Filter(s, q))
    decreases |s|
  {
    if s != [] {
      var k := |s| - 1;
      var s' := s[..k];
      forall i | 0 <= i < k
        ensures p(s'[i], i) ==> q(s'[i], i)
      {
        assert s'[i] == s[i];
      }
      FilterWeaker(s', p, q);
      var fp, fq := Filter(s', p), Filter(s', q);
      if p(s[k], k) {
        assert Filter(s, p) == fp + [s[k]] && Filter(s, q) == fq + [s[k]];
        SubsequenceAppendBoth(fp, fq, s[k]);
      } else if q(s[k], k) {
        assert Filter(s, p) == fp && Filter(s, q) == fq + [s[k]];
        SubsequenceAppendRight(fp, fq, s[k]);
      } else {
        assert Filter(s, p) == fp && Filter(s, q) == fq;
      }
    }
  }
}
