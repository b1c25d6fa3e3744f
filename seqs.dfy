/** Sequence helpers shared by the model: boolean-mask selection of table
    rows (`df[mask]`), sortedness, distinctness and removal. */
module Seqs {

  /** s is sorted ascending: numpy's `searchsorted` needs this of a null
      sample, and the step-up form of Benjamini-Hochberg of its input. */
  ghost predicate Ascending(s: seq<real>)
  {
    forall i, j :: 0 <= i <= j < |s| ==> s[i] <= s[j]
  }

  /** The rows of s that satisfy p, in their original order. */
  function Filter<T>(s: seq<T>, p: T -> bool): (r: seq<T>)
    ensures |r| <= |s|
  {
    if s == [] then []
    else Filter(s[..|s| - 1], p) + (if p(s[|s| - 1]) then [s[|s| - 1]] else [])
  }

  /** a is obtained from b by deleting elements, without reordering. */
  predicate IsSubsequence<T(==)>(a: seq<T>, b: seq<T>)
  {
    a == [] ||
    (b != [] &&
     (IsSubsequence(a, b[..|b| - 1]) ||
      (a[|a| - 1] == b[|b| - 1] && IsSubsequence(a[..|a| - 1], b[..|b| - 1]))))
  }

  /** A row is kept exactly when it is a row of s that satisfies p, and
      every kept row satisfies p. */
  lemma {:induction false} FilterMembership<T>(s: seq<T>, p: T -> bool)
    ensures forall x :: x in Filter(s, p) <==> x in s && p(x)
    ensures forall i :: 0 <= i < |Filter(s, p)| ==> p(Filter(s, p)[i])
  {
    if s != [] {
      FilterMembership(s[..|s| - 1], p);
      assert s == s[..|s| - 1] + [s[|s| - 1]];
    }
  }

  lemma {:induction false} SubsequenceExtend<T>(a: seq<T>, b: seq<T>, x: T)
    requires IsSubsequence(a, b)
    ensures IsSubsequence(a, b + [x])
    ensures IsSubsequence(a + [x], b + [x])
  {
    assert (b + [x])[..|b|] == b;
    assert (a + [x])[..|a|] == a;
  }

  /** Filtering keeps the relative order of the rows. */
  lemma {:induction false} FilterIsSubsequence<T>(s: seq<T>, p: T -> bool)
    ensures IsSubsequence(Filter(s, p), s)
  {
    if s != [] {
      var init := s[..|s| - 1];
      var last := s[|s| - 1];
      FilterIsSubsequence(init, p);
      SubsequenceExtend(Filter(init, p), init, last);
      assert init + [last] == s;
      if p(last) {
        assert Filter(s, p) == Filter(init, p) + [last];
      } else {
        assert Filter(s, p) == Filter(init, p);
      }
    }
  }

  /** Filtering by p and then by q is filtering by both at once (by pq). */
  lemma {:induction false} FilterFilter<T>(s: seq<T>, p: T -> bool, q: T -> bool, pq: T -> bool)
    requires forall x :: pq(x) == (p(x) && q(x))
    ensures Filter(Filter(s, p), q) == Filter(s, pq)
  {
    if s != [] {
      var init := s[..|s| - 1];
      var last := s[|s| - 1];
      FilterFilter(init, p, q, pq);
      var fp := Filter(init, p);
      if p(last) {
        assert (fp + [last])[..|fp|] == fp;
      } else {
        assert fp + [] == fp;
      }
    }
  }

  /** Filtering twice by the same predicate is filtering once. */
  lemma FilterIdempotent<T>(s: seq<T>, p: T -> bool)
    ensures Filter(Filter(s, p), p) == Filter(s, p)
  {
    FilterFilter(s, p, p, p);
  }

  lemma {:induction false} FilterSamePredicate<T>(s: seq<T>, p: T -> bool, q: T -> bool)
    requires forall x :: p(x) == q(x)
    ensures Filter(s, p) == Filter(s, q)
  {
    if s != [] {
      FilterSamePredicate(s[..|s| - 1], p, q);
    }
  }

  /** A predicate that holds of every row keeps them all. */
  lemma {:induction false} FilterAll<T>(s: seq<T>, p: T -> bool)
    requires forall i :: 0 <= i < |s| ==> p(s[i])
    ensures Filter(s, p) == s
  {
    if s != [] {
      FilterAll(s[..|s| - 1], p);
    }
  }

  /** Filter commutes with an elementwise map that the predicate only
      observes through the map. */
  lemma {:induction false} FilterMap<T, U>(s: seq<T>, f: T -> U, p: U -> bool)
    ensures Filter(seq(|s|, i requires 0 <= i < |s| => f(s[i])), p)
         == var kept := Filter(s, x => p(f(x))); seq(|kept|, i requires 0 <= i < |kept| => f(kept[i]))
  {
    if s != [] {
      var init := s[..|s| - 1];
      FilterMap(init, f, p);
      var mapped := seq(|s|, i requires 0 <= i < |s| => f(s[i]));
      assert mapped[..|s| - 1] == seq(|init|, i requires 0 <= i < |init| => f(init[i]));
    }
  }

  /** No two rows of s share the same f-projection. */
  ghost predicate DistinctBy<T, U>(s: seq<T>, f: T -> U)
  {
    forall i, j :: 0 <= i < j < |s| ==> f(s[i]) != f(s[j])
  }

  /** Every kept row comes from some position of the input. */
  lemma {:induction false} FilterSource<T>(s: seq<T>, p: T -> bool, i: nat) returns (k: nat)
    requires i < |Filter(s, p)|
    ensures k < |s| && s[k] == Filter(s, p)[i]
  {
    var init := s[..|s| - 1];
    if i < |Filter(init, p)| {
      k := FilterSource(init, p, i);
    } else {
      k := |s| - 1;
    }
  }

  /** Filtering never creates two rows with the same projection. */
  lemma {:induction false} FilterKeepsDistinct<T, U>(s: seq<T>, p: T -> bool, f: T -> U)
    requires DistinctBy(s, f)
    ensures DistinctBy(Filter(s, p), f)
  {
    if s != [] {
      var init := s[..|s| - 1];
      var last := s[|s| - 1];
      assert DistinctBy(init, f);
      FilterKeepsDistinct(init, p, f);
      FilterMembership(init, p);
      var fi := Filter(init, p);
      if p(last) {
        var r := fi + [last];
        assert Filter(s, p) == r;
        forall i, j | 0 <= i < j < |r|
          ensures f(r[i]) != f(r[j])
        {
          if j == |fi| {
            var k := FilterSource(init, p, i);
            assert s[k] == fi[i];
          } else {
            assert r[i] == fi[i] && r[j] == fi[j];
          }
        }
      } else {
        assert Filter(s, p) == fi;
      }
    }
  }

  /** Taking one row out of a sequence takes it out of its multiset; the
      rows before it keep their positions and the rows after it move down
      by one. */
  lemma RemoveAt<T>(s: seq<T>, k: nat) returns (rest: seq<T>)
    requires k < |s|
    ensures |rest| == |s| - 1
    ensures multiset(rest) == multiset(s) - multiset{s[k]}
    ensures forall m :: 0 <= m < k ==> rest[m] == s[m]
    ensures forall m :: k <= m < |rest| ==> rest[m] == s[m + 1]
  {
    rest := s[..k] + s[k + 1..];
    assert s == s[..k] + [s[k]] + s[k + 1..];
    assert multiset(s) == multiset(s[..k]) + multiset{s[k]} + multiset(s[k + 1..]);
  }

  /** Reordering rows never creates two rows with the same projection. */
  lemma {:induction false} PermutationKeepsDistinct<T, U>(s: seq<T>, t: seq<T>, f: T -> U)
    requires multiset(s) == multiset(t) && DistinctBy(s, f)
    ensures DistinctBy(t, f)
    decreases |t|
  {
    if t != [] {
      var x := t[0];
      assert x in multiset(s);
      var k :| 0 <= k < |s| && s[k] == x;
      var rest := RemoveAt(s, k);
      assert DistinctBy(rest, f) by {
        forall i, j | 0 <= i < j < |rest|
          ensures f(rest[i]) != f(rest[j])
        {
          var a := if i < k then i else i + 1;
          var b := if j < k then j else j + 1;
          assert rest[i] == s[a];
          assert rest[j] == s[b];
          assert a < b;
        }
      }
      assert t == [x] + t[1..];
      assert multiset(t[1..]) == multiset(t) - multiset{x};
      PermutationKeepsDistinct(rest, t[1..], f);
      forall i, j | 0 <= i < j < |t|
        ensures f(t[i]) != f(t[j])
      {
        if i > 0 {
          assert t[i] == t[1..][i - 1] && t[j] == t[1..][j - 1];
        } else {
          assert t[j] == t[1..][j - 1];
          assert t[j] in multiset(rest);
          var m :| 0 <= m < |rest| && rest[m] == t[j];
          var b := if m < k then m else m + 1;
          assert s[b] == t[j] && b != k;
        }
      }
    }
  }
}
