/** Benjamini--Hochberg false-discovery-rate adjustment of one gene's
    p-values (`fdrcorrection(..., method='indep')`, called at
    genewalk/perform_statistics.py:252-255).

    `Adjust` states the adjusted value of every p-value without sorting:
    q_i = min(1, min { p_j * m / r_j : p_j >= p_i }), where r_j is the number
    of p-values at most p_j (the largest rank p_j's value takes in ascending
    order). `StepUp` is the textbook procedure on an ascending list (scale
    the i-th smallest by m/i, take the running minimum from the top rank,
    clip to 1), and `StepUpAgrees` proves the two equal. */
module Fdr {
  import Seqs

  function Min(a: real, b: real): real
  {
    if a <= b then a else b
  }

  /** Number of p-values at most v. */
  function CountAtMost(ps: seq<real>, v: real): (c: nat)
    ensures c <= |ps|
  {
    if ps == [] then 0
    else CountAtMost(ps[..|ps| - 1], v) + (if ps[|ps| - 1] <= v then 1 else 0)
  }

  lemma {:induction false} CountAtMostSelf(ps: seq<real>, j: nat)
    requires j < |ps|
    ensures CountAtMost(ps, ps[j]) >= 1
  {
    if j < |ps| - 1 {
      CountAtMostSelf(ps[..|ps| - 1], j);
    }
  }

  /** p * m / r: a p-value scaled by the number of tests over its rank. */
  function Ratio(p: real, m: nat, r: nat): real
    requires r >= 1
  {
    p * (m as real) / (r as real)
  }

  /** p_j * m / r_j, the step-up scaling of p_j at its largest rank. */
  function Scaled(ps: seq<real>, j: nat): real
    requires j < |ps|
  {
    CountAtMostSelf(ps, j);
    Ratio(ps[j], |ps|, CountAtMost(ps, ps[j]))
  }

  /** min(1, min { Scaled(ps, j) : j < k, ps[j] >= v }). */
  function CappedMin(ps: seq<real>, v: real, k: nat): (r: real)
    requires k <= |ps|
    ensures r <= 1.0
  {
    if k == 0 then 1.0
    else if ps[k - 1] >= v then Min(CappedMin(ps, v, k - 1), Scaled(ps, k - 1))
    else CappedMin(ps, v, k - 1)
  }

  /** The BH-adjusted q-value of every p-value, in the input's order. */
  function Adjust(ps: seq<real>): (qs: seq<real>)
    ensures |qs| == |ps|
  {
    seq(|ps|, i requires 0 <= i < |ps| => CappedMin(ps, ps[i], |ps|))
  }

  lemma {:induction false} CappedMinBelow(ps: seq<real>, v: real, k: nat, j: nat)
    requires j < k <= |ps| && ps[j] >= v
    ensures CappedMin(ps, v, k) <= Scaled(ps, j)
  {
    if j < k - 1 {
      CappedMinBelow(ps, v, k - 1, j);
    }
  }

  lemma {:induction false} CappedMinGreatest(ps: seq<real>, v: real, k: nat, x: real)
    requires k <= |ps| && x <= 1.0
    requires forall j :: 0 <= j < k && ps[j] >= v ==> x <= Scaled(ps, j)
    ensures x <= CappedMin(ps, v, k)
  {
    if k > 0 {
      CappedMinGreatest(ps, v, k - 1, x);
    }
  }

  /** A larger threshold ranges over fewer terms, so its minimum is larger. */
  lemma {:induction false} CappedMinAntitone(ps: seq<real>, v: real, w: real, k: nat)
    requires k <= |ps| && v <= w
    ensures CappedMin(ps, v, k) <= CappedMin(ps, w, k)
  {
    if k > 0 {
      CappedMinAntitone(ps, v, w, k - 1);
    }
  }

  /** A larger rank gives a smaller scaled value. */
  lemma RatioAntitone(p: real, m: nat, r1: nat, r2: nat)
    requires p >= 0.0 && r1 >= r2 >= 1
    ensures Ratio(p, m, r1) <= Ratio(p, m, r2)
  {
    var a, c1, c2 := p * (m as real), r1 as real, r2 as real;
    assert a >= 0.0;
    var x, y := a / c1, a / c2;
    assert x * c1 == a && y * c2 == a;
    assert x >= 0.0;
    assert x * c2 <= x * c1;
    assert (y - x) * c2 >= 0.0;
  }

  /** A rank never exceeds the number of tests, so scaling never lowers a
      non-negative p-value. */
  lemma RatioAtLeast(p: real, m: nat, r: nat)
    requires p >= 0.0 && m >= r >= 1
    ensures Ratio(p, m, r) >= p
  {
    RatioAntitone(p, m, m, r);
    var q := p * (m as real) / (m as real);
    assert q * (m as real) == p * (m as real);
    assert (q - p) * (m as real) == 0.0;
  }

  lemma ScaledAtLeast(ps: seq<real>, j: nat)
    requires j < |ps| && ps[j] >= 0.0
    ensures Scaled(ps, j) >= ps[j]
  {
    CountAtMostSelf(ps, j);
    RatioAtLeast(ps[j], |ps|, CountAtMost(ps, ps[j]));
  }

  /** Every q-value lies between its p-value and 1. */
  lemma AdjustBounds(ps: seq<real>)
    requires forall i :: 0 <= i < |ps| ==> 0.0 <= ps[i] <= 1.0
    ensures forall i :: 0 <= i < |ps| ==> ps[i] <= Adjust(ps)[i] <= 1.0
  {
    forall i | 0 <= i < |ps|
      ensures ps[i] <= Adjust(ps)[i]
    {
      forall j | 0 <= j < |ps| && ps[j] >= ps[i]
        ensures ps[i] <= Scaled(ps, j)
      {
        ScaledAtLeast(ps, j);
      }
      CappedMinGreatest(ps, ps[i], |ps|, ps[i]);
    }
  }

  /** q-values follow the p-values: ordering by ascending p orders the q-values
      ascending too (the step-up invariant). */
  lemma AdjustMonotone(ps: seq<real>, i: nat, k: nat)
    requires i < |ps| && k < |ps| && ps[i] <= ps[k]
    ensures Adjust(ps)[i] <= Adjust(ps)[k]
  {
    CappedMinAntitone(ps, ps[i], ps[k], |ps|);
  }

  /** Equal p-values get equal q-values. */
  lemma AdjustTies(ps: seq<real>, i: nat, k: nat)
    requires i < |ps| && k < |ps| && ps[i] == ps[k]
    ensures Adjust(ps)[i] == Adjust(ps)[k]
  {
  }

  /** min(1, min { s[j] * m / (j + 1) : i <= j < m }), the running minimum
      from the top rank down to rank i + 1. */
  function StepUpFrom(s: seq<real>, i: nat): (r: real)
    requires i <= |s|
    ensures r <= 1.0
    decreases |s| - i
  {
    if i == |s| then 1.0
    else Min(Ratio(s[i], |s|, i + 1), StepUpFrom(s, i + 1))
  }

  /** The BH step-up procedure on p-values already in ascending order. */
  function StepUp(s: seq<real>): (qs: seq<real>)
    ensures |qs| == |s|
  {
    seq(|s|, i requires 0 <= i < |s| => StepUpFrom(s, i))
  }

  lemma {:induction false} StepUpFromBelow(s: seq<real>, i: nat, j: nat)
    requires i <= j < |s|
    ensures StepUpFrom(s, i) <= Ratio(s[j], |s|, j + 1)
    decreases j - i
  {
    if i < j {
      StepUpFromBelow(s, i + 1, j);
    }
  }

  lemma {:induction false} StepUpFromGreatest(s: seq<real>, i: nat, x: real)
    requires i <= |s| && x <= 1.0
    requires forall j :: i <= j < |s| ==> x <= Ratio(s[j], |s|, j + 1)
    ensures x <= StepUpFrom(s, i)
    decreases |s| - i
  {
    if i < |s| {
      StepUpFromGreatest(s, i + 1, x);
    }
  }

  /** On an ascending list, CountAtMost(s, v) splits s into the values at
      most v and the values above it. */
  lemma {:induction false} CountAtMostSorted(s: seq<real>, v: real)
    requires Seqs.Ascending(s)
    ensures forall i :: 0 <= i < CountAtMost(s, v) ==> s[i] <= v
    ensures forall i :: CountAtMost(s, v) <= i < |s| ==> v < s[i]
  {
    if s != [] {
      var init := s[..|s| - 1];
      assert Seqs.Ascending(init);
      CountAtMostSorted(init, v);
      if s[|s| - 1] <= v {
        assert forall i :: 0 <= i < |init| ==> init[i] <= s[|s| - 1];
        CountAtMostAll(init, v);
      }
    }
  }

  lemma CountAtMostSortedAt(s: seq<real>, v: real, k: nat)
    requires Seqs.Ascending(s) && k < |s|
    ensures k < CountAtMost(s, v) <==> s[k] <= v
  {
    CountAtMostSorted(s, v);
  }

  lemma {:induction false} CountAtMostAll(s: seq<real>, v: real)
    requires forall i :: 0 <= i < |s| ==> s[i] <= v
    ensures CountAtMost(s, v) == |s|
  {
    if s != [] {
      CountAtMostAll(s[..|s| - 1], v);
    }
  }

  /** On an ascending list, the last position holding the value s[j] is
      CountAtMost(s, s[j]) - 1, at or after every position holding a smaller
      or equal value. */
  lemma LastOfValue(s: seq<real>, i: nat, j: nat) returns (top: nat)
    requires Seqs.Ascending(s) && i < |s| && j < |s| && s[i] <= s[j]
    ensures i <= top < |s| && j <= top
    ensures s[top] == s[j] && CountAtMost(s, s[j]) == top + 1
  {
    var c := CountAtMost(s, s[j]);
    CountAtMostSortedAt(s, s[j], j);
    CountAtMostSortedAt(s, s[j], i);
    top := c - 1;
    CountAtMostSortedAt(s, s[j], top);
  }

  lemma ScaledAtLast(s: seq<real>, j: nat, top: nat)
    requires top < |s| && j < |s|
    requires s[top] == s[j] && CountAtMost(s, s[j]) == top + 1
    ensures Scaled(s, j) == Ratio(s[top], |s|, top + 1)
  {
  }

  lemma StepUpBelowScaled(s: seq<real>, i: nat, j: nat, top: nat)
    requires i <= top < |s| && j < |s|
    requires s[top] == s[j] && CountAtMost(s, s[j]) == top + 1
    ensures StepUpFrom(s, i) <= Scaled(s, j)
  {
    ScaledAtLast(s, j, top);
    StepUpFromBelow(s, i, top);
  }

  /** The running minimum is at most every term of the order-free minimum. */
  lemma StepUpBelowCappedMin(s: seq<real>, i: nat)
    requires Seqs.Ascending(s) && i < |s|
    ensures StepUpFrom(s, i) <= CappedMin(s, s[i], |s|)
  {
    forall j | 0 <= j < |s| && s[j] >= s[i]
      ensures StepUpFrom(s, i) <= Scaled(s, j)
    {
      var top := LastOfValue(s, i, j);
      StepUpBelowScaled(s, i, j, top);
    }
    CappedMinGreatest(s, s[i], |s|, StepUpFrom(s, i));
  }

  lemma CappedMinBelowTerm(s: seq<real>, i: nat, j: nat)
    requires Seqs.Ascending(s) && i <= j < |s|
    requires 0.0 <= s[j]
    ensures CappedMin(s, s[i], |s|) <= Ratio(s[j], |s|, j + 1)
  {
    CappedMinBelow(s, s[i], |s|, j);
    CountAtMostSortedAt(s, s[j], j);
    RatioAntitone(s[j], |s|, CountAtMost(s, s[j]), j + 1);
  }

  /** The order-free minimum is at most every term of the running minimum. */
  lemma CappedMinBelowStepUp(s: seq<real>, i: nat)
    requires Seqs.Ascending(s) && i < |s|
    requires forall k :: 0 <= k < |s| ==> 0.0 <= s[k]
    ensures CappedMin(s, s[i], |s|) <= StepUpFrom(s, i)
  {
    forall j | i <= j < |s|
      ensures CappedMin(s, s[i], |s|) <= Ratio(s[j], |s|, j + 1)
    {
      CappedMinBelowTerm(s, i, j);
    }
    StepUpFromGreatest(s, i, CappedMin(s, s[i], |s|));
  }

  /** The step-up procedure and the order-free definition give the same
      q-values on ascending non-negative p-values, ties included. */
  lemma StepUpAgrees(s: seq<real>)
    requires Seqs.Ascending(s)
    requires forall i :: 0 <= i < |s| ==> 0.0 <= s[i]
    ensures StepUp(s) == Adjust(s)
  {
    forall i | 0 <= i < |s|
      ensures StepUp(s)[i] == Adjust(s)[i]
    {
      StepUpBelowCappedMin(s, i);
      CappedMinBelowStepUp(s, i);
    }
  }

  lemma {:induction false} CountAtMostConcat(a: seq<real>, b: seq<real>, v: real)
    ensures CountAtMost(a + b, v) == CountAtMost(a, v) + CountAtMost(b, v)
    decreases |b|
  {
    if b == [] {
      assert a + b == a;
    } else {
      assert (a + b)[..|a + b| - 1] == a + b[..|b| - 1];
      assert (a + b)[|a + b| - 1] == b[|b| - 1];
      CountAtMostConcat(a, b[..|b| - 1], v);
    }
  }

  /** Taking out the p-value at position k takes it out of the count. */
  lemma CountAtMostRemove(qs: seq<real>, k: nat, v: real)
    requires k < |qs|
    ensures CountAtMost(qs, v) == CountAtMost(qs[..k] + qs[k + 1..], v) + (if qs[k] <= v then 1 else 0)
  {
    assert qs == qs[..k] + [qs[k]] + qs[k + 1..];
    assert [qs[k]][..0] == [];
    CountAtMostConcat(qs[..k] + [qs[k]], qs[k + 1..], v);
    CountAtMostConcat(qs[..k], [qs[k]], v);
    CountAtMostConcat(qs[..k], qs[k + 1..], v);
  }

  /** The number of p-values at most v depends only on the multiset of
      p-values, not on their order. */
  lemma {:induction false} CountAtMostPermutation(ps: seq<real>, qs: seq<real>, v: real)
    requires multiset(ps) == multiset(qs)
    ensures CountAtMost(ps, v) == CountAtMost(qs, v)
    decreases |ps|
  {
    assert |ps| == |multiset(ps)| == |qs|;
    if ps != [] {
      var init, x := ps[..|ps| - 1], ps[|ps| - 1];
      assert ps == init + [x];
      assert multiset(ps) == multiset(init) + multiset{x};
      assert x in multiset(qs);
      var k :| 0 <= k < |qs| && qs[k] == x;
      var rest := Seqs.RemoveAt(qs, k);
      assert rest == qs[..k] + qs[k + 1..];
      CountAtMostPermutation(init, rest, v);
      CountAtMostRemove(qs, k, v);
    }
  }

  /** One direction of CappedMinPermutation: every term of the minimum over
      qs is a term of the minimum over ps. */
  lemma CappedMinPermutationLe(ps: seq<real>, qs: seq<real>, v: real)
    requires multiset(ps) == multiset(qs)
    ensures |ps| == |qs|
    ensures CappedMin(ps, v, |ps|) <= CappedMin(qs, v, |qs|)
  {
    assert |ps| == |multiset(ps)| == |qs|;
    forall j | 0 <= j < |qs| && qs[j] >= v
      ensures CappedMin(ps, v, |ps|) <= Scaled(qs, j)
    {
      assert qs[j] in multiset(ps);
      var i :| 0 <= i < |ps| && ps[i] == qs[j];
      CountAtMostPermutation(ps, qs, qs[j]);
      CappedMinBelow(ps, v, |ps|, i);
    }
    CappedMinGreatest(qs, v, |qs|, CappedMin(ps, v, |ps|));
  }

  /** The order-free minimum depends only on the multiset of p-values. */
  lemma CappedMinPermutation(ps: seq<real>, qs: seq<real>, v: real)
    requires multiset(ps) == multiset(qs)
    ensures CappedMin(ps, v, |ps|) == CappedMin(qs, v, |qs|)
  {
    CappedMinPermutationLe(ps, qs, v);
    CappedMinPermutationLe(qs, ps, v);
  }

  /** What fdrcorrection does on an unsorted column: sort the p-values
      ascending, step up, and put each q-value back at its p-value's
      position. For p-values in any order, the q-value of ps[i] is the
      step-up value at any position of the sorted list holding ps[i]. */
  lemma AdjustIsStepUpOfSorted(ps: seq<real>, s: seq<real>, i: nat, k: nat)
    requires multiset(ps) == multiset(s) && Seqs.Ascending(s)
    requires forall j :: 0 <= j < |ps| ==> 0.0 <= ps[j]
    requires i < |ps| && k < |s| && ps[i] == s[k]
    ensures Adjust(ps)[i] == StepUp(s)[k]
  {
    forall j | 0 <= j < |s|
      ensures 0.0 <= s[j]
    {
      assert s[j] in multiset(ps);
    }
    StepUpAgrees(s);
    CappedMinPermutation(ps, s, ps[i]);
  }
}
