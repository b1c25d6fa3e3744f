/** The connectivity-stratified null distributions and the empirical
    p-value `GeneWalk.P_sim` reads from them
    (genewalk/perform_statistics.py:218-227). */
module NullDist {
  import opened Wrappers
  import Seqs

  function Pow2(k: nat): (r: nat)
    ensures r >= 1
  {
    if k == 0 then 1 else 2 * Pow2(k - 1)
  }

  /** floor(log2 n): the bucket index of a connectivity n >= 1. */
  function Log2Floor(n: nat): (k: nat)
    requires n >= 1
    ensures Pow2(k) <= n < 2 * Pow2(k)
  {
    if n == 1 then 0 else 1 + Log2Floor(n / 2)
  }

  lemma {:induction false} Pow2Monotone(a: nat, b: nat)
    requires a <= b
    ensures Pow2(a) <= Pow2(b)
  {
    if a < b {
      Pow2Monotone(a, b - 1);
    }
  }

  /** The bracket Pow2(k) <= n < 2 * Pow2(k) fixes k: Log2Floor is the only
      exponent that puts n between two consecutive powers of two. */
  lemma {:induction false} Log2FloorUnique(n: nat, k: nat)
    requires n >= 1
    requires Pow2(k) <= n < 2 * Pow2(k)
    ensures Log2Floor(n) == k
  {
    if k > 0 {
      Log2FloorUnique(n / 2, k - 1);
    }
  }

  /** The null distribution: one sample of null similarities per bucket
      key. The source keys it by the string 'd' + str(floor(log2 n)); the
      model keys it by the integer itself. */
  type NullDistribution = map<nat, seq<real>>

  /** Every bucket is sorted ascending, as numpy's `searchsorted` needs. */
  ghost predicate ValidNullDistribution(srd: NullDistribution)
  {
    forall key :: key in srd ==> Seqs.Ascending(srd[key])
  }

  /** Number of sampled values strictly below v. */
  function CountBelow(a: seq<real>, v: real): (r: nat)
    ensures r <= |a|
  {
    if a == [] then 0
    else CountBelow(a[..|a| - 1], v) + (if a[|a| - 1] < v then 1 else 0)
  }

  /** Number of sampled values at least as large as v. */
  function CountAtLeast(a: seq<real>, v: real): (r: nat)
  {
    if a == [] then 0
    else CountAtLeast(a[..|a| - 1], v) + (if a[|a| - 1] >= v then 1 else 0)
  }

  lemma {:induction false} CountBelowAtLeast(a: seq<real>, v: real)
    ensures CountBelow(a, v) + CountAtLeast(a, v) == |a|
  {
    if a != [] {
      CountBelowAtLeast(a[..|a| - 1], v);
    }
  }

  /** On an ascending sample, CountBelow is the left insertion point of
      `searchsorted(a, v, side='left')`: everything before it is below v,
      everything from it on is at least v. */
  lemma {:induction false} CountBelowIsLeftInsertionPoint(a: seq<real>, v: real)
    requires Seqs.Ascending(a)
    ensures forall i :: 0 <= i < CountBelow(a, v) ==> a[i] < v
    ensures forall i :: CountBelow(a, v) <= i < |a| ==> v <= a[i]
  {
    if a != [] {
      var init := a[..|a| - 1];
      assert Seqs.Ascending(init);
      CountBelowIsLeftInsertionPoint(init, v);
      if a[|a| - 1] < v {
        assert forall i :: 0 <= i < |init| ==> init[i] <= a[|a| - 1];
        CountBelowAll(init, v);
      }
    }
  }

  /** Raising the observed similarity never lowers the count below it. */
  lemma {:induction false} CountBelowMonotone(a: seq<real>, v: real, w: real)
    requires v <= w
    ensures CountBelow(a, v) <= CountBelow(a, w)
  {
    if a != [] {
      CountBelowMonotone(a[..|a| - 1], v, w);
    }
  }

  lemma {:induction false} CountBelowZero(a: seq<real>, v: real)
    ensures CountBelow(a, v) == 0 <==> forall i :: 0 <= i < |a| ==> v <= a[i]
  {
    if a != [] {
      CountBelowZero(a[..|a| - 1], v);
    }
  }

  lemma {:induction false} CountBelowAll(a: seq<real>, v: real)
    ensures CountBelow(a, v) == |a| <==> forall i :: 0 <= i < |a| ==> a[i] < v
  {
    if a != [] {
      CountBelowAll(a[..|a| - 1], v);
    }
  }

  /** Bounds of a fraction b/n of a sample of n values. */
  lemma FractionFacts(b: real, n: real)
    requires 0.0 <= b <= n && n > 0.0
    ensures 0.0 <= b / n <= 1.0
    ensures b / n == 1.0 <==> b == n
    ensures b / n == 0.0 <==> b == 0.0
  {
    assert b / n * n == b;
  }

  lemma FractionMonotone(b1: real, b2: real, n: real)
    requires b1 <= b2 && n > 0.0
    ensures b1 / n <= b2 / n
  {
    var d := (b2 - b1) / n;
    assert d * n == b2 - b1;
    assert d >= 0.0;
    assert b2 / n == b1 / n + d;
  }

  /** `P_sim(sim, N_con)`: look up the bucket floor(log2 N_con) and return
      1 - rank/len, rank being the left insertion point of sim. A missing
      bucket is the dictionary's KeyError; an empty bucket divides by zero. */
  function PSim(srd: NullDistribution, sim: real, nCon: nat): (r: Result<real>)
    requires nCon >= 1
    ensures r.Failure? <==> Log2Floor(nCon) !in srd || srd[Log2Floor(nCon)] == []
    ensures Log2Floor(nCon) !in srd ==> r == Failure(KeyError)
    ensures r.Success? ==> 0.0 <= r.value <= 1.0
  {
    var key := Log2Floor(nCon);
    if key !in srd then Failure(KeyError)
    else
      var sample := srd[key];
      if |sample| == 0 then Failure(ZeroDivisionError)
      else
        var rank := CountBelow(sample, sim);
        FractionFacts(rank as real, |sample| as real);
        Success(1.0 - (rank as real) / (|sample| as real))
  }

  /** An empty bucket is a division by zero. */
  lemma PSimEmptyBucket(srd: NullDistribution, sim: real, nCon: nat)
    requires nCon >= 1
    requires Log2Floor(nCon) in srd && srd[Log2Floor(nCon)] == []
    ensures PSim(srd, sim, nCon) == Failure(ZeroDivisionError)
  {
  }

  /** A successful lookup is 1 - rank/len on a non-empty bucket. */
  lemma PSimValue(srd: NullDistribution, sim: real, nCon: nat)
    requires nCon >= 1
    requires PSim(srd, sim, nCon).Success?
    ensures Log2Floor(nCon) in srd && |srd[Log2Floor(nCon)]| >= 1
    ensures var sample := srd[Log2Floor(nCon)];
      PSim(srd, sim, nCon).value == 1.0 - (CountBelow(sample, sim) as real) / (|sample| as real)
  {
  }

  /** 1 - b/n is (n - b)/n. */
  lemma FractionComplement(b: real, c: real, n: real)
    requires n > 0.0 && b + c == n
    ensures 1.0 - b / n == c / n
  {
    assert n / n == 1.0;
    assert (b + c) / n == b / n + c / n;
  }

  /** The p-value is the fraction of null samples at least as large as the
      observed similarity. */
  lemma PSimIsUpperTailFraction(srd: NullDistribution, sim: real, nCon: nat)
    requires nCon >= 1
    requires PSim(srd, sim, nCon).Success?
    ensures var sample := srd[Log2Floor(nCon)];
      PSim(srd, sim, nCon).value == (CountAtLeast(sample, sim) as real) / (|sample| as real)
  {
    PSimValue(srd, sim, nCon);
    var sample := srd[Log2Floor(nCon)];
    CountBelowAtLeast(sample, sim);
    FractionComplement(CountBelow(sample, sim) as real, CountAtLeast(sample, sim) as real, |sample| as real);
  }

  /** p = 1 exactly when the observed similarity is at most every sample
      of its bucket; on a sorted bucket, at most the smallest one. */
  lemma PSimIsOne(srd: NullDistribution, sim: real, nCon: nat)
    requires ValidNullDistribution(srd)
    requires nCon >= 1
    requires PSim(srd, sim, nCon).Success?
    ensures var sample := srd[Log2Floor(nCon)];
      (PSim(srd, sim, nCon).value == 1.0 <==> forall i :: 0 <= i < |sample| ==> sim <= sample[i])
    ensures PSim(srd, sim, nCon).value == 1.0 <==> sim <= srd[Log2Floor(nCon)][0]
  {
    PSimValue(srd, sim, nCon);
    var sample := srd[Log2Floor(nCon)];
    var b := CountBelow(sample, sim);
    CountBelowZero(sample, sim);
    FractionFacts(b as real, |sample| as real);
    assert PSim(srd, sim, nCon).value == 1.0 <==> b == 0;
    assert Seqs.Ascending(sample);
    assert (forall i :: 0 <= i < |sample| ==> sim <= sample[i]) <==> sim <= sample[0];
  }

  /** p = 0 exactly when the observed similarity exceeds every sample of its
      bucket; on a sorted bucket, exceeds the largest one. */
  lemma PSimIsZero(srd: NullDistribution, sim: real, nCon: nat)
    requires ValidNullDistribution(srd)
    requires nCon >= 1
    requires PSim(srd, sim, nCon).Success?
    ensures var sample := srd[Log2Floor(nCon)];
      (PSim(srd, sim, nCon).value == 0.0 <==> forall i :: 0 <= i < |sample| ==> sample[i] < sim)
    ensures PSim(srd, sim, nCon).value == 0.0 <==> srd[Log2Floor(nCon)][|srd[Log2Floor(nCon)]| - 1] < sim
  {
    PSimValue(srd, sim, nCon);
    var sample := srd[Log2Floor(nCon)];
    var b := CountBelow(sample, sim);
    CountBelowAll(sample, sim);
    FractionFacts(b as real, |sample| as real);
    assert PSim(srd, sim, nCon).value == 0.0 <==> b == |sample|;
    assert Seqs.Ascending(sample);
    assert (forall i :: 0 <= i < |sample| ==> sample[i] < sim) <==> sample[|sample| - 1] < sim;
  }

  /** For a fixed bucket the p-value is non-increasing in the similarity. */
  lemma PSimMonotone(srd: NullDistribution, s1: real, s2: real, nCon: nat)
    requires nCon >= 1
    requires s1 <= s2
    requires PSim(srd, s1, nCon).Success?
    ensures PSim(srd, s2, nCon).Success?
    ensures PSim(srd, s2, nCon).value <= PSim(srd, s1, nCon).value
  {
    var sample := srd[Log2Floor(nCon)];
    CountBelowMonotone(sample, s1, s2);
    FractionMonotone(CountBelow(sample, s1) as real, CountBelow(sample, s2) as real, |sample| as real);
  }

  /** The bucket of a gene--GO pair is floor(log2 min(N_con(GO), N_con(gene))). */
  function BucketKey(nGoCon: nat, nGeneCon: nat): (k: nat)
    requires nGoCon >= 1 && nGeneCon >= 1
    ensures Pow2(k) <= nGoCon && Pow2(k) <= nGeneCon
    ensures nGoCon < 2 * Pow2(k) || nGeneCon < 2 * Pow2(k)
  {
    Log2Floor(if nGoCon <= nGeneCon then nGoCon else nGeneCon)
  }
}
