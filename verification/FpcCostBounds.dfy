/** Which costs of FPC's choice of block sizes fit an int: exactly those of files with few enough steps. */
module FpcCostBounds {
  import opened Arith
  import opened Bytes
  import opened FpcBase
  import opened SymbolCounts
  import opened FpcAdaptive
  import opened FpcEstimates

  // ---------------------------------------------------------------- inside an estimate

  lemma {:induction false} EntropyBound(t: seq<byte>, n: seq<nat>, d: nat)
    requires |t| == 1024 && d <= |n| == 256 && forall i :: 0 <= i < 256 ==> n[i] < 0x1_0000
    ensures Entropy(t, n, d) <= 351 * Sum(n[..d])
  {
    hide LogInt;
    if d > 0 {
      EntropyBound(t, n, d - 1);
      assert n[..d][..d - 1] == n[..d - 1];
      LogBound(t, n[d - 1]);
      MulMono(LogInt(t, n[d - 1]), 351, n[d - 1]);
      assert n[d - 1] * LogInt(t, n[d - 1]) == LogInt(t, n[d - 1]) * n[d - 1];
    } else {
      assert n[..0] == [];
    }
  }

  lemma LogBound(t: seq<byte>, a: nat)
    requires |t| == 1024 && a < 0x1_0000
    ensures LogInt(t, a) <= 351
  {
  }

  lemma {:induction false} SumOfPrefix(n: seq<nat>, d: nat)
    requires d <= |n|
    ensures Sum(n[..d]) <= Sum(n)
    decreases |n| - d
  {
    if d < |n| {
      SumOfPrefix(n, d + 1);
      assert n[..d + 1][..d] == n[..d];
    } else {
      assert n[..d] == n;
    }
  }

  /** Nothing computed inside an estimate leaves an int. */
  lemma EstimateInInt(t: seq<byte>, x: seq<byte>, k: nat, c: nat, n: seq<nat>, d: nat)
    requires |t| == 1024 && 1 <= c <= MBLOCK && k + c <= Steps(x) && n == Histogram(x, k, c) && d <= 256
    requires forall i :: 0 <= i < 256 ==> n[i] < 0x1_0000
    ensures Entropy(t, n, d) <= INT_MAX && c * STEP * LogInt(t, c * STEP) <= INT_MAX && 16 * c * STEP <= INT_MAX
  {
    hide Entropy, Histogram, LogInt;
    EntropyBound(t, n, d);
    SumOfPrefix(n, d);
    HistogramSum(x, k, c, n);
    LogBound(t, c * STEP);
    MulMono(LogInt(t, c * STEP), 351, c * STEP);
    assert c * STEP * LogInt(t, c * STEP) == LogInt(t, c * STEP) * (c * STEP);
  }

  // ---------------------------------------------------------------- inputs of which nothing is counted

  /** From 2^31 + 1 bytes on the estimates, and so the blocks chosen, do not depend on the bytes. */
  lemma {:induction false} BlindCosts(t: seq<byte>, x: seq<byte>, y: seq<byte>, k: nat)
    requires |t| == 1024 && |x| == |y| > COUNTED && k <= Steps(x)
    ensures Best(t, x, k) == Best(t, y, k)
    ensures forall c :: 1 <= c <= MBLOCK && k + c <= Steps(x) ==> From(t, x, k, c) == From(t, y, k, c)
    decreases Steps(x) - k
  {
    hide Best, BestUpTo;
    if k == Steps(x) {
      BestAtEnd(t, x);
      BestAtEnd(t, y);
    } else {
      forall c | 1 <= c <= MBLOCK && k + c <= Steps(x) ensures From(t, x, k, c) == From(t, y, k, c) {
        BlindCosts(t, x, y, k + c);
        assert Histogram(x, k, c) == Histogram(y, k, c);
      }
      hide From;
      BlindUpTo(t, x, y, k, Reach(x, k));
      BestOfReach(t, x, k);
      BestOfReach(t, y, k);
    }
  }

  lemma {:induction false} BlindUpTo(t: seq<byte>, x: seq<byte>, y: seq<byte>, k: nat, m: nat)
    requires |t| == 1024 && |x| == |y| && 1 <= m <= MBLOCK && k + m <= Steps(x)
    requires forall c :: 1 <= c <= MBLOCK && k + c <= Steps(x) ==> From(t, x, k, c) == From(t, y, k, c)
    ensures BestUpTo(t, x, k, m) == BestUpTo(t, y, k, m)
    decreases m
  {
    hide From, BestUpTo;
    BestGrows(t, x, k, m);
    BestGrows(t, y, k, m);
    if m > 1 {
      BlindUpTo(t, x, y, k, m - 1);
    }
  }

  // ---------------------------------------------------------------- the sharp bound

  /** n steps in which every byte occurs equally often. */
  function Even(n: nat): (x: seq<byte>)
    ensures |x| == n * STEP
  {
    seq(n * STEP, i requires 0 <= i < n * STEP => i % 256)
  }

  lemma {:induction false} EqualEntropy(t: seq<byte>, n: seq<nat>, v: nat, d: nat)
    requires |t| == 1024 && d <= |n| == 256 && v < 0x1_0000 && forall i :: 0 <= i < 256 ==> n[i] == v
    ensures Entropy(t, n, d) == d * (v * LogInt(t, v))
  {
    hide LogInt;
    if d > 0 {
      EqualEntropy(t, n, v, d - 1);
      Distrib(d - 1, 1, v * LogInt(t, v));
    }
  }

  lemma FullSize(res: int, len: nat)
    requires res >= 128 * len && len >= STEP
    ensures Size(res, len) == len + 4
  {
  }

  /** No block of such an input is estimated to compress. */
  lemma EvenEstimate(t: seq<byte>, m: nat, k: nat, c: nat)
    requires Exact(t) && 1 <= c <= MBLOCK && k + c <= Steps(Even(m))
    ensures Estimate(t, Even(m), k, c) == c * STEP + 4
  {
    hide Entropy, Suffix, Size;
    var x, len := Even(m), c * STEP;
    HistogramBounds(x, k, c);
    var n: seq<nat> := Histogram(x, k, c);
    var v := if |x| <= COUNTED then 8 * c else 0;
    forall d: nat | d < 256 ensures n[d] == v {
      PlaceInside(x, k);
      PlaceInside(x, k + c);
      if |x| <= COUNTED {
        assert Cycles(x, 0, 256, Place(x, k), Place(x, k) + 256 * (8 * c));
        Evenly(x, 0, 256, d, Place(x, k), 8 * c);
      }
    }
    EqualEntropy(t, n, v, 256);
    EvenResult(t, c, v);
    FullSize(len * LogInt(t, len) - Entropy(t, n, 256), len);
  }

  lemma EighthPart(t: seq<byte>, c: nat)
    requires Exact(t) && 1 <= c <= MBLOCK
    ensures LogInt(t, c * STEP) == LogInt(t, 8 * c) + 128
  {
    Pow2Values();
    assert BlockPart(c, 8) == 8 * c;
  }

  lemma EvenResult(t: seq<byte>, c: nat, v: nat)
    requires Exact(t) && 1 <= c <= MBLOCK && (v == 8 * c || v == 0)
    ensures c * STEP * LogInt(t, c * STEP) - 256 * (v * LogInt(t, v)) >= 128 * (c * STEP)
  {
    var len := c * STEP;
    EighthPart(t, c);
    assert 256 * (8 * c * LogInt(t, 8 * c)) == len * LogInt(t, 8 * c);
    Distrib(LogInt(t, len), 0 - LogInt(t, 8 * c), len);
    MulMono(128, LogInt(t, len), len);
    assert LogInt(t, len) * len == len * LogInt(t, len);
  }

  lemma {:induction false} EvenBest(t: seq<byte>, m: nat, k: nat)
    requires Exact(t) && k <= Steps(Even(m)) && Steps(Even(m)) - k <= MAX_STEPS
    ensures Best(t, Even(m), k) == Ceiling(Steps(Even(m)) - k)
    decreases Steps(Even(m)) - k
  {
    hide Estimate, Best, BestUpTo, From, Even, Ceiling;
    var x := Even(m);
    CostsFit(t, x, k);
    if k == Steps(x) {
      BestAtEnd(t, x);
      assert Ceiling(0) == 0 by { CeilingOfNone(); }
    } else {
      BestOfReach(t, x, k);
      var b := BestIsSome(t, x, k, Reach(x, k));
      EvenBest(t, m, k + b);
      EvenEstimate(t, m, k, b);
      CeilingStep(Steps(x) - k, b);
    }
  }

  lemma CeilingOfNone()
    ensures Ceiling(0) == 0
  {
  }

  /** Where a sum of costs does not fit an int. */
  lemma CostLeaves(t: seq<byte>, n: nat)
    requires Exact(t) && n > MAX_STEPS
    ensures var x, k := Even(n), n - MAX_STEPS - 1;
            Steps(x) == n && Estimate(t, x, k, 1) + Best(t, x, k + 1) > INT_MAX
  {
    hide Estimate, Best, Even;
    var x, k := Even(n), n - MAX_STEPS - 1;
    DivModUnique(n * STEP, STEP, n, 0);
    EvenEstimate(t, n, k, 1);
    EvenBest(t, n, k + 1);
  }

  /** No sum of costs leaves an int, whatever the n steps hold, if and only if n is at most MAX_STEPS. */
  lemma CostsFitIff(t: seq<byte>, n: nat)
    requires Exact(t)
    ensures (forall x: seq<byte>, k: nat, c: nat :: Steps(x) == n && 1 <= c <= MBLOCK && k + c <= n ==>
               INT_MIN <= Estimate(t, x, k, c) + Best(t, x, k + c) <= INT_MAX)
            <==> n <= MAX_STEPS
  {
    hide Estimate, Best, From;
    if n <= MAX_STEPS {
      forall x: seq<byte>, k: nat, c: nat | Steps(x) == n && 1 <= c <= MBLOCK && k + c <= n
        ensures INT_MIN <= Estimate(t, x, k, c) + Best(t, x, k + c) <= INT_MAX
      {
        CostsFit(t, x, k);
      }
    } else {
      CostLeaves(t, n);
    }
  }
}
