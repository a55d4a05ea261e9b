/** What FastAC's adaptive models learn: their counts are those of the message, their parts the shares of the counts. */
module FastAcLearning {
  import opened Arith
  import opened Bytes
  import opened SymbolCounts
  import opened FastAcModel

  // ---------------------------------------------------------------- symbols

  /** How many symbols of a message are below k. */
  function Below(syms: seq<nat>, k: nat): (n: nat)
    ensures n <= |syms|
  {
    if syms == [] then 0 else Below(syms[..|syms| - 1], k) + if syms[|syms| - 1] < k then 1 else 0
  }

  /** The model after a message. */
  function Trained(m: DataModel, syms: seq<nat>): (r: DataModel)
    requires DataOk(m) && InAlphabet(syms, |m.count|)
    ensures DataOk(r) && |r.count| == |m.count|
  {
    if syms == [] then m else DataStep(Trained(m, syms[..|syms| - 1]), syms[|syms| - 1])
  }

  /** A cycle is a quarter longer than the one before, rounded down, up to a limit. */
  ghost predicate NextCycle(cycle: nat, next: nat, most: nat) {
    next <= most && if next < most then 4 * next <= 5 * cycle < 4 * (next + 1) else 4 * most <= 5 * cycle
  }

  /** Raised counts, halved upwards exactly at an update that finds them to pass 2^15. */
  lemma StepCounts(m: DataModel, s: nat)
    requires DataOk(m) && s < |m.count|
    ensures var raised := m.count[s := m.count[s] + 1];
            DataStep(m, s).count == if m.until == 1 && Sum(raised) > DATA_SCALE then Halved(raised) else raised
    ensures m.until > 1 ==> DataStep(m, s).dist == m.dist && DataStep(m, s).until == m.until - 1
                            && DataStep(m, s).cycle == m.cycle
    ensures m.until == 1 ==> NextCycle(m.cycle, DataStep(m, s).cycle, 8 * (|m.count| + 6))
    ensures m.until == 1 ==> DataStep(m, s).until == DataStep(m, s).cycle
                             && var c := DataStep(m, s).count;
                                Sum(c) > 0 && DataStep(m, s).dist == Distribution(c, Scale(Sum(c)))
  {
    hide Sum, Distribution;
    var raised := m.count[s := m.count[s] + 1];
    SumUpdate(m.count, s, m.count[s] + 1);
    SumAtLeast(raised);
    SumHalved(raised);
  }

  /** While 2^15 is not passed, every count is 1 and one more for each time its symbol has been coded. */
  lemma {:induction false} CountsFollow(n: nat, syms: seq<nat>)
    requires 2 <= n <= 2048 && InAlphabet(syms, n) && n + |syms| <= DATA_SCALE
    ensures var m := Trained(DataInitial(n), syms);
            Sum(m.count) == n + |syms| && m.count == OneAndOccurs(n, syms)
  {
    hide Sum, DataStep, DataInitial, DataOk, Occurs;
    StartCounts(n);
    if syms != [] {
      var i := |syms| - 1;
      CountsFollow(n, syms[..i]);
      var m := Trained(DataInitial(n), syms[..i]);
      StepCounts(m, syms[i]);
      SumUpdate(m.count, syms[i], m.count[syms[i]] + 1);
      hide Trained;
      RaisedOccurs(n, syms);
    } else {
      assert OneAndOccurs(n, []) == Ones(n) by { NoneOccur(n); }
    }
  }

  lemma NoneOccur(n: nat)
    ensures OneAndOccurs(n, []) == Ones(n)
  {
  }

  lemma StartCounts(n: nat)
    requires 2 <= n <= 2048
    ensures var m := DataInitial(n);
            m.count == Ones(n) && Sum(m.count) == n && m.cycle == (n + 6) / 2
            && m.dist == Distribution(Ones(n), Scale(n)) && m.until == m.cycle
  {
    hide Distribution;
    SumOnes(n);
  }

  lemma {:induction false} CumulativeCounts(c: seq<nat>, syms: seq<nat>, k: nat)
    requires k <= |c| && c == OneAndOccurs(|c|, syms)
    ensures Sum(c[..k]) == k + Below(syms, k)
    decreases k
  {
    if k == 0 {
      NoneBelow(syms);
    } else {
      CumulativeCounts(c, syms, k - 1);
      assert c[..k][..k - 1] == c[..k - 1];
      BelowNext(syms, k - 1);
    }
  }

  lemma {:induction false} NoneBelow(syms: seq<nat>)
    ensures Below(syms, 0) == 0
  {
    if syms != [] {
      NoneBelow(syms[..|syms| - 1]);
    }
  }

  lemma {:induction false} BelowNext(syms: seq<nat>, k: nat)
    ensures Below(syms, k + 1) == Below(syms, k) + Occurs(syms, k)
  {
    if syms != [] {
      BelowNext(syms[..|syms| - 1], k);
    }
  }

  /** The start of a part is 2^15 times the share of the counts before it, rounded down by less than 2. */
  lemma StartShare(cum: nat, total: nat)
    requires cum < total <= DATA_SCALE
    ensures var d := Scale(total) * cum / 0x1_0000; d * total <= DATA_SCALE * cum < (d + 2) * total
  {
    RoundedShare(cum, total, 0x1_0000, DATA_SCALE);
    assert Scale(total) * cum == cum * Scale(total);
  }

  /** a * (2^31 / total) / q stands for a * p / total where p * q is 2^31 and a is at most q. */
  lemma RoundedShare(a: nat, total: nat, q: nat, p: nat)
    requires 0 < total && a <= q && 0 < q && p * q == TWO31
    ensures var d := a * (TWO31 / total) / q; d * total <= p * a < (d + 2) * total
  {
    var s := TWO31 / total;
    Euclid(TWO31, total);
    MulMono(0, s, a);
    assert s * a == a * s;
    Euclid(a * s, q);
    RoundedBelow(a, total, q, p, s, TWO31 % total, a * s / q, a * s % q);
    RoundedAbove(a, total, q, p, s, TWO31 % total, a * s / q, a * s % q);
  }

  lemma RoundedProduct(a: nat, total: nat, q: nat, p: nat, s: nat, r: nat, d: nat, e: nat)
    requires p * q == s * total + r && a * s == d * q + e
    ensures q * (p * a) == q * (d * total) + e * total + a * r
  {
    assert q * (p * a) == a * (p * q);
    Distrib(s * total, r, a);
    Distrib(d * q, e, total);
    assert a * (s * total) == (a * s) * total;
    assert d * q * total == q * (d * total);
  }

  lemma RoundedBelow(a: nat, total: nat, q: nat, p: nat, s: nat, r: nat, d: nat, e: nat)
    requires 0 < q && p * q == s * total + r && a * s == d * q + e
    ensures d * total <= p * a
  {
    RoundedProduct(a, total, q, p, s, r, d, e);
    MulMono(0, e, total);
    MulMono(0, r, a);
    LessFactor(d * total, p * a, q);
  }

  lemma RoundedAbove(a: nat, total: nat, q: nat, p: nat, s: nat, r: nat, d: nat, e: nat)
    requires 0 < total && a <= q && 0 < q && p * q == s * total + r && r < total && a * s == d * q + e && e < q
    ensures p * a < (d + 2) * total
  {
    RoundedProduct(a, total, q, p, s, r, d, e);
    RoundingErrors(a, total, q, r, e);
    TwoMore(q, d, total);
    LessFactor(p * a, (d + 2) * total - 1, q);
  }

  lemma TwoMore(q: nat, d: nat, total: nat)
    ensures q * ((d + 2) * total - 1) == q * (d * total) + 2 * (q * total) - q
  {
    Distrib(d, 2, total);
    assert (d + 2) * total == d * total + 2 * total;
    Distrib(d * total, 2 * total, q);
  }

  lemma RoundingErrors(a: nat, total: nat, q: nat, r: nat, e: nat)
    requires 0 < total && a <= q && 0 < q && r < total && e < q
    ensures e * total + a * r <= 2 * (q * total) - total
  {
    MulMono(e, q - 1, total);
    MulMono(r, total, a);
    MulMono(a, q, total);
    Distrib(q, 1, total);
    assert a * r == r * a && a * total == total * a;
  }

  lemma LessFactor(x: int, y: int, q: nat)
    requires q > 0 && q * x < q * y + q
    ensures x <= y
  {
    if x > y {
      MulMono(y + 1, x, q);
      Distrib(y, 1, q);
    }
  }

  /** Cumulative shares of a message: every symbol once, and the message up to the last update. */
  ghost predicate Shares(d: seq<nat>, n: nat, syms: seq<nat>)
  {
    |d| == n && forall k :: 0 <= k < n ==>
      var cum, total := k + Below(syms, k), n + |syms|;
      d[k] * total <= DATA_SCALE * cum < (d[k] + 2) * total
  }

  lemma SharesOfCounts(c: seq<nat>, n: nat, syms: seq<nat>)
    requires 2 <= n == |c| && AllPositive(c) && Sum(c) == n + |syms| <= DATA_SCALE && c == OneAndOccurs(n, syms)
    ensures Shares(Distribution(c, Scale(Sum(c))), n, syms)
  {
    hide Sum, Scale, Distribution, Below, OneAndOccurs;
    forall k | 0 <= k < n
      ensures var d, cum, total := Distribution(c, Scale(Sum(c)))[k], k + Below(syms, k), n + |syms|;
              d * total <= DATA_SCALE * cum < (d + 2) * total
    {
      CumulativeCounts(c, syms, k);
      SumPrefix(c, k, n);
      assert c[..n] == c;
      StartIs(c, Scale(Sum(c)), k);
      StartShare(k + Below(syms, k), n + |syms|);
    }
  }

  /** The distribution a symbol is coded with is that of the message up to the last update, less than a cycle ago. */
  lemma {:induction false} DistributionFollows(n: nat, syms: seq<nat>) returns (u: nat)
    requires 2 <= n <= 2048 && InAlphabet(syms, n) && n + |syms| <= DATA_SCALE
    ensures u <= |syms|
    ensures var m := Trained(DataInitial(n), syms);
            |syms| - u == m.cycle - m.until && |syms| - u < m.cycle <= 8 * (n + 6) && Shares(m.dist, n, syms[..u])
  {
    hide Sum, DataStep, Shares, Scale, Distribution, DistributionOk;
    CountsFollow(n, syms);
    var m := Trained(DataInitial(n), syms);
    if syms == [] {
      u := 0;
      StartCounts(n);
      NoneOccur(n);
      SharesOfCounts(Ones(n), n, []);
      assert syms[..0] == [];
    } else {
      var i := |syms| - 1;
      var before := Trained(DataInitial(n), syms[..i]);
      StepCounts(before, syms[i]);
      if before.until == 1 {
        u := |syms|;
        SharesOfCounts(m.count, n, syms);
        assert syms[..u] == syms;
      } else {
        u := DistributionFollows(n, syms[..i]);
        assert syms[..i][..u] == syms[..u];
      }
    }
  }

  // ---------------------------------------------------------------- bits

  function Zeros(bits: seq<bit>): (n: nat)
    ensures n <= |bits|
  {
    if bits == [] then 0 else Zeros(bits[..|bits| - 1]) + 1 - bits[|bits| - 1]
  }

  function TrainedBit(bits: seq<bit>): (m: BitModel)
    ensures BitOk(m)
  {
    if bits == [] then BitInitial() else BitStep(TrainedBit(bits[..|bits| - 1]), bits[|bits| - 1])
  }

  /** The probability of a 0 is the share of the zeros, rounded down by less than 2. */
  ghost predicate ZerosShare(p: nat, bits: seq<bit>)
  {
    var zeros, total := 1 + Zeros(bits), 2 + |bits|;
    p * total <= BIT_SCALE * zeros < (p + 2) * total
  }

  lemma StepBit(m: BitModel, d: bit)
    requires BitOk(m)
    ensures var zeros, total, r := m.zeros + 1 - d, m.count + m.cycle, BitStep(m, d);
            if m.until > 1 then r == m.(zeros := zeros, until := m.until - 1)
            else
              && NextCycle(m.cycle, r.cycle, 64) && r.until == r.cycle
              && r.prob == r.zeros * (TWO31 / r.count) / 0x40000
              && if total <= BIT_SCALE then r.zeros == zeros && r.count == total
                 else r.zeros == (zeros + 1) / 2
                      && r.count == (total + 1) / 2 + if r.zeros == (total + 1) / 2 then 1 else 0
  {
  }

  /**
   * While 2^13 is not passed, the zeros counted are those of the message, and a bit is coded with the share of zeros
   * in the message up to the last update, less than a cycle ago.
   */
  lemma {:induction false} BitsFollow(bits: seq<bit>) returns (u: nat)
    requires 2 + |bits| <= BIT_SCALE
    ensures u <= |bits|
    ensures var m := TrainedBit(bits);
            && m.zeros == 1 + Zeros(bits) && m.count + (m.cycle - m.until) == 2 + |bits|
            && |bits| - u == m.cycle - m.until && |bits| - u < m.cycle <= 64 && ZerosShare(m.prob, bits[..u])
  {
    hide BitStep;
    if bits == [] {
      u := 0;
    } else {
      var i := |bits| - 1;
      u := BitsFollow(bits[..i]);
      var before := TrainedBit(bits[..i]);
      StepBit(before, bits[i]);
      if before.until == 1 {
        u := |bits|;
        assert bits[..u] == bits;
        var zeros := 1 + Zeros(bits);
        RoundedShare(zeros, 2 + |bits|, 0x40000, BIT_SCALE);
      } else {
        assert bits[..i][..u] == bits[..u];
      }
    }
  }
}
