/** The adaptive models of FastAC on values: counts, scaled distributions and the decoder's look-up table. */
module FastAcModel {
  import opened Arith
  import opened Bytes
  import opened SymbolCounts

  const BIT_SCALE := 0x2000       // 2^13
  const DATA_SCALE := 0x8000      // 2^15
  const TWO31 := 0x8000_0000

  // ---------------------------------------------------------------- bits

  datatype BitModel = BitModel(prob: nat, zeros: nat, count: nat, cycle: nat, until: nat)

  /** 2^31 over a total count. */
  function Scale(total: nat): (s: nat)
    requires total > 0
  {
    TWO31 / total
  }

  function BitProbability(zeros: nat, scale: nat): (p: nat) { zeros * scale / 0x40000 }

  /** The estimate is a proper probability and the counts leave room for the ones. */
  ghost predicate BitOk(m: BitModel)
  {
    && 0 < m.prob < BIT_SCALE && 1 <= m.until <= m.cycle <= 64
    && m.count <= BIT_SCALE
    && 1 <= m.zeros && m.zeros < m.count + (m.cycle - m.until)
  }

  function BitUpdate(zeros: nat, count: nat, cycle: nat): (m: BitModel)
    requires 1 <= cycle <= 64 && count <= BIT_SCALE && 1 <= zeros < count + cycle
    ensures BitOk(m)
  {
    var c := count + cycle;
    var half := c > BIT_SCALE;
    var c1 := if half then (c + 1) / 2 else c;
    var z1 := if half then (zeros + 1) / 2 else zeros;
    var c2 := if half && z1 == c1 then c1 + 1 else c1;
    ScaledBelow(z1, c2, Scale(c2));
    var cyc := if 5 * cycle / 4 > 64 then 64 else 5 * cycle / 4;
    BitModel(BitProbability(z1, Scale(c2)), z1, c2, cyc, cyc)
  }

  lemma ScaledBelow(z: nat, c: nat, scale: nat)
    requires 1 <= z < c <= BIT_SCALE && scale == Scale(c)
    ensures 0 < BitProbability(z, scale) < BIT_SCALE
  {
    DivAtLeast(TWO31, c, 0x40000);
    MulMono(1, z, scale);
    MulMono(z, c - 1, scale);
    assert c * scale <= TWO31 by { assert TWO31 == (TWO31 / c) * c + TWO31 % c; }
    Distrib(c, 1, scale);
  }

  function BitInitial(): (m: BitModel)
    ensures BitOk(m)
  {
    BitModel(BIT_SCALE / 2, 1, 2, 4, 4)
  }

  function BitStep(m: BitModel, d: bit): (r: BitModel)
    requires BitOk(m)
    ensures BitOk(r)
  {
    var zeros := if d == 0 then m.zeros + 1 else m.zeros;
    if m.until == 1 then BitUpdate(zeros, m.count, m.cycle) else m.(zeros := zeros, until := m.until - 1)
  }

  // ---------------------------------------------------------------- symbols

  /** Start of symbol k on the scale 2^15. */
  function Start(c: seq<nat>, scale: nat, k: nat): (d: nat)
    requires k <= |c|
  {
    scale * Sum(c[..k]) / 0x1_0000
  }

  function Distribution(c: seq<nat>, scale: nat): (d: seq<nat>)
    ensures |d| == |c|
  {
    seq(|c|, k requires 0 <= k < |c| => Start(c, scale, k))
  }

  lemma StartIs(c: seq<nat>, scale: nat, k: nat)
    requires k < |c|
    ensures Distribution(c, scale)[k] == scale * Sum(c[..k]) / 0x1_0000
  {
  }

  /** Cumulative starts: from 0, every symbol with a part of its own, below 2^15. */
  ghost predicate DistributionOk(d: seq<nat>)
  {
    && |d| >= 1 && d[0] == 0
    && (forall i, j :: 0 <= i < j < |d| ==> d[i] < d[j])
    && (forall i :: 0 <= i < |d| ==> d[i] < DATA_SCALE)
  }

  datatype DataModel = DataModel(dist: seq<nat>, count: seq<nat>, total: nat, cycle: nat, until: nat)

  ghost predicate DataOk(m: DataModel)
  {
    && 2 <= |m.count| <= 2048 && |m.dist| == |m.count|
    && DistributionOk(m.dist) && AllPositive(m.count)
    && 1 <= m.until <= m.cycle <= 8 * (|m.count| + 6)
    && m.total <= DATA_SCALE
    && Sum(m.count) == m.total + (m.cycle - m.until)
  }

  lemma {:induction false} SumPrefix(c: seq<nat>, i: nat, j: nat)
    requires AllPositive(c) && i <= j <= |c|
    ensures Sum(c[..j]) >= Sum(c[..i]) + (j - i)
    decreases j - i
  {
    if i < j {
      SumPrefix(c, i, j - 1);
      assert c[..j][..j - 1] == c[..j - 1];
    }
  }

  lemma StartsIncrease(a: nat, b: nat, scale: nat)
    requires scale >= 0x1_0000 && a + 1 <= b
    ensures scale * a / 0x1_0000 < scale * b / 0x1_0000
  {
    MulMono(a + 1, b, scale);
    assert scale * (a + 1) == scale * a + scale;
    assert scale * b == b * scale && scale * (a + 1) == (a + 1) * scale;
  }

  lemma StartBelow(a: nat, total: nat, scale: nat)
    requires a < total <= DATA_SCALE && scale == Scale(total)
    ensures scale >= 0x1_0000 && scale * a < TWO31 && scale * a / 0x1_0000 < DATA_SCALE
  {
    DivAtLeast(TWO31, total, 0x1_0000);
    MulMono(a, total - 1, scale);
    assert TWO31 == (TWO31 / total) * total + TWO31 % total;
    Distrib(total, 1, scale);
    assert scale * a == a * scale && total * scale == scale * total;
  }

  lemma DistributionIsOk(c: seq<nat>)
    requires AllPositive(c) && c != [] && Sum(c) <= DATA_SCALE
    ensures Sum(c) > 0 && DistributionOk(Distribution(c, Scale(Sum(c))))
  {
    hide Sum;
    SumAtLeast(c);
    var scale := Scale(Sum(c));
    var d := Distribution(c, scale);
    forall i | 0 <= i < |d| ensures d[i] < DATA_SCALE {
      SumPrefix(c, i, |c|);
      assert c[..|c|] == c;
      StartBelow(Sum(c[..i]), Sum(c), scale);
    }
    forall i, j | 0 <= i < j < |d| ensures d[i] < d[j] {
      SumPrefix(c, i, j);
      DivAtLeast(TWO31, Sum(c), 0x1_0000);
      StartsIncrease(Sum(c[..i]), Sum(c[..j]), scale);
    }
    SumEmpty(c);
  }

  /** The periodic update: halve when the total grew past 2^15, rescale, lengthen the cycle. */
  function DataUpdate(count: seq<nat>, total: nat, cycle: nat): (m: DataModel)
    requires 2 <= |count| <= 2048 && AllPositive(count)
    requires 1 <= cycle <= 8 * (|count| + 6) && total <= DATA_SCALE && Sum(count) == total + cycle
    ensures DataOk(m) && |m.count| == |count|
  {
    var c := if total + cycle > DATA_SCALE then Halved(count) else count;
    SumHalved(count);
    DistributionIsOk(c);
    var cyc := 5 * cycle / 4;
    var most := 8 * (|count| + 6);
    var cyc1 := if cyc > most then most else cyc;
    DataModel(Distribution(c, Scale(Sum(c))), c, Sum(c), cyc1, cyc1)
  }

  function DataInitial(n: nat): (m: DataModel)
    requires 2 <= n <= 2048
    ensures DataOk(m) && |m.count| == n
  {
    SumOnes(n);
    DataUpdate(Ones(n), 0, n).(cycle := (n + 6) / 2, until := (n + 6) / 2)
  }

  function DataStep(m: DataModel, s: nat): (r: DataModel)
    requires DataOk(m) && s < |m.count|
    ensures DataOk(r) && |r.count| == |m.count|
  {
    SumUpdate(m.count, s, m.count[s] + 1);
    var c := m.count[s := m.count[s] + 1];
    if m.until == 1 then DataUpdate(c, m.total, m.cycle) else m.(count := c, until := m.until - 1)
  }

  // ---------------------------------------------------------------- search

  /** The last symbol at or after s whose start does not pass v, on a range of unit parts. */
  function Find(d: seq<nat>, unit: nat, v: nat, s: nat): (r: nat)
    requires s < |d|
    ensures s <= r < |d|
    decreases |d| - s
  {
    if s + 1 < |d| && Times(d[s + 1], unit) <= v then Find(d, unit, v, s + 1) else s
  }

  lemma {:induction false} FindIs(d: seq<nat>, unit: nat, v: nat, s: nat, r: nat)
    requires DistributionOk(d) && s <= r < |d| && Times(d[r], unit) <= v
    requires r + 1 < |d| ==> v < Times(d[r + 1], unit)
    ensures Find(d, unit, v, s) == r
    decreases r - s
  {
    if s < r {
      assert d[s + 1] <= d[r];
      MulMono(d[s + 1], d[r], unit);
      FindIs(d, unit, v, s + 1, r);
    }
  }

  // ---------------------------------------------------------------- look-up table

  /** Entry t is the last symbol that starts below part t of the scale. */
  ghost predicate TableEntry(d: seq<nat>, shift: nat, t: nat, e: nat)
  {
    && e < |d|
    && (e == 0 || d[e] / Pow2(shift) < t)
    && (t > 0 && e + 1 < |d| ==> d[e + 1] / Pow2(shift) >= t)
  }

  ghost predicate TableOk(d: seq<nat>, shift: nat, table: seq<nat>)
  {
    && |table| >= 2 && table[0] == 0
    && forall t :: 0 <= t < |table| ==> TableEntry(d, shift, t, table[t])
  }

  /** Two neighbouring entries enclose the symbol of every scaled value in their part. */
  lemma TableEncloses(d: seq<nat>, shift: nat, table: seq<nat>, dv: nat)
    requires DistributionOk(d) && TableOk(d, shift, table) && dv / Pow2(shift) + 1 < |table|
    ensures var t := dv / Pow2(shift);
            && table[t] < |d| && table[t + 1] < |d| && d[table[t]] <= dv
            && (table[t + 1] + 1 < |d| ==> dv < d[table[t + 1] + 1])
            && table[t] <= table[t + 1]
  {
    hide Pow2;
    var t := dv / Pow2(shift);
    var lo, hi := table[t], table[t + 1];
    assert TableEntry(d, shift, t, lo) && TableEntry(d, shift, t + 1, hi);
    if lo > 0 {
      PartsOrder(d[lo], dv, Pow2(shift));
    }
    if hi + 1 < |d| {
      PartsOrder(dv, d[hi + 1], Pow2(shift));
    }
  }

  lemma PartsOrder(a: nat, b: nat, p: nat)
    requires p > 0 && a / p < b / p
    ensures a < b
  {
    DivAtLeast(a, p, b / p);
    DivAtLeast(b, p, b / p);
  }
}
