/**
 * FPC's code lengths: package-merge with a limit of 11 bits, as merged lists of leaves and packages,
 * and its optimality among all assignments of lengths that satisfy Kraft's inequality.
 */
module FpcLengths {
  import opened Arith
  import opened Bytes
  import opened FpcBase

  const FULL := 2048

  ghost predicate Rising(s: seq<nat>) { forall i, j :: 0 <= i < j < |s| ==> s[i] <= s[j] }

  function PrefixSum(s: seq<nat>, k: nat): (sum: nat)
    requires k <= |s|
  {
    if k == 0 then 0 else PrefixSum(s, k - 1) + s[k - 1]
  }

  lemma EmptySum(s: seq<nat>)
    ensures PrefixSum(s, 0) == 0
  {
  }

  lemma {:induction false} PrefixMono(s: seq<nat>, i: nat, j: nat)
    requires i <= j <= |s|
    ensures PrefixSum(s, i) <= PrefixSum(s, j)
    decreases j
  {
    if i < j {
      PrefixMono(s, i, j - 1);
    }
  }

  // ---------------------------------------------------------------- merging leaves and packages

  /** Leaf i comes before package j; an exhausted list comes last. */
  predicate TakeLeaf(a: seq<nat>, b: seq<nat>, i: nat, j: nat) {
    i < |a| && (j >= |b| || a[i] < b[j])
  }

  /** How many of the first t merged entries are leaves. */
  function Leaves(a: seq<nat>, b: seq<nat>, t: nat): (i: nat)
    requires t <= |a| + |b|
    ensures i <= |a| && i <= t && t - i <= |b|
  {
    if t == 0 then 0
    else
      var i := Leaves(a, b, t - 1);
      if TakeLeaf(a, b, i, t - 1 - i) then i + 1 else i
  }

  function Entry(a: seq<nat>, b: seq<nat>, t: nat): (w: nat)
    requires t < |a| + |b|
  {
    var i := Leaves(a, b, t);
    if TakeLeaf(a, b, i, t - i) then a[i] else b[t - i]
  }

  function Weight(a: seq<nat>, b: seq<nat>, t: nat): (w: nat)
    requires t <= |a| + |b|
  {
    PrefixSum(a, Leaves(a, b, t)) + PrefixSum(b, t - Leaves(a, b, t))
  }

  lemma WeightStep(a: seq<nat>, b: seq<nat>, t: nat)
    requires t < |a| + |b|
    ensures Weight(a, b, t + 1) == Weight(a, b, t) + Entry(a, b, t)
  {
  }

  /** Nothing left out of the first t entries is lighter than anything in them. */
  lemma {:induction false} Threshold(a: seq<nat>, b: seq<nat>, t: nat)
    requires Rising(a) && Rising(b) && t <= |a| + |b|
    ensures var i := Leaves(a, b, t);
            (i > 0 && t - i < |b| ==> a[i - 1] < b[t - i]) && (t > i && i < |a| ==> b[t - i - 1] <= a[i])
  {
    if t > 0 {
      Threshold(a, b, t - 1);
    }
  }

  /** Any c leaves and p packages weigh at least as much as the first c + p entries. */
  lemma {:induction false} MergeIsLeast(a: seq<nat>, b: seq<nat>, t: nat, c: nat, p: nat)
    requires Rising(a) && Rising(b) && t <= |a| + |b|
    requires c <= |a| && p <= |b| && t <= c + p
    ensures Weight(a, b, t) <= PrefixSum(a, c) + PrefixSum(b, p)
  {
    Threshold(a, b, t);
    hide Leaves;
    LeastAt(a, b, Leaves(a, b, t), t - Leaves(a, b, t), c, p);
  }

  /** Trading leaves for packages from i and j on, either way, does not get lighter. */
  lemma {:induction false} LeastAt(a: seq<nat>, b: seq<nat>, i: nat, j: nat, c: nat, p: nat)
    requires Rising(a) && Rising(b) && i <= |a| && j <= |b| && c <= |a| && p <= |b| && i + j <= c + p
    requires i > 0 && j < |b| ==> a[i - 1] <= b[j]
    requires j > 0 && i < |a| ==> b[j - 1] <= a[i]
    ensures PrefixSum(a, i) + PrefixSum(b, j) <= PrefixSum(a, c) + PrefixSum(b, p)
    decreases if c < i then i - c else c - i
  {
    if c > i && p < j {
      assert b[p] <= b[j - 1] <= a[i] <= a[c - 1];
      LeastAt(a, b, i, j, c - 1, p + 1);
    } else if c < i && p > j {
      assert a[c] <= a[i - 1] <= b[j] <= b[p - 1];
      LeastAt(a, b, i, j, c + 1, p - 1);
    } else {
      PrefixMono(a, i, c);
      PrefixMono(b, j, p);
    }
  }

  lemma {:induction false} EntriesRise(a: seq<nat>, b: seq<nat>, s: nat, t: nat)
    requires Rising(a) && Rising(b) && s <= t < |a| + |b|
    ensures Entry(a, b, s) <= Entry(a, b, t)
    decreases t
  {
    if s < t {
      EntriesRise(a, b, s, t - 1);
      Threshold(a, b, t);
    }
  }

  // ---------------------------------------------------------------- packages

  function Pairs(a: seq<nat>, b: seq<nat>): (p: seq<nat>)
    ensures |p| == (|a| + |b|) / 2
  {
    seq((|a| + |b|) / 2, k requires 0 <= k < (|a| + |b|) / 2 => Entry(a, b, 2 * k) + Entry(a, b, 2 * k + 1))
  }

  /** The packages merged with the leaves at level l: pairs of neighbours of the list below. */
  function Prior(f: seq<nat>, l: nat): (b: seq<nat>)
  {
    if l == 0 then [] else Pairs(f, Prior(f, l - 1))
  }

  lemma PriorIs(f: seq<nat>, l: nat)
    ensures l == 0 ==> Prior(f, l) == []
    ensures l > 0 ==> Prior(f, l) == Pairs(f, Prior(f, l - 1)) && |Prior(f, l)| == (|f| + |Prior(f, l - 1)|) / 2
  {
  }

  lemma PairsRise(a: seq<nat>, b: seq<nat>)
    requires Rising(a) && Rising(b)
    ensures Rising(Pairs(a, b))
  {
    hide Entry;
    forall i, j | 0 <= i < j < |Pairs(a, b)| ensures Pairs(a, b)[i] <= Pairs(a, b)[j] {
      EntriesRise(a, b, 2 * i, 2 * j);
      EntriesRise(a, b, 2 * i + 1, 2 * j + 1);
    }
  }

  lemma {:induction false} PriorRises(f: seq<nat>, l: nat)
    requires Rising(f)
    ensures Rising(Prior(f, l))
  {
    if l > 0 {
      hide Rising, Pairs;
      PriorRises(f, l - 1);
      PairsRise(f, Prior(f, l - 1));
    }
  }

  lemma PairsSum(a: seq<nat>, b: seq<nat>, p: nat, k: nat)
    requires k == 2 * p && k + 1 < |a| + |b|
    ensures PrefixSum(Pairs(a, b), p + 1) == PrefixSum(Pairs(a, b), p) + Entry(a, b, k) + Entry(a, b, k + 1)
  {
    assert Pairs(a, b)[p] == Entry(a, b, k) + Entry(a, b, k + 1);
    hide Entry, Pairs;
  }

  lemma {:induction false} PairsWeigh(a: seq<nat>, b: seq<nat>, p: nat)
    requires 2 * p <= |a| + |b|
    ensures PrefixSum(Pairs(a, b), p) == Weight(a, b, 2 * p)
  {
    if p == 0 {
      assert Leaves(a, b, 0) == 0;
    } else {
      hide Weight, Entry, Pairs, PrefixSum, Leaves;
      var q, k := p - 1, 2 * p - 2;
      PairsWeigh(a, b, q);
      PairsSum(a, b, q, k);
      WeightStep(a, b, k);
      WeightStep(a, b, k + 1);
      assert k + 1 + 1 == 2 * p;
    }
  }

  // ---------------------------------------------------------------- choosing leaves at every level

  /** Leaf counts, lowest level first, that together make up t entries of the top level. */
  ghost predicate Covers(cs: seq<nat>, t: int)
  {
    if cs == [] then t <= 0 else Covers(cs[..|cs| - 1], 2 * (t - cs[|cs| - 1]))
  }

  function Cost(f: seq<nat>, cs: seq<nat>): (c: nat)
    requires forall l :: 0 <= l < |cs| ==> cs[l] <= |f|
  {
    if cs == [] then 0 else Cost(f, cs[..|cs| - 1]) + PrefixSum(f, cs[|cs| - 1])
  }

  /** No choice of leaves costs less than the package-merge list. */
  lemma {:induction false} ListIsLeast(f: seq<nat>, cs: seq<nat>, t: nat)
    requires Rising(f) && cs != [] && Covers(cs, t) && forall l :: 0 <= l < |cs| ==> cs[l] <= |f|
    ensures t <= |f| + |Prior(f, |cs| - 1)|
    ensures Weight(f, Prior(f, |cs| - 1), t) <= Cost(f, cs)
    decreases |cs|
  {
    hide Weight, Leaves, Pairs, Prior, PrefixSum;
    var m := |cs| - 1;
    var c, b := cs[m], Prior(f, m);
    PriorRises(f, m);
    PriorIs(f, m);
    if t <= c {
      MergeIsLeast(f, b, t, c, 0);
      EmptySum(b);
    } else {
      var p := t - c;
      assert Covers(cs[..m], 2 * p);
      assert m > 0;
      ListIsLeast(f, cs[..m], 2 * p);
      PairsWeigh(f, Prior(f, m - 1), p);
      MergeIsLeast(f, b, t, c, p);
    }
  }

  /** How many entries of the list below make up the packages among the first t. */
  function Rest(f: seq<nat>, l: nat, t: nat): (r: nat)
    requires t <= |f| + |Prior(f, l)|
    ensures l > 0 ==> r <= |f| + |Prior(f, l - 1)|
    ensures l == 0 ==> r == 0
  {
    PriorIs(f, l);
    2 * (t - Leaves(f, Prior(f, l), t))
  }

  /** The leaf counts of the first t entries of level l, lowest level first. */
  function Plan(f: seq<nat>, l: nat, t: nat): (cs: seq<nat>)
    requires t <= |f| + |Prior(f, l)|
    ensures |cs| == l + 1 && forall k :: 0 <= k < |cs| ==> cs[k] <= |f|
    ensures cs[l] == Leaves(f, Prior(f, l), t)
    decreases l
  {
    hide Leaves, Prior, Rest;
    var c := Leaves(f, Prior(f, l), t);
    if l == 0 then [c] else Plan(f, l - 1, Rest(f, l, t)) + [c]
  }

  lemma {:induction false} PlanCost(f: seq<nat>, l: nat, t: nat)
    requires t <= |f| + |Prior(f, l)|
    ensures Cost(f, Plan(f, l, t)) == Weight(f, Prior(f, l), t)
    decreases l
  {
    hide Leaves, Prior, PrefixSum;
    var c := Leaves(f, Prior(f, l), t);
    PriorIs(f, l);
    if l > 0 {
      var below := Plan(f, l - 1, Rest(f, l, t));
      assert (below + [c])[..l] == below;
      PlanCost(f, l - 1, Rest(f, l, t));
      PairsWeigh(f, Prior(f, l - 1), t - c);
    } else {
      assert [c][..0] == [];
      EmptySum(Prior(f, l));
    }
  }

  ghost predicate Positive(f: seq<nat>) { forall i :: 0 <= i < |f| ==> f[i] > 0 }

  lemma EntryPositive(a: seq<nat>, b: seq<nat>, t: nat)
    requires Positive(a) && Positive(b) && t < |a| + |b|
    ensures Entry(a, b, t) > 0
  {
  }

  lemma PairsPositive(a: seq<nat>, b: seq<nat>)
    requires Positive(a) && Positive(b)
    ensures Positive(Pairs(a, b))
  {
    hide Entry;
    forall i | 0 <= i < |Pairs(a, b)| ensures Pairs(a, b)[i] > 0 {
      EntryPositive(a, b, 2 * i);
    }
  }

  lemma {:induction false} PriorPositive(f: seq<nat>, l: nat)
    requires Positive(f)
    ensures Positive(Prior(f, l))
  {
    hide Pairs;
    if l > 0 {
      PriorPositive(f, l - 1);
      PairsPositive(f, Prior(f, l - 1));
    }
  }

  /** A leaf among the first r entries is lighter than the package it is in. */
  lemma LeafInPackage(a: seq<nat>, b: seq<nat>, r: nat, i: nat) returns (k: nat)
    requires Positive(a) && Positive(b) && r <= |a| + |b| && r % 2 == 0 && i < Leaves(a, b, r)
    ensures k < r / 2 && Pairs(a, b)[k] > a[i]
  {
    hide Leaves, Entry;
    var s := LeafPlace(a, b, r, i);
    k := s / 2;
    EntryPositive(a, b, 2 * k);
    EntryPositive(a, b, 2 * k + 1);
  }

  /** A leaf used at one level is used a level up too. */
  lemma LeafUsedAbove(f: seq<nat>, l: nat, t: nat)
    requires Rising(f) && Positive(f) && l > 0 && t <= |f| + |Prior(f, l)|
    ensures Leaves(f, Prior(f, l - 1), Rest(f, l, t)) <= Leaves(f, Prior(f, l), t)
  {
    hide Prior, Leaves, Entry, Pairs;
    var b, below := Prior(f, l), Prior(f, l - 1);
    var c, r := Leaves(f, b, t), Rest(f, l, t);
    PriorIs(f, l);
    PriorRises(f, l);
    PriorPositive(f, l - 1);
    Threshold(f, b, t);
    if Leaves(f, below, r) > c {
      var k := LeafInPackage(f, below, r, c);
    }
  }

  /** Where leaf i is among the first t entries. */
  lemma LeafPlace(a: seq<nat>, b: seq<nat>, t: nat, i: nat) returns (s: nat)
    requires t <= |a| + |b| && i < Leaves(a, b, t)
    ensures s < t && Entry(a, b, s) == a[i]
    decreases t
  {
    if Leaves(a, b, t - 1) == i {
      s := t - 1;
    } else {
      s := LeafPlace(a, b, t - 1, i);
    }
  }

  lemma {:induction false} PlanNested(f: seq<nat>, l: nat, t: nat)
    requires Rising(f) && Positive(f) && t <= |f| + |Prior(f, l)|
    ensures Rising(Plan(f, l, t))
    decreases l
  {
    hide Prior, Leaves, Rest;
    if l > 0 {
      PlanNested(f, l - 1, Rest(f, l, t));
      LeafUsedAbove(f, l, t);
    }
  }

  // ---------------------------------------------------------------- lengths from leaf counts

  /** How many levels use leaf a. */
  function LengthAt(cs: seq<nat>, a: nat): (n: nat)
    ensures n <= |cs|
  {
    if cs == [] then 0 else LengthAt(cs[..|cs| - 1], a) + if cs[|cs| - 1] > a then 1 else 0
  }

  /** The first 2n - 2 entries of the top list, as leaf counts. */
  function TopPlan(f: seq<nat>): (cs: seq<nat>)
    requires 2 <= |f| <= 256
    ensures |cs| == MAX_BIT_LEN && forall k :: 0 <= k < |cs| ==> cs[k] <= |f|
  {
    TopList(f);
    Plan(f, MAX_BIT_LEN - 1, 2 * |f| - 2)
  }

  /** The code lengths build_prefix_codes computes for sorted frequencies. */
  function Lengths(f: seq<nat>): (g: seq<nat>)
    requires 2 <= |f| <= 256
    ensures |g| == |f|
  {
    seq(|f|, a requires 0 <= a < |f| => LengthAt(TopPlan(f), a))
  }

  /** Each list holds more packages, until all but one of the leaves are matched by one. */
  lemma {:induction false} Deficit(f: seq<nat>, l: nat)
    requires f != []
    ensures |Prior(f, l)| < |f|
    ensures (|f| - |Prior(f, l)|) * Pow2(l) < |f| + Pow2(l)
  {
    hide Pairs, Prior;
    PriorIs(f, l);
    if l > 0 {
      Deficit(f, l - 1);
      var d, e, p := |f| - |Prior(f, l)|, |f| - |Prior(f, l - 1)|, Pow2(l - 1);
      MulMono(2 * d, e + 1, p);
      Regrouped(d, e, p);
    }
  }

  lemma Regrouped(d: nat, e: nat, p: nat)
    ensures 2 * d * p == d * (2 * p) && (e + 1) * p == e * p + p
  {
  }

  lemma TopList(f: seq<nat>)
    requires 2 <= |f| <= 256
    ensures |Prior(f, MAX_BIT_LEN - 1)| == |Prior(f, MAX_BIT_LEN)| == |f| - 1
  {
    hide Pairs, Prior;
    Deficit(f, MAX_BIT_LEN - 1);
    PriorIs(f, MAX_BIT_LEN);
    Pow2Values();
    Pow2Add(5, 5);
    var d := |f| - |Prior(f, MAX_BIT_LEN - 1)|;
    if d >= 2 {
      MulMono(2, d, 1024);
    }
  }

  function BitsUpTo(f: seq<nat>, g: seq<nat>, n: nat): (bits: nat)
    requires n <= |f| && n <= |g|
  {
    if n == 0 then 0 else BitsUpTo(f, g, n - 1) + f[n - 1] * g[n - 1]
  }

  /** The size of the coded message: every symbol as often as it occurs. */
  function TotalBits(f: seq<nat>, g: seq<nat>): (bits: nat)
    requires |f| == |g|
  {
    BitsUpTo(f, g, |f|)
  }

  function Min(a: nat, b: nat): (m: nat) { if a < b then a else b }

  function Capped(cs: seq<nat>, n: nat): (c: seq<nat>)
    ensures |c| == |cs|
  {
    seq(|cs|, l requires 0 <= l < |cs| => Min(cs[l], n))
  }

  lemma {:induction false} CappedStep(f: seq<nat>, cs: seq<nat>, n: nat)
    requires n < |f|
    ensures Cost(f, Capped(cs, n + 1)) == Cost(f, Capped(cs, n)) + f[n] * LengthAt(cs, n)
    decreases |cs|
  {
    hide Cost, PrefixSum;
    if cs == [] {
      NothingCosts(f, Capped(cs, n));
      NothingCosts(f, Capped(cs, n + 1));
    } else {
      var m := |cs| - 1;
      CappedStep(f, cs[..m], n);
      var now, before := Capped(cs, n + 1), Capped(cs, n);
      assert before[..m] == Capped(cs[..m], n) && now[..m] == Capped(cs[..m], n + 1);
      CostSnoc(f, before);
      CostSnoc(f, now);
      AddOne(0, 0, f[n], LengthAt(cs[..m], n));
      SumTo(f, n, cs[m]);
    }
  }

  lemma CostSnoc(f: seq<nat>, cs: seq<nat>)
    requires cs != [] && forall l :: 0 <= l < |cs| ==> cs[l] <= |f|
    ensures Cost(f, cs) == Cost(f, cs[..|cs| - 1]) + PrefixSum(f, cs[|cs| - 1])
  {
  }

  lemma SumTo(f: seq<nat>, n: nat, c: nat)
    requires n < |f|
    ensures PrefixSum(f, Min(c, n + 1)) == PrefixSum(f, Min(c, n)) + if c > n then f[n] else 0
  {
  }

  lemma {:induction false} BitsOfPlan(f: seq<nat>, cs: seq<nat>, g: seq<nat>, n: nat)
    requires n <= |f| == |g| && forall a :: 0 <= a < |g| ==> g[a] == LengthAt(cs, a)
    ensures BitsUpTo(f, g, n) == Cost(f, Capped(cs, n))
  {
    if n > 0 {
      BitsOfPlan(f, cs, g, n - 1);
      CappedStep(f, cs, n - 1);
    } else {
      NothingCosts(f, Capped(cs, 0));
    }
  }

  lemma {:induction false} NothingCosts(f: seq<nat>, cs: seq<nat>)
    requires forall l :: 0 <= l < |cs| ==> cs[l] == 0
    ensures Cost(f, cs) == 0
    decreases |cs|
  {
    if cs != [] {
      NothingCosts(f, cs[..|cs| - 1]);
    }
  }

  /** The computed lengths cost what the package-merge list weighs. */
  lemma BitsOfLengths(f: seq<nat>)
    requires 2 <= |f| <= 256
    ensures 2 * |f| - 2 <= |f| + |Prior(f, MAX_BIT_LEN - 1)|
    ensures TotalBits(f, Lengths(f)) == Weight(f, Prior(f, MAX_BIT_LEN - 1), 2 * |f| - 2)
  {
    hide Leaves, Prior, Weight;
    TopList(f);
    var cs := TopPlan(f);
    BitsOfPlan(f, cs, Lengths(f), |f|);
    assert Capped(cs, |f|) == cs;
    PlanCost(f, MAX_BIT_LEN - 1, 2 * |f| - 2);
  }

  // ---------------------------------------------------------------- Kraft sums

  /** The Kraft sum of the first n lengths, in units of the longest code. */
  function Kraft(g: seq<nat>, n: nat): (sum: nat)
    requires n <= |g| && forall a :: 0 <= a < |g| ==> g[a] <= MAX_BIT_LEN
  {
    if n == 0 then 0 else Kraft(g, n - 1) + Pow2(MAX_BIT_LEN - g[n - 1])
  }

  /** Lengths a prefix code with at most 11 bits can have. */
  ghost predicate Assignment(g: seq<nat>) {
    (forall a :: 0 <= a < |g| ==> 1 <= g[a] <= MAX_BIT_LEN) && Kraft(g, |g|) <= FULL
  }

  function AtLeast(g: seq<nat>, k: nat, n: nat): (c: nat)
    requires n <= |g|
    ensures c <= n
  {
    if n == 0 then 0 else AtLeast(g, k, n - 1) + if g[n - 1] >= k then 1 else 0
  }

  /** How many of the first n symbols need a leaf at each of the m lowest levels. */
  function Demand(g: seq<nat>, m: nat, n: nat): (cs: seq<nat>)
    requires m <= MAX_BIT_LEN && n <= |g|
    ensures |cs| == m && forall l :: 0 <= l < m ==> cs[l] <= n
  {
    seq(m, l requires 0 <= l < m => AtLeast(g, MAX_BIT_LEN - l, n))
  }

  function Weighted(cs: seq<nat>): (w: nat)
  {
    if cs == [] then 0 else Weighted(cs[..|cs| - 1]) + Times(cs[|cs| - 1], Pow2(|cs| - 1))
  }

  lemma {:induction false} DemandStep(f: seq<nat>, g: seq<nat>, m: nat, n: nat)
    requires Rising(f) && n < |g| == |f| && m <= MAX_BIT_LEN && g[n] <= MAX_BIT_LEN
    ensures var over := if g[n] + m > MAX_BIT_LEN then g[n] + m - MAX_BIT_LEN else 0;
            Cost(f, Demand(g, m, n + 1)) <= Cost(f, Demand(g, m, n)) + Times(f[n], over)
    ensures Weighted(Demand(g, m, n + 1)) == Weighted(Demand(g, m, n))
              + if g[n] + m > MAX_BIT_LEN then Pow2(m) - Pow2(MAX_BIT_LEN - g[n]) else 0
    decreases m
  {
    hide Cost, Weighted, Demand, Times, Pow2;
    if m == 0 {
      NoDemand(f, g, n);
    } else {
      DemandStep(f, g, m - 1, n);
      DemandOne(f, g, m, n);
      var k := MAX_BIT_LEN - (m - 1);
      if g[n] >= k {
        AddOne(0, 0, f[n], g[n] - k);
        NextPower(m);
      } else {
        AddOne(0, 0, f[n], 0);
      }
    }
  }

  lemma NextPower(m: nat)
    requires m > 0
    ensures Pow2(m) == 2 * Pow2(m - 1)
  {
  }

  lemma NoDemand(f: seq<nat>, g: seq<nat>, n: nat)
    requires n < |g| == |f|
    ensures Cost(f, Demand(g, 0, n + 1)) == Cost(f, Demand(g, 0, n)) == 0
    ensures Weighted(Demand(g, 0, n + 1)) == Weighted(Demand(g, 0, n)) == 0 && Times(f[n], 0) == 0
  {
  }

  /** What symbol n adds at level m, and to the levels below together. */
  lemma DemandOne(f: seq<nat>, g: seq<nat>, m: nat, n: nat)
    requires Rising(f) && n < |g| == |f| && 0 < m <= MAX_BIT_LEN && g[n] <= MAX_BIT_LEN
    ensures Cost(f, Demand(g, m, n + 1)) - Cost(f, Demand(g, m - 1, n + 1))
         <= Cost(f, Demand(g, m, n)) - Cost(f, Demand(g, m - 1, n)) + if g[n] >= MAX_BIT_LEN - (m - 1) then f[n] else 0
    ensures Weighted(Demand(g, m, n + 1)) - Weighted(Demand(g, m - 1, n + 1))
         == Weighted(Demand(g, m, n)) - Weighted(Demand(g, m - 1, n))
            + if g[n] >= MAX_BIT_LEN - (m - 1) then Pow2(m - 1) else 0
  {
    hide Cost, Weighted, Demand, AtLeast, Times, Pow2;
    var k := MAX_BIT_LEN - (m - 1);
    var c := AtLeast(g, k, n);
    DemandSnoc(f, g, m, n);
    DemandSnoc(f, g, m, n + 1);
    AtLeastStep(g, k, n);
    assert f[c] <= f[n];
    AddOne(c, Pow2(m - 1), 0, 0);
  }

  lemma AtLeastStep(g: seq<nat>, k: nat, n: nat)
    requires n < |g|
    ensures AtLeast(g, k, n + 1) == AtLeast(g, k, n) + if g[n] >= k then 1 else 0
  {
  }

  lemma DemandSnoc(f: seq<nat>, g: seq<nat>, m: nat, n: nat)
    requires 0 < m <= MAX_BIT_LEN && n <= |g| == |f|
    ensures var c := AtLeast(g, MAX_BIT_LEN - (m - 1), n);
            && Cost(f, Demand(g, m, n)) == Cost(f, Demand(g, m - 1, n)) + PrefixSum(f, c)
            && Weighted(Demand(g, m, n)) == Weighted(Demand(g, m - 1, n)) + Times(c, Pow2(m - 1))
  {
    hide AtLeast, Pow2, Times, PrefixSum;
    assert Demand(g, m, n)[..m - 1] == Demand(g, m - 1, n);
  }

  lemma AddOne(c: nat, p: nat, x: nat, y: nat)
    ensures Times(c + 1, p) == Times(c, p) + p && Times(x, y + 1) == Times(x, y) + x
  {
  }

  /** Every assignment of lengths costs at least its demand, which grows as its Kraft sum shrinks. */
  lemma {:induction false} DemandCost(f: seq<nat>, g: seq<nat>, n: nat)
    requires Rising(f) && n <= |g| == |f| && forall a :: 0 <= a < |g| ==> g[a] <= MAX_BIT_LEN
    ensures Cost(f, Demand(g, MAX_BIT_LEN, n)) <= BitsUpTo(f, g, n)
    ensures Weighted(Demand(g, MAX_BIT_LEN, n)) + Kraft(g, n) == n * FULL
  {
    hide Cost, Weighted;
    if n > 0 {
      DemandCost(f, g, n - 1);
      DemandStep(f, g, MAX_BIT_LEN, n - 1);
      FullScale();
    } else {
      NothingCosts(f, Demand(g, MAX_BIT_LEN, 0));
      NothingWeighs(Demand(g, MAX_BIT_LEN, 0));
    }
  }

  lemma FullScale()
    ensures Pow2(MAX_BIT_LEN) == FULL
  {
    Pow2Values();
    Pow2Add(5, 6);
  }

  lemma {:induction false} NothingWeighs(cs: seq<nat>)
    requires forall l :: 0 <= l < |cs| ==> cs[l] == 0
    ensures Weighted(cs) == 0
    decreases |cs|
  {
    if cs != [] {
      NothingWeighs(cs[..|cs| - 1]);
    }
  }

  /** Leaf counts make up t entries exactly when they are heavy enough. */
  lemma {:induction false} CoversByWeight(cs: seq<nat>, t: int)
    ensures Covers(cs, t) <==> 2 * Weighted(cs) >= t * Pow2(|cs|)
    decreases |cs|
  {
    if cs != [] {
      var m := |cs| - 1;
      CoversByWeight(cs[..m], 2 * (t - cs[m]));
      Spread(t, cs[m], Pow2(m));
    }
  }

  lemma Spread(t: int, c: nat, p: nat)
    ensures 2 * (t - c) * p == t * (2 * p) - 2 * Times(c, p)
  {
  }

  /** The lengths of build_prefix_codes are optimal among all assignments with at most 11 bits. */
  lemma Optimal(f: seq<nat>, g: seq<nat>)
    requires Rising(f) && Positive(f) && 2 <= |f| <= 256 && |g| == |f| && Assignment(g)
    ensures TotalBits(f, Lengths(f)) <= TotalBits(f, g)
  {
    hide Cost, Weighted, Kraft, Covers, BitsUpTo, Weight, Prior, Lengths, Demand;
    var n := |f|;
    var cs := Demand(g, MAX_BIT_LEN, n);
    DemandCost(f, g, n);
    FullScale();
    CoversByWeight(cs, 2 * n - 2);
    ListIsLeast(f, cs, 2 * n - 2);
    BitsOfLengths(f);
  }

  // ---------------------------------------------------------------- the lengths are a full code

  lemma {:induction false} OnlyLeaves(a: seq<nat>, t: nat)
    requires t <= |a|
    ensures Leaves(a, [], t) == t
  {
    if t > 0 {
      OnlyLeaves(a, t - 1);
    }
  }

  lemma {:induction false} PlanExact(f: seq<nat>, l: nat, t: nat)
    requires t <= |f| + |Prior(f, l)|
    ensures 2 * Weighted(Plan(f, l, t)) == t * Pow2(l + 1)
    decreases l
  {
    hide Leaves, Prior, Weighted;
    PriorIs(f, l);
    var c := Leaves(f, Prior(f, l), t);
    var below := if l == 0 then [] else Plan(f, l - 1, Rest(f, l, t));
    assert Plan(f, l, t) == below + [c];
    WeightedSnoc(below, c);
    Spread(t, c, Pow2(l));
    if l == 0 {
      OnlyLeaves(f, t);
      NothingWeighs([]);
    } else {
      PlanExact(f, l - 1, Rest(f, l, t));
    }
  }

  lemma WeightedSnoc(cs: seq<nat>, c: nat)
    ensures Weighted(cs + [c]) == Weighted(cs) + Times(c, Pow2(|cs|))
  {
    assert (cs + [c])[..|cs|] == cs;
  }

  /** With 2n - 2 entries taken, every leaf of the top list is among them. */
  lemma {:induction false} EveryLeaf(f: seq<nat>, l: nat, t: nat)
    requires Rising(f) && Positive(f) && 2 <= |f| && 2 * |f| - 2 <= t <= |f| + |Prior(f, l)|
    ensures Leaves(f, Prior(f, l), t) == |f|
    decreases l
  {
    hide Leaves, Prior;
    PriorIs(f, l);
    var c := Leaves(f, Prior(f, l), t);
    if l == 0 {
      OnlyLeaves(f, t);
    } else if c < |f| {
      EveryLeaf(f, l - 1, Rest(f, l, t));
      LeafUsedAbove(f, l, t);
    }
  }

  /** With nested leaf counts, the demand of the lengths is the plan they came from. */
  lemma {:induction false} LengthFromTop(cs: seq<nat>, a: nat, k: nat)
    requires Rising(cs) && 1 <= k <= |cs|
    ensures LengthAt(cs, a) >= k <==> cs[|cs| - k] > a
    decreases |cs|
  {
    var m := |cs| - 1;
    if cs[m] <= a {
      assert cs[|cs| - k] <= cs[m];
      NoneAbove(cs, a);
    } else if k > 1 {
      LengthFromTop(cs[..m], a, k - 1);
    }
  }

  lemma {:induction false} NoneAbove(cs: seq<nat>, a: nat)
    requires forall l :: 0 <= l < |cs| ==> cs[l] <= a
    ensures LengthAt(cs, a) == 0
    decreases |cs|
  {
    if cs != [] {
      NoneAbove(cs[..|cs| - 1], a);
    }
  }

  lemma {:induction false} AtLeastPrefix(g: seq<nat>, k: nat, n: nat, c: nat)
    requires n <= |g| && forall a :: 0 <= a < n ==> (g[a] >= k <==> a < c)
    ensures AtLeast(g, k, n) == Min(n, c)
  {
    if n > 0 {
      AtLeastPrefix(g, k, n - 1, c);
    }
  }

  lemma DemandOfLengths(f: seq<nat>)
    requires Rising(f) && Positive(f) && 2 <= |f| <= 256
    ensures Demand(Lengths(f), MAX_BIT_LEN, |f|) == TopPlan(f)
  {
    hide LengthAt, Plan, AtLeast, Leaves, Prior;
    var cs, g := TopPlan(f), Lengths(f);
    TopList(f);
    PlanNested(f, MAX_BIT_LEN - 1, 2 * |f| - 2);
    forall l | 0 <= l < MAX_BIT_LEN ensures AtLeast(g, MAX_BIT_LEN - l, |f|) == cs[l] {
      forall a | 0 <= a < |f| ensures g[a] >= MAX_BIT_LEN - l <==> a < cs[l] {
        LengthFromTop(cs, a, MAX_BIT_LEN - l);
      }
      AtLeastPrefix(g, MAX_BIT_LEN - l, |f|, cs[l]);
    }
  }

  /** Every length is 1..11 and Kraft's inequality holds with equality. */
  lemma LengthsAreFull(f: seq<nat>)
    requires Rising(f) && Positive(f) && 2 <= |f| <= 256
    ensures Assignment(Lengths(f)) && Kraft(Lengths(f), |f|) == FULL
  {
    hide LengthAt, Plan, Leaves, Prior, Kraft, Weighted, Demand;
    var cs, g, n := TopPlan(f), Lengths(f), |f|;
    TopList(f);
    PlanNested(f, MAX_BIT_LEN - 1, 2 * n - 2);
    EveryLeaf(f, MAX_BIT_LEN - 1, 2 * n - 2);
    forall a | 0 <= a < n ensures 1 <= g[a] <= MAX_BIT_LEN {
      LengthFromTop(cs, a, 1);
    }
    DemandCost(f, g, n);
    DemandOfLengths(f);
    PlanExact(f, MAX_BIT_LEN - 1, 2 * n - 2);
    FullScale();
  }

  // ---------------------------------------------------------------- how heavy the entries get

  lemma {:induction false} CostFront(f: seq<nat>, cs: seq<nat>)
    requires cs != [] && forall l :: 0 <= l < |cs| ==> cs[l] <= |f|
    ensures Cost(f, cs) == PrefixSum(f, cs[0]) + Cost(f, cs[1..])
    decreases |cs|
  {
    hide PrefixSum;
    var m := |cs| - 1;
    CostSnoc(f, cs);
    if m > 0 {
      CostFront(f, cs[..m]);
      CostSnoc(f, cs[1..]);
      assert cs[..m][1..] == cs[1..][..m - 1];
    } else {
      NothingCosts(f, cs[..m]);
      NothingCosts(f, cs[1..]);
    }
  }

  lemma {:induction false} WeightedFront(cs: seq<nat>)
    requires cs != []
    ensures Weighted(cs) == cs[0] + 2 * Weighted(cs[1..])
    decreases |cs|
  {
    var m := |cs| - 1;
    assert cs == cs[..m] + [cs[m]];
    WeightedSnoc(cs[..m], cs[m]);
    if m > 0 {
      WeightedFront(cs[..m]);
      assert cs[1..] == cs[..m][1..] + [cs[m]];
      WeightedSnoc(cs[..m][1..], cs[m]);
      Doubled(cs[m], Pow2(m - 1));
    } else {
      assert Times(cs[0], Pow2(0)) == cs[0];
    }
  }

  lemma Doubled(c: nat, p: nat)
    ensures Times(c, 2 * p) == 2 * Times(c, p)
  {
  }

  lemma {:induction false} DeficitAtLeast(f: seq<nat>, l: nat)
    ensures (|f| - |Prior(f, l)|) * Pow2(l) >= |f|
  {
    hide Pairs, Prior;
    PriorIs(f, l);
    if l > 0 {
      DeficitAtLeast(f, l - 1);
      hide Pow2;
      var d, e, p := |f| - |Prior(f, l)|, |f| - |Prior(f, l - 1)|, Pow2(l - 1);
      MulMono(e, 2 * d, p);
      DoubledBack(d, p);
      assert Pow2(l) == 2 * p by { Pow2Add(1, l - 1); Pow2Values(); }
    }
  }

  lemma DoubledBack(d: int, p: int)
    ensures 2 * d * p == d * (2 * p)
  {
  }

  /** One more package is never dearer than lengthening every code by one bit: only the last can be. */
  lemma PackageLight(f: seq<nat>, l: nat, j: nat)
    requires Rising(f) && j + 2 <= |Prior(f, l)|
    ensures Prior(f, l)[j] <= PrefixSum(f, |f|)
  {
    hide Leaves, Weight, Pairs, Prior, Cost, Plan, Weighted, Covers, PrefixSum;
    PriorIs(f, l);
    var n, below, cs := |f|, Prior(f, l - 1), Plan(f, l - 1, 2 * j);
    var up := cs[1..] + [n];
    PlanCost(f, l - 1, 2 * j);
    PairsWeigh(f, below, j);
    PairsWeigh(f, below, j + 1);
    CostFront(f, cs);
    CostSnoc(f, up);
    assert up[..|up| - 1] == cs[1..];
    EnoughWeight(f, l, j, cs);
    ListIsLeast(f, up, 2 * j + 2);
    SumStep(Prior(f, l), j);
  }

  lemma SumStep(s: seq<nat>, k: nat)
    requires k < |s|
    ensures PrefixSum(s, k + 1) == PrefixSum(s, k) + s[k]
  {
  }

  lemma EnoughWeight(f: seq<nat>, l: nat, j: nat, cs: seq<nat>)
    requires l > 0 && j + 2 <= |Prior(f, l)| && 2 * j <= |f| + |Prior(f, l - 1)| && cs == Plan(f, l - 1, 2 * j)
    ensures Covers(cs[1..] + [|f|], 2 * j + 2)
  {
    hide Leaves, Pairs, Prior, Plan, Weighted, Covers;
    var n, p, up := |f|, Pow2(l - 1), cs[1..] + [|f|];
    PlanExact(f, l - 1, 2 * j);
    WeightedFront(cs);
    WeightedSnoc(cs[1..], n);
    CoversByWeight(up, 2 * j + 2);
    DeficitAtLeast(f, l);
    MulMono(n - |Prior(f, l)|, n - j - 2, 2 * p);
    Shifted(n, j, p, Weighted(cs), Weighted(cs[1..]), cs[0]);
  }

  lemma Shifted(n: nat, j: int, p: nat, w: int, w': int, c: int)
    requires 2 * w == 2 * j * (2 * p) && w == c + 2 * w' && c <= n <= (n - j - 2) * (2 * p)
    ensures 2 * (w' + Times(n, p)) >= (2 * j + 2) * (2 * p)
  {
    assert (n - j - 2) * (2 * p) == 2 * (n * p) - 2 * (j * p) - 4 * p;
    assert 2 * j * (2 * p) == 4 * (j * p) && (2 * j + 2) * (2 * p) == 4 * (j * p) + 4 * p;
  }

  lemma {:induction false} LeafLight(f: seq<nat>, n: nat, i: nat)
    requires i < n <= |f|
    ensures f[i] <= PrefixSum(f, n)
  {
    if i < n - 1 {
      LeafLight(f, n - 1, i);
    }
  }

  /** Every entry of a merged list but the last weighs at most what the frequencies add up to. */
  lemma EntryLight(f: seq<nat>, l: nat, t: nat)
    requires Rising(f) && t + 1 < |f| + |Prior(f, l)|
    ensures Entry(f, Prior(f, l), t) <= PrefixSum(f, |f|)
  {
    hide Prior, PrefixSum, Leaves;
    var b := Prior(f, l);
    var i := Leaves(f, b, t);
    if i < |f| {
      LeafLight(f, |f|, i);
    } else {
      PackageLight(f, l, t - i);
    }
  }

  /** No package among the first t entries is heavier than the last of them. */
  lemma LastTaken(a: seq<nat>, b: seq<nat>, t: nat)
    requires Rising(a) && Rising(b) && 0 < t <= |a| + |b|
    ensures var i := Leaves(a, b, t); i < t ==> b[t - i - 1] <= Entry(a, b, t - 1)
  {
    Threshold(a, b, t - 1);
    hide Rising;
    LastIs(a, b, t);
  }

  lemma LastIs(a: seq<nat>, b: seq<nat>, t: nat)
    requires 0 < t <= |a| + |b|
    ensures var i, i' := Leaves(a, b, t), Leaves(a, b, t - 1);
            || (i == i' && t - i > 0 && Entry(a, b, t - 1) == b[t - i - 1])
            || (i == i' + 1 && i' < |a| && Entry(a, b, t - 1) == a[i'])
  {
  }

  /** What a level needs of the list below is not heavier than what is needed of it. */
  lemma RestLight(f: seq<nat>, l: nat, t: nat)
    requires Rising(f) && 0 < l && 0 < t <= |f| + |Prior(f, l)| && Rest(f, l, t) > 0
    ensures Entry(f, Prior(f, l - 1), Rest(f, l, t) - 1) <= Entry(f, Prior(f, l), t - 1)
  {
    hide Prior, Leaves, Entry;
    PriorIs(f, l);
    PriorRises(f, l);
    LastTaken(f, Prior(f, l), t);
  }
}
