/**
 * FPC's adaptive block sizes: a dynamic programme over steps of 2048 bytes that keeps only the last
 * 32 histograms and costs in rings, and the file it leads to. Lengths are narrowed to an int on the way,
 * which limits the inputs it can handle.
 */
module FpcAdaptive {
  import opened Arith
  import opened Bytes
  import opened FpcBase
  import opened FpcFile

  const STEP := 2048
  const RING := 32
  const MBLOCK := 31
  const BLOCK_OVERHEAD := 100

  /** Up to this length the index of the last byte is an int. */
  const COUNTED := 0x8000_0000

  /** Up to this length the place of the last step is an int. */
  const LIMIT := COUNTED + STEP - 1

  /** log_int on top of lookup_log2, a table of 1024 values; nothing here depends on what they are. */
  function LogInt(t: seq<byte>, a: nat): (r: nat)
    requires |t| == 1024 && a < 0x1_0000
  {
    if a >= 1024 then 96 + t[a / 64] as int else t[a]
  }

  /** How often byte d occurs from place a on. */
  function Suffix(x: seq<byte>, d: nat, a: nat): (r: nat)
    requires a <= |x|
    decreases |x| - a
  {
    if a == |x| then 0 else Suffix(x, d, a + 1) + if x[a] == d then 1 else 0
  }

  /** What the code counts of it: nothing where the index of the last byte has become negative. */
  function Seen(x: seq<byte>, d: nat, a: nat): (r: nat)
    requires a <= |x|
  {
    if |x| <= COUNTED then Suffix(x, d, a) else 0
  }

  // ---------------------------------------------------------------- the estimate

  /** Where step k starts; the steps end with the input. */
  function Place(x: seq<byte>, k: nat): (p: nat) { |x| % STEP + k * STEP }

  function Steps(x: seq<byte>): (n: nat) { |x| / STEP }

  lemma PlaceInside(x: seq<byte>, k: nat)
    requires k <= Steps(x)
    ensures Place(x, k) <= |x| && (k == Steps(x) <==> Place(x, k) == |x|)
    ensures Place(x, k) / STEP == k
  {
  }

  /** The sum over the first d bytes of n log n, for n their counts in a block. */
  function Entropy(t: seq<byte>, n: seq<nat>, d: nat): (cost: nat)
    requires |t| == 1024 && d <= |n| == 256 && forall i :: 0 <= i < 256 ==> n[i] < 0x1_0000
  {
    if d == 0 then 0 else Entropy(t, n, d - 1) + n[d - 1] * LogInt(t, n[d - 1])
  }

  /** The estimated size of a coded block, from 16 times its bits. */
  function Size(res: int, len: nat): (r: nat)
    ensures r > 0
  {
    var e := if res == 0 then 5
             else if res < 16 * len then len / 8 + BLOCK_OVERHEAD
             else res / 16 / 8 + BLOCK_OVERHEAD;
    if e >= len then len + 4 else e
  }

  lemma SizeBound(res: int, len: nat)
    ensures Size(res, len) <= len + 4
  {
  }

  /** The histogram of c steps from step k. */
  function Histogram(x: seq<byte>, k: nat, c: nat): (n: seq<int>)
    requires k + c <= Steps(x)
    ensures |n| == 256
  {
    PlaceInside(x, k);
    PlaceInside(x, k + c);
    seq(256, d requires 0 <= d < 256 => Seen(x, d, Place(x, k)) - Seen(x, d, Place(x, k + c)))
  }

  lemma {:induction false} SuffixStep(x: seq<byte>, d: nat, a: nat, b: nat)
    requires a <= b <= |x|
    ensures 0 <= Suffix(x, d, a) - Suffix(x, d, b) <= b - a
    decreases b - a
  {
    if a < b {
      SuffixStep(x, d, a + 1, b);
    }
  }

  lemma HistogramBounds(x: seq<byte>, k: nat, c: nat)
    requires k + c <= Steps(x) && c <= MBLOCK
    ensures forall d :: 0 <= d < 256 ==> 0 <= Histogram(x, k, c)[d] < 0x1_0000
  {
    PlaceInside(x, k);
    PlaceInside(x, k + c);
    forall d: nat | d < 256 ensures 0 <= Histogram(x, k, c)[d] < 0x1_0000 {
      SuffixStep(x, d, Place(x, k), Place(x, k + c));
    }
  }

  /** The estimated cost of one block of c steps from step k. */
  function Estimate(t: seq<byte>, x: seq<byte>, k: nat, c: nat): (r: nat)
    requires |t| == 1024 && 1 <= c <= MBLOCK && k + c <= Steps(x)
    ensures 0 < r <= c * STEP + 4
  {
    HistogramBounds(x, k, c);
    var len := c * STEP;
    SizeBound(len * LogInt(t, len) - Entropy(t, Histogram(x, k, c), 256), len);
    Size(len * LogInt(t, len) - Entropy(t, Histogram(x, k, c), 256), len)
  }

  // ---------------------------------------------------------------- splits

  /** Blocks of 1..31 steps that cover the steps from k on. */
  ghost predicate Split(cs: seq<nat>, k: nat, end: nat)
  {
    if cs == [] then k == end
    else 1 <= cs[0] <= MBLOCK && k + cs[0] <= end && Split(cs[1..], k + cs[0], end)
  }

  function SplitCost(t: seq<byte>, x: seq<byte>, k: nat, cs: seq<nat>): (cost: nat)
    requires |t| == 1024 && Split(cs, k, Steps(x))
    decreases |cs|
  {
    if cs == [] then 0 else Estimate(t, x, k, cs[0]) + SplitCost(t, x, k + cs[0], cs[1..])
  }

  /** The cost from step k on when the first block takes c steps, as an int keeps it. */
  function From(t: seq<byte>, x: seq<byte>, k: nat, c: nat): (cost: int)
    requires |t| == 1024 && 1 <= c <= MBLOCK && k + c <= Steps(x)
    ensures INT_MIN <= cost <= INT_MAX
    decreases Steps(x) - k, 0
  {
    Int32(Estimate(t, x, k, c) + Best(t, x, k + c))
  }

  /** The least cost from step k on with first blocks of up to m steps. */
  function BestUpTo(t: seq<byte>, x: seq<byte>, k: nat, m: nat): (cost: int)
    requires |t| == 1024 && 1 <= m <= MBLOCK && k + m <= Steps(x)
    ensures INT_MIN <= cost <= INT_MAX
    decreases Steps(x) - k, m
  {
    var here := From(t, x, k, m);
    if m == 1 then here
    else var less := BestUpTo(t, x, k, m - 1); if here <= less then here else less
  }

  function Reach(x: seq<byte>, k: nat): (m: nat)
    requires k < Steps(x)
    ensures 1 <= m <= MBLOCK && k + m <= Steps(x)
  {
    if Steps(x) - k < MBLOCK then Steps(x) - k else MBLOCK
  }

  function Best(t: seq<byte>, x: seq<byte>, k: nat): (cost: int)
    requires |t| == 1024 && k <= Steps(x)
    ensures INT_MIN <= cost <= INT_MAX
    decreases Steps(x) - k, MBLOCK + 1
  {
    if k == Steps(x) then 0 else BestUpTo(t, x, k, Reach(x, k))
  }

  lemma BestOfReach(t: seq<byte>, x: seq<byte>, k: nat)
    requires |t| == 1024 && k < Steps(x)
    ensures Best(t, x, k) == BestUpTo(t, x, k, Reach(x, k))
  {
  }

  lemma BestAtEnd(t: seq<byte>, x: seq<byte>)
    requires |t| == 1024
    ensures Best(t, x, Steps(x)) == 0
  {
  }

  lemma BestGrows(t: seq<byte>, x: seq<byte>, k: nat, c: nat)
    requires |t| == 1024 && 1 <= c <= MBLOCK && k + c <= Steps(x)
    ensures var here := From(t, x, k, c);
            BestUpTo(t, x, k, c) ==
            if c == 1 || here <= BestUpTo(t, x, k, c - 1) then here else BestUpTo(t, x, k, c - 1)
  {
    hide From;
  }

  lemma {:induction false} BestIsLeast(t: seq<byte>, x: seq<byte>, k: nat, m: nat, c: nat)
    requires |t| == 1024 && 1 <= c <= m <= MBLOCK && k + m <= Steps(x)
    ensures BestUpTo(t, x, k, m) <= From(t, x, k, c)
    decreases m
  {
    BestGrows(t, x, k, m);
    hide From, BestUpTo;
    if c < m {
      BestIsLeast(t, x, k, m - 1, c);
    }
  }

  lemma {:induction false} BestIsSome(t: seq<byte>, x: seq<byte>, k: nat, m: nat) returns (c: nat)
    requires |t| == 1024 && 1 <= m <= MBLOCK && k + m <= Steps(x)
    ensures 1 <= c <= m && BestUpTo(t, x, k, m) == From(t, x, k, c)
    decreases m
  {
    BestGrows(t, x, k, m);
    hide From, BestUpTo;
    if m == 1 || From(t, x, k, m) <= BestUpTo(t, x, k, m - 1) {
      c := m;
    } else {
      c := BestIsSome(t, x, k, m - 1);
    }
  }

  // ---------------------------------------------------------------- costs that fit an int

  /** Up to this many steps no cost can leave an int. */
  const MAX_STEPS := 1048509

  /** n steps in blocks that do not compress, 31 steps each but the last. */
  function Ceiling(n: nat): (cost: nat) { n * STEP + (n + MBLOCK - 1) / MBLOCK * 4 }

  lemma CeilingStep(n: nat, c: nat)
    requires 1 <= c <= MBLOCK && c <= n
    ensures c * STEP + 4 + Ceiling(n - c) <= n * STEP + (n - 1 + MBLOCK - 1) / MBLOCK * 4 + 4
    ensures c == MBLOCK || c == n ==> c * STEP + 4 + Ceiling(n - c) == Ceiling(n)
    ensures c * STEP + 4 + Ceiling(n - c) >= Ceiling(n)
  {
  }

  lemma CeilingFits(n: nat)
    requires n <= MAX_STEPS
    ensures n * STEP + (n + MBLOCK - 2) / MBLOCK * 4 + 4 <= INT_MAX
  {
  }

  /** With at most MAX_STEPS steps every sum of costs is what it would be without a width. */
  lemma {:induction false} CostsFit(t: seq<byte>, x: seq<byte>, k: nat)
    requires |t| == 1024 && k <= Steps(x) && Steps(x) - k <= MAX_STEPS
    ensures 0 <= Best(t, x, k) <= Ceiling(Steps(x) - k)
    ensures forall c :: 1 <= c <= MBLOCK && k + c <= Steps(x) ==>
              From(t, x, k, c) == Estimate(t, x, k, c) + Best(t, x, k + c) && Best(t, x, k) <= From(t, x, k, c)
    decreases Steps(x) - k
  {
    hide Estimate, Best, BestUpTo, From;
    if k == Steps(x) {
      BestAtEnd(t, x);
    } else {
      var n := Steps(x) - k;
      forall c | 1 <= c <= MBLOCK && k + c <= Steps(x)
        ensures From(t, x, k, c) == Estimate(t, x, k, c) + Best(t, x, k + c) <= c * STEP + 4 + Ceiling(n - c)
        ensures 0 <= From(t, x, k, c)
      {
        CostsFit(t, x, k + c);
        FromFits(t, x, k, c);
      }
      BestOfReach(t, x, k);
      var b := BestIsSome(t, x, k, Reach(x, k));
      CeilingStep(n, Reach(x, k));
      forall c | 1 <= c <= MBLOCK && k + c <= Steps(x) ensures Best(t, x, k) <= From(t, x, k, c) {
        BestIsLeast(t, x, k, Reach(x, k), c);
      }
      assert From(t, x, k, b) >= 0 && From(t, x, k, Reach(x, k)) <= Ceiling(n);
    }
  }

  lemma FromFits(t: seq<byte>, x: seq<byte>, k: nat, c: nat)
    requires |t| == 1024 && 1 <= c <= MBLOCK && k + c <= Steps(x) && Steps(x) - k <= MAX_STEPS
    requires 0 <= Best(t, x, k + c) <= Ceiling(Steps(x) - k - c)
    ensures From(t, x, k, c) == Estimate(t, x, k, c) + Best(t, x, k + c)
  {
    hide Estimate, Best;
    CeilingStep(Steps(x) - k, c);
    CeilingFits(Steps(x) - k);
  }

  /** No split costs less. */
  lemma {:induction false} NoSplitIsCheaper(t: seq<byte>, x: seq<byte>, k: nat, cs: seq<nat>)
    requires |t| == 1024 && k <= Steps(x) <= MAX_STEPS && Split(cs, k, Steps(x))
    ensures Best(t, x, k) <= SplitCost(t, x, k, cs)
    decreases |cs|
  {
    hide Estimate, Best, From;
    if cs == [] {
      BestAtEnd(t, x);
    } else {
      NoSplitIsCheaper(t, x, k + cs[0], cs[1..]);
      CostsFit(t, x, k);
    }
  }

  // ---------------------------------------------------------------- the rings

  /** Slots of the rings from step k on hold the suffix counts seen and the least costs. */
  ghost predicate Rings(dp: array<Option<int>>, cf: array2<int>, t: seq<byte>, x: seq<byte>, k: nat)
    requires |t| == 1024
    reads dp, cf
  {
    && dp.Length == RING && cf.Length0 == RING && cf.Length1 == 256 && k <= Steps(x)
    && forall j :: k <= j <= Steps(x) && j < k + RING - 1 ==>
         dp[j % RING] == Some(Best(t, x, j)) && Row(cf, x, j)
  }

  ghost predicate Row(cf: array2<int>, x: seq<byte>, j: nat)
    requires cf.Length0 == RING && cf.Length1 == 256
    reads cf
  {
    Place(x, j) <= |x| && forall d :: 0 <= d < 256 ==> cf[j % RING, d] == Int32(Seen(x, d, Place(x, j)))
  }

  /** Where the count stands before step k: at the byte in front of what has been counted, or below 0 for ever. */
  function LastByte(x: seq<byte>, k: nat): (b: int)
  {
    if |x| <= COUNTED then Place(x, k) - 1 else Int32(|x| - 1)
  }

  /** The counts from step k on: those from the next step, and the bytes of this one. */
  method CountStep(cf: array2<int>, x: seq<byte>, k: nat, from: int) returns (b: int)
    requires cf.Length0 == RING && cf.Length1 == 256 && k < Steps(x) && Row(cf, x, k + 1)
    requires |x| <= LIMIT && from == LastByte(x, k + 1)
    modifies cf
    ensures Row(cf, x, k) && b == LastByte(x, k)
    ensures forall r, d :: 0 <= r < RING && r != k % RING && 0 <= d < 256 ==> cf[r, d] == old(cf[r, d])
  {
    hide Suffix, Int32;
    PlaceInside(x, k);
    PlaceInside(x, k + 1);
    var cur, prev := k % RING, (k % RING + 1) % RING;
    assert prev == (k + 1) % RING;
    var d := 0;
    while d < 256
      invariant d <= 256 && forall i :: 0 <= i < d ==> cf[cur, i] == Int32(Seen(x, i, Place(x, k + 1)))
      invariant forall r, i :: 0 <= r < RING && r != cur && 0 <= i < 256 ==> cf[r, i] == old(cf[r, i])
    {
      cf[cur, d] := cf[prev, d];
      d := d + 1;
    }
    b := from;
    NothingCounted(x);
    while b >= Place(x, k)
      invariant if |x| <= COUNTED then Place(x, k) - 1 <= b < |x| else b == from < 0
      invariant forall i :: 0 <= i < 256 ==> cf[cur, i] == if |x| <= COUNTED then Int32(Suffix(x, i, b + 1)) else 0
      invariant forall r, i :: 0 <= r < RING && r != cur && 0 <= i < 256 ==> cf[r, i] == old(cf[r, i])
      decreases b
    {
      OneByte(x, b);
      Int32Sum(Suffix(x, x[b], b + 1), 1);
      cf[cur, x[b]] := Int32(cf[cur, x[b]] + 1);
      b := b - 1;
    }
  }

  lemma NothingCounted(x: seq<byte>)
    ensures COUNTED < |x| <= LIMIT ==> Int32(|x| - 1) < 0
  {
  }

  lemma OneByte(x: seq<byte>, a: nat)
    requires a < |x|
    ensures forall d :: Suffix(x, d, a) == Suffix(x, d, a + 1) + if x[a] == d then 1 else 0
  {
  }

  /** The estimate for c steps from step k, four symbols at a time. */
  method EstimateCost(cf: array2<int>, t: seq<byte>, x: seq<byte>, k: nat, c: nat) returns (r: nat)
    requires |t| == 1024 && cf.Length0 == RING && cf.Length1 == 256
    requires 1 <= c <= MBLOCK && k + c <= Steps(x) && Row(cf, x, k) && Row(cf, x, k + c)
    ensures r == Estimate(t, x, k, c)
  {
    hide Suffix, LogInt, Entropy, Histogram, Row;
    HistogramBounds(x, k, c);
    ghost var n := Histogram(x, k, c);
    var res: int, d := 0, 0;
    NoEntropy(t, n);
    while d < 256
      invariant d <= 256 && d % 4 == 0 && res == 0 - Entropy(t, n, d)
    {
      var four := FourSymbols(cf, t, x, k, c, d);
      res := res - four;
      d := d + 4;
    }
    res := res + c * STEP * LogInt(t, c * STEP);
    r := Size(res, c * STEP);
  }

  method FourSymbols(cf: array2<int>, t: seq<byte>, x: seq<byte>, k: nat, c: nat, d: nat) returns (four: nat)
    requires |t| == 1024 && cf.Length0 == RING && cf.Length1 == 256 && d + 4 <= 256
    requires 1 <= c <= MBLOCK && k + c <= Steps(x) && Row(cf, x, k) && Row(cf, x, k + c)
    requires forall i :: 0 <= i < 256 ==> 0 <= Histogram(x, k, c)[i] < 0x1_0000
    ensures Entropy(t, Histogram(x, k, c), d + 4) == Entropy(t, Histogram(x, k, c), d) + four
  {
    hide LogInt, Entropy, Histogram, Row, Place, Steps;
    FourTerms(t, Histogram(x, k, c), d);
    var n0 := CountIn(cf, x, k, c, d);
    var n1 := CountIn(cf, x, k, c, d + 1);
    var n2 := CountIn(cf, x, k, c, d + 2);
    var n3 := CountIn(cf, x, k, c, d + 3);
    four := n0 * LogInt(t, n0) + n1 * LogInt(t, n1) + n2 * LogInt(t, n2) + n3 * LogInt(t, n3);
  }

  /** How often symbol d occurs in c steps from step k. */
  method CountIn(cf: array2<int>, x: seq<byte>, k: nat, c: nat, d: nat) returns (n: int)
    requires cf.Length0 == RING && cf.Length1 == 256 && d < 256
    requires c <= MBLOCK && k + c <= Steps(x) && Row(cf, x, k) && Row(cf, x, k + c)
    ensures n == Histogram(x, k, c)[d]
  {
    hide Histogram, Int32, Seen, Place, Steps;
    var cur, next := k % RING, (k % RING + c) % RING;
    RingSum(k, c);
    CountsDiffer(x, k, c, d);
    n := Int32(cf[cur, d] - cf[next, d]);
  }

  /** The difference of two counts is right even where one of them has left an int. */
  lemma CountsDiffer(x: seq<byte>, k: nat, c: nat, d: nat)
    requires k + c <= Steps(x) && c <= MBLOCK && d < 256
    ensures Place(x, k) <= |x| && Place(x, k + c) <= |x|
    ensures Int32(Int32(Seen(x, d, Place(x, k))) - Int32(Seen(x, d, Place(x, k + c)))) == Histogram(x, k, c)[d]
  {
    hide Suffix, Seen, Int32;
    PlaceInside(x, k);
    PlaceInside(x, k + c);
    HistogramBounds(x, k, c);
    var p: int, q: int := Seen(x, d, Place(x, k)), Seen(x, d, Place(x, k + c));
    assert Histogram(x, k, c)[d] == p - q;
    Int32Difference(p, q);
  }

  lemma NoEntropy(t: seq<byte>, n: seq<nat>)
    requires |t| == 1024 && |n| == 256 && forall i :: 0 <= i < 256 ==> n[i] < 0x1_0000
    ensures Entropy(t, n, 0) == 0
  {
  }

  lemma FourTerms(t: seq<byte>, n: seq<nat>, d: nat)
    requires |t| == 1024 && |n| == 256 && d + 4 <= 256 && forall i :: 0 <= i < 256 ==> n[i] < 0x1_0000
    ensures Entropy(t, n, d + 4) == Entropy(t, n, d) + (n[d] * LogInt(t, n[d]) + n[d + 1] * LogInt(t, n[d + 1])
                                    + n[d + 2] * LogInt(t, n[d + 2]) + n[d + 3] * LogInt(t, n[d + 3]))
  {
    hide LogInt;
    assert Entropy(t, n, d + 2) == Entropy(t, n, d) + n[d] * LogInt(t, n[d]) + n[d + 1] * LogInt(t, n[d + 1]);
  }

  /** The cost from step k on when the first block takes c steps. */
  method CostFrom(dp: array<Option<int>>, cf: array2<int>, t: seq<byte>, x: seq<byte>, k: nat, c: nat)
    returns (res: int)
    requires |t| == 1024 && 1 <= c <= MBLOCK && k + c <= Steps(x) && Rings(dp, cf, t, x, k + 1) && Row(cf, x, k)
    ensures res == From(t, x, k, c)
  {
    hide Estimate, Suffix, Row, Best;
    res := EstimateCost(cf, t, x, k, c);
    RingSum(k, c);
    res := Int32(res + dp[(k % RING + c) % RING].value);
  }

  lemma RingSum(k: nat, c: nat)
    ensures (k % RING + c) % RING == (k + c) % RING
  {
    ModShift(k % RING + c, k / RING, RING);
  }

  /** A first block of n steps costs the least, and any longer one costs more. */
  ghost predicate IsBest(t: seq<byte>, x: seq<byte>, k: nat, n: nat)
    requires |t| == 1024 && k < Steps(x)
  {
    && 1 <= n <= MBLOCK && k + n <= Steps(x) && Best(t, x, k) == From(t, x, k, n)
    && forall c :: n < c <= MBLOCK && k + c <= Steps(x) ==> From(t, x, k, n) < From(t, x, k, c)
  }

  /** The best first block from step k on: of equally good ones the longest. */
  method ChooseBlock(dp: array<Option<int>>, cf: array2<int>, t: seq<byte>, x: seq<byte>, k: nat)
    returns (best: int, bsize: nat)
    requires |t| == 1024 && k < Steps(x) && Rings(dp, cf, t, x, k + 1)
    requires Row(cf, x, k)
    ensures best == Best(t, x, k) && bsize <= Reach(x, k) && IsBest(t, x, k, bsize)
  {
    hide Row, Rings, BestUpTo, Best, From;
    best, bsize := INT_MAX, 0;
    var c := 1;
    BestOfReach(t, x, k);
    while c <= MBLOCK && c * STEP <= |x| - Place(x, k)
      invariant 1 <= c <= Reach(x, k) + 1 && (bsize == 0 <==> c == 1) && bsize < c
      invariant if c == 1 then best == INT_MAX
                else best == BestUpTo(t, x, k, c - 1) && best == From(t, x, k, bsize)
      invariant forall i :: bsize < i < c ==> best < From(t, x, k, i)
    {
      var res := CostFrom(dp, cf, t, x, k, c);
      BestGrows(t, x, k, c);
      if res <= best {
        best, bsize := res, c;
      }
      c := c + 1;
    }
  }

  // ---------------------------------------------------------------- choosing all blocks

  /** From step k on every entry is the best first block there. */
  ghost predicate Chosen(bs: seq<nat>, t: seq<byte>, x: seq<byte>, k: nat)
    requires |t| == 1024
  {
    && |bs| == Steps(x) + 1
    && forall j :: k <= j < Steps(x) ==>
         1 <= bs[j] <= MBLOCK && j + bs[j] <= Steps(x) && IsBest(t, x, j, bs[j])
  }

  /** The blocks a walk along the entries takes. */
  ghost function Walk(bs: seq<nat>, t: seq<byte>, x: seq<byte>, k: nat): (cs: seq<nat>)
    requires |t| == 1024 && Chosen(bs, t, x, k) && k <= Steps(x)
    ensures Split(cs, k, Steps(x))
    decreases Steps(x) - k
  {
    hide From, Best;
    if k == Steps(x) then [] else [bs[k]] + Walk(bs, t, x, k + bs[k])
  }

  /** While costs fit an int, the walk costs what the last entry of the programme says. */
  lemma {:induction false} WalkCost(bs: seq<nat>, t: seq<byte>, x: seq<byte>, k: nat)
    requires |t| == 1024 && Chosen(bs, t, x, k) && k <= Steps(x) <= MAX_STEPS
    ensures SplitCost(t, x, k, Walk(bs, t, x, k)) == Best(t, x, k)
    decreases Steps(x) - k
  {
    hide Estimate, From, Best, Chosen, Walk, SplitCost, Split, Place;
    if k == Steps(x) {
      BestAtEnd(t, x);
      NoWalk(bs, t, x);
      NoSplitCost(t, x);
    } else {
      BestOfWalk(bs, t, x, k);
      WalkNext(bs, t, x, k);
      WalkCost(bs, t, x, k + bs[k]);
      CostsFit(t, x, k);
      SplitCostNext(t, x, k, bs[k], Walk(bs, t, x, k + bs[k]));
    }
  }

  lemma BestOfWalk(bs: seq<nat>, t: seq<byte>, x: seq<byte>, k: nat)
    requires |t| == 1024 && Chosen(bs, t, x, k) && k < Steps(x)
    ensures k < |bs| && 1 <= bs[k] <= MBLOCK && k + bs[k] <= Steps(x) && Best(t, x, k) == From(t, x, k, bs[k])
  {
    hide From, Best;
  }

  lemma NoSplitCost(t: seq<byte>, x: seq<byte>)
    requires |t| == 1024
    ensures Split([], Steps(x), Steps(x)) && SplitCost(t, x, Steps(x), []) == 0
  {
  }

  lemma SplitCostNext(t: seq<byte>, x: seq<byte>, k: nat, c: nat, left: seq<nat>)
    requires |t| == 1024 && 1 <= c <= MBLOCK && k + c <= Steps(x) && Split(left, k + c, Steps(x))
    ensures Split([c] + left, k, Steps(x))
    ensures SplitCost(t, x, k, [c] + left) == Estimate(t, x, k, c) + SplitCost(t, x, k + c, left)
  {
    hide Estimate;
    assert ([c] + left)[1..] == left;
  }

  /** (cur + c) % ADAPT_MOD for the step at place a. */
  function Slot(a: nat, c: nat): (r: nat)
    ensures r < RING
  {
    (a / STEP % RING + c) % RING
  }

  /** Whether every slot that the turn for the step at place a reads has been set. */
  method SlotsSet(dp: array<Option<int>>, size: nat, a: nat) returns (ok: bool)
    requires dp.Length == RING && a <= size
    ensures ok <==> forall c :: 1 <= c <= MBLOCK && c * STEP <= size - a ==> dp[Slot(a, c)].Some?
  {
    ok := true;
    var c := 1;
    while c <= MBLOCK && c * STEP <= size - a
      invariant 1 <= c <= MBLOCK + 1 && (c > 1 ==> (c - 1) * STEP <= size - a)
      invariant ok <==> forall i :: 1 <= i < c ==> dp[Slot(a, i)].Some?
    {
      ok := ok && dp[Slot(a, c)].Some?;
      c := c + 1;
    }
  }

  lemma SlotsAreSet(dp: array<Option<int>>, cf: array2<int>, t: seq<byte>, x: seq<byte>, k: nat)
    requires |t| == 1024 && k < Steps(x) && Rings(dp, cf, t, x, k + 1)
    ensures Place(x, k) <= |x|
    ensures forall c :: 1 <= c <= MBLOCK && c * STEP <= |x| - Place(x, k) ==>
              dp[Slot(Place(x, k), c)].Some?
  {
    hide Best, Row;
    PlaceInside(x, k);
    forall c | 1 <= c <= MBLOCK && c * STEP <= |x| - Place(x, k)
      ensures dp[Slot(Place(x, k), c)].Some?
    {
      RingSum(k, c);
      assert k + c <= Steps(x);
    }
  }

  /** A ring with one slot set is not enough for a turn that reads two. */
  lemma OneSlot(dp: array<Option<int>>, e: nat, size: nat, a: nat)
    requires dp.Length == RING && forall r :: 0 <= r < RING && r != e ==> dp[r].None?
    requires a + 3 * STEP <= size
    ensures exists c :: 1 <= c <= MBLOCK && c * STEP <= size - a && dp[Slot(a, c)].None?
  {
    var cur := a / STEP % RING;
    assert (cur + 2) % RING != (cur + 3) % RING;
    var c := if (cur + 2) % RING == e then 3 else 2;
    assert dp[Slot(a, c)].None?;
  }

  /** The state of the programme before the turn for step k - 1, whose place is a. */
  ghost predicate Turning(bs: seq<nat>, dp: array<Option<int>>, cf: array2<int>, t: seq<byte>, x: seq<byte>,
                          k: nat, a: int, b: int)
    requires |t| == 1024
    reads dp, cf
  {
    && |x| <= LIMIT && Rings(dp, cf, t, x, k) && Chosen(bs, t, x, k)
    && a == Place(x, k) - STEP && b == LastByte(x, k) && (Steps(x) == 0 ==> bs[0] == 0)
  }

  /**
   * The rings, filled from the last step to the first; mem is what the memory for the entries holds at first.
   * ok is false where a turn reads a slot that nothing has set.
   */
  method ChooseBlocks(t: seq<byte>, x: seq<byte>, mem: seq<byte>) returns (blockSize: array<nat>, ok: bool)
    requires |t| == 1024 && |mem| == Steps(x) + 1
    ensures fresh(blockSize) && blockSize.Length == Steps(x) + 1
    ensures |x| <= LIMIT ==> ok && Chosen(blockSize[..], t, x, 0) && (Steps(x) == 0 ==> blockSize[0] == 0)
    ensures |x| > LIMIT && ok ==> blockSize[0] == 0
    ensures LIMIT < |x| < WORD + STEP ==> ok
  {
    hide From, Best, Row, Rings, Chosen, Turning;
    blockSize := new nat[|x| / STEP + 1](i requires 0 <= i < |mem| => mem[i]);
    blockSize[0] := 0;
    var dp := new Option<int>[RING](_ => None);
    var cf := new int[RING, 256]((_, _) => 0);
    var end := Int32(|x| / STEP);
    var e := Remainder(end, RING);
    if e < 0 {
      return blockSize, false;
    }
    dp[e] := Some(0);
    var b := Int32(|x| - 1);
    var a := Int32(|x| - STEP);
    ghost var k: nat := Steps(x);
    if |x| <= LIMIT {
      Narrowed(x);
      StartTurning(blockSize[..], dp, cf, t, x);
    }
    ok := true;
    while a >= 0
      invariant blockSize.Length == Steps(x) + 1
      invariant |x| <= LIMIT ==> k <= Steps(x) && Turning(blockSize[..], dp, cf, t, x, k, a, b)
      invariant |x| > LIMIT ==> a == Int32(|x| - STEP) && blockSize[0] == 0
      invariant |x| > LIMIT ==> forall r :: 0 <= r < RING && r != e ==> dp[r].None?
      decreases a
    {
      if |x| <= LIMIT {
        TurnReady(blockSize[..], dp, cf, t, x, k, a, b);
      } else {
        OneSlot(dp, e, |x|, a);
      }
      ok := SlotsSet(dp, |x|, a);
      if !ok {
        return;
      }
      k := k - 1;
      b := StepBack(blockSize, dp, cf, t, x, a / STEP, b);
      a := a - STEP;
    }
    if |x| <= LIMIT {
      LastTurn(blockSize[..], dp, cf, t, x, k, a, b);
    }
  }

  /** The remainder of C's division, which takes the sign of its left operand. */
  function Remainder(v: int, m: nat): (r: int)
    requires m > 0
    ensures v >= 0 ==> r == v % m
  {
    if v >= 0 then v % m else 0 - (0 - v) % m
  }

  lemma Narrowed(x: seq<byte>)
    requires |x| <= LIMIT
    ensures Int32(|x| - STEP) == |x| - STEP && Int32(|x| / STEP) == Steps(x)
    ensures |x| <= COUNTED ==> Int32(|x| - 1) == |x| - 1
  {
  }

  lemma StartTurning(bs: seq<nat>, dp: array<Option<int>>, cf: array2<int>, t: seq<byte>, x: seq<byte>)
    requires |t| == 1024 && |x| <= LIMIT && |bs| == Steps(x) + 1 && bs[0] == 0
    requires dp.Length == RING && cf.Length0 == RING && cf.Length1 == 256 && dp[Steps(x) % RING] == Some(0)
    requires forall r, d :: 0 <= r < RING && 0 <= d < 256 ==> cf[r, d] == 0
    ensures Turning(bs, dp, cf, t, x, Steps(x), |x| - STEP, Int32(|x| - 1))
  {
    hide Best;
    Narrowed(x);
    BestAtEnd(t, x);
    PlaceInside(x, Steps(x));
  }

  lemma TurnReady(bs: seq<nat>, dp: array<Option<int>>, cf: array2<int>, t: seq<byte>, x: seq<byte>,
                  k: nat, a: nat, b: int)
    requires |t| == 1024 && k <= Steps(x) && Turning(bs, dp, cf, t, x, k, a, b)
    ensures k > 0 && a <= |x| && a == Place(x, k - 1) && a / STEP == k - 1
    ensures dp.Length == RING
    ensures forall c :: 1 <= c <= MBLOCK && c * STEP <= |x| - a ==> dp[Slot(a, c)].Some?
  {
    hide Best, Row, Chosen, From;
    PlaceInside(x, k - 1);
    SlotsAreSet(dp, cf, t, x, k - 1);
  }

  lemma LastTurn(bs: seq<nat>, dp: array<Option<int>>, cf: array2<int>, t: seq<byte>, x: seq<byte>,
                 k: nat, a: int, b: int)
    requires |t| == 1024 && k <= Steps(x) && a < 0 && Turning(bs, dp, cf, t, x, k, a, b)
    ensures Chosen(bs, t, x, 0) && (Steps(x) == 0 ==> bs[0] == 0)
  {
    hide Best, Row, From, Rings;
    assert k == 0;
  }

  /** One step: its counts, its best first block, its cost. */
  method StepBack(blockSize: array<nat>, dp: array<Option<int>>, cf: array2<int>, t: seq<byte>, x: seq<byte>,
                  k: nat, from: int)
    returns (b: int)
    requires |t| == 1024 && k < Steps(x) && blockSize.Length == Steps(x) + 1
    requires Turning(blockSize[..], dp, cf, t, x, k + 1, Place(x, k), from)
    modifies blockSize, dp, cf
    ensures Turning(blockSize[..], dp, cf, t, x, k, Place(x, k) - STEP, b)
  {
    hide From, Best, Row, Chosen, Rings;
    b := CountForStep(dp, cf, t, x, k, from);
    var best, bsize := ChooseBlock(dp, cf, t, x, k);
    ghost var bs := blockSize[..];
    ChosenStep(bs, t, x, k, bsize);
    blockSize[k] := bsize;
    assert blockSize[..] == bs[k := bsize];
    StoreCost(dp, cf, t, x, k, best);
  }

  lemma ChosenStep(bs: seq<nat>, t: seq<byte>, x: seq<byte>, k: nat, n: nat)
    requires |t| == 1024 && k < Steps(x) && Chosen(bs, t, x, k + 1) && 1 <= n <= Reach(x, k)
    requires IsBest(t, x, k, n)
    ensures Chosen(bs[k := n], t, x, k)
  {
    hide From, Best, IsBest;
  }

  method StoreCost(dp: array<Option<int>>, cf: array2<int>, t: seq<byte>, x: seq<byte>, k: nat, best: int)
    requires |t| == 1024 && k < Steps(x) && Rings(dp, cf, t, x, k + 1) && Row(cf, x, k) && best == Best(t, x, k)
    modifies dp
    ensures Rings(dp, cf, t, x, k)
  {
    hide Best, Row;
    dp[k % RING] := Some(best);
    forall j | k <= j <= Steps(x) && j < k + RING - 1 ensures dp[j % RING] == Some(Best(t, x, j)) && Row(cf, x, j) {
      assert j > k ==> j % RING != k % RING;
    }
  }

  /** Counting a step leaves the other slots of the rings alone. */
  method CountForStep(dp: array<Option<int>>, cf: array2<int>, t: seq<byte>, x: seq<byte>, k: nat, from: int)
    returns (b: int)
    requires |t| == 1024 && k < Steps(x) && Rings(dp, cf, t, x, k + 1) && |x| <= LIMIT && from == LastByte(x, k + 1)
    modifies cf
    ensures Rings(dp, cf, t, x, k + 1) && Row(cf, x, k) && b == LastByte(x, k)
  {
    hide Best, Seen;
    b := CountStep(cf, x, k, from);
    OtherSlots(k);
    forall j | k + 1 <= j <= Steps(x) && j < k + RING ensures Row(cf, x, j) {
      assert old(Row(cf, x, j)) && j % RING != k % RING;
    }
  }

  /** A ring of 32 slots holds 31 more steps beside step k. */
  lemma OtherSlots(k: nat)
    ensures forall j :: k < j < k + RING ==> j % RING != k % RING
  {
  }

  // ---------------------------------------------------------------- the file

  function Sizes(fs: seq<Frame>): (n: seq<nat>)
  {
    seq(|fs|, i requires 0 <= i < |fs| => |fs[i].data|)
  }

  function InBytes(cs: seq<nat>): (n: seq<nat>)
  {
    seq(|cs|, i requires 0 <= i < |cs| => cs[i] * STEP)
  }

  /** The block sizes of a split: the first block also takes the odd bytes in front. */
  function TileSizes(cs: seq<nat>, odd: nat): (n: seq<nat>)
  {
    if cs == [] then [odd] else [odd + cs[0] * STEP] + InBytes(cs[1..])
  }

  /** The next block of a walk and how many bytes it takes. */
  lemma WalkNext(bs: seq<nat>, t: seq<byte>, x: seq<byte>, k: nat)
    requires |t| == 1024 && Chosen(bs, t, x, k) && k < Steps(x)
    ensures k + bs[k] <= Steps(x) && 1 <= bs[k] <= MBLOCK && Chosen(bs, t, x, k + bs[k])
    ensures Walk(bs, t, x, k) == [bs[k]] + Walk(bs, t, x, k + bs[k])
    ensures Place(x, k + bs[k]) == Place(x, k) + bs[k] * STEP <= |x| && bs[k] * STEP <= U16MAX
    ensures |x| % STEP + bs[k] * STEP <= U16MAX
  {
    hide From, Best;
    PlaceInside(x, k + bs[k]);
    Distrib(k, bs[k], STEP);
  }

  lemma {:induction false} SizesSnoc(fs: seq<Frame>, f: Frame, left: seq<nat>, n: nat)
    requires |f.data| == n * STEP
    ensures Sizes(fs + [f]) + InBytes(left) == Sizes(fs) + InBytes([n] + left)
  {
  }

  /**
   * What comp_adaptive comes to: it returns, or its last loop never ends because a block size of 0 leaves it
   * where it is, or it reads memory that nothing has set.
   */
  datatype Outcome = Written(out: seq<byte>) | Endless | Undefined

  /** The frames so far stand for everything in front of step a. */
  ghost predicate Framed(fs: seq<Frame>, out: seq<byte>, x: seq<byte>, a: nat) {
    && FileBytes(fs) == out && a <= Steps(x) && Place(x, a) <= |x| && FileData(fs) == x[..Place(x, a)]
    && forall i :: 0 <= i < |fs| ==> FrameMade(fs[i]) && (FileData(fs) != [] ==> fs[i].data != [])
  }

  /** The walk has come to step a, and its blocks so far and those to come are the split cs. */
  ghost predicate Walking(bs: seq<nat>, fs: seq<Frame>, t: seq<byte>, x: seq<byte>, a: nat, cs: seq<nat>)
    requires |t| == 1024
  {
    && a <= Steps(x) && Chosen(bs, t, x, a) && (a > 0 || Steps(x) == 0)
    && Sizes(fs) + InBytes(Walk(bs, t, x, a)) == TileSizes(cs, |x| % STEP)
  }

  /**
   * comp_adaptive: for inputs of up to LIMIT bytes a file of x in blocks of 1..31 steps, for longer ones never.
   * y is what the output stands for. With at most MAX_STEPS steps no other split is estimated cheaper.
   */
  method CompressAdaptive(t: seq<byte>, x: seq<byte>, mem: seq<byte>)
    returns (r: Outcome, ghost y: seq<byte>, ghost fs: seq<Frame>, ghost cs: seq<nat>)
    requires |t| == 1024 && |mem| == |x| / STEP + 1
    ensures r.Written? ==> IsFile(fs, r.out, y) && |y| <= |x| && forall i :: 0 <= i < |fs| ==> FrameMade(fs[i])
    ensures r.Written? && y == x <==> |x| <= LIMIT
    ensures LIMIT < |x| < WORD + STEP ==> r == Endless
    ensures |x| <= LIMIT ==> Split(cs, 0, Steps(x)) && Sizes(fs) == TileSizes(cs, |x| % STEP)
    ensures Steps(x) <= MAX_STEPS ==>
              Split(cs, 0, Steps(x))
              && forall other :: Split(other, 0, Steps(x)) ==> SplitCost(t, x, 0, cs) <= SplitCost(t, x, 0, other)
  {
    hide From, Best, Chosen, Framed, Walking, Walk, SplitCost, FrameMade, FileBytes, FileData, Place;
    hide Sizes, TileSizes;
    y, fs, cs := [], [], [];
    var blockSize, ok := ChooseBlocks(t, x, mem);
    if !ok {
      return Undefined, y, fs, cs;
    }
    ghost var bs := blockSize[..];
    if |x| <= LIMIT {
      cs := Walk(bs, t, x, 0);
      LeastSplit(bs, t, x);
    }
    FirstSizeOk(bs, t, x);
    var a: nat, out: seq<byte> := blockSize[0], [];
    out, fs := FirstBlock(a, x);
    FirstFramed(fs, out, x, a);
    if |x| <= LIMIT {
      FirstWalking(bs, fs, t, x, cs);
    }
    var end := Int32(|x| / STEP);
    EndOfSteps(x);
    while a < end
      invariant bs == blockSize[..] && |bs| == Steps(x) + 1 && Framed(fs, out, x, a)
      invariant |x| <= LIMIT ==> Walking(bs, fs, t, x, a, cs)
      invariant |x| > LIMIT ==> a == 0 && bs[0] == 0
      decreases end - a
    {
      if |x| <= LIMIT {
        WalkingOn(bs, fs, t, x, a, cs);
      }
      if blockSize[a] == 0 {
        return Endless, y, fs, cs;
      }
      out, fs := NextBlock(bs, fs, out, t, x, a, blockSize[a], cs);
      a := a + blockSize[a];
    }
    if |x| <= LIMIT {
      WalkingDone(bs, fs, t, x, a, cs);
    }
    y := FileData(fs);
    FramedFile(fs, out, x, a);
    r := Written(out);
  }

  /** The walk is a least split while costs fit. */
  lemma LeastSplit(bs: seq<nat>, t: seq<byte>, x: seq<byte>)
    requires |t| == 1024 && Chosen(bs, t, x, 0)
    ensures var cs := Walk(bs, t, x, 0);
            Steps(x) <= MAX_STEPS ==>
              forall other :: Split(other, 0, Steps(x)) ==> SplitCost(t, x, 0, cs) <= SplitCost(t, x, 0, other)
  {
    hide Chosen, Walk, SplitCost;
    if Steps(x) <= MAX_STEPS {
      WalkCost(bs, t, x, 0);
      forall other | Split(other, 0, Steps(x))
        ensures SplitCost(t, x, 0, Walk(bs, t, x, 0)) <= SplitCost(t, x, 0, other)
      {
        NoSplitIsCheaper(t, x, 0, other);
      }
    }
  }

  lemma FirstSizeOk(bs: seq<nat>, t: seq<byte>, x: seq<byte>)
    requires |t| == 1024 && |bs| == Steps(x) + 1
    requires if |x| <= LIMIT then Chosen(bs, t, x, 0) && (Steps(x) == 0 ==> bs[0] == 0) else bs[0] == 0
    ensures bs[0] <= MBLOCK && bs[0] <= Steps(x)
  {
    hide From, Best;
  }

  lemma EndOfSteps(x: seq<byte>)
    ensures |x| <= LIMIT ==> Int32(|x| / STEP) == Steps(x)
    ensures |x| > LIMIT ==> Steps(x) > 0
    ensures LIMIT < |x| < WORD + STEP ==> Int32(|x| / STEP) > 0
  {
  }

  /** The first block, with the bytes in front of the first step. */
  method FirstBlock(a: nat, x: seq<byte>) returns (out: seq<byte>, ghost fs: seq<Frame>)
    requires a <= MBLOCK && a <= Steps(x)
    ensures Place(x, a) <= |x| && |fs| == 1 && FrameMade(fs[0])
    ensures fs[0].data == x[..Place(x, a)] && out == FrameBytes(fs[0])
  {
    hide FrameMade, FrameBytes;
    PlaceInside(x, a);
    ghost var f;
    out, f := BlockEncode(x[..|x| % STEP + a * STEP]);
    fs := [f];
  }

  lemma FirstFramed(fs: seq<Frame>, out: seq<byte>, x: seq<byte>, a: nat)
    requires a <= Steps(x) && Place(x, a) <= |x| && |fs| == 1 && FrameMade(fs[0])
    requires fs[0].data == x[..Place(x, a)] && out == FrameBytes(fs[0])
    ensures Framed(fs, out, x, a)
  {
    hide FrameMade, FrameBytes, FileBytes, FileData, Place;
    NoFrames();
    FileSnoc([], fs[0]);
    assert [] + [fs[0]] == fs && [] + fs[0].data == fs[0].data && [] + out == out;
  }

  lemma FirstWalking(bs: seq<nat>, fs: seq<Frame>, t: seq<byte>, x: seq<byte>, cs: seq<nat>)
    requires |t| == 1024 && |bs| == Steps(x) + 1 && Chosen(bs, t, x, 0) && (Steps(x) == 0 ==> bs[0] == 0)
    requires cs == Walk(bs, t, x, 0)
    requires bs[0] <= Steps(x) && Place(x, bs[0]) <= |x| && |fs| == 1 && fs[0].data == x[..Place(x, bs[0])]
    ensures Walking(bs, fs, t, x, bs[0], cs)
  {
    hide From, Best, Chosen, Walk, Place, Steps, Sizes, InBytes, TileSizes, Split;
    if Steps(x) > 0 {
      WalkNext(bs, t, x, 0);
    } else {
      NoWalk(bs, t, x);
    }
    PlaceIs(x, bs[0]);
    assert fs == [fs[0]] && |fs[0].data| == |x| % STEP + bs[0] * STEP;
    FirstSize(cs, fs[0], |x| % STEP, Walk(bs, t, x, bs[0]));
  }

  lemma PlaceIs(x: seq<byte>, k: nat)
    ensures Place(x, k) == |x| % STEP + k * STEP
  {
  }

  lemma WalkingOn(bs: seq<nat>, fs: seq<Frame>, t: seq<byte>, x: seq<byte>, a: nat, cs: seq<nat>)
    requires |t| == 1024 && Walking(bs, fs, t, x, a, cs) && a < Steps(x)
    ensures |bs| == Steps(x) + 1 && 1 <= bs[a] <= MBLOCK && a + bs[a] <= Steps(x)
  {
    hide From, Best, Walk;
  }

  /** One more block of the walk. */
  method NextBlock(ghost bs: seq<nat>, ghost fs: seq<Frame>, out: seq<byte>, t: seq<byte>, x: seq<byte>, a: nat,
                   n: nat, ghost cs: seq<nat>)
    returns (out': seq<byte>, ghost fs': seq<Frame>)
    requires |t| == 1024 && Walking(bs, fs, t, x, a, cs) && a < Steps(x) && |bs| == Steps(x) + 1 && n == bs[a]
    requires Framed(fs, out, x, a)
    ensures a + n <= Steps(x) && Framed(fs', out', x, a + n) && Walking(bs, fs', t, x, a + n, cs)
  {
    hide From, Best, Chosen, Walk, FrameMade, FileBytes, FileData, FrameBytes, Sizes, InBytes, TileSizes;
    WalkNext(bs, t, x, a);
    var at := Place(x, a);
    var b, f := BlockEncode(x[at..at + n * STEP]);
    FileSnoc(fs, f);
    SizesSnoc(fs, f, Walk(bs, t, x, a + n), n);
    assert x[..at] + x[at..at + n * STEP] == x[..at + n * STEP];
    assert |x[..at]| > 0;
    FramesStayFull(fs, f);
    out', fs' := out + b, fs + [f];
  }

  /** No frame is empty, the first one neither. */
  lemma FramesStayFull(fs: seq<Frame>, f: Frame)
    requires f.data != [] && FrameMade(f) && FileData(fs) != []
    requires forall i :: 0 <= i < |fs| ==> FrameMade(fs[i]) && (FileData(fs) != [] ==> fs[i].data != [])
    ensures forall i :: 0 <= i < |fs + [f]| ==> FrameMade((fs + [f])[i]) && (fs + [f])[i].data != []
  {
    hide FrameMade, FileData;
  }

  lemma WalkingDone(bs: seq<nat>, fs: seq<Frame>, t: seq<byte>, x: seq<byte>, a: nat, cs: seq<nat>)
    requires |t| == 1024 && Walking(bs, fs, t, x, a, cs) && a >= Steps(x)
    ensures a == Steps(x) && Sizes(fs) == TileSizes(cs, |x| % STEP)
  {
    hide From, Best, Sizes, InBytes, TileSizes;
    NoWalk(bs, t, x);
    NoBytes();
    assert Sizes(fs) + [] == Sizes(fs);
  }

  lemma FramedFile(fs: seq<Frame>, out: seq<byte>, x: seq<byte>, a: nat)
    requires Framed(fs, out, x, a)
    ensures IsFile(fs, out, FileData(fs)) && |FileData(fs)| <= |x|
    ensures forall i :: 0 <= i < |fs| ==> FrameMade(fs[i])
    ensures FileData(fs) == x <==> a == Steps(x)
  {
    hide FrameOk, FileBytes, FileData;
    PlaceInside(x, a);
    if a == Steps(x) {
      assert x[..|x|] == x;
    }
  }

  lemma NoWalk(bs: seq<nat>, t: seq<byte>, x: seq<byte>)
    requires |t| == 1024 && Chosen(bs, t, x, Steps(x))
    ensures Walk(bs, t, x, Steps(x)) == []
  {
  }

  lemma FirstSize(cs: seq<nat>, f: Frame, odd: nat, left: seq<nat>)
    requires cs == [] ==> left == [] && |f.data| == odd
    requires cs != [] ==> left == cs[1..] && |f.data| == odd + cs[0] * STEP
    ensures Sizes([f]) + InBytes(left) == TileSizes(cs, odd)
  {
    OneSize(f);
    hide Sizes, InBytes;
    if cs == [] {
      NoBytes();
      assert [odd] + [] == [odd];
    }
  }

  lemma OneSize(f: Frame)
    ensures Sizes([f]) == [|f.data|]
  {
  }

  lemma NoBytes()
    ensures InBytes([]) == []
  {
  }

  // ---------------------------------------------------------------- any file

  /** FPC_compress: 0 asks for adaptive blocks, which come to an end for inputs of up to LIMIT bytes. */
  method Compress(t: seq<byte>, x: seq<byte>, bsize: nat, mem: seq<byte>)
    returns (r: Outcome, ghost y: seq<byte>, ghost fs: seq<Frame>)
    requires |t| == 1024 && bsize <= U16MAX && |mem| == |x| / STEP + 1
    ensures r.Written? ==> IsFile(fs, r.out, y) && |y| <= |x| && forall i :: 0 <= i < |fs| ==> FrameMade(fs[i])
    ensures r.Written? && y == x <==> bsize != 0 || |x| <= LIMIT
    ensures bsize != 0 ==> SizedFrames(fs, bsize)
    ensures bsize == 0 && LIMIT < |x| < WORD + STEP ==> r == Endless
  {
    hide IsFile, SplitCost, Split, FrameMade;
    if bsize == 0 {
      ghost var cs;
      r, y, fs, cs := CompressAdaptive(t, x, mem);
    } else {
      var out;
      out, fs := CompressFixed(x, bsize);
      r, y := Written(out), x;
    }
  }

  /** FPC_decompress(FPC_compress(x)) == x for every block size, and for adaptive blocks up to LIMIT bytes exactly. */
  method RoundTrip(t: seq<byte>, x: seq<byte>, bsize: nat, mem: seq<byte>) returns (z: Option<seq<byte>>)
    requires |t| == 1024 && bsize <= U16MAX && |mem| == |x| / STEP + 1
    ensures z == Some(x) <==> bsize != 0 || |x| <= LIMIT
  {
    hide IsFile, FrameMade;
    var r, y, fs := Compress(t, x, bsize, mem);
    if !r.Written? {
      return None;
    }
    assert FileOf(r.out, y);
    var output := new byte[|x|](_ => 0);
    var n := Decompress(output, |x|, r.out, y);
    z := Some(output[..n]);
  }
}
