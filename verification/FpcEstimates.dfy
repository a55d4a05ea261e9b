/**
 * What FPC's estimates mean: with a table of logarithms that is exact for a block's counts, the estimate is the size
 * in bytes of the block under the code whose lengths are the logarithms, and blocks over different alphabets are split.
 */
module FpcEstimates {
  import opened Arith
  import opened Bytes
  import opened SymbolCounts
  import opened FpcAdaptive

  // ---------------------------------------------------------------- histograms

  /** How often every byte occurs from place a on. */
  function Suffixes(x: seq<byte>, a: nat): (n: seq<nat>)
    requires a <= |x|
    ensures |n| == 256
  {
    seq<nat>(256, d requires 0 <= d < 256 => Suffix(x, d, a))
  }

  lemma {:induction false} SuffixesSum(x: seq<byte>, a: nat)
    requires a <= |x|
    ensures Sum(Suffixes(x, a)) == |x| - a
    decreases |x| - a
  {
    hide Sum;
    if a == |x| {
      NothingLeft(x);
    } else {
      SuffixesSum(x, a + 1);
      var n := Suffixes(x, a + 1);
      OneByte(x, a);
      assert Suffixes(x, a) == n[x[a] := n[x[a]] + 1];
      SumUpdate(n, x[a], n[x[a]] + 1);
    }
  }

  lemma NothingLeft(x: seq<byte>)
    ensures Sum(Suffixes(x, |x|)) == 0
  {
    SumZeros(Suffixes(x, |x|));
  }

  lemma {:induction false} SumZeros(n: seq<nat>)
    requires forall i :: 0 <= i < |n| ==> n[i] == 0
    ensures Sum(n) == 0
  {
    if n != [] {
      SumZeros(n[..|n| - 1]);
    }
  }

  lemma {:induction false} SumDifference(p: seq<nat>, q: seq<nat>, n: seq<nat>)
    requires |p| == |q| == |n| && forall i :: 0 <= i < |n| ==> n[i] + q[i] == p[i]
    ensures Sum(n) + Sum(q) == Sum(p)
  {
    if n != [] {
      var m := |n| - 1;
      SumDifference(p[..m], q[..m], n[..m]);
    }
  }

  /** A histogram counts no byte twice. */
  lemma HistogramSum(x: seq<byte>, k: nat, c: nat, n: seq<nat>)
    requires k + c <= Steps(x) && c <= MBLOCK && n == Histogram(x, k, c)
    ensures Sum(n) == if |x| <= COUNTED then c * STEP else 0
  {
    PlaceInside(x, k);
    PlaceInside(x, k + c);
    if |x| <= COUNTED {
      hide Suffix;
      SuffixesSum(x, Place(x, k));
      SuffixesSum(x, Place(x, k + c));
      SumDifference(Suffixes(x, Place(x, k)), Suffixes(x, Place(x, k + c)), n);
    } else {
      SumZeros(n);
    }
  }

  // ---------------------------------------------------------------- bits of a code

  /** The bits of a block whose bytes have these counts and these code lengths. */
  function CodeBits(n: seq<nat>, lens: seq<nat>, d: nat): (bits: nat)
    requires d <= |n| == |lens|
  {
    if d == 0 then 0 else CodeBits(n, lens, d - 1) + n[d - 1] * lens[d - 1]
  }

  /** The table says that every byte that occurs has the share 2^-length of a block of this size, in 16ths of a bit. */
  ghost predicate Lengths(t: seq<byte>, n: seq<nat>, lens: seq<nat>, len: nat)
    requires |t| == 1024 && len < 0x1_0000
  {
    && |n| == |lens| == 256
    && forall d :: 0 <= d < 256 ==> n[d] < 0x1_0000 && (n[d] > 0 ==> LogInt(t, len) == LogInt(t, n[d]) + 16 * lens[d])
  }

  lemma {:induction false} EntropyOfCode(t: seq<byte>, n: seq<nat>, lens: seq<nat>, len: nat, d: nat)
    requires |t| == 1024 && len < 0x1_0000 && Lengths(t, n, lens, len) && d <= 256
    ensures Entropy(t, n, d) + 16 * CodeBits(n, lens, d) == Sum(n[..d]) * LogInt(t, len)
  {
    hide LogInt;
    if d > 0 {
      EntropyOfCode(t, n, lens, len, d - 1);
      CountsBefore(n, d);
      hide Sum;
      Distrib(Sum(n[..d - 1]), n[d - 1], LogInt(t, len));
      if n[d - 1] > 0 {
        SharedOut(n[d - 1], LogInt(t, n[d - 1]), lens[d - 1]);
      }
    } else {
      SumEmpty(n);
    }
  }

  lemma SharedOut(n: nat, log: nat, l: nat)
    ensures n * log + 16 * (n * l) == n * (log + 16 * l)
  {
  }

  /** The bytes a block of len bytes takes when its codes have so many bits: never less than one bit a byte. */
  function BytesFor(bits: nat, len: nat): (r: nat)
  {
    var coded := if bits == 0 then 5 else (if bits < len then len else bits) / 8 + BLOCK_OVERHEAD;
    if coded < len then coded else len + 4
  }

  lemma SizeOfBits(bits: nat, len: nat)
    ensures Size(16 * bits, len) == BytesFor(bits, len)
  {
  }

  /** Where the table is exact, the estimate is the size of the coded block in bytes. */
  lemma EstimateIsSize(t: seq<byte>, x: seq<byte>, k: nat, c: nat, lens: seq<nat>)
    requires |t| == 1024 && 1 <= c <= MBLOCK && k + c <= Steps(x) && |x| <= COUNTED
    requires (forall d :: 0 <= d < 256 ==> 0 <= Histogram(x, k, c)[d]) && Lengths(t, Histogram(x, k, c), lens, c * STEP)
    ensures Estimate(t, x, k, c) == BytesFor(CodeBits(Histogram(x, k, c), lens, 256), c * STEP)
  {
    hide LogInt, Entropy, Histogram, Size, BytesFor, Sum, CodeBits;
    HistogramBounds(x, k, c);
    var n: seq<nat>, len := Histogram(x, k, c), c * STEP;
    HistogramSum(x, k, c, n);
    EntropyOfCode(t, n, lens, len, 256);
    assert n[..256] == n;
    SizeOfBits(CodeBits(n, lens, 256), len);
  }

  // ---------------------------------------------------------------- bytes that occur equally often

  /** A 2^j-th part of c steps. */
  function BlockPart(c: nat, j: nat): (n: nat)
    requires j <= 8
  {
    c * Pow2(11 - j)
  }

  /** The logarithms of a block's size and of its 2^j-th part differ by j bits. */
  ghost predicate Exact(t: seq<byte>) {
    |t| == 1024 && forall c, j :: 1 <= c <= MBLOCK && 0 <= j <= 8 ==>
      BlockPart(c, j) < 0x1_0000 && LogInt(t, c * STEP) == LogInt(t, BlockPart(c, j)) + 16 * j
  }

  /** The table counts a bit for every doubling. */
  ghost predicate Doubling(t: seq<byte>) {
    |t| == 1024 && forall b :: 1 <= b < 512 ==> t[2 * b] as int == t[b] as int + 16
  }

  lemma {:induction false} DoubledOften(t: seq<byte>, b: nat, n: nat)
    requires Doubling(t) && 1 <= b && b * Pow2(n) < 1024
    ensures b * Pow2(n) > 0 && t[b * Pow2(n)] as int == t[b] as int + 16 * n
  {
    if n > 0 {
      assert b * Pow2(n) == 2 * (b * Pow2(n - 1));
      MulMono(1, b, Pow2(n - 1));
      DoubledOften(t, b, n - 1);
    } else {
      assert b * Pow2(0) == b;
    }
  }

  /** Such a table is exact for all blocks. */
  lemma DoublingIsExact(t: seq<byte>)
    requires Doubling(t)
    ensures Exact(t)
  {
    hide LogInt;
    forall c, j | 1 <= c <= MBLOCK && 0 <= j <= 8
      ensures BlockPart(c, j) < 0x1_0000 && LogInt(t, c * STEP) == LogInt(t, BlockPart(c, j)) + 16 * j
    {
      PartLog(t, c, 0);
      PartLog(t, c, j);
      assert BlockPart(c, 0) == c * STEP by { Pow2Values(); Pow2Add(7, 4); }
    }
  }

  lemma PartLog(t: seq<byte>, c: nat, j: nat)
    requires Doubling(t) && 1 <= c <= MBLOCK && j <= 8
    ensures BlockPart(c, j) < 0x1_0000 && LogInt(t, BlockPart(c, j)) == t[c] as int + 16 * (11 - j)
  {
    hide Pow2, LogInt;
    PartScaled(c, j);
    if BlockPart(c, j) >= 1024 {
      DoubledOften(t, c, 5 - j);
      LogOfLarge(t, c * Pow2(5 - j));
    } else {
      DoubledOften(t, c, 11 - j);
      LogOfSmall(t, BlockPart(c, j));
    }
  }

  lemma PartScaled(c: nat, j: nat)
    requires 1 <= c <= MBLOCK && j <= 8
    ensures BlockPart(c, j) < 0x1_0000
    ensures BlockPart(c, j) >= 1024 ==> j <= 5 && BlockPart(c, j) == 64 * (c * Pow2(5 - j)) && c * Pow2(5 - j) < 1024
  {
    if j <= 5 {
      EarlyPart(c, j);
    } else {
      LatePart(c, j);
    }
  }

  lemma EarlyPart(c: nat, j: nat)
    requires 1 <= c <= MBLOCK && j <= 5
    ensures BlockPart(c, j) == 64 * (c * Pow2(5 - j)) && c * Pow2(5 - j) < 1024
  {
    Pow2Values();
    Pow2Add(5 - j, 6);
    Pow2Add(5 - j, j);
    hide Pow2;
    assert c * (Pow2(5 - j) * 64) == 64 * (c * Pow2(5 - j));
    MulMono(1, Pow2(j), Pow2(5 - j));
    MulMono(Pow2(5 - j), 32, c);
    assert Pow2(5 - j) * c == c * Pow2(5 - j) && Pow2(5 - j) * Pow2(j) == Pow2(j) * Pow2(5 - j);
  }

  lemma LatePart(c: nat, j: nat)
    requires 1 <= c <= MBLOCK && 5 < j <= 8
    ensures BlockPart(c, j) < 1024
  {
    Pow2Values();
    Pow2Add(11 - j, j - 6);
    hide Pow2;
    MulMono(1, Pow2(j - 6), Pow2(11 - j));
    MulMono(Pow2(11 - j), 32, c);
    assert Pow2(11 - j) * c == c * Pow2(11 - j) && Pow2(11 - j) * Pow2(j - 6) == Pow2(j - 6) * Pow2(11 - j);
  }

  lemma LogOfLarge(t: seq<byte>, b: nat)
    requires |t| == 1024 && 16 <= b < 1024
    ensures 64 * b < 0x1_0000 && LogInt(t, 64 * b) == 96 + t[b] as int
  {
  }

  lemma LogOfSmall(t: seq<byte>, b: nat)
    requires |t| == 1024 && b < 1024
    ensures LogInt(t, b) == t[b] as int
  {
  }

  /** Every byte that occurs does so v times. */
  ghost predicate Equally(n: seq<int>, v: nat) { |n| == 256 && forall d :: 0 <= d < 256 ==> n[d] == 0 || n[d] == v }

  lemma {:induction false} EqualBits(n: seq<nat>, lens: seq<nat>, j: nat, d: nat)
    requires |n| == |lens| && d <= |n| && forall i :: 0 <= i < |n| ==> lens[i] == j
    ensures CodeBits(n, lens, d) == Times(Sum(n[..d]), j)
  {
    hide Times;
    if d > 0 {
      EqualBits(n, lens, j, d - 1);
      CountsBefore(n, d);
      TimesAdd(Sum(n[..d - 1]), n[d - 1], j);
      assert n[d - 1] * j == Times(n[d - 1], j) by { TimesIs(n[d - 1], j); }
    } else {
      SumEmpty(n);
      TimesNext(0, j);
    }
  }

  lemma CountsBefore(n: seq<nat>, d: nat)
    requires 0 < d <= |n|
    ensures Sum(n[..d]) == Sum(n[..d - 1]) + n[d - 1]
  {
    assert n[..d][..d - 1] == n[..d - 1];
  }

  lemma TimesIs(a: nat, b: nat)
    ensures Times(a, b) == a * b
  {
  }

  /** Of 2^j bytes that occur equally often each takes j bits. */
  lemma EqualEstimate(t: seq<byte>, x: seq<byte>, k: nat, c: nat, j: nat)
    requires Exact(t) && 1 <= c <= MBLOCK && k + c <= Steps(x) && |x| <= COUNTED && j <= 8
    requires Equally(Histogram(x, k, c), BlockPart(c, j))
    ensures Estimate(t, x, k, c) == BytesFor(j * (c * STEP), c * STEP)
  {
    hide LogInt, Entropy, Histogram, BytesFor, Sum, BlockPart, CodeBits;
    HistogramBounds(x, k, c);
    var n: seq<nat>, lens: seq<nat> := Histogram(x, k, c), seq(256, _ => j);
    assert LogInt(t, c * STEP) == LogInt(t, BlockPart(c, j)) + 16 * j;
    EstimateIsSize(t, x, k, c, lens);
    EqualBits(n, lens, j, 256);
    TimesIs(Sum(n), j);
    assert Sum(n) * j == j * Sum(n);
    HistogramSum(x, k, c, n);
    assert n[..256] == n;
  }

  /** With at least one bit a byte, and while that is less than the block. */
  lemma EqualSize(j: nat, c: nat)
    requires 1 <= c && 1 <= j <= 7
    ensures BytesFor(j * (c * STEP), c * STEP) == j * (c * STEP) / 8 + BLOCK_OVERHEAD
  {
  }

  // ---------------------------------------------------------------- two halves over different bytes

  /** c steps from step k, and c steps after them, each hold 2^j bytes equally often, and no byte is in both. */
  ghost predicate Halves(x: seq<byte>, k: nat, c: nat, j: nat)
    requires j <= 7
  {
    && k + 2 * c <= Steps(x)
    && Equally(Histogram(x, k, c), BlockPart(c, j)) && Equally(Histogram(x, k + c, c), BlockPart(c, j))
    && forall d :: 0 <= d < 256 ==> Histogram(x, k, c)[d] == 0 || Histogram(x, k + c, c)[d] == 0
  }

  lemma HistogramJoins(x: seq<byte>, k: nat, b: nat, c: nat, both: nat)
    requires k + b + c <= Steps(x) && both == b + c
    ensures forall d :: 0 <= d < 256 ==>
              Histogram(x, k, both)[d] == Histogram(x, k, b)[d] + Histogram(x, k + b, c)[d]
  {
    hide Seen;
    PlaceInside(x, k);
    PlaceInside(x, k + b);
    PlaceInside(x, k + both);
  }

  lemma PartOfBoth(c: nat, j: nat)
    requires j <= 7
    ensures BlockPart(2 * c, j + 1) == BlockPart(c, j)
  {
    assert Pow2(11 - j) == 2 * Pow2(11 - (j + 1));
    assert 2 * c * Pow2(11 - (j + 1)) == c * (2 * Pow2(11 - (j + 1)));
  }

  /** Two halves over different bytes are estimated smaller as two blocks than as one. */
  lemma HalvesCheaper(t: seq<byte>, x: seq<byte>, k: nat, c: nat, j: nat)
    requires Exact(t) && 1 <= c && 2 * c <= MBLOCK && |x| <= COUNTED && 1 <= j <= 7 && Halves(x, k, c, j)
    ensures Estimate(t, x, k, c) == Estimate(t, x, k + c, c) == j * (c * STEP) / 8 + BLOCK_OVERHEAD
    ensures Estimate(t, x, k, c) + Estimate(t, x, k + c, c) < Estimate(t, x, k, 2 * c)
  {
    hide Estimate, Histogram, BytesFor, BlockPart;
    EqualEstimate(t, x, k, c, j);
    EqualEstimate(t, x, k + c, c, j);
    EqualSize(j, c);
    HistogramJoins(x, k, c, c, 2 * c);
    PartOfBoth(c, j);
    EqualEstimate(t, x, k, 2 * c, j + 1);
    WholeSize(j, c);
  }

  lemma WholeSize(j: nat, c: nat)
    requires 1 <= c && 1 <= j <= 7
    ensures BytesFor((j + 1) * (2 * c * STEP), 2 * c * STEP) > 2 * (j * (c * STEP) / 8 + BLOCK_OVERHEAD)
  {
  }

  /** A split that is least never has a file of two such halves in one block. */
  lemma HalvesAreSplit(t: seq<byte>, x: seq<byte>, c: nat, j: nat, cs: seq<nat>)
    requires Exact(t) && 1 <= c && 2 * c <= MBLOCK && 1 <= j <= 7 && Steps(x) == 2 * c && Halves(x, 0, c, j)
    requires Split(cs, 0, Steps(x))
    requires forall other :: Split(other, 0, Steps(x)) ==> SplitCost(t, x, 0, cs) <= SplitCost(t, x, 0, other)
    ensures |cs| >= 2
  {
    hide Estimate, Halves;
    HalvesCheaper(t, x, 0, c, j);
    NoSplitCost(t, x);
    SplitCostNext(t, x, c, c, []);
    SplitCostNext(t, x, 0, c, [c] + []);
    SplitCostNext(t, x, 0, 2 * c, []);
    assert [c] + [] == [c] && [2 * c] + [] == [2 * c];
    if |cs| <= 1 {
      FewBlocks(cs, Steps(x));
    }
  }

  lemma FewBlocks(cs: seq<nat>, end: nat)
    requires Split(cs, 0, end) && 0 < end && |cs| <= 1
    ensures cs == [end]
  {
    assert Split(cs[1..], cs[0], end);
  }

  // ---------------------------------------------------------------- bytes in turn

  /** Between two places the bytes from base on take turns, p of them. */
  ghost predicate Cycles(x: seq<byte>, base: nat, p: nat, from: nat, to: nat) {
    0 < p && base + p <= 256 && to <= |x| && forall i :: from <= i < to ==> x[i] == base + i % p
  }

  /** Whether d is among the j bytes from place a on. */
  predicate Among(d: nat, p: nat, a: nat, j: nat)
    requires p > 0
  {
    (d - a) % p < j
  }

  lemma Residue(d: nat, p: nat, a: nat, q: nat, r: nat)
    requires d < p && r < p && a == q * p + r
    ensures (d - a) % p == if r <= d then d - r else d - r + p
    ensures a % p == r
  {
    DivModUnique(a, p, q, r);
    assert (0 - q) * p == 0 - q * p;
    Distrib(0 - q, 1, p);
    if r <= d {
      DivModUnique(d - a, p, 0 - q, d - r);
    } else {
      DivModUnique(d - a, p, 0 - q - 1, d - r + p);
    }
  }

  lemma AmongStep(d: nat, p: nat, a: nat, j: nat)
    requires d < p && 0 < j <= p
    ensures Among(d, p, a, j) <==> Among(d, p, a + 1, j - 1) || a % p == d
    ensures !(Among(d, p, a + 1, j - 1) && a % p == d)
  {
    var q, r := a / p, a % p;
    DivAtLeast(a, p, 0);
    Residue(d, p, a, q, r);
    if r + 1 < p {
      Residue(d, p, a + 1, q, r + 1);
    } else {
      Distrib(q, 1, p);
      Residue(d, p, a + 1, q + 1, 0);
    }
  }

  lemma NoneAmong(d: nat, p: nat, a: nat)
    requires p > 0
    ensures !Among(d, p, a, 0) && Among(d, p, a, p)
  {
  }

  lemma {:induction false} OneOfEach(x: seq<byte>, base: nat, p: nat, d: nat, a: nat, j: nat)
    requires d < p && j <= p && Cycles(x, base, p, a, a + j)
    ensures Suffix(x, base + d, a) - Suffix(x, base + d, a + j) == if Among(d, p, a, j) then 1 else 0
    decreases j
  {
    hide Suffix, Among;
    if j > 0 {
      OneByte(x, a);
      OneOfEach(x, base, p, d, a + 1, j - 1);
      AmongStep(d, p, a, j);
    } else {
      NoneAmong(d, p, a);
    }
  }

  /** In m rounds each of the bytes occurs m times. */
  lemma {:induction false} Evenly(x: seq<byte>, base: nat, p: nat, d: nat, a: nat, m: nat)
    requires d < p && Cycles(x, base, p, a, a + p * m)
    ensures Suffix(x, base + d, a) - Suffix(x, base + d, a + p * m) == m
    decreases m
  {
    hide Suffix;
    if m > 0 {
      assert p * m == p + p * (m - 1);
      MulMono(0, m - 1, p);
      assert (m - 1) * p == p * (m - 1);
      OneOfEach(x, base, p, d, a, p);
      NoneAmong(d, p, a);
      Evenly(x, base, p, d, a + p, m - 1);
    } else {
      assert p * m == 0;
    }
  }

  lemma {:induction false} NotThere(x: seq<byte>, d: nat, a: nat, b: nat)
    requires a <= b <= |x| && forall i :: a <= i < b ==> x[i] != d
    ensures Suffix(x, d, a) == Suffix(x, d, b)
    decreases b - a
  {
    if a < b {
      NotThere(x, d, a + 1, b);
    }
  }

  /** c steps with 2^j bytes from 0 on in turn, then c steps with as many from 128 on. */
  function TwoAlphabets(c: nat, j: nat): (x: seq<byte>)
    requires j <= 7 && Pow2(j) <= 128
    ensures |x| == 2 * (c * STEP)
  {
    seq(2 * (c * STEP), i requires 0 <= i < 2 * (c * STEP) =>
      if i < c * STEP then i % Pow2(j) else 128 + i % Pow2(j))
  }

  lemma RoundsIn(c: nat, j: nat)
    requires j <= 7
    ensures Pow2(j) * BlockPart(c, j) == c * STEP
  {
    Pow2Values();
    Pow2Add(7, 4);
    Pow2Add(j, 11 - j);
    assert Pow2(j) * (c * Pow2(11 - j)) == c * (Pow2(j) * Pow2(11 - j));
  }

  lemma PlaceAfter(x: seq<byte>, k: nat, c: nat)
    requires k + c <= Steps(x)
    ensures Place(x, k + c) == Place(x, k) + c * STEP <= |x|
    ensures |Histogram(x, k, c)| == 256
    ensures |x| <= COUNTED ==> forall d :: 0 <= d < 256 ==>
              Histogram(x, k, c)[d] == Suffix(x, d, Place(x, k)) - Suffix(x, d, Place(x, k + c))
  {
    hide Suffix;
    PlaceInside(x, k + c);
  }

  /** Where the bytes from base on take turns in c steps, they occur equally often and no other does. */
  lemma CyclesEqually(x: seq<byte>, k: nat, c: nat, j: nat, base: nat)
    requires j <= 7 && 1 <= c <= MBLOCK && k + c <= Steps(x) && |x| <= COUNTED
    requires Cycles(x, base, Pow2(j), Place(x, k), Place(x, k + c))
    ensures Equally(Histogram(x, k, c), BlockPart(c, j))
    ensures forall d :: 0 <= d < 256 && !(base <= d < base + Pow2(j)) ==> Histogram(x, k, c)[d] == 0
  {
    hide Suffix, Place, Pow2, BlockPart, Steps;
    var p, m, a := Pow2(j), BlockPart(c, j), Place(x, k);
    RoundsIn(c, j);
    PlaceAfter(x, k, c);
    forall d: nat | d < 256
      ensures Histogram(x, k, c)[d] == if base <= d < base + p then m else 0
    {
      if base <= d < base + p {
        Evenly(x, base, p, d - base, a, m);
      } else {
        NotThere(x, d, a, a + p * m);
      }
    }
  }

  /** Such halves exist for every number of bytes and of steps, and no least split leaves them in one block. */
  lemma TwoAlphabetsAreSplit(t: seq<byte>, c: nat, j: nat, cs: seq<nat>)
    requires Exact(t) && 1 <= c && 2 * c <= MBLOCK && 1 <= j <= 7 && Pow2(j) <= 128
    requires var x := TwoAlphabets(c, j);
             Split(cs, 0, Steps(x))
             && forall other :: Split(other, 0, Steps(x)) ==> SplitCost(t, x, 0, cs) <= SplitCost(t, x, 0, other)
    ensures |cs| >= 2
  {
    hide SplitCost, Histogram, Equally, BlockPart;
    var x := TwoAlphabets(c, j);
    DivModUnique(|x|, STEP, 2 * c, 0);
    CyclesEqually(x, 0, c, j, 0);
    CyclesEqually(x, c, c, j, 128);
    HalvesAreSplit(t, x, c, j, cs);
  }
}
