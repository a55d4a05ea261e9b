/** The symbols of an FPC block: their counts, sorted, and the code lengths that take the fewest bits for the block. */
module FpcSymbols {
  import opened Arith
  import opened Bytes
  import opened CountingSort
  import opened FpcBase
  import opened FpcSort
  import L = FpcLengths
  import B = FpcBuild
  import opened FpcTables
  import opened FpcHeader
  import opened FpcEncoder

  // ---------------------------------------------------------------- symbols of a block

  /** Entry a of the list carries the count of symbol a. */
  ghost predicate Counted(s: seq<Fsym>, x: seq<byte>) {
    |s| == SYMBOLS && forall a :: 0 <= a < SYMBOLS ==> s[a] == Fsym(Count(x, a, |x|), a)
  }

  /** The same entries in order of their counts. */
  ghost predicate SortedCounts(s: seq<Fsym>, x: seq<byte>) {
    && |s| == SYMBOLS && Sorted(s)
    && (forall i :: 0 <= i < SYMBOLS ==> s[i].sym < SYMBOLS && s[i].freq == Count(x, s[i].sym, |x|))
    && (forall i, j :: 0 <= i < j < SYMBOLS ==> s[i].sym != s[j].sym)
    && (forall c :: 0 <= c < SYMBOLS ==> HasSymbol(s, c))
  }

  lemma {:induction false} TwiceInMultiset<T>(s: seq<T>, i: nat, j: nat)
    requires i < j < |s| && s[i] == s[j]
    ensures multiset(s)[s[i]] >= 2
  {
    assert s == s[..j] + s[j..];
    assert s[i] in s[..j] && s[j] in s[j..];
  }

  lemma {:induction false} OnceInMultiset(s: seq<Fsym>, n: nat, c: nat)
    requires n <= |s| && forall i :: 0 <= i < n ==> s[i].sym == i
    ensures forall v: Fsym :: v.sym == c ==> multiset(s[..n])[v] <= 1
    ensures forall v: Fsym :: v.sym >= n ==> multiset(s[..n])[v] == 0
    decreases n
  {
    if n > 0 {
      OnceInMultiset(s, n - 1, c);
      assert s[..n] == s[..n - 1] + [s[n - 1]];
    }
  }

  /** Sorting keeps one entry for every symbol. */
  lemma SortingKeeps(s: seq<Fsym>, t: seq<Fsym>, x: seq<byte>)
    requires Counted(s, x) && Sorted(t) && multiset(t) == multiset(s)
    ensures SortedCounts(t, x)
  {
    hide Count, Sorted;
    assert |t| == |multiset(t)| == |multiset(s)| == |s|;
    forall i | 0 <= i < SYMBOLS ensures t[i].sym < SYMBOLS && t[i].freq == Count(x, t[i].sym, |x|) {
      assert t[i] in multiset(s);
    }
    assert s[..SYMBOLS] == s;
    forall i, j | 0 <= i < j < SYMBOLS ensures t[i].sym != t[j].sym {
      if t[i].sym == t[j].sym {
        TwiceInMultiset(t, i, j);
        OnceInMultiset(s, SYMBOLS, t[i].sym);
      }
    }
    forall c | 0 <= c < SYMBOLS ensures HasSymbol(t, c) {
      assert s[c] in multiset(t);
    }
  }

  lemma {:induction false} CountAll(x: seq<byte>, c: nat, n: nat)
    requires n <= |x|
    ensures Count(x, c, n) == n <==> forall i :: 0 <= i < n ==> x[i] == c
  {
    if n > 0 {
      CountAll(x, c, n - 1);
    }
  }

  lemma {:induction false} CountSome(x: seq<byte>, i: nat, n: nat)
    requires i < n <= |x|
    ensures Count(x, x[i], n) > 0
  {
    if i < n - 1 {
      CountSome(x, i, n - 1);
    }
  }

  /** Unless one symbol makes up the block, two entries have counts. */
  lemma TwoSymbols(s: seq<Fsym>, x: seq<byte>, a: nat)
    requires SortedCounts(s, x) && x != [] && s[SYMBOLS - 1].freq != |x|
    requires a <= SYMBOLS && forall i :: 0 <= i < a ==> s[i].freq == 0
    ensures a + 2 <= SYMBOLS
  {
    hide Count;
    var c := x[0];
    assert HasSymbol(s, c);
    var i :| 0 <= i < SYMBOLS && s[i].sym == c;
    CountSome(x, 0, |x|);
    CountAll(x, c, |x|);
    CountAll(x, s[SYMBOLS - 1].sym, |x|);
    if forall k :: 0 <= k < |x| ==> x[k] == c {
      CountBound(x, s[SYMBOLS - 1].sym);
    } else {
      var k :| 0 <= k < |x| && x[k] != c;
      CountSome(x, k, |x|);
      assert HasSymbol(s, x[k]);
      var j :| 0 <= j < SYMBOLS && s[j].sym == x[k];
    }
  }

  lemma CountBound(x: seq<byte>, c: nat)
    ensures Count(x, c, |x|) <= |x|
  {
  }

  // ---------------------------------------------------------------- code lengths of a block

  /** The sorted entries once those from a on carry code lengths instead of counts. */
  ghost predicate WithLengths(s: seq<Fsym>, t: seq<Fsym>, a: nat, g: seq<nat>) {
    && |s| == |t| == SYMBOLS && a + |g| == SYMBOLS
    && (forall i :: 0 <= i < SYMBOLS ==> t[i].sym == s[i].sym)
    && (forall i :: 0 <= i < a ==> s[i].freq == t[i].freq == 0)
    && (forall i :: a <= i < SYMBOLS ==> s[i].freq > 0 && t[i].freq == g[i - a])
  }

  ghost function PlaceOfSymbol(s: seq<Fsym>, c: nat): (i: nat)
    requires HasSymbol(s, c)
    ensures i < |s| && s[i].sym == c
  {
    var i: nat :| i < |s| && s[i].sym == c;
    i
  }

  /** The code length of every symbol. */
  ghost function LensOf(s: seq<Fsym>): (lens: seq<byte>)
    requires |s| == SYMBOLS && forall c :: 0 <= c < SYMBOLS ==> HasSymbol(s, c)
  {
    seq(SYMBOLS, c requires 0 <= c < SYMBOLS => s[PlaceOfSymbol(s, c)].freq % 256)
  }

  lemma LengthsListed(s: seq<Fsym>, t: seq<Fsym>, a: nat, g: seq<nat>, x: seq<byte>)
    requires SortedCounts(s, x) && WithLengths(s, t, a, g) && L.Assignment(g)
    ensures forall c :: 0 <= c < SYMBOLS ==> HasSymbol(t, c)
    ensures Lists(t, LensOf(t)) && forall i :: 0 <= i < |x| ==> LensOf(t)[x[i]] > 0
  {
    hide Count, L.Kraft;
    forall c | 0 <= c < SYMBOLS ensures HasSymbol(t, c) {
      assert HasSymbol(s, c);
      var i :| 0 <= i < |s| && s[i].sym == c;
      assert t[i].sym == c;
    }
    var lens := LensOf(t);
    forall i | 0 <= i < SYMBOLS ensures t[i].freq == lens[t[i].sym] {
      assert HasSymbol(t, t[i].sym);
      assert PlaceOfSymbol(t, t[i].sym) == i;
    }
    forall i | 0 <= i < |x| ensures lens[x[i]] > 0 {
      CountSome(x, i, |x|);
      assert HasSymbol(t, x[i]);
      var k := PlaceOfSymbol(t, x[i]);
    }
  }

  /** Code space by symbol and by length are the same sum. */
  lemma {:induction false} StartStepUp(k: seq<byte>, b: nat, n: nat)
    requires b <= MAX_BIT_LEN && n < |k| && k[n] <= MAX_BIT_LEN
    ensures Start(k, b, n + 1) == Start(k, b, n) + if k[n] > b then Pow2(AMAX_BIT_LEN - k[n]) else 0
    decreases MAX_BIT_LEN - b
  {
    hide Start, Count, Pow2, Times;
    if b < MAX_BIT_LEN {
      StartStepUp(k, b + 1, n);
      StartStep(k, b + 1, n);
      StartStep(k, b + 1, n + 1);
      CountNext(k, n);
      OneMore(Count(k, b + 1, n), Pow2(AMAX_BIT_LEN - (b + 1)));
    } else {
      AllLonger(k, n);
      AllLonger(k, n + 1);
    }
  }

  lemma OneMore(c: nat, p: nat)
    ensures Times(c + 1, p) == Times(c, p) + p
  {
  }

  lemma AllLonger(k: seq<byte>, n: nat)
    requires n <= |k|
    ensures Start(k, MAX_BIT_LEN, n) == 0
  {
  }

  lemma {:induction false} SpaceOfKraft(k: seq<byte>, a: nat, g: seq<nat>, n: nat)
    requires a + |g| == |k| && a <= n <= |k| && L.Assignment(g)
    requires forall i :: 0 <= i < a ==> k[i] == 0
    requires forall i :: a <= i < |k| ==> k[i] == g[i - a]
    ensures Start(k, 0, n) == 8 * L.Kraft(g, n - a)
    decreases n
  {
    hide Start;
    if n > a {
      SpaceOfKraft(k, a, g, n - 1);
      StartStepUp(k, 0, n - 1);
      Pow2Values();
      Pow2Add(3, MAX_BIT_LEN - g[n - 1 - a]);
    } else {
      NoSpace(k, a);
    }
  }

  lemma {:induction false} NoSpace(k: seq<byte>, n: nat)
    requires n <= |k| && forall i :: 0 <= i < n ==> k[i] == 0
    ensures Start(k, 0, n) == 0
    decreases n
  {
    hide Start;
    if n > 0 {
      NoSpace(k, n - 1);
      StartStepUp(k, 0, n - 1);
    } else {
      NoneCounted(k, 0);
    }
  }

  lemma {:induction false} NoneCounted(k: seq<byte>, b: nat)
    requires b <= MAX_BIT_LEN
    ensures Start(k, b, 0) == 0
    decreases MAX_BIT_LEN - b
  {
    if b < MAX_BIT_LEN {
      NoneCounted(k, b + 1);
      assert Times(0, Pow2(AMAX_BIT_LEN - (b + 1))) == 0;
    }
  }

  lemma {:induction false} StartByCounts(k: seq<byte>, lens: seq<byte>, b: nat)
    requires |k| == |lens| && b <= MAX_BIT_LEN
    requires forall c :: 0 <= c < 256 ==> Count(k, c, |k|) == Count(lens, c, |lens|)
    ensures Start(k, b, |k|) == Start(lens, b, |lens|)
    decreases MAX_BIT_LEN - b
  {
    hide Count;
    if b < MAX_BIT_LEN {
      StartByCounts(k, lens, b + 1);
    }
  }

  /** Kraft's equality for the sorted lengths is Kraft's equality for the symbols. */
  lemma LengthsFull(s: seq<Fsym>, t: seq<Fsym>, a: nat, g: seq<nat>, x: seq<byte>)
    requires SortedCounts(s, x) && WithLengths(s, t, a, g) && L.Assignment(g) && L.Kraft(g, |g|) == L.FULL
    requires forall c :: 0 <= c < SYMBOLS ==> HasSymbol(t, c)
    ensures Coded(LensOf(t), x)
  {
    hide Start, Count, LensOf, L.Kraft, HasSymbol;
    LengthsListed(s, t, a, g, x);
    var k := Low(t);
    KeysCount(t, LensOf(t));
    SpaceOfKraft(k, a, g, SYMBOLS);
    StartByCounts(k, LensOf(t), 0);
  }

  lemma LengthsStand(was: seq<Fsym>, now: seq<Fsym>, a: nat, g: seq<nat>)
    requires |was| == SYMBOLS + 1 && a <= SYMBOLS && |g| == SYMBOLS - a
    requires Sorted(was[..SYMBOLS]) && a < SYMBOLS && was[a].freq > 0 && forall i :: 0 <= i < a ==> was[i].freq == 0
    requires B.OnlyFreqs(now, was, a, SYMBOLS + 1) && forall i :: 0 <= i < |g| ==> now[a + i].freq == g[i]
    ensures WithLengths(was[..SYMBOLS], now[..SYMBOLS], a, g)
  {
    var s, t := was[..SYMBOLS], now[..SYMBOLS];
    forall i | a <= i < SYMBOLS ensures s[i].freq > 0 && t[i].freq == g[i - a] {
      assert now[a + (i - a)].freq == g[i - a];
    }
  }

  lemma SortedTail(s: seq<Fsym>, a: nat, f: seq<nat>)
    requires Sorted(s) && |s| == SYMBOLS && a < SYMBOLS && s[a].freq != 0
    requires |f| == SYMBOLS - a && forall i :: 0 <= i < |f| ==> f[i] == s[a + i].freq
    ensures L.Rising(f) && L.Positive(f)
  {
  }

  // ---------------------------------------------------------------- the counts fit

  function CountsUpTo(s: seq<Fsym>, a: nat, x: seq<byte>, m: nat): (f: seq<nat>)
    requires a <= |s| && m <= |x|
    ensures |f| == |s| - a && forall i :: 0 <= i < |f| ==> f[i] == Count(x, s[a + i].sym, m)
  {
    seq<nat>(|s| - a, i requires 0 <= i < |s| - a => Count(x, s[a + i].sym, m))
  }

  lemma {:induction false} RaisedOnce(f: seq<nat>, g: seq<nat>, n: nat)
    requires n <= |f| == |g| && forall i :: 0 <= i < |f| ==> f[i] <= g[i] <= f[i] + 1
    requires forall i, j :: 0 <= i < j < |f| ==> f[i] == g[i] || f[j] == g[j]
    ensures L.PrefixSum(g, n) <= L.PrefixSum(f, n) + 1
    ensures (forall i :: 0 <= i < n ==> f[i] == g[i]) ==> L.PrefixSum(g, n) == L.PrefixSum(f, n)
  {
    if n > 0 {
      RaisedOnce(f, g, n - 1);
    }
  }

  /** No byte is counted for two symbols. */
  lemma {:induction false} CountsFit(s: seq<Fsym>, a: nat, x: seq<byte>, m: nat)
    requires a <= |s| && m <= |x| && forall i, j :: 0 <= i < j < |s| ==> s[i].sym != s[j].sym
    ensures L.PrefixSum(CountsUpTo(s, a, x, m), |s| - a) <= m
    decreases m
  {
    var f := CountsUpTo(s, a, x, m);
    if m == 0 {
      NoSum(f, |f|);
    } else {
      CountsFit(s, a, x, m - 1);
      RaisedOnce(CountsUpTo(s, a, x, m - 1), f, |f|);
    }
  }

  lemma {:induction false} NoSum(f: seq<nat>, n: nat)
    requires n <= |f| && forall i :: 0 <= i < |f| ==> f[i] == 0
    ensures L.PrefixSum(f, n) == 0
  {
    if n > 0 {
      NoSum(f, n - 1);
    }
  }

  lemma SortedCountsFit(s: seq<Fsym>, a: nat, x: seq<byte>, f: seq<nat>)
    requires SortedCounts(s, x) && a <= SYMBOLS
    requires |f| == SYMBOLS - a && forall i :: 0 <= i < |f| ==> f[i] == s[a + i].freq
    ensures L.PrefixSum(f, |f|) <= |x|
  {
    hide Count, L.PrefixSum;
    CountsFit(s, a, x, |x|);
    assert f == CountsUpTo(s, a, x, |x|);
  }

  // ---------------------------------------------------------------- the fewest bits

  /** How many bits the codes of the first m bytes take. */
  function MessageBits(lens: seq<byte>, x: seq<byte>, m: nat): (bits: nat)
    requires |lens| == SYMBOLS && m <= |x|
  {
    if m == 0 then 0 else MessageBits(lens, x, m - 1) + lens[x[m - 1]] as int
  }

  /** Lengths that some prefix code with a code for every byte of x has, by Kraft's inequality. */
  ghost predicate Codes(lens: seq<byte>, x: seq<byte>) {
    Lens(lens) && Start(lens, 0, SYMBOLS) <= SPACE && forall i :: 0 <= i < |x| ==> lens[x[i]] > 0
  }

  /** A full code for x under which no prefix code with at most 11 bits makes x shorter. */
  ghost predicate Least(lens: seq<byte>, x: seq<byte>) {
    && Coded(lens, x)
    && forall other :: Codes(other, x) ==> MessageBits(lens, x, |x|) <= MessageBits(other, x, |x|)
  }

  /** The lengths of the symbols listed from place a on. */
  function Picked(s: seq<Fsym>, a: nat, lens: seq<byte>): (g: seq<nat>)
    requires a <= |s| && |lens| == SYMBOLS && forall i :: 0 <= i < |s| ==> s[i].sym < SYMBOLS
    ensures |g| == |s| - a
  {
    seq<nat>(|s| - a, i requires 0 <= i < |s| - a => lens[s[a + i].sym] as nat)
  }

  lemma {:induction false} RaisedBits(f: seq<nat>, g: seq<nat>, j: nat, n: nat)
    requires |f| == |g| && j < |f| && n <= |f|
    ensures L.BitsUpTo(f[j := f[j] + 1], g, n) == L.BitsUpTo(f, g, n) + if j < n then g[j] else 0
  {
    if n > 0 {
      RaisedBits(f, g, j, n - 1);
      if j == n - 1 {
        Distrib(f[j], 1, g[j]);
      }
    }
  }

  /** Bits by place and bits by symbol are the same sum. */
  lemma {:induction false} BitsBySymbol(s: seq<Fsym>, a: nat, lens: seq<byte>, x: seq<byte>, m: nat)
    requires a <= |s| && |lens| == SYMBOLS && m <= |x| && forall i :: 0 <= i < |s| ==> s[i].sym < SYMBOLS
    requires forall i, j :: 0 <= i < j < |s| ==> s[i].sym != s[j].sym
    requires forall k :: 0 <= k < m ==> HasSymbol(s[a..], x[k])
    ensures MessageBits(lens, x, m) == L.TotalBits(CountsUpTo(s, a, x, m), Picked(s, a, lens))
  {
    hide HasSymbol;
    var f, g := CountsUpTo(s, a, x, m), Picked(s, a, lens);
    if m == 0 {
      NoBits(f, g, |f|);
    } else {
      BitsBySymbol(s, a, lens, x, m - 1);
      var before := CountsUpTo(s, a, x, m - 1);
      var j := PlaceOfSymbol(s[a..], x[m - 1]);
      assert s[a..][j] == s[a + j];
      assert f == before[j := before[j] + 1];
      RaisedBits(before, g, j, |f|);
    }
  }

  lemma {:induction false} NoBits(f: seq<nat>, g: seq<nat>, n: nat)
    requires n <= |f| == |g| && forall i :: 0 <= i < |f| ==> f[i] == 0
    ensures L.BitsUpTo(f, g, n) == 0
  {
    if n > 0 {
      NoBits(f, g, n - 1);
    }
  }

  lemma {:induction false} SpaceAtLeast(k: seq<byte>, a: nat, g: seq<nat>, n: nat)
    requires a + |g| == |k| && a <= n <= |k| && forall i :: 0 <= i < |g| ==> 1 <= g[i] <= MAX_BIT_LEN
    requires forall i :: 0 <= i < |k| ==> k[i] <= MAX_BIT_LEN
    requires forall i :: a <= i < |k| ==> k[i] == g[i - a]
    ensures 8 * L.Kraft(g, n - a) <= Start(k, 0, n)
    decreases n
  {
    hide Start;
    if n > a {
      SpaceAtLeast(k, a, g, n - 1);
      StartStepUp(k, 0, n - 1);
      Pow2Values();
      Pow2Add(3, MAX_BIT_LEN - g[n - 1 - a]);
    }
  }

  /** The symbols that occur use no more code space than all symbols. */
  lemma PickedFit(s: seq<Fsym>, a: nat, x: seq<byte>, other: seq<byte>)
    requires SortedCounts(s, x) && a <= SYMBOLS && (forall i :: a <= i < SYMBOLS ==> s[i].freq > 0) && Codes(other, x)
    ensures L.Assignment(Picked(s, a, other))
  {
    hide Start, Count, L.Kraft;
    var g := Picked(s, a, other);
    forall i | 0 <= i < |g| ensures 1 <= g[i] <= MAX_BIT_LEN {
      Occurs(x, s[a + i].sym, |x|);
    }
    var t := seq(SYMBOLS, i requires 0 <= i < SYMBOLS => Fsym(other[s[i].sym], s[i].sym));
    forall c | 0 <= c < SYMBOLS ensures HasSymbol(t, c) {
      assert HasSymbol(s, c);
      var i :| 0 <= i < |s| && s[i].sym == c;
      assert t[i].sym == c;
    }
    KeysCount(t, other);
    StartByCounts(Low(t), other, 0);
    SpaceAtLeast(Low(t), a, g, SYMBOLS);
  }

  lemma {:induction false} Occurs(x: seq<byte>, c: nat, n: nat)
    requires n <= |x| && Count(x, c, n) > 0
    ensures exists i :: 0 <= i < n && x[i] == c
  {
    if x[n - 1] != c {
      Occurs(x, c, n - 1);
    }
  }

  /** The bytes of x are among the symbols that occur. */
  lemma OccurringSymbols(s: seq<Fsym>, a: nat, x: seq<byte>)
    requires SortedCounts(s, x) && a <= SYMBOLS && forall i :: 0 <= i < a ==> s[i].freq == 0
    ensures forall k :: 0 <= k < |x| ==> HasSymbol(s[a..], x[k])
  {
    hide Count;
    forall k | 0 <= k < |x| ensures HasSymbol(s[a..], x[k]) {
      assert HasSymbol(s, x[k]);
      var i :| 0 <= i < |s| && s[i].sym == x[k];
      CountSome(x, k, |x|);
      assert s[a..][i - a].sym == x[k];
    }
  }

  /** Lengths that are least for the sorted counts are least for the block. */
  lemma LeastBits(s: seq<Fsym>, a: nat, f: seq<nat>, x: seq<byte>, lens: seq<byte>)
    requires SortedCounts(s, x) && a <= SYMBOLS && Coded(lens, x) && f == CountsUpTo(s, a, x, |x|)
    requires (forall i :: 0 <= i < a ==> s[i].freq == 0) && (forall i :: a <= i < SYMBOLS ==> s[i].freq > 0)
    requires forall g: seq<nat> :: |g| == |f| && L.Assignment(g) ==>
               L.TotalBits(f, Picked(s, a, lens)) <= L.TotalBits(f, g)
    ensures Least(lens, x)
  {
    hide Count, Start, L.Kraft, L.Assignment, L.TotalBits, HasSymbol, Sorted;
    OccurringSymbols(s, a, x);
    BitsBySymbol(s, a, lens, x, |x|);
    forall other | Codes(other, x) ensures MessageBits(lens, x, |x|) <= MessageBits(other, x, |x|) {
      PickedFit(s, a, x, other);
      BitsBySymbol(s, a, other, x, |x|);
    }
  }

  /** The lengths behind the sorted symbols are the lengths of the symbols. */
  lemma PickedLengths(s: seq<Fsym>, t: seq<Fsym>, a: nat, g: seq<nat>, x: seq<byte>)
    requires SortedCounts(s, x) && WithLengths(s, t, a, g)
    requires (forall c :: 0 <= c < SYMBOLS ==> HasSymbol(t, c)) && Lists(t, LensOf(t))
    ensures Picked(s, a, LensOf(t)) == g
  {
    hide Count, LensOf;
    var lens := LensOf(t);
    forall i | 0 <= i < |g| ensures Picked(s, a, lens)[i] == g[i] {
      assert t[a + i].freq == lens[t[a + i].sym];
    }
  }

  // ---------------------------------------------------------------- the size of a coded block

  /** The bytes of one of the three streams. */
  function StreamSize(lens: seq<byte>, x: seq<byte>, p: nat): (n: nat)
    requires Lens(lens)
  {
    (|StreamBits(lens, x, p)| + 7) / 8
  }

  lemma {:induction false} StreamsTotal(lens: seq<byte>, x: seq<byte>, p: nat)
    requires Lens(lens) && p <= |x|
    ensures |StreamBits(lens, x, p)| + |StreamBits(lens, x, p + 1)| + |StreamBits(lens, x, p + 2)|
            == MessageBits(lens, x, |x|) - MessageBits(lens, x, p)
    decreases |x| - p
  {
    if p < |x| {
      StreamsTotal(lens, x, p + 1);
    }
  }

  /** Header, two sizes and three streams. */
  function CodedSize(lens: seq<byte>, x: seq<byte>): (n: nat)
    requires Lens(lens)
  {
    |Pack(Describe(lens, 0))| + HEADER_SIZE
    + StreamSize(lens, x, 0) + StreamSize(lens, x, 1) + StreamSize(lens, x, 2)
  }

  /** Behind the header a coded block takes the bits of the message and less than three bytes more. */
  lemma CodedSizeIs(lens: seq<byte>, x: seq<byte>)
    requires Lens(lens)
    ensures var behind := CodedSize(lens, x) - |Pack(Describe(lens, 0))| - HEADER_SIZE;
            MessageBits(lens, x, |x|) <= 8 * behind <= MessageBits(lens, x, |x|) + 21
  {
    hide StreamBits, Pack, Describe, MessageBits;
    StreamsTotal(lens, x, 0);
    NoMessage(lens, x);
  }

  lemma NoMessage(lens: seq<byte>, x: seq<byte>)
    requires |lens| == SYMBOLS
    ensures MessageBits(lens, x, 0) == 0
  {
  }

  // ---------------------------------------------------------------- what a block is made of

  /** The most frequent symbol and the next one. */
  ghost predicate TopTwo(x: seq<byte>, p: nat, q: nat) {
    && p < SYMBOLS && q < SYMBOLS && p != q && Count(x, p, |x|) >= Count(x, q, |x|)
    && forall c :: 0 <= c < SYMBOLS && c != p ==> Count(x, q, |x|) >= Count(x, c, |x|)
  }

  lemma TopOfSorted(s: seq<Fsym>, x: seq<byte>)
    requires SortedCounts(s, x)
    ensures TopTwo(x, s[SYMBOLS - 1].sym, s[SYMBOLS - 2].sym)
  {
    hide Count;
    forall c | 0 <= c < SYMBOLS && c != s[SYMBOLS - 1].sym
      ensures Count(x, s[SYMBOLS - 2].sym, |x|) >= Count(x, c, |x|)
    {
      assert HasSymbol(s, c);
      var i :| 0 <= i < |s| && s[i].sym == c;
    }
  }

  /** The two shortest codes are so long that a block of these bytes will hardly get shorter. */
  predicate Flat(lens: seq<byte>, p: nat, q: nat)
    requires p < |lens| && q < |lens|
  {
    lens[p] >= 7 && lens[q] == 8
  }

  ghost predicate OneByte(x: seq<byte>) { forall i :: 0 <= i < |x| ==> x[i] == x[0] }
}
