/** FPC blocks: one byte for a run, the bytes themselves, or a header and three coded streams. */
module FpcBlock {
  import opened Arith
  import opened Bytes
  import opened CountingSort
  import opened FpcBase
  import opened FpcSort
  import L = FpcLengths
  import B = FpcBuild
  import opened FpcTables
  import opened FpcHeader
  import opened FpcEncoder
  import opened FpcSymbols
  import opened FpcDecoder

  /** b is a header that describes lens, followed by the streams of x under these lengths. */
  ghost predicate CodedBlock(b: seq<byte>, x: seq<byte>, lens: seq<byte>) {
    && Follows(b, 0, |b|, lens)
    && Streams(b, |Pack(Describe(lens, 0))|, |b|, lens, x)
  }

  /** Block b stands for x; its size and that of x decide how. */
  ghost predicate BlockOf(b: seq<byte>, x: seq<byte>) {
    if |b| == 1 then forall i :: 0 <= i < |x| ==> x[i] == b[0]
    else if |b| == |x| then b == x
    else exists lens :: CodedBlock(b, x, lens)
  }

  /**
   * The block that stands for x: x itself when it is short, its only byte, or the code with the fewest bits, unless
   * that is flat or no shorter; p and q are the two most frequent symbols.
   */
  ghost predicate EncodedWith(b: seq<byte>, x: seq<byte>, lens: seq<byte>, p: nat, q: nat) {
    if |x| < MIN_COMPRESSIBLE_SIZE then b == x
    else if OneByte(x) then b == [x[0]]
    else
      && Least(lens, x) && TopTwo(x, p, q)
      && if Flat(lens, p, q) || CodedSize(lens, x) >= |x| then b == x
         else CodedBlock(b, x, lens) && |b| == CodedSize(lens, x)
  }

  ghost predicate Encoded(b: seq<byte>, x: seq<byte>) { exists lens, p, q :: EncodedWith(b, x, lens, p, q) }

  // ---------------------------------------------------------------- compression

  /** The histogram of a block as a list of symbols, sorted by count. */
  method SortSymbols(x: seq<byte>) returns (s: array<Fsym>)
    requires |x| <= U16MAX
    ensures fresh(s) && s.Length == SYMBOLS + 1 && SortedCounts(s[..SYMBOLS], x)
  {
    hide Count, Sorted, SortedCounts;
    var count := new nat[SYMBOLS](_ => 0);
    ByteCount(x, count);
    s := new Fsym[SYMBOLS + 1](_ => Fsym(0, 0));
    var a := 0;
    while a < SYMBOLS
      invariant a <= SYMBOLS && forall i :: 0 <= i < a ==> s[i] == Fsym(Count(x, i, |x|), i)
      modifies s
    {
      s[a] := Fsym(count[a], a);
      a := a + 1;
    }
    forall i | 0 <= i < SYMBOLS ensures s[i].freq < 0x1_0000 {
      CountBound(x, i);
    }
    ghost var t := s[..SYMBOLS];
    SortInc(s, SYMBOLS);
    SortingKeeps(t, s[..SYMBOLS], x);
  }

  /** The lengths of a table of codes. */
  function TableLens(t: seq<Enode>): (lens: seq<byte>)
    ensures |lens| == |t|
  {
    seq(|t|, i requires 0 <= i < |t| => t[i].len % 256)
  }

  lemma TableLensIs(t: seq<Enode>, lens: seq<byte>)
    requires Lens(lens) && EncTable(t, lens)
    ensures TableLens(t) == lens
  {
    hide CodeVal;
  }

  /** The header and the three streams, with the place of the stream sizes left open. */
  method CodeStreams(x: seq<byte>, lookup: seq<Enode>, ghost lens: seq<byte>)
    returns (header: seq<byte>, streams: seq<seq<byte>>)
    requires Lens(lens) && EncTable(lookup, lens) && Coded(lens, x) && |x| >= NUM_STREAMS
    ensures header == Pack(Describe(lens, 0)) && |streams| == NUM_STREAMS
    ensures forall a :: 0 <= a < NUM_STREAMS ==> Stream(streams[a], StreamBits(lens, x, a))
  {
    hide Pack, Describe, StreamBits, Stream, Coded, EncTable, TableLens;
    TableLensIs(lookup, lens);
    header := WritePrefixDescr(TableLens(lookup));
    streams := [];
    var a := 0;
    while a < NUM_STREAMS
      invariant a <= NUM_STREAMS && |streams| == a
      invariant forall i :: 0 <= i < a ==> Stream(streams[i], StreamBits(lens, x, i))
    {
      var b := PrefixCodesEncode(x, a, lookup, lens);
      streams := streams + [b];
      a := a + 1;
    }
  }

  function Bytes2(v: nat): (b: seq<byte>) { [v % 256, v / 256 % 256] }

  lemma ShortBack(s: seq<byte>, i: nat, v: nat)
    requires v < 0x1_0000 && i + 2 <= |s| && s[i..i + 2] == Bytes2(v)
    ensures Short(s, i) == v
  {
    assert s[i] == s[i..i + 2][0] && s[i + 1] == s[i..i + 2][1];
    DivModUnique(v / 256, 256, 0, v / 256);
  }

  /** Header, sizes of all streams but the last, and the streams make up a coded block. */
  lemma Assembled(x: seq<byte>, lens: seq<byte>, h: seq<byte>, s: seq<seq<byte>>, b: seq<byte>)
    requires Lens(lens) && Coded(lens, x) && h == Pack(Describe(lens, 0)) && |s| == NUM_STREAMS
    requires forall a :: 0 <= a < NUM_STREAMS ==> Stream(s[a], StreamBits(lens, x, a))
    requires |s[0]| < 0x1_0000 && |s[1]| < 0x1_0000
    requires b == h + Bytes2(|s[0]|) + Bytes2(|s[1]|) + s[0] + s[1] + s[2]
    ensures CodedBlock(b, x, lens)
  {
    hide Pack, Describe, StreamBits, Stream, Coded, Bytes2;
    var from, start := |h|, |h| + HEADER_SIZE;
    var second := start + |s[0]|;
    var third := second + |s[1]|;
    TwoLong(|s[0]|);
    TwoLong(|s[1]|);
    assert b[0..|b|][..|h|] == h;
    assert b[from..from + 2] == Bytes2(|s[0]|) && b[from + 2..from + 2 + 2] == Bytes2(|s[1]|);
    ShortBack(b, from, |s[0]|);
    ShortBack(b, from + 2, |s[1]|);
    assert b[start..second] == s[0] && b[second..third] == s[1] && b[third..|b|] == s[2];
  }

  lemma TwoLong(v: nat)
    ensures |Bytes2(v)| == 2
  {
  }

  lemma SortedFacts(s: seq<Fsym>, x: seq<byte>)
    requires SortedCounts(s, x)
    ensures |s| == SYMBOLS && Sorted(s)
  {
  }

  lemma NoRun(s: seq<Fsym>, x: seq<byte>)
    requires SortedCounts(s, x) && s[SYMBOLS - 1].freq != |x| && x != []
    ensures !OneByte(x)
  {
    hide Count;
    var c := x[0];
    assert HasSymbol(s, c);
    var i :| 0 <= i < |s| && s[i].sym == c;
    CountAll(x, c, |x|);
    CountBound(x, s[SYMBOLS - 1].sym);
  }

  lemma RunOf(s: seq<Fsym>, x: seq<byte>)
    requires SortedCounts(s, x) && s[SYMBOLS - 1].freq == |x|
    ensures s[SYMBOLS - 1].sym < 256 && forall i :: 0 <= i < |x| ==> x[i] == s[SYMBOLS - 1].sym
  {
    CountAll(x, s[SYMBOLS - 1].sym, |x|);
  }

  /** The counts of the symbols that occur become their code lengths. */
  method BuildLengths(s: array<Fsym>, a: nat, ghost x: seq<byte>)
    requires |x| <= U16MAX && s.Length == SYMBOLS + 1 && SortedCounts(s[..SYMBOLS], x) && a + 2 <= SYMBOLS
    requires (forall i :: 0 <= i < a ==> s[i].freq == 0) && s[a].freq != 0
    modifies s
    ensures forall c :: 0 <= c < SYMBOLS ==> HasSymbol(s[..SYMBOLS], c)
    ensures Lens(LensOf(s[..SYMBOLS])) && Lists(s[..SYMBOLS], LensOf(s[..SYMBOLS]))
    ensures Least(LensOf(s[..SYMBOLS]), x) && forall i :: 0 <= i < SYMBOLS ==> s[i].sym == old(s[i].sym)
  {
    hide Least, Count, L.Kraft, L.Assignment, L.TotalBits, L.PrefixSum, Full, LensOf;
    ghost var was, s0 := s[..], s[..SYMBOLS];
    ghost var f := seq(SYMBOLS - a, i requires 0 <= i < SYMBOLS - a => s0[a + i].freq);
    SortedTail(s0, a, f);
    SortedCountsFit(s0, a, x, f);
    B.BuildPrefixCodes(s, a, SYMBOLS - a, f);
    ghost var g, t := L.Lengths(f), s[..SYMBOLS];
    LengthsStand(was, s[..], a, g);
    LengthsListed(s0, t, a, g, x);
    LengthsFull(s0, t, a, g, x);
    PickedLengths(s0, t, a, g, x);
    assert f == CountsUpTo(s0, a, x, |x|);
    LeastBits(s0, a, f, x, LensOf(t));
    LeastIsCoded(LensOf(t), x);
  }

  lemma LeastIsCoded(lens: seq<byte>, x: seq<byte>)
    requires Least(lens, x)
    ensures Coded(lens, x) && Lens(lens)
  {
  }

  lemma TopLengths(t: seq<Fsym>, lens: seq<byte>)
    requires Lists(t, lens)
    ensures t[SYMBOLS - 1].sym < SYMBOLS && t[SYMBOLS - 2].sym < SYMBOLS
    ensures t[SYMBOLS - 1].freq == lens[t[SYMBOLS - 1].sym] && t[SYMBOLS - 2].freq == lens[t[SYMBOLS - 2].sym]
  {
  }

  lemma SizeIs(lens: seq<byte>, x: seq<byte>, header: seq<byte>, streams: seq<seq<byte>>)
    requires Lens(lens) && header == Pack(Describe(lens, 0)) && |streams| == NUM_STREAMS
    requires forall a :: 0 <= a < NUM_STREAMS ==> Stream(streams[a], StreamBits(lens, x, a))
    ensures CodedSize(lens, x) ==
            |header| + HEADER_SIZE + |streams[0]| + |streams[1]| + |streams[2]|
  {
    hide StreamBits, Pack, Describe;
  }

  /** The block once the lengths are there: coded, unless they are flat or the code is no shorter. */
  method CodeBlock(x: seq<byte>, s: array<Fsym>, ghost lens: seq<byte>) returns (b: seq<byte>)
    requires MIN_COMPRESSIBLE_SIZE <= |x| <= U16MAX && s.Length == SYMBOLS + 1
    requires Lens(lens) && Lists(s[..SYMBOLS], lens) && Coded(lens, x)
    ensures s[SYMBOLS - 1].sym < SYMBOLS && s[SYMBOLS - 2].sym < SYMBOLS
    ensures if Flat(lens, s[SYMBOLS - 1].sym, s[SYMBOLS - 2].sym) || CodedSize(lens, x) >= |x| then b == x
            else CodedBlock(b, x, lens) && |b| == CodedSize(lens, x)
  {
    hide CodedSize, CodedBlock, EncTable, Full, Lists, Count;
    TopLengths(s[..SYMBOLS], lens);
    if s[SYMBOLS - 1].freq >= 7 && s[SYMBOLS - 2].freq == 8 {
      return x;
    }
    var lookup := new Enode[SYMBOLS](_ => Enode(0, 0));
    ConstructEncTable(lookup, s, lens);
    var header, streams := CodeStreams(x, lookup[..], lens);
    var size := |header| + HEADER_SIZE + |streams[0]| + |streams[1]| + |streams[2]|;
    SizeIs(lens, x, header, streams);
    if size >= |x| {
      return x;
    }
    b := header + Bytes2(|streams[0]|) + Bytes2(|streams[1]|) + streams[0] + streams[1] + streams[2];
    Assembled(x, lens, header, streams, b);
  }

  /** How many of the sorted symbols do not occur. */
  method CutZeros(s: array<Fsym>, ghost x: seq<byte>) returns (a: nat)
    requires s.Length == SYMBOLS + 1 && SortedCounts(s[..SYMBOLS], x) && x != [] && s[SYMBOLS - 1].freq != |x|
    ensures a + 2 <= SYMBOLS && (forall i :: 0 <= i < a ==> s[i].freq == 0) && s[a].freq != 0
  {
    hide SortedCounts;
    ghost var s0 := s[..SYMBOLS];
    a := 0;
    while a < SYMBOLS && s[a].freq == 0
      invariant a <= SYMBOLS && forall i :: 0 <= i < a ==> s0[i].freq == 0
    {
      a := a + 1;
    }
    SortedFacts(s0, x);
    TwoSymbols(s0, x, a);
  }

  /**
   * FPC_compress_block: x as it is, its only byte, or a coded block with the fewest bits; p and q are the two most
   * frequent symbols.
   */
  method CompressBlock(x: seq<byte>) returns (b: seq<byte>, ghost lens: seq<byte>, ghost p: nat, ghost q: nat)
    requires |x| <= U16MAX
    ensures BlockOf(b, x) && |b| <= |x| && (x != [] ==> b != [])
    ensures EncodedWith(b, x, lens, p, q)
  {
    hide Least, TopTwo, CodedSize, SortedCounts, CodedBlock, Full, Lists, LensOf, HasSymbol, Flat;
    lens, p, q := [], 0, 0;
    if |x| < MIN_COMPRESSIBLE_SIZE {
      return x, lens, p, q;
    }
    var s := SortSymbols(x);
    ghost var s0 := s[..SYMBOLS];
    SortedFacts(s0, x);
    if s[SYMBOLS - 1].freq == |x| {
      RunOf(s0, x);
      return [s[SYMBOLS - 1].sym], lens, p, q;
    }
    NoRun(s0, x);
    TopOfSorted(s0, x);
    var a := CutZeros(s, x);
    BuildLengths(s, a, x);
    lens, p, q := LensOf(s[..SYMBOLS]), s[SYMBOLS - 1].sym, s[SYMBOLS - 2].sym;
    LeastIsCoded(lens, x);
    b := CodeBlock(x, s, lens);
    CodedInside(lens, x);
  }

  lemma CodedInside(lens: seq<byte>, x: seq<byte>)
    requires Lens(lens)
    ensures CodedSize(lens, x) >= HEADER_SIZE
  {
    hide Pack, Describe, StreamSize;
  }
}
