/**
 * FPC's decoder: three bit registers refilled by OR-ing eight bytes over what they hold, an unrolled
 * loop while all streams are far from the end of the input, and a careful loop for the rest.
 */
module FpcDecoder {
  import opened Bytes
  import opened Registers
  import opened FpcBase
  import opened FpcTables
  import opened FpcBits
  import opened FpcEncoder

  /** The register holds the stream from bit c on, as far as it is known, and zeros above. */
  ghost predicate Window(w: word64, s: seq<bit>, c: nat, known: nat) {
    known <= WIDTH && forall i :: 0 <= i < WIDTH ==> w[i] == if i < known then PaddedAt(s, c + i) else 0
  }

  /** l is what the stream holds from bit k on. */
  ghost predicate Ahead(l: seq<bit>, s: seq<bit>, k: nat) { forall i :: 0 <= i < |l| ==> l[i] == PaddedAt(s, k + i) }

  lemma SliceAhead(s: seq<bit>, k: nat, n: nat)
    requires k + 8 * n <= |s|
    ensures Ahead(s[k..k + 8 * n], s, k)
  {
  }

  lemma SliceOfSlice<T>(s: seq<T>, a: nat, b: nat, i: nat, j: nat)
    requires a <= b <= |s| && i <= j <= b - a
    ensures s[a..b][i..j] == s[a + i..a + j]
  {
    var u, v := s[a..b][i..j], s[a + i..a + j];
    assert |u| == |v|;
    assert forall k :: 0 <= k < |u| ==> u[k] == v[k];
  }

  /** OR-ing in the next bits over bits already there changes nothing that was right. */
  lemma OrWindow(w: word64, s: seq<bit>, c: nat, known: nat, av: nat, l: seq<bit>)
    requires Window(w, s, c, known) && av <= known && av <= WIDTH && |l| <= WIDTH
    requires Ahead(l, s, c + av)
    ensures var top := if av + |l| < WIDTH then av + |l| else WIDTH;
            Window(Or(w, ToEnd(Holding(l, WIDTH), av)), s, c, if known < top then top else known)
  {
    var y := ToEnd(Holding(l, WIDTH), av);
    forall i | 0 <= i < WIDTH
      ensures y[i] == if av <= i < av + |l| then PaddedAt(s, c + i) else 0
    {
      if av <= i < av + |l| {
        assert y[i] == l[i - av];
      }
    }
  }

  lemma ShrWindow(w: word64, s: seq<bit>, c: nat, known: nat, n: nat)
    requires Window(w, s, c, known) && n <= known
    ensures Window(ToStart(w, n), s, c + n, known - n)
  {
  }

  /** Where the input has ended, all 64 bits are known. */
  lemma ExhaustedWindow(w: word64, s: seq<bit>, c: nat, known: nat)
    requires Window(w, s, c, known) && c + known >= |s|
    ensures Window(w, s, c, WIDTH)
  {
  }

  /** A register whose window starts with a symbol's code looks up that symbol. */
  lemma LookupSymbol(lookup: seq<Dnode>, w: word64, s: seq<bit>, c: nat, known: nat, lens: seq<byte>, sym: byte,
                     writes: seq<nat>)
    requires Full(lens) && lens[sym] > 0 && Placed(lookup, writes, lens, SYMBOLS)
    requires Window(w, s, c, known) && known >= MAX_BIT_LEN && Reads(s, c, CodeBits(lens, sym))
    ensures Value(w[..MAX_BIT_LEN]) < |lookup|
    ensures lookup[Value(w[..MAX_BIT_LEN])] == Dnode(lens[sym], sym)
  {
    hide CodeVal, Value, LowBits, Owner;
    var n: nat, v := lens[sym], w[..MAX_BIT_LEN];
    Sixteen();
    ValueBound(v);
    WindowOwner(lens, sym, 0);
    assert v[..n] == CodeBits(lens, sym) by {
      forall i | 0 <= i < n ensures v[i] == CodeBits(lens, sym)[i] {
        assert s[c..c + n][i] == s[c + i];
      }
    }
    ValuePrefix(v, n);
    ValueOfLow(CodeVal(lens, sym), n);
    OwnerIs(lens, sym, Value(v));
  }

  /** One stream being decoded: the register, how many of its bits count, and the next byte to load. */
  class Lane {
    const source: seq<byte>
    const start: nat
    const end: nat
    var pos: nat
    var bits: word64
    var bitsAv: nat
    ghost const stream: seq<bit>
    ghost const lens: seq<byte>
    ghost const x: seq<byte>
    ghost const total: nat
    ghost var consumed: nat
    ghost var known: nat
    ghost var p: nat

    ghost predicate Valid()
      reads this
    {
      && start <= pos <= end <= |source| && stream == LowBitsOf(source[start..end])
      && 8 * (pos - start) == consumed + bitsAv
      && bitsAv <= known && bitsAv < WIDTH && Window(bits, stream, consumed, known)
      && Coded(lens, x) && Reads(stream, consumed, StreamBits(lens, x, p))
      && consumed + |StreamBits(lens, x, p)| == total
    }

    /** `from` is the lane's own number; its stream holds the codes of every third byte of x. */
    constructor (source: seq<byte>, start: nat, end: nat, ghost lens: seq<byte>, ghost x: seq<byte>, ghost from: nat)
      requires start <= end <= |source| && Coded(lens, x)
      requires Reads(LowBitsOf(source[start..end]), 0, StreamBits(lens, x, from))
      ensures Valid() && pos == start && p == from && consumed == 0
      ensures this.source == source && this.start == start && this.end == end
      ensures this.lens == lens && this.x == x && total == |StreamBits(lens, x, from)|
    {
      this.source, this.start, this.end, this.lens, this.x := source, start, end, lens, x;
      pos, bits, bitsAv := start, Zeros(WIDTH), 0;
      stream := LowBitsOf(source[start..end]);
      total := |StreamBits(lens, x, from)|;
      consumed, known, p := 0, 0, from;
    }

    lemma Loaded(n: nat)
      requires Valid() && pos + n <= end
      ensures |LowBitsOf(source[pos..pos + n])| == 8 * n && |stream| == 8 * (end - start)
      ensures Ahead(LowBitsOf(source[pos..pos + n]), stream, consumed + bitsAv)
    {
      hide LowBitsOf, Window, Reads, StreamBits, Coded;
      LowBitsOfSlice(source[start..end], pos - start, pos - start + n);
      SliceOfSlice(source, start, end, pos - start, pos - start + n);
      SliceAhead(stream, consumed + bitsAv, n);
    }

    /** RENORM_DEC: bits_av | 56 keeps the lowest three bits of the count, which is below 64. */
    method Renorm()
      requires Valid() && pos + ARCH_SIZE <= end
      modifies this`pos, this`bits, this`bitsAv, this`known
      ensures Valid() && bitsAv >= 56 && known == WIDTH
      ensures old(pos) <= pos <= old(pos) + 7
    {
      hide LowBitsOf, Window, Reads, StreamBits, Coded, Or, ToEnd, Holding;
      Loaded(ARCH_SIZE);
      OrWindow(bits, stream, consumed, known, bitsAv, LowBitsOf(source[pos..pos + ARCH_SIZE]));
      bits := Or(bits, ToEnd(Holding(LowBitsOf(source[pos..pos + ARCH_SIZE]), WIDTH), bitsAv));
      known := WIDTH;
      pos := pos + (63 - bitsAv) / 8;
      bitsAv := bitsAv % 8 + 56;
    }

    /** The next n bytes, OR-ed in above the bits that count. */
    method Load(n: nat)
      requires Valid() && pos + n <= end && bitsAv + 8 * n < WIDTH
      modifies this`pos, this`bits, this`bitsAv, this`known
      ensures Valid() && pos == old(pos) + n && bitsAv == old(bitsAv) + 8 * n && known >= bitsAv
    {
      hide LowBitsOf, Window, Reads, StreamBits, Coded, Or, ToEnd, Holding;
      Loaded(n);
      OrWindow(bits, stream, consumed, known, bitsAv, LowBitsOf(source[pos..pos + n]));
      bits := Or(bits, ToEnd(Holding(LowBitsOf(source[pos..pos + n]), WIDTH), bitsAv));
      known := if known < bitsAv + 8 * n then bitsAv + 8 * n else known;
      pos := pos + n;
      bitsAv := bitsAv + 8 * n;
    }

    /** RENORM_DEC_END: two bytes, or the last one, or nothing more. */
    method RenormEnd()
      requires Valid()
      modifies this`pos, this`bits, this`bitsAv, this`known
      ensures Valid() && known >= MAX_BIT_LEN
      ensures bitsAv >= MAX_BIT_LEN || pos == end
    {
      hide LowBitsOf, Window, Reads, StreamBits, Coded;
      if bitsAv < MAX_BIT_LEN {
        var dist := end - pos;
        if dist > 1 {
          Load(2);
        } else if dist > 0 {
          Load(1);
        }
        if pos == end {
          Loaded(0);
          ExhaustedWindow(bits, stream, consumed, known);
          known := WIDTH;
        }
      }
    }

    /** The code of the next byte of x leaves the register. */
    method Drop(bl: nat)
      requires Valid() && p < |x| && bl == lens[x[p]] as int && bl <= bitsAv && bl <= WIDTH
      modifies this`bits, this`bitsAv, this`known, this`consumed, this`p
      ensures Valid() && bitsAv == old(bitsAv) - bl && known == old(known) - bl && p == old(p) + NUM_STREAMS
    {
      hide LowBitsOf, Window, Reads, CodeBits, StreamBits, ToStart;
      CodeNext(stream, consumed, lens, x, p);
      ShrWindow(bits, stream, consumed, known, bl);
      bits := ToStart(bits, bl);
      bitsAv := bitsAv - bl;
      consumed, known, p := consumed + bl, known - bl, p + NUM_STREAMS;
    }

    /** PREFIX_DEC: the next byte of x. */
    method Decode(lookup: array<Dnode>, ghost writes: seq<nat>) returns (sym: byte)
      requires Valid() && p < |x| && known >= MAX_BIT_LEN && (bitsAv >= MAX_BIT_LEN || pos == end)
      requires Placed(lookup[..], writes, lens, SYMBOLS)
      modifies this`bits, this`bitsAv, this`known, this`consumed, this`p
      ensures Valid() && sym == x[old(p)] && p == old(p) + NUM_STREAMS
      ensures bitsAv + MAX_BIT_LEN >= old(bitsAv) && known + MAX_BIT_LEN >= old(known)
    {
      hide LowBitsOf, Window, Reads, CodeBits, StreamBits, Placed, Value;
      Loaded(0);
      CodeNext(stream, consumed, lens, x, p);
      LookupSymbol(lookup[..], bits, stream, consumed, known, lens, x[p], writes);
      var code := Value(bits[..MAX_BIT_LEN]);
      sym := lookup[code].sym;
      Drop(lookup[code].len);
    }
  }

  lemma CodeNext(s: seq<bit>, c: nat, lens: seq<byte>, x: seq<byte>, p: nat)
    requires Coded(lens, x) && p < |x| && Reads(s, c, StreamBits(lens, x, p))
    ensures Reads(s, c, CodeBits(lens, x[p])) && c + lens[x[p]] as int <= |s|
    ensures Reads(s, c + lens[x[p]] as int, StreamBits(lens, x, p + NUM_STREAMS))
    ensures |StreamBits(lens, x, p)| == lens[x[p]] as int + |StreamBits(lens, x, p + NUM_STREAMS)|
  {
    hide Reads, CodeBits;
    ReadsParts(s, c, CodeBits(lens, x[p]), StreamBits(lens, x, p + NUM_STREAMS));
    ReadsInside(s, c, CodeBits(lens, x[p]));
  }

  // ---------------------------------------------------------------- three lanes

  lemma {:induction false} CodesAtMost(lens: seq<byte>, x: seq<byte>, p: nat)
    requires Lens(lens)
    ensures |StreamBits(lens, x, p)| <= MAX_BIT_LEN * (if p >= |x| then 0 else (|x| - p + 2) / NUM_STREAMS)
    decreases |x| - p
  {
    hide CodeBits;
    if p < |x| {
      CodesAtMost(lens, x, p + NUM_STREAMS);
    }
  }

  /** Sixteen bytes not yet loaded of a stream that ends with the input hold more than ten codes. */
  lemma StillMany(lane: Lane)
    requires lane.Valid() && lane.pos + UNROLL_NUM * ARCH_SIZE <= lane.end
    requires |lane.stream| <= lane.total + 7
    ensures lane.p + 31 <= |lane.x|
  {
    lane.Loaded(0);
    CodesAtMost(lane.lens, lane.x, lane.p);
  }

  /** The lanes have decoded d bytes between them. */
  ghost predicate Abreast(a: Lane, b: Lane, c: Lane, lens: seq<byte>, x: seq<byte>, d: nat)
    reads a, b, c
  {
    && a.Valid() && b.Valid() && c.Valid()
    && a.lens == b.lens == c.lens == lens && a.x == b.x == c.x == x
    && a.p == d && b.p == d + 1 && c.p == d + 2
    && a != b && a != c && b != c
  }

  /** One symbol from each lane. */
  method DecodeThree(a: Lane, b: Lane, c: Lane, lookup: array<Dnode>, out: array<byte>, at: nat, d: nat,
                     ghost lens: seq<byte>, ghost x: seq<byte>, ghost writes: seq<nat>)
    requires Abreast(a, b, c, lens, x, d) && d + NUM_STREAMS <= |x| && at + |x| <= out.Length
    requires Placed(lookup[..], writes, lens, SYMBOLS) && out[at..at + d] == x[..d]
    requires a.bitsAv >= MAX_BIT_LEN && b.bitsAv >= MAX_BIT_LEN && c.bitsAv >= MAX_BIT_LEN
    modifies out, a`bits, a`bitsAv, a`known, a`consumed, a`p
    modifies b`bits, b`bitsAv, b`known, b`consumed, b`p, c`bits, c`bitsAv, c`known, c`consumed, c`p
    ensures Abreast(a, b, c, lens, x, d + NUM_STREAMS) && out[at..at + d + NUM_STREAMS] == x[..d + NUM_STREAMS]
    ensures a.bitsAv + MAX_BIT_LEN >= old(a.bitsAv) && b.bitsAv + MAX_BIT_LEN >= old(b.bitsAv)
    ensures c.bitsAv + MAX_BIT_LEN >= old(c.bitsAv)
    ensures out[..at] == old(out[..at]) && out[at + |x|..] == old(out[at + |x|..])
  {
    hide Placed, Window, Reads, LowBitsOf, StreamBits, CodeBits, Coded;
    var s := a.Decode(lookup, writes);
    out[at + d] := s;
    s := b.Decode(lookup, writes);
    out[at + d + 1] := s;
    s := c.Decode(lookup, writes);
    out[at + d + 2] := s;
    assert out[at..at + d + 3] == x[..d] + [x[d], x[d + 1], x[d + 2]] == x[..d + 3];
  }

  /** A refill of each register and five symbols from each. */
  method Round(a: Lane, b: Lane, c: Lane, lookup: array<Dnode>, out: array<byte>, at: nat, from: nat,
               ghost lens: seq<byte>, ghost x: seq<byte>, ghost writes: seq<nat>) returns (d: nat)
    requires Abreast(a, b, c, lens, x, from) && from + RENORM_NUM * NUM_STREAMS <= |x| && at + |x| <= out.Length
    requires Placed(lookup[..], writes, lens, SYMBOLS) && out[at..at + from] == x[..from]
    requires a.pos + ARCH_SIZE <= a.end && b.pos + ARCH_SIZE <= b.end && c.pos + ARCH_SIZE <= c.end
    modifies out, a`pos, a`bits, a`bitsAv, a`known, a`consumed, a`p
    modifies b`pos, b`bits, b`bitsAv, b`known, b`consumed, b`p, c`pos, c`bits, c`bitsAv, c`known, c`consumed, c`p
    ensures d == from + RENORM_NUM * NUM_STREAMS && Abreast(a, b, c, lens, x, d) && out[at..at + d] == x[..d]
    ensures a.pos <= old(a.pos) + 7 && b.pos <= old(b.pos) + 7 && c.pos <= old(c.pos) + 7
    ensures out[..at] == old(out[..at]) && out[at + |x|..] == old(out[at + |x|..])
  {
    hide Placed, Window, Reads, LowBitsOf, StreamBits, CodeBits, Coded, Lane.Valid;
    a.Renorm();
    b.Renorm();
    c.Renorm();
    d := from;
    var k := 0;
    while k < RENORM_NUM
      invariant k <= RENORM_NUM && d == from + NUM_STREAMS * k
      invariant Abreast(a, b, c, lens, x, d) && out[at..at + d] == x[..d]
      invariant a.bitsAv >= 56 - MAX_BIT_LEN * k && b.bitsAv >= 56 - MAX_BIT_LEN * k && c.bitsAv >= 56 - MAX_BIT_LEN * k
      invariant out[..at] == old(out[..at]) && out[at + |x|..] == old(out[at + |x|..])
      modifies out, a`bits, a`bitsAv, a`known, a`consumed, a`p
      modifies b`bits, b`bitsAv, b`known, b`consumed, b`p, c`bits, c`bitsAv, c`known, c`consumed, c`p
    {
      DecodeThree(a, b, c, lookup, out, at, d, lens, x, writes);
      d := d + NUM_STREAMS;
      k := k + 1;
    }
  }

  /** The last symbols: every register topped up as far as the input goes, one symbol at a time. */
  method Finish(a: Lane, b: Lane, c: Lane, lookup: array<Dnode>, out: array<byte>, at: nat, from: nat, size: nat,
                ghost lens: seq<byte>, ghost x: seq<byte>, ghost writes: seq<nat>)
    requires |x| == size && Abreast(a, b, c, lens, x, from) && from <= size && at + size <= out.Length
    requires Placed(lookup[..], writes, lens, SYMBOLS) && out[at..at + from] == x[..from]
    modifies out, a, b, c
    ensures out[at..at + size] == x
    ensures out[..at] == old(out[..at]) && out[at + size..] == old(out[at + size..])
  {
    hide Placed, Window, Reads, LowBitsOf, StreamBits, CodeBits, Coded, Lane.Valid;
    var d := from;
    while true
      invariant d <= size && Abreast(a, b, c, lens, x, d) && out[at..at + d] == x[..d]
      invariant out[..at] == old(out[..at]) && out[at + size..] == old(out[at + size..])
      decreases size - d
      modifies out, a`pos, a`bits, a`bitsAv, a`known, a`consumed, a`p
      modifies b`pos, b`bits, b`bitsAv, b`known, b`consumed, b`p, c`pos, c`bits, c`bitsAv, c`known, c`consumed, c`p
    {
      a.RenormEnd();
      b.RenormEnd();
      c.RenormEnd();
      if d >= size {
        break;
      }
      d := DecodeOne(a, lookup, out, at, d, size, lens, x, writes);
      if d >= size {
        break;
      }
      d := DecodeOne(b, lookup, out, at, d, size, lens, x, writes);
      if d >= size {
        break;
      }
      d := DecodeOne(c, lookup, out, at, d, size, lens, x, writes);
    }
    assert x[..size] == x;
  }

  method DecodeOne(a: Lane, lookup: array<Dnode>, out: array<byte>, at: nat, from: nat, size: nat,
                   ghost lens: seq<byte>, ghost x: seq<byte>, ghost writes: seq<nat>) returns (d: nat)
    requires a.Valid() && a.lens == lens && a.x == x && a.p == from < size == |x| && at + size <= out.Length
    requires a.known >= MAX_BIT_LEN && (a.bitsAv >= MAX_BIT_LEN || a.pos == a.end)
    requires Placed(lookup[..], writes, lens, SYMBOLS) && out[at..at + from] == x[..from]
    modifies out, a`bits, a`bitsAv, a`known, a`consumed, a`p
    ensures a.Valid() && a.p == from + NUM_STREAMS && d == from + 1 && out[at..at + d] == x[..d]
    ensures out[..at] == old(out[..at]) && out[at + size..] == old(out[at + size..])
  {
    hide Placed, Window, Reads, LowBitsOf, StreamBits, CodeBits, Coded;
    var s := a.Decode(lookup, writes);
    out[at + from] := s;
    d := from + 1;
    assert out[at..at + d] == x[..from] + [x[from]] == x[..d];
  }

  // ---------------------------------------------------------------- a whole block

  function Short(s: seq<byte>, i: nat): (r: nat)
    requires i + 2 <= |s|
  {
    s[i] as int + 256 * s[i + 1] as int
  }

  /** source[from..end]: two stream sizes, then three streams. */
  ghost predicate Streams(source: seq<byte>, from: nat, end: nat, lens: seq<byte>, x: seq<byte>) {
    && from + HEADER_SIZE <= end <= |source| && Coded(lens, x)
    && var start := from + HEADER_SIZE;
       var second := start + Short(source, from);
       var third := second + Short(source, from + 2);
       third <= end
       && Stream(source[start..second], StreamBits(lens, x, 0))
       && Stream(source[second..third], StreamBits(lens, x, 1))
       && Stream(source[third..end], StreamBits(lens, x, 2))
  }

  /** A stream with anything after it still reads as its codes. */
  lemma StreamReads(source: seq<byte>, start: nat, stop: nat, end: nat, s: seq<bit>)
    requires start <= stop <= end <= |source| && Stream(source[start..stop], s)
    ensures Reads(LowBitsOf(source[start..end]), 0, s)
    ensures stop == end ==> |LowBitsOf(source[start..end])| <= |s| + 7
  {
    hide LowBitsOf;
    LowBitsOfParts(source[start..stop], source[stop..end]);
    assert source[start..end] == source[start..stop] + source[stop..end];
    var a := LowBitsOf(source[start..stop]);
    assert LowBitsOf(source[start..end])[0..|s|] == a[..|s|];
  }

  /** prefix_codes_decode */
  method PrefixCodesDecode(out: array<byte>, at: nat, size: nat, source: seq<byte>, from: nat, end: nat,
                           lookup: array<Dnode>, ghost lens: seq<byte>, ghost x: seq<byte>, ghost writes: seq<nat>)
    returns (ok: bool)
    requires |x| == size && at + size <= out.Length && Streams(source, from, end, lens, x)
    requires Placed(lookup[..], writes, lens, SYMBOLS)
    modifies out
    ensures ok && out[at..at + size] == x
    ensures out[..at] == old(out[..at]) && out[at + size..] == old(out[at + size..])
  {
    hide Placed, Window, Reads, LowBitsOf, StreamBits, CodeBits, Lane.Valid;
    ok := from + HEADER_SIZE <= end;
    if ok {
      var other := from + HEADER_SIZE;
      var second := other + Short(source, from);
      var third := second + Short(source, from + 2);
      StreamReads(source, other, second, end, StreamBits(lens, x, 0));
      StreamReads(source, second, third, end, StreamBits(lens, x, 1));
      StreamReads(source, third, end, end, StreamBits(lens, x, 2));
      var a := new Lane(source, other, end, lens, x, 0);
      var b := new Lane(source, second, end, lens, x, 1);
      var c := new Lane(source, third, end, lens, x, 2);
      var d := FastLoop(a, b, c, lookup, out, at, size, lens, x, writes);
      Finish(a, b, c, lookup, out, at, d, size, lens, x, writes);
    }
  }

  /** The twice unrolled loop: no lane reads past the input and no byte is written past the block. */
  method FastLoop(a: Lane, b: Lane, c: Lane, lookup: array<Dnode>, out: array<byte>, at: nat, size: nat,
                  ghost lens: seq<byte>, ghost x: seq<byte>, ghost writes: seq<nat>) returns (d: nat)
    requires |x| == size && Abreast(a, b, c, lens, x, 0) && at + size <= out.Length
    requires Placed(lookup[..], writes, lens, SYMBOLS) && |c.stream| <= c.total + 7
    modifies out, a, b, c
    ensures d <= size && Abreast(a, b, c, lens, x, d) && out[at..at + d] == x[..d]
    ensures out[..at] == old(out[..at]) && out[at + size..] == old(out[at + size..])
  {
    hide Placed, Window, Reads, LowBitsOf, StreamBits, CodeBits, Coded;
    var step := RENORM_NUM * NUM_STREAMS;
    var destEnd := size - size % step;
    d := 0;
    while d < destEnd && a.pos + UNROLL_NUM * ARCH_SIZE <= a.end
          && b.pos + UNROLL_NUM * ARCH_SIZE <= b.end && c.pos + UNROLL_NUM * ARCH_SIZE <= c.end
      invariant d <= size && Abreast(a, b, c, lens, x, d) && out[at..at + d] == x[..d]
      invariant out[..at] == old(out[..at]) && out[at + size..] == old(out[at + size..])
      decreases size - d
    {
      StillMany(c);
      d := Round(a, b, c, lookup, out, at, d, lens, x, writes);
      d := Round(a, b, c, lookup, out, at, d, lens, x, writes);
    }
  }
}
