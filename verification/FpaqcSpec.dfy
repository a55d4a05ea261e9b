/** The asymmetric binary coder of fpaqc on values: state arithmetic, blocks and the bit decoder. */
module FpaqcSpec {
  import opened Arith
  import opened Bytes

  // Bits per block, and the renormalised range [LOW, HIGH) of the coder state.
  const BLOCK := 0x80000
  const LOW := 0x1000
  const HIGH := 0x100000

  // ---------------------------------------------------------------- prediction

  /** Context of the last 0 to 8 bits behind a leading 1, and a 16-bit probability for each. */
  datatype Model = Model(cxt: nat, t: seq<nat>)

  ghost predicate ModelOk(m: Model) {
    && |m.t| == 512 && 1 <= m.cxt < 512
    && forall i :: 0 <= i < 512 ==> m.t[i] < 65536
  }

  /** The 12-bit probability of a 1, moved off zero. */
  function Probability(m: Model): (q: nat)
    requires ModelOk(m)
    ensures 1 <= q <= 4095
  {
    var p := m.t[m.cxt] / 16;
    if p < 2048 then p + 1 else p
  }

  function Update(m: Model, y: bit): (r: Model)
    requires ModelOk(m)
    ensures ModelOk(r)
  {
    var v := m.t[m.cxt];
    var v' := if y == 1 then v + (65536 - v) / 32 else v - v / 32;
    var c := 2 * m.cxt + y;
    Model(if c >= 512 then 1 else c, m.t[m.cxt := v'])
  }

  function InitialModel(): (m: Model)
    ensures ModelOk(m)
  {
    Model(1, seq(512, _ => 32768))
  }

  // ---------------------------------------------------------------- one bit

  /** A bit and the probability it was predicted with. */
  datatype Item = Item(q: nat, d: bit)

  ghost predicate ItemOk(it: Item) { 1 <= it.q <= 4095 }

  /** The state that codes bit it.d on top of state w: floor(w/q) or ceil((w+1)/(1-q)) - 1. */
  function CodeWord(it: Item, w: nat): (x: nat)
    requires ItemOk(it)
  {
    if it.d == 1 then w * 4096 / it.q else ((w + 1) * 4096 - 1) / (4096 - it.q)
  }

  /** Bit and previous state held by state x under probability q. */
  function DecodeWord(x: nat, q: nat): (r: (bit, int))
    requires x > 0 && 1 <= q <= 4095
  {
    MulMono(1, x, q);
    var y := x * q - 1;
    var xq := y / 4096 + 1;
    if y % 4096 + q >= 4096 then (1, xq) else (0, x - xq)
  }

  lemma DecodeInvertsOne(q: nat, w: nat)
    requires 1 <= q <= 4095 && w * 4096 / q > 0
    ensures DecodeWord(w * 4096 / q, q) == (1, w)
  {
    var x := w * 4096 / q;
    MulMono(1, x, q);
    DivModUnique(x * q - 1, 4096, w - 1, x * q - 1 - (w - 1) * 4096);
  }

  lemma DecodeInvertsZero(q: nat, w: nat)
    requires 1 <= q <= 4095
    ensures ((w + 1) * 4096 - 1) / (4096 - q) > 0
    ensures DecodeWord(((w + 1) * 4096 - 1) / (4096 - q), q) == (0, w)
  {
    var p := 4096 - q;
    var a := (w + 1) * 4096 - 1;
    var x := a / p;
    assert a == x * p + a % p;
    DivAtLeast(a, p, 1);
    MulMono(1, x, q);
    Distrib(4096, p, x);
    assert x * q == 4096 * x - x * p;
    DivModUnique(x * q - 1, 4096, x - w - 1, x * q - 1 - (x - w - 1) * 4096);
  }

  /** Decoding a state gives back the bit and the state it was coded on. */
  lemma DecodeInverts(it: Item, w: nat)
    requires ItemOk(it) && CodeWord(it, w) > 0
    ensures DecodeWord(CodeWord(it, w), it.q) == (it.d, w)
  {
    if it.d == 1 {
      DecodeInvertsOne(it.q, w);
    } else {
      DecodeInvertsZero(it.q, w);
    }
  }

  lemma GrowsOne(w: nat, q: nat)
    requires 1 <= q <= 4095
    ensures w >= LOW ==> w * 4096 / q >= LOW
    ensures w == 0 ==> w * 4096 / q < LOW
    ensures w * 4096 / q >= HIGH ==> (w / 256) * 4096 / q >= LOW
  {
    DivAtLeast(w * 4096, q, LOW);
    if w * 4096 / q >= HIGH {
      DivAtLeast(w * 4096, q, HIGH);
      OneByteLess(w, q);
    }
  }

  lemma OneByteLess(w: nat, q: nat)
    requires 1 <= q <= 4095 && w * 4096 >= HIGH * q
    ensures (w / 256) * 4096 / q >= LOW
  {
    DivAtLeast((w / 256) * 4096, q, LOW);
  }

  lemma GrowsZero(w: nat, p: nat)
    requires 1 <= p <= 4095
    ensures w >= LOW ==> ((w + 1) * 4096 - 1) / p >= LOW
    ensures w == 0 ==> ((w + 1) * 4096 - 1) / p < LOW
    ensures ((w + 1) * 4096 - 1) / p >= HIGH ==> ((w / 256 + 1) * 4096 - 1) / p >= LOW
  {
    DivAtLeast((w + 1) * 4096 - 1, p, LOW);
    DivAtLeast((w + 1) * 4096 - 1, p, HIGH);
    DivAtLeast((w / 256 + 1) * 4096 - 1, p, LOW);
  }

  lemma CodeWordGrows(it: Item, w: nat)
    requires ItemOk(it)
    ensures w >= LOW ==> CodeWord(it, w) >= LOW
    ensures w == 0 ==> CodeWord(it, w) < LOW
    ensures CodeWord(it, w) >= HIGH ==> CodeWord(it, w / 256) >= LOW
  {
    if it.d == 1 {
      GrowsOne(w, it.q);
    } else {
      GrowsZero(w, 4096 - it.q);
    }
  }

  // ---------------------------------------------------------------- renormalisation

  /** Bytes shifted out of w, in output order, until coding it keeps the state below HIGH. */
  function Push(it: Item, w: nat): (r: (nat, seq<byte>))
    requires ItemOk(it)
    ensures r.0 < HIGH
    decreases w
  {
    if CodeWord(it, w) < HIGH then (CodeWord(it, w), []) else
      CodeWordGrows(it, w);
      var (x, bs) := Push(it, w / 256);
      (x, bs + [w % 256])
  }

  /** Bytes shifted into a decoded state until it is at least LOW; None when they run out. */
  function Refill(v: nat, src: seq<byte>): (r: Option<(nat, seq<byte>)>)
    ensures r.Some? ==> r.value.0 >= LOW && |r.value.1| <= |src|
    decreases |src|
  {
    if v >= LOW then Some((v, src))
    else if src == [] then None
    else Refill(v * 256 + src[0], src[1..])
  }

  /** A byte shifted out is shifted in again. */
  lemma RefillStep(w: nat, rest: seq<byte>)
    requires w / 256 < LOW
    ensures Refill(w / 256, [w % 256] + rest) == Refill(w, rest)
  {
    assert ([w % 256] + rest)[1..] == rest;
  }

  /** The decoder recovers the bit and reads back exactly the bytes shifted out. */
  lemma {:induction false} PushDecodes(it: Item, w: nat, rest: seq<byte>)
    requires ItemOk(it) && LOW <= CodeWord(it, w) && w < HIGH
    ensures var (x, bs) := Push(it, w);
            && LOW <= x < HIGH
            && DecodeWord(x, it.q).0 == it.d && DecodeWord(x, it.q).1 >= 0
            && Refill(DecodeWord(x, it.q).1, bs + rest) == Refill(w, rest)
    decreases w
  {
    if CodeWord(it, w) < HIGH {
      DecodeInverts(it, w);
      assert [] + rest == rest;
    } else {
      hide CodeWord, DecodeWord, Refill;
      CodeWordGrows(it, w);
      RefillStep(w, rest);
      PushStep(it, w);
      hide Push;
      PushDecodes(it, w / 256, [w % 256] + rest);
      Regroup(Push(it, w / 256).1, [w % 256], rest);
    }
  }

  lemma PushStep(it: Item, w: nat)
    requires ItemOk(it) && CodeWord(it, w) >= HIGH && w < HIGH
    ensures Push(it, w) == (Push(it, w / 256).0, Push(it, w / 256).1 + [w % 256])
  {
    hide CodeWord;
  }

  // ---------------------------------------------------------------- blocks

  ghost predicate ItemsOk(items: seq<Item>) { forall i :: 0 <= i < |items| ==> ItemOk(items[i]) }

  /** State and byte stack after coding the items from last to first. */
  function Flush(items: seq<Item>): (r: (nat, seq<byte>))
    requires ItemsOk(items)
    ensures r.0 < HIGH
  {
    if items == [] then (LOW, []) else
      var (w, stack) := Flush(items[1..]);
      var (x, bs) := Push(items[0], w);
      (x, bs + stack)
  }

  lemma {:induction false} FlushInRange(items: seq<Item>)
    requires ItemsOk(items)
    ensures LOW <= Flush(items).0 < HIGH
  {
    if items != [] {
      FlushInRange(items[1..]);
      var w := Flush(items[1..]).0;
      CodeWordGrows(items[0], w);
      PushDecodes(items[0], w, []);
    }
  }

  /** A block: the final state, big-endian in three bytes, and the byte stack. */
  function Block(items: seq<Item>): (r: seq<byte>)
    requires ItemsOk(items)
  {
    var (w, stack) := Flush(items);
    [w / 65536, w / 256 % 256, w % 256] + stack
  }

  /** Blocks of BLOCK items each, the last one shorter; nothing for no items. */
  function Blocks(items: seq<Item>): (r: seq<byte>)
    requires ItemsOk(items)
  {
    if items == [] then []
    else if |items| <= BLOCK then Block(items)
    else Block(items[..BLOCK]) + Blocks(items[BLOCK..])
  }

  /** Every bit with the probability the model gives it. */
  function Items(m: Model, bits: seq<bit>): (items: seq<Item>)
    requires ModelOk(m)
    ensures |items| == |bits| && ItemsOk(items)
    decreases |bits|
  {
    if bits == [] then [] else [Item(Probability(m), bits[0])] + Items(Update(m, bits[0]), bits[1..])
  }

  // ---------------------------------------------------------------- decoder

  /** n counts down the bits left in the block, plus one. */
  datatype Decoder = Decoder(x: nat, n: nat, src: seq<byte>, m: Model)

  ghost predicate DecoderOk(s: Decoder) { ModelOk(s.m) && s.n >= 1 && LOW <= s.x < HIGH }

  ghost predicate Shorter(s: Decoder, s0: Decoder) {
    |s.src| < |s0.src| || (|s.src| == |s0.src| && s.n < s0.n)
  }

  /** The block header is read when the count runs out; None is the archive error. */
  function NextBlock(s: Decoder): (r: Option<Decoder>)
    requires DecoderOk(s)
    ensures r.Some? ==> DecoderOk(r.value) && Shorter(r.value, s) && r.value.m == s.m
  {
    if s.n > 1 then Some(s.(n := s.n - 1))
    else if s.x != LOW || |s.src| < 3 then None
    else
      var x := (s.src[0] as int) * 65536 + (s.src[1] as int) * 256 + s.src[2];
      if x < LOW || x >= HIGH then None else Some(Decoder(x, BLOCK, s.src[3..], s.m))
  }

  lemma DecodeWordBelow(x: nat, q: nat)
    requires LOW <= x < HIGH && 1 <= q <= 4095
    ensures 0 < DecodeWord(x, q).1 < HIGH
  {
    MulMono(1, x, q);
    MulMono(q, 4095, x);
    assert q * x == x * q;
  }

  function DecodeBit(s: Decoder): (r: Option<(Decoder, bit)>)
    requires DecoderOk(s)
    ensures r.Some? ==> DecoderOk(r.value.0) && Shorter(r.value.0, s)
  {
    match NextBlock(s)
    case None => None
    case Some(s1) =>
      var q := Probability(s1.m);
      var (d, v) := DecodeWord(s1.x, q);
      DecodeWordBelow(s1.x, q);
      match Refill(v, s1.src)
      case None => None
      case Some((x, src)) =>
        RefillBelow(v, s1.src);
        Some((Decoder(x, s1.n, src, Update(s1.m, d)), d))
  }

  lemma RefillBelow(v: nat, src: seq<byte>)
    requires v < HIGH
    ensures Refill(v, src).Some? ==> Refill(v, src).value.0 < HIGH
    decreases |src|
  {
    if v < LOW && src != [] {
      RefillBelow(v * 256 + src[0], src[1..]);
    }
  }

  /** State and input hold the code of the first n of the items, then the blocks of the others. */
  ghost predicate Holds(x: nat, n: nat, src: seq<byte>, items: seq<Item>)
    requires ItemsOk(items)
  {
    var r := if n < |items| then n else |items|;
    x == Flush(items[..r]).0 && src == Flush(items[..r]).1 + Blocks(items[r..])
  }

  /** The decoder stands before the code of these bits. */
  ghost predicate Tracks(s: Decoder, bits: seq<bit>)
  {
    DecoderOk(s) && Holds(s.x, s.n - 1, s.src, Items(s.m, bits))
  }

  lemma BlocksFirst(items: seq<Item>) returns (k: nat)
    requires ItemsOk(items) && items != []
    ensures k == if BLOCK < |items| then BLOCK else |items|
    ensures ItemsOk(items[..k]) && ItemsOk(items[k..])
    ensures Blocks(items) == Block(items[..k]) + Blocks(items[k..])
  {
    k := if BLOCK < |items| then BLOCK else |items|;
    if k == |items| {
      assert items[..k] == items && items[k..] == [];
    }
  }

  lemma HeaderReads(s: Decoder, items: seq<Item>, more: seq<byte>)
    requires DecoderOk(s) && s.n == 1 && s.x == LOW && ItemsOk(items)
    requires s.src == Block(items) + more
    ensures NextBlock(s) == Some(Decoder(Flush(items).0, BLOCK, Flush(items).1 + more, s.m))
  {
    hide Flush;
    FlushInRange(items);
    var (w, stack) := Flush(items);
    assert Block(items) == [w / 65536, w / 256 % 256, w % 256] + stack;
    assert s.src[3..] == stack + more;
  }

  lemma NextBlockHolds(s: Decoder, bits: seq<bit>)
    requires Tracks(s, bits) && bits != []
    ensures NextBlock(s).Some?
    ensures Holds(NextBlock(s).value.x, NextBlock(s).value.n, NextBlock(s).value.src, Items(s.m, bits))
  {
    if s.n == 1 {
      var items := Items(s.m, bits);
      assert items[..0] == [] && items[0..] == items;
      var k := BlocksFirst(items);
      HeaderReads(s, items[..k], Blocks(items[k..]));
    }
  }

  lemma FirstItemDecodes(x: nat, n: nat, src: seq<byte>, items: seq<Item>)
    requires ItemsOk(items) && items != [] && n >= 1 && Holds(x, n, src, items)
    ensures LOW <= x < HIGH
    ensures var (d, v) := DecodeWord(x, items[0].q);
            && d == items[0].d && v >= 0 && Refill(v, src).Some?
            && Holds(Refill(v, src).value.0, n - 1, Refill(v, src).value.1, items[1..])
  {
    hide CodeWord, DecodeWord, Blocks;
    var r := if n < |items| then n else |items|;
    assert items[..r][1..] == items[1..][..r - 1] && items[1..][r - 1..] == items[r..];
    var (w, stack) := Flush(items[1..][..r - 1]);
    var (x, bs) := Push(items[0], w);
    FlushInRange(items[1..][..r - 1]);
    CodeWordGrows(items[0], w);
    var rest := stack + Blocks(items[r..]);
    assert Refill(w, rest) == Some((w, rest));
    hide Refill;
    assert src == bs + rest;
    PushDecodes(items[0], w, rest);
  }

  lemma DecodeBitTracks(s: Decoder, bits: seq<bit>)
    requires Tracks(s, bits) && bits != []
    ensures DecodeBit(s).Some? && DecodeBit(s).value.1 == bits[0]
    ensures Tracks(DecodeBit(s).value.0, bits[1..])
  {
    NextBlockHolds(s, bits);
    var s1 := NextBlock(s).value;
    FirstItemDecodes(s1.x, s1.n, s1.src, Items(s.m, bits));
  }

  // ---------------------------------------------------------------- files

  /** Each byte as a 0 and its eight bits, then a 1. */
  function FileBits(f: seq<byte>): (bits: seq<bit>)
  {
    if f == [] then [1] else [0] + ByteBits(f[0]) + FileBits(f[1..])
  }

  function Compress(f: seq<byte>): (g: seq<byte>)
  {
    Blocks(Items(InitialModel(), FileBits(f)))
  }

  function DecodeSymbol(s: Decoder, c: nat): (r: Option<(Decoder, byte)>)
    requires DecoderOk(s) && 1 <= c < 512
    ensures r.Some? ==> DecoderOk(r.value.0) && (r.value.0 == s || Shorter(r.value.0, s))
    decreases 512 - c
  {
    if c >= 256 then Some((s, c - 256)) else
      match DecodeBit(s)
      case None => None
      case Some((s', d)) => DecodeSymbol(s', 2 * c + d)
  }

  /** The decoded bytes and the decoder after the closing 1. */
  function DecodeFile(s: Decoder): (r: Option<(seq<byte>, Decoder)>)
    requires DecoderOk(s)
    decreases |s.src|, s.n
  {
    match DecodeBit(s)
    case None => None
    case Some((s1, d)) =>
      if d == 1 then Some(([], s1)) else
        match DecodeSymbol(s1, 1)
        case None => None
        case Some((s2, c)) =>
          match DecodeFile(s2)
          case None => None
          case Some((f, s3)) => Some(([c] + f, s3))
  }

  function Start(g: seq<byte>): (s: Decoder)
    ensures DecoderOk(s)
  {
    Decoder(LOW, 1, g, InitialModel())
  }

  /** Decoding from s yields exactly these bits and stops in e. */
  ghost predicate Yields(s: Decoder, bits: seq<bit>, e: Decoder)
    requires DecoderOk(s)
    decreases |bits|
  {
    if bits == [] then s == e else
      match DecodeBit(s)
      case None => false
      case Some((t, d)) => d == bits[0] && Yields(t, bits[1..], e)
  }

  lemma {:induction false} TracksYields(s: Decoder, bits: seq<bit>) returns (e: Decoder)
    requires Tracks(s, bits)
    ensures Yields(s, bits, e) && Tracks(e, [])
    decreases |bits|
  {
    if bits == [] {
      e := s;
    } else {
      DecodeBitTracks(s, bits);
      e := TracksYields(DecodeBit(s).value.0, bits[1..]);
    }
  }

  lemma {:induction false} YieldsSplit(s: Decoder, bits: seq<bit>, more: seq<bit>, e: Decoder) returns (t: Decoder)
    requires DecoderOk(s) && Yields(s, bits + more, e)
    ensures DecoderOk(t) && Yields(s, bits, t) && Yields(t, more, e)
    decreases |bits|
  {
    if bits == [] {
      assert bits + more == more;
      t := s;
    } else {
      assert (bits + more)[1..] == bits[1..] + more;
      t := YieldsSplit(DecodeBit(s).value.0, bits[1..], more, e);
    }
  }

  lemma {:induction false} DecodeSymbolYields(s: Decoder, c: nat, bits: seq<bit>, e: Decoder)
    requires DecoderOk(s) && Yields(s, bits, e) && 1 <= c < 512 && Depth(c) + |bits| == 8
    ensures 256 <= Fold(c, bits) < 512 && DecodeSymbol(s, c) == Some((e, Fold(c, bits) - 256))
    decreases |bits|
  {
    hide DecodeBit;
    DepthEight(c);
    if bits != [] {
      DepthStep(c, bits[0]);
      DecodeSymbolYields(DecodeBit(s).value.0, 2 * c + bits[0], bits[1..], e);
    }
  }

  /** From a decoder that yields a file's bits, the file comes out. */
  lemma {:induction false} DecodeFileYields(s: Decoder, f: seq<byte>, e: Decoder)
    requires DecoderOk(s) && Yields(s, FileBits(f), e)
    ensures DecodeFile(s) == Some((f, e))
    decreases |f|
  {
    hide DecodeBit, DecodeSymbol;
    if f == [] {
      assert FileBits(f)[1..] == [];
    } else {
      var s1 := DecodeBit(s).value.0;
      assert FileBits(f)[1..] == ByteBits(f[0]) + FileBits(f[1..]);
      var s2 := YieldsSplit(s1, ByteBits(f[0]), FileBits(f[1..]), e);
      FoldByte(f[0]);
      DecodeSymbolYields(s1, 1, ByteBits(f[0]), s2);
      DecodeFileYields(s2, f[1..], e);
      assert f == [f[0]] + f[1..];
    }
  }

  lemma TracksEnd(s: Decoder)
    requires Tracks(s, [])
    ensures s.x == LOW && s.src == []
  {
    assert Items(s.m, []) == [];
    assert Items(s.m, [])[..0] == [] && Items(s.m, [])[0..] == [];
  }

  lemma StartTracks(bits: seq<bit>)
    requires bits != []
    ensures Tracks(Start(Blocks(Items(InitialModel(), bits))), bits)
  {
    var items := Items(InitialModel(), bits);
    assert items[..0] == [] && items[0..] == items;
  }

  /** absd inverts absc for every file, ends in the base state and reads every byte. */
  lemma RoundTrip(f: seq<byte>)
    ensures DecodeFile(Start(Compress(f))).Some?
    ensures DecodeFile(Start(Compress(f))).value.0 == f
    ensures DecodeFile(Start(Compress(f))).value.1.x == LOW
    ensures DecodeFile(Start(Compress(f))).value.1.src == []
  {
    StartTracks(FileBits(f));
    var e := TracksYields(Start(Compress(f)), FileBits(f));
    DecodeFileYields(Start(Compress(f)), f, e);
    TracksEnd(e);
  }
}
