/** The delayed-carry range coder of fpaq0p_sh on values. */
module FpaqShSpec {
  import opened Arith
  import opened Bytes
  import opened ByteWindow
  import opened Carry

  // ---------------------------------------------------------------- prediction

  /** Bits of the byte so far behind a leading 1, and a 15-bit probability of a 0 for each. */
  datatype Model = Model(cxt: nat, p: seq<nat>)

  ghost predicate ModelOk(m: Model)
  {
    |m.p| == 255 && 1 <= m.cxt < 512 && forall k :: 0 <= k < 255 ==> 1 <= m.p[k] < 32768
  }

  function InitialModel(): (m: Model)
    ensures ModelOk(m) && m.cxt < 256
  {
    Model(1, seq(255, _ => 16384))
  }

  function Update(m: Model, y: bit): (r: Model)
    requires ModelOk(m) && m.cxt < 256
    ensures ModelOk(r) && r.cxt == 2 * m.cxt + y
  {
    var v := m.p[m.cxt - 1];
    var v' := if y == 1 then v - v / 32 else v + (32768 - v) / 32;
    Model(2 * m.cxt + y, m.p[m.cxt - 1 := v'])
  }

  /** A byte is complete: the next bit starts from the empty context. */
  function NextByte(m: Model): (r: Model)
    requires ModelOk(m)
    ensures ModelOk(r) && r.cxt < 256
  {
    if m.cxt >= 256 then m.(cxt := 1) else m
  }

  function Step(m: Model, y: bit): (r: Model)
    requires ModelOk(m) && m.cxt < 256
    ensures ModelOk(r) && r.cxt < 256
  {
    NextByte(Update(m, y))
  }

  // ---------------------------------------------------------------- one bit

  /** The part of the range that codes a 0. */
  function ZeroPart(m: Model, range: nat): (r: nat)
    requires ModelOk(m) && m.cxt < 256 && range >= TOP
    ensures 0 < r < range
  {
    var f, q := m.p[m.cxt - 1], range / 32768;
    MulMono(1, f, q);
    MulMono(f, 32767, q);
    assert f * q == q * f;
    q * f
  }

  function Offset(m: Model, range: nat, y: bit): (x: nat)
    requires ModelOk(m) && m.cxt < 256 && range >= TOP
  {
    if y == 1 then ZeroPart(m, range) else 0
  }

  function Size(m: Model, range: nat, y: bit): (r: nat)
    requires ModelOk(m) && m.cxt < 256 && range >= TOP
    ensures r > 0 && Offset(m, range, y) + r <= range
  {
    if y == 1 then range - ZeroPart(m, range) else ZeroPart(m, range)
  }

  ghost predicate Ready(i: Interval) { TOP <= i.range && i.low < WORD && i.low + i.range <= 2 * WORD }

  function NarrowBit(i: Interval, m: Model, y: bit): (r: Interval)
    requires Ready(i) && ModelOk(m) && m.cxt < 256
    ensures Ready(r)
  {
    NarrowRoom(i, Offset(m, i.range, y), Size(m, i.range, y));
    Narrow(i, Offset(m, i.range, y), Size(m, i.range, y))
  }

  // ---------------------------------------------------------------- the code of a bit string

  /** What must follow from interval i on: the bits, the final low, and whatever comes after. */
  function Ideal(i: Interval, m: Model, bits: seq<bit>, trail: seq<byte>): (t: Tail)
    requires Ready(i) && ModelOk(m) && m.cxt < 256
    ensures Within(i, t)
    decreases |bits|
  {
    if bits == [] then
      LowBytesWindow(i.low, trail);
      Tail(0, LowBytes(i.low) + trail)
    else
      var t := Ideal(NarrowBit(i, m, bits[0]), Step(m, bits[0]), bits[1..], trail);
      NarrowBack(i, Offset(m, i.range, bits[0]), Size(m, i.range, bits[0]), t);
      Widen(i, Offset(m, i.range, bits[0]), Size(m, i.range, bits[0]), t)
  }

  // ---------------------------------------------------------------- decoder

  function DecodeBit(r: Reader, m: Model): (d: bit)
    requires r.range >= TOP && ModelOk(m) && m.cxt < 256
  {
    if r.value >= ZeroPart(m, r.range) then 1 else 0
  }

  function AfterBit(r: Reader, m: Model): (r': Reader)
    requires r.range >= TOP && ModelOk(m) && m.cxt < 256
    ensures r'.range >= TOP
  {
    var y := DecodeBit(r, m);
    Refill(Reader(r.value - Offset(m, r.range, y), Size(m, r.range, y), r.src))
  }

  datatype Decoded = Decoded(bits: seq<bit>, reader: Reader, m: Model)

  function DecodeBits(r: Reader, m: Model, n: nat): (d: Decoded)
    requires r.range >= TOP && ModelOk(m) && m.cxt < 256
    ensures |d.bits| == n && d.reader.range >= TOP && ModelOk(d.m) && d.m.cxt < 256
    decreases n
  {
    if n == 0 then Decoded([], r, m) else
      var y := DecodeBit(r, m);
      var d := DecodeBits(AfterBit(r, m), Step(m, y), n - 1);
      d.(bits := [y] + d.bits)
  }

  /** The reader that stands at the start of the tail of interval i. */
  ghost function ReaderAt(i: Interval, t: Tail): (r: Reader)
    requires Within(i, t)
  {
    Reader(Value(t) - i.low, i.range, Beyond(t.bytes))
  }

  /** From the ideal code of some bits the decoder reads those bits and leaves the rest untouched. */
  lemma {:induction false} IdealDecodes(i: Interval, m: Model, bits: seq<bit>, trail: seq<byte>)
    requires Ready(i) && ModelOk(m) && m.cxt < 256
    ensures var d := DecodeBits(ReaderAt(i, Ideal(i, m, bits, trail)), m, |bits|);
            d.bits == bits && d.reader.src == trail
    decreases |bits|
  {
    hide Window, Beyond, Widen, Narrow, Refill;
    if bits == [] {
      LowBytesWindow(i.low, trail);
    } else {
      var y := bits[0];
      var t := Ideal(NarrowBit(i, m, y), Step(m, y), bits[1..], trail);
      NarrowBack(i, Offset(m, i.range, y), Size(m, i.range, y), t);
      var r := ReaderAt(i, Ideal(i, m, bits, trail));
      assert DecodeBit(r, m) == y;
      assert AfterBit(r, m) == ReaderAt(NarrowBit(i, m, y), t);
      IdealDecodes(NarrowBit(i, m, y), Step(m, y), bits[1..], trail);
    }
  }

  // ---------------------------------------------------------------- encoder

  /** The bytes out, the last of them still open to a carry, the interval and the model. */
  datatype Sent = Sent(out: seq<byte>, i: Interval, m: Model)

  function Forward(b: seq<byte>, i: Interval, m: Model, bits: seq<bit>): (s: Sent)
    requires Ready(i) && Room(b, i) && ModelOk(m) && m.cxt < 256
    ensures Ready(s.i) && Room(s.out, s.i) && ModelOk(s.m) && s.m.cxt < 256
    decreases |bits|
  {
    if bits == [] then Sent(b, i, m) else
      var x, r := Offset(m, i.range, bits[0]), Size(m, i.range, bits[0]);
      ForwardRoom(b, i, m, bits[0]);
      Forward(EmitNarrow(b, i, x, r), NarrowBit(i, m, bits[0]), Step(m, bits[0]), bits[1..])
  }

  lemma ForwardRoom(b: seq<byte>, i: Interval, m: Model, y: bit)
    requires Ready(i) && Room(b, i) && ModelOk(m) && m.cxt < 256
    ensures Room(EmitNarrow(b, i, Offset(m, i.range, y), Size(m, i.range, y)), NarrowBit(i, m, y))
  {
    var j := NarrowBit(i, m, y);
    LowBytesWindow(j.low, []);
    EmitNarrowTotal(b, i, Offset(m, i.range, y), Size(m, i.range, y), Tail(0, LowBytes(j.low) + []));
  }

  lemma {:induction false} ForwardSplit(b: seq<byte>, i: Interval, m: Model, bits: seq<bit>, more: seq<bit>)
    requires Ready(i) && Room(b, i) && ModelOk(m) && m.cxt < 256
    ensures var s := Forward(b, i, m, bits);
            Forward(b, i, m, bits + more) == Forward(s.out, s.i, s.m, more)
    decreases |bits|
  {
    hide EmitNarrow, NarrowBit, Step;
    if bits == [] {
      assert bits + more == more;
    } else {
      ForwardRoom(b, i, m, bits[0]);
      assert (bits + more)[1..] == bits[1..] + more;
      ForwardSplit(EmitNarrow(b, i, Offset(m, i.range, bits[0]), Size(m, i.range, bits[0])),
                   NarrowBit(i, m, bits[0]), Step(m, bits[0]), bits[1..], more);
    }
  }

  /** What the encoder sends, finished with its low, is the ideal code behind the bytes already out. */
  lemma {:induction false} ForwardIdeal(b: seq<byte>, i: Interval, m: Model, bits: seq<bit>, trail: seq<byte>)
    requires Ready(i) && Room(b, i) && ModelOk(m) && m.cxt < 256
    ensures Ideal(i, m, bits, trail).carry == 0 || CanCarry(b)
    ensures var s := Forward(b, i, m, bits);
            s.out + LowBytes(s.i.low) + trail == Total(b, Ideal(i, m, bits, trail))
    decreases |bits|
  {
    hide Window, EmitNarrow, Widen, Narrow, LowBytes;
    if bits == [] {
      assert b + LowBytes(i.low) + trail == b + (LowBytes(i.low) + trail);
    } else {
      var y := bits[0];
      var x, r := Offset(m, i.range, y), Size(m, i.range, y);
      var t := Ideal(NarrowBit(i, m, y), Step(m, y), bits[1..], trail);
      EmitNarrowTotal(b, i, x, r, t);
      ForwardIdeal(EmitNarrow(b, i, x, r), NarrowBit(i, m, y), Step(m, y), bits[1..], trail);
    }
  }

  // ---------------------------------------------------------------- files

  function Whole(): (i: Interval)
    ensures Ready(i)
  {
    Interval(0, WORD - 1)
  }

  /** rcshc: the empty cache byte, the code, and the four bytes of the final low. */
  function Compress(f: seq<byte>): (g: seq<byte>)
  {
    var s := Forward([0], Whole(), InitialModel(), BitsOf(f));
    s.out + LowBytes(s.i.low)
  }

  /** The decoder's start: the first of five bytes is shifted out of the 32-bit code again. */
  function Opened(g: seq<byte>): (r: Reader)
    ensures r.range >= TOP
  {
    Reader(Window(Rest(g)), WORD - 1, Beyond(Rest(g)))
  }

  /** The context after the bits, cut to a byte. */
  function Symbol(bits: seq<bit>): (c: byte) { Fold(1, bits) % 256 }

  function DecodeByte(r: Reader, m: Model): (d: Decoded)
    requires r.range >= TOP && ModelOk(m) && m.cxt < 256
    ensures d.reader.range >= TOP && ModelOk(d.m) && d.m.cxt < 256
  {
    DecodeBits(r, m, 8)
  }

  datatype Unpacked = Unpacked(f: seq<byte>, src: seq<byte>)

  function DecodeBytes(r: Reader, m: Model, n: nat): (u: Unpacked)
    requires r.range >= TOP && ModelOk(m) && m.cxt < 256
    decreases n
  {
    if n == 0 then Unpacked([], r.src) else
      var d := DecodeByte(r, m);
      var u := DecodeBytes(d.reader, d.m, n - 1);
      u.(f := [Symbol(d.bits)] + u.f)
  }

  /** rcshd, with the input it leaves unread. */
  function Decompress(g: seq<byte>, n: nat): (u: Unpacked)
  {
    DecodeBytes(Opened(g), InitialModel(), n)
  }

  lemma NothingDecoded(r: Reader, m: Model)
    requires r.range >= TOP && ModelOk(m) && m.cxt < 256
    ensures DecodeBytes(r, m, 0).f == []
  {
  }

  lemma NextByteDecoded(r: Reader, m: Model, n: nat)
    requires r.range >= TOP && ModelOk(m) && m.cxt < 256
    ensures var d := DecodeByte(r, m);
            DecodeBytes(r, m, n + 1).f == [Symbol(d.bits)] + DecodeBytes(d.reader, d.m, n).f
  {
    hide DecodeByte, Symbol;
  }

  lemma {:induction false} DecodeBitsSplit(r: Reader, m: Model, a: nat, b: nat)
    requires r.range >= TOP && ModelOk(m) && m.cxt < 256
    ensures var d := DecodeBits(r, m, a);
            var e := DecodeBits(d.reader, d.m, b);
            DecodeBits(r, m, a + b) == e.(bits := d.bits + e.bits)
    decreases a
  {
    hide DecodeBit, AfterBit, Step;
    if a > 0 {
      var y := DecodeBit(r, m);
      DecodeBitsSplit(AfterBit(r, m), Step(m, y), a - 1, b);
      var d := DecodeBits(AfterBit(r, m), Step(m, y), a - 1);
      var e := DecodeBits(d.reader, d.m, b);
      assert [y] + (d.bits + e.bits) == [y] + d.bits + e.bits;
    } else {
      var e := DecodeBits(r, m, b);
      assert [] + e.bits == e.bits;
    }
  }

  lemma {:induction false} DecodeBytesOfBits(r: Reader, m: Model, f: seq<byte>)
    requires r.range >= TOP && ModelOk(m) && m.cxt < 256
    requires DecodeBits(r, m, 8 * |f|).bits == BitsOf(f)
    ensures DecodeBytes(r, m, |f|) == Unpacked(f, DecodeBits(r, m, 8 * |f|).reader.src)
    decreases |f|
  {
    hide DecodeBits, Fold;
    if f != [] {
      var k := 8 * |f[1..]|;
      DecodeBitsSplit(r, m, 8, k);
      var d := DecodeBits(r, m, 8);
      var e := DecodeBits(d.reader, d.m, k);
      assert d.bits + e.bits == ByteBits(f[0]) + BitsOf(f[1..]);
      assert d.bits == (d.bits + e.bits)[..8] == ByteBits(f[0]);
      assert e.bits == (d.bits + e.bits)[8..] == BitsOf(f[1..]);
      FoldByte(f[0]);
      DecodeBytesOfBits(d.reader, d.m, f[1..]);
      assert f == [f[0]] + f[1..];
    } else {
      DecodeNothing(r, m);
    }
  }

  lemma DecodeNothing(r: Reader, m: Model)
    requires r.range >= TOP && ModelOk(m) && m.cxt < 256
    ensures DecodeBits(r, m, 0) == Decoded([], r, m)
  {
  }

  /** rcshd inverts rcshc on every file and reads exactly the bytes rcshc wrote. */
  lemma RoundTrip(f: seq<byte>, trail: seq<byte>)
    ensures Decompress(Compress(f) + trail, |f|) == Unpacked(f, trail)
  {
    hide Forward, Ideal, DecodeBits, DecodeBytes, BitsOf, Window, Beyond;
    var i, m, bits := Whole(), InitialModel(), BitsOf(f);
    var t := Ideal(i, m, bits, trail);
    ForwardIdeal([0], i, m, bits, trail);
    IdealDecodes(i, m, bits, trail);
    assert Rest(Compress(f) + trail) == t.bytes;
    assert Opened(Compress(f) + trail) == ReaderAt(i, t);
    DecodeBytesOfBits(ReaderAt(i, t), m, f);
  }

  // ---------------------------------------------------------------- length

  /** Bytes shifted out while coding the bits. */
  function AllShifts(i: Interval, m: Model, bits: seq<bit>): (n: nat)
    requires Ready(i) && ModelOk(m) && m.cxt < 256
    decreases |bits|
  {
    if bits == [] then 0
    else Shifts(Size(m, i.range, bits[0])) + AllShifts(NarrowBit(i, m, bits[0]), Step(m, bits[0]), bits[1..])
  }

  lemma {:induction false} EmitLength(b: seq<byte>, i: Interval)
    requires i.range > 0 && i.low < WORD
    ensures |Emit(b, i)| == |b| + Shifts(i.range)
    decreases TOP - i.range
  {
    if i.range < TOP {
      EmitLength(b + [i.low / TOP], Shift(i));
    }
  }

  lemma {:induction false} ForwardLength(b: seq<byte>, i: Interval, m: Model, bits: seq<bit>)
    requires Ready(i) && Room(b, i) && ModelOk(m) && m.cxt < 256
    ensures |Forward(b, i, m, bits).out| == |b| + AllShifts(i, m, bits)
    decreases |bits|
  {
    hide Emit, Shifts, Settle, Step;
    if bits != [] {
      var y := bits[0];
      var x, r := Offset(m, i.range, y), Size(m, i.range, y);
      EmitLength(Carried(b, (i.low + x) / WORD), Interval((i.low + x) % WORD, r));
      ForwardRoom(b, i, m, y);
      ForwardLength(EmitNarrow(b, i, x, r), NarrowBit(i, m, y), Step(m, y), bits[1..]);
    }
  }

  /** The output is five bytes and one for every shift. */
  lemma CompressLength(f: seq<byte>)
    ensures |Compress(f)| == 5 + AllShifts(Whole(), InitialModel(), BitsOf(f))
  {
    ForwardLength([0], Whole(), InitialModel(), BitsOf(f));
  }
}
