/** fpaq0p_sh as it runs: a cached byte and a count of 0xFF bytes stand for the output a carry can still change. */
module FpaqSh {
  import opened Arith
  import opened Bytes
  import opened ByteWindow
  import opened Carry
  import opened FpaqShSpec

  const THRES := 0xFF00_0000

  function Run(c: byte, n: nat): (r: seq<byte>)
    ensures |r| == n && forall k :: 0 <= k < n ==> r[k] == c
  {
    seq(n, _ => c)
  }

  /** A carry into a cached byte and n 0xFF bytes stops at the cached byte. */
  lemma {:induction false} CarryThroughRun(out: seq<byte>, cache: byte, n: nat)
    requires cache < 255
    ensures CanCarry(out + [cache] + Run(255, n))
    ensures Increment(out + [cache] + Run(255, n)) == out + [cache + 1] + Run(0, n)
  {
    var b := out + [cache] + Run(255, n);
    assert b[|out|] == cache;
    if n == 0 {
      assert b[..|b| - 1] == out;
    } else {
      assert b[..|b| - 1] == out + [cache] + Run(255, n - 1);
      CarryThroughRun(out, cache, n - 1);
      assert Run(0, n) == Run(0, n - 1) + [0];
      assert out + [cache + 1] + Run(0, n - 1) + [0] == out + [cache + 1] + Run(0, n);
    }
  }

  class Predictor {
    var cxt: nat
    const p: array<nat>

    ghost predicate Valid()
      reads this, p
    {
      ModelOk(State())
    }

    ghost function State(): (m: Model)
      reads this, p
    {
      Model(cxt, p[..])
    }

    constructor ()
      ensures Valid() && State() == InitialModel() && fresh(p)
    {
      cxt := 1;
      p := new nat[255];
      new;
      for i := 0 to 255
        invariant cxt == 1 && fresh(p) && p.Length == 255
        invariant forall k :: 0 <= k < i ==> p[k] == 16384
      {
        p[i] := 16384;
      }
      assert p[..] == InitialModel().p;
    }

    method P() returns (f: nat)
      requires Valid() && cxt < 256
      ensures f == p[cxt - 1]
    {
      f := p[cxt - 1];
    }

    /** The finished context; the next byte starts from 1. */
    method Byte() returns (c: nat)
      requires Valid()
      modifies this`cxt
      ensures c == old(cxt) && cxt == 1 && Valid()
    {
      c := cxt;
      cxt := 1;
    }

    method Update(y: nat)
      requires Valid() && cxt < 256
      modifies this`cxt, p
      ensures Valid() && State() == FpaqShSpec.Update(old(State()), if y != 0 then 1 else 0)
    {
      if y != 0 {
        p[cxt - 1] := p[cxt - 1] - p[cxt - 1] / 32;
        cxt := cxt + (cxt + 1);
      } else {
        p[cxt - 1] := p[cxt - 1] + (32768 - p[cxt - 1]) / 32;
        cxt := cxt + cxt;
      }
    }
  }

  // ---------------------------------------------------------------- encoder

  class Encoder {
    var range: nat
    var lowc: nat
    var ffNum: nat
    var cache: byte
    var f: seq<byte>

    /** While low plus r can still pass 2^32, the cached byte has room for the carry. */
    ghost predicate Open(r: nat)
      reads this`lowc, this`cache
    {
      lowc + r < 2 * WORD && (lowc >= WORD || lowc + r > WORD ==> cache < 255)
    }

    ghost predicate Valid()
      reads this
    {
      TOP <= range && Open(range)
    }

    /** The bytes written, cached and pending, without the carry that waits in lowc. */
    ghost function Raw(): (b: seq<byte>)
      reads this`f, this`cache, this`ffNum
    {
      f + [cache] + Run(255, ffNum)
    }

    /** The bytes this state stands for. */
    ghost function Out(): (b: seq<byte>)
      requires Open(0)
      reads this`f, this`cache, this`ffNum, this`lowc
    {
      CarryPossible(0);
      Carried(Raw(), if lowc >= WORD then 1 else 0)
    }

    lemma CarryPossible(r: nat)
      requires Open(r)
      ensures lowc + r > WORD ==> CanCarry(Raw())
      ensures lowc >= WORD ==> CanCarry(Raw())
    {
      if cache < 255 {
        CarryThroughRun(f, cache, ffNum);
      }
    }

    ghost function Low(): (i: Interval)
      reads this
    {
      Interval(lowc % WORD, range)
    }

    constructor ()
      ensures Valid() && Out() == [0] && Low() == Whole()
    {
      range, lowc, ffNum, cache, f := 0xFFFF_FFFF, 0, 0, 0, [];
      new;
      assert [] + [0] + Run(255, 0) == [0];
    }

    /** Writes the cached byte with the carry, and the 0xFF bytes that waited behind it. */
    method FlushCache(carry: nat)
      requires carry <= 1 && cache + carry < 256
      modifies this`f, this`ffNum
      ensures ffNum == 0
      ensures f == old(f) + [cache + carry] + Run((carry + 255) % 256, old(ffNum))
    {
      f := f + [cache + carry];
      ghost var f0, n := f, ffNum;
      var b: byte := (carry + 255) % 256;
      while ffNum != 0
        invariant ffNum <= n && f == f0 + Run(b, n - ffNum)
      {
        f := f + [b];
        ffNum := ffNum - 1;
        assert Run(b, n - ffNum) == Run(b, n - ffNum - 1) + [b];
      }
    }

    /** The top byte of lowc goes out, or waits; lowc moves up. */
    method ShiftLow(ghost r: nat)
      requires Open(r) && r < TOP
      modifies this`lowc, this`ffNum, this`cache, this`f
      ensures Open(r * 256) && lowc == old(lowc) % TOP * 256
      ensures Out() == Raw() == old(Out()) + [old(lowc) % WORD / TOP]
      ensures old(lowc) % WORD < THRES ==> ffNum == 0
    {
      hide Increment, CanCarry;
      var carry, low := lowc / WORD, lowc % WORD;
      if low < THRES || carry != 0 {
        if carry == 1 {
          CarryThroughRun(f, cache, ffNum);
        }
        FlushCache(carry);
        cache := low / TOP;
        assert Raw() == f + [cache];
      } else {
        ffNum := ffNum + 1;
        assert f + [cache] + Run(255, ffNum) == f + [cache] + Run(255, ffNum - 1) + [255];
      }
      lowc := low % TOP * 256;
    }

    /** One shift: the range grows and the top byte of low goes out. */
    method ShiftOut()
      requires 0 < range < TOP && Open(range)
      modifies this
      ensures range == old(range) * 256 && Open(range)
      ensures Out() == old(Out()) + [old(Low()).low / TOP] && Low() == Shift(old(Low()))
    {
      hide Increment, Carried, Run, Raw, Out, CanCarry;
      ghost var r := range;
      ShiftedLow(lowc);
      range := range * 256;
      ShiftLow(r);
    }

    /** Shifts bytes out until the range is at least 2^24 again. */
    method Renormalize()
      requires 0 < range && Open(range)
      modifies this
      ensures Valid()
      ensures Out() == Emit(old(Out()), old(Low())) && Low() == Settle(old(Low()))
    {
      hide Increment, Carried, Run, Raw, Out, Emit, Settle, CanCarry;
      ghost var b, i := Out(), Low();
      while range < TOP
        invariant 0 < range && Open(range)
        invariant Emit(Out(), Low()) == Emit(b, i)
        invariant Settle(Low()) == Settle(i)
        decreases TOP - range
      {
        EmitStep(Out(), Low());
        ShiftOut();
      }
      EmitStep(Out(), Low());
    }

    /** The part of the interval from x on, r long. */
    method Take(x: nat, r: nat)
      requires Valid() && r > 0 && x + r <= range
      modifies this
      ensures Valid()
      ensures Ready(old(Low())) && Room(old(Out()), old(Low()))
      ensures Out() == EmitNarrow(old(Out()), old(Low()), x, r) && Low() == Narrow(old(Low()), x, r)
    {
      hide Increment, Emit, Settle, Run, Raw, Carried, CanCarry;
      CarryPossible(range);
      HasRoom();
      CarryOnce(Raw(), lowc, x);
      lowc := lowc + x;
      range := r;
      CarryPossible(r);
      Renormalize();
    }

    method Process(freq: nat, y: nat, ghost m: Model)
      requires Valid() && ModelOk(m) && m.cxt < 256 && freq == m.p[m.cxt - 1]
      modifies this
      ensures Valid()
      ensures Ready(old(Low())) && Room(old(Out()), old(Low()))
      ensures var d := if y != 0 then 1 else 0;
              var i := old(Low());
              && Out() == EmitNarrow(old(Out()), i, Offset(m, i.range, d), Size(m, i.range, d))
              && Low() == NarrowBit(i, m, d)
    {
      hide EmitNarrow, Narrow, ZeroPart, Raw, Carried;
      ZeroPartIs(m, range);
      var rnew := range / 32768 * freq;
      if y != 0 {
        Take(rnew, range - rnew);
      } else {
        Take(0, rnew);
      }
    }

    /** Five more shifts empty the cache: what is written is the output and the four bytes of low. */
    method Quit()
      requires Valid()
      modifies this`lowc, this`ffNum, this`cache, this`f
      ensures old(lowc) % WORD < WORD && f == old(Out()) + LowBytes(old(lowc) % WORD)
    {
      hide Increment, Carried, Raw, Out, LowBytes, CanCarry;
      ghost var b, low := Out(), LowBytes(lowc % WORD);
      for k := 0 to 5
        invariant Open(0)
        invariant k <= 4 ==> Out() == b + low[..k] && LowBytes(lowc % WORD) == low[k..] + Run(0, k)
        invariant k == 5 ==> f == b + low
      {
        if k < 4 {
          ShiftByte(b, low, k);
        } else {
          ShiftLast(b + low);
        }
      }
    }

    method ShiftByte(ghost b: seq<byte>, ghost low: seq<byte>, ghost k: nat)
      requires Open(0) && k < 4 == |low| && Out() == b + low[..k] && LowBytes(lowc % WORD) == low[k..] + Run(0, k)
      modifies this`lowc, this`ffNum, this`cache, this`f
      ensures Open(0) && Out() == b + low[..k + 1] && LowBytes(lowc % WORD) == low[k + 1..] + Run(0, k + 1)
    {
      hide Increment, Carried, Raw, Out, LowBytes, CanCarry;
      NextLowByte(low, k, lowc % WORD);
      LowWithoutCarry(lowc);
      assert low[..k] + [low[k]] == low[..k + 1];
      Regroup(b, low[..k], [low[k]]);
      ShiftLow(0);
    }

    /** Once low is 0 a shift leaves nothing waiting. */
    method ShiftLast(ghost b: seq<byte>)
      requires Open(0) && Out() == b && LowBytes(lowc % WORD) == Run(0, 4)
      modifies this`lowc, this`ffNum, this`cache, this`f
      ensures Open(0) && f == b
    {
      hide Increment, Carried, Raw, Out, LowBytes, CanCarry;
      LowBytesZero(lowc % WORD);
      ShiftLow(0);
      RawNothingWaits();
      assert f == Raw()[..|Raw()| - 1];
    }

    lemma RawNothingWaits()
      requires ffNum == 0
      ensures Raw() == f + [cache]
    {
    }

    lemma HasRoom()
      requires Valid()
      ensures Room(Out(), Low())
    {
      CarryPossible(range);
    }
  }

  lemma ShiftedLow(lowc: nat)
    ensures lowc % WORD % TOP == lowc % TOP && lowc % TOP * 256 % WORD == lowc % TOP * 256
  {
    ModShift(lowc % WORD, lowc / WORD * 256, TOP);
  }

  lemma LowWithoutCarry(lowc: nat)
    ensures lowc % WORD % TOP == lowc % TOP && lowc % TOP * 256 % WORD == lowc % TOP * 256
  {
    ModShift(lowc, 0 - lowc / WORD * 256, TOP);
    DivModUnique(lowc % TOP * 256, WORD, 0, lowc % TOP * 256);
  }

  /** Shifting low up k times leaves its other bytes on top and zeros below. */
  lemma NextLowByte(low: seq<byte>, k: nat, x: nat)
    requires |low| == 4 && k < 4 && x < WORD && LowBytes(x) == low[k..] + Run(0, k)
    ensures x / TOP == low[k] && x % TOP * 256 < WORD && LowBytes(x % TOP * 256) == low[k + 1..] + Run(0, k + 1)
  {
    LowBytesStep(x);
    hide LowBytes;
    var bs, bs' := LowBytes(x), LowBytes(x % TOP * 256);
    assert bs' == bs[1..] + [0] && bs[0] == x / TOP;
    assert bs[0] == low[k] && bs[1..] == low[k + 1..] + Run(0, k);
    assert Run(0, k) + [0] == Run(0, k + 1);
  }

  /** A carry that waits already and one that comes later are the same carry. */
  lemma CarryOnce(raw: seq<byte>, lowc: nat, x: nat)
    requires lowc + x < 2 * WORD && (lowc + x >= WORD ==> CanCarry(raw))
    ensures Carried(raw, if lowc + x >= WORD then 1 else 0)
         == Carried(Carried(raw, if lowc >= WORD then 1 else 0), if lowc % WORD + x >= WORD then 1 else 0)
    ensures (lowc + x) % WORD == (lowc % WORD + x) % WORD
    ensures (lowc % WORD + x) / WORD == if lowc % WORD + x >= WORD then 1 else 0
  {
  }

  lemma ZeroPartIs(m: Model, range: nat)
    requires ModelOk(m) && m.cxt < 256 && range >= TOP
    ensures ZeroPart(m, range) == range / 32768 * m.p[m.cxt - 1]
  {
  }

  // ---------------------------------------------------------------- decoder

  class Decoder {
    var range: nat
    var code: nat
    var src: seq<byte>

    ghost function State(): (r: Reader)
      reads this
    {
      Reader(code, range, src)
    }

    /** Five bytes are shifted into a code of 32 bits, whatever it held before. */
    constructor (g: seq<byte>, garbage: nat)
      ensures State() == Opened(g)
    {
      range := 0xFFFF_FFFF;
      FourBytesIn((garbage * 256 + Head(g)) % WORD, Head(Rest(g)), Head(Rest(Rest(g))),
                  Head(Rest(Rest(Rest(g)))), Head(Rest(Rest(Rest(Rest(g))))));
      var c, s := garbage, g;
      c, s := (c * 256 + Head(s)) % WORD, Rest(s);
      c, s := (c * 256 + Head(s)) % WORD, Rest(s);
      c, s := (c * 256 + Head(s)) % WORD, Rest(s);
      c, s := (c * 256 + Head(s)) % WORD, Rest(s);
      c, s := (c * 256 + Head(s)) % WORD, Rest(s);
      code, src := c, s;
    }

    method Process(freq: nat, ghost m: Model) returns (d: bit)
      requires range >= TOP && ModelOk(m) && m.cxt < 256 && freq == m.p[m.cxt - 1]
      modifies this
      ensures range >= TOP
      ensures d == DecodeBit(old(State()), m) && State() == AfterBit(old(State()), m)
    {
      hide ZeroPart;
      ZeroPartIs(m, range);
      var rnew := range / 32768 * freq;
      d := if code >= rnew then 1 else 0;
      if d == 1 {
        range := range - rnew;
        code := code - rnew;
      } else {
        range := rnew;
      }
      Renormalize();
    }

    /** Bytes are read until the range is at least 2^24 again. */
    method Renormalize()
      requires range > 0
      modifies this
      ensures range >= TOP && State() == Refill(old(State()))
    {
      hide Refill;
      ghost var r := State();
      while range < TOP
        invariant range > 0 && Refill(State()) == Refill(r)
        decreases TOP - range
      {
        RefillStep(State());
        range := range * 256;
        code := (code * 256 + Head(src)) % WORD;
        src := Rest(src);
      }
      RefillStep(State());
    }
  }

  // ---------------------------------------------------------------- files

  /** Encoder and predictor have processed exactly these bits. */
  ghost predicate Coded(rc: Encoder, p: Predictor, bits: seq<bit>)
    reads rc, p, p.p
  {
    && rc.Valid() && p.Valid()
    && Forward([0], Whole(), InitialModel(), bits) == Sent(rc.Out(), rc.Low(), NextByte(p.State()))
  }

  lemma NothingCoded(rc: Encoder, p: Predictor)
    requires rc.Valid() && p.Valid() && rc.Out() == [0] && rc.Low() == Whole() && p.State() == InitialModel()
    ensures Coded(rc, p, BitsOf([]))
  {
  }

  method EncodeNext(rc: Encoder, p: Predictor, y: nat, ghost bits: seq<bit>)
    requires Coded(rc, p, bits) && p.cxt < 256
    modifies rc, p`cxt, p.p
    ensures Coded(rc, p, bits + [if y != 0 then 1 else 0])
    ensures p.cxt == 2 * old(p.cxt) + if y != 0 then 1 else 0
  {
    hide EmitNarrow, NarrowBit, Forward, Offset, Size;
    ghost var d: bit := if y != 0 then 1 else 0;
    ghost var m := p.State();
    ForwardSplit([0], Whole(), InitialModel(), bits, [d]);
    var f := p.P();
    rc.Process(f, y, m);
    p.Update(y);
    OneBit(Forward([0], Whole(), InitialModel(), bits), d);
  }

  lemma OneBit(s: Sent, d: bit)
    requires Ready(s.i) && Room(s.out, s.i) && ModelOk(s.m) && s.m.cxt < 256
    ensures Forward(s.out, s.i, s.m, [d])
         == Sent(EmitNarrow(s.out, s.i, Offset(s.m, s.i.range, d), Size(s.m, s.i.range, d)),
                 NarrowBit(s.i, s.m, d), Step(s.m, d))
  {
    hide EmitNarrow, NarrowBit;
    ForwardRoom(s.out, s.i, s.m, d);
    assert [d][1..] == [];
  }

  lemma NextOfByte(bits: seq<bit>, c: byte, k: nat)
    requires k < 8
    ensures bits + ByteBits(c)[..k] + [BitAt(c, 7 - k)] == bits + ByteBits(c)[..k + 1]
  {
    assert ByteBits(c)[k] == BitAt(c, 7 - k);
  }

  method EncodeByte(rc: Encoder, p: Predictor, c: byte, ghost bits: seq<bit>)
    requires Coded(rc, p, bits) && (p.cxt == 1 || p.cxt >= 256)
    modifies rc, p`cxt, p.p
    ensures Coded(rc, p, bits + ByteBits(c)) && p.cxt >= 256
  {
    hide Forward, ByteBits;
    var ctx := p.Byte();
    assert bits + ByteBits(c)[..0] == bits;
    // c&0x80, c&0x40, ..., c&0x01
    for j := 8 downto 0
      invariant p.Valid() && Depth(p.cxt) == 8 - j
      invariant Coded(rc, p, bits + ByteBits(c)[..8 - j])
    {
      hide Coded;
      DepthEight(p.cxt);
      DepthStep(p.cxt, BitAt(c, j));
      NextOfByte(bits, c, 7 - j);
      EncodeNext(rc, p, BitAt(c, j), bits + ByteBits(c)[..7 - j]);
    }
    DepthEight(p.cxt);
    assert ByteBits(c)[..8] == ByteBits(c);
  }

  method EncodeByteAt(rc: Encoder, p: Predictor, f: seq<byte>, i: nat)
    requires i < |f| && Coded(rc, p, BitsOf(f[..i])) && (p.cxt == 1 || p.cxt >= 256)
    modifies rc, p`cxt, p.p
    ensures Coded(rc, p, BitsOf(f[..i + 1])) && p.cxt >= 256
  {
    hide BitsOf, Coded;
    EncodeByte(rc, p, f[i], BitsOf(f[..i]));
    BitsOfSnoc(f[..i], f[i]);
    assert f[..i + 1] == f[..i] + [f[i]];
  }

  lemma AllCoded(rc: Encoder, p: Predictor, bits: seq<bit>)
    requires Coded(rc, p, bits)
    ensures rc.Valid() && Forward([0], Whole(), InitialModel(), bits).out == rc.Out()
    ensures Forward([0], Whole(), InitialModel(), bits).i == rc.Low()
  {
  }

  /** rcshc */
  method Compress(f: seq<byte>) returns (g: seq<byte>)
    ensures g == FpaqShSpec.Compress(f)
  {
    hide BitsOf, Forward, Coded;
    var p := new Predictor();
    var rc := new Encoder();
    NothingCoded(rc, p);
    for i := 0 to |f|
      invariant fresh(p) && fresh(p.p) && fresh(rc)
      invariant Coded(rc, p, BitsOf(f[..i])) && (p.cxt == 1 || p.cxt >= 256)
    {
      EncodeByteAt(rc, p, f, i);
    }
    assert f[..|f|] == f;
    AllCoded(rc, p, BitsOf(f));
    rc.Quit();
    g := rc.f;
  }

  method DecodeByte(rc: Decoder, p: Predictor) returns (c: byte)
    requires rc.range >= TOP && p.Valid() && p.cxt == 1
    modifies rc, p`cxt, p.p
    ensures rc.range >= TOP && p.Valid() && p.cxt == 1
    ensures var d := FpaqShSpec.DecodeByte(old(rc.State()), old(p.State()));
            c == Symbol(d.bits) && rc.State() == d.reader && p.State() == d.m
  {
    hide DecodeBit, AfterBit, FpaqShSpec.Update;
    ghost var r, m := rc.State(), p.State();
    ghost var bits: seq<bit> := [];
    assert Fold(1, bits) == 1 && DecodeBits(r, m, 0) == Decoded([], r, m);
    hide Fold, DecodeBits;
    for j := 0 to 8
      invariant rc.range >= TOP && p.Valid() && Depth(p.cxt) == j && |bits| == j
      invariant Fold(1, bits) == p.cxt
      invariant DecodeBits(r, m, j) == Decoded(bits, rc.State(), NextByte(p.State()))
    {
      bits := DecodeNext(rc, p, r, m, bits);
    }
    DepthEight(p.cxt);
    var ctx := p.Byte();
    c := ctx % 256;
  }

  /** One more bit of a byte. */
  method DecodeNext(rc: Decoder, p: Predictor, ghost r: Reader, ghost m: Model, ghost bits: seq<bit>)
    returns (ghost bits': seq<bit>)
    requires rc.range >= TOP && p.Valid() && Depth(p.cxt) == |bits| < 8 && Fold(1, bits) == p.cxt
    requires r.range >= TOP && ModelOk(m) && m.cxt < 256
    requires DecodeBits(r, m, |bits|) == Decoded(bits, rc.State(), NextByte(p.State()))
    modifies rc, p`cxt, p.p
    ensures rc.range >= TOP && p.Valid() && Depth(p.cxt) == |bits'| == |bits| + 1 && Fold(1, bits') == p.cxt
    ensures DecodeBits(r, m, |bits'|) == Decoded(bits', rc.State(), NextByte(p.State()))
  {
    hide DecodeBit, AfterBit, FpaqShSpec.Update, Fold, DecodeBits;
    DepthEight(p.cxt);
    DecodeBitsSplit(r, m, |bits|, 1);
    OneDecoded(rc.State(), p.State());
    var f := p.P();
    ghost var now := p.State();
    var d := rc.Process(f, now);
    p.Update(d);
    FoldSnoc(1, bits, d);
    DepthStep(now.cxt, d);
    bits' := bits + [d];
  }

  lemma OneDecoded(r: Reader, m: Model)
    requires r.range >= TOP && ModelOk(m) && m.cxt < 256
    ensures DecodeBits(r, m, 1) == Decoded([DecodeBit(r, m)], AfterBit(r, m), Step(m, DecodeBit(r, m)))
  {
    assert DecodeBits(AfterBit(r, m), Step(m, DecodeBit(r, m)), 0).bits == [];
  }

  /** rcshd: n bytes decoded from g; on the output of rcshc it returns the file. */
  method Decompress(g: seq<byte>, n: nat, garbage: nat) returns (f: seq<byte>)
    ensures f == FpaqShSpec.Decompress(g, n).f
    ensures forall x, trail :: g == FpaqShSpec.Compress(x) + trail && n == |x| ==> f == x
  {
    hide FpaqShSpec.DecodeByte, FpaqShSpec.Compress, DecodeBytes, FpaqShSpec.Symbol;
    var p := new Predictor();
    var rc := new Decoder(g, garbage);
    f := [];
    for i := 0 to n
      invariant fresh(p) && fresh(p.p) && fresh(rc)
      invariant rc.range >= TOP && p.Valid() && p.cxt == 1
      invariant FpaqShSpec.Decompress(g, n).f == f + DecodeBytes(rc.State(), p.State(), n - i).f
    {
      NextByteDecoded(rc.State(), p.State(), n - i - 1);
      var c := DecodeByte(rc, p);
      f := f + [c];
    }
    NothingDecoded(rc.State(), p.State());
    forall x, trail | g == FpaqShSpec.Compress(x) + trail && n == |x|
      ensures FpaqShSpec.Decompress(g, n).f == x
    {
      RoundTrip(x, trail);
    }
  }
}
