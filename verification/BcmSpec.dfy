/** The binary coder and the context-mixing model of bcm on values. */
module BcmSpec {
  import opened Arith
  import opened Bytes
  import opened ByteWindow

  // ---------------------------------------------------------------- coder

  /** The codes from low to high, both included. */
  datatype Span = Span(low: nat, high: nat)

  ghost predicate SpanOk(s: Span) { s.low <= s.high < WORD }

  /** (low ^ high) >= 2^24: the top bytes differ. */
  predicate Settled(s: Span) { s.low / TOP != s.high / TOP }

  function Shift(s: Span): (r: Span) { Span(s.low % TOP * 256, s.high % TOP * 256 + 255) }

  lemma ShiftOk(s: Span)
    requires SpanOk(s) && !Settled(s)
    ensures SpanOk(Shift(s)) && Shift(s).high - Shift(s).low > s.high - s.low
  {
  }

  function Settle(s: Span): (r: Span)
    requires SpanOk(s)
    ensures SpanOk(r) && Settled(r)
    decreases WORD - (s.high - s.low)
  {
    if Settled(s) then s else
      ShiftOk(s);
      Settle(Shift(s))
  }

  ghost predicate Within(s: Span, t: seq<byte>) { |t| >= 4 && s.low <= Window(t) <= s.high }

  /** The bytes shifted out while settling, in front of t. */
  function Unsettle(s: Span, t: seq<byte>): (u: seq<byte>)
    requires SpanOk(s)
    decreases WORD - (s.high - s.low)
  {
    if Settled(s) then t else
      ShiftOk(s);
      [s.low / TOP] + Unsettle(Shift(s), t)
  }

  /** The decoder's code and the input after the code. */
  datatype Input = Input(code: nat, src: seq<byte>)

  /** code = (code << 8) | getc(): past the end of the input getc gives -1. */
  function ReadByte(c: Input): (r: Input)
  {
    if c.src == [] then Input(WORD - 1, []) else Input(c.code % TOP * 256 + c.src[0], c.src[1..])
  }

  function Read(s: Span, c: Input): (r: Input)
    requires SpanOk(s)
    decreases WORD - (s.high - s.low)
  {
    if Settled(s) then c else
      ShiftOk(s);
      Read(Shift(s), ReadByte(c))
  }

  /** The input whose code is the first four bytes of t. */
  function InputAt(t: seq<byte>): (c: Input)
    requires |t| >= 4
  {
    Input(Window(t), t[4..])
  }

  lemma ReadNext(b: byte, t: seq<byte>)
    requires |t| >= 4
    ensures ReadByte(InputAt([b] + t)) == InputAt(t)
    ensures Window([b] + t) == b as int * TOP + Window(t) / 256
  {
    var u := [b] + t;
    assert Rest(u) == t;
    WindowShift(u);
    assert Beyond(u) == u[4..];
    assert Head(u[4..]) == u[4] && u[4..][1..] == t[4..];
  }

  lemma ShiftBack(s: Span, t: seq<byte>)
    requires SpanOk(s) && !Settled(s) && Within(Shift(s), t)
    ensures Within(s, [s.low / TOP] + t)
  {
    ReadNext(s.low / TOP, t);
  }

  lemma {:induction false} SettleBack(s: Span, t: seq<byte>)
    requires SpanOk(s) && Within(Settle(s), t)
    ensures Within(s, Unsettle(s, t)) && Read(s, InputAt(Unsettle(s, t))) == InputAt(t)
    decreases WORD - (s.high - s.low)
  {
    hide Window, Shift, ReadByte;
    if !Settled(s) {
      ShiftOk(s);
      SettleBack(Shift(s), t);
      ShiftBack(s, Unsettle(Shift(s), t));
      ReadNext(s.low / TOP, Unsettle(Shift(s), t));
    }
  }

  // ---------------------------------------------------------------- model

  /** Counters of order 0, 1 and of the final estimate, the run of equal bytes, two bytes of history, the bits. */
  datatype Cm = Cm(c0: seq<nat>, c1: seq<seq<nat>>, c2: seq<seq<seq<nat>>>, run: nat, last: nat, older: nat, ctx: nat)

  ghost predicate CountersOk(s: seq<nat>, n: nat) { |s| == n && forall k :: 0 <= k < n ==> s[k] < 65536 }

  ghost predicate CmOk(m: Cm)
  {
    && CountersOk(m.c0, 256)
    && |m.c1| == 256 && (forall k :: 0 <= k < 256 ==> CountersOk(m.c1[k], 256))
    && |m.c2| == 2 && (forall f :: 0 <= f < 2 ==> |m.c2[f]| == 256)
    && (forall f, k :: 0 <= f < 2 && 0 <= k < 256 ==> CountersOk(m.c2[f][k], 17))
    && m.last < 256 && m.older < 256 && 1 <= m.ctx < 256
  }

  function Flag(m: Cm): (f: nat)
    ensures f < 2
  {
    if m.run > 2 then 1 else 0
  }

  /** The mix of the order-0 and order-1 counters. */
  function Mixed(m: Cm): (p: nat)
    requires CmOk(m)
    ensures p < 65536
  {
    assert CountersOk(m.c1[m.last], 256) && CountersOk(m.c1[m.older], 256);
    var p0, p1, p2 := m.c0[m.ctx], m.c1[m.last][m.ctx], m.c1[m.older][m.ctx];
    ((p0 + p1) * 7 + p2 + p2) / 16
  }

  /** x1 + ((x2 - x1) * w >> 12), where the shift rounds down. */
  function Interpolated(x1: nat, x2: nat, w: nat): (r: nat)
    requires w < 4096
    ensures x1 <= r <= x2 || x2 <= r <= x1
  {
    InterpolatedBetween(x1, x2, w);
    x1 + (x2 - x1) * w / 4096
  }

  lemma InterpolatedBetween(x1: nat, x2: nat, w: nat)
    requires w < 4096
    ensures x1 <= x1 + (x2 - x1) * w / 4096 <= x2 || x2 <= x1 + (x2 - x1) * w / 4096 <= x1
  {
    if x2 >= x1 {
      MulMono(0, x2 - x1, w);
      MulMono(w, 4096, x2 - x1);
      assert w * (x2 - x1) == (x2 - x1) * w;
    } else {
      MulMono(x2 - x1, 0, w);
      MulMono(w, 4096, x1 - x2);
      assert w * (x1 - x2) == -((x2 - x1) * w);
    }
  }

  /** The interpolated final estimate between counters j and j + 1. */
  function Refined(m: Cm): (p: nat)
    requires CmOk(m)
    ensures p < 65536
  {
    var p := Mixed(m);
    var j := p / 4096;
    assert CountersOk(m.c2[Flag(m)][m.ctx], 17);
    Interpolated(m.c2[Flag(m)][m.ctx][j], m.c2[Flag(m)][m.ctx][j + 1], p % 4096)
  }

  /** The 18-bit probability of a 1. */
  function Probability(m: Cm): (p: nat)
    requires CmOk(m)
    ensures p < 0x4_0000
  {
    Mixed(m) + 3 * Refined(m)
  }

  /** One counter moves towards the bit by a part 2^-rate of the distance. */
  function Moved(p: nat, y: bit, div: nat): (r: nat)
    requires p < 65536 && div > 0
    ensures r < 65536
  {
    MovedBelow(p, div);
    if y == 1 then p + (65535 - p) / div else p - p / div
  }

  lemma MovedBelow(p: nat, div: nat)
    requires p < 65536 && div > 0
    ensures 0 <= p / div <= p && 0 <= (65535 - p) / div <= 65535 - p
  {
    DivAtLeast(p, div, 0);
    DivAtLeast(65535 - p, div, 0);
    MulMono(1, div, p / div);
    MulMono(1, div, (65535 - p) / div);
    assert p / div * div <= p && (65535 - p) / div * div <= 65535 - p;
    assert div * (p / div) == p / div * div && div * ((65535 - p) / div) == (65535 - p) / div * div;
  }

  /** The counters after a bit; the counter of the last byte is the only one of order 1 that moves. */
  function Learn(m: Cm, y: bit): (r: Cm)
    requires CmOk(m)
    ensures r.run == m.run && r.last == m.last && r.older == m.older && r.ctx == 2 * m.ctx + y
  {
    var j := Mixed(m) / 4096;
    var f := Flag(m);
    assert CountersOk(m.c1[m.last], 256) && CountersOk(m.c2[f][m.ctx], 17);
    var order1: seq<nat> := m.c1[m.last][m.ctx := Moved(m.c1[m.last][m.ctx], y, 16)];
    var row := m.c2[f][m.ctx];
    var row': seq<nat> := row[j := Moved(row[j], y, 64)][j + 1 := Moved(row[j + 1], y, 64)];
    m.(c0 := m.c0[m.ctx := Moved(m.c0[m.ctx], y, 4)],
       c1 := m.c1[m.last := order1],
       c2 := m.c2[f := m.c2[f][m.ctx := row']],
       ctx := 2 * m.ctx + y)
  }

  /** A finished byte enters the history and the run. */
  function EndByte(m: Cm): (r: Cm)
  {
    if m.ctx < 256 then m else
      var c := m.ctx - 256;
      m.(older := m.last, last := c, run := if c == m.last then m.run + 1 else 0, ctx := 1)
  }

  function StepCm(m: Cm, y: bit): (r: Cm)
    requires CmOk(m)
    ensures CmOk(r)
  {
    LearnOk(m, y);
    EndByte(Learn(m, y))
  }

  lemma LearnOk(m: Cm, y: bit)
    requires CmOk(m)
    ensures CmOk(EndByte(Learn(m, y)))
  {
    hide Moved, Mixed;
    var r := Learn(m, y);
    forall k | 0 <= k < 256 ensures CountersOk(r.c1[k], 256) {
      assert CountersOk(m.c1[k], 256);
    }
    forall f, k | 0 <= f < 2 && 0 <= k < 256 ensures CountersOk(r.c2[f][k], 17) {
      assert CountersOk(m.c2[f][k], 17);
    }
  }

  function InitialCm(): (m: Cm)
    ensures CmOk(m)
  {
    Cm(seq(256, _ => 0x8000),
       seq(256, _ => seq(256, _ => 0x8000)),
       seq(2, _ => seq(256, _ => seq(17, k requires 0 <= k < 17 => if k == 16 then 65535 else k * 4096))),
       0, 0, 0, 1)
  }

  // ---------------------------------------------------------------- bits

  /** A bit at probability 1/2, or under the model. */
  datatype Event = Even(b: bit) | Modelled(b: bit)

  /** The last code of the part for a 1. */
  function Middle(s: Span, m: Cm, even: bool): (mid: nat)
    requires SpanOk(s) && s.low < s.high && CmOk(m)
    ensures s.low <= mid < s.high
  {
    var d := s.high - s.low;
    var p := Probability(m);
    MulMono(p, 0x3_FFFF, d);
    MulMono(0, p, d);
    assert p * d == d * p;
    s.low + if even then d / 2 else d * p / 0x4_0000
  }

  function Half(s: Span, m: Cm, e: Event): (r: Span)
    requires SpanOk(s) && s.low < s.high && CmOk(m)
    ensures SpanOk(r) && s.low <= r.low && r.high <= s.high
  {
    var mid := Middle(s, m, e.Even?);
    if e.b == 1 then Span(s.low, mid) else Span(mid + 1, s.high)
  }

  function Step(m: Cm, e: Event): (r: Cm)
    requires CmOk(m)
    ensures CmOk(r)
  {
    if e.Even? then m else StepCm(m, e.b)
  }

  ghost predicate Ready(s: Span) { SpanOk(s) && Settled(s) }

  // ---------------------------------------------------------------- codes

  /** The code of the events from span s on: shifted bytes, the final low, then trail. */
  function Code(s: Span, m: Cm, es: seq<Event>, trail: seq<byte>): (t: seq<byte>)
    requires Ready(s) && CmOk(m)
    ensures Within(s, t)
    decreases |es|
  {
    if es == [] then
      LowBytesWindow(s.low, trail);
      LowBytes(s.low) + trail
    else
      var h := Half(s, m, es[0]);
      var t := Code(Settle(h), Step(m, es[0]), es[1..], trail);
      SettleBack(h, t);
      Unsettle(h, t)
  }

  /** Span, input and model of the decoder. */
  datatype Decoder = Decoder(s: Span, c: Input, m: Cm)

  ghost predicate DecoderOk(d: Decoder) { Ready(d.s) && CmOk(d.m) }

  function DecodeEvent(d: Decoder, even: bool): (e: Event)
    requires DecoderOk(d)
    ensures e.Even? == even
  {
    var b := if d.c.code <= Middle(d.s, d.m, even) then 1 else 0;
    if even then Even(b) else Modelled(b)
  }

  function AfterEvent(d: Decoder, e: Event): (r: Decoder)
    requires DecoderOk(d)
    ensures DecoderOk(r)
  {
    var h := Half(d.s, d.m, e);
    Decoder(Settle(h), Read(h, d.c), Step(d.m, e))
  }

  /** Decoding these kinds of events yields es and stops in e. */
  ghost predicate Decodes(d: Decoder, es: seq<Event>, e: Decoder)
    requires DecoderOk(d)
    decreases |es|
  {
    if es == [] then d == e else
      DecodeEvent(d, es[0].Even?) == es[0] && Decodes(AfterEvent(d, es[0]), es[1..], e)
  }

  /** Encoder and decoder models stay in lock step, and every event comes back. */
  lemma {:induction false} CodeDecodes(s: Span, m: Cm, es: seq<Event>, trail: seq<byte>) returns (e: Decoder)
    requires Ready(s) && CmOk(m)
    ensures Decodes(Decoder(s, InputAt(Code(s, m, es, trail)), m), es, e)
    ensures DecoderOk(e) && e.c.src == trail
    decreases |es|
  {
    hide Window, Unsettle, Settle, Read, Step, Middle;
    if es == [] {
      e := Decoder(s, InputAt(Code(s, m, es, trail)), m);
      LowBytesWindow(s.low, trail);
      assert (LowBytes(s.low) + trail)[4..] == trail;
    } else {
      var h := Half(s, m, es[0]);
      var t := Code(Settle(h), Step(m, es[0]), es[1..], trail);
      SettleBack(h, t);
      e := CodeDecodes(Settle(h), Step(m, es[0]), es[1..], trail);
    }
  }

  // ---------------------------------------------------------------- bytes and words

  function ByteEvents(c: byte): (es: seq<Event>)
    ensures |es| == 8
  {
    seq(8, i requires 0 <= i < 8 => Modelled(ByteBits(c)[i]))
  }

  function WordEvents(x: nat): (es: seq<Event>)
    ensures |es| == WORD_BITS
  {
    seq(WORD_BITS, i requires 0 <= i < WORD_BITS => Even(Bits(x, WORD_BITS)[i]))
  }

  function FileEvents(f: seq<byte>): (es: seq<Event>)
  {
    if f == [] then [] else FileEvents(f[..|f| - 1]) + ByteEvents(f[|f| - 1])
  }

  /** A decoder result and the decoder after it. */
  datatype Got = Got(value: nat, d: Decoder)

  /** Get: bits are shifted into a context that starts with 1 until it reaches 256. */
  function GetFrom(d: Decoder, ctx: nat): (g: Got)
    requires DecoderOk(d) && ctx >= 1
    ensures DecoderOk(g.d)
    decreases 256 - ctx
  {
    if ctx >= 256 then Got(ctx - 256, d) else
      var e := DecodeEvent(d, false);
      GetFrom(AfterEvent(d, e), 2 * ctx + e.b)
  }

  function GetByte(d: Decoder): (g: Got)
    requires DecoderOk(d)
    ensures DecoderOk(g.d)
  {
    GetFrom(d, 1)
  }

  /** Get32: n more bits at probability 1/2 shifted into x. */
  function GetWord(d: Decoder, x: nat, n: nat): (g: Got)
    requires DecoderOk(d)
    ensures DecoderOk(g.d)
    decreases n
  {
    if n == 0 then Got(x, d) else
      var e := DecodeEvent(d, true);
      GetWord(AfterEvent(d, e), 2 * x + e.b, n - 1)
  }

  lemma {:induction false} DecodesSplit(d: Decoder, es: seq<Event>, more: seq<Event>, e: Decoder) returns (mid: Decoder)
    requires DecoderOk(d) && Decodes(d, es + more, e)
    ensures DecoderOk(mid) && Decodes(d, es, mid) && Decodes(mid, more, e)
    decreases |es|
  {
    hide DecodeEvent, AfterEvent;
    if es == [] {
      assert es + more == more;
      mid := d;
    } else {
      assert (es + more)[1..] == es[1..] + more;
      mid := DecodesSplit(AfterEvent(d, es[0]), es[1..], more, e);
    }
  }

  lemma {:induction false} GetFromDecodes(d: Decoder, ctx: nat, bits: seq<bit>, es: seq<Event>, e: Decoder)
    requires DecoderOk(d) && Decodes(d, es, e) && ctx >= 1 && Depth(ctx) + |bits| == 8
    requires |es| == |bits| && forall k :: 0 <= k < |bits| ==> es[k] == Modelled(bits[k])
    ensures 256 <= Fold(ctx, bits) && GetFrom(d, ctx) == Got(Fold(ctx, bits) - 256, e)
    decreases |bits|
  {
    hide DecodeEvent, AfterEvent;
    DepthEight(ctx);
    if bits != [] {
      DepthStep(ctx, bits[0]);
      GetFromDecodes(AfterEvent(d, es[0]), 2 * ctx + bits[0], bits[1..], es[1..], e);
    }
  }

  lemma GetByteDecodes(d: Decoder, c: byte, e: Decoder)
    requires DecoderOk(d) && Decodes(d, ByteEvents(c), e)
    ensures GetByte(d) == Got(c, e)
  {
    hide Decodes, DecodeEvent, AfterEvent;
    FoldByte(c);
    GetFromDecodes(d, 1, ByteBits(c), ByteEvents(c), e);
  }

  lemma {:induction false} GetWordDecodes(d: Decoder, x: nat, bits: seq<bit>, es: seq<Event>, e: Decoder)
    requires DecoderOk(d) && Decodes(d, es, e)
    requires |es| == |bits| && forall k :: 0 <= k < |bits| ==> es[k] == Even(bits[k])
    ensures GetWord(d, x, |bits|) == Got(Fold(x, bits), e)
    decreases |bits|
  {
    hide DecodeEvent, AfterEvent;
    if bits != [] {
      GetWordDecodes(AfterEvent(d, es[0]), 2 * x + bits[0], bits[1..], es[1..], e);
    }
  }

  datatype GotFile = GotFile(f: seq<byte>, d: Decoder)

  /** n bytes in turn. */
  function GetFile(d: Decoder, n: nat): (g: GotFile)
    requires DecoderOk(d)
    ensures DecoderOk(g.d) && |g.f| == n
    decreases n
  {
    if n == 0 then GotFile([], d) else
      var g := GetFile(d, n - 1);
      var b := GetByte(g.d);
      GotFile(g.f + [b.value % 256], b.d)
  }

  lemma {:induction false} GetFileDecodes(d: Decoder, f: seq<byte>, e: Decoder)
    requires DecoderOk(d) && Decodes(d, FileEvents(f), e)
    ensures GetFile(d, |f|) == GotFile(f, e)
  {
    hide Decodes, GetByte, ByteEvents;
    if f == [] {
      DecodesNothing(d, e);
    } else {
      var n := |f| - 1;
      var mid := DecodesSplit(d, FileEvents(f[..n]), ByteEvents(f[n]), e);
      GetFileDecodes(d, f[..n], mid);
      GetByteDecodes(mid, f[n], e);
      assert f == f[..n] + [f[n]];
    }
  }

  lemma DecodesNothing(d: Decoder, e: Decoder)
    requires DecoderOk(d) && Decodes(d, [], e)
    ensures d == e
  {
  }

  function Whole(): (s: Span)
    ensures Ready(s)
  {
    Span(0, WORD - 1)
  }

  function Opened(b: seq<byte>): (d: Decoder)
    ensures DecoderOk(d)
  {
    Decoder(Whole(), if |b| >= 4 then InputAt(b) else Input(WORD - 1, []), InitialCm())
  }

  /** bcmenc */
  function Pack(f: seq<byte>): (b: seq<byte>)
  {
    Code(Whole(), InitialCm(), FileEvents(f), [])
  }

  lemma {:induction false} UnsettleAppend(s: Span, t: seq<byte>, trail: seq<byte>)
    requires SpanOk(s)
    ensures Unsettle(s, t + trail) == Unsettle(s, t) + trail
    decreases WORD - (s.high - s.low)
  {
    hide Shift;
    if !Settled(s) {
      ShiftOk(s);
      UnsettleAppend(Shift(s), t, trail);
      Regroup([s.low / TOP], Unsettle(Shift(s), t), trail);
    }
  }

  lemma {:induction false} CodeAppend(s: Span, m: Cm, es: seq<Event>, trail: seq<byte>)
    requires Ready(s) && CmOk(m)
    ensures Code(s, m, es, trail) == Code(s, m, es, []) + trail
    decreases |es|
  {
    hide Unsettle, Step, Settle, Middle;
    if es == [] {
      assert LowBytes(s.low) + [] == LowBytes(s.low);
    } else {
      var h := Half(s, m, es[0]);
      CodeAppend(Settle(h), Step(m, es[0]), es[1..], trail);
      UnsettleAppend(h, Code(Settle(h), Step(m, es[0]), es[1..], []), trail);
    }
  }

  /** Any events come back from their code, and what follows the code is left unread. */
  lemma EventsRoundTrip(es: seq<Event>, trail: seq<byte>) returns (e: Decoder)
    ensures Decodes(Opened(Code(Whole(), InitialCm(), es, []) + trail), es, e)
    ensures DecoderOk(e) && e.c.src == trail
  {
    hide Code, Decodes, Window;
    CodeAppend(Whole(), InitialCm(), es, trail);
    e := CodeDecodes(Whole(), InitialCm(), es, trail);
  }

  /** bcmdec inverts bcmenc on every file and reads exactly the bytes bcmenc wrote. */
  lemma PackRoundTrip(f: seq<byte>, trail: seq<byte>)
    ensures GetFile(Opened(Pack(f) + trail), |f|).f == f
    ensures GetFile(Opened(Pack(f) + trail), |f|).d.c.src == trail
  {
    hide Code, Decodes, GetFile, Opened;
    var e := EventsRoundTrip(FileEvents(f), trail);
    GetFileDecodes(Opened(Pack(f) + trail), f, e);
  }
}
