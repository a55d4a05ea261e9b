/** bcm as it runs: counter tables and coder fields updated in place, and the whole-file functions. */
module Bcm {
  import opened Arith
  import opened Bytes
  import opened ByteWindow
  import opened BcmSpec
  import opened Bwt

  class Counters {
    const counter0: array<nat>
    const counter1: array2<nat>
    const counter2: array3<nat>
    var run: nat
    var c1: nat
    var c2: nat

    ghost predicate Shape()
    {
      counter0.Length == 256 && counter1.Length0 == counter1.Length1 == 256
      && counter2.Length0 == 2 && counter2.Length1 == 256 && counter2.Length2 == 17
    }

    ghost function Order0(): (s: seq<nat>)
      reads counter0
    {
      counter0[..]
    }

    ghost function Order1(): (s: seq<seq<nat>>)
      requires Shape()
      reads counter1
      ensures |s| == 256 && forall i :: 0 <= i < 256 ==> |s[i]| == 256
      ensures forall i, k :: 0 <= i < 256 && 0 <= k < 256 ==> s[i][k] == counter1[i, k]
    {
      seq(256, i requires 0 <= i < 256 reads counter1 =>
        seq(256, k requires 0 <= k < 256 reads counter1 => counter1[i, k]))
    }

    ghost function Finals(): (s: seq<seq<seq<nat>>>)
      requires Shape()
      reads counter2
      ensures |s| == 2 && (forall f :: 0 <= f < 2 ==> |s[f]| == 256)
      ensures forall f, i :: 0 <= f < 2 && 0 <= i < 256 ==> |s[f][i]| == 17
      ensures forall f, i, k :: 0 <= f < 2 && 0 <= i < 256 && 0 <= k < 17 ==> s[f][i][k] == counter2[f, i, k]
    {
      seq(2, f requires 0 <= f < 2 reads counter2 =>
        seq(256, i requires 0 <= i < 256 reads counter2 =>
          seq(17, k requires 0 <= k < 17 reads counter2 => counter2[f, i, k])))
    }

    /** The model with ctx as the bits of the byte in progress. */
    ghost function State(ctx: nat): (m: Cm)
      requires Shape()
      reads this, counter0, counter1, counter2
    {
      Cm(Order0(), Order1(), Finals(), run, c1, c2, ctx)
    }

    constructor ()
      ensures Shape() && State(1) == InitialCm()
      ensures fresh(counter0) && fresh(counter1) && fresh(counter2)
    {
      counter0 := new nat[256](_ => 0x8000);
      counter1 := new nat[256, 256]((_, _) => 0x8000);
      counter2 := new nat[2, 256, 17]((_, _, k) => if k == 16 then 65535 else if 0 <= k < 16 then k * 4096 else 0);
      run, c1, c2 := 0, 0, 0;
      new;
      assert Order0() == InitialCm().c0;
      Equal2(Order1(), InitialCm().c1);
      Equal3(Finals(), InitialCm().c2);
    }

    /** The mixed estimate and its part of the 16. */
    method Mix(ctx: nat) returns (p: nat)
      requires Shape() && CmOk(State(ctx))
      ensures p == Mixed(State(ctx))
    {
      var p0 := counter0[ctx];
      var p1 := counter1[c1, ctx];
      var p2 := counter1[c2, ctx];
      p := ((p0 + p1) * 7 + p2 + p2) / 16;
    }

    /** The 18-bit probability of a 1. */
    method Estimate(ctx: nat) returns (p: nat, j: nat)
      requires Shape() && CmOk(State(ctx))
      ensures p == Probability(State(ctx)) && j == Mixed(State(ctx)) / 4096
    {
      hide Mixed, Interpolated;
      var f := if run > 2 then 1 else 0;
      var mix := Mix(ctx);
      j := mix / 4096;
      var x1 := counter2[f, ctx, j];
      var x2 := counter2[f, ctx, j + 1];
      InterpolatedIs(x1, x2, mix % 4096);
      var ssep: int := x1 + (x2 as int - x1) * (mix % 4096) / 4096;
      p := mix + ssep + ssep + ssep;
    }

    method UpdateHistory(ctx: nat, y: bit)
      requires Shape() && ctx < 256 && c1 < 256 && counter0[ctx] < 65536 && counter1[c1, ctx] < 65536
      modifies counter0, counter1
      ensures Order0() == old(Order0())[ctx := Moved(old(counter0[ctx]), y, 4)]
      ensures var row: seq<nat> := old(Order1())[c1][ctx := Moved(old(counter1[c1, ctx]), y, 16)];
              Order1() == old(Order1())[c1 := row]
    {
      hide Moved;
      ghost var row: seq<nat> := Order1()[c1][ctx := Moved(counter1[c1, ctx], y, 16)];
      ghost var n := Order1()[c1 := row];
      counter0[ctx] := Moved(counter0[ctx], y, 4);
      counter1[c1, ctx] := Moved(counter1[c1, ctx], y, 16);
      Equal2(Order1(), n);
    }

    method UpdateFinal(f: nat, ctx: nat, j: nat, y: bit)
      requires Shape() && f < 2 && ctx < 256 && j < 16
      requires counter2[f, ctx, j] < 65536 && counter2[f, ctx, j + 1] < 65536
      modifies counter2
      ensures var row := old(Finals())[f][ctx];
              var row': seq<nat> := row[j := Moved(row[j], y, 64)][j + 1 := Moved(row[j + 1], y, 64)];
              Finals() == old(Finals())[f := old(Finals())[f][ctx := row']]
    {
      hide Moved;
      ghost var row := Finals()[f][ctx];
      ghost var row': seq<nat> := row[j := Moved(row[j], y, 64)][j + 1 := Moved(row[j + 1], y, 64)];
      ghost var n := Finals()[f := Finals()[f][ctx := row']];
      counter2[f, ctx, j] := Moved(counter2[f, ctx, j], y, 64);
      counter2[f, ctx, j + 1] := Moved(counter2[f, ctx, j + 1], y, 64);
      Equal3(Finals(), n);
    }

    /** Update1 or Update0 on the four counters of this bit. */
    method Update(ctx: nat, j: nat, y: bit)
      requires Shape() && CmOk(State(ctx)) && j == Mixed(State(ctx)) / 4096
      modifies counter0, counter1, counter2
      ensures State(2 * ctx + y) == Learn(old(State(ctx)), y)
    {
      hide Mixed, Moved;
      CountersInRange(State(ctx));
      var f := if run > 2 then 1 else 0;
      UpdateHistory(ctx, y);
      UpdateFinal(f, ctx, j, y);
    }

    /** The finished byte enters the history and the run. */
    method EndOfByte(ctx: nat)
      requires Shape() && 256 <= ctx
      modifies this
      ensures State(1) == EndByte(old(State(ctx)))
    {
      c2 := c1;
      c1 := ctx - 256;
      if c1 == c2 {
        run := run + 1;
      } else {
        run := 0;
      }
    }
  }

  lemma InterpolatedIs(x1: nat, x2: nat, w: nat)
    requires w < 4096
    ensures Interpolated(x1, x2, w) == x1 + (x2 - x1) * w / 4096
  {
  }

  lemma CountersInRange(m: Cm)
    requires CmOk(m)
    ensures m.c0[m.ctx] < 65536 && m.c1[m.last][m.ctx] < 65536
    ensures forall k :: 0 <= k < 17 ==> m.c2[Flag(m)][m.ctx][k] < 65536
  {
    assert CountersOk(m.c1[m.last], 256) && CountersOk(m.c2[Flag(m)][m.ctx], 17);
  }

  lemma Equal2<T>(a: seq<seq<T>>, b: seq<seq<T>>)
    requires |a| == |b| && forall i :: 0 <= i < |a| ==> |a[i]| == |b[i]|
    requires forall i, k :: 0 <= i < |a| && 0 <= k < |a[i]| ==> a[i][k] == b[i][k]
    ensures a == b
  {
    forall i | 0 <= i < |a| ensures a[i] == b[i] {
    }
  }

  lemma Equal3<T>(a: seq<seq<seq<T>>>, b: seq<seq<seq<T>>>)
    requires |a| == |b| && forall f :: 0 <= f < |a| ==> |a[f]| == |b[f]|
    requires forall f, i :: 0 <= f < |a| && 0 <= i < |a[f]| ==> |a[f][i]| == |b[f][i]|
    requires forall f, i, k :: 0 <= f < |a| && 0 <= i < |a[f]| && 0 <= k < |a[f][i]| ==> a[f][i][k] == b[f][i][k]
    ensures a == b
  {
    forall f | 0 <= f < |a| ensures a[f] == b[f] {
      Equal2(a[f], b[f]);
    }
  }

  // ---------------------------------------------------------------- coder

  class Coder {
    var low: nat
    var high: nat
    var code: nat
    var src: seq<byte>
    var out: seq<byte>

    ghost function Range(): (s: Span)
      reads this`low, this`high
    {
      Span(low, high)
    }

    ghost predicate Valid()
      reads this`low, this`high
    {
      BcmSpec.Ready(Range())
    }

    constructor ()
      ensures Valid() && Range() == BcmSpec.Whole() && out == []
    {
      low, high, code, src, out := 0, 0xFFFF_FFFF, 0, [], [];
    }

    /** Flush: the four bytes of low. */
    method Flush()
      requires low < WORD
      modifies this
      ensures out == old(out) + LowBytes(old(low))
    {
      hide LowBytes;
      ghost var b, w := out, LowBytes(low);
      assert w[..4] == w;
      for i := 0 to 4
        invariant low < WORD && out + LowBytes(low)[..4 - i] == b + w
      {
        LowBytesNext(low, 4 - i);
        Regroup(out, [low / TOP], LowBytes(low % TOP * 256)[..3 - i]);
        out := out + [low / TOP];
        low := low % TOP * 256;
      }
      assert out + [] == out;
    }

    /** Init: the first four bytes; an input that is too short reads as -1. */
    method Init(b: seq<byte>)
      modifies this`code, this`src
      ensures Input(code, src) == BcmSpec.Opened(b).c
    {
      if |b| >= 4 {
        assert Rest(b) == b[1..] && Rest(Rest(b)) == b[2..] && Rest(Rest(Rest(b))) == b[3..];
        code := b[0] as int * 0x100_0000 + b[1] as int * 0x1_0000 + b[2] as int * 0x100 + b[3];
        src := b[4..];
      } else {
        code, src := WORD - 1, [];
      }
    }

    method EncodeBit(e: Event, p: nat, div: nat, ghost m: Cm)
      requires Valid() && CmOk(m) && div > 0
      requires Middle(Range(), m, e.Even?) == low + Times(high - low, p) / div
      modifies this`low, this`high, this`out
      ensures Valid() && Range() == Settle(Half(old(Range()), m, e))
      ensures out == old(out) + Unsettle(Half(old(Range()), m, e), [])
    {
      hide Middle, Settle, Unsettle, Times;
      ghost var h := Half(Range(), m, e);
      var mid := low + Times(high - low, p) / div;
      if e.b == 1 {
        high := mid;
      } else {
        low := mid + 1;
      }
      assert Range() == h;
      Normalize();
    }

    /** Bytes that both ends share go out. */
    method Normalize()
      requires SpanOk(Range())
      modifies this`low, this`high, this`out
      ensures Valid() && Range() == Settle(old(Range())) && out == old(out) + Unsettle(old(Range()), [])
    {
      hide Settle, Unsettle;
      ghost var h, b := Range(), out;
      while low / TOP == high / TOP
        invariant SpanOk(Range()) && Settle(Range()) == Settle(h)
        invariant b + Unsettle(h, []) == out + Unsettle(Range(), [])
        decreases WORD - (high - low)
      {
        SettleShift(Range());
        Regroup(out, [low / TOP], Unsettle(Shift(Range()), []));
        out := out + [low / TOP];
        low := low % TOP * 256;
        high := high % TOP * 256 + 255;
      }
      SettleShift(Range());
    }

    method DecodeBit(even: bool, p: nat, div: nat, ghost m: Cm) returns (b: bit)
      requires Valid() && CmOk(m) && div > 0
      requires Middle(Range(), m, even) == low + Times(high - low, p) / div
      modifies this`low, this`high, this`code, this`src
      ensures Valid()
      ensures var d := Decoder(old(Range()), old(Input(code, src)), m);
              var e := DecodeEvent(d, even);
              b == e.b && Decoder(Range(), Input(code, src), Step(m, e)) == AfterEvent(d, e)
    {
      hide Middle, Settle, Read, Step, Times;
      var mid := low + Times(high - low, p) / div;
      b := if code <= mid then 1 else 0;
      if b == 1 {
        high := mid;
      } else {
        low := mid + 1;
      }
      ReadOn();
    }

    /** Reads a byte for every top byte low and high share. */
    method ReadOn()
      requires SpanOk(Range())
      modifies this`low, this`high, this`code, this`src
      ensures Valid() && Range() == Settle(old(Range()))
      ensures Input(code, src) == Read(old(Range()), old(Input(code, src)))
    {
      hide Settle, Read;
      ghost var s, c := Range(), Input(code, src);
      while low / TOP == high / TOP
        invariant SpanOk(Range()) && Settle(Range()) == Settle(s)
        invariant Read(Range(), Input(code, src)) == Read(s, c)
        decreases WORD - (high - low)
      {
        SettleShift(Range());
        ReadShift(Range(), Input(code, src));
        low := low % TOP * 256;
        high := high % TOP * 256 + 255;
        if src == [] {
          code := WORD - 1;
        } else {
          code := code % TOP * 256 + src[0];
          src := src[1..];
        }
      }
      SettleShift(Range());
      ReadShift(Range(), Input(code, src));
    }
  }

  lemma SettleShift(s: Span)
    requires SpanOk(s)
    ensures Settled(s) ==> Settle(s) == s && Unsettle(s, []) == []
    ensures !Settled(s) ==> SpanOk(Shift(s)) && Settle(s) == Settle(Shift(s))
    ensures !Settled(s) ==> Shift(s).high - Shift(s).low > s.high - s.low
    ensures !Settled(s) ==> Unsettle(s, []) == [s.low / TOP] + Unsettle(Shift(s), [])
  {
    if !Settled(s) {
      ShiftOk(s);
    }
  }

  lemma ReadShift(s: Span, c: Input)
    requires SpanOk(s)
    ensures Settled(s) ==> Read(s, c) == c
    ensures !Settled(s) ==> SpanOk(Shift(s)) && Read(s, c) == Read(Shift(s), ReadByte(c))
  {
    if !Settled(s) {
      ShiftOk(s);
    }
  }

  // ---------------------------------------------------------------- bytes and words

  lemma MiddleIs(s: Span, m: Cm)
    requires SpanOk(s) && s.low < s.high && CmOk(m)
    ensures Middle(s, m, true) == s.low + Times(s.high - s.low, 1) / 2
    ensures Middle(s, m, false) == s.low + Times(s.high - s.low, Probability(m)) / 0x4_0000
  {
  }

  /** The output so far, followed by the code of es, is the whole output. */
  ghost predicate Sends(c: Coder, m: Cm, es: seq<Event>, whole: seq<byte>)
    reads c
  {
    c.Valid() && CmOk(m) && whole == c.out + Code(c.Range(), m, es, [])
  }

  lemma SendsStep(out: seq<byte>, s: Span, m: Cm, es: seq<Event>)
    requires BcmSpec.Ready(s) && CmOk(m) && es != []
    ensures var h := Half(s, m, es[0]);
            out + Code(s, m, es, []) == out + Unsettle(h, []) + Code(Settle(h), Step(m, es[0]), es[1..], [])
  {
    CodeNext(s, m, es);
    hide Settle, Unsettle, Step, Middle, Code;
    var h := Half(s, m, es[0]);
    var t := Code(Settle(h), Step(m, es[0]), es[1..], []);
    UnsettleAppend(h, [], t);
    assert [] + t == t;
    Regroup(out, Unsettle(h, []), t);
  }

  lemma CodeNext(s: Span, m: Cm, es: seq<Event>)
    requires BcmSpec.Ready(s) && CmOk(m) && es != []
    ensures var h := Half(s, m, es[0]); Code(s, m, es, []) == Unsettle(h, Code(Settle(h), Step(m, es[0]), es[1..], []))
  {
    hide Settle, Unsettle, Step, Middle;
  }

  lemma NextWordEvent(x: nat, i: nat, rest: seq<Event>)
    requires i < 32
    ensures var es := WordEvents(x)[31 - i..] + rest;
            es[0] == Even(BitAt(x, i)) && es[1..] == WordEvents(x)[32 - i..] + rest
  {
    assert Bits(x, WORD_BITS)[31 - i] == BitAt(x, i);
  }

  /** Put32 */
  method Put32(c: Coder, x: nat, ghost m: Cm, ghost rest: seq<Event>, ghost whole: seq<byte>)
    requires Sends(c, m, WordEvents(x) + rest, whole)
    modifies c
    ensures Sends(c, m, rest, whole)
  {
    hide Code, Settle, Unsettle, Middle, Probability, WordEvents;
    ghost var ws := WordEvents(x);
    assert ws[0..] + rest == ws + rest;
    for i := 32 downto 0
      invariant Sends(c, m, ws[32 - i..] + rest, whole)
    {
      NextWordEvent(x, i, rest);
      SendsStep(c.out, c.Range(), m, ws[31 - i..] + rest);
      MiddleIs(c.Range(), m);
      c.EncodeBit(Even(x / Pow2(i) % 2), 1, 2, m);
    }
    assert ws[32..] + rest == rest;
  }

  /** Get32 */
  method Get32(c: Coder, ghost m: Cm) returns (x: nat)
    requires c.Valid() && CmOk(m)
    modifies c
    ensures c.Valid()
    ensures var g := GetWord(Decoder(old(c.Range()), old(Input(c.code, c.src)), m), 0, WORD_BITS);
            x == g.value && g.d == Decoder(c.Range(), Input(c.code, c.src), m)
  {
    hide Middle, Probability, AfterEvent, DecodeEvent;
    ghost var d := Decoder(c.Range(), Input(c.code, c.src), m);
    x := 0;
    for i := 0 to 32
      invariant c.Valid()
      invariant GetWord(d, 0, WORD_BITS) == GetWord(Decoder(c.Range(), Input(c.code, c.src), m), x, WORD_BITS - i)
    {
      MiddleIs(c.Range(), m);
      ghost var d1 := Decoder(c.Range(), Input(c.code, c.src), m);
      EvenStep(m, DecodeEvent(d1, true));
      var b := c.DecodeBit(true, 1, 2, m);
      x := x + x + b;
    }
  }

  lemma EvenStep(m: Cm, e: Event)
    requires CmOk(m)
    ensures e.Even? ==> Step(m, e) == m
  {
  }

  lemma ByteEventAt(x: byte, i: nat)
    requires i < 8
    ensures ByteEvents(x)[7 - i] == Modelled(BitAt(x, i))
  {
    assert ByteBits(x)[7 - i] == BitAt(x, i);
  }

  lemma ModelledStep(m: Cm, y: bit)
    requires CmOk(m)
    ensures Step(m, Modelled(y)) == EndByte(Learn(m, y)) && CmOk(EndByte(Learn(m, y)))
  {
    LearnOk(m, y);
  }

  lemma UnfinishedByte(m: Cm)
    requires m.ctx < 256
    ensures EndByte(m) == m
  {
  }

  method PutBit(c: Coder, cm: Counters, ctx: nat, y: bit, ghost es: seq<Event>, ghost whole: seq<byte>)
    returns (next: nat)
    requires cm.Shape() && Sends(c, cm.State(ctx), es, whole) && es != [] && es[0] == Modelled(y)
    modifies c, cm.counter0, cm.counter1, cm.counter2
    ensures next == 2 * ctx + y && cm.Shape() && Sends(c, EndByte(cm.State(next)), es[1..], whole)
  {
    hide Code, Learn, EndByte, Settle, Unsettle, Middle, Probability, Mixed;
    ghost var m := cm.State(ctx);
    SendsStep(c.out, c.Range(), m, es);
    MiddleIs(c.Range(), m);
    ModelledStep(m, y);
    var p, j := cm.Estimate(ctx);
    c.EncodeBit(Modelled(y), p, 0x4_0000, m);
    cm.Update(ctx, j, y);
    next := ctx + ctx + y;
  }

  /** Put: eight bits under the model, most significant first. */
  method Put(c: Coder, cm: Counters, x: byte, ghost rest: seq<Event>, ghost whole: seq<byte>)
    requires cm.Shape() && Sends(c, cm.State(1), ByteEvents(x) + rest, whole)
    modifies c, cm, cm.counter0, cm.counter1, cm.counter2
    ensures cm.Shape() && Sends(c, cm.State(1), rest, whole)
  {
    hide Code, EndByte, ByteEvents, Sends;
    var ctx := 1;
    UnfinishedByte(cm.State(1));
    assert ByteEvents(x)[0..] + rest == ByteEvents(x) + rest;
    for i := 8 downto 0
      invariant cm.Shape() && ctx >= 1 && Depth(ctx) == 8 - i
      invariant Sends(c, EndByte(cm.State(ctx)), ByteEvents(x)[8 - i..] + rest, whole)
      modifies c, cm.counter0, cm.counter1, cm.counter2
    {
      DepthEight(ctx);
      UnfinishedByte(cm.State(ctx));
      ByteEventAt(x, i);
      DepthStep(ctx, BitAt(x, i));
      ghost var es := ByteEvents(x)[7 - i..] + rest;
      assert es[0] == Modelled(BitAt(x, i)) && es[1..] == ByteEvents(x)[8 - i..] + rest;
      ctx := PutBit(c, cm, ctx, x / Pow2(i) % 2, es, whole);
    }
    DepthEight(ctx);
    assert ByteEvents(x)[8..] + rest == rest;
    cm.EndOfByte(ctx);
  }

  method GetBit(c: Coder, cm: Counters, ctx: nat, ghost m: Cm) returns (y: bit)
    requires c.Valid() && cm.Shape() && cm.State(ctx) == m && CmOk(m)
    modifies c, cm.counter0, cm.counter1, cm.counter2
    ensures c.Valid() && cm.Shape()
    ensures var d := Decoder(old(c.Range()), old(Input(c.code, c.src)), m);
            var e := DecodeEvent(d, false);
            && y == e.b && CmOk(EndByte(cm.State(2 * ctx + y)))
            && AfterEvent(d, e) == Decoder(c.Range(), Input(c.code, c.src), EndByte(cm.State(2 * ctx + y)))
  {
    hide Learn, EndByte, Settle, Read, Middle, Probability, Mixed;
    MiddleIs(c.Range(), m);
    var p, j := cm.Estimate(ctx);
    y := c.DecodeBit(false, p, 0x4_0000, m);
    ModelledStep(m, y);
    cm.Update(ctx, j, y);
  }

  /** Get: bits under the model until the context is full. */
  method Get(c: Coder, cm: Counters) returns (x: byte)
    requires c.Valid() && cm.Shape() && CmOk(cm.State(1))
    modifies c, cm, cm.counter0, cm.counter1, cm.counter2
    ensures c.Valid() && cm.Shape() && CmOk(cm.State(1))
    ensures var g := GetByte(Decoder(old(c.Range()), old(Input(c.code, c.src)), old(cm.State(1))));
            x == g.value && g.d == Decoder(c.Range(), Input(c.code, c.src), cm.State(1))
  {
    hide EndByte, DecodeEvent, AfterEvent, CmOk;
    ghost var d := Decoder(c.Range(), Input(c.code, c.src), cm.State(1));
    var ctx: nat := 1;
    UnfinishedByte(cm.State(1));
    while ctx < 256
      invariant c.Valid() && cm.Shape() && 1 <= ctx < 512 && CmOk(EndByte(cm.State(ctx)))
      invariant GetByte(d) == GetFrom(Decoder(c.Range(), Input(c.code, c.src), EndByte(cm.State(ctx))), ctx)
      decreases 512 - ctx
      modifies c, cm.counter0, cm.counter1, cm.counter2
    {
      UnfinishedByte(cm.State(ctx));
      var y := GetBit(c, cm, ctx, cm.State(ctx));
      ctx := ctx + ctx + y;
    }
    cm.EndOfByte(ctx);
    x := ctx - 256;
  }

  // ---------------------------------------------------------------- files

  /** The events of the bytes from place k on. */
  function Later(f: seq<byte>, k: nat): (es: seq<Event>)
    requires k <= |f|
    decreases |f| - k
  {
    if k == |f| then [] else ByteEvents(f[k]) + Later(f, k + 1)
  }

  lemma {:induction false} LaterIsRest(f: seq<byte>, k: nat)
    requires k <= |f|
    ensures FileEvents(f[..k]) + Later(f, k) == FileEvents(f)
    decreases |f| - k
  {
    hide ByteEvents;
    if k == |f| {
      assert f[..k] == f;
    } else {
      LaterIsRest(f, k + 1);
      assert f[..k + 1][..k] == f[..k];
      Regroup(FileEvents(f[..k]), ByteEvents(f[k]), Later(f, k + 1));
    }
  }

  method PutFile(c: Coder, cm: Counters, f: seq<byte>, ghost rest: seq<Event>, ghost whole: seq<byte>)
    requires cm.Shape() && Sends(c, cm.State(1), FileEvents(f) + rest, whole)
    modifies c, cm, cm.counter0, cm.counter1, cm.counter2
    ensures cm.Shape() && Sends(c, cm.State(1), rest, whole)
  {
    hide Sends, ByteEvents;
    LaterIsRest(f, 0);
    assert FileEvents(f[..0]) + Later(f, 0) + rest == Later(f, 0) + rest;
    for i := 0 to |f|
      invariant cm.Shape() && Sends(c, cm.State(1), Later(f, i) + rest, whole)
    {
      assert Later(f, i) + rest == ByteEvents(f[i]) + (Later(f, i + 1) + rest);
      Put(c, cm, f[i], Later(f, i + 1) + rest, whole);
    }
    assert Later(f, |f|) + rest == rest;
  }

  lemma SendsStart(c: Coder, m: Cm, es: seq<Event>)
    requires c.Valid() && c.out == [] && CmOk(m)
    ensures Sends(c, m, es, Code(c.Range(), m, es, []))
  {
    hide Code;
    assert [] + Code(c.Range(), m, es, []) == Code(c.Range(), m, es, []);
  }

  method FlushEnd(c: Coder, ghost m: Cm, ghost whole: seq<byte>)
    requires Sends(c, m, [], whole)
    modifies c
    ensures c.out == whole
  {
    assert LowBytes(c.low) + [] == LowBytes(c.low);
    c.Flush();
  }

  /** bcmenc */
  method Enc(f: seq<byte>) returns (b: seq<byte>)
    ensures b == Pack(f)
  {
    hide Code, Sends;
    var cm := new Counters();
    var c := new Coder();
    ghost var whole := Pack(f);
    SendsStart(c, cm.State(1), FileEvents(f));
    assert FileEvents(f) + [] == FileEvents(f);
    PutFile(c, cm, f, [], whole);
    FlushEnd(c, cm.State(1), whole);
    b := c.out;
  }

  /** n bytes into f, in turn. */
  method GetBytes(c: Coder, cm: Counters, n: nat) returns (f: seq<byte>)
    requires c.Valid() && cm.Shape() && CmOk(cm.State(1))
    modifies c, cm, cm.counter0, cm.counter1, cm.counter2
    ensures c.Valid() && cm.Shape() && CmOk(cm.State(1))
    ensures GetFile(Decoder(old(c.Range()), old(Input(c.code, c.src)), old(cm.State(1))), n)
         == GotFile(f, Decoder(c.Range(), Input(c.code, c.src), cm.State(1)))
  {
    hide GetByte, CmOk;
    ghost var d := Decoder(c.Range(), Input(c.code, c.src), cm.State(1));
    f := [];
    for i := 0 to n
      invariant c.Valid() && cm.Shape() && CmOk(cm.State(1))
      invariant GetFile(d, i) == GotFile(f, Decoder(c.Range(), Input(c.code, c.src), cm.State(1)))
    {
      var x := Get(c, cm);
      f := f + [x];
    }
  }

  /** bcmdec: n bytes from b; on the output of bcmenc it returns the file. */
  method Dec(b: seq<byte>, n: nat) returns (f: seq<byte>)
    ensures f == GetFile(BcmSpec.Opened(b), n).f
    ensures forall x, trail :: b == Pack(x) + trail && n == |x| ==> f == x
  {
    hide GetFile, Pack, CmOk;
    forall x, trail | b == Pack(x) + trail && n == |x| ensures GetFile(BcmSpec.Opened(b), n).f == x {
      PackRoundTrip(x, trail);
    }
    var cm := new Counters();
    var c := new Coder();
    c.Init(b);
    f := GetBytes(c, cm, n);
  }

  // ---------------------------------------------------------------- block sorting

  function BlockEvents(idx: nat, b: seq<byte>): (es: seq<Event>)
  {
    WordEvents(idx) + FileEvents(b) + WordEvents(0)
  }

  /** bcmcompress: the primary index, the transformed bytes, a closing 0. */
  function PackBlock(f: seq<byte>, rows: seq<nat>, rank: seq<nat>): (g: seq<byte>)
    requires SuffixOrder(f, rows, rank)
  {
    Code(BcmSpec.Whole(), InitialCm(), BlockEvents(rank[0], Transform(f, rows, rank)), [])
  }

  /** The transform itself is taken from the suffix order. */
  method Compress(f: seq<byte>, rows: seq<nat>, rank: seq<nat>) returns (g: seq<byte>)
    requires SuffixOrder(f, rows, rank)
    ensures g == PackBlock(f, rows, rank)
  {
    hide Code, Sends, FileEvents, WordEvents;
    var cm := new Counters();
    var c := new Coder();
    var buf := Transform(f, rows, rank);
    ghost var whole := PackBlock(f, rows, rank);
    ghost var es, last := FileEvents(buf), WordEvents(0);
    SendsStart(c, cm.State(1), WordEvents(rank[0]) + es + last);
    assert WordEvents(rank[0]) + es + last == WordEvents(rank[0]) + (es + last);
    ghost var m := cm.State(1);
    Put32(c, rank[0], m, es + last, whole);
    PutFile(c, cm, buf, last, whole);
    assert last + [] == last;
    m := cm.State(1);
    Put32(c, 0, m, [], whole);
    FlushEnd(c, cm.State(1), whole);
    g := c.out;
  }

  lemma BlockDecodes(f: seq<byte>, rows: seq<nat>, rank: seq<nat>, trail: seq<byte>)
    requires SuffixOrder(f, rows, rank) && rank[0] < WORD
    ensures var d := BcmSpec.Opened(PackBlock(f, rows, rank) + trail);
            var w := GetWord(d, 0, WORD_BITS);
            var g := GetFile(w.d, |f|);
            && w.value == rank[0] && g.f == Transform(f, rows, rank)
            && GetWord(g.d, 0, WORD_BITS).d.c.src == trail
  {
    hide Code, Decodes, GetWord, GetFile, FileEvents, WordEvents, BcmSpec.Opened, Transform, Bytes.Bits;
    var d := BcmSpec.Opened(PackBlock(f, rows, rank) + trail);
    var b := Transform(f, rows, rank);
    var e := EventsRoundTrip(BlockEvents(rank[0], b), trail);
    var mid1 := DecodesSplit(d, WordEvents(rank[0]) + FileEvents(b), WordEvents(0), e);
    var mid0 := DecodesSplit(d, WordEvents(rank[0]), FileEvents(b), mid1);
    WordDecodes(d, rank[0], mid0);
    GetFileDecodes(mid0, b, mid1);
    WordDecodes(mid1, 0, e);
  }

  lemma OpenedIs(b: seq<byte>)
    ensures BcmSpec.Opened(b) == Decoder(BcmSpec.Whole(), BcmSpec.Opened(b).c, InitialCm())
  {
  }

  lemma WordDecodes(d: Decoder, x: nat, e: Decoder)
    requires DecoderOk(d) && Decodes(d, WordEvents(x), e) && x < WORD
    ensures GetWord(d, 0, WORD_BITS) == Got(x, e)
  {
    hide Decodes, GetWord;
    FoldWord(x);
    GetWordDecodes(d, 0, Bytes.Bits(x, WORD_BITS), WordEvents(x), e);
  }

  /** bcmdecompress: on the output of bcmcompress for a file of that length it returns the file. */
  method Decompress(g: seq<byte>, outlen: nat, ghost f: seq<byte>, ghost rows: seq<nat>, ghost rank: seq<nat>,
                    ghost trail: seq<byte>)
    returns (out: seq<byte>)
    requires SuffixOrder(f, rows, rank) && rank[0] < WORD && outlen == |f|
    requires g == PackBlock(f, rows, rank) + trail
    ensures out == f
  {
    hide GetFile, GetWord, PackBlock, CmOk, Transform, BcmSpec.Opened;
    if outlen == 0 {
      return [];
    }
    BlockDecodes(f, rows, rank, trail);
    EmptySuffixFirst(f, rows, rank);
    var cm := new Counters();
    var c := new Coder();
    c.Init(g);
    OpenedIs(g);
    ghost var m := cm.State(1);
    var idx := Get32(c, m);
    if idx < 1 || idx > outlen {
      return [];
    }
    var bs := GetBytes(c, cm, outlen);
    out := Invert(bs, idx, f, rows, rank);
    m := cm.State(1);
    var eof := Get32(c, m);
  }
}
