/** FastAC on values: intervals of the four kinds of data, the code of a message and its decoder. */
module FastAcSpec {
  import opened Arith
  import opened Bytes
  import opened ByteWindow
  import opened Carry
  import opened FastAcModel

  /** A plain bit, a group of raw bits, and a bit and a symbol under one of the adaptive models. */
  datatype Op = PlainBit(b: bit) | RawBits(data: nat, bits: nat) | ModelBit(i: nat, d: bit) | Symbol(i: nat, s: nat)

  datatype Kind = PlainBitKind | RawBitsKind(bits: nat) | ModelBitKind(i: nat) | SymbolKind(i: nat)

  function KindOf(op: Op): (k: Kind)
  {
    match op
    case PlainBit(_) => PlainBitKind
    case RawBits(_, n) => RawBitsKind(n)
    case ModelBit(i, _) => ModelBitKind(i)
    case Symbol(i, _) => SymbolKind(i)
  }

  /** The models that the calls of a message name. */
  datatype Models = Models(bms: seq<BitModel>, dms: seq<DataModel>)

  ghost predicate ModelsOk(m: Models)
  {
    (forall i :: 0 <= i < |m.bms| ==> BitOk(m.bms[i])) && (forall i :: 0 <= i < |m.dms| ==> DataOk(m.dms[i]))
  }

  /** How many bit models there are, and the alphabet of every data model. */
  datatype Shape = Shape(bits: nat, sizes: seq<nat>)

  ghost predicate ShapeOk(sh: Shape) { forall i :: 0 <= i < |sh.sizes| ==> 2 <= sh.sizes[i] <= 2048 }

  function ShapeOf(m: Models): (sh: Shape)
  {
    Shape(|m.bms|, seq(|m.dms|, i requires 0 <= i < |m.dms| => |m.dms[i].count|))
  }

  ghost predicate KindOk(k: Kind, sh: Shape)
  {
    match k
    case PlainBitKind => true
    case RawBitsKind(bits) => 1 <= bits <= 20
    case ModelBitKind(i) => i < sh.bits
    case SymbolKind(i) => i < |sh.sizes|
  }

  ghost predicate OpOk(op: Op, sh: Shape)
  {
    && KindOk(KindOf(op), sh)
    && (op.RawBits? ==> op.data < Pow2(op.bits))
    && (op.Symbol? ==> op.s < sh.sizes[op.i])
  }

  ghost predicate OpsOk(ops: seq<Op>, sh: Shape) { forall k :: 0 <= k < |ops| ==> OpOk(ops[k], sh) }

  function StepModels(m: Models, op: Op): (r: Models)
    requires ModelsOk(m) && OpOk(op, ShapeOf(m))
    ensures ModelsOk(r) && ShapeOf(r) == ShapeOf(m)
  {
    match op
    case PlainBit(_) => m
    case RawBits(_, _) => m
    case ModelBit(i, d) => m.(bms := m.bms[i := BitStep(m.bms[i], d)])
    case Symbol(i, s) => m.(dms := m.dms[i := DataStep(m.dms[i], s)])
  }

  // ---------------------------------------------------------------- intervals

  ghost predicate Ready(i: Interval) { TOP <= i.range < WORD && i.low < WORD }

  function RawUnit(range: nat, bits: nat): (u: nat) {
    DivAtLeast(range, Pow2(bits), 0);
    range / Pow2(bits)
  }

  /** The part of the range in front of the op's own part. */
  function Offset(m: Models, range: nat, op: Op): (x: nat)
    requires ModelsOk(m) && OpOk(op, ShapeOf(m))
  {
    match op
    case PlainBit(b) => b * (range / 2)
    case RawBits(data, bits) => Times(data, RawUnit(range, bits))
    case ModelBit(i, d) => if d == 0 then 0 else Times(m.bms[i].prob, range / BIT_SCALE)
    case Symbol(i, s) => Times(m.dms[i].dist[s], range / DATA_SCALE)
  }

  function Size(m: Models, range: nat, op: Op): (r: int)
    requires ModelsOk(m) && OpOk(op, ShapeOf(m))
  {
    match op
    case PlainBit(_) => range / 2
    case RawBits(_, bits) => RawUnit(range, bits)
    case ModelBit(i, d) =>
      var x := Times(m.bms[i].prob, range / BIT_SCALE);
      if d == 0 then x else range - x
    case Symbol(i, s) =>
      var d := m.dms[i].dist;
      var x := Times(d[s], range / DATA_SCALE);
      if s == |d| - 1 then range - x else Times(d[s + 1], range / DATA_SCALE) - x
  }

  lemma RawFits(data: nat, bits: nat, range: nat)
    requires 1 <= bits <= 20 && data < Pow2(bits) && TOP <= range
    ensures range / Pow2(bits) > 0 && data * (range / Pow2(bits)) + range / Pow2(bits) <= range
  {
    hide Pow2;
    Pow2Most(bits);
    PartFits(data, Pow2(bits), range);
  }

  lemma PartFits(data: nat, p: nat, range: nat)
    requires data < p <= range
    ensures range / p > 0 && data * (range / p) + range / p <= range
  {
    DivAtLeast(range, p, 1);
    MulMono(data + 1, p, range / p);
    Distrib(data, -1, range / p);
    assert p * (range / p) + range % p == range;
  }

  lemma Pow2Most(bits: nat)
    requires bits <= 20
    ensures Pow2(bits) <= 0x10_0000
  {
    Pow2Add(bits, 20 - bits);
    Pow2Add(10, 10);
    Pow2Add(5, 5);
    assert Pow2(5) == 32 by { Pow2Values(); }
    MulMono(1, Pow2(20 - bits), Pow2(bits));
    assert Pow2(20 - bits) * Pow2(bits) == Pow2(bits) * Pow2(20 - bits);
  }

  lemma ModelBitFits(prob: nat, range: nat)
    requires 0 < prob < BIT_SCALE && TOP <= range
    ensures 0 < prob * (range / BIT_SCALE) < range
  {
    var l := range / BIT_SCALE;
    MulMono(1, prob, l);
    MulMono(prob, BIT_SCALE - 1, l);
  }

  lemma SymbolFits(a: nat, b: nat, range: nat)
    requires a < b <= DATA_SCALE && TOP <= range
    ensures a * (range / DATA_SCALE) < b * (range / DATA_SCALE) <= range
  {
    var l := range / DATA_SCALE;
    MulMono(a + 1, b, l);
    Distrib(a, -1, l);
    MulMono(b, DATA_SCALE, l);
  }

  /** A part is what the model gives to the op, of the range rounded down to a multiple of the scale. */
  lemma PartShare(m: Models, range: nat, op: Op)
    requires ModelsOk(m) && OpOk(op, ShapeOf(m)) && TOP <= range
    ensures op.ModelBit? ==>
              var p, x := m.bms[op.i].prob, Size(m, range, op.(d := 0));
              x * BIT_SCALE <= p * range < (x + p) * BIT_SCALE && Size(m, range, op.(d := 1)) == range - x
    ensures op.Symbol? ==>
              var d := m.dms[op.i].dist;
              var share := (if op.s == |d| - 1 then DATA_SCALE else d[op.s + 1]) - d[op.s];
              share > 0 && share * range < (Size(m, range, op) + share) * DATA_SCALE
              && (op.s < |d| - 1 ==> Size(m, range, op) * DATA_SCALE <= share * range)
  {
    match op
    case PlainBit(_) =>
    case RawBits(_, _) =>
    case ModelBit(i, d) =>
      ShareOfRange(0, m.bms[i].prob, range, BIT_SCALE);
    case Symbol(i, s) =>
      var d := m.dms[i].dist;
      assert DataOk(m.dms[i]);
      ShareOfRange(d[s], if s == |d| - 1 then DATA_SCALE else d[s + 1], range, DATA_SCALE);
  }

  /** The parts of the symbols stand in their order and fill the range; so do those of the two bits. */
  lemma PartsInOrder(m: Models, range: nat, op: Op)
    requires ModelsOk(m) && OpOk(op, ShapeOf(m)) && TOP <= range
    ensures op.ModelBit? ==>
              Offset(m, range, op.(d := 0)) == 0 && Offset(m, range, op.(d := 1)) == Size(m, range, op.(d := 0))
    ensures op.Symbol? ==>
              && Offset(m, range, op.(s := 0)) == 0
              && if op.s + 1 < |m.dms[op.i].dist|
                 then Offset(m, range, op) + Size(m, range, op) == Offset(m, range, op.(s := op.s + 1))
                 else Offset(m, range, op) + Size(m, range, op) == range
  {
    if op.Symbol? {
      assert DataOk(m.dms[op.i]);
    }
  }

  lemma ShareOfRange(a: nat, b: nat, range: nat, scale: nat)
    requires a < b <= scale <= range
    ensures var x := Times(b, range / scale) - Times(a, range / scale);
            x * scale <= (b - a) * range < (x + (b - a)) * scale && Times(b, range / scale) <= range
  {
    var u, r := range / scale, range % scale;
    Euclid(range, scale);
    Distrib(b, a, u);
    ShareRounded(b - a, u, r, scale);
    MulMono(b, scale, u);
    assert scale * u == u * scale;
  }

  lemma ShareRounded(n: nat, u: nat, r: nat, scale: nat)
    requires 0 < n && r < scale
    ensures n * u * scale <= n * (u * scale + r) < (n * u + n) * scale
  {
    Distrib(u * scale, r, n);
    assert n * (u * scale + r) == n * (u * scale) + n * r && n * (u * scale) == n * u * scale;
    Distrib(n * u, n, scale);
    MulMono(0, r, n);
    MulMono(r, scale - 1, n);
    Distrib(scale, 1, n);
    assert n * r == r * n && n * scale == scale * n;
  }

  /** Every op has a nonempty part inside the range. */
  lemma OpFits(m: Models, range: nat, op: Op)
    requires ModelsOk(m) && OpOk(op, ShapeOf(m)) && TOP <= range
    ensures Size(m, range, op) > 0 && Offset(m, range, op) + Size(m, range, op) <= range
  {
    match op
    case PlainBit(_) =>
    case RawBits(data, bits) => RawFits(data, bits, range);
    case ModelBit(i, _) => ModelBitFits(m.bms[i].prob, range);
    case Symbol(i, s) =>
      var d := m.dms[i].dist;
      SymbolFits(d[s], if s == |d| - 1 then DATA_SCALE else d[s + 1], range);
  }

  function NarrowOp(i: Interval, m: Models, op: Op): (r: Interval)
    requires Ready(i) && ModelsOk(m) && OpOk(op, ShapeOf(m))
    ensures r.range >= TOP && r.low < WORD
  {
    OpFits(m, i.range, op);
    Narrow(i, Offset(m, i.range, op), Size(m, i.range, op))
  }

  lemma NarrowReady(i: Interval, m: Models, op: Op)
    requires Ready(i) && ModelsOk(m) && OpOk(op, ShapeOf(m))
    ensures Ready(NarrowOp(i, m, op))
  {
    OpFits(m, i.range, op);
    SettleRange(Interval((i.low + Offset(m, i.range, op)) % WORD, Size(m, i.range, op)));
  }

  lemma {:induction false} SettleRange(i: Interval)
    requires 0 < i.range < WORD && i.low < WORD
    ensures Settle(i).range < WORD
    decreases TOP - i.range
  {
    if i.range < TOP {
      SettleRange(Shift(i));
    }
  }

  // ---------------------------------------------------------------- the end of the code

  /** stop_encoder moves the base so that one or two bytes fix the code, whatever follows. */
  function EndOffset(range: nat): (x: nat) { if range > 2 * TOP then TOP else TOP / 2 }

  function EndSize(range: nat): (r: nat)
    ensures r > 0
  {
    if range > 2 * TOP then TOP / 2 else TOP / 512
  }

  function EndTail(i: Interval, trail: seq<byte>): (t: Tail)
    requires Ready(i)
  {
    var u := i.low + EndOffset(i.range);
    var u' := u % WORD;
    Tail(u / WORD, (if i.range > 2 * TOP then [u' / TOP] else [u' / TOP, u' / 0x1_0000 % 256]) + trail)
  }

  lemma EndWithin(i: Interval, trail: seq<byte>)
    requires Ready(i)
    ensures Within(i, EndTail(i, trail))
  {
    var u := (i.low + EndOffset(i.range)) % WORD;
    hide Window;
    if i.range > 2 * TOP {
      WindowOfOne(u, trail);
    } else {
      WindowOfTwo(u, trail);
    }
  }

  lemma WindowOfOne(u: nat, trail: seq<byte>)
    requires u < WORD
    ensures u - u % TOP <= Window([u / TOP] + trail) < u - u % TOP + TOP
  {
    assert Head([u / TOP] + trail) == u / TOP;
  }

  lemma WindowOfTwo(u: nat, trail: seq<byte>)
    requires u < WORD
    ensures var w := Window([u / TOP, u / 0x1_0000 % 256] + trail);
            u - u % 0x1_0000 <= w < u - u % 0x1_0000 + 0x1_0000
  {
    var s := [u / TOP, u / 0x1_0000 % 256] + trail;
    assert Rest(s) == [u / 0x1_0000 % 256] + trail;
    assert u / TOP * 0x100_0000 + u / 0x1_0000 % 256 * 0x1_0000 == u - u % 0x1_0000;
  }

  lemma EndEmits(b: seq<byte>, i: Interval, trail: seq<byte>)
    requires Ready(i) && Room(b, i)
    ensures EndTail(i, trail).carry == 0 || CanCarry(b)
    ensures EndOffset(i.range) + EndSize(i.range) <= i.range
    ensures EmitNarrow(b, i, EndOffset(i.range), EndSize(i.range)) + trail == Total(b, EndTail(i, trail))
  {
    hide Window, Increment;
    EndWithin(i, trail);
    var x, r := EndOffset(i.range), EndSize(i.range);
    var u' := (i.low + x) % WORD;
    var c := Carried(b, (i.low + x) / WORD);
    if i.range > 2 * TOP {
      OneByteOut(c, u');
      assert EmitNarrow(b, i, x, r) == c + [u' / TOP];
      assert c + [u' / TOP] + trail == c + ([u' / TOP] + trail);
    } else {
      TwoBytesOut(c, u');
      assert EmitNarrow(b, i, x, r) == c + [u' / TOP, u' / 0x1_0000 % 256];
      assert c + [u' / TOP, u' / 0x1_0000 % 256] + trail == c + ([u' / TOP, u' / 0x1_0000 % 256] + trail);
    }
  }

  lemma OneByteOut(c: seq<byte>, u: nat)
    requires u < WORD
    ensures Emit(c, Interval(u, TOP / 2)) == c + [u / TOP]
  {
    var j := Interval(u, TOP / 2);
    assert Emit(c + [u / TOP], Shift(j)) == c + [u / TOP];
  }

  lemma TwoBytesOut(c: seq<byte>, u: nat)
    requires u < WORD
    ensures Emit(c, Interval(u, TOP / 512)) == c + [u / TOP, u / 0x1_0000 % 256]
  {
    ByteOut1(u);
    OneByteOut(c + [u / TOP], u % TOP * 256);
    assert Shift(Interval(u, TOP / 512)) == Interval(u % TOP * 256, TOP / 2);
  }

  // ---------------------------------------------------------------- the code of a message

  /** What must follow from interval i on: the ops, then the end of the code, then anything. */
  function Ideal(i: Interval, m: Models, ops: seq<Op>, trail: seq<byte>): (t: Tail)
    requires Ready(i) && ModelsOk(m) && OpsOk(ops, ShapeOf(m))
    ensures Within(i, t)
    decreases |ops|
  {
    if ops == [] then
      EndWithin(i, trail);
      EndTail(i, trail)
    else
      OpFits(m, i.range, ops[0]);
      NarrowReady(i, m, ops[0]);
      var t := Ideal(NarrowOp(i, m, ops[0]), StepModels(m, ops[0]), ops[1..], trail);
      NarrowBack(i, Offset(m, i.range, ops[0]), Size(m, i.range, ops[0]), t);
      Widen(i, Offset(m, i.range, ops[0]), Size(m, i.range, ops[0]), t)
  }

  /** The bytes out, the interval and the models. */
  datatype Sent = Sent(out: seq<byte>, i: Interval, m: Models)

  ghost predicate SentOk(s: Sent) { Ready(s.i) && Room(s.out, s.i) && ModelsOk(s.m) }

  lemma RoomNarrow(b: seq<byte>, i: Interval, x: nat, r: nat)
    requires r > 0 && x + r <= i.range && Room(b, i)
    ensures Room(EmitNarrow(b, i, x, r), Narrow(i, x, r))
  {
    var j := Narrow(i, x, r);
    var t := ExactTail(j);
    EmitNarrowTotal(b, i, x, r, t);
  }

  lemma ExactTail(j: Interval) returns (t: Tail)
    requires j.low < WORD && j.range > 0
    ensures Within(j, t)
  {
    t := Tail(0, LowBytes(j.low) + []);
    LowBytesWindow(j.low, []);
  }

  function ForwardOp(s: Sent, op: Op): (r: Sent)
    requires SentOk(s) && OpOk(op, ShapeOf(s.m))
    ensures SentOk(r) && ShapeOf(r.m) == ShapeOf(s.m)
  {
    var x, z := Offset(s.m, s.i.range, op), Size(s.m, s.i.range, op);
    OpFits(s.m, s.i.range, op);
    NarrowReady(s.i, s.m, op);
    RoomNarrow(s.out, s.i, x, z);
    Sent(EmitNarrow(s.out, s.i, x, z), NarrowOp(s.i, s.m, op), StepModels(s.m, op))
  }

  function Forward(s: Sent, ops: seq<Op>): (r: Sent)
    requires SentOk(s) && OpsOk(ops, ShapeOf(s.m))
    ensures SentOk(r) && ShapeOf(r.m) == ShapeOf(s.m)
    decreases |ops|
  {
    if ops == [] then s else Forward(ForwardOp(s, ops[0]), ops[1..])
  }

  /** The bytes out after stop_encoder. */
  function Finish(s: Sent): (b: seq<byte>)
    requires SentOk(s)
  {
    EndEmits(s.out, s.i, []);
    EmitNarrow(s.out, s.i, EndOffset(s.i.range), EndSize(s.i.range))
  }

  function Fresh(sh: Shape): (m: Models)
    requires ShapeOk(sh)
    ensures ModelsOk(m) && ShapeOf(m) == sh
  {
    Models(seq(sh.bits, _ => BitInitial()),
           seq(|sh.sizes|, i requires 0 <= i < |sh.sizes| => DataInitial(sh.sizes[i])))
  }

  function StartState(sh: Shape): (s: Sent)
    requires ShapeOk(sh)
    ensures SentOk(s) && ShapeOf(s.m) == sh
  {
    Sent([], Interval(0, WORD - 1), Fresh(sh))
  }

  function Encode(sh: Shape, ops: seq<Op>): (b: seq<byte>)
    requires ShapeOk(sh) && OpsOk(ops, sh)
  {
    Finish(Forward(StartState(sh), ops))
  }

  /** Carries written back into earlier bytes produce the ideal code. */
  lemma {:induction false} ForwardIdeal(s: Sent, ops: seq<Op>, trail: seq<byte>)
    requires SentOk(s) && OpsOk(ops, ShapeOf(s.m))
    ensures Ideal(s.i, s.m, ops, trail).carry == 0 || CanCarry(s.out)
    ensures Finish(Forward(s, ops)) + trail == Total(s.out, Ideal(s.i, s.m, ops, trail))
    decreases |ops|
  {
    hide Window, EmitNarrow, Widen, Narrow, EndTail, StepModels, Offset, Size;
    if ops == [] {
      EndEmits(s.out, s.i, trail);
    } else {
      var op := ops[0];
      var x, z := Offset(s.m, s.i.range, op), Size(s.m, s.i.range, op);
      OpFits(s.m, s.i.range, op);
      NarrowReady(s.i, s.m, op);
      var t := Ideal(NarrowOp(s.i, s.m, op), StepModels(s.m, op), ops[1..], trail);
      EmitNarrowTotal(s.out, s.i, x, z, t);
      ForwardIdeal(ForwardOp(s, op), ops[1..], trail);
    }
  }

  // ---------------------------------------------------------------- decoder

  /** What the decoder reads for an op of kind k from a code value below the range. */
  function DecodeOp(v: nat, range: nat, m: Models, k: Kind): (op: Op)
    requires TOP <= range && ModelsOk(m) && KindOk(k, ShapeOf(m))
    ensures KindOf(op) == k
  {
    match k
    case PlainBitKind => PlainBit(if v >= range / 2 then 1 else 0)
    case RawBitsKind(n) =>
      RawFits(0, n, range);
      RawBits(v / (range / Pow2(n)), n)
    case ModelBitKind(i) => ModelBit(i, if v >= m.bms[i].prob * (range / BIT_SCALE) then 1 else 0)
    case SymbolKind(i) => Symbol(i, Find(m.dms[i].dist, range / DATA_SCALE, v, 0))
  }

  /** A value in an op's part is decoded as that op. */
  lemma DecodeOpIs(v: nat, range: nat, m: Models, op: Op)
    requires TOP <= range && ModelsOk(m) && OpOk(op, ShapeOf(m))
    requires Offset(m, range, op) <= v < Offset(m, range, op) + Size(m, range, op)
    ensures DecodeOp(v, range, m, KindOf(op)) == op
  {
    match op
    case PlainBit(_) =>
    case RawBits(data, n) =>
      var l := range / Pow2(n);
      RawFits(data, n, range);
      DivModUnique(v, l, data, v - data * l);
    case ModelBit(_, _) =>
    case Symbol(i, s) =>
      FindIs(m.dms[i].dist, range / DATA_SCALE, v, 0, s);
  }

  function AfterOp(r: Reader, m: Models, op: Op): (r': Reader)
    requires TOP <= r.range && ModelsOk(m) && OpOk(op, ShapeOf(m))
    requires Offset(m, r.range, op) <= r.value
    ensures r'.range >= TOP
  {
    OpFits(m, r.range, op);
    Refill(Reader(r.value - Offset(m, r.range, op), Size(m, r.range, op), r.src))
  }

  ghost function ReaderAt(i: Interval, t: Tail): (r: Reader)
    requires Within(i, t)
  {
    Reader(Value(t) - i.low, i.range, Beyond(t.bytes))
  }

  /** The reader decodes these ops in turn. */
  ghost predicate Decodes(r: Reader, m: Models, ops: seq<Op>)
    requires TOP <= r.range && ModelsOk(m) && OpsOk(ops, ShapeOf(m))
    decreases |ops|
  {
    ops == [] ||
    (&& r.value < r.range && Offset(m, r.range, ops[0]) <= r.value
     && DecodeOp(r.value, r.range, m, KindOf(ops[0])) == ops[0]
     && Decodes(AfterOp(r, m, ops[0]), StepModels(m, ops[0]), ops[1..]))
  }

  /** Encoder and decoder stay in lock step over the whole message. */
  lemma {:induction false} IdealDecodes(i: Interval, m: Models, ops: seq<Op>, trail: seq<byte>)
    requires Ready(i) && ModelsOk(m) && OpsOk(ops, ShapeOf(m))
    ensures Decodes(ReaderAt(i, Ideal(i, m, ops, trail)), m, ops)
    decreases |ops|
  {
    hide Window, Beyond, Widen, Narrow, Refill, EndTail, StepModels, Offset, Size, DecodeOp;
    if ops != [] {
      var op := ops[0];
      OpFits(m, i.range, op);
      NarrowReady(i, m, op);
      var t := Ideal(NarrowOp(i, m, op), StepModels(m, op), ops[1..], trail);
      NarrowBack(i, Offset(m, i.range, op), Size(m, i.range, op), t);
      var r := ReaderAt(i, Ideal(i, m, ops, trail));
      DecodeOpIs(r.value, r.range, m, op);
      NarrowOpIs(i, m, op);
      assert AfterOp(r, m, op) == ReaderAt(NarrowOp(i, m, op), t);
      IdealDecodes(NarrowOp(i, m, op), StepModels(m, op), ops[1..], trail);
    }
  }

  lemma NarrowOpIs(i: Interval, m: Models, op: Op)
    requires Ready(i) && ModelsOk(m) && OpOk(op, ShapeOf(m))
    ensures Size(m, i.range, op) > 0 && NarrowOp(i, m, op) == Narrow(i, Offset(m, i.range, op), Size(m, i.range, op))
  {
    hide Offset, Size, Narrow;
    OpFits(m, i.range, op);
  }

  function Opened(b: seq<byte>): (r: Reader)
    ensures r.range >= TOP
  {
    Reader(Window(b), WORD - 1, Beyond(b))
  }

  /** Decoding the code followed by arbitrary bytes returns every op of the message. */
  lemma RoundTrip(sh: Shape, ops: seq<Op>, trail: seq<byte>)
    requires ShapeOk(sh) && OpsOk(ops, sh)
    ensures Decodes(Opened(Encode(sh, ops) + trail), Fresh(sh), ops)
  {
    hide Window, Beyond, Forward, Ideal, Decodes, Finish;
    var s := StartState(sh);
    var t := Ideal(s.i, s.m, ops, trail);
    ForwardIdeal(s, ops, trail);
    IdealDecodes(s.i, s.m, ops, trail);
    assert t.carry == 0;
    assert Encode(sh, ops) + trail == t.bytes;
  }
}
