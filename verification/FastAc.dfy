/** FastAC as it runs: models and tables updated in place, carries written back into the code buffer. */
module FastAc {
  import opened Arith
  import opened Bytes
  import opened ByteWindow
  import opened Carry
  import opened SymbolCounts
  import opened FastAcModel
  import opened FastAcSpec

  // ---------------------------------------------------------------- models

  class AdaptiveBitModel {
    var prob: nat
    var zeros: nat
    var count: nat
    var cycle: nat
    var until: nat

    ghost function State(): (m: BitModel)
      reads this
    {
      BitModel(prob, zeros, count, cycle, until)
    }

    constructor ()
      ensures State() == BitInitial()
    {
      zeros, count, prob := 1, 2, BIT_SCALE / 2;
      cycle, until := 4, 4;
    }

    method Update()
      requires 1 <= cycle <= 64 && count <= BIT_SCALE && 1 <= zeros < count + cycle
      modifies this
      ensures State() == BitUpdate(old(zeros), old(count), old(cycle))
    {
      hide Scale, BitProbability;
      count := count + cycle;
      if count > BIT_SCALE {
        count := (count + 1) / 2;
        zeros := (zeros + 1) / 2;
        if zeros == count {
          count := count + 1;
        }
      }
      var scale := Scale(count);
      prob := BitProbability(zeros, scale);
      cycle := 5 * cycle / 4;
      if cycle > 64 {
        cycle := 64;
      }
      until := cycle;
    }

    /** Counts one coded bit and updates the estimate when the cycle ends. */
    method Count(d: bit)
      requires BitOk(State())
      modifies this
      ensures State() == BitStep(old(State()), d)
    {
      if d == 0 {
        zeros := zeros + 1;
      }
      until := until - 1;
      if until == 0 {
        Update();
      }
    }
  }

  /** The size and the shift of the decoder's table: about a quarter of the alphabet, none for a small one. */
  method TableShape(n: nat) returns (size: nat, shift: nat)
    requires 2 <= n <= 2048
    ensures (size == 0 <==> n <= 16) && (size > 0 ==> 6 <= shift <= 12 && Pow2(15 - shift) == size)
  {
    size, shift := 0, 0;
    if n > 16 {
      var bits := 3;
      PowersOfTwo();
      while n > Pow2(bits + 2)
        invariant 3 <= bits <= 9
        decreases 9 - bits
      {
        bits := bits + 1;
      }
      size, shift := Pow2(bits), 15 - bits;
    }
  }

  class AdaptiveDataModel {
    const n: nat
    const dist: array<nat>
    const count: array<nat>
    const table: array<nat>
    const tableSize: nat
    const tableShift: nat
    var total: nat
    var cycle: nat
    var until: nat

    ghost predicate Shape()
      reads this
    {
      && 2 <= n <= 2048 && dist.Length == n && count.Length == n
      && dist != count && dist != table && count != table
      && (tableSize == 0 <==> n <= 16)
      && (tableSize > 0 ==>
            table.Length == tableSize + 2 && 6 <= tableShift <= 12 && Pow2(15 - tableShift) == tableSize)
    }

    ghost function State(): (m: DataModel)
      reads this, dist, count
    {
      DataModel(dist[..], count[..], total, cycle, until)
    }

    ghost predicate Valid()
      reads this, dist, count
    {
      Shape() && DataOk(State())
    }

    /** The decoder's table agrees with the distribution, where the alphabet is large enough to have one. */
    ghost predicate TableValid()
      reads this, dist, table
    {
      tableSize > 0 ==> TableOk(dist[..], tableShift, table[..])
    }

    constructor (n: nat)
      requires 2 <= n <= 2048
      ensures Valid() && TableValid() && this.n == n && State() == DataInitial(n)
      ensures fresh(dist) && fresh(count) && fresh(table)
    {
      hide DataUpdate;
      this.n := n;
      var size, shift := TableShape(n);
      tableSize, tableShift := size, shift;
      dist := new nat[n];
      count := new nat[n];
      table := new nat[if size > 0 then size + 2 else 0];
      total, cycle, until := 0, n, 0;
      new;
      for k := 0 to n
        invariant fresh(dist) && fresh(count) && fresh(table) && Shape() && this.n == n
        invariant total == 0 && cycle == n
        invariant forall j :: 0 <= j < k ==> count[j] == 1
      {
        count[k] := 1;
      }
      assert count[..] == Ones(n);
      SumOnes(n);
      Update(false);
      cycle := (n + 6) / 2;
      until := (n + 6) / 2;
      assert State() == DataInitial(n);
    }

    /** Halves every count and adds them up. */
    method HalveCounts() returns (sum: nat)
      requires Shape()
      modifies count
      ensures count[..] == Halved(old(count[..])) && sum == Sum(count[..])
    {
      ghost var c := count[..];
      sum := 0;
      for k := 0 to n
        invariant forall j :: 0 <= j < k ==> count[j] == (c[j] + 1) / 2
        invariant forall j :: k <= j < n ==> count[j] == c[j]
        invariant sum == Sum(Halved(c)[..k])
      {
        count[k] := (count[k] + 1) / 2;
        sum := sum + count[k];
        assert Halved(c)[..k + 1][..k] == Halved(c)[..k];
      }
      assert count[..] == Halved(c) && Halved(c)[..n] == Halved(c);
    }

    method FillDistribution(scale: nat)
      requires Shape()
      modifies dist
      ensures dist[..] == Distribution(count[..], scale)
    {
      ghost var c := count[..];
      var sum := 0;
      for k := 0 to n
        invariant count[..] == c && sum == Sum(c[..k])
        invariant forall j :: 0 <= j < k ==> dist[j] == Start(c, scale, j)
      {
        dist[k] := scale * sum / 0x1_0000;
        sum := sum + count[k];
        assert c[..k + 1][..k] == c[..k];
      }
    }

    /** Fills the distribution, and the table as far as each new entry settles it. */
    method FillDistributionAndTable(scale: nat)
      requires Shape() && tableSize > 0 && DistributionOk(Distribution(count[..], scale))
      modifies dist, table
      ensures dist[..] == Distribution(count[..], scale) && TableValid()
    {
      hide Sum, Start, Distribution, DistributionOk, TableEntry, Run, Pow2;
      ghost var c := count[..];
      ghost var d := Distribution(c, scale);
      var sum, s := 0, 0;
      SumEmpty(c);
      for k := 0 to n
        invariant count[..] == c && sum == Sum(c[..k])
        invariant forall j :: 0 <= j < k ==> dist[j] == d[j]
        invariant s < tableSize && s == StartPart(d, tableShift, k)
        invariant forall t :: 1 <= t <= s < table.Length ==> TableEntry(d, tableShift, t, table[t])
      {
        StartIs(c, scale, k);
        dist[k] := scale * sum / 0x1_0000;
        sum := sum + count[k];
        SumNext(c, k);
        var w := dist[k] / Pow2(tableShift);
        PartBelow(d, k);
        PartRun(d, tableShift, k);
        s := FillEntries(s, w, k - 1, d);
      }
      table[0] := 0;
      PartBelow(d, n - 1);
      LastRun(d, tableShift, tableSize + 1);
      s := FillEntries(s, tableSize + 1, n - 1, d);
      assert TableOk(d, tableShift, table[..]) by {
        FirstEntry(d, tableShift);
      }
      assert dist[..] == d;
    }

    /** Every start lies below the last part of the table. */
    lemma PartBelow(d: seq<nat>, k: nat)
      requires Shape() && tableSize > 0 && DistributionOk(d) && k < |d|
      ensures d[k] / Pow2(tableShift) < tableSize
    {
      Pow2Add(15 - tableShift, tableShift);
      PowersOfTwo();
      hide Pow2;
      DivAtLeast(d[k], Pow2(tableShift), tableSize);
    }

    /** The entries behind s up to w are v. */
    method FillEntries(s: nat, w: nat, v: int, ghost d: seq<nat>) returns (s': nat)
      requires Shape() && tableSize > 0 && w <= tableSize + 1 && |d| == n
      requires Run(d, tableShift, s, w, v)
      requires forall t :: 1 <= t <= s < table.Length ==> TableEntry(d, tableShift, t, table[t])
      modifies table
      ensures s' == (if s < w then w else s) && table[0] == old(table[0])
      ensures forall t :: 1 <= t <= s' < table.Length ==> TableEntry(d, tableShift, t, table[t])
    {
      hide TableEntry;
      s' := s;
      while s' < w
        invariant s <= s' && (s < w ==> s' <= w) && (s >= w ==> s' == s) && table[0] == old(table[0])
        invariant forall t :: 1 <= t <= s' < table.Length ==> TableEntry(d, tableShift, t, table[t])
      {
        s' := s' + 1;
        table[s'] := v;
      }
    }

    method Update(fromEncoder: bool)
      requires Shape() && AllPositive(count[..])
      requires 1 <= cycle <= 8 * (n + 6) && total <= DATA_SCALE && Sum(count[..]) == total + cycle
      modifies this`total, this`cycle, this`until, dist, count, table
      ensures State() == DataUpdate(old(count[..]), old(total), old(cycle))
      ensures !fromEncoder ==> TableValid()
    {
      hide Sum, Scale, Distribution;
      ghost var c := count[..];
      total := total + cycle;
      if total > DATA_SCALE {
        total := HalveCounts();
      }
      SumHalved(c);
      DistributionIsOk(count[..]);
      var scale := Scale(total);
      if fromEncoder || tableSize == 0 {
        FillDistribution(scale);
      } else {
        FillDistributionAndTable(scale);
      }
      cycle := 5 * cycle / 4;
      var most := (n + 6) * 8;
      if cycle > most {
        cycle := most;
      }
      until := cycle;
    }

    /** Counts one coded symbol and updates the model when the cycle ends. */
    method Count(s: nat, fromEncoder: bool)
      requires Valid() && s < n && (!fromEncoder ==> TableValid())
      modifies this`total, this`cycle, this`until, dist, count, table
      ensures Valid() && State() == DataStep(old(State()), s)
      ensures !fromEncoder ==> TableValid()
    {
      hide Sum, DataUpdate;
      SumUpdate(count[..], s, count[s] + 1);
      ghost var c := count[..];
      count[s] := count[s] + 1;
      assert count[..] == c[s := c[s] + 1];
      until := until - 1;
      if until == 0 {
        Update(fromEncoder);
      }
    }
  }

  lemma PowersOfTwo()
    ensures Pow2(11) == 2048 && Pow2(15) == DATA_SCALE
  {
    Pow2Values();
    Pow2Add(7, 4);
    Pow2Add(11, 4);
  }

  /** The part of the table in which the symbol before k starts. */
  function StartPart(d: seq<nat>, shift: nat, k: nat): (t: nat)
    requires k <= |d|
  {
    if k == 0 then 0 else DivAtLeast(d[k - 1], Pow2(shift), 0); d[k - 1] / Pow2(shift)
  }

  /** The entries behind s up to w are to be v. */
  ghost predicate Run(d: seq<nat>, shift: nat, s: nat, w: nat, v: int)
  {
    s < w ==> 0 <= v < |d| && forall t :: s < t <= w ==> TableEntry(d, shift, t, v)
  }

  /** The entries between the parts of symbols k - 1 and k are symbol k - 1. */
  lemma PartRun(d: seq<nat>, shift: nat, k: nat)
    requires DistributionOk(d) && k < |d|
    ensures StartPart(d, shift, k) <= StartPart(d, shift, k + 1) == d[k] / Pow2(shift)
    ensures Run(d, shift, StartPart(d, shift, k), StartPart(d, shift, k + 1), k - 1)
  {
    hide Pow2;
    if k > 0 {
      DivMono(d[k - 1], d[k], Pow2(shift));
    } else {
      DivModUnique(0, Pow2(shift), 0, 0);
    }
  }

  /** The entries behind the part of the last symbol are that symbol. */
  lemma LastRun(d: seq<nat>, shift: nat, w: nat)
    requires d != []
    ensures Run(d, shift, StartPart(d, shift, |d|), w, |d| - 1)
  {
    hide Pow2;
  }

  lemma FirstEntry(d: seq<nat>, shift: nat)
    requires d != []
    ensures TableEntry(d, shift, 0, 0)
  {
  }

  lemma SumNext(c: seq<nat>, k: nat)
    requires k < |c|
    ensures Sum(c[..k + 1]) == Sum(c[..k]) + c[k]
  {
    assert c[..k + 1][..k] == c[..k];
  }

  // ---------------------------------------------------------------- encoder

  class Encoder {
    var base: nat
    var length: nat
    var code: seq<byte>

    ghost predicate Valid()
      reads this
    {
      Ready(Low()) && Room(code, Low())
    }

    ghost function Low(): (i: Interval)
      reads this`base, this`length
    {
      Interval(base, length)
    }

    constructor ()
      ensures Valid() && code == [] && Low() == Interval(0, WORD - 1)
    {
      base, length, code := 0, 0xFFFF_FFFF, [];
    }

    /** Adds one to the bytes written, from the last one back over every 0xFF. */
    method PropagateCarry()
      requires CanCarry(code)
      modifies this`code
      ensures code == Increment(old(code))
    {
      hide Increment;
      ghost var c, tail: seq<byte> := code, [];
      var p := |code| - 1;
      assert c[..p + 1] == c;
      while code[p] == 255
        invariant 0 <= p < |c| && CanCarry(c[..p + 1])
        invariant code == c[..p + 1] + tail && Increment(c) == Increment(c[..p + 1]) + tail
        decreases p
      {
        IncrementLast(c, p);
        code := code[p := 0];
        tail := [0] + tail;
        p := p - 1;
      }
      IncrementLast(c, p);
      code := code[p := code[p] + 1];
    }

    /** Outputs top bytes until the length is at least 2^24 again. */
    method RenormEncInterval()
      requires 0 < length < TOP && base < WORD
      modifies this
      ensures code == Emit(old(code), old(Low())) && Low() == Settle(old(Low()))
    {
      hide Emit, Settle;
      ghost var b, i := code, Low();
      while true
        invariant 0 < length < TOP && base < WORD
        invariant Emit(code, Low()) == Emit(b, i) && Settle(Low()) == Settle(i)
        decreases TOP - length
      {
        EmitStep(code, Low());
        code := code + [base / TOP];
        base := base % TOP * 256;
        length := length * 256;
        EmitStep(code, Low());
        if length >= TOP {
          break;
        }
      }
    }

    /** Moves the base by x to a part of length z, carries, and renormalizes. */
    method Advance(x: nat, z: nat)
      requires 0 < z && x + z <= length && base < WORD && Room(code, Low()) && length < WORD
      modifies this
      ensures code == EmitNarrow(old(code), old(Low()), x, z)
      ensures Low() == Narrow(old(Low()), x, z)
      ensures Valid()
    {
      hide Emit, Settle, Increment;
      RoomNarrow(code, Low(), x, z);
      NarrowRange(Low(), x, z);
      ghost var i := Low();
      EmitStep(Carried(code, (base + x) / WORD), Interval((base + x) % WORD, z));
      var initBase := base;
      base := (base + x) % WORD;
      length := z;
      if initBase > base {
        PropagateCarry();
      }
      if length < TOP {
        RenormEncInterval();
      }
    }

    method PutBit(b: bit, ghost m: Models)
      requires Valid() && ModelsOk(m)
      modifies this
      ensures Valid() && Coded(old(code), old(Low()), m, PlainBit(b))
    {
      OpFits(m, length, PlainBit(b));
      if b == 1 {
        Advance(length / 2, length / 2);
      } else {
        Advance(0, length / 2);
      }
    }

    method PutBits(data: nat, bits: nat, ghost m: Models)
      requires Valid() && ModelsOk(m) && 1 <= bits <= 20 && data < Pow2(bits)
      modifies this
      ensures Valid() && Coded(old(code), old(Low()), m, RawBits(data, bits))
    {
      OpFits(m, length, RawBits(data, bits));
      RawFits(data, bits, length);
      Advance(data * (length / Pow2(bits)), length / Pow2(bits));
    }

    /** encode with the bit model that is number i of the models m. */
    method EncodeBit(d: bit, bm: AdaptiveBitModel, ghost m: Models, ghost i: nat)
      requires Valid() && ModelsOk(m) && i < |m.bms| && m.bms[i] == bm.State()
      modifies this, bm
      ensures Valid() && Coded(old(code), old(Low()), m, ModelBit(i, d))
      ensures bm.State() == BitStep(m.bms[i], d)
    {
      OpFits(m, length, ModelBit(i, d));
      ModelBitFits(bm.prob, length);
      var x := bm.prob * (length / BIT_SCALE);
      if d == 0 {
        Advance(0, x);
      } else {
        Advance(x, length - x);
      }
      bm.Count(d);
    }

    /** encode with the data model that is number i of the models m. */
    method EncodeSymbol(s: nat, dm: AdaptiveDataModel, ghost m: Models, ghost i: nat)
      requires Valid() && ModelsOk(m) && dm.Valid() && i < |m.dms| && m.dms[i] == dm.State() && s < dm.n
      modifies this, dm`total, dm`cycle, dm`until, dm.dist, dm.count, dm.table
      ensures Valid() && Coded(old(code), old(Low()), m, Symbol(i, s))
      ensures dm.Valid() && dm.State() == DataStep(m.dms[i], s)
    {
      hide DataStep;
      OpFits(m, length, Symbol(i, s));
      if s == dm.n - 1 {
        var x := dm.dist[s] * (length / DATA_SCALE);
        Advance(x, length - x);
      } else {
        var l := length / DATA_SCALE;
        var x := dm.dist[s] * l;
        Advance(x, dm.dist[s + 1] * l - x);
      }
      dm.Count(s, true);
    }

    /** The codec moved on by exactly this op. */
    ghost predicate Coded(b: seq<byte>, i: Interval, m: Models, op: Op)
      requires Ready(i) && Room(b, i) && ModelsOk(m) && OpOk(op, ShapeOf(m))
      reads this
    {
      OpFits(m, i.range, op);
      && code == EmitNarrow(b, i, Offset(m, i.range, op), Size(m, i.range, op))
      && Low() == NarrowOp(i, m, op)
    }

    /** stop_encoder */
    method Stop()
      requires Valid()
      modifies this
      ensures ModelsFree(old(code), old(Low()))
    {
      if length > 2 * TOP {
        Advance(TOP, TOP / 2);
      } else {
        Advance(TOP / 2, TOP / 512);
      }
    }

    ghost predicate ModelsFree(b: seq<byte>, i: Interval)
      requires Ready(i) && Room(b, i)
      reads this
    {
      EndEmits(b, i, []);
      code == EmitNarrow(b, i, EndOffset(i.range), EndSize(i.range))
    }
  }

  lemma IncrementLast(c: seq<byte>, p: nat)
    requires p < |c| && CanCarry(c[..p + 1])
    ensures c[p] == 255 ==> CanCarry(c[..p]) && Increment(c[..p + 1]) == Increment(c[..p]) + [0]
    ensures c[p] < 255 ==> Increment(c[..p + 1]) == c[..p] + [c[p] + 1]
  {
    assert c[..p + 1][..p] == c[..p] && c[..p + 1][p] == c[p];
    CanCarryAppend(c[..p], c[p]);
    assert c[..p + 1] == c[..p] + [c[p]];
  }

  lemma NarrowRange(i: Interval, x: nat, z: nat)
    requires 0 < z && x + z <= i.range < WORD && i.low < WORD
    ensures Ready(Narrow(i, x, z))
  {
    SettleRange(Interval((i.low + x) % WORD, z));
  }

  // ---------------------------------------------------------------- decoder

  class Decoder {
    var value: nat
    var length: nat
    var src: seq<byte>

    ghost function State(): (r: Reader)
      reads this
    {
      Reader(value, length, src)
    }

    constructor (b: seq<byte>)
      ensures State() == Opened(b)
    {
      length := 0xFFFF_FFFF;
      value := Head(b) as int * 0x100_0000 + Head(Rest(b)) as int * 0x1_0000
        + Head(Rest(Rest(b))) as int * 0x100 + Head(Rest(Rest(Rest(b))));
      src := Beyond(b);
    }

    /** Takes x off the value, cuts the length to z and reads bytes while it is below 2^24. */
    method Advance(x: nat, z: nat)
      requires 0 < z && x <= value
      modifies this
      ensures State() == Refill(Reader(old(value) - x, z, old(src)))
    {
      value := value - x;
      length := z;
      ghost var r := State();
      hide Refill;
      while length < TOP
        invariant 0 < length && Refill(State()) == Refill(r)
        decreases TOP - length
      {
        RefillStep(State());
        value := (value * 256 + Head(src)) % WORD;
        src := Rest(src);
        length := length * 256;
      }
      RefillStep(State());
    }

    method GetBit(ghost m: Models) returns (b: bit)
      requires TOP <= length && value < length && ModelsOk(m)
      modifies this
      ensures DecodeOp(old(value), old(length), m, PlainBitKind) == PlainBit(b)
      ensures State() == AfterOp(old(State()), m, PlainBit(b))
    {
      hide Refill;
      b := if value >= length / 2 then 1 else 0;
      Advance(b * (length / 2), length / 2);
    }

    method GetBits(bits: nat, ghost m: Models) returns (data: nat)
      requires TOP <= length && value < length && ModelsOk(m) && 1 <= bits <= 20
      requires value / Part(length, bits) < Pow2(bits)
      modifies this
      ensures DecodeOp(old(value), old(length), m, RawBitsKind(bits)) == RawBits(data, bits)
      ensures data < Pow2(bits) && data * Part(old(length), bits) <= old(value)
      ensures State() == AfterOp(old(State()), m, RawBits(data, bits))
    {
      hide Refill, Pow2;
      RawFits(0, bits, length);
      var l := length / Pow2(bits);
      data := value / l;
      RawFits(data, bits, length);
      QuotientBelow(value, l);
      Advance(data * l, l);
    }

    method DecodeBit(bm: AdaptiveBitModel, ghost m: Models, ghost i: nat) returns (d: bit)
      requires TOP <= length && value < length && ModelsOk(m) && i < |m.bms| && m.bms[i] == bm.State()
      modifies this, bm
      ensures DecodeOp(old(value), old(length), m, ModelBitKind(i)) == ModelBit(i, d)
      ensures State() == AfterOp(old(State()), m, ModelBit(i, d))
      ensures bm.State() == BitStep(m.bms[i], d)
    {
      hide Refill;
      ModelBitFits(bm.prob, length);
      var x := bm.prob * (length / BIT_SCALE);
      d := if value >= x then 1 else 0;
      if d == 0 {
        Advance(0, x);
      } else {
        Advance(x, length - x);
      }
      bm.Count(d);
    }

    /** Table look-up and bisection for alphabets with a table, bisection by products for small ones. */
    method DecodeSymbol(dm: AdaptiveDataModel, ghost m: Models, ghost i: nat) returns (s: nat)
      requires TOP <= length && value < length && ModelsOk(m)
      requires dm.Valid() && dm.TableValid() && i < |m.dms| && m.dms[i] == dm.State()
      modifies this, dm`total, dm`cycle, dm`until, dm.dist, dm.count, dm.table
      ensures s < dm.n && DecodeOp(old(value), old(length), m, SymbolKind(i)) == Symbol(i, s)
      ensures Offset(m, old(length), Symbol(i, s)) <= old(value)
      ensures State() == AfterOp(old(State()), m, Symbol(i, s))
      ensures dm.Valid() && dm.TableValid() && dm.State() == DataStep(m.dms[i], s)
    {
      hide Refill, DataStep, Times, Offset, Size, DecodeOp, DistributionOk;
      var x, y;
      if dm.tableSize > 0 {
        s, x, y := SearchTable(dm);
      } else {
        s, x, y := SearchProducts(dm);
      }
      SymbolFound(m, i, length, value, s, x, y);
      Advance(x, y - x);
      dm.Count(s, false);
    }

    ghost predicate Located(dm: AdaptiveDataModel, s: nat, x: nat, y: nat)
      reads this, dm, dm.dist
    {
      && dm.Shape() && s < dm.n && x == Times(dm.dist[s], length / DATA_SCALE) <= value < y
      && y == if s == dm.n - 1 then length else Times(dm.dist[s + 1], length / DATA_SCALE)
    }

    method SearchProducts(dm: AdaptiveDataModel) returns (s: nat, x: nat, y: nat)
      requires TOP <= length && value < length && dm.Shape() && DistributionOk(dm.dist[..])
      ensures Located(dm, s, x, y)
    {
      assert Times(0, length / DATA_SCALE) == 0;
      hide Times;
      x, s, y := 0, 0, length;
      var l := length / DATA_SCALE;
      var n := dm.n;
      var m := n / 2;
      assert dm.dist[..][0] == 0;
      while true
        invariant s < m < n <= dm.n && m == (s + n) / 2
        invariant x == Times(dm.dist[s], l) && x <= value < y
        invariant y == if n == dm.n then length else Times(dm.dist[n], l)
        decreases n - s
      {
        var z := Times(dm.dist[m], l);
        if z > value {
          n := m;
          y := z;
        } else {
          s := m;
          x := z;
        }
        m := (s + n) / 2;
        if m == s {
          break;
        }
      }
    }

    method SearchTable(dm: AdaptiveDataModel) returns (s: nat, x: nat, y: nat)
      requires TOP <= length && value < length && dm.Shape() && DistributionOk(dm.dist[..])
      requires dm.tableSize > 0 && dm.TableValid()
      ensures Located(dm, s, x, y)
    {
      hide Times, Pow2, DistributionOk;
      var l := length / DATA_SCALE;
      var dv := value / l;
      var t := dv / Pow2(dm.tableShift);
      EnclosedInTable(value, length, dm, dv, t);
      s := dm.table[t];
      var n := dm.table[t + 1] + 1;
      while n > s + 1
        invariant s < n <= dm.n && dm.dist[s] <= dv && (n < dm.n ==> dv < dm.dist[n])
        decreases n - s
      {
        var m := (s + n) / 2;
        if dm.dist[m] > dv {
          n := m;
        } else {
          s := m;
        }
      }
      ScaledBack(value, l, dm.dist[s]);
      x := Times(dm.dist[s], l);
      y := length;
      if s != dm.n - 1 {
        ScaledBack(value, l, dm.dist[s + 1]);
        y := Times(dm.dist[s + 1], l);
      }
    }
  }

  /** The symbol whose part of the range holds the value is the one decoded. */
  lemma SymbolFound(m: Models, i: nat, range: nat, v: nat, s: nat, x: nat, y: nat)
    requires ModelsOk(m) && TOP <= range && i < |m.dms| && s < |m.dms[i].count|
    requires x == Times(m.dms[i].dist[s], range / DATA_SCALE) <= v < y
    requires y == if s == |m.dms[i].count| - 1 then range else Times(m.dms[i].dist[s + 1], range / DATA_SCALE)
    ensures Offset(m, range, Symbol(i, s)) == x && Size(m, range, Symbol(i, s)) == y - x
    ensures DecodeOp(v, range, m, SymbolKind(i)) == Symbol(i, s)
  {
    hide Times;
    FindIs(m.dms[i].dist, range / DATA_SCALE, v, 0, s);
  }

  lemma ScaledBack(value: nat, l: nat, d: nat)
    requires l > 0
    ensures d <= value / l <==> Times(d, l) <= value
  {
    DivAtLeast(value, l, d);
  }

  /** The two table entries around a scaled value enclose the part it falls in. */
  lemma EnclosedInTable(value: nat, length: nat, dm: AdaptiveDataModel, dv: nat, t: nat)
    requires TOP <= length && value < length && dm.Shape() && DistributionOk(dm.dist[..])
    requires dm.tableSize > 0 && dm.TableValid()
    requires dv == value / (length / DATA_SCALE) && t == dv / Pow2(dm.tableShift)
    ensures t <= dm.tableSize
    ensures dm.table[t] <= dm.table[t + 1] < dm.n && dm.dist[dm.table[t]] <= dv
    ensures dm.table[t + 1] + 1 < dm.n ==> dv < dm.dist[dm.table[t + 1] + 1]
  {
    hide Pow2, DistributionOk, TableOk;
    PartInTable(value, length, dm);
    TableEncloses(dm.dist[..], dm.tableShift, dm.table[..], dv);
  }

  function Part(length: nat, bits: nat): (l: nat)
    requires TOP <= length && 1 <= bits <= 20
    ensures l > 0
  {
    RawFits(0, bits, length);
    length / Pow2(bits)
  }

  lemma QuotientBelow(v: nat, l: nat)
    requires l > 0
    ensures v / l * l <= v
  {
  }

  /** The scaled value can pass 2^15 by less than 64, which the entry past the end of the table covers. */
  lemma PartInTable(value: nat, length: nat, dm: AdaptiveDataModel)
    requires TOP <= length && value < length && dm.Shape() && dm.tableSize > 0
    ensures length / DATA_SCALE > 0
    ensures value / (length / DATA_SCALE) / Pow2(dm.tableShift) <= dm.tableSize
  {
    hide Pow2;
    var l, size, p := length / DATA_SCALE, dm.tableSize, Pow2(dm.tableShift);
    Pow2Add(15 - dm.tableShift, dm.tableShift);
    PowersOfTwo();
    SixtyFour(dm.tableShift);
    assert size * p == DATA_SCALE;
    Distrib(size, 1, p);
    assert value < DATA_SCALE * l + 64 * l;
    DivAtLeast(value, l, DATA_SCALE + 64);
    Distrib(DATA_SCALE, 64, l);
    DivAtLeast(value / l, p, size + 1);
  }

  lemma SixtyFour(k: nat)
    requires 6 <= k
    ensures Pow2(k) >= 64
  {
    Pow2Values();
    Pow2Add(6, k - 6);
    MulMono(1, Pow2(k - 6), 64);
  }

  // ---------------------------------------------------------------- messages

  ghost function Arrays(dm: AdaptiveDataModel): (a: set<object>) { {dm.dist, dm.count, dm.table} }

  /** Everything that counting changes in a family of models. */
  ghost function AllArrays(dms: seq<AdaptiveDataModel>): (a: set<object>)
  {
    (set dm | dm in dms :: dm.dist) + (set dm | dm in dms :: dm.count) + (set dm | dm in dms :: dm.table)
  }

  lemma ArraysIn(dms: seq<AdaptiveDataModel>, i: nat)
    requires i < |dms|
    ensures Arrays(dms[i]) <= AllArrays(dms)
  {
    assert dms[i] in dms;
  }

  /** No two models are one, nor do they share arrays. */
  ghost predicate Apart(bms: seq<AdaptiveBitModel>, dms: seq<AdaptiveDataModel>)
  {
    && (forall i, j :: 0 <= i < |bms| && 0 <= j < |bms| && i != j ==> bms[i] != bms[j])
    && (forall i, j :: 0 <= i < |dms| && 0 <= j < |dms| && i != j ==>
          dms[i] != dms[j] && Arrays(dms[i]) !! Arrays(dms[j]))
  }

  ghost predicate BitIs(bm: AdaptiveBitModel, x: BitModel)
    reads bm
  {
    bm.State() == x
  }

  ghost predicate DataIs(dm: AdaptiveDataModel, x: DataModel)
    reads dm, dm.dist, dm.count
  {
    dm.Valid() && dm.State() == x
  }

  ghost predicate StatesAre(bms: seq<AdaptiveBitModel>, dms: seq<AdaptiveDataModel>, m: Models)
    reads bms, dms, AllArrays(dms)
  {
    && |m.bms| == |bms| && (forall i :: 0 <= i < |bms| ==> BitIs(bms[i], m.bms[i]))
    && |m.dms| == |dms| && (forall i :: 0 <= i < |dms| ==> DataIs(dms[i], m.dms[i]))
  }

  ghost predicate TableIs(dm: AdaptiveDataModel)
    reads dm, dm.dist, dm.table
  {
    dm.TableValid()
  }

  ghost predicate Tabled(dms: seq<AdaptiveDataModel>)
    reads dms, AllArrays(dms)
  {
    forall i :: 0 <= i < |dms| ==> TableIs(dms[i])
  }

  method NewBitModels(n: nat) returns (bms: seq<AdaptiveBitModel>)
    ensures |bms| == n && (forall i :: 0 <= i < n ==> fresh(bms[i]) && BitIs(bms[i], BitInitial()))
    ensures Apart(bms, [])
  {
    if n == 0 {
      bms := [];
    } else {
      bms := NewBitModels(n - 1);
      var bm := new AdaptiveBitModel();
      bms := bms + [bm];
    }
  }

  method NewDataModel(n: nat) returns (dm: AdaptiveDataModel)
    requires 2 <= n <= 2048
    ensures fresh(dm) && fresh(Arrays(dm)) && DataIs(dm, DataInitial(n)) && TableIs(dm)
  {
    dm := new AdaptiveDataModel(n);
  }

  method NewDataModels(sizes: seq<nat>) returns (dms: seq<AdaptiveDataModel>)
    requires ShapeOk(Shape(0, sizes))
    ensures |dms| == |sizes| && (forall i :: 0 <= i < |dms| ==> fresh(dms[i]) && fresh(Arrays(dms[i])))
    ensures forall i :: 0 <= i < |dms| ==> DataIs(dms[i], DataInitial(sizes[i])) && TableIs(dms[i])
    ensures Apart([], dms)
  {
    hide DataIs, TableIs, Apart;
    if sizes == [] {
      dms := [];
      assert Apart([], []) by { NoneApart(); }
    } else {
      var k := |sizes| - 1;
      dms := NewDataModels(sizes[..k]);
      var dm := NewDataModel(sizes[k]);
      ApartSnoc(dms, dm);
      dms := dms + [dm];
    }
  }

  lemma NoneApart()
    ensures Apart([], [])
  {
  }

  lemma ApartSnoc(dms: seq<AdaptiveDataModel>, dm: AdaptiveDataModel)
    requires Apart([], dms) && forall i :: 0 <= i < |dms| ==> dms[i] != dm && Arrays(dms[i]) !! Arrays(dm)
    ensures Apart([], dms + [dm])
  {
    hide Arrays;
    var a := dms + [dm];
    forall i, j | 0 <= i < |a| && 0 <= j < |a| && i != j ensures a[i] != a[j] && Arrays(a[i]) !! Arrays(a[j]) {
    }
  }

  /** One new model for each in the shape. */
  method NewModels(sh: Shape) returns (bms: seq<AdaptiveBitModel>, dms: seq<AdaptiveDataModel>)
    requires ShapeOk(sh)
    ensures Apart(bms, dms) && StatesAre(bms, dms, Fresh(sh)) && Tabled(dms)
    ensures forall i :: 0 <= i < |bms| ==> fresh(bms[i])
    ensures forall i :: 0 <= i < |dms| ==> fresh(dms[i]) && fresh(Arrays(dms[i]))
  {
    hide BitIs, DataIs, TableIs, Arrays;
    bms := NewBitModels(sh.bits);
    dms := NewDataModels(sh.sizes);
  }

  ghost predicate SentIs(e: Encoder, bms: seq<AdaptiveBitModel>, dms: seq<AdaptiveDataModel>, s: Sent)
    reads e, bms, dms, AllArrays(dms)
  {
    e.Valid() && s.out == e.code && s.i == e.Low() && StatesAre(bms, dms, s.m)
  }

  method EncodeBitWith(i: nat, d: bit, e: Encoder, bms: seq<AdaptiveBitModel>, dms: seq<AdaptiveDataModel>,
                       ghost m: Models)
    requires e.Valid() && ModelsOk(m) && StatesAre(bms, dms, m) && Apart(bms, dms) && i < |bms|
    modifies e, bms[i]
    ensures e.Valid() && e.Coded(old(e.code), old(e.Low()), m, ModelBit(i, d))
    ensures StatesAre(bms, dms, m.(bms := m.bms[i := BitStep(m.bms[i], d)]))
  {
    hide DataIs, BitOk, DataOk, BitStep, NarrowOp, EmitNarrow;
    e.EncodeBit(d, bms[i], m, i);
  }

  method EncodeSymbolWith(i: nat, k: nat, e: Encoder, bms: seq<AdaptiveBitModel>, dms: seq<AdaptiveDataModel>,
                          ghost m: Models)
    requires e.Valid() && ModelsOk(m) && StatesAre(bms, dms, m) && Apart(bms, dms) && i < |dms| && k < |m.dms[i].count|
    modifies e, dms[i], Arrays(dms[i])
    ensures e.Valid() && e.Coded(old(e.code), old(e.Low()), m, Symbol(i, k))
    ensures StatesAre(bms, dms, m.(dms := m.dms[i := DataStep(m.dms[i], k)]))
  {
    hide BitIs, BitOk, DataOk, DataStep, NarrowOp, EmitNarrow;
    e.EncodeSymbol(k, dms[i], m, i);
  }

  method EncodeOp(op: Op, e: Encoder, bms: seq<AdaptiveBitModel>, dms: seq<AdaptiveDataModel>, ghost s: Sent)
    requires SentOk(s) && SentIs(e, bms, dms, s) && OpOk(op, ShapeOf(s.m)) && Apart(bms, dms)
    modifies e, bms, dms, AllArrays(dms)
    ensures SentIs(e, bms, dms, ForwardOp(s, op))
  {
    hide EmitNarrow, NarrowOp, BitStep, DataStep, Offset, Size, StatesAre, Apart, BitOk, DataOk;
    match op
    case PlainBit(b) => e.PutBit(b, s.m);
    case RawBits(data, bits) => e.PutBits(data, bits, s.m);
    case ModelBit(i, d) =>
      Named(bms, dms, s.m);
      EncodeBitWith(i, d, e, bms, dms, s.m);
    case Symbol(i, k) =>
      Named(bms, dms, s.m);
      ArraysIn(dms, i);
      EncodeSymbolWith(i, k, e, bms, dms, s.m);
  }

  lemma Named(bms: seq<AdaptiveBitModel>, dms: seq<AdaptiveDataModel>, m: Models)
    requires StatesAre(bms, dms, m)
    ensures |bms| == |m.bms| && |dms| == |m.dms|
  {
  }

  lemma {:induction false} ForwardAppend(s: Sent, ops: seq<Op>, op: Op)
    requires SentOk(s) && OpsOk(ops, ShapeOf(s.m)) && OpOk(op, ShapeOf(s.m))
    ensures Forward(s, ops + [op]) == ForwardOp(Forward(s, ops), op)
    decreases |ops|
  {
    hide ForwardOp;
    if ops == [] {
      assert ([] + [op])[1..] == [];
    } else {
      assert (ops + [op])[1..] == ops[1..] + [op];
      ForwardAppend(ForwardOp(s, ops[0]), ops[1..], op);
    }
  }

  /** One call for each op with the model it names. */
  method EncodeOps(ops: seq<Op>, e: Encoder, bms: seq<AdaptiveBitModel>, dms: seq<AdaptiveDataModel>, ghost s: Sent)
    requires SentOk(s) && SentIs(e, bms, dms, s) && OpsOk(ops, ShapeOf(s.m)) && Apart(bms, dms)
    modifies e, bms, dms, AllArrays(dms)
    ensures SentIs(e, bms, dms, Forward(s, ops))
  {
    hide ForwardOp, Forward, SentIs, SentOk, OpOk, Apart;
    NoOps(s);
    assert ops[..0] == [];
    for k := 0 to |ops|
      invariant SentIs(e, bms, dms, Forward(s, ops[..k]))
    {
      EncodeOp(ops[k], e, bms, dms, Forward(s, ops[..k]));
      ForwardAppend(s, ops[..k], ops[k]);
      assert ops[..k + 1] == ops[..k] + [ops[k]];
    }
    assert ops[..|ops|] == ops;
  }

  lemma NoOps(s: Sent)
    requires SentOk(s)
    ensures Forward(s, []) == s
  {
  }

  /** start_encoder, the calls for the ops, stop_encoder. */
  method EncodeMessage(sh: Shape, ops: seq<Op>) returns (b: seq<byte>)
    requires ShapeOk(sh) && OpsOk(ops, sh)
    ensures b == Encode(sh, ops)
  {
    hide ForwardOp, Forward, EmitNarrow, SentIs, SentOk, OpOk, Apart, StatesAre, Fresh;
    var e := new Encoder();
    var bms, dms := NewModels(sh);
    NothingSent(e, bms, dms, sh);
    NoOps(StartState(sh));
    EncodeOps(ops, e, bms, dms, StartState(sh));
    SentReady(e, bms, dms, Forward(StartState(sh), ops));
    e.Stop();
    b := e.code;
  }

  lemma NothingSent(e: Encoder, bms: seq<AdaptiveBitModel>, dms: seq<AdaptiveDataModel>, sh: Shape)
    requires ShapeOk(sh) && e.Valid() && e.code == [] && e.Low() == Interval(0, WORD - 1)
    requires StatesAre(bms, dms, Fresh(sh))
    ensures SentIs(e, bms, dms, Forward(StartState(sh), []))
  {
    hide StatesAre, Fresh;
  }

  lemma SentReady(e: Encoder, bms: seq<AdaptiveBitModel>, dms: seq<AdaptiveDataModel>, s: Sent)
    requires SentIs(e, bms, dms, s) && SentOk(s)
    ensures e.Valid() && e.code == s.out && e.Low() == s.i
    ensures Finish(s) == (EndEmits(s.out, s.i, []); EmitNarrow(s.out, s.i, EndOffset(s.i.range), EndSize(s.i.range)))
  {
  }

  method DecodeBitWith(i: nat, d: Decoder, bms: seq<AdaptiveBitModel>, dms: seq<AdaptiveDataModel>, ghost m: Models)
    returns (b: bit)
    requires TOP <= d.length && d.value < d.length && ModelsOk(m)
    requires StatesAre(bms, dms, m) && Tabled(dms) && Apart(bms, dms) && i < |bms|
    modifies d, bms[i]
    ensures DecodeOp(old(d.value), old(d.length), m, ModelBitKind(i)) == ModelBit(i, b)
    ensures d.State() == AfterOp(old(d.State()), m, ModelBit(i, b))
    ensures StatesAre(bms, dms, m.(bms := m.bms[i := BitStep(m.bms[i], b)])) && Tabled(dms)
  {
    hide DataIs, TableIs, BitOk, DataOk, BitStep, AfterOp, DecodeOp;
    b := d.DecodeBit(bms[i], m, i);
  }

  method DecodeSymbolWith(i: nat, d: Decoder, bms: seq<AdaptiveBitModel>, dms: seq<AdaptiveDataModel>, ghost m: Models)
    returns (k: nat)
    requires TOP <= d.length && d.value < d.length && ModelsOk(m)
    requires StatesAre(bms, dms, m) && Tabled(dms) && Apart(bms, dms) && i < |dms|
    modifies d, dms[i], Arrays(dms[i])
    ensures k < |m.dms[i].count| && DecodeOp(old(d.value), old(d.length), m, SymbolKind(i)) == Symbol(i, k)
    ensures Offset(m, old(d.length), Symbol(i, k)) <= old(d.value)
    ensures d.State() == AfterOp(old(d.State()), m, Symbol(i, k))
    ensures StatesAre(bms, dms, m.(dms := m.dms[i := DataStep(m.dms[i], k)])) && Tabled(dms)
  {
    hide BitIs, BitOk, DataOk, DataStep, AfterOp, DecodeOp, Offset;
    k := d.DecodeSymbol(dms[i], m, i);
  }

  method DecodeNext(k: Kind, d: Decoder, bms: seq<AdaptiveBitModel>, dms: seq<AdaptiveDataModel>,
                    ghost m: Models, ghost op: Op)
    returns (r: Op)
    requires TOP <= d.length && d.value < d.length && ModelsOk(m)
    requires StatesAre(bms, dms, m) && Tabled(dms) && Apart(bms, dms)
    requires OpOk(op, ShapeOf(m)) && KindOf(op) == k && DecodeOp(d.value, d.length, m, k) == op
    requires Offset(m, d.length, op) <= d.value
    modifies d, bms, dms, AllArrays(dms)
    ensures r == op && d.State() == AfterOp(old(d.State()), m, op)
    ensures StatesAre(bms, dms, StepModels(m, op)) && Tabled(dms)
  {
    hide AfterOp, BitStep, DataStep, Offset, Size, Find, StatesAre, Apart, Tabled, BitOk, DataOk;
    match k
    case PlainBitKind =>
      var b := d.GetBit(m);
      r := PlainBit(b);
    case RawBitsKind(bits) =>
      var data := d.GetBits(bits, m);
      r := RawBits(data, bits);
    case ModelBitKind(i) =>
      Named(bms, dms, m);
      var b := DecodeBitWith(i, d, bms, dms, m);
      r := ModelBit(i, b);
    case SymbolKind(i) =>
      Named(bms, dms, m);
      ArraysIn(dms, i);
      var s := DecodeSymbolWith(i, d, bms, dms, m);
      r := Symbol(i, s);
  }

  /** One call for each op that is still to come. */
  method DecodeAll(d: Decoder, bms: seq<AdaptiveBitModel>, dms: seq<AdaptiveDataModel>, kinds: seq<Kind>,
                   ghost m0: Models, ghost ops: seq<Op>)
    returns (out: seq<Op>)
    requires TOP <= d.length && ModelsOk(m0) && StatesAre(bms, dms, m0) && Tabled(dms) && Apart(bms, dms)
    requires OpsOk(ops, ShapeOf(m0)) && Decodes(d.State(), m0, ops)
    requires |kinds| == |ops| && forall k :: 0 <= k < |ops| ==> kinds[k] == KindOf(ops[k])
    modifies d, bms, dms, AllArrays(dms)
    ensures out == ops
  {
    hide AfterOp, DecodeOp, Offset, StepModels, StatesAre, Tabled, Apart, BitOk, DataOk, ModelsOk, OpOk, ShapeOf;
    ghost var m := m0;
    out := [];
    assert ops[0..] == ops;
    for k := 0 to |kinds|
      invariant StatesAre(bms, dms, m) && Tabled(dms)
      invariant TOP <= d.length && ModelsOk(m) && ShapeOf(m) == ShapeOf(m0) && out == ops[..k]
      invariant OpsOk(ops[k..], ShapeOf(m0)) && Decodes(d.State(), m, ops[k..])
    {
      assert ops[k..][0] == ops[k] && ops[k..][1..] == ops[k + 1..];
      var op := DecodeNext(kinds[k], d, bms, dms, m, ops[k]);
      out := out + [op];
      m := StepModels(m, ops[k]);
    }
    assert ops[..|ops|] == ops;
  }

  /** start_decoder and one call for each op: the code of a message, then anything, gives the message back. */
  method DecodeMessage(sh: Shape, kinds: seq<Kind>, b: seq<byte>, ghost ops: seq<Op>, ghost trail: seq<byte>)
    returns (out: seq<Op>)
    requires ShapeOk(sh) && OpsOk(ops, sh) && b == Encode(sh, ops) + trail
    requires |kinds| == |ops| && forall k :: 0 <= k < |ops| ==> kinds[k] == KindOf(ops[k])
    ensures out == ops
  {
    hide Encode, Decodes, Apart, StatesAre, Tabled;
    RoundTrip(sh, ops, trail);
    var d := new Decoder(b);
    var bms, dms := NewModels(sh);
    out := DecodeAll(d, bms, dms, kinds, Fresh(sh), ops);
  }
}
