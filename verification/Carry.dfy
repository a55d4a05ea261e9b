/** Range coding with carries: what the bytes that follow must denote, and how a carry reaches those before. */
module Carry {
  import opened Bytes
  import opened ByteWindow

  // ---------------------------------------------------------------- ideal output

  /** The bytes still to come and the carry they send into the bytes before them. */
  datatype Tail = Tail(carry: nat, bytes: seq<byte>)

  /** The number the tail denotes, to 32 bits and a carry. */
  function Value(t: Tail): (v: nat) { t.carry * WORD + Window(t.bytes) }

  function AddCarry(c: nat, t: Tail): (r: Tail) { Tail(c + t.carry, t.bytes) }

  /** The byte b in front of a tail absorbs the tail's carry. */
  function Prepend(b: byte, t: Tail): (r: Tail)
    requires t.carry <= 1
    ensures r.carry <= 1 && r.bytes != []
  {
    if b + t.carry > 255 then Tail(1, [0] + t.bytes) else Tail(0, [b + t.carry] + t.bytes)
  }

  ghost predicate Within(i: Interval, t: Tail) { t.carry <= 1 && i.low <= Value(t) < i.low + i.range }

  function Shift(i: Interval): (r: Interval)
  {
    Interval(i.low % TOP * 256, i.range * 256)
  }

  /** The interval after shifting out bytes until its range is at least 2^24. */
  function Settle(i: Interval): (r: Interval)
    requires i.range > 0 && i.low < WORD
    ensures r.range >= TOP && r.low < WORD
    ensures i.low + i.range <= 2 * WORD ==> r.low + r.range <= 2 * WORD
    decreases TOP - i.range
  {
    if i.range >= TOP then i else Settle(Shift(i))
  }

  /** How many bytes Settle shifts out. */
  function Shifts(range: nat): (n: nat)
    requires range > 0
    decreases TOP - range
  {
    if range >= TOP then 0 else 1 + Shifts(range * 256)
  }

  /** The tail from before the shifts, given the tail t from after them. */
  function Unsettle(i: Interval, t: Tail): (r: Tail)
    requires i.range > 0 && i.low < WORD && t.carry <= 1
    ensures r.carry <= 1
    decreases TOP - i.range
  {
    if i.range >= TOP then t else Prepend(i.low / TOP, Unsettle(Shift(i), t))
  }

  /** The decoder's side: the code value relative to low, refilled byte by byte. */
  datatype Reader = Reader(value: nat, range: nat, src: seq<byte>)

  function Refill(r: Reader): (r': Reader)
    requires r.range > 0
    ensures r'.range >= TOP
    ensures r.value < r.range ==> r'.value < r'.range
    decreases TOP - r.range
  {
    if r.range >= TOP then r else Refill(Reader((r.value * 256 + Head(r.src)) % WORD, r.range * 256, Rest(r.src)))
  }

  lemma RefillStep(r: Reader)
    requires r.range > 0
    ensures r.range >= TOP ==> Refill(r) == r
    ensures r.range < TOP ==>
              Refill(r) == Refill(Reader((r.value * 256 + Head(r.src)) % WORD, r.range * 256, Rest(r.src)))
  {
  }

  lemma ShiftBack(i: Interval, t: Tail)
    requires i.low < WORD && 0 < i.range < TOP && Within(Shift(i), t)
    ensures var u := Prepend(i.low / TOP, t);
            && Within(i, u) && Rest(u.bytes) == t.bytes
            && Value(t) - Shift(i).low == ((Value(u) - i.low) * 256 + Head(Beyond(u.bytes))) % WORD
  {
    var u := Prepend(i.low / TOP, t);
    assert Rest(u.bytes) == t.bytes;
    WindowShift(u.bytes);
    WindowShift(t.bytes);
    assert Value(u) == i.low / TOP * TOP + Value(t) / 256;
  }

  /** Shifting keeps the code inside the interval, and the reader follows it byte by byte. */
  lemma {:induction false} SettleBack(i: Interval, t: Tail)
    requires i.low < WORD && i.range > 0 && Within(Settle(i), t)
    ensures var u := Unsettle(i, t);
            && Within(i, u)
            && Refill(Reader(Value(u) - i.low, i.range, Beyond(u.bytes)))
            == Reader(Value(t) - Settle(i).low, Settle(i).range, Beyond(t.bytes))
    decreases TOP - i.range
  {
    hide Window, Value, Settle, Unsettle, Refill, Shift, Prepend;
    if i.range < TOP {
      UnsettleStep(i, t);
      SettleBack(Shift(i), t);
      ShiftBack(i, Unsettle(Shift(i), t));
      ReadShift(i, Unsettle(i, t), Unsettle(Shift(i), t));
    } else {
      NothingShifted(i, t);
    }
  }

  lemma NothingShifted(i: Interval, t: Tail)
    requires i.low < WORD && i.range >= TOP && t.carry <= 1
    ensures Settle(i) == i && Unsettle(i, t) == t
    ensures forall r: Reader :: r.range == i.range ==> Refill(r) == r
  {
  }

  lemma UnsettleStep(i: Interval, t: Tail)
    requires i.low < WORD && 0 < i.range < TOP && t.carry <= 1
    ensures Unsettle(i, t) == Prepend(i.low / TOP, Unsettle(Shift(i), t)) && Settle(i) == Settle(Shift(i))
    ensures Shift(i).range == 256 * i.range && Shift(i).low < WORD
  {
  }

  /** One byte read takes the reader from before a shift to after it. */
  lemma ReadShift(i: Interval, u: Tail, t: Tail)
    requires i.low < WORD && 0 < i.range < TOP && Within(i, u) && Within(Shift(i), t) && Rest(u.bytes) == t.bytes
    requires Value(t) - Shift(i).low == ((Value(u) - i.low) * 256 + Head(Beyond(u.bytes))) % WORD
    ensures Refill(Reader(Value(u) - i.low, i.range, Beyond(u.bytes)))
         == Refill(Reader(Value(t) - Shift(i).low, Shift(i).range, Beyond(t.bytes)))
  {
    hide Window, Value, Beyond;
    WindowShift(u.bytes);
  }

  /** Narrowing the interval i by offset x to range r, and settling. */
  function Narrow(i: Interval, x: nat, r: nat): (s: Interval)
    requires r > 0
    ensures s.range >= TOP && s.low < WORD
  {
    Settle(Interval((i.low + x) % WORD, r))
  }

  /** The tail from before a narrowing, given the tail t from after it. */
  function Widen(i: Interval, x: nat, r: nat, t: Tail): (u: Tail)
    requires r > 0 && t.carry <= 1
  {
    AddCarry((i.low + x) / WORD, Unsettle(Interval((i.low + x) % WORD, r), t))
  }

  /** The code of a narrowed interval lies in the part chosen, and the reader goes on from there. */
  lemma NarrowBack(i: Interval, x: nat, r: nat, t: Tail)
    requires i.low < WORD && i.low + i.range <= 2 * WORD && r > 0 && x + r <= i.range
    requires Within(Narrow(i, x, r), t)
    ensures var u := Widen(i, x, r, t);
            && Within(i, u) && x <= Value(u) - i.low < x + r
            && Refill(Reader(Value(u) - i.low - x, r, Beyond(u.bytes)))
            == Reader(Value(t) - Narrow(i, x, r).low, Narrow(i, x, r).range, Beyond(t.bytes))
  {
    hide Window, Prepend, Unsettle, Refill, Settle, Beyond;
    SettleBack(Interval((i.low + x) % WORD, r), t);
  }

  lemma NarrowRoom(i: Interval, x: nat, r: nat)
    requires i.low < WORD && i.low + i.range <= 2 * WORD && r > 0 && x + r <= i.range
    ensures Narrow(i, x, r).low + Narrow(i, x, r).range <= 2 * WORD
  {
  }

  // ---------------------------------------------------------------- bytes already out

  /** Some byte can take a carry. */
  predicate CanCarry(b: seq<byte>) { exists k :: 0 <= k < |b| && b[k] < 255 }

  /** b plus one in its last place. */
  function Increment(b: seq<byte>): (r: seq<byte>)
    requires CanCarry(b)
    ensures |r| == |b|
  {
    var k := |b| - 1;
    if b[k] < 255 then b[..k] + [b[k] + 1] else Increment(b[..k]) + [0]
  }

  function Carried(b: seq<byte>, c: nat): (r: seq<byte>)
    requires c == 0 || CanCarry(b)
    ensures |r| == |b|
  {
    if c == 0 then b else Increment(b)
  }

  /** The interval's end may reach into the bytes already out only when they can take a carry. */
  ghost predicate Room(b: seq<byte>, i: Interval)
  {
    && i.low < WORD && i.low + i.range <= 2 * WORD
    && (i.low + i.range > WORD ==> CanCarry(b))
  }

  /** The whole output: the bytes out already, with the tail's carry, then the tail. */
  function Total(b: seq<byte>, t: Tail): (r: seq<byte>)
    requires t.carry == 0 || CanCarry(b)
  {
    Carried(b, t.carry) + t.bytes
  }

  lemma CanCarryAppend(b: seq<byte>, c: byte)
    ensures CanCarry(b + [c]) <==> c < 255 || CanCarry(b)
  {
    assert (b + [c])[|b|] == c;
    if CanCarry(b) {
      var k :| 0 <= k < |b| && b[k] < 255;
      assert (b + [c])[k] < 255;
    }
  }

  lemma TotalPrepend(b: seq<byte>, c: byte, t: Tail)
    requires t.carry <= 1 && (Prepend(c, t).carry == 0 || CanCarry(b))
    ensures t.carry == 0 || CanCarry(b + [c])
    ensures Total(b, Prepend(c, t)) == Total(b + [c], t)
  {
    CanCarryAppend(b, c);
    assert (b + [c])[..|b|] == b;
  }

  lemma RoomShift(b: seq<byte>, i: Interval)
    requires Room(b, i) && i.range < TOP
    ensures Room(b + [i.low / TOP], Shift(i))
  {
    CanCarryAppend(b, i.low / TOP);
  }

  /** The bytes out after the shifts that settle i. */
  function Emit(b: seq<byte>, i: Interval): (r: seq<byte>)
    requires i.range > 0 && i.low < WORD
    decreases TOP - i.range
  {
    if i.range >= TOP then b else Emit(b + [i.low / TOP], Shift(i))
  }

  lemma EmitStep(b: seq<byte>, i: Interval)
    requires i.range > 0 && i.low < WORD
    ensures i.range < TOP ==> Emit(b, i) == Emit(b + [i.low / TOP], Shift(i)) && Settle(i) == Settle(Shift(i))
    ensures i.range >= TOP ==> Emit(b, i) == b && Settle(i) == i
  {
  }

  /** Emitting the shifted bytes and appending the later tail is the earlier tail appended. */
  lemma {:induction false} EmitTotal(b: seq<byte>, i: Interval, t: Tail)
    requires i.range > 0 && Room(b, i) && Within(Settle(i), t)
    ensures Room(Emit(b, i), Settle(i))
    ensures Unsettle(i, t).carry == 0 || CanCarry(b)
    ensures t.carry == 0 || CanCarry(Emit(b, i))
    ensures Total(Emit(b, i), t) == Total(b, Unsettle(i, t))
    decreases TOP - i.range
  {
    SettleBack(i, t);
    if i.range < TOP {
      RoomShift(b, i);
      EmitTotal(b + [i.low / TOP], Shift(i), t);
      TotalPrepend(b, i.low / TOP, Unsettle(Shift(i), t));
    }
  }

  /** The bytes out after a narrowing: the carry goes into them, then the shifted bytes follow. */
  function EmitNarrow(b: seq<byte>, i: Interval, x: nat, r: nat): (b': seq<byte>)
    requires r > 0 && x + r <= i.range && Room(b, i)
  {
    Emit(Carried(b, (i.low + x) / WORD), Interval((i.low + x) % WORD, r))
  }

  /** A forward step followed by the rest is the ideal output as a whole. */
  lemma EmitNarrowTotal(b: seq<byte>, i: Interval, x: nat, r: nat, t: Tail)
    requires r > 0 && x + r <= i.range && Room(b, i) && Within(Narrow(i, x, r), t)
    ensures Room(EmitNarrow(b, i, x, r), Narrow(i, x, r))
    ensures Widen(i, x, r, t).carry == 0 || CanCarry(b)
    ensures t.carry == 0 || CanCarry(EmitNarrow(b, i, x, r))
    ensures Total(EmitNarrow(b, i, x, r), t) == Total(b, Widen(i, x, r, t))
  {
    hide Window, Prepend, Unsettle, Settle, Emit, Increment, CanCarry, Refill, Beyond, Value;
    var c := (i.low + x) / WORD;
    var j := Interval((i.low + x) % WORD, r);
    CarriedRoom(b, i, x, r);
    NarrowBack(i, x, r, t);
    EmitTotal(Carried(b, c), j, t);
  }

  /** A carry that goes out now leaves an interval that no longer reaches one. */
  lemma CarriedRoom(b: seq<byte>, i: Interval, x: nat, r: nat)
    requires r > 0 && x + r <= i.range && Room(b, i)
    ensures (i.low + x) / WORD == 0 || ((i.low + x) / WORD == 1 && CanCarry(b))
    ensures Room(Carried(b, (i.low + x) / WORD), Interval((i.low + x) % WORD, r))
  {
    hide CanCarry, Increment;
    assert (i.low + x) / WORD == 1 ==> (i.low + x) % WORD + r <= WORD;
  }
}
