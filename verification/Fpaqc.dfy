/** The asymmetric binary coder of fpaqc as it runs: tables, stacks and reciprocals in place of division. */
module Fpaqc {
  import opened Arith
  import opened Bytes
  import opened FpaqcSpec

  const TWO64 := 0x1_0000_0000_0000_0000
  const TWO44 := 0x1000_0000_0000

  // ---------------------------------------------------------------- reciprocals

  /** 2^44 / i, rounded down. */
  function Reciprocal(i: nat): (r: nat)
    requires i > 0
  {
    TWO44 / i
  }

  /** Entry of the inverse table for q * 2 + d: rounded up for a 1, rounded down for a 0. */
  function Inverse(entry: nat): (r: nat)
    requires 2 <= entry < 8192
  {
    if entry % 2 == 1 then Reciprocal(entry / 2) + 1 else Reciprocal(4096 - entry / 2)
  }

  /** The multiplication that stands for the division, in 64-bit arithmetic cut to 32 bits. */
  function Multiplied(entry: nat, w: nat): (x: nat)
    requires 2 <= entry < 8192
  {
    ((1 - entry % 2 + w) * Inverse(entry) - 1) % TWO64 / WORD % WORD
  }

  lemma TopWord(v: int, t: nat)
    requires t * WORD <= v < (t + 1) * WORD && t < WORD
    ensures v % TWO64 / WORD % WORD == t
  {
  }

  lemma LessCancel(a: int, b: int, c: int)
    requires a * c < b * c && c > 0
    ensures a < b
  {
    if a >= b { MulMono(b, a, c); }
  }

  /** floor(w * 2^12 / q) from the rounded-up inverse of q. */
  lemma UpperInverseExact(q: nat, w: nat)
    requires 1 <= q <= 4095 && 1 <= w < HIGH
    ensures var t := w * 4096 / q;
            t < WORD && t * WORD <= w * (TWO44 / q + 1) - 1 < (t + 1) * WORD
  {
    var t, s, m, r := w * 4096 / q, w * 4096 % q, TWO44 / q, TWO44 % q;
    assert w * 4096 == t * q + s && TWO44 == m * q + r;
    UpperIdentity(w, q, m, r, t, s);
    MulMono(1, w, q - r);
    assert (q - r) * w == w * (q - r);
    assert w * (q - r) <= w * q by { MulMono(q - r, q, w); }
    MulMono(q, 4095, w);
    LessCancel(t * WORD, w * (m + 1), q);
    Distrib(t + 1, 0, q);
    LessCancel(w * (m + 1), (t + 1) * WORD, q);
    DivAtLeast(w * 4096, q, WORD);
  }

  lemma UpperIdentity(w: int, q: int, m: int, r: int, t: int, s: int)
    requires w * 4096 == t * q + s && TWO44 == m * q + r
    ensures w * (m + 1) * q == t * WORD * q + s * WORD + w * (q - r)
    ensures (t + 1) * WORD * q == t * WORD * q + WORD * q
  {
    assert w * (m + 1) * q == w * (m * q) + w * q;
    assert w * (m * q) == w * (TWO44 - r);
    assert w * (TWO44 - r) == w * 4096 * WORD - w * r;
    assert (t * q + s) * WORD == t * WORD * q + s * WORD;
  }

  /** ceil((w+1) * 2^12 / p) - 1 from the rounded-down inverse of p, even where the product is 2^64. */
  lemma LowerInverseExact(p: nat, v: nat)
    requires 1 <= p <= 4095 && 1 <= v <= HIGH
    ensures var t := (v * 4096 - 1) / p;
            t < WORD && t * WORD <= v * (TWO44 / p) - 1 < (t + 1) * WORD
  {
    var t, s, m, r := (v * 4096 - 1) / p, (v * 4096 - 1) % p + 1, TWO44 / p, TWO44 % p;
    assert v * 4096 == t * p + s && TWO44 == m * p + r;
    LowerIdentity(v, p, m, r, t, s);
    MulMono(v, HIGH, r);
    assert v * r <= HIGH * r < WORD;
    LessCancel(t * WORD, v * m, p);
    assert 0 <= v * r by { MulMono(0, v, r); }
    LessCancel(v * m, (t + 1) * WORD + 1, p);
    DivAtLeast(v * 4096 - 1, p, WORD);
  }

  lemma LowerIdentity(v: int, p: int, m: int, r: int, t: int, s: int)
    requires v * 4096 == t * p + s && TWO44 == m * p + r
    ensures v * m * p == t * WORD * p + s * WORD - v * r
    ensures (t + 1) * WORD * p == t * WORD * p + WORD * p
    ensures ((t + 1) * WORD + 1) * p == t * WORD * p + WORD * p + p
  {
    assert v * m * p == v * (m * p);
    assert v * (m * p) == v * (TWO44 - r);
    assert v * (TWO44 - r) == v * 4096 * WORD - v * r;
    assert (t * p + s) * WORD == t * WORD * p + s * WORD;
  }

  /** The multiplication computes the coded state for every entry and every state the encoder reaches. */
  lemma MultipliedExact(it: Item, w: nat)
    requires ItemOk(it) && w < HIGH && (it.d == 1 ==> w >= 1)
    ensures Multiplied(it.q * 2 + it.d, w) == CodeWord(it, w)
  {
    if it.d == 1 {
      UpperInverseExact(it.q, w);
      TopWord(w * (TWO44 / it.q + 1) - 1, w * 4096 / it.q);
    } else {
      LowerInverseExact(4096 - it.q, w + 1);
      TopWord((w + 1) * (TWO44 / (4096 - it.q)) - 1, ((w + 1) * 4096 - 1) / (4096 - it.q));
    }
  }

  // ---------------------------------------------------------------- predictor

  class Predictor {
    var cxt: nat
    const t: array<nat>

    ghost predicate Valid()
      reads this, t
    {
      ModelOk(State())
    }

    ghost function State(): (m: Model)
      reads this, t
    {
      Model(cxt, t[..])
    }

    constructor ()
      ensures Valid() && State() == InitialModel() && fresh(t)
    {
      cxt := 1;
      t := new nat[512];
      new;
      for i := 0 to 512
        invariant cxt == 1 && fresh(t) && t.Length == 512
        invariant forall k :: 0 <= k < i ==> t[k] == 32768
      {
        t[i] := 32768;
      }
      assert t[..] == InitialModel().t;
    }

    method P() returns (p: nat)
      requires Valid()
      ensures p == t[cxt] / 16
    {
      p := t[cxt] / 16;
    }

    method Update(y: bit)
      requires Valid()
      modifies this`cxt, t
      ensures Valid() && State() == FpaqcSpec.Update(old(State()), y)
    {
      if y == 1 {
        t[cxt] := t[cxt] + (65536 - t[cxt]) / 32;
      } else {
        t[cxt] := t[cxt] - t[cxt] / 32;
      }
      cxt := cxt + cxt + y;
      if cxt >= 512 {
        cxt := 1;
      }
    }
  }

  // ---------------------------------------------------------------- encoder

  function ItemOf(entry: nat): (it: Item)
    requires 2 <= entry < 8192
    ensures ItemOk(it) && it.q * 2 + it.d == entry
  {
    Item(entry / 2, entry % 2)
  }

  function ItemsOf(entries: seq<nat>): (items: seq<Item>)
    requires forall i :: 0 <= i < |entries| ==> 2 <= entries[i] < 8192
    ensures |items| == |entries| && ItemsOk(items)
  {
    seq(|entries|, i requires 0 <= i < |entries| => ItemOf(entries[i]))
  }

  lemma ItemsSnoc(entries: seq<nat>, e: nat)
    requires 2 <= e < 8192 && forall i :: 0 <= i < |entries| ==> 2 <= entries[i] < 8192
    ensures ItemsOf(entries + [e]) == ItemsOf(entries) + [ItemOf(e)]
  {
  }

  lemma InverseAt(i: nat)
    requires 1 <= i < 4096
    ensures Inverse(i * 2 + 1) == Reciprocal(i) + 1 && Inverse(8192 - 2 * i) == Reciprocal(i)
  {
    assert (i * 2 + 1) / 2 == i && (8192 - 2 * i) / 2 == 4096 - i;
  }

  method FillInverses(qinv: array<nat>)
    requires qinv.Length == 8192
    modifies qinv
    ensures forall e :: 2 <= e < 8192 ==> qinv[e] == Inverse(e)
  {
    hide Inverse, Reciprocal;
    for i := 1 to 4096
      invariant forall e :: 2 <= e < 2 * i + 1 && e % 2 == 1 ==> qinv[e] == Inverse(e)
      invariant forall e :: 8192 - 2 * i < e < 8192 && e % 2 == 0 ==> qinv[e] == Inverse(e)
    {
      InverseAt(i);
      qinv[i * 2 + 1] := Reciprocal(i);
      qinv[8192 - 2 * i] := Reciprocal(i);
      qinv[i * 2 + 1] := qinv[i * 2 + 1] + 1;
    }
  }

  class Encoder {
    const predictor: Predictor
    var n: nat
    const ins: array<nat>
    const qinv: array<nat>
    var archive: seq<byte>
    // Items coded since the start, and those of the blocks already written.
    ghost var all: seq<Item>
    ghost var written: seq<Item>

    ghost predicate Valid()
      reads this, predictor, predictor.t, ins, qinv
    {
      Tables() && ItemsOk(written) && |written| % BLOCK == 0
      && all == written + Pending()
      && archive == Blocks(written)
    }

    ghost predicate Tables()
      reads this, predictor, predictor.t, ins, qinv
    {
      && predictor.Valid() && predictor.t != ins && predictor.t != qinv && ins != qinv
      && ins.Length == BLOCK && qinv.Length == 8192 && n <= BLOCK
      && (forall e :: 2 <= e < 8192 ==> qinv[e] == Inverse(e))
      && (forall i :: 0 <= i < n ==> 2 <= ins[i] < 8192)
    }

    /** The items on the input stack. */
    ghost function Pending(): (items: seq<Item>)
      requires Tables()
      reads this, predictor, predictor.t, ins, qinv
      ensures ItemsOk(items) && |items| == n
    {
      ItemsOf(ins[..n])
    }

    constructor ()
      ensures Valid() && n == 0 && all == [] && predictor.State() == InitialModel()
      ensures fresh(predictor) && fresh(predictor.t) && fresh(ins)
    {
      predictor := new Predictor();
      n := 0;
      ins := new nat[BLOCK];
      qinv := new nat[8192];
      archive := [];
      all, written := [], [];
      new;
      FillInverses(qinv);
    }

    method Encode(d: bit)
      requires Valid()
      modifies this`n, this`archive, this`all, this`written, predictor`cxt, predictor.t, ins
      ensures Valid() && n > 0
      ensures predictor.State() == FpaqcSpec.Update(old(predictor.State()), d)
      ensures all == old(all) + [Item(Probability(old(predictor.State())), d)]
    {
      hide Blocks, Inverse, FpaqcSpec.Update;
      if n >= BLOCK {
        Flush();
      }
      var q := predictor.P();
      if q < 2048 {
        q := q + 1;
      }
      assert q == Probability(predictor.State());
      hide ItemOf, ItemsOf, Probability;
      Stack(q, d);
      predictor.Update(d);
    }

    method Stack(q: nat, d: bit)
      requires Valid() && n < BLOCK && 1 <= q < 4096
      modifies this`n, this`all, ins
      ensures Valid() && n == old(n) + 1 && all == old(all) + [Item(q, d)]
    {
      hide Blocks, Inverse;
      ItemsSnoc(ins[..n], q * 2 + d);
      assert ItemOf(q * 2 + d) == Item(q, d);
      hide ItemOf, ItemsOf;
      ins[n] := q * 2 + d;
      n := n + 1;
      assert ins[..n] == ins[..n - 1] + [q * 2 + d];
      all := all + [Item(q, d)];
    }

    /** One item: shift bytes of the state onto the output stack until it can be coded. */
    method CodeItem(entry: nat, w0: nat, stack0: seq<byte>) returns (x: nat, stack: seq<byte>)
      requires Tables() && 2 <= entry < 8192 && LOW <= w0 < HIGH
      ensures x == Push(ItemOf(entry), w0).0 && stack == Push(ItemOf(entry), w0).1 + stack0
      ensures LOW <= x < HIGH
    {
      ghost var it := ItemOf(entry);
      var w := w0;
      stack := stack0;
      CodeWordGrows(it, w0);
      PushDecodes(it, w0, []);
      while true
        invariant 0 <= w < HIGH && CodeWord(it, w) >= LOW
        invariant Push(it, w0).0 == Push(it, w).0
        invariant Push(it, w0).1 + stack0 == Push(it, w).1 + stack
        decreases w
      {
        CodeWordGrows(it, w);
        MultipliedExact(it, w);
        x := ((1 - entry % 2 + w) * qinv[entry] - 1) % TWO64 / WORD % WORD;
        if x < HIGH {
          break;
        }
        stack := [w % 256] + stack;
        w := w / 256;
      }
    }

    /** Codes the input stack backwards and writes the block. */
    method Flush()
      requires Valid() && n > 0
      modifies this`n, this`archive, this`written
      ensures Tables() && n == 0
      ensures written == all && archive == Blocks(all)
    {
      hide Blocks, Inverse, Push;
      ghost var items := Pending();
      var w: nat := LOW;
      var stack: seq<byte> := [];
      assert items[n..] == [];
      while n != 0
        invariant Tables() && n <= |items|
        invariant forall i :: 0 <= i < n ==> items[i] == ItemOf(ins[i])
        invariant w == FpaqcSpec.Flush(items[n..]).0 && stack == FpaqcSpec.Flush(items[n..]).1
        invariant LOW <= w < HIGH
        modifies this`n
      {
        n := n - 1;
        assert items[n..][1..] == items[n + 1..];
        w, stack := CodeItem(ins[n], w, stack);
      }
      assert items[0..] == items;
      archive := archive + [w / 65536, w / 256 % 256, w % 256] + stack;
      BlocksAppend(written, items, |written| / BLOCK);
      assert archive == Blocks(written) + Block(items);
      written := all;
    }
  }

  lemma {:induction false} BlocksAppend(done: seq<Item>, items: seq<Item>, n: nat)
    requires ItemsOk(done) && ItemsOk(items) && |done| == n * BLOCK && 0 < |items| <= BLOCK
    ensures Blocks(done + items) == Blocks(done) + Block(items)
    decreases n
  {
    hide Block, Blocks, ItemsOk;
    if n == 0 {
      OneBlock(items);
      assert done == [];
    } else {
      BlocksNext(done, items);
      BlocksAppend(done[BLOCK..], items, n - 1);
      Regroup(Block(done[..BLOCK]), Blocks(done[BLOCK..]), Block(items));
    }
  }

  lemma OneBlock(items: seq<Item>)
    requires ItemsOk(items) && 0 < |items| <= BLOCK
    ensures Blocks([] + items) == Blocks([]) + Block(items)
  {
    assert [] + items == items;
  }

  lemma BlocksNext(done: seq<Item>, items: seq<Item>)
    requires ItemsOk(done) && ItemsOk(items) && |done| >= BLOCK && items != []
    ensures ItemsOk(done[..BLOCK]) && ItemsOk(done[BLOCK..]) && ItemsOk(done[BLOCK..] + items)
    ensures Blocks(done) == Block(done[..BLOCK]) + Blocks(done[BLOCK..])
    ensures Blocks(done + items) == Block(done[..BLOCK]) + Blocks(done[BLOCK..] + items)
  {
    hide Block, Blocks;
    var k := BlocksFirst(done);
    var k' := BlocksFirst(done + items);
    assert (done + items)[..BLOCK] == done[..BLOCK] && (done + items)[BLOCK..] == done[BLOCK..] + items;
  }

  // ---------------------------------------------------------------- decoder

  class Decoder {
    const predictor: Predictor
    var x: nat
    var n: nat
    var src: seq<byte>

    ghost predicate Valid()
      reads this, predictor, predictor.t
    {
      predictor.Valid() && DecoderOk(State())
    }

    ghost function State(): (s: FpaqcSpec.Decoder)
      requires predictor.Valid()
      reads this, predictor, predictor.t
    {
      FpaqcSpec.Decoder(x, n, src, predictor.State())
    }

    constructor (g: seq<byte>)
      ensures Valid() && State() == Start(g) && fresh(predictor) && fresh(predictor.t)
    {
      predictor := new Predictor();
      x, n, src := LOW, 1, g;
    }

    /** Counts the bits of a block down and reads the next header when they run out. */
    method ReadHeader() returns (ok: bool)
      requires Valid()
      modifies this
      ensures predictor.Valid()
      ensures match NextBlock(old(State()))
              case None => !ok
              case Some(s) => ok && Valid() && State() == s
    {
      n := n - 1;
      if n == 0 {
        if x != LOW || |src| < 3 {
          return false;
        }
        x := (src[0] as int) * 65536 + (src[1] as int) * 256 + src[2];
        src := src[3..];
        n := BLOCK;
        if x < LOW || x >= HIGH {
          return false;
        }
      }
      return true;
    }

    /** None is the archive error; the state is then of no further use. */
    method Decode() returns (r: Option<bit>)
      requires Valid()
      modifies this, predictor`cxt, predictor.t
      ensures predictor.Valid()
      ensures match DecodeBit(old(State()))
              case None => r == None
              case Some((s, d)) => r == Some(d) && Valid() && State() == s
    {
      hide FpaqcSpec.Update, NextBlock, DecodeWord;
      var ok := ReadHeader();
      if !ok {
        return None;
      }
      var q := predictor.P();
      if q < 2048 {
        q := q + 1;
      }
      DecodeWordBelow(x, q);
      var d, v := SplitWord(x, q);
      predictor.Update(d);
      x := v;
      ghost var src0 := src;
      RefillBelow(v, src);
      while x < LOW
        invariant predictor.Valid() && Refill(v, src0) == Refill(x, src)
        decreases |src|
        modifies this`x, this`src
      {
        if src == [] {
          return None;
        }
        x := x * 256 + src[0];
        src := src[1..];
      }
      return Some(d);
    }
  }

  /** d = (x*q-1 & 4095) + q >> 12, and the state below x on the side of d. */
  method SplitWord(x: nat, q: nat) returns (d: bit, w: nat)
    requires LOW <= x < HIGH && 1 <= q <= 4095
    ensures DecodeWord(x, q) == (d, w)
  {
    DecodeWordBelow(x, q);
    MulMono(1, x, q);
    var xq := x * q - 1;
    d := (xq % 4096 + q) / 4096;
    xq := xq / 4096 + 1;
    w := if d == 1 then xq else x - xq;
  }

  // ---------------------------------------------------------------- files

  lemma ItemsAppend(m: Model, bits: seq<bit>, more: seq<bit>)
    requires ModelOk(m)
    ensures Items(m, bits + more) == Items(m, bits) + Items(ModelAfter(m, bits), more)
    decreases |bits|
  {
    if bits == [] {
      assert bits + more == more;
    } else {
      assert (bits + more)[1..] == bits[1..] + more;
      ItemsAppend(FpaqcSpec.Update(m, bits[0]), bits[1..], more);
    }
  }

  function ModelAfter(m: Model, bits: seq<bit>): (r: Model)
    requires ModelOk(m)
    ensures ModelOk(r)
    decreases |bits|
  {
    if bits == [] then m else ModelAfter(FpaqcSpec.Update(m, bits[0]), bits[1..])
  }

  lemma ModelAfterAppend(m: Model, bits: seq<bit>, d: bit)
    requires ModelOk(m)
    ensures ModelAfter(m, bits + [d]) == FpaqcSpec.Update(ModelAfter(m, bits), d)
    decreases |bits|
  {
    if bits != [] {
      assert (bits + [d])[1..] == bits[1..] + [d];
      ModelAfterAppend(FpaqcSpec.Update(m, bits[0]), bits[1..], d);
    } else {
      assert ([] + [d])[1..] == [];
      assert ModelAfter(FpaqcSpec.Update(m, d), []) == FpaqcSpec.Update(m, d);
    }
  }

  /** The encoder has coded exactly these bits. */
  ghost predicate Coded(e: Encoder, bits: seq<bit>)
    reads e, e.predictor, e.predictor.t, e.ins, e.qinv
  {
    && e.Valid() && (bits != [] ==> e.n > 0)
    && e.all == Items(InitialModel(), bits)
    && e.predictor.State() == ModelAfter(InitialModel(), bits)
  }

  method EncodeNext(e: Encoder, d: bit, ghost bits: seq<bit>)
    requires Coded(e, bits)
    modifies e`n, e`archive, e`all, e`written, e.predictor`cxt, e.predictor.t, e.ins
    ensures Coded(e, bits + [d])
  {
    ItemsAppend(InitialModel(), bits, [d]);
    ModelAfterAppend(InitialModel(), bits, d);
    e.Encode(d);
    assert Items(ModelAfter(InitialModel(), bits), [d]) == [Item(Probability(ModelAfter(InitialModel(), bits)), d)];
  }

  lemma FileBitsPrefix(f: seq<byte>, i: nat)
    requires i < |f|
    ensures SymbolBits(f[..i]) + ([0] + ByteBits(f[i])) == SymbolBits(f[..i + 1])
    ensures FileBits(f) == SymbolBits(f) + [1]
  {
    assert f[..i + 1][..i] == f[..i];
    SymbolBitsFile(f);
  }

  /** The bits of the bytes, without the closing 1. */
  function SymbolBits(f: seq<byte>): (bits: seq<bit>)
  {
    if f == [] then [] else SymbolBits(f[..|f| - 1]) + ([0] + ByteBits(f[|f| - 1]))
  }

  lemma SymbolBitsFile(f: seq<byte>)
    ensures FileBits(f) == SymbolBits(f) + [1]
  {
    SymbolBitsConcat(f, []);
    assert f + [] == f;
  }

  lemma SymbolBitsConcat(f: seq<byte>, g: seq<byte>)
    ensures FileBits(f + g) == SymbolBits(f) + FileBits(g)
    decreases |f|
  {
    if f == [] {
      assert f + g == g;
    } else {
      var k := |f| - 1;
      assert f + g == f[..k] + ([f[k]] + g);
      SymbolBitsConcat(f[..k], [f[k]] + g);
      assert ([f[k]] + g)[1..] == g;
      assert SymbolBits(f[..k]) + ([0] + ByteBits(f[k]) + FileBits(g))
          == SymbolBits(f[..k]) + ([0] + ByteBits(f[k])) + FileBits(g);
    }
  }

  method EncodeByte(e: Encoder, c: byte, ghost bits: seq<bit>)
    requires Coded(e, bits)
    modifies e`n, e`archive, e`all, e`written, e.predictor`cxt, e.predictor.t, e.ins
    ensures Coded(e, bits + ([0] + ByteBits(c)))
  {
    hide Items, ModelAfter, Blocks;
    EncodeNext(e, 0, bits);
    ghost var coded := bits + [0];
    for j := 8 downto 0
      invariant Coded(e, coded) && coded == bits + [0] + ByteBits(c)[..8 - j]
    {
      EncodeNext(e, c / Pow2(j) % 2, coded);
      coded := coded + [BitAt(c, j)];
      assert ByteBits(c)[..8 - j] == ByteBits(c)[..7 - j] + [BitAt(c, j)];
    }
    assert coded == bits + ([0] + ByteBits(c));
  }

  /** absc */
  method AbsCompress(f: seq<byte>) returns (g: seq<byte>)
    ensures g == Compress(f)
  {
    var e := new Encoder();
    ghost var bits: seq<bit> := [];
    for i := 0 to |f|
      invariant Coded(e, bits) && bits == SymbolBits(f[..i])
      invariant fresh(e) && fresh(e.predictor) && fresh(e.predictor.t) && fresh(e.ins)
    {
      EncodeByte(e, f[i], bits);
      FileBitsPrefix(f, i);
      bits := bits + ([0] + ByteBits(f[i]));
    }
    assert f[..|f|] == f;
    EncodeNext(e, 1, bits);
    SymbolBitsFile(f);
    e.Flush();
    g := e.archive;
  }

  method DecodeByte(e: Decoder) returns (r: Option<byte>)
    requires e.Valid()
    modifies e, e.predictor`cxt, e.predictor.t
    ensures e.predictor.Valid()
    ensures match DecodeSymbol(old(e.State()), 1)
            case None => r == None
            case Some((s, c)) => r == Some(c) && e.Valid() && e.State() == s
  {
    hide DecodeBit;
    var c := 1;
    ghost var s1 := e.State();
    while c < 256
      invariant e.Valid() && 1 <= c < 512
      invariant DecodeSymbol(s1, 1) == DecodeSymbol(e.State(), c)
      decreases 512 - c
    {
      var b := e.Decode();
      if b == None {
        return None;
      }
      c := c + c + b.value;
    }
    r := Some(c - 256);
  }

  lemma ResultStep(whole: Option<(seq<byte>, FpaqcSpec.Decoder)>, done: seq<byte>, s: FpaqcSpec.Decoder)
    requires DecoderOk(s) && DecodeBit(s).Some? && DecodeBit(s).value.1 == 0
    requires Result(whole, done, DecodeFile(s)) && DecodeSymbol(DecodeBit(s).value.0, 1).Some?
    ensures var (s', c) := DecodeSymbol(DecodeBit(s).value.0, 1).value;
            Result(whole, done + [c], DecodeFile(s'))
  {
    hide DecodeBit, DecodeSymbol;
    var (s', c) := DecodeSymbol(DecodeBit(s).value.0, 1).value;
    if DecodeFile(s').Some? {
      Regroup(done, [c], DecodeFile(s').value.0);
    }
  }

  /** absd; None stands for the archive error. */
  method AbsDecompress(g: seq<byte>) returns (out: Option<seq<byte>>)
    ensures match DecodeFile(Start(g))
            case None => out == None
            case Some((f, s)) => out == Some(f)
    ensures forall f :: g == Compress(f) ==> out == Some(f)
  {
    hide DecodeBit, DecodeSymbol, Compress;
    forall f' | g == Compress(f') ensures DecodeFile(Start(g)).Some? && DecodeFile(Start(g)).value.0 == f' {
      RoundTrip(f');
    }
    var e := new Decoder(g);
    var f: seq<byte> := [];
    ghost var s := e.State();
    assert DecodeFile(s).Some? ==> [] + DecodeFile(s).value.0 == DecodeFile(s).value.0;
    var d := e.Decode();
    while d != Some(1)
      invariant fresh(e) && fresh(e.predictor) && fresh(e.predictor.t) && e.predictor.Valid()
      invariant DecoderOk(s)
      invariant match DecodeBit(s)
                case None => d == None
                case Some((s', b)) => d == Some(b) && e.Valid() && e.State() == s'
      invariant Result(DecodeFile(Start(g)), f, DecodeFile(s))
      decreases |s.src|, s.n
    {
      if d == None {
        return None;
      }
      var c := DecodeByte(e);
      if c == None {
        return None;
      }
      ResultStep(DecodeFile(Start(g)), f, s);
      f := f + [c.value];
      s := e.State();
      d := e.Decode();
    }
    assert f + [] == f;
    out := Some(f);
  }

  /** Decoding as a whole gives what is out already, then what the rest gives. */
  ghost predicate Result(whole: Option<(seq<byte>, FpaqcSpec.Decoder)>, done: seq<byte>,
                         rest: Option<(seq<byte>, FpaqcSpec.Decoder)>)
  {
    match rest
    case None => whole == None
    case Some((f, s)) => whole == Some((done + f, s))
  }
}
