/** Bytes, powers of two and the bits of a byte, shared by the coders. */
module Bytes {
  import opened Arith

  type byte = b: int | 0 <= b < 256
  type bit = b: int | 0 <= b < 2

  /** The number of values of a 32-bit word, and its number of bits. */
  const WORD := 0x1_0000_0000
  const WORD_BITS := 32

  type uint = v: int | 0 <= v < WORD

  datatype Option<+T> = None | Some(value: T)

  function Pow2(n: nat): (p: nat)
    ensures p > 0
  {
    if n == 0 then 1 else 2 * Pow2(n - 1)
  }

  /** (c >> j) & 1 */
  function BitAt(c: nat, j: nat): (b: bit)
  {
    c / Pow2(j) % 2
  }

  /** The bits of a byte, most significant first. */
  function ByteBits(c: byte): (bits: seq<bit>)
    ensures |bits| == 8
  {
    seq(8, i requires 0 <= i < 8 => BitAt(c, 7 - i))
  }

  /** A context that starts with a leading 1 and shifts in the bits that follow. */
  function Fold(ctx: nat, bits: seq<bit>): (ctx': nat)
    decreases |bits|
  {
    if bits == [] then ctx else Fold(2 * ctx + bits[0], bits[1..])
  }

  lemma {:induction false} FoldSnoc(ctx: nat, bits: seq<bit>, b: bit)
    ensures Fold(ctx, bits + [b]) == 2 * Fold(ctx, bits) + b
    decreases |bits|
  {
    if bits != [] {
      assert (bits + [b])[1..] == bits[1..] + [b];
      FoldSnoc(2 * ctx + bits[0], bits[1..], b);
    } else {
      assert [] + [b] == [b];
      assert Fold(ctx, [b]) == Fold(2 * ctx + b, [b][1..]);
    }
  }

  /** The bits of bytes, each byte most significant first. */
  function BitsOf(b: seq<byte>): (bits: seq<bit>)
    ensures |bits| == 8 * |b|
  {
    if b == [] then [] else ByteBits(b[0]) + BitsOf(b[1..])
  }

  lemma {:induction false} BitsOfParts(a: seq<byte>, b: seq<byte>)
    ensures BitsOf(a + b) == BitsOf(a) + BitsOf(b)
  {
    if a == [] {
      assert a + b == b;
    } else {
      assert (a + b)[1..] == a[1..] + b;
      BitsOfParts(a[1..], b);
      Regroup(ByteBits(a[0]), BitsOf(a[1..]), BitsOf(b));
    }
  }

  lemma Regroup<T>(a: seq<T>, b: seq<T>, c: seq<T>)
    ensures a + (b + c) == a + b + c
  {
  }

  lemma BitsOfSnoc(b: seq<byte>, c: byte)
    ensures BitsOf(b + [c]) == BitsOf(b) + ByteBits(c)
  {
    BitsOfParts(b, [c]);
    assert BitsOf([c]) == ByteBits(c) + BitsOf([c][1..]);
  }

  lemma Pow2Values()
    ensures Pow2(0) == 1 && Pow2(1) == 2 && Pow2(2) == 4 && Pow2(3) == 8
    ensures Pow2(4) == 16 && Pow2(5) == 32 && Pow2(6) == 64 && Pow2(7) == 128
  {
    assert Pow2(3) == 2 * Pow2(2) == 8;
    assert Pow2(5) == 2 * Pow2(4) == 4 * Pow2(3);
    assert Pow2(7) == 2 * Pow2(6) == 4 * Pow2(5);
  }

  lemma {:induction false} Pow2Add(a: nat, b: nat)
    ensures Pow2(a + b) == Pow2(a) * Pow2(b)
  {
    if a > 0 {
      Pow2Add(a - 1, b);
    }
  }

  lemma ShiftIn(c: byte, k: nat)
    requires k < 8
    ensures 2 * ((256 + c) / Pow2(k + 1)) + BitAt(c, k) == (256 + c) / Pow2(k)
  {
    var p, m := Pow2(k), Pow2(7 - k);
    Pow2Add(7 - k, k + 1);
    Pow2Values();
    assert 256 == m * (2 * p);
    DivDouble(c, p);
    ModShift(c, m, 2 * p);
    RegroupDouble(m, 0, p, 0);
    ModShift(c, 2 * m, p);
  }

  lemma FoldTail(c: byte, ctx: nat, i: nat)
    requires i <= 8 && ctx == (256 + c) / Pow2(8 - i)
    ensures Fold(ctx, ByteBits(c)[i..]) == 256 + c
    decreases 8 - i
  {
    if i < 8 {
      var rest := ByteBits(c)[i..];
      assert rest[0] == BitAt(c, 7 - i) && rest[1..] == ByteBits(c)[i + 1..];
      ShiftIn(c, 7 - i);
      FoldTail(c, 2 * ctx + rest[0], i + 1);
    }
  }

  /** Shifting all eight bits of a byte into the context 1 gives the byte behind a leading 1. */
  lemma FoldByte(c: byte)
    ensures Fold(1, ByteBits(c)) == 256 + c
  {
    Pow2Values();
    assert Pow2(8) == 256;
    FoldTail(c, 1, 0);
    assert ByteBits(c)[0..] == ByteBits(c);
  }

  /** How many bits a context holds behind its leading 1. */
  function Depth(ctx: nat): (d: nat)
    requires ctx >= 1
  {
    if ctx == 1 then 0 else 1 + Depth(ctx / 2)
  }

  lemma {:induction false} DepthAtLeast(ctx: nat, k: nat)
    requires ctx >= 1
    ensures Depth(ctx) >= k <==> ctx >= Pow2(k)
    decreases ctx
  {
    if ctx > 1 && k > 0 {
      DepthAtLeast(ctx / 2, k - 1);
    }
  }

  /** Eight bits are complete exactly when the context has reached 256. */
  lemma DepthEight(ctx: nat)
    requires ctx >= 1
    ensures Depth(ctx) >= 8 <==> ctx >= 256
    ensures Depth(ctx) <= 8 <==> ctx < 512
  {
    Pow2Values();
    assert Pow2(8) == 256 && Pow2(9) == 512;
    DepthAtLeast(ctx, 8);
    DepthAtLeast(ctx, 9);
  }

  lemma DepthStep(ctx: nat, b: bit)
    requires ctx >= 1
    ensures Depth(2 * ctx + b) == Depth(ctx) + 1
  {
    assert (2 * ctx + b) / 2 == ctx;
  }

  function Zeros(n: nat): (s: seq<bit>)
    ensures |s| == n
  {
    seq(n, _ => 0)
  }

  /** A bit of a stream; 0 past its end. */
  function PaddedAt(s: seq<bit>, k: nat): (b: bit) { if k < |s| then s[k] else 0 }

  /** The last n bits of x, most significant first. */
  function Bits(x: nat, n: nat): (bits: seq<bit>)
    ensures |bits| == n
  {
    seq(n, i requires 0 <= i < n => BitAt(x, n - 1 - i))
  }

  /** x >> n */
  function ShiftedRight(x: nat, n: nat): (r: nat)
  {
    DivAtLeast(x, Pow2(n), 0);
    x / Pow2(n)
  }

  lemma {:induction false} FoldBits(x: nat, n: nat)
    ensures Fold(ShiftedRight(x, n), Bits(x, n)) == x
  {
    if n > 0 {
      DivDouble(x, Pow2(n - 1));
      assert Bits(x, n)[0] == BitAt(x, n - 1) && Bits(x, n)[1..] == Bits(x, n - 1);
      FoldBits(x, n - 1);
    }
  }

  /** Shifting all 32 bits of a word into 0 gives the word. */
  lemma FoldWord(x: nat)
    requires x < WORD
    ensures Fold(0, Bits(x, WORD_BITS)) == x
  {
    Pow2Values();
    Pow2Add(4, 4);
    Pow2Add(8, 8);
    Pow2Add(16, 16);
    DivModUnique(x, WORD, 0, x);
    FoldBits(x, WORD_BITS);
  }

  // ---------------------------------------------------------------- parts of a stream

  /** s holds p at place i. */
  predicate Reads<T(==)>(s: seq<T>, i: nat, p: seq<T>) {
    i + |p| <= |s| && s[i..i + |p|] == p
  }

  lemma ReadsParts<T>(s: seq<T>, i: nat, a: seq<T>, b: seq<T>)
    requires Reads(s, i, a + b)
    ensures Reads(s, i, a) && Reads(s, i + |a|, b)
  {
    assert s[i..i + |a|] == s[i..i + |a + b|][..|a|] == a;
    assert s[i + |a|..i + |a| + |b|] == s[i..i + |a + b|][|a|..] == b;
  }

  lemma ReadsInside<T>(s: seq<T>, i: nat, p: seq<T>)
    requires Reads(s, i, p)
    ensures i + |p| <= |s|
  {
  }
}
