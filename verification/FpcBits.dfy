/** Values of 64-bit registers as their bits, lowest first, and bytes as runs of eight bits. */
module FpcBits {
  import opened Arith
  import opened Bytes

  const WIDTH := 64

  /** The n lowest bits of v. */
  function LowBits(v: nat, n: nat): (s: seq<bit>)
    ensures |s| == n
    decreases n
  {
    if n == 0 then [] else [v % 2] + LowBits(v / 2, n - 1)
  }

  function Value(s: seq<bit>): (v: nat)
  {
    if s == [] then 0 else s[0] + 2 * Value(s[1..])
  }

  lemma {:induction false} ValueBound(s: seq<bit>)
    ensures Value(s) < Pow2(|s|)
  {
    if s != [] {
      ValueBound(s[1..]);
    }
  }

  lemma {:induction false} ValueOfLow(v: nat, n: nat)
    requires v < Pow2(n)
    ensures Value(LowBits(v, n)) == v
    decreases n
  {
    if n > 0 {
      ValueOfLow(v / 2, n - 1);
    }
  }

  lemma {:induction false} LowOfValue(s: seq<bit>)
    ensures LowBits(Value(s), |s|) == s
  {
    if s != [] {
      LowOfValue(s[1..]);
    }
  }

  /** The first n bits of a register are its value modulo 2^n. */
  lemma {:induction false} ValuePrefix(s: seq<bit>, n: nat)
    requires n <= |s|
    ensures Value(s) % Pow2(n) == Value(s[..n])
    decreases n
  {
    if n > 0 {
      ValuePrefix(s[1..], n - 1);
      TailOfPrefix(s, n);
      assert Pow2(n) == 2 * Pow2(n - 1) && Value(s) == s[0] + 2 * Value(s[1..]);
      assert Value(s[..n]) == s[0] + 2 * Value(s[..n][1..]);
      hide Pow2, Value;
      ModDouble(Value(s[1..]), s[0], Pow2(n - 1));
    } else {
      DivModUnique(Value(s), 1, Value(s), 0);
    }
  }

  lemma TailOfPrefix<T>(s: seq<T>, n: nat)
    requires 0 < n <= |s|
    ensures s[..n][1..] == s[1..][..n - 1]
  {
  }

  lemma ModDouble(v: nat, b: bit, p: nat)
    requires p > 0
    ensures (b + 2 * v) % (2 * p) == b + 2 * (v % p)
  {
    var q := v / p;
    assert b + 2 * v == q * (2 * p) + (b + 2 * (v % p));
    DivModUnique(b + 2 * v, 2 * p, q, b + 2 * (v % p));
  }

  lemma {:induction false} LowOfSmall(v: nat, n: nat, m: nat)
    requires v < Pow2(n) && n <= m
    ensures LowBits(v, m) == LowBits(v, n) + Zeros(m - n)
    decreases n
  {
    if n > 0 {
      LowOfSmall(v / 2, n - 1, m - 1);
      assert [v % 2] + (LowBits(v / 2, n - 1) + Zeros(m - n)) == LowBits(v, n) + Zeros(m - n);
    } else {
      LowOfZero(m);
      assert [] + Zeros(m) == Zeros(m);
    }
  }

  lemma {:induction false} LowOfZero(m: nat)
    ensures LowBits(0, m) == Zeros(m)
  {
    if m > 0 {
      LowOfZero(m - 1);
      assert [0] + Zeros(m - 1) == Zeros(m);
    }
  }

  // ---------------------------------------------------------------- bytes

  function ByteOf(s: seq<bit>): (b: byte)
    requires |s| == 8
  {
    ValueBound(s);
    Pow2Values();
    assert Pow2(8) == 256;
    Value(s)
  }

  /** The bits of bytes, each lowest first. */
  function LowBitsOf(b: seq<byte>): (s: seq<bit>)
    ensures |s| == 8 * |b|
  {
    if b == [] then [] else LowBits(b[0], 8) + LowBitsOf(b[1..])
  }

  /** The bytes a register is stored as. */
  function WordBytes(w: seq<bit>): (b: seq<byte>)
    requires |w| % 8 == 0
    ensures |b| == |w| / 8
  {
    if w == [] then [] else [ByteOf(w[..8])] + WordBytes(w[8..])
  }

  lemma {:induction false} LowBitsOfWord(w: seq<bit>)
    requires |w| % 8 == 0
    ensures LowBitsOf(WordBytes(w)) == w
  {
    if w != [] {
      LowBitsOfWord(w[8..]);
      LowOfValue(w[..8]);
      assert w == w[..8] + w[8..];
    }
  }

  lemma {:induction false} LowBitsOfParts(a: seq<byte>, b: seq<byte>)
    ensures LowBitsOf(a + b) == LowBitsOf(a) + LowBitsOf(b)
  {
    if a == [] {
      assert a + b == b;
    } else {
      assert (a + b)[1..] == a[1..] + b;
      LowBitsOfParts(a[1..], b);
      Regroup(LowBits(a[0], 8), LowBitsOf(a[1..]), LowBitsOf(b));
    }
  }

  /** The bits of a slice are the slice of the bits. */
  lemma LowBitsOfSlice(b: seq<byte>, i: nat, j: nat)
    requires i <= j <= |b|
    ensures LowBitsOf(b[i..j]) == LowBitsOf(b)[8 * i..8 * j]
  {
    hide LowBitsOf;
    Cut(b, i, j);
    LowBitsOfParts(b[..i] + b[i..j], b[j..]);
    LowBitsOfParts(b[..i], b[i..j]);
    Middle(LowBitsOf(b[..i]), LowBitsOf(b[i..j]), LowBitsOf(b[j..]));
  }

  lemma Cut<T>(b: seq<T>, i: nat, j: nat)
    requires i <= j <= |b|
    ensures b == b[..i] + b[i..j] + b[j..]
  {
  }

  lemma Middle<T>(a: seq<T>, b: seq<T>, c: seq<T>)
    ensures (a + b + c)[|a|..|a| + |b|] == b
  {
  }
}
