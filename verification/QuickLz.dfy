/**
 * The QuickLZ stream shared by all levels: tokens under 31-flag control words, the packer that
 * writes them into a caller's buffer, and the packet header.
 */
module QuickLz {
  import opened Arith
  import opened Bytes

  const CWORD_LEN := 4
  const GROUP := 31
  const SENTINEL := 0x8000_0000
  const MIN_OFFSET := 2
  const UNCONDITIONAL_MATCHLEN := 6
  const UNCOMPRESSED_END := 4
  const MIN_PACKED := 9
  const MAX_SIZE := 0xffff_ffff - 400
  const SLACK := 400

  /** What one flag of a control word stands for. */
  datatype Token =
    | Literal(b: byte)
    | Hashed(hash: nat, len: nat)
    | Near(offset: nat, len: nat)

  predicate Codable(t: Token) {
    match t
    case Literal(_) => true
    case Hashed(hash, len) => hash < 4096 && 3 <= len <= 255
    case Near(offset, len) => MIN_OFFSET < offset < 131071 && 3 <= len <= 255
  }

  ghost predicate AllCodable(ts: seq<Token>) { forall i :: 0 <= i < |ts| ==> Codable(ts[i]) }

  function Flag(t: Token): (b: bit) { if t.Literal? then 0 else 1 }

  /** How many bytes of the source a token stands for. */
  function Span(t: Token): (n: nat) { if t.Literal? then 1 else t.len }

  function Spans(ts: seq<Token>): (n: nat)
  {
    if ts == [] then 0 else Span(ts[0]) + Spans(ts[1..])
  }

  // ---------------------------------------------------------------- little-endian words

  function Bytes4(f: nat): (s: seq<byte>)
    ensures |s| == 4
  {
    [f % 256, f / 256 % 256, f / 0x1_0000 % 256, f / 0x100_0000 % 256]
  }

  function Read4(s: seq<byte>, i: nat): (f: nat)
    requires i + 4 <= |s|
    ensures f < WORD
  {
    s[i] as int + 256 * s[i + 1] as int + 0x1_0000 * s[i + 2] as int + 0x100_0000 * s[i + 3] as int
  }

  lemma BytesOfWord(b0: nat, b1: nat, b2: nat, b3: nat)
    requires b0 < 256 && b1 < 256 && b2 < 256 && b3 < 256
    ensures var f := b0 + 256 * b1 + 0x1_0000 * b2 + 0x100_0000 * b3;
            f % 256 == b0 && f % 0x1_0000 == b0 + 256 * b1
            && f % 0x100_0000 == b0 + 256 * b1 + 0x1_0000 * b2
  {
    var f := b0 + 256 * b1 + 0x1_0000 * b2 + 0x100_0000 * b3;
    DivModUnique(f, 256, b1 + 256 * b2 + 0x1_0000 * b3, b0);
    DivModUnique(f, 0x1_0000, b2 + 256 * b3, b0 + 256 * b1);
    DivModUnique(f, 0x100_0000, b3, b0 + 256 * b1 + 0x1_0000 * b2);
  }

  lemma WordOfBytes(f: nat)
    ensures f % 0x1_0000 == f % 256 + 256 * (f / 256 % 256)
    ensures f % 0x100_0000 == f % 0x1_0000 + 0x1_0000 * (f / 0x1_0000 % 256)
    ensures f % WORD == f % 0x100_0000 + 0x100_0000 * (f / 0x100_0000 % 256)
  {
    SplitWord(f, 256);
    SplitWord(f, 0x1_0000);
    SplitWord(f, 0x100_0000);
  }

  lemma SplitWord(f: nat, d: nat)
    requires d > 0
    ensures f % (d * 256) == f % d + d * (f / d % 256)
  {
    var q, h := f / d, f / d / 256;
    SplitProduct(d, h, q % 256);
    DivModUnique(f, d * 256, h, f % d + d * (q % 256));
  }

  lemma SplitProduct(d: nat, h: nat, l: nat)
    requires d > 0
    ensures d * (256 * h + l) == h * (d * 256) + d * l
    ensures l < 256 ==> d * l + d <= d * 256
  {
    if l < 256 {
      MulMono(l + 1, 256, d);
    }
  }

  /** A word read where the first n bytes of f were written agrees with f on those bytes. */
  lemma ReadBack(s: seq<byte>, i: nat, f: nat, n: nat)
    requires 1 <= n <= 4 && i + 4 <= |s| && s[i..i + n] == Bytes4(f)[..n]
    ensures Read4(s, i) % 256 == f % 256
    ensures n >= 2 ==> Read4(s, i) % 0x1_0000 == f % 0x1_0000
    ensures n >= 3 ==> Read4(s, i) % 0x100_0000 == f % 0x100_0000
    ensures n == 4 ==> Read4(s, i) == f % WORD
  {
    assert forall k :: 0 <= k < n ==> s[i + k] == s[i..i + n][k] == Bytes4(f)[k];
    assert s[i] == Bytes4(f)[0];
    assert n >= 2 ==> s[i + 1] == Bytes4(f)[1];
    assert n >= 3 ==> s[i + 2] == Bytes4(f)[2];
    assert n >= 4 ==> s[i + 3] == Bytes4(f)[3];
    WordOfBytes(f);
    BytesOfWord(s[i], s[i + 1], s[i + 2], s[i + 3]);
  }

  // ---------------------------------------------------------------- tokens as bytes

  function TokenSize(t: Token): (n: nat)
    ensures 1 <= n <= 4
  {
    match t
    case Literal(_) => 1
    case Hashed(_, len) => if len < 18 then 2 else 3
    case Near(offset, len) =>
      if len == 3 && offset <= 63 then 1
      else if len == 3 && offset <= 16383 then 2
      else if len <= 18 && offset <= 1023 then 2
      else if len <= 33 then 3
      else 4
  }

  function TokenWord(t: Token): (f: nat)
    requires Codable(t)
    ensures f < WORD
  {
    match t
    case Literal(b) => b
    case Hashed(hash, len) => if len < 18 then len - 2 + hash * 16 else len * 0x1_0000 + hash * 16
    case Near(offset, len) =>
      if len == 3 && offset <= 63 then offset * 4
      else if len == 3 && offset <= 16383 then offset * 4 + 1
      else if len <= 18 && offset <= 1023 then (len - 3) * 4 + offset * 64 + 2
      else if len <= 33 then (len - 2) * 4 + offset * 128 + 3
      else (len - 3) * 128 + offset * 32768 + 3
  }

  function Payload(t: Token): (s: seq<byte>)
    requires Codable(t)
    ensures |s| == TokenSize(t)
  {
    Bytes4(TokenWord(t))[..TokenSize(t)]
  }

  function Payloads(ts: seq<Token>): (b: seq<byte>)
    requires AllCodable(ts)
  {
    if ts == [] then [] else Payload(ts[0]) + Payloads(ts[1..])
  }

  // ---------------------------------------------------------------- control words

  /** The flags of the next tokens, lowest first, under a sentinel; missing flags are 0. */
  function Word(ts: seq<Token>, slots: nat): (w: nat)
    ensures w > 0
    decreases slots
  {
    if slots == 0 then 1
    else if ts == [] then 2 * Word(ts, slots - 1)
    else Flag(ts[0]) + 2 * Word(ts[1..], slots - 1)
  }

  /** The stream of tokens when `slots` flags are left in the control word already read. */
  function Body(ts: seq<Token>, slots: nat): (b: seq<byte>)
    requires AllCodable(ts)
    decreases |ts|, if slots == 0 then 1 else 0
  {
    if ts == [] then []
    else if slots == 0 then Bytes4(Word(ts, GROUP)) + Body(ts, GROUP)
    else Payload(ts[0]) + Body(ts[1..], slots - 1)
  }

  lemma {:induction false} WordBound(ts: seq<Token>, slots: nat)
    ensures Pow2(slots) <= Word(ts, slots) < 2 * Pow2(slots)
    decreases slots
  {
    if slots > 0 {
      WordBound(if ts == [] then ts else ts[1..], slots - 1);
    }
  }

  lemma {:induction false} WordPrefix(a: seq<Token>, b: seq<Token>, slots: nat)
    requires slots <= |a|
    ensures Word(a + b, slots) == Word(a, slots)
    decreases slots
  {
    if slots > 0 {
      assert (a + b)[1..] == a[1..] + b;
      WordPrefix(a[1..], b, slots - 1);
    }
  }

  /** Tokens that exactly use up the flags in hand leave a stream that starts with a fresh word. */
  lemma {:induction false} BodySplit(a: seq<Token>, b: seq<Token>, slots: nat)
    requires AllCodable(a) && AllCodable(b)
    requires slots <= |a| && (|a| - slots) % GROUP == 0
    ensures Body(a + b, slots) == Body(a, slots) + Body(b, 0)
    decreases |a|, if slots == 0 then 1 else 0
  {
    hide Word, Payload, Bytes4;
    if a == [] {
      assert a + b == b;
    } else if slots == 0 {
      WordPrefix(a, b, GROUP);
      BodySplit(a, b, GROUP);
      Regroup(Bytes4(Word(a, GROUP)), Body(a, GROUP), Body(b, 0));
    } else {
      assert (a + b)[1..] == a[1..] + b && (a + b)[0] == a[0];
      BodySplit(a[1..], b, slots - 1);
      Regroup(Payload(a[0]), Body(a[1..], slots - 1), Body(b, 0));
    }
  }

  lemma {:induction false} BodyOfGroup(ts: seq<Token>, slots: nat)
    requires AllCodable(ts) && |ts| <= slots
    ensures Body(ts, slots) == Payloads(ts)
    decreases |ts|
  {
    if ts != [] {
      BodyOfGroup(ts[1..], slots - 1);
    }
  }

  /** Full groups followed by one open group: the stream ends with that group under its word. */
  lemma BodyOfGroups(done: seq<Token>, group: seq<Token>)
    requires AllCodable(done) && AllCodable(group)
    requires |done| % GROUP == 0 && 0 < |group| <= GROUP
    ensures Body(done + group, 0) == Body(done, 0) + Bytes4(Word(group, GROUP)) + Payloads(group)
  {
    hide Word, Payloads;
    BodySplit(done, group, 0);
    BodyOfGroup(group, GROUP);
    assert Body(group, 0) == Bytes4(Word(group, GROUP)) + Payloads(group);
  }

  lemma {:induction false} PayloadsSnoc(ts: seq<Token>, t: Token)
    requires AllCodable(ts) && Codable(t)
    ensures AllCodable(ts + [t]) && Payloads(ts + [t]) == Payloads(ts) + Payload(t)
  {
    if ts == [] {
      assert ts + [t] == [t];
      assert Payloads([t]) == Payload(t) + Payloads([]);
    } else {
      assert (ts + [t])[1..] == ts[1..] + [t];
      PayloadsSnoc(ts[1..], t);
      assert AllCodable(ts + [t]);
      assert Payloads(ts + [t]) == Payload(ts[0]) + (Payloads(ts[1..]) + Payload(t));
    }
  }

  // ---------------------------------------------------------------- filling a control word

  /** The flags of tokens as a number, the first token lowest. */
  function Flags(ts: seq<Token>): (r: nat)
  {
    if ts == [] then 0 else Flag(ts[0]) + 2 * Flags(ts[1..])
  }

  lemma {:induction false} FlagsSnoc(ts: seq<Token>, t: Token)
    ensures Flags(ts + [t]) == Flags(ts) + Times(Flag(t), Pow2(|ts|))
  {
    if ts == [] {
      assert ts + [t] == [t];
    } else {
      assert (ts + [t])[1..] == ts[1..] + [t];
      FlagsSnoc(ts[1..], t);
    }
  }

  lemma {:induction false} FlagsWord(ts: seq<Token>, slots: nat)
    requires |ts| <= slots
    ensures Word(ts, slots) == Flags(ts) + Pow2(slots)
    decreases slots
  {
    if slots > 0 {
      FlagsWord(if ts == [] then ts else ts[1..], slots - 1);
    }
  }

  /** The word in progress: its flags above a sentinel that reaches bit 0 when it is full. */
  function Filling(ts: seq<Token>): (r: nat)
    requires |ts| <= GROUP
  {
    Times(1 + 2 * Flags(ts), Pow2(GROUP - |ts|))
  }

  lemma FillingStep(ts: seq<Token>, t: Token)
    requires |ts| < GROUP
    ensures Filling(ts + [t]) == Filling(ts) / 2 + Flag(t) as int * SENTINEL
    ensures Filling(ts) % 2 == 0
  {
    hide Flags;
    var k, n := |ts|, GROUP - 1 - |ts|;
    FlagsSnoc(ts, t);
    Sentinel();
    Pow2Add(n, k + 1);
    var p := Pow2(n);
    assert Pow2(GROUP - k) == 2 * p;
    Spread(Flags(ts), Flag(t), Pow2(k), p);
  }

  lemma Spread(f: nat, b: bit, q: nat, p: nat)
    ensures Times(1 + 2 * (f + Times(b, q)), p) == Times(1 + 2 * f, p) + Times(b, p * (2 * q))
    ensures Times(1 + 2 * f, 2 * p) == 2 * Times(1 + 2 * f, p)
  {
    Distrib(1 + 2 * f, 2 * Times(b, q), p);
    if b == 1 {
      assert 2 * q * p == p * (2 * q);
    }
  }

  lemma Sentinel()
    ensures Pow2(GROUP) == SENTINEL && Pow2(GROUP + 1) == WORD
  {
    Pow2Values();
    Pow2Add(7, 7);
    Pow2Add(14, 14);
    Pow2Add(28, 3);
    Pow2Add(28, 4);
  }

  lemma FillingFull(ts: seq<Token>)
    requires |ts| <= GROUP
    ensures |ts| == GROUP ==> Filling(ts) % 2 == 1
    ensures |ts| == GROUP ==> Filling(ts) / 2 + SENTINEL == Word(ts, GROUP)
    ensures |ts| < GROUP ==> Filling(ts) % 2 == 0
  {
    hide Flags, Word;
    FlagsWord(ts, GROUP);
    Sentinel();
    if |ts| == GROUP {
      assert Pow2(0) == 1;
    } else {
      Spread(Flags(ts), 0, 0, Pow2(GROUP - 1 - |ts|));
    }
  }

  lemma FillingEmpty()
    ensures Filling([]) == SENTINEL
  {
    Sentinel();
  }

  // ---------------------------------------------------------------- size of a stream

  lemma TokenShrinks(t: Token)
    requires Codable(t)
    ensures TokenSize(t) <= Span(t)
  {
  }

  /** Only control words make a stream longer than what it stands for. */
  lemma {:induction false} BodyLength(ts: seq<Token>, slots: nat)
    requires AllCodable(ts) && slots <= GROUP
    ensures GROUP * |Body(ts, slots)| <= GROUP * Spans(ts) + 4 * (|ts| + GROUP - 1 - slots) + 4
    ensures |ts| <= slots ==> |Body(ts, slots)| <= Spans(ts)
    decreases |ts|, if slots == 0 then 1 else 0
  {
    hide Word, Payload;
    if ts == [] {
    } else if slots == 0 {
      BodyLength(ts, GROUP);
    } else {
      TokenShrinks(ts[0]);
      BodyLength(ts[1..], slots - 1);
    }
  }

  // ---------------------------------------------------------------- hashing

  /** The exclusive or of the n lowest bits. */
  function XorBits(a: nat, b: nat, n: nat): (r: nat)
    ensures r < Pow2(n)
  {
    if n == 0 then 0 else (a + b) % 2 + 2 * XorBits(a / 2, b / 2, n - 1)
  }

  const HASH_BITS := 12
  const HASH_VALUES := 4096

  /** ((i >> 12) ^ i) & 4095 */
  function HashFunc(i: nat): (h: nat)
    ensures h < HASH_VALUES
  {
    HashValues();
    XorBits(i / 4096 % 4096, i % 4096, HASH_BITS)
  }

  lemma HashValues()
    ensures Pow2(HASH_BITS) == HASH_VALUES
  {
    Pow2Values();
    Pow2Add(6, 6);
  }

  lemma BitBelow(x: nat, k: nat)
    requires k > 0
    ensures BitAt(x / 2, k - 1) == BitAt(x, k)
  {
    DivAtLeast(x, 2, 0);
    HalfTwice(x, Pow2(k - 1));
  }

  lemma HalfTwice(x: nat, p: nat)
    requires p > 0
    ensures x / 2 / p == x / (2 * p)
  {
    var q, r := x / 2 / p, x / 2 % p;
    assert x / 2 == q * p + r;
    assert x == q * (2 * p) + (2 * r + x % 2);
    DivModUnique(x, 2 * p, q, 2 * r + x % 2);
  }

  lemma LowestBit(x: nat)
    ensures BitAt(x, 0) == x % 2
  {
    assert Pow2(0) == 1;
  }

  lemma XorStep(a: nat, b: nat, n: nat)
    requires n > 0
    ensures XorBits(a, b, n) % 2 == (a + b) % 2 && XorBits(a, b, n) / 2 == XorBits(a / 2, b / 2, n - 1)
  {
  }

  /** Every bit of the exclusive or is that of the bits. */
  lemma {:induction false} XorBitAt(a: nat, b: nat, n: nat, k: nat)
    requires k < n
    ensures BitAt(XorBits(a, b, n), k) == (BitAt(a, k) + BitAt(b, k)) % 2
  {
    hide XorBits, BitAt;
    var x := XorBits(a, b, n);
    XorStep(a, b, n);
    if k == 0 {
      LowestBit(a);
      LowestBit(b);
      LowestBit(x);
    } else {
      BitBelow(a, k);
      BitBelow(b, k);
      BitBelow(x, k);
      XorBitAt(a / 2, b / 2, n - 1, k - 1);
    }
  }

  lemma {:induction false} LowBitAt(x: nat, n: nat, k: nat)
    requires k < n
    ensures BitAt(x % Pow2(n), k) == BitAt(x, k)
    decreases n
  {
    hide BitAt;
    var p := Pow2(n - 1);
    assert Pow2(n) == 2 * p;
    HalfOfRemainder(x, p);
    if k == 0 {
      LowestBit(x);
      LowestBit(x % Pow2(n));
    } else {
      BitBelow(x, k);
      BitBelow(x % Pow2(n), k);
      LowBitAt(x / 2, n - 1, k - 1);
    }
  }

  lemma HalfOfRemainder(x: nat, p: nat)
    requires p > 0
    ensures x % (2 * p) / 2 == x / 2 % p && x % (2 * p) % 2 == x % 2
  {
    var q, r := x / 2 / p, x / 2 % p;
    assert x / 2 == q * p + r;
    assert x == q * (2 * p) + (2 * r + x % 2);
    DivModUnique(x, 2 * p, q, 2 * r + x % 2);
    DivModUnique(2 * r + x % 2, 2, r, x % 2);
  }

  /** Bit k of the hash is the exclusive or of bits k and k + 12 of the word. */
  lemma HashBits(i: nat, k: nat)
    requires k < HASH_BITS
    ensures BitAt(HashFunc(i), k) == (BitAt(i, k) + BitAt(i, k + HASH_BITS)) % 2
  {
    HashValues();
    assert ShiftedRight(i, HASH_BITS) == i / 4096;
    hide XorBits, Pow2, BitAt, ShiftedRight;
    XorBitAt(i / 4096 % 4096, i % 4096, HASH_BITS, k);
    LowBitAt(i, HASH_BITS, k);
    LowBitAt(i / 4096, HASH_BITS, k);
    ShiftedBit(i, HASH_BITS, k);
  }

  lemma ShiftedBit(i: nat, n: nat, k: nat)
    ensures BitAt(ShiftedRight(i, n), k) == BitAt(i, k + n)
  {
    hide Pow2;
    Pow2Add(k, n);
    QuotientTwice(i, Pow2(n), Pow2(k));
  }

  lemma QuotientTwice(i: nat, p: nat, q: nat)
    requires p > 0 && q > 0
    ensures i / p / q == i / (q * p)
  {
    var a, r, b, s := i / p, i % p, i / p / q, i / p % q;
    assert i == a * p + r && a == b * q + s;
    Distrib(b * q, s, p);
    assert b * q * p == b * (q * p);
    MulMono(s, q - 1, p);
    MulMono(0, s, p);
    Distrib(q, 1, p);
    DivModUnique(i, q * p, b, s * p + r);
  }

  /** The hash of a word depends on its first three bytes only. */
  lemma HashOfThree(f: nat, g: nat)
    requires f % 0x100_0000 == g % 0x100_0000
    ensures HashFunc(f) == HashFunc(g)
  {
    hide XorBits;
    LowTwelve(f);
    LowTwelve(g);
  }

  lemma LowTwelve(f: nat)
    ensures f / 4096 % 4096 == f % 0x100_0000 / 4096 && f % 4096 == f % 0x100_0000 % 4096
  {
    var q, m := f / 0x100_0000, f % 0x100_0000;
    assert f == m + q * 4096 * 4096;
    ModShift(m, q * 4096, 4096);
    ModShift(m / 4096, q, 4096);
    DivModUnique(m / 4096, 4096, 0, m / 4096);
  }

  // ---------------------------------------------------------------- packet header

  /** 01SSLLHC: streaming mode, level, header size and whether the body is compressed. */
  function HeaderByte(long: bool, compressed: bit, level: nat, streaming: nat): (b: byte)
    requires level < 4 && streaming < 4
    ensures b % 2 == compressed && (b / 2 % 2 == 1 <==> long)
    ensures b / 4 % 4 == level && b / 16 % 4 == streaming
  {
    HeaderFields(if long then 1 else 0, compressed, level, streaming);
    (if long then 2 else 0) + compressed + level * 4 + 64 + streaming * 16
  }

  lemma HeaderFields(long: bit, compressed: bit, level: nat, streaming: nat)
    requires level < 4 && streaming < 4
    ensures var b := 2 * long + compressed + level * 4 + 64 + streaming * 16;
            b < 256 && b % 2 == compressed && b / 2 % 2 == long && b / 4 % 4 == level && b / 16 % 4 == streaming
  {
    var b := 2 * long + compressed + level * 4 + 64 + streaming * 16;
    var h := level + 16 + streaming * 4;
    DivModUnique(b, 2, long + 2 * h, compressed);
    DivModUnique(long + 2 * h, 2, h, long);
    DivModUnique(b, 4, h, 2 * long + compressed);
    DivModUnique(h, 4, 4 + streaming, level);
    DivModUnique(b, 16, 4 + streaming, level * 4 + 2 * long + compressed);
    DivModUnique(4 + streaming, 4, 1, streaming);
  }

  function CountBytes(p: seq<byte>): (r: nat)
    requires p != []
  {
    if p[0] / 2 % 2 == 1 then 4 else 1
  }

  function SizeHeader(p: seq<byte>): (r: nat)
    requires p != []
  {
    2 * CountBytes(p) + 1
  }

  function SizeCompressed(p: seq<byte>): (r: nat)
    requires |p| >= 9
  {
    if CountBytes(p) == 4 then Read4(p, 1) else Read4(p, 1) % 256
  }

  function SizeDecompressed(p: seq<byte>): (r: nat)
    requires |p| >= 9
  {
    var n := CountBytes(p);
    if n == 4 then Read4(p, 1 + n) else Read4(p, 1 + n) % 256
  }

  /** The header length qlz_compress chooses. */
  function Base(size: nat): (r: nat) { if size < 216 then 3 else 9 }

  lemma HeaderReadBack(p: seq<byte>, size: nat, r: nat, compressed: bit, level: nat, streaming: nat)
    requires |p| >= 9 && level < 4 && streaming < 4
    requires p[0] == HeaderByte(Base(size) == 9, compressed, level, streaming)
    requires Base(size) == 3 ==> r < 256 && p[1] == r && p[2] == size
    requires Base(size) == 9 ==> r < WORD && size < WORD && p[1..5] == Bytes4(r) && p[5..9] == Bytes4(size)
    ensures SizeHeader(p) == Base(size) && SizeCompressed(p) == r && SizeDecompressed(p) == size
  {
    assert CountBytes(p) == if Base(size) == 9 then 4 else 1;
    hide HeaderByte, CountBytes;
    if Base(size) == 9 {
      LongField(p, 1, r);
      LongField(p, 5, size);
    } else {
      ReadLowByte(p, 1);
      ReadLowByte(p, 2);
    }
  }

  lemma LongField(p: seq<byte>, i: nat, v: nat)
    requires i + 4 <= |p| && v < WORD && p[i..i + 4] == Bytes4(v)
    ensures Read4(p, i) == v
  {
    hide Bytes4, Read4;
    assert Bytes4(v)[..4] == Bytes4(v);
    ReadBack(p, i, v, 4);
    DivModUnique(v, WORD, 0, v);
  }

  lemma ReadLowByte(s: seq<byte>, i: nat)
    requires i + 4 <= |s|
    ensures Read4(s, i) % 256 == s[i]
  {
    BytesOfWord(s[i], s[i + 1], s[i + 2], s[i + 3]);
  }
}
