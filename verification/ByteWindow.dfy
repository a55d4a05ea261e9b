/** A byte string seen through its first four bytes, the window of a 32-bit coder. */
module ByteWindow {
  import opened Arith
  import opened Bytes

  const TOP := 0x100_0000

  // ---------------------------------------------------------------- input

  /** Input bytes past the end read as 0. */
  function Head(src: seq<byte>): (b: byte) { if src == [] then 0 else src[0] }

  function Rest(src: seq<byte>): (r: seq<byte>)
    ensures |r| <= |src|
  {
    if src == [] then [] else src[1..]
  }

  /** The first four bytes as a big-endian number. */
  function Window(src: seq<byte>): (v: nat)
    ensures v < WORD
  {
    Head(src) as int * 0x100_0000 + Head(Rest(src)) as int * 0x1_0000
    + Head(Rest(Rest(src))) as int * 0x100 + Head(Rest(Rest(Rest(src))))
  }

  function Beyond(src: seq<byte>): (r: seq<byte>) { Rest(Rest(Rest(Rest(src)))) }

  lemma WindowShift(src: seq<byte>)
    ensures Window(Rest(src)) == (Window(src) % TOP) * 256 + Head(Beyond(src))
    ensures Window(src) == Head(src) as int * TOP + Window(Rest(src)) / 256
    ensures Beyond(Rest(src)) == Rest(Beyond(src))
  {
  }

  /** An interval of codes: its low end and its length. */
  datatype Interval = Interval(low: nat, range: nat)

  // ---------------------------------------------------------------- bytes of a word

  lemma ByteIn1(c: nat, b: byte)
    ensures (c * 256 + b) % WORD % 0x100 == b
  {
  }

  lemma ByteIn2(c: nat, b: byte)
    ensures (c * 256 + b) % WORD % 0x1_0000 == c % 0x100 * 0x100 + b
  {
  }

  lemma ByteIn3(c: nat, b: byte)
    ensures (c * 256 + b) % WORD % 0x100_0000 == c % 0x1_0000 * 0x100 + b
  {
  }

  lemma ByteInTop(c: nat, b: byte)
    ensures (c * 256 + b) % WORD == c % 0x100_0000 * 0x100 + b
  {
  }

  /** Four bytes shifted into a 32-bit code push out whatever it held before. */
  lemma FourBytesIn(c: nat, b1: byte, b2: byte, b3: byte, b4: byte)
    ensures ((((c * 256 + b1) % WORD * 256 + b2) % WORD * 256 + b3) % WORD * 256 + b4) % WORD
         == b1 as int * 0x100_0000 + b2 as int * 0x1_0000 + b3 as int * 0x100 + b4
  {
    var c1 := (c * 256 + b1) % WORD;
    var c2 := (c1 * 256 + b2) % WORD;
    var c3 := (c2 * 256 + b3) % WORD;
    ByteIn1(c, b1);
    ByteIn2(c1, b2);
    ByteIn3(c2, b3);
    ByteInTop(c3, b4);
  }

  lemma ByteOut1(low: nat)
    requires low < WORD
    ensures low % TOP * 256 < WORD && low % TOP * 256 / TOP == low / 0x1_0000 % 256
  {
    var q, r := low / 0x1_0000, low % 0x1_0000;
    DivModUnique(low, TOP, q / 256, q % 256 * 0x1_0000 + r);
    DivModUnique(low % TOP * 256, TOP, q % 256, r * 256);
  }

  lemma ByteOut2(low: nat)
    requires low < WORD
    ensures low % TOP * 256 / 0x1_0000 % 256 == low / 0x100 % 256
  {
    assert low % TOP * 256 / 0x1_0000 == low % TOP / 0x100;
    assert low / 0x100 == low / TOP * 0x1_0000 + low % TOP / 0x100;
  }

  lemma ByteOut3(low: nat)
    requires low < WORD
    ensures low % TOP * 256 / 0x100 % 256 == low % 256
    ensures low % TOP * 256 % 256 == 0
  {
  }

  lemma ByteSum(low: nat)
    requires low < WORD
    ensures low / 0x100_0000 * 0x100_0000 + low / 0x1_0000 % 256 * 0x1_0000
            + low / 0x100 % 256 * 0x100 + low % 256 == low
  {
  }

  function LowBytes(low: nat): (b: seq<byte>)
    requires low < WORD
    ensures |b| == 4
  {
    [low / 0x100_0000, low / 0x1_0000 % 256, low / 0x100 % 256, low % 256]
  }

  /** Shifting a 32-bit number up byte by byte shows its bytes from the top. */
  lemma LowBytesStep(low: nat)
    requires low < WORD
    ensures low % TOP * 256 < WORD
    ensures LowBytes(low) == [low / TOP] + LowBytes(low % TOP * 256)[..3]
    ensures LowBytes(low % TOP * 256)[3] == 0
  {
    ByteOut1(low);
    ByteOut2(low);
    ByteOut3(low);
  }

  /** The first n bytes are the top one and n - 1 bytes after a shift. */
  lemma LowBytesNext(low: nat, n: nat)
    requires low < WORD && 1 <= n <= 4
    ensures low % TOP * 256 < WORD
    ensures LowBytes(low)[..n] == [low / TOP] + LowBytes(low % TOP * 256)[..n - 1]
  {
    LowBytesStep(low);
    hide LowBytes;
    var b := LowBytes(low % TOP * 256);
    assert ([low / TOP] + b[..3])[..n] == [low / TOP] + b[..3][..n - 1];
    assert b[..3][..n - 1] == b[..n - 1];
  }

  lemma LowBytesZero(low: nat)
    requires low < WORD && LowBytes(low) == [0, 0, 0, 0]
    ensures low == 0
  {
    assert LowBytes(low)[0] == low / 0x100_0000 && LowBytes(low)[1] == low / 0x1_0000 % 256;
    assert LowBytes(low)[2] == low / 0x100 % 256 && LowBytes(low)[3] == low % 256;
  }

  lemma LowBytesWindow(low: nat, trail: seq<byte>)
    requires low < WORD
    ensures Window(LowBytes(low) + trail) == low && Beyond(LowBytes(low) + trail) == trail
  {
    var s := LowBytes(low) + trail;
    assert Rest(s) == [s[1], s[2], s[3]] + trail;
    assert Rest(Rest(s)) == [s[2], s[3]] + trail;
    assert Rest(Rest(Rest(s))) == [s[3]] + trail;
    ByteSum(low);
  }
}
