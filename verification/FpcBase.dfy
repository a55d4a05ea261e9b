/** Sizes shared by the parts of FPC, as configured for amd64. */
module FpcBase {
  import opened Arith
  import opened Bytes

  const MAX_BIT_LEN := 11
  const AMAX_BIT_LEN := 14
  const SYMBOLS := 256
  const TABLE := 2048
  const NUM_STREAMS := 3
  const HEADER_SIZE := 4
  const MIN_COMPRESSIBLE_SIZE := 32
  const RENORM_NUM := 5
  const UNROLL_NUM := 2
  const ARCH_SIZE := 8
  const U16MAX := 65535
  const INT_MAX := 0x7FFF_FFFF
  const INT_MIN := -0x8000_0000

  /** What an int keeps of a number: the low 32 bits as two's complement. */
  function Int32(v: int): (r: int)
    ensures INT_MIN <= r <= INT_MAX
    ensures INT_MIN <= v <= INT_MAX ==> r == v
  {
    (v - INT_MIN) % WORD + INT_MIN
  }

  lemma Int32Sum(p: int, q: int)
    ensures Int32(Int32(p) + q) == Int32(p + q)
  {
    ModShift(Int32(p) + q - INT_MIN, (p - INT_MIN) / WORD, WORD);
  }

  lemma Int32Difference(p: int, q: int)
    requires INT_MIN <= p - q <= INT_MAX
    ensures Int32(Int32(p) - Int32(q)) == p - q
  {
    Int32Sum(p, 0 - Int32(q));
    ModShift(p - Int32(q) - INT_MIN, 0 - (q - INT_MIN) / WORD, WORD);
  }

  /** One code length for each of the 256 symbols; 0 for a symbol that does not occur. */
  ghost predicate Lens(lens: seq<byte>) {
    |lens| == SYMBOLS && forall a :: 0 <= a < SYMBOLS ==> lens[a] <= MAX_BIT_LEN
  }
}
