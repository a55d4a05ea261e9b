/**
 * Bit registers: the bits in a row, listed from the end that a stream fills first. That is the lowest bit
 * for FPC and the highest for FastHF, so the shift towards the start is >> for FPC and << for FastHF.
 */
module Registers {
  import opened Bytes

  type word32 = w: seq<bit> | |w| == 32 witness Zeros(32)
  type word64 = w: seq<bit> | |w| == 64 witness Zeros(64)

  function Or(x: seq<bit>, y: seq<bit>): (r: seq<bit>)
    requires |x| == |y|
    ensures |r| == |x|
  {
    seq(|x|, i requires 0 <= i < |x| => if x[i] == 1 || y[i] == 1 then 1 else 0)
  }

  /** The shift that drops the first n bits. */
  function ToStart(x: seq<bit>, n: nat): (r: seq<bit>)
    requires n <= |x|
    ensures |r| == |x|
  {
    x[n..] + Zeros(n)
  }

  /** The shift that drops the last n bits. */
  function ToEnd(x: seq<bit>, n: nat): (r: seq<bit>)
    requires n <= |x|
    ensures |r| == |x|
  {
    Zeros(n) + x[..|x| - n]
  }

  /** A register that holds the given bits and zeros behind them. */
  function Holding(s: seq<bit>, width: nat): (r: seq<bit>)
    requires |s| <= width
    ensures |r| == width
  {
    s + Zeros(width - |s|)
  }

  /** OR-ing shifted bits over a register appends them to the bits it holds. */
  lemma OrAppends(s: seq<bit>, t: seq<bit>, width: nat)
    requires |s| + |t| <= width
    ensures Or(Holding(s, width), ToEnd(Holding(t, width), |s|)) == Holding(s + t, width)
  {
  }

  lemma ShiftDrops(s: seq<bit>, n: nat, width: nat)
    requires n <= |s| <= width
    ensures ToStart(Holding(s, width), n) == Holding(s[n..], width)
  {
  }
}
