/** FPC's encoding table and the interleaved bit streams it writes. */
module FpcEncoder {
  import opened Bytes
  import opened Registers
  import opened CountingSort
  import opened FpcBase
  import opened FpcSort
  import opened FpcTables
  import opened FpcBits

  /** The code of a symbol as bits, in the order they are written. */
  function CodeBits(lens: seq<byte>, c: nat): (s: seq<bit>)
    requires Lens(lens) && c < SYMBOLS
    ensures |s| == lens[c]
  {
    LowBits(CodeVal(lens, c), lens[c])
  }

  /** The codes of every third byte from p on. */
  function StreamBits(lens: seq<byte>, x: seq<byte>, p: nat): (s: seq<bit>)
    requires Lens(lens)
    decreases |x| - p
  {
    if p >= |x| then [] else CodeBits(lens, x[p]) + StreamBits(lens, x, p + NUM_STREAMS)
  }

  /** Bytes that hold the given bits and less than a byte more. */
  ghost predicate Stream(b: seq<byte>, s: seq<bit>) {
    |b| == (|s| + 7) / 8 && LowBitsOf(b)[..|s|] == s
  }

  /** Every byte of x has a code. */
  ghost predicate Coded(lens: seq<byte>, x: seq<byte>) {
    Full(lens) && forall i :: 0 <= i < |x| ==> lens[x[i]] > 0
  }

  // ---------------------------------------------------------------- the encoding table

  /** Entry i of the sorted list carries the length of its own symbol, and each symbol has one entry. */
  ghost predicate Lists(s: seq<Fsym>, lens: seq<byte>) {
    && |s| == SYMBOLS && Lens(lens)
    && (forall i :: 0 <= i < |s| ==> s[i].sym < SYMBOLS && s[i].freq == lens[s[i].sym])
    && (forall i, j :: 0 <= i < j < |s| ==> s[i].sym != s[j].sym)
    && (forall c :: 0 <= c < SYMBOLS ==> HasSymbol(s, c))
  }

  ghost predicate HasSymbol(s: seq<Fsym>, c: nat) { exists i :: 0 <= i < |s| && s[i].sym == c }

  lemma KeysCount(s: seq<Fsym>, lens: seq<byte>)
    requires Lists(s, lens)
    ensures forall b :: 0 <= b < 256 ==> Count(Low(s), b, SYMBOLS) == Count(lens, b, SYMBOLS)
  {
    hide Count;
    var to := seq(|s|, i requires 0 <= i < |s| => s[i].sym);
    MovedMultiset(Low(s), lens, to);
    forall b: nat | b < 256 ensures Count(Low(s), b, SYMBOLS) == Count(lens, b, SYMBOLS) {
      CountIsMultiplicity(Low(s), b);
      CountIsMultiplicity(lens, b);
    }
  }

  ghost predicate EncTable(lookup: seq<Enode>, lens: seq<byte>) {
    && |lookup| == SYMBOLS && Lens(lens)
    && forall c :: 0 <= c < SYMBOLS ==>
         lookup[c].len == lens[c] && (lens[c] > 0 ==> lookup[c].val == CodeVal(lens, c))
  }

  /** How often every length occurs, and the length of every symbol. */
  method CountLengths(lookup: array<Enode>, s: array<Fsym>, count: array<nat>, ghost lens: seq<byte>)
    requires lookup.Length == SYMBOLS <= s.Length && Lists(s[..SYMBOLS], lens)
    requires count.Length == AMAX_BIT_LEN + 1 && forall b :: 0 <= b <= AMAX_BIT_LEN ==> count[b] == 0
    modifies lookup, count
    ensures forall b :: 0 <= b <= MAX_BIT_LEN ==> count[b] == Count(lens, b, SYMBOLS)
    ensures forall c :: 0 <= c < SYMBOLS ==> lookup[c].len == lens[c]
  {
    hide Count;
    ghost var t := s[..SYMBOLS];
    ghost var k := Low(t);
    CountZero(k);
    var a := 0;
    while a < SYMBOLS
      invariant a <= SYMBOLS && forall b :: 0 <= b <= MAX_BIT_LEN ==> count[b] == Count(k, b, a)
      invariant forall i :: 0 <= i < a ==> lookup[t[i].sym].len == t[i].freq
    {
      CountNext(k, a);
      assert t[a] == s[a] && k[a] == t[a].freq;
      count[s[a].freq] := count[s[a].freq] + 1;
      lookup[s[a].sym] := Enode(lookup[s[a].sym].val, s[a].freq);
      a := a + 1;
    }
    KeysCount(t, lens);
    forall c | 0 <= c < SYMBOLS ensures lookup[c].len == lens[c] {
      assert HasSymbol(t, c);
      var i :| 0 <= i < |t| && t[i].sym == c;
    }
  }

  /** construct_enc_table: from the lengths, in any order of the symbols. */
  method ConstructEncTable(lookup: array<Enode>, s: array<Fsym>, ghost lens: seq<byte>)
    requires lookup.Length == SYMBOLS <= s.Length && Full(lens) && Lists(s[..SYMBOLS], lens)
    modifies lookup
    ensures EncTable(lookup[..], lens)
  {
    hide Count, Fill, Start, CodeVal;
    var count := new nat[AMAX_BIT_LEN + 1](_ => 0);
    CountLengths(lookup, s, count, lens);
    var total := Starts(count, lens);
    StartsFill(lens);
    var a := 0;
    while a < SYMBOLS
      invariant a <= SYMBOLS && NextCodes(count, lens, a)
      invariant forall c :: 0 <= c < SYMBOLS ==> lookup[c].len == lens[c]
      invariant forall c :: 0 <= c < a && lens[c] > 0 ==> lookup[c].val == CodeVal(lens, c)
      modifies count, lookup
    {
      if lookup[a].len != 0 {
        var val := NextCode(count, lookup[a].len, lens, a);
        lookup[a] := Enode(val, lookup[a].len);
      } else {
        SkipCode(count, lens, a);
      }
      a := a + 1;
    }
  }

  // ---------------------------------------------------------------- one stream

  lemma CodeFits(lens: seq<byte>, c: nat)
    requires Full(lens) && c < SYMBOLS && lens[c] > 0
    ensures CodeVal(lens, c) < Pow2(lens[c]) && LowBits(CodeVal(lens, c), WIDTH) == Holding(CodeBits(lens, c), WIDTH)
  {
    hide CodeVal;
    WindowOwner(lens, c, 0);
    LowOfSmall(CodeVal(lens, c), lens[c], WIDTH);
  }

  /** bits |= code << bits_av for the symbol at p. */
  method AddCode(lookup: seq<Enode>, sym: byte, bits: word64, bitsAv: nat, ghost held: seq<bit>, ghost lens: seq<byte>)
    returns (bits': word64, bitsAv': nat)
    requires EncTable(lookup, lens) && Full(lens) && lens[sym] > 0
    requires |held| == bitsAv && bitsAv + lens[sym] as int <= WIDTH && bits == Holding(held, WIDTH)
    ensures bitsAv' == bitsAv + lens[sym] as int && bits' == Holding(held + CodeBits(lens, sym), WIDTH)
  {
    hide Or, ToEnd, Holding, LowBits, CodeVal;
    CodeFits(lens, sym);
    OrAppends(held, CodeBits(lens, sym), WIDTH);
    bits' := Or(bits, ToEnd(LowBits(lookup[sym].val, WIDTH), bitsAv));
    bitsAv' := bitsAv + lookup[sym].len;
  }

  /** Bits held back and the codes still to come. */
  ghost function ToSend(lens: seq<byte>, x: seq<byte>, held: seq<bit>, p: nat): (s: seq<bit>)
    requires Lens(lens)
  {
    held + StreamBits(lens, x, p)
  }

  lemma SendNext(lens: seq<byte>, x: seq<byte>, held: seq<bit>, p: nat)
    requires Lens(lens) && p < |x|
    ensures ToSend(lens, x, held, p) == ToSend(lens, x, held + CodeBits(lens, x[p]), p + NUM_STREAMS)
  {
  }

  /** n symbols, three bytes apart, into the register. */
  method AddCodes(lookup: seq<Enode>, x: seq<byte>, from: nat, n: nat, bits: word64, bitsAv: nat,
                  ghost held: seq<bit>, ghost lens: seq<byte>)
    returns (bits': word64, bitsAv': nat, p: nat, ghost held': seq<bit>)
    requires Lens(lens) && EncTable(lookup, lens) && Coded(lens, x)
    requires bitsAv + n * MAX_BIT_LEN <= WIDTH && |held| == bitsAv && bits == Holding(held, WIDTH)
    requires n <= RENORM_NUM && (n > 0 ==> from + NUM_STREAMS * (n - 1) < |x|)
    ensures p == from + NUM_STREAMS * n && |held'| == bitsAv' <= bitsAv + n * MAX_BIT_LEN
    ensures bits' == Holding(held', WIDTH)
    ensures ToSend(lens, x, held', p) == ToSend(lens, x, held, from)
  {
    hide Holding, CodeVal, CodeBits, Full, ToSend;
    bits', bitsAv', p, held' := bits, bitsAv, from, held;
    var k := 0;
    while k < n
      invariant k <= n && p == from + NUM_STREAMS * k
      invariant |held'| == bitsAv' <= bitsAv + k * MAX_BIT_LEN && bits' == Holding(held', WIDTH)
      invariant ToSend(lens, x, held', p) == ToSend(lens, x, held, from)
    {
      bits', bitsAv' := AddCode(lookup, x[p], bits', bitsAv', held', lens);
      SendNext(lens, x, held', p);
      held' := held' + CodeBits(lens, x[p]);
      p := p + NUM_STREAMS;
      k := k + 1;
    }
  }

  lemma Stored(out: seq<byte>, held: seq<bit>, n: nat)
    requires 8 * n <= |held| <= WIDTH
    ensures LowBitsOf(out + WordBytes(Holding(held, WIDTH))[..n]) == LowBitsOf(out) + held[..8 * n]
  {
    hide LowBitsOf, WordBytes;
    var w := Holding(held, WIDTH);
    LowBitsOfParts(out, WordBytes(w)[..n]);
    LowBitsOfWord(w);
    LowBitsOfSlice(WordBytes(w), 0, n);
    assert w[0..8 * n] == held[..8 * n];
  }

  /** prefix_codes_encode: stream a of x, five symbols to a store while there are that many. */
  method PrefixCodesEncode(x: seq<byte>, a: nat, lookup: seq<Enode>, ghost lens: seq<byte>) returns (out: seq<byte>)
    requires Lens(lens) && EncTable(lookup, lens) && Coded(lens, x) && a <= |x|
    ensures Stream(out, StreamBits(lens, x, a))
  {
    hide Holding, StreamBits, LowBitsOf, WordBytes, EncTable, Coded, ToStart;
    var num: nat := |x| - a;
    var end: nat := a + (num - num % (RENORM_NUM * NUM_STREAMS));
    var p: nat, bitsAv: nat := a, 0;
    var bits: word64 := Zeros(WIDTH);
    ghost var held: seq<bit> := [];
    out := [];
    Empty(bits, StreamBits(lens, x, a));
    while p < end
      invariant a <= p <= end && (end - p) % (RENORM_NUM * NUM_STREAMS) == 0
      invariant |held| == bitsAv < 8 && bits == Holding(held, WIDTH)
      invariant LowBitsOf(out) + (held + StreamBits(lens, x, p)) == StreamBits(lens, x, a)
      decreases end - p
    {
      bits, bitsAv, p, held := AddCodes(lookup, x, p, RENORM_NUM, bits, bitsAv, held, lens);
      var tmp := bitsAv / 8;
      Stored(out, held, tmp);
      ShiftDrops(held, 8 * tmp, WIDTH);
      Moved(LowBitsOf(out), held, 8 * tmp, StreamBits(lens, x, p));
      out := out + WordBytes(bits)[..tmp];
      bitsAv := bitsAv % 8;
      bits := ToStart(bits, 8 * tmp);
      held := held[8 * tmp..];
    }
    ghost var k := 0;
    while p < |x|
      invariant a <= p && |x| + NUM_STREAMS > p >= end && NUM_STREAMS * k == p - end
      invariant |held| == bitsAv <= 7 + k * MAX_BIT_LEN && bits == Holding(held, WIDTH)
      invariant LowBitsOf(out) + (held + StreamBits(lens, x, p)) == StreamBits(lens, x, a)
      decreases |x| - p
    {
      bits, bitsAv, p, held := AddCodes(lookup, x, p, 1, bits, bitsAv, held, lens);
      k := k + 1;
    }
    PastEnd(lens, x, p);
    LastBytes(out, held, StreamBits(lens, x, a));
    out := out + WordBytes(bits)[..(bitsAv + 7) / 8];
  }

  lemma Empty(bits: word64, s: seq<bit>)
    requires bits == Zeros(WIDTH)
    ensures bits == Holding([], WIDTH) && LowBitsOf([]) + ([] + s) == s
  {
  }

  lemma Moved(b: seq<bit>, held: seq<bit>, n: nat, rest: seq<bit>)
    requires n <= |held|
    ensures b + held[..n] + (held[n..] + rest) == b + (held + rest)
  {
  }

  lemma PastEnd(lens: seq<byte>, x: seq<byte>, p: nat)
    requires Lens(lens) && p >= |x|
    ensures StreamBits(lens, x, p) == []
  {
  }

  lemma LastBytes(out: seq<byte>, held: seq<bit>, s: seq<bit>)
    requires |held| <= WIDTH && LowBitsOf(out) + (held + []) == s
    ensures Stream(out + WordBytes(Holding(held, WIDTH))[..(|held| + 7) / 8], s)
  {
    hide LowBitsOf, WordBytes;
    var w, n := Holding(held, WIDTH), (|held| + 7) / 8;
    LowBitsOfParts(out, WordBytes(w)[..n]);
    LowBitsOfWord(w);
    LowBitsOfSlice(WordBytes(w), 0, n);
    assert w[0..8 * n][..|held|] == held;
    assert s == LowBitsOf(out) + held;
    assert (LowBitsOf(out) + w[0..8 * n])[..|s|] == s;
  }
}
