/** Writing a QuickLZ stream in place, and the packet header around it. */
module QuickLzPacker {
  import opened Arith
  import opened Bytes
  import opened QuickLz

  /** Stores n bytes of f the way an x86 does: three bytes are written as four. */
  method FastWrite(f: nat, out: array<byte>, at: nat, n: nat)
    requires 1 <= n <= 4 && at + 4 <= out.Length
    modifies out
    ensures out[..at] == old(out[..at]) && out[at + 4..] == old(out[at + 4..])
    ensures out[at..at + n] == Bytes4(f)[..n]
    ensures n == 4 ==> out[at..at + 4] == Bytes4(f)
  {
    out[at] := f % 256;
    if n >= 2 {
      out[at + 1] := f / 256 % 256;
    }
    if n >= 3 {
      out[at + 2] := f / 0x1_0000 % 256;
      out[at + 3] := f / 0x100_0000 % 256;
    }
    forall k | 0 <= k < n ensures out[at + k] == Bytes4(f)[k] {
      ByteOfWord(f, k);
    }
    assert out[at..at + n] == Bytes4(f)[..n];
    assert Bytes4(f)[..4] == Bytes4(f);
  }

  lemma ByteOfWord(f: nat, k: nat)
    requires k < 4
    ensures Bytes4(f)[k] == if k == 0 then f % 256 else if k == 1 then f / 256 % 256
                            else if k == 2 then f / 0x1_0000 % 256 else f / 0x100_0000 % 256
  {
  }

  /** The compressor's cursor: the control word being filled and the token bytes behind it. */
  class Packer {
    const out: array<byte>
    const origin: nat
    var cwordPtr: nat
    var dst: nat
    var cwordVal: nat
    ghost var done: seq<Token>
    ghost var group: seq<Token>

    ghost predicate Valid()
      reads this, out
    {
      && AllCodable(done) && AllCodable(group)
      && |done| % GROUP == 0 && |group| <= GROUP
      && origin <= cwordPtr && dst == cwordPtr + CWORD_LEN + |Payloads(group)| && dst <= out.Length
      && out[origin..cwordPtr] == Body(done, 0)
      && out[cwordPtr + CWORD_LEN..dst] == Payloads(group)
      && cwordVal == Filling(group)
    }

    ghost function Tokens(): (ts: seq<Token>)
      reads this
    {
      done + group
    }

    constructor (out: array<byte>, origin: nat)
      requires origin + CWORD_LEN <= out.Length
      ensures this.out == out && this.origin == origin
      ensures Valid() && Tokens() == [] && done == [] && dst == origin + CWORD_LEN
    {
      this.out, this.origin := out, origin;
      cwordPtr, dst, cwordVal := origin, origin + CWORD_LEN, SENTINEL;
      done, group := [], [];
      new;
      FillingEmpty();
    }

    /** The word is full exactly when its sentinel has reached bit 0. */
    method Full() returns (full: bool)
      requires Valid()
      ensures full <==> |group| == GROUP
    {
      hide Filling, Body, Payloads;
      FillingFull(group);
      full := cwordVal % 2 == 1;
    }

    /** Stores the full control word and opens the next one. */
    method NextWord()
      requires Valid() && |group| == GROUP && dst + CWORD_LEN <= out.Length
      modifies this`cwordPtr, this`dst, this`cwordVal, this`done, this`group, out
      ensures Valid() && done == old(Tokens()) && group == []
      ensures cwordPtr == old(dst) && dst == old(dst) + CWORD_LEN
    {
      hide Filling, Body, Payloads, Bytes4, Word;
      FillingFull(group);
      BodyOfGroups(done, group);
      ghost var o := out[..];
      FastWrite(cwordVal / 2 + SENTINEL, out, cwordPtr, CWORD_LEN);
      Sealed(o, out[..], origin, cwordPtr, dst);
      cwordPtr := dst;
      dst := dst + CWORD_LEN;
      cwordVal := SENTINEL;
      done, group := done + group, [];
      FillingEmpty();
      NoPayloads();
    }

    method PutLiteral(b: byte)
      requires Valid() && |group| < GROUP && dst < out.Length
      modifies this`dst, this`cwordVal, this`group, out
      ensures Valid() && group == old(group) + [Literal(b)] && dst == old(dst) + 1
    {
      hide Filling, Body, Payloads, Payload;
      FillingStep(group, Literal(b));
      PayloadsSnoc(group, Literal(b));
      LiteralPayload(b);
      ghost var o := out[..];
      out[dst] := b;
      dst := dst + 1;
      Appended(o, out[..], origin, cwordPtr, dst - 1, [b]);
      cwordVal := cwordVal / 2;
      group := group + [Literal(b)];
    }

    /** A match whose n token bytes are the low bytes of f. */
    method PutMatch(f: nat, n: nat, ghost t: Token)
      requires Valid() && |group| < GROUP && dst + 4 <= out.Length
      requires !t.Literal? && Codable(t) && f == TokenWord(t) && n == TokenSize(t)
      modifies this`dst, this`cwordVal, this`group, out
      ensures Valid() && group == old(group) + [t] && dst == old(dst) + n
    {
      hide Filling, Body, Payloads, Bytes4, TokenWord, TokenSize;
      FillingStep(group, t);
      PayloadsSnoc(group, t);
      ghost var o := out[..];
      cwordVal := cwordVal / 2 + SENTINEL;
      FastWrite(f, out, dst, n);
      Appended(o, out[..], origin, cwordPtr, dst, Payload(t));
      dst := dst + n;
      group := group + [t];
    }

    /** Moves the sentinel down over the unused flags. */
    method DropUnusedFlags()
      requires |group| <= GROUP && cwordVal == Filling(group)
      modifies this`cwordVal
      ensures cwordVal / 2 + SENTINEL == Word(group, GROUP)
    {
      hide Flags, Filling, Word;
      ghost var k := GROUP - |group|;
      UnusedFlags(group, k);
      OneShift(1 + 2 * Flags(group), k);
      while cwordVal % 2 != 1
        invariant 0 <= k <= GROUP - |group| && cwordVal == Times(1 + 2 * Flags(group), Pow2(k))
        invariant cwordVal % 2 == 1 <==> k == 0
        decreases k
      {
        OneShift(1 + 2 * Flags(group), k);
        cwordVal := cwordVal / 2;
        k := k - 1;
        OneShift(1 + 2 * Flags(group), k);
      }
      OneShift(1 + 2 * Flags(group), k);
      LastWord(group);
    }

    /** Stores the last control word. */
    method Finish() returns (r: nat)
      requires Valid() && group != []
      modifies this`cwordVal, out
      ensures AllCodable(Tokens()) && |Body(Tokens(), 0)| == dst - origin
      ensures r == (if dst - origin < MIN_PACKED then MIN_PACKED else dst - origin)
      ensures origin <= dst <= out.Length && out[origin..dst] == Body(Tokens(), 0)
    {
      hide Filling, Body, Payloads, Bytes4, Word;
      DropUnusedFlags();
      BodyOfGroups(done, group);
      ghost var o := out[..];
      FastWrite(cwordVal / 2 + SENTINEL, out, cwordPtr, CWORD_LEN);
      Sealed(o, out[..], origin, cwordPtr, dst);
      r := if dst - origin < MIN_PACKED then MIN_PACKED else dst - origin;
    }
  }

  lemma NoPayloads()
    ensures Payloads([]) == []
  {
  }

  lemma LiteralPayload(b: byte)
    ensures Payload(Literal(b)) == [b]
  {
  }

  lemma UnusedFlags(group: seq<Token>, k: nat)
    requires |group| <= GROUP && k == GROUP - |group|
    ensures Filling(group) == Times(1 + 2 * Flags(group), Pow2(k))
  {
  }

  lemma OneShift(odd: nat, k: nat)
    requires odd % 2 == 1
    ensures Times(odd, Pow2(k)) % 2 == 1 <==> k == 0
    ensures k == 0 ==> Times(odd, Pow2(k)) == odd
    ensures k > 0 ==> Times(odd, Pow2(k)) / 2 == Times(odd, Pow2(k - 1))
  {
    if k > 0 {
      assert Times(odd, Pow2(k)) == 2 * Times(odd, Pow2(k - 1));
    }
  }

  lemma LastWord(group: seq<Token>)
    requires |group| <= GROUP
    ensures (1 + 2 * Flags(group)) / 2 + SENTINEL == Word(group, GROUP)
  {
    FlagsWord(group, GROUP);
    Sentinel();
  }

  /** Writing a control word into its reserved place joins what was written before and after it. */
  lemma Sealed(o: seq<byte>, s: seq<byte>, origin: nat, at: nat, dst: nat)
    requires origin <= at && at + 4 <= dst <= |o| == |s|
    requires s[..at] == o[..at] && s[at + 4..] == o[at + 4..]
    ensures s[origin..dst] == o[origin..at] + s[at..at + 4] + o[at + 4..dst]
  {
    assert s[origin..at] == s[..at][origin..] == o[..at][origin..] == o[origin..at];
    assert s[at + 4..dst] == s[at + 4..][..dst - at - 4] == o[at + 4..][..dst - at - 4] == o[at + 4..dst];
  }

  lemma Appended(o: seq<byte>, s: seq<byte>, origin: nat, at: nat, dst: nat, p: seq<byte>)
    requires origin <= at && at + 4 <= dst && dst + |p| <= |o| == |s|
    requires s[..dst] == o[..dst] && s[dst..dst + |p|] == p
    ensures s[origin..at] == o[origin..at]
    ensures s[at + 4..dst + |p|] == o[at + 4..dst] + p
  {
    assert s[origin..at] == s[..dst][origin..at] == o[..dst][origin..at];
    assert s[at + 4..dst] == s[..dst][at + 4..] == o[..dst][at + 4..] == o[at + 4..dst];
    assert s[at + 4..dst + |p|] == s[at + 4..dst] + s[dst..dst + |p|];
  }

  // ---------------------------------------------------------------- room in the destination

  /** Past the middle of the source, the stream has not become 1/32 shorter than it. */
  predicate TooLow(read: nat, size: nat, written: nat) {
    read > size / 2 && written > read - read / 32
  }

  /** More than half has been read, and the stream has not saved a 32nd of that. */
  lemma TooLowMeans(read: nat, size: nat, written: nat)
    ensures TooLow(read, size, written) <==> 2 * read > size && 32 * (read - written + 1) <= read
  {
  }

  /** Where the compressor does not give up, a control word starts within the source's size. */
  lemma WordStartsInside(ts: seq<Token>, size: nat)
    requires AllCodable(ts) && ts != [] && |ts| % GROUP == 0 && |ts| <= Spans(ts) <= size
    requires !TooLow(Spans(ts), size, |Body(ts, 0)|)
    ensures |Body(ts, 0)| <= size
  {
    hide Body, Spans;
    BodyLength(ts, 0);
  }

  lemma {:induction false} PayloadsBound(ts: seq<Token>)
    requires AllCodable(ts)
    ensures |Payloads(ts)| <= 4 * |ts|
  {
    hide Payload;
    if ts != [] {
      PayloadsBound(ts[1..]);
    }
  }

  /** A short packet's length fits the one byte its header has for it. */
  lemma ShortPacket(ts: seq<Token>, size: nat)
    requires AllCodable(ts) && |ts| <= Spans(ts) == size < 216
    ensures |Body(ts, 0)| + 3 < 256
  {
    hide Body, Spans;
    BodyLength(ts, 0);
  }

  // ---------------------------------------------------------------- packets

  method Store(out: array<byte>, at: nat, s: seq<byte>)
    requires at + |s| <= out.Length
    modifies out
    ensures out[..at] == old(out[..at]) && out[at..at + |s|] == s && out[at + |s|..] == old(out[at + |s|..])
  {
    var i := 0;
    while i < |s|
      invariant 0 <= i <= |s|
      invariant forall k :: 0 <= k < at ==> out[k] == old(out[k])
      invariant forall k :: 0 <= k < i ==> out[at + k] == s[k]
      invariant forall k :: at + |s| <= k < out.Length ==> out[k] == old(out[k])
    {
      out[at + i] := s[i];
      i := i + 1;
    }
  }

  lemma SliceOfPrefix(s: seq<byte>, r: nat, a: nat, b: nat)
    requires a <= b <= r <= |s|
    ensures s[..r][a..b] == s[a..b]
  {
  }

  /** The header in front of a packet's body. */
  method WriteHeader(out: array<byte>, size: nat, r: nat, compressed: bit, level: nat, streaming: nat)
    requires level < 4 && streaming < 4 && 9 <= r <= out.Length
    requires size < 216 ==> r < 256
    requires r < WORD && size < WORD
    modifies out
    ensures out[Base(size)..] == old(out[Base(size)..])
    ensures var p := out[..r];
            SizeHeader(p) == Base(size) && SizeCompressed(p) == r && SizeDecompressed(p) == size
            && p[0] == HeaderByte(Base(size) == 9, compressed, level, streaming)
  {
    hide Bytes4, HeaderByte, Read4, SizeCompressed, SizeDecompressed;
    if Base(size) == 3 {
      out[0] := HeaderByte(false, compressed, level, streaming);
      out[1] := r;
      out[2] := size;
    } else {
      out[0] := HeaderByte(true, compressed, level, streaming);
      FastWrite(r, out, 1, 4);
      ghost var o := out[..];
      FastWrite(size, out, 5, 4);
      assert out[1..5] == out[..5][1..] == o[..5][1..] == o[1..5];
    }
    ghost var p := out[..r];
    SliceOfPrefix(out[..], r, 1, 5);
    SliceOfPrefix(out[..], r, 5, 9);
    assert out[..][..r] == p && out[..][1..5] == out[1..5] && out[..][5..9] == out[5..9];
    HeaderReadBack(p, size, r, compressed, level, streaming);
  }
}
