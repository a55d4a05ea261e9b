/** What both compressors share around their match finders: control words, giving up, the tail. */
module QuickLzCompress {
  import opened Bytes
  import opened QuickLz
  import opened QuickLzPacker
  import opened QuickLzReader

  /** The tokens, all codable, stand for x from one position to another. */
  ghost predicate Covers(ts: seq<Token>, x: seq<byte>, from: nat, to: nat) {
    AllCodable(ts) && Fits(ts, x, from, to)
  }

  lemma CoversSnoc(ts: seq<Token>, t: Token, x: seq<byte>, from: nat, to: nat)
    requires Covers(ts, x, from, to) && Codable(t) && Placed(t, x, to)
    ensures Covers(ts + [t], x, from, to + Span(t))
  {
    FitsSnoc(ts, t, x, from, to);
  }

  /** What holds between two tokens of the compressor, and why the destination never overflows. */
  ghost predicate Packing(packer: Packer, x: seq<byte>, start: nat, src: nat, over: nat)
    reads packer, packer.out
  {
    && packer.Valid() && start <= src <= |x| && packer.origin <= 9
    && packer.out.Length >= |x| - start + SLACK
    && Covers(packer.Tokens(), x, start, src)
    && packer.cwordPtr <= packer.origin + |x| - start + over
  }

  lemma RoomLeft(packer: Packer, x: seq<byte>, start: nat, src: nat, over: nat)
    requires Packing(packer, x, start, src, over) && over <= 128
    ensures packer.dst <= packer.origin + |x| - start + over + CWORD_LEN + 4 * |packer.group|
    ensures packer.dst + CWORD_LEN + 4 <= packer.out.Length
  {
    hide Filling, Body, Payloads, Covers;
    PayloadsBound(packer.group);
  }

  /** With a full control word, what has been written is the stream of the tokens so far. */
  lemma Written(packer: Packer, x: seq<byte>, start: nat, src: nat, over: nat)
    requires Packing(packer, x, start, src, over) && |packer.group| == GROUP
    ensures AllCodable(packer.Tokens()) && |Body(packer.Tokens(), 0)| == packer.dst - packer.origin
    ensures |packer.Tokens()| % GROUP == 0 && packer.Tokens() != []
    ensures |packer.Tokens()| <= Spans(packer.Tokens()) == src - start
  {
    hide Filling, Body, Payloads, Bytes4, Word;
    BodyOfGroups(packer.done, packer.group);
    FitsSpans(packer.Tokens(), x, start, src);
  }

  /** A position at which the main loop looks for a match. */
  predicate InMain(x: seq<byte>, pos: nat) { pos + UNCONDITIONAL_MATCHLEN + UNCOMPRESSED_END < |x| }

  /** Before another token of the main loop the control word is full and the stream too long. */
  ghost predicate TooLong(ts: seq<Token>, x: seq<byte>, start: nat) {
    && ts != [] && |ts| % GROUP == 0 && AllCodable(ts) && start + Spans(ts) <= |x| && InMain(x, start + Spans(ts))
    && TooLow(Spans(ts), |x| - start, |Body(ts, 0)|)
  }

  /** The stream has not been too long at any token so far. */
  ghost predicate Persists(ts: seq<Token>, x: seq<byte>, start: nat) {
    forall k :: 0 <= k < |ts| ==> !TooLong(ts[..k], x, start)
  }

  lemma PersistsSnoc(ts: seq<Token>, t: Token, x: seq<byte>, start: nat)
    requires Persists(ts, x, start) && !TooLong(ts, x, start)
    ensures Persists(ts + [t], x, start)
  {
    hide TooLong;
    forall k | 0 <= k < |ts + [t]| ensures !TooLong((ts + [t])[..k], x, start) {
      assert (ts + [t])[..k] == if k < |ts| then ts[..k] else ts;
    }
  }

  /** The compressor gives up where the stream is too long for the first time. */
  ghost predicate GaveUp(ts: seq<Token>, x: seq<byte>, start: nat) {
    Covers(ts, x, start, start + Spans(ts)) && TooLong(ts, x, start) && Persists(ts, x, start)
  }

  /** Before a token of the main loop: opens a control word if needed, unless it is time to give up. */
  method OpenWord(x: seq<byte>, start: nat, src: nat, packer: Packer) returns (low: bool)
    requires Packing(packer, x, start, src, 0) && InMain(x, src) && (packer.group == [] ==> packer.done == [])
    modifies packer`cwordPtr, packer`dst, packer`cwordVal, packer`done, packer`group, packer.out
    ensures packer.Tokens() == old(packer.Tokens())
    ensures Covers(packer.Tokens(), x, start, start + Spans(packer.Tokens()))
    ensures low <==> TooLong(packer.Tokens(), x, start)
    ensures !low ==> Packing(packer, x, start, src, 0) && |packer.group| < GROUP
  {
    hide Filling, Body, Payloads, Covers, TooLow, Spans;
    RoomLeft(packer, x, start, src, 0);
    CoversSpans(packer.Tokens(), x, start, src);
    var full := packer.Full();
    low := false;
    if full {
      Written(packer, x, start, src, 0);
      if TooLow(src - start, |x| - start, packer.dst - packer.origin) {
        low := true;
      } else {
        WordStartsInside(packer.Tokens(), |x| - start);
        packer.NextWord();
        assert packer.Tokens() == packer.done;
      }
    } else {
      NotFull(packer.done, packer.group);
    }
  }

  lemma CoversSpans(ts: seq<Token>, x: seq<byte>, from: nat, to: nat)
    requires Covers(ts, x, from, to)
    ensures from + Spans(ts) == to && AllCodable(ts)
  {
    FitsSpans(ts, x, from, to);
  }

  lemma {:induction false} SpansSnoc(ts: seq<Token>, t: Token)
    ensures Spans(ts + [t]) == Spans(ts) + Span(t)
  {
    if ts == [] {
      assert (ts + [t])[1..] == [];
    } else {
      assert (ts + [t])[1..] == ts[1..] + [t];
      SpansSnoc(ts[1..], t);
    }
  }

  lemma NotFull(done: seq<Token>, group: seq<Token>)
    requires |done| % GROUP == 0 && |group| < GROUP && (group == [] ==> done == [])
    ensures |done + group| % GROUP != 0 || done + group == []
  {
  }

  /** One literal of the tail, under a new control word where needed. */
  method TailLiteral(x: seq<byte>, start: nat, src: nat, packer: Packer, ghost over: nat)
    returns (ghost room: nat)
    requires Packing(packer, x, start, src, over) && over <= 128 && src < |x|
    requires over == 128 ==> |packer.group| < GROUP
    requires over != 128 ==> over == 0
    modifies packer`cwordPtr, packer`dst, packer`cwordVal, packer`done, packer`group, packer.out
    ensures Packing(packer, x, start, src + 1, room) && packer.group != []
    ensures packer.Tokens() == old(packer.Tokens()) + [Literal(x[src])]
    ensures (room == over && |packer.group| == |old(packer.group)| + 1)
            || (room == 128 && over == 0 && |packer.group| == 1)
  {
    hide Filling, Body, Payloads, Covers;
    RoomLeft(packer, x, start, src, over);
    room := over;
    var full := packer.Full();
    if full {
      packer.NextWord();
      assert packer.Tokens() == packer.done;
      room := 128;
    }
    CoversSnoc(packer.Tokens(), Literal(x[src]), x, start, src);
    ghost var ts := packer.Tokens();
    packer.PutLiteral(x[src]);
    assert packer.Tokens() == ts + [Literal(x[src])];
  }

  /** Stores the last control word; the destination's slack covers even a stream without matches. */
  method Sealing(x: seq<byte>, start: nat, packer: Packer, ghost over: nat) returns (r: nat)
    requires Packing(packer, x, start, |x|, over) && packer.group != []
    requires over == 0 || (over == 128 && |packer.group| <= 10)
    modifies packer`cwordVal, packer.out
    ensures Covers(packer.Tokens(), x, start, |x|) && |Body(packer.Tokens(), 0)| <= |x| - start + 172
    ensures var n := |Body(packer.Tokens(), 0)|; r == (if n < MIN_PACKED then MIN_PACKED else n)
    ensures packer.origin + r <= packer.out.Length
    ensures Reads(packer.out[..], packer.origin, Body(packer.Tokens(), 0))
  {
    hide Filling, Body, Payloads, Covers;
    RoomLeft(packer, x, start, |x|, over);
    r := packer.Finish();
  }

  lemma GaveUpLate(ts: seq<Token>, x: seq<byte>, start: nat)
    requires GaveUp(ts, x, start)
    ensures start + GROUP <= |x| && start + Spans(ts) < |x| && TooLong(ts, x, start)
  {
    hide Body, Fits, Spans, TooLow, Persists;
    FitsSpans(ts, x, start, start + Spans(ts));
  }

  lemma SmallEnough(ts: seq<Token>, x: seq<byte>, start: nat)
    requires start < |x| && Covers(ts, x, start, |x|)
    ensures AllCodable(ts) && start + Spans(ts) == |x| && (|x| - start < 216 ==> |Body(ts, 0)| + 3 < 256)
  {
    FitsSpans(ts, x, start, |x|);
    if |x| - start < 216 {
      ShortPacket(ts, |x| - start);
    }
  }

  /** The header does not touch the body behind it. */
  lemma Headed(o: seq<byte>, s: seq<byte>, r: nat, base: nat, body: seq<byte>)
    requires base + |body| <= r <= |s| == |o| && s[base..] == o[base..] && Reads(o, base, body)
    ensures Reads(s[..r], base, body)
  {
    assert s[..r][base..base + |body|] == s[base..][..|body|] == o[base..][..|body|] == o[base..base + |body|];
  }
}
