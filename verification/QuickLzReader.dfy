/** Reading a QuickLZ stream: control words, literal runs, the literal tail and overlapping copies. */
module QuickLzReader {
  import opened Arith
  import opened Bytes
  import opened QuickLz

  // ---------------------------------------------------------------- what a stream may hold

  /** Literals carry the byte they stand for; matches start and end clear of the last bytes. */
  predicate Placed(t: Token, x: seq<byte>, pos: nat) {
    if t.Literal? then pos < |x| && x[pos] == t.b
    else pos + UNCONDITIONAL_MATCHLEN + UNCOMPRESSED_END + 1 <= |x| && pos + t.len + UNCOMPRESSED_END <= |x|
  }

  /** The tokens cover x from one position to another. */
  ghost predicate Fits(ts: seq<Token>, x: seq<byte>, from: nat, to: nat)
  {
    if ts == [] then from == to
    else Placed(ts[0], x, from) && Fits(ts[1..], x, from + Span(ts[0]), to)
  }

  lemma {:induction false} FitsSnoc(ts: seq<Token>, t: Token, x: seq<byte>, from: nat, to: nat)
    requires Fits(ts, x, from, to) && Placed(t, x, to)
    ensures Fits(ts + [t], x, from, to + Span(t))
  {
    if ts == [] {
      assert (ts + [t])[1..] == [];
    } else {
      assert (ts + [t])[1..] == ts[1..] + [t];
      FitsSnoc(ts[1..], t, x, from + Span(ts[0]), to);
    }
  }

  lemma {:induction false} FitsSpans(ts: seq<Token>, x: seq<byte>, from: nat, to: nat)
    requires Fits(ts, x, from, to) && AllCodable(ts)
    ensures Spans(ts) == to - from && |ts| <= to - from
  {
    if ts != [] {
      FitsSpans(ts[1..], x, from + Span(ts[0]), to);
    }
  }

  /** The last four bytes are literals, so four bytes can always be fetched before them. */
  lemma {:induction false} StreamGoesOn(ts: seq<Token>, x: seq<byte>, pos: nat, slots: nat)
    requires AllCodable(ts) && Fits(ts, x, pos, |x|)
    ensures pos <= |x| && |Body(ts, slots)| >= (if |x| - pos < 4 then |x| - pos else 4)
    decreases |ts|
  {
    hide Word, Payload;
    if ts != [] {
      StreamGoesOn(ts[1..], x, pos + Span(ts[0]), GROUP - 1);
      if slots > 0 {
        StreamGoesOn(ts[1..], x, pos + Span(ts[0]), slots - 1);
      }
    }
  }

  /** Past the last match start every token is the literal of its byte. */
  ghost predicate Plain(ts: seq<Token>, x: seq<byte>, pos: nat) {
    pos + |ts| == |x| && forall i :: 0 <= i < |ts| ==> ts[i] == Literal(x[pos + i])
  }

  lemma {:induction false} EndIsPlain(ts: seq<Token>, x: seq<byte>, pos: nat)
    requires Fits(ts, x, pos, |x|)
    requires pos + UNCONDITIONAL_MATCHLEN + UNCOMPRESSED_END + 1 > |x|
    ensures Plain(ts, x, pos)
  {
    if ts != [] {
      EndIsPlain(ts[1..], x, pos + 1);
      assert forall i :: 1 <= i < |ts| ==> ts[i] == ts[1..][i - 1];
    }
  }

  lemma {:induction false} PlainWord(ts: seq<Token>, slots: nat)
    requires forall i :: 0 <= i < |ts| ==> ts[i].Literal?
    ensures Word(ts, slots) == Pow2(slots)
    decreases slots
  {
    if slots > 0 {
      PlainWord(if ts == [] then ts else ts[1..], slots - 1);
    }
  }

  // ---------------------------------------------------------------- control words

  /** Only the sentinel is left exactly when every flag has been used. */
  lemma OnlySentinel(ts: seq<Token>, slots: nat)
    ensures Word(ts, slots) == 1 <==> slots == 0
  {
    WordBound(ts, slots);
  }

  /** Where no flag is left, the stream goes on with the next control word. */
  lemma NextControlWord(s: seq<byte>, i: nat, ts: seq<Token>)
    requires AllCodable(ts) && ts != [] && Reads(s, i, Body(ts, 0))
    ensures i + 4 <= |s| && Read4(s, i) == Word(ts, GROUP) && Reads(s, i + 4, Body(ts, GROUP))
  {
    hide Word, Bytes4, Read4;
    var w := Word(ts, GROUP);
    ReadsParts(s, i, Bytes4(w), Body(ts, GROUP));
    assert Bytes4(w)[..4] == Bytes4(w);
    ReadBack(s, i, w, 4);
    WordBound(ts, GROUP);
    Sentinel();
    assert Pow2(GROUP + 1) == 2 * Pow2(GROUP);
  }

  /** The flag in bit 0 tells a literal from a match; its bytes are next. */
  lemma NextToken(s: seq<byte>, i: nat, ts: seq<Token>, slots: nat)
    requires AllCodable(ts) && ts != [] && slots > 0 && Reads(s, i, Body(ts, slots))
    ensures Word(ts, slots) % 2 == Flag(ts[0]) && Word(ts, slots) / 2 == Word(ts[1..], slots - 1)
    ensures Reads(s, i, Payload(ts[0])) && Reads(s, i + TokenSize(ts[0]), Body(ts[1..], slots - 1))
    ensures ts[0].Literal? ==> i < |s| && s[i] == ts[0].b
  {
    FirstFlag(ts, slots);
    FirstPayload(ts, slots);
    hide Payload, Reads, Word, Body;
    ReadsParts(s, i, Payload(ts[0]), Body(ts[1..], slots - 1));
    if ts[0].Literal? {
      PayloadOfLiteral(ts[0].b);
      ReadsOne(s, i, ts[0].b);
    }
  }

  lemma FirstFlag(ts: seq<Token>, slots: nat)
    requires ts != [] && slots > 0
    ensures Word(ts, slots) % 2 == Flag(ts[0]) && Word(ts, slots) / 2 == Word(ts[1..], slots - 1)
  {
  }

  lemma FirstPayload(ts: seq<Token>, slots: nat)
    requires AllCodable(ts) && ts != [] && slots > 0
    ensures AllCodable(ts[1..]) && Body(ts, slots) == Payload(ts[0]) + Body(ts[1..], slots - 1)
  {
    hide Payload;
  }

  lemma ReadsOne(s: seq<byte>, i: nat, b: byte)
    requires Reads(s, i, [b])
    ensures i < |s| && s[i] == b
  {
    assert s[i] == s[i..i + 1][0];
  }

  lemma PayloadOfLiteral(b: byte)
    ensures Payload(Literal(b)) == [b]
  {
  }

  /** A fetched word starts with the bytes of a token. */
  predicate Agree(fetch: nat, t: Token)
    requires Codable(t)
  {
    match TokenSize(t)
    case 1 => fetch % 0x100 == TokenWord(t) % 0x100
    case 2 => fetch % 0x1_0000 == TokenWord(t) % 0x1_0000
    case 3 => fetch % 0x100_0000 == TokenWord(t) % 0x100_0000
    case _ => fetch == TokenWord(t)
  }

  lemma PayloadAgrees(s: seq<byte>, i: nat, t: Token)
    requires Codable(t) && i + 4 <= |s| && Reads(s, i, Payload(t))
    ensures Agree(Read4(s, i), t)
  {
    hide Bytes4, Read4, TokenWord;
    ReadBack(s, i, TokenWord(t), TokenSize(t));
    DivModUnique(TokenWord(t), WORD, 0, TokenWord(t));
  }

  /** The two lowest bits. */
  lemma LowBits(fetch: nat, q: nat, r: nat)
    requires fetch == q * 4 + r && r < 4
    ensures fetch % 4 == r && fetch / 4 == q && fetch / 2 % 2 == r / 2 && fetch % 2 == r % 2
  {
    DivModUnique(fetch, 4, q, r);
    DivModUnique(fetch, 2, 2 * q + r / 2, r % 2);
    DivModUnique(2 * q + r / 2, 2, q, r / 2);
  }

  /** How many literals a control word announces, at most four. */
  const BITLUT: seq<nat> := [4, 0, 1, 0, 2, 0, 1, 0, 3, 0, 1, 0, 2, 0, 1, 0]

  lemma BitlutZeros(w: nat)
    requires w % 2 == 0
    ensures var n := BITLUT[w % 16]; 1 <= n <= 4 && w % Pow2(n) == 0
  {
    Pow2Values();
    assert w % 16 % 2 == 0;
  }

  lemma OneLiteral(s: seq<byte>, i: nat, ts: seq<Token>, slots: nat, x: seq<byte>, pos: nat)
    requires AllCodable(ts) && Fits(ts, x, pos, |x|) && Reads(s, i, Body(ts, slots))
    requires pos < |x| && Word(ts, slots) % 2 == 0
    ensures slots > 0 && ts != [] && ts[0] == Literal(x[pos]) && i < |s| && s[i] == x[pos]
    ensures AllCodable(ts[1..]) && Fits(ts[1..], x, pos + 1, |x|)
    ensures Word(ts, slots) / 2 == Word(ts[1..], slots - 1) && Reads(s, i + 1, Body(ts[1..], slots - 1))
  {
    OnlySentinel(ts, slots);
    NextToken(s, i, ts, slots);
  }

  /** n flags that are 0 announce the next n bytes of x themselves. */
  lemma {:induction false} TakeLiterals(s: seq<byte>, i: nat, ts: seq<Token>, slots: nat,
                                       x: seq<byte>, pos: nat, n: nat)
    requires AllCodable(ts) && Fits(ts, x, pos, |x|) && Reads(s, i, Body(ts, slots))
    requires pos + n <= |x| && Word(ts, slots) % Pow2(n) == 0
    ensures n <= slots && n <= |ts| && Plain(ts[..n], x[..pos + n], pos)
    ensures Word(ts, slots) / Pow2(n) == Word(ts[n..], slots - n)
    ensures i + n <= |s| && s[i..i + n] == x[pos..pos + n]
    ensures Reads(s, i + n, Body(ts[n..], slots - n)) && Fits(ts[n..], x, pos + n, |x|)
    decreases n
  {
    hide Word, Body, Fits, Reads;
    if n > 0 {
      EvenMultiple(Word(ts, slots), Pow2(n - 1));
      OneLiteral(s, i, ts, slots, x, pos);
      TakeLiterals(s, i + 1, ts[1..], slots - 1, x, pos + 1, n - 1);
      assert ts[n..] == ts[1..][n - 1..];
      assert forall k :: 1 <= k < n ==> ts[..n][k] == ts[1..][..n - 1][k - 1];
      assert s[i..i + n] == [s[i]] + s[i + 1..i + 1 + (n - 1)];
      assert x[pos..pos + n] == [x[pos]] + x[pos + 1..pos + 1 + (n - 1)];
    } else {
      assert ts[0..] == ts;
      ReadsInside(s, i, Body(ts, slots));
    }
  }

  lemma EvenMultiple(w: nat, p: nat)
    requires p > 0 && w % (2 * p) == 0
    ensures w % 2 == 0 && w / 2 % p == 0 && w / 2 / p == w / (2 * p)
  {
    var q := w / (2 * p);
    assert w == 2 * (q * p);
    DivModUnique(w / 2, p, q, 0);
  }

  /** A literal from the last match start on is followed by literals only. */
  lemma TailIsPlain(s: seq<byte>, i: nat, ts: seq<Token>, slots: nat, x: seq<byte>, pos: nat)
    requires AllCodable(ts) && Fits(ts, x, pos, |x|) && Reads(s, i, Body(ts, slots))
    requires pos < |x| <= pos + UNCONDITIONAL_MATCHLEN + UNCOMPRESSED_END + 1
    requires Word(ts, slots) % 2 == 0
    ensures Plain(ts, x, pos)
  {
    OneLiteral(s, i, ts, slots, x, pos);
    EndIsPlain(ts[1..], x, pos + 1);
    assert forall k :: 1 <= k < |ts| ==> ts[k] == ts[1..][k - 1];
  }

  /** At least four bytes of the stream are left where four bytes of x are. */
  lemma FetchInside(s: seq<byte>, i: nat, ts: seq<Token>, slots: nat, x: seq<byte>, pos: nat)
    requires AllCodable(ts) && Fits(ts, x, pos, |x|) && Reads(s, i, Body(ts, slots))
    requires pos + 4 <= |x|
    ensures i + 4 <= |s|
  {
    hide Body;
    StreamGoesOn(ts, x, pos, slots);
  }

  method StoreFour(out: array<byte>, dst: nat, source: seq<byte>, src: nat)
    requires dst + 4 <= out.Length && src + 4 <= |source|
    modifies out
    ensures out[..dst] == old(out[..dst]) && out[dst + 4..] == old(out[dst + 4..])
    ensures out[dst..dst + 4] == source[src..src + 4]
  {
    out[dst], out[dst + 1], out[dst + 2], out[dst + 3] :=
      source[src], source[src + 1], source[src + 2], source[src + 3];
  }

  lemma StoredPart(o: seq<byte>, dst: nat, n: nat, source: seq<byte>, src: nat, x: seq<byte>)
    requires n <= 4 && dst + 4 <= |o| && src + 4 <= |source| && dst + n <= |x|
    requires o[..dst] == x[..dst] && o[dst..dst + 4] == source[src..src + 4]
    requires source[src..src + n] == x[dst..dst + n]
    ensures o[..dst + n] == x[..dst + n]
  {
    assert o[dst..dst + n] == o[dst..dst + 4][..n] == source[src..src + 4][..n] == source[src..src + n];
    assert o[..dst + n] == o[..dst] + o[dst..dst + n];
    assert x[..dst + n] == x[..dst] + x[dst..dst + n];
  }

  lemma Untouched(o: seq<byte>, s: seq<byte>, at: nat, end: nat)
    requires |o| == |s| && at <= end <= |o|
    requires s[at..] == o[at..]
    ensures s[end..] == o[end..]
  {
    assert s[end..] == s[at..][end - at..] == o[at..][end - at..] == o[end..];
  }

  /** Where no flag is left in hand, the next control word is read. */
  method FlagsInHand(source: seq<byte>, src: nat, word: nat, ghost ts: seq<Token>, ghost slots: nat)
    returns (src': nat, word': nat, ghost slots': nat)
    requires AllCodable(ts) && ts != [] && Reads(source, src, Body(ts, slots)) && word == Word(ts, slots)
    ensures src' == src + (if slots == 0 then CWORD_LEN else 0) && slots' > 0
    ensures word' == Word(ts, slots') && Reads(source, src', Body(ts, slots'))
  {
    hide Word, Body, Reads, Read4, AllCodable;
    OnlySentinel(ts, slots);
    src', word', slots' := src, word, slots;
    if word == 1 {
      NextControlWord(source, src, ts);
      word' := Read4(source, src);
      src' := src + CWORD_LEN;
      slots' := GROUP;
    }
  }

  /** The literals that the next four flags announce, stored four bytes at a time. */
  method CopyLiterals(source: seq<byte>, src: nat, word: nat, out: array<byte>, dst: nat,
                      ghost ts: seq<Token>, ghost slots: nat, ghost x: seq<byte>)
    returns (n: nat, word': nat)
    requires AllCodable(ts) && Fits(ts, x, dst, |x|) && Reads(source, src, Body(ts, slots))
    requires word == Word(ts, slots) && word % 2 == 0 && src + 4 <= |source|
    requires dst + 4 <= |x| <= out.Length && out[..dst] == x[..dst]
    modifies out
    ensures 1 <= n <= 4 && n <= slots && n <= |ts| && Plain(ts[..n], x[..dst + n], dst)
    ensures word' == Word(ts[n..], slots - n) && Reads(source, src + n, Body(ts[n..], slots - n))
    ensures Fits(ts[n..], x, dst + n, |x|)
    ensures out[..dst + n] == x[..dst + n] && out[|x|..] == old(out[|x|..])
  {
    hide Word, Body, Reads, Fits, AllCodable, Plain;
    n := BITLUT[word % 16];
    BitlutZeros(word);
    TakeLiterals(source, src, ts, slots, x, dst, n);
    ghost var o := out[..];
    StoreFour(out, dst, source, src);
    StoredPart(out[..], dst, n, source, src, x);
    Untouched(o, out[..], dst + 4, |x|);
    word' := ShiftedRight(word, n);
  }

  // ---------------------------------------------------------------- overlapping copies

  /** Copying n bytes one at a time from d bytes back, each byte available to the next ones. */
  function Overlap(s: seq<byte>, d: nat, n: nat): (r: seq<byte>)
    requires 0 < d <= |s|
    ensures |r| == |s| + n
    decreases n
  {
    if n == 0 then s else Overlap(s + [s[|s| - d]], d, n - 1)
  }

  lemma {:induction false} OverlapRepeats(s: seq<byte>, d: nat, n: nat, r: seq<byte>)
    requires 0 < d <= |s| && |r| == |s| + n && r[..|s|] == s
    requires forall j :: |s| <= j < |r| ==> r[j] == r[j - d]
    ensures Overlap(s, d, n) == r
    decreases n
  {
    if n > 0 {
      var k := |s|;
      assert r[k] == r[k - d] == r[..k][k - d];
      assert r[..k + 1] == r[..k] + [r[k]];
      OverlapRepeats(s + [s[k - d]], d, n - 1, r);
    } else {
      assert r[..|s|] == r;
    }
  }

  method CopyFour(out: array<byte>, at: nat, from: nat)
    requires at + 4 <= out.Length && from + 3 <= at
    modifies out
    ensures forall k :: 0 <= k < out.Length && (k < at || at + 4 <= k) ==> out[k] == old(out[k])
    ensures forall k :: at <= k < at + 3 ==> out[k] == old(out[k - (at - from)])
  {
    out[at], out[at + 1], out[at + 2], out[at + 3] := out[from], out[from + 1], out[from + 2], out[from + 3];
  }

  /**
   * Four-byte copies at stride three. Only the first three bytes of each are final when the distance
   * is three, and at most three bytes behind the copy are overwritten.
   */
  method MemcpyUp(out: array<byte>, at: nat, from: nat, n: nat)
    requires 1 <= n && from + MIN_OFFSET + 1 <= at && at + n + 3 <= out.Length
    modifies out
    ensures out[..at + n] == Overlap(old(out[..at]), at - from, n)
    ensures out[at + n + 3..] == old(out[at + n + 3..])
  {
    ghost var o := out[..];
    CopyNext(out, at, from, 0, n, o);
    var f := MIN_OFFSET + 1;
    while f < n
      invariant 3 <= f < n + 3 && Copied(out[..], o, at, at - from, f, n)
    {
      CopyNext(out, at, from, f, n, o);
      f := f + MIN_OFFSET + 1;
    }
    CopyDone(out[..], o, at, at - from, f, n);
  }

  /** f bytes behind place `at` repeat what is d bytes before them; nothing else but a margin has changed. */
  ghost predicate Copied(s: seq<byte>, o: seq<byte>, at: nat, d: nat, f: nat, n: nat) {
    && 3 <= d <= at && at + n + 3 <= |o| == |s| && f < n + 3
    && (forall k :: 0 <= k < at ==> s[k] == o[k])
    && (forall k :: at <= k < at + f ==> s[k] == s[k - d])
    && (forall k :: at + n + 3 <= k < |s| ==> s[k] == o[k])
  }

  method CopyNext(out: array<byte>, at: nat, from: nat, f: nat, n: nat, ghost o: seq<byte>)
    requires from + 3 <= at && f < n && Copied(out[..], o, at, at - from, f, n)
    modifies out
    ensures Copied(out[..], o, at, at - from, f + 3, n)
  {
    CopyFour(out, at + f, from + f);
  }

  lemma CopyDone(s: seq<byte>, o: seq<byte>, at: nat, d: nat, f: nat, n: nat)
    requires 1 <= n <= f && Copied(s, o, at, d, f, n)
    ensures s[..at + n] == Overlap(o[..at], d, n) && s[at + n + 3..] == o[at + n + 3..]
  {
    OverlapRepeats(o[..at], d, n, s[..at + n]);
  }

  /** The tail: single bytes under control words whose flags are known to be 0 and never read. */
  method LiteralTail(source: seq<byte>, start: nat, out: array<byte>, at: nat, end: nat, word: nat,
                     ghost tail: seq<Token>, ghost flags: nat, ghost x: seq<byte>)
    requires |x| == end <= out.Length && Plain(tail, x, at) && out[..at] == x[..at]
    requires AllCodable(tail) && Reads(source, start, Body(tail, flags)) && word == Word(tail, flags)
    modifies out
    ensures out[..end] == x && out[end..] == old(out[end..])
  {
    hide Word, Body, Payload, Reads;
    var src: nat, dst: nat, cwordVal: nat := start, at, word;
    ghost var ts: seq<Token>, slots: nat := tail, flags;
    while dst < end
      invariant at <= dst <= end && Plain(ts, x, dst) && out[..dst] == x[..dst]
      invariant AllCodable(ts) && Reads(source, src, Body(ts, slots)) && cwordVal == Word(ts, slots)
      invariant out[end..] == old(out[end..])
    {
      OnlySentinel(ts, slots);
      if cwordVal == 1 {
        NextControlWord(source, src, ts);
        PlainWord(ts, GROUP);
        Sentinel();
        src := src + CWORD_LEN;
        cwordVal := SENTINEL;
        slots := GROUP;
        OnlySentinel(ts, slots);
      }
      NextToken(source, src, ts, slots);
      out[dst] := source[src];
      assert out[..dst + 1] == x[..dst] + [x[dst]] == x[..dst + 1];
      dst := dst + 1;
      src := src + 1;
      cwordVal := cwordVal / 2;
      ts, slots := ts[1..], slots - 1;
    }
    assert x[..|x|] == x;
  }
}
