/**
 * QuickLZ level 1: a match carries only a hash, and the reader finds its source in an index that it
 * rebuilds lazily from what it has already written.
 */
module QuickLz1 {
  import opened Arith
  import opened Bytes
  import opened QuickLz
  import opened QuickLzPacker
  import opened QuickLzReader
  import opened QuickLzMatch
  import opened QuickLzCompress
  import opened QuickLz1Parse

  const LEVEL := 1

  // ---------------------------------------------------------------- the reader's index

  /** The latest hashed position of every hash, and the next position to hash. */
  datatype Index = Index(entries: map<nat, nat>, next: nat)

  /** update_hash_upto: the positions before `end` that have not been hashed yet. */
  function HashUpto(entries: map<nat, nat>, x: seq<byte>, next: nat, end: nat): (h: map<nat, nat>)
    requires end + 2 <= |x| || end <= next
    decreases end - next
  {
    if end <= next then entries else HashUpto(entries[HashAt(x, next) := next], x, next + 1, end)
  }

  function Max(a: nat, b: nat): (m: nat) { if a < b then b else a }

  /** Positions that can be hashed when the bytes before `dst` are known. */
  function Known(dst: nat): (n: nat) { if dst < 2 then 0 else dst - 2 }

  predicate InReach(t: Token, x: seq<byte>, pos: nat) {
    if t.Literal? then pos < |x| else pos + Max(3, t.len) <= |x|
  }

  /** The index after a token: literals hash up to three bytes back, a match only up to its start. */
  function Advance(ix: Index, t: Token, x: seq<byte>, pos: nat): (ix': Index)
    requires InReach(t, x, pos)
  {
    if t.Literal? then
      Index(HashUpto(ix.entries, x, ix.next, Known(pos + 1)), Max(ix.next, Known(pos + 1)))
    else
      Index(HashUpto(ix.entries, x, ix.next, pos + 1), pos + t.len)
  }

  /** The entry under the transmitted hash exists and yields the bytes the match stands for. */
  ghost predicate Resolves(ix: Index, t: Token, x: seq<byte>, pos: nat) {
    match t
    case Literal(_) => true
    case Hashed(hash, len) =>
      hash in ix.entries && ix.entries[hash] + MIN_OFFSET < pos && Repeats(x, pos, pos - ix.entries[hash], len)
    case Near(_, _) => false
  }

  function AdvanceAll(ix: Index, ts: seq<Token>, x: seq<byte>, pos: nat): (ix': Index)
    decreases |ts|
  {
    if ts == [] || !InReach(ts[0], x, pos) then ix
    else AdvanceAll(Advance(ix, ts[0], x, pos), ts[1..], x, pos + Span(ts[0]))
  }

  ghost predicate AllResolve(ix: Index, ts: seq<Token>, x: seq<byte>, pos: nat)
    decreases |ts|
  {
    ts == [] || (Resolves(ix, ts[0], x, pos) && InReach(ts[0], x, pos)
                 && AllResolve(Advance(ix, ts[0], x, pos), ts[1..], x, pos + Span(ts[0])))
  }

  lemma {:induction false} ResolveSnoc(ix: Index, ts: seq<Token>, t: Token, x: seq<byte>, from: nat, to: nat)
    requires Fits(ts, x, from, to) && AllResolve(ix, ts, x, from) && InReach(t, x, to)
    requires Resolves(AdvanceAll(ix, ts, x, from), t, x, to)
    ensures AllResolve(ix, ts + [t], x, from)
    ensures AdvanceAll(ix, ts + [t], x, from) == Advance(AdvanceAll(ix, ts, x, from), t, x, to)
    decreases |ts|
  {
    hide Resolves, Advance, Placed, InReach;
    if ts == [] {
      assert (ts + [t])[0] == t && (ts + [t])[1..] == [];
    } else {
      assert (ts + [t])[0] == ts[0] && (ts + [t])[1..] == ts[1..] + [t];
      ResolveSnoc(Advance(ix, ts[0], x, from), ts[1..], t, x, from + Span(ts[0]), to);
    }
  }

  /** Hashing in two goes is hashing in one. */
  lemma {:induction false} HashedSplit(e: map<nat, nat>, x: seq<byte>, next: nat, mid: nat, end: nat)
    requires mid <= end && (end + 2 <= |x| || end <= next)
    ensures HashUpto(HashUpto(e, x, next, mid), x, Max(next, mid), end) == HashUpto(e, x, next, end)
    decreases end - next
  {
    if next < mid {
      HashedSplit(e[HashAt(x, next) := next], x, next + 1, mid, end);
    }
  }

  /** The last position with a hash, of those entered, is the one found under it. */
  lemma {:induction false} HashedLast(e: map<nat, nat>, x: seq<byte>, next: nat, end: nat, h: nat, o: nat)
    requires end + 2 <= |x| && next <= o < end && HashAt(x, o) == h
    requires forall p :: o < p < end ==> HashAt(x, p) != h
    ensures h in HashUpto(e, x, next, end) && HashUpto(e, x, next, end)[h] == o
    decreases end - next
  {
    hide HashAt;
    if next < o {
      HashedLast(e[HashAt(x, next) := next], x, next + 1, end, h, o);
    } else {
      HashedOthers(e[h := o], x, next + 1, end, h);
    }
  }

  /** Entering positions with other hashes leaves an entry alone. */
  lemma {:induction false} HashedOthers(e: map<nat, nat>, x: seq<byte>, next: nat, end: nat, h: nat)
    requires end + 2 <= |x| && forall p :: next <= p < end ==> HashAt(x, p) != h
    ensures h in HashUpto(e, x, next, end) <==> h in e
    ensures h in e ==> HashUpto(e, x, next, end)[h] == e[h]
    decreases end - next
  {
    hide HashAt;
    if next < end {
      HashedOthers(e[HashAt(x, next) := next], x, next + 1, end, h);
    }
  }

  // ---------------------------------------------------------------- both indexes in step

  /**
   * What ties the compressor's table to the index the reader will have at the same place: entries the
   * reader has hashed agree, and every position it has not hashed yet is covered by a later or equal one.
   */
  ghost predicate InStep(offset: seq<nat>, cache: seq<nat>, ix: Index, x: seq<byte>, src: nat, lits: nat) {
    && |offset| == |cache| == HASH_VALUES && src + 3 <= |x|
    && lits <= src && ix.next == src - (if lits < 2 then lits else 2)
    && (forall h :: 0 <= h < HASH_VALUES && offset[h] != 0 ==>
          offset[h] < src && offset[h] + 4 <= |x| && HashAt(x, offset[h]) == h && cache[h] == Read4(x, offset[h]))
    && (forall p :: ix.next <= p < src ==> offset[HashAt(x, p)] >= p)
    && (forall h :: 0 <= h < HASH_VALUES && 0 < offset[h] < ix.next ==>
          h in ix.entries && ix.entries[h] == offset[h])
    && (lits >= 3 ==> HashAt(x, src - 3) in ix.entries && ix.entries[HashAt(x, src - 3)] == src - 3)
  }

  lemma LiteralInStep(offset: seq<nat>, cache: seq<nat>, ix: Index, x: seq<byte>, src: nat, lits: nat)
    requires InStep(offset, cache, ix, x, src, lits) && src + 4 <= |x|
    ensures var h := HashAt(x, src);
            InStep(offset[h := src], cache[h := Read4(x, src)], Advance(ix, Literal(x[src]), x, src), x,
                   src + 1, lits + 1)
  {
    hide HashAt, Read4, HashUpto;
    var h := HashAt(x, src);
    var o1 := offset[h := src];
    var ix1 := Advance(ix, Literal(x[src]), x, src);
    var end := Known(src + 1);
    if lits >= 2 {
      HashedLast(ix.entries, x, ix.next, end, HashAt(x, src - 2), src - 2);
    } else {
      NoneHashed(ix.entries, x, ix.next, end);
    }
    forall g | 0 <= g < HASH_VALUES && 0 < o1[g] < ix1.next
      ensures g in ix1.entries && ix1.entries[g] == o1[g]
    {
      if offset[g] < ix.next {
        HashedOthers(ix.entries, x, ix.next, end, g);
      } else {
        HashedLast(ix.entries, x, ix.next, end, g, offset[g]);
      }
    }
  }

  lemma NoneHashed(e: map<nat, nat>, x: seq<byte>, next: nat, end: nat)
    requires end <= next
    ensures HashUpto(e, x, next, end) == e
  {
  }

  lemma MatchInStep(offset: seq<nat>, cache: seq<nat>, ix: Index, x: seq<byte>, src: nat, lits: nat, len: nat)
    requires InStep(offset, cache, ix, x, src, lits) && 3 <= len && src + len + 3 <= |x|
    ensures var h := HashAt(x, src);
            InStep(offset[h := src], cache[h := Read4(x, src)], Advance(ix, Hashed(h, len), x, src), x, src + len, 0)
  {
    hide HashAt, Read4, HashUpto;
    var h := HashAt(x, src);
    var o1 := offset[h := src];
    var ix1 := Advance(ix, Hashed(h, len), x, src);
    forall g | 0 <= g < HASH_VALUES && 0 < o1[g] < ix1.next
      ensures g in ix1.entries && ix1.entries[g] == o1[g]
    {
      if g == h {
        HashedLast(ix.entries, x, ix.next, src + 1, h, src);
      } else if offset[g] < ix.next {
        HashedOthers(ix.entries, x, ix.next, src + 1, g);
      } else {
        HashedLast(ix.entries, x, ix.next, src + 1, g, offset[g]);
      }
    }
  }

  /** A run of one byte repeats itself at any distance inside it. */
  lemma RunRepeats(x: seq<byte>, src: nat, len: nat)
    requires 3 <= src && Repeats(x, src, 1, len) && x[src - 3] == x[src - 2] == x[src - 1]
    ensures Repeats(x, src, 3, len)
  {
    if len > 0 {
      RunRepeats(x, src, len - 1);
      AllTheSame(x, src, len);
    }
  }

  lemma AllTheSame(x: seq<byte>, src: nat, len: nat)
    requires 3 <= src && Repeats(x, src, 1, len) && x[src - 3] == x[src - 2] == x[src - 1]
    ensures forall j :: src - 3 <= j < src + len ==> x[j] == x[src - 1]
  {
    if len > 0 {
      AllTheSame(x, src, len - 1);
      var k := src + len - 1;
      assert x[k] == x[k - 1];
    }
  }

  /** At every match the compressor takes, the reader's index leads to the same bytes. */
  lemma MatchResolves(offset: seq<nat>, cache: seq<nat>, ix: Index, x: seq<byte>, src: nat, lits: nat, len: nat)
    requires InStep(offset, cache, ix, x, src, lits) && src + 4 <= |x|
    requires var o := offset[HashAt(x, src)]; Usable(x, o, src, lits) && Same(x, o, src, len)
    ensures Resolves(ix, Hashed(HashAt(x, src), len), x, src)
  {
    hide HashFunc, Read4, HashUpto;
    var h := HashAt(x, src);
    var o := offset[h];
    if src - o <= MIN_OFFSET {
      assert x[src] == x[src - 3] && x[src + 1] == x[src - 2] && x[src + 2] == x[src - 1];
      assert HashAt(x, src - 3) == h;
      RunRepeats(x, src, len);
    }
  }

  // ---------------------------------------------------------------- compression

  /** qlz_state_compress: what the table holds before a call does not matter, only Reset does. */
  class State {
    const cache: array<nat>
    const offset: array<nat>

    ghost predicate Valid()
      reads this
    {
      cache.Length == HASH_VALUES && offset.Length == HASH_VALUES && cache != offset
    }

    constructor ()
      ensures Valid() && fresh(cache) && fresh(offset)
    {
      cache := new nat[HASH_VALUES];
      offset := new nat[HASH_VALUES];
    }

    /** reset_table_compress: the caches keep whatever they held. */
    method Reset()
      requires Valid()
      modifies offset
      ensures forall h :: 0 <= h < HASH_VALUES ==> offset[h] == 0
    {
      var i := 0;
      while i < HASH_VALUES
        invariant 0 <= i <= HASH_VALUES && forall h :: 0 <= h < i ==> offset[h] == 0
      {
        offset[i] := 0;
        i := i + 1;
      }
    }
  }

  method AllEqual(x: seq<byte>, at: nat, count: nat) returns (same: bool)
    requires at + count < |x|
    ensures same <==> forall j :: at <= j <= at + count ==> x[j] == x[at]
  {
    var n := count;
    while n > 0 && x[at + n] == x[at]
      invariant 0 <= n <= count && forall j :: at + n < j <= at + count ==> x[j] == x[at]
    {
      n := n - 1;
    }
    same := n == 0;
  }

  /** How far a match of at least four bytes reaches. */
  method MatchLength(x: seq<byte>, o: nat, at: nat) returns (matchlen: nat)
    requires o < at && at + UNCONDITIONAL_MATCHLEN + UNCOMPRESSED_END + 1 <= |x| && Same(x, o, at, 4)
    ensures Longest(x, o, at, matchlen)
  {
    hide Same;
    var src := at + 4;
    if x[o + (src - at)] == x[src] {
      SameGrows(x, o, at, 4);
      src := src + 1;
      if x[o + (src - at)] == x[src] {
        SameGrows(x, o, at, 5);
        var q := |x| - 1 - UNCOMPRESSED_END - (src - 5) + 1;
        var remaining := if q > 255 then 255 else q;
        src := src + 1;
        while x[o + (src - at)] == x[src] && src - at < remaining
          invariant 6 <= src - at <= remaining && Same(x, o, at, src - at)
        {
          SameGrows(x, o, at, src - at);
          src := src + 1;
        }
      }
    }
    matchlen := src - at;
  }

  /** One more equal byte makes a match one longer. */
  lemma SameGrows(x: seq<byte>, o: nat, at: nat, n: nat)
    requires o < at && at + n < |x| && Same(x, o, at, n) && x[o + n] == x[at + n]
    ensures Same(x, o, at, n + 1)
  {
  }

  lemma FourEqual(x: seq<byte>, o: nat, src: nat)
    requires o <= src && src + 4 <= |x| && Same(x, o, src, 3)
    ensures Read4(x, o) == Read4(x, src) <==> Same(x, o, src, 4)
  {
    assert x[src] == x[src - (src - o)] && x[src + 1] == x[src + 1 - (src - o)];
    assert x[src + 2] == x[src + 2 - (src - o)];
    if Same(x, o, src, 4) {
      assert x[src + 3] == x[src + 3 - (src - o)];
    }
  }

  /** The match found at src under its hash, or 0: looks up and replaces the entry. */
  method Lookup(x: seq<byte>, src: nat, fetch: nat, lits: nat, state: State, ghost ix: Index)
    returns (hash: nat, matchlen: nat)
    requires src + UNCONDITIONAL_MATCHLEN + UNCOMPRESSED_END + 1 <= |x| && fetch == Read4(x, src)
    requires state.Valid() && InStep(state.offset[..], state.cache[..], ix, x, src, lits)
    modifies state.cache, state.offset
    ensures hash == HashAt(x, src)
    ensures state.offset[..] == old(state.offset[..])[hash := src]
    ensures state.cache[..] == old(state.cache[..])[hash := fetch]
    ensures matchlen == 0 || (3 <= matchlen <= 255 && src + matchlen + UNCOMPRESSED_END <= |x|)
    ensures matchlen != 0 <==> Taken(x, old(state.offset[..])[hash], src, lits)
    ensures matchlen != 0 ==> Longest(x, old(state.offset[..])[hash], src, matchlen)
    ensures matchlen != 0 ==> Resolves(ix, Hashed(hash, matchlen), x, src)
  {
    hide HashAt, HashFunc, Read4, InStep, Resolves;
    HashOfRead(x, src);
    hash := HashFunc(fetch);
    var cached := state.cache[hash];
    state.cache[hash] := fetch;
    var o := state.offset[hash];
    state.offset[hash] := src;
    EntryFacts(old(state.offset[..]), old(state.cache[..]), ix, x, src, lits);
    matchlen := 0;
    if o != 0 {
      ThreeEqual(x, o, src);
    }
    if fetch % 0x100_0000 == cached % 0x100_0000 && o != 0 {
      var near := src - o > MIN_OFFSET;
      if !near && src == o + 1 && lits >= 3 && src > 3 {
        near := AllEqual(x, src - 3, 6);
      }
      if near {
        FourEqual(x, o, src);
        if fetch != cached {
          matchlen := 3;
        } else {
          matchlen := MatchLength(x, o, src);
        }
        MatchResolves(old(state.offset[..]), old(state.cache[..]), ix, x, src, lits, matchlen);
      }
    }
  }

  lemma EntryFacts(offset: seq<nat>, cache: seq<nat>, ix: Index, x: seq<byte>, src: nat, lits: nat)
    requires InStep(offset, cache, ix, x, src, lits)
    ensures |offset| == |cache| == HASH_VALUES && lits <= src
    ensures forall h :: 0 <= h < HASH_VALUES && offset[h] != 0 ==>
              offset[h] < src && offset[h] + 4 <= |x| && cache[h] == Read4(x, offset[h])
  {
  }

  ghost const START: Index := Index(map[], 0)

  /** The stream so far and the index a reader of it will have. */
  ghost predicate Readable(ts: seq<Token>, ix: Index, x: seq<byte>, to: nat) {
    Covers(ts, x, 0, to) && AllResolve(START, ts, x, 0) && AdvanceAll(START, ts, x, 0) == ix
  }

  lemma ReadableSnoc(ts: seq<Token>, ix: Index, t: Token, x: seq<byte>, to: nat)
    requires Readable(ts, ix, x, to) && Codable(t) && Placed(t, x, to) && Resolves(ix, t, x, to)
    ensures InReach(t, x, to) && Readable(ts + [t], Advance(ix, t, x, to), x, to + Span(t))
  {
    hide AllResolve, AdvanceAll, Resolves, Advance;
    CoversSnoc(ts, t, x, 0, to);
    ResolveSnoc(START, ts, t, x, 0, to);
  }

  /** Stores a match as its hash and length. */
  method PutHashed(packer: Packer, hash: nat, matchlen: nat)
    requires packer.Valid() && |packer.group| < GROUP && packer.dst + 4 <= packer.out.Length
    requires Codable(Hashed(hash, matchlen))
    modifies packer`dst, packer`cwordVal, packer`group, packer.out
    ensures packer.Valid() && packer.group == old(packer.group) + [Hashed(hash, matchlen)]
  {
    hide Filling, Body, Payloads;
    if matchlen < 18 {
      packer.PutMatch(matchlen - 2 + hash * 16, 2, Hashed(hash, matchlen));
    } else {
      packer.PutMatch(matchlen * 0x1_0000 + hash * 16, 3, Hashed(hash, matchlen));
    }
  }

  /** The table holds the last token start of every hash, and lits counts the literals since the last match. */
  ghost predicate Remembers(offset: seq<nat>, lits: nat, ts: seq<Token>, x: seq<byte>) {
    && |offset| == HASH_VALUES && lits == LiteralsBehind(ts)
    && forall h :: 0 <= h < HASH_VALUES ==> offset[h] == Previous(ts, x, h)
  }

  /** The tokens so far are those of the parse, and what the next choice depends on is at hand. */
  ghost predicate Choosing(offset: seq<nat>, lits: nat, ts: seq<Token>, x: seq<byte>, src: nat) {
    Greedy(ts, x) && Spans(ts) == src && Remembers(offset, lits, ts, x)
  }

  lemma ChoosingSnoc(offset: seq<nat>, lits: nat, ts: seq<Token>, t: Token, x: seq<byte>, src: nat)
    requires Choosing(offset, lits, ts, x, src) && Choice(ts, t, x) && src + 3 <= |x|
    ensures Choosing(offset[HashAt(x, src) := src], if t.Literal? then lits + 1 else 0, ts + [t], x, src + Span(t))
  {
    hide Choice, Greedy, Previous, LiteralsBehind, HashAt;
    GreedySnoc(ts, t, x);
    SpansSnoc(ts, t);
    forall h | 0 <= h < HASH_VALUES
      ensures Previous(ts + [t], x, h) == if HashAt(x, src) == h then src else Previous(ts, x, h)
    {
      PreviousSnoc(ts, t, x, h);
    }
    PreviousSnoc(ts, t, x, 0);
  }

  lemma ChoiceIs(offset: seq<nat>, lits: nat, ts: seq<Token>, t: Token, x: seq<byte>, src: nat)
    requires Choosing(offset, lits, ts, x, src) && InMain(x, src)
    requires if Taken(x, offset[HashAt(x, src)], src, lits)
             then t.Hashed? && t.hash == HashAt(x, src) && Longest(x, offset[t.hash], src, t.len)
             else t == Literal(x[src])
    ensures Choice(ts, t, x)
  {
    hide Taken, Longest, HashAt, Previous, LiteralsBehind, Greedy;
  }

  /** One token at src: the match under its hash, or a literal. */
  method Step(x: seq<byte>, src: nat, fetch: nat, lits: nat, state: State, packer: Packer, ghost ix: Index)
    returns (next: nat, lits': nat, ghost ix': Index, ghost t: Token)
    requires src + UNCONDITIONAL_MATCHLEN + UNCOMPRESSED_END + 1 <= |x| && fetch == Read4(x, src)
    requires state.Valid() && InStep(state.offset[..], state.cache[..], ix, x, src, lits)
    requires packer.Valid() && |packer.group| < GROUP && packer.dst + 4 <= packer.out.Length
    requires Readable(packer.Tokens(), ix, x, src) && Choosing(state.offset[..], lits, packer.Tokens(), x, src)
    modifies packer`dst, packer`cwordVal, packer`group, packer.out, state.cache, state.offset
    ensures packer.Valid() && |packer.group| == |old(packer.group)| + 1
    ensures packer.Tokens() == old(packer.Tokens()) + [t]
    ensures Choosing(state.offset[..], lits', packer.Tokens(), x, next)
    ensures src < next && next + UNCOMPRESSED_END <= |x|
    ensures InStep(state.offset[..], state.cache[..], ix', x, next, lits')
    ensures Readable(packer.Tokens(), ix', x, next)
  {
    hide HashAt, Read4, InStep, Resolves, Readable, Advance, Filling, Body, Payloads, Choosing, Choice, Taken, Longest;
    ghost var ts, offset := packer.Tokens(), state.offset[..];
    var hash, matchlen := Lookup(x, src, fetch, lits, state, ix);
    if matchlen != 0 {
      t := Hashed(hash, matchlen);
      MatchInStep(old(state.offset[..]), old(state.cache[..]), ix, x, src, lits, matchlen);
      ReadableSnoc(ts, ix, t, x, src);
      ChoiceIs(offset, lits, ts, t, x, src);
      ChoosingSnoc(offset, lits, ts, t, x, src);
      PutHashed(packer, hash, matchlen);
      assert packer.Tokens() == ts + [t];
      next, lits', ix' := src + matchlen, 0, Advance(ix, t, x, src);
    } else {
      t := Literal(x[src]);
      LiteralInStep(old(state.offset[..]), old(state.cache[..]), ix, x, src, lits);
      LiteralResolves(ix, t, x, src);
      ReadableSnoc(ts, ix, t, x, src);
      ChoiceIs(offset, lits, ts, t, x, src);
      ChoosingSnoc(offset, lits, ts, t, x, src);
      packer.PutLiteral(x[src]);
      assert packer.Tokens() == ts + [t];
      next, lits', ix' := src + 1, lits + 1, Advance(ix, t, x, src);
    }
  }

  lemma LiteralResolves(ix: Index, t: Token, x: seq<byte>, pos: nat)
    requires t.Literal?
    ensures Resolves(ix, t, x, pos)
  {
  }

  lemma FreshInStep(offset: seq<nat>, cache: seq<nat>, x: seq<byte>)
    requires |offset| == |cache| == HASH_VALUES && |x| >= 3
    requires forall h :: 0 <= h < HASH_VALUES ==> offset[h] == 0
    ensures InStep(offset, cache, START, x, 0, 0)
  {
  }

  lemma NothingRead(x: seq<byte>)
    ensures Readable([], START, x, 0)
  {
  }

  /** The tokens resolve against the index rebuilt from them, and stand for all of x. */
  ghost predicate Spells1(ts: seq<Token>, x: seq<byte>) {
    Covers(ts, x, 0, |x|) && AllResolve(START, ts, x, 0)
  }

  /** Between two tokens of the main loop. */
  ghost predicate Between(packer: Packer, state: State, x: seq<byte>, src: nat, lits: nat, ix: Index)
    requires state.Valid()
    reads packer, packer.out, state, state.offset, state.cache
  {
    && Packing(packer, x, 0, src, 0) && src < |x| && (packer.group == [] ==> packer.done == [])
    && Readable(packer.Tokens(), ix, x, src) && Persists(packer.Tokens(), x, 0)
    && Choosing(state.offset[..], lits, packer.Tokens(), x, src)
    && (InMain(x, 0) ==> src + 4 <= |x| && InStep(state.offset[..], state.cache[..], ix, x, src, lits))
  }

  /** One turn of the main loop; low says that the compressor gives up. */
  method Turn(x: seq<byte>, src: nat, lits: nat, state: State, packer: Packer, ghost ix: Index)
    returns (low: bool, next: nat, lits': nat, ghost ix': Index)
    requires state.Valid() && Between(packer, state, x, src, lits, ix) && InMain(x, src)
    modifies packer`cwordPtr, packer`dst, packer`cwordVal, packer`done, packer`group, packer.out
    modifies state.cache, state.offset
    ensures low ==> GaveUp(packer.Tokens(), x, 0) && Parse(packer.Tokens(), x)
    ensures low ==> AllResolve(START, packer.Tokens(), x, 0)
    ensures !low ==> src < next && Between(packer, state, x, next, lits', ix')
  {
    hide HashAt, Read4, InStep, Readable, Filling, Body, Payloads, Covers, AllResolve, TooLong, Persists, Choosing;
    ghost var ts := packer.Tokens();
    low := OpenWord(x, 0, src, packer);
    ReadableParts(ts, ix, x, src);
    next, lits', ix' := src, lits, ix;
    if low {
      ParseEnds(state.offset[..], lits, ts, x, src);
      return;
    }
    var fetch := Read4(x, src);
    RoomLeft(packer, x, 0, src, 0);
    ghost var t;
    next, lits', ix', t := Step(x, src, fetch, lits, state, packer, ix);
    PersistsSnoc(ts, t, x, 0);
    ReadableParts(packer.Tokens(), ix', x, next);
  }

  lemma ParseEnds(offset: seq<nat>, lits: nat, ts: seq<Token>, x: seq<byte>, src: nat)
    requires Choosing(offset, lits, ts, x, src) && Persists(ts, x, 0) && (src == |x| || TooLong(ts, x, 0))
    ensures Parse(ts, x)
  {
    hide Greedy, Remembers;
  }

  /**
   * qlz_compress_core at level 1: the parse of x is coded to the end, or 0 says that it is given up and that the source
   * is better stored as it is.
   */
  method CompressCore(x: seq<byte>, state: State, out: array<byte>, origin: nat)
    returns (r: nat, ghost tokens: seq<Token>)
    requires x != [] && state.Valid() && origin <= 9 && out.Length >= |x| + SLACK
    requires forall h :: 0 <= h < HASH_VALUES ==> state.offset[h] == 0
    modifies out, state.cache, state.offset
    ensures AllResolve(START, tokens, x, 0) && Parse(tokens, x)
    ensures r == 0 ==> GaveUp(tokens, x, 0)
    ensures r != 0 ==> Spells1(tokens, x) && |Body(tokens, 0)| <= |x| + 172
    ensures r != 0 ==> r == (if |Body(tokens, 0)| < MIN_PACKED then MIN_PACKED else |Body(tokens, 0)|)
    ensures r != 0 ==> origin + r <= out.Length && Reads(out[..], origin, Body(tokens, 0))
  {
    hide HashAt, Read4, InStep, Readable, Filling, Body, Payloads, Covers, AllResolve, GaveUp, Reads, Choosing, Parse;
    var packer: Packer := new Packer(out, origin);
    var src, lits := 0, 0;
    ghost var ix := START;
    NothingRead(x);
    ReadableParts([], ix, x, 0);
    NothingChosen(state.offset[..], x);
    if InMain(x, src) {
      FreshInStep(state.offset[..], state.cache[..], x);
    }
    while src + UNCONDITIONAL_MATCHLEN + UNCOMPRESSED_END < |x|
      invariant packer.out == out && packer.origin == origin
      invariant Between(packer, state, x, src, lits, ix)
      modifies packer`cwordPtr, packer`dst, packer`cwordVal, packer`done, packer`group, out
      modifies state.cache, state.offset
      decreases |x| - src
    {
      var low;
      low, src, lits, ix := Turn(x, src, lits, state, packer, ix);
      if low {
        return 0, packer.Tokens();
      }
    }
    ReadableParts(packer.Tokens(), ix, x, src);
    ChoosingParts(state.offset[..], lits, packer.Tokens(), x, src);
    r := Tail(x, src, state, packer);
    tokens := packer.Tokens();
  }

  lemma NothingChosen(offset: seq<nat>, x: seq<byte>)
    requires |offset| == HASH_VALUES && forall h :: 0 <= h < HASH_VALUES ==> offset[h] == 0
    ensures Choosing(offset, 0, [], x, 0)
  {
  }

  lemma ChoosingParts(offset: seq<nat>, lits: nat, ts: seq<Token>, x: seq<byte>, src: nat)
    requires Choosing(offset, lits, ts, x, src)
    ensures Greedy(ts, x) && Spans(ts) == src
  {
  }

  lemma ReadableParts(ts: seq<Token>, ix: Index, x: seq<byte>, to: nat)
    requires Readable(ts, ix, x, to)
    ensures Covers(ts, x, 0, to) && AllResolve(START, ts, x, 0)
  {
  }

  /** The last bytes as literals; the table is still updated, though nothing looks at it again. */
  method Tail(x: seq<byte>, from: nat, state: State, packer: Packer) returns (r: nat)
    requires Packing(packer, x, 0, from, 0) && AllResolve(START, packer.Tokens(), x, 0)
    requires from < |x| && |x| - from <= 10 && state.Valid()
    requires Greedy(packer.Tokens(), x) && Spans(packer.Tokens()) == from && Persists(packer.Tokens(), x, 0)
    modifies packer`cwordPtr, packer`dst, packer`cwordVal, packer`done, packer`group, packer.out
    modifies state.cache, state.offset
    ensures Parse(packer.Tokens(), x)
    ensures Spells1(packer.Tokens(), x) && |Body(packer.Tokens(), 0)| <= |x| + 172
    ensures var n := |Body(packer.Tokens(), 0)|; r == (if n < MIN_PACKED then MIN_PACKED else n)
    ensures packer.origin + r <= packer.out.Length
    ensures Reads(packer.out[..], packer.origin, Body(packer.Tokens(), 0))
  {
    hide HashFunc, Read4, Filling, Body, Payloads, Covers, AllResolve, Packing, Greedy, Persists, Spans, TooLong;
    var src := from;
    ghost var over := 0;
    while src < |x|
      invariant from <= src <= |x| && Packing(packer, x, 0, src, over)
      invariant AllResolve(START, packer.Tokens(), x, 0)
      invariant Greedy(packer.Tokens(), x) && Spans(packer.Tokens()) == src && Persists(packer.Tokens(), x, 0)
      invariant over == 0 || (over == 128 && |packer.group| <= src - from)
      invariant packer.group == [] ==> src == from
      decreases |x| - src
    {
      if src + 4 <= |x| {
        var fetch := Read4(x, src);
        var hash := HashFunc(fetch);
        state.offset[hash] := src;
        state.cache[hash] := fetch;
      }
      LiteralStillResolves(packer, x, src, over);
      LiteralStillChosen(packer.Tokens(), x, src);
      over := TailLiteral(x, 0, src, packer, over);
      src := src + 1;
    }
    r := Sealing(x, 0, packer, over);
  }

  /** Behind the main loop every token is a literal. */
  lemma LiteralStillChosen(ts: seq<Token>, x: seq<byte>, src: nat)
    requires Greedy(ts, x) && Spans(ts) == src < |x| && Persists(ts, x, 0) && !InMain(x, src)
    ensures var us := ts + [Literal(x[src])]; Greedy(us, x) && Spans(us) == src + 1 && Persists(us, x, 0)
  {
    hide Greedy, Persists;
    GreedySnoc(ts, Literal(x[src]), x);
    SpansSnoc(ts, Literal(x[src]));
    PersistsSnoc(ts, Literal(x[src]), x, 0);
  }

  lemma LiteralStillResolves(packer: Packer, x: seq<byte>, src: nat, over: nat)
    requires Packing(packer, x, 0, src, over) && AllResolve(START, packer.Tokens(), x, 0) && src < |x|
    ensures AllResolve(START, packer.Tokens() + [Literal(x[src])], x, 0)
  {
    hide AllResolve, AdvanceAll, Advance;
    ResolveSnoc(START, packer.Tokens(), Literal(x[src]), x, 0, src);
  }

  // ---------------------------------------------------------------- decompression

  /** The table of the decompressor holds the index; its other entries may be anything. */
  ghost predicate Mirrors(table: seq<nat>, e: map<nat, nat>) {
    forall h :: h in e ==> h < |table| && table[h] == e[h]
  }

  lemma HashOfKnown(s: seq<byte>, x: seq<byte>, p: nat, known: nat)
    requires known <= |x| && known <= |s| && s[..known] == x[..known] && p + 3 <= known && p + 4 <= |s|
    ensures HashFunc(Read4(s, p)) == HashAt(x, p)
  {
    hide HashFunc;
    assert s[p] == s[..known][p] && s[p + 1] == s[..known][p + 1] && s[p + 2] == s[..known][p + 2];
    HashOfRead(s, p);
  }

  /** update_hash_upto: hashes the positions after lastHashed up to max. */
  method UpdateHashUpto(out: array<byte>, table: array<nat>, lastHashed: int, max: int,
                        ghost x: seq<byte>, ghost known: nat, ghost e: map<nat, nat>)
    returns (last: int)
    requires table.Length == HASH_VALUES && Mirrors(table[..], e)
    requires -1 <= lastHashed && known <= |x| <= out.Length && out[..known] == x[..known]
    requires max < 0 || (max + 3 <= known && max + 4 <= |x|)
    modifies table
    ensures last == (if lastHashed < max then max else lastHashed)
    ensures Mirrors(table[..], HashUpto(e, x, lastHashed + 1, if max < 0 then 0 else max + 1))
  {
    hide HashFunc, Read4, HashAt;
    last := lastHashed;
    ghost var so: map<nat, nat> := e;
    ghost var end := if max < 0 then 0 else max + 1;
    while last < max
      invariant lastHashed <= last && (last <= max || last == lastHashed) && Mirrors(table[..], so)
      invariant HashUpto(so, x, last + 1, end) == HashUpto(e, x, lastHashed + 1, end)
      decreases max - last
    {
      last := last + 1;
      HashOfKnown(out[..], x, last, known);
      var hash := HashFunc(Read4(out[..], last));
      var p: nat := last;
      table[hash] := p;
      so := so[hash := p];
    }
  }

  /** n literals at once advance the index as they do one by one. */
  lemma {:induction false} LiteralsAdvance(ix: Index, ts: seq<Token>, x: seq<byte>, pos: nat, n: nat)
    requires 1 <= n <= |ts| && pos + n <= |x| && Plain(ts[..n], x[..pos + n], pos)
    requires AllResolve(ix, ts, x, pos)
    ensures var end := Known(pos + n);
            AllResolve(Index(HashUpto(ix.entries, x, ix.next, end), Max(ix.next, end)), ts[n..], x, pos + n)
    decreases n
  {
    hide HashUpto, Resolves;
    assert ts[..n][0] == ts[0];
    if n > 1 {
      var ix1 := Advance(ix, ts[0], x, pos);
      assert ts[n..] == ts[1..][n - 1..];
      assert ts[1..][..n - 1] == ts[..n][1..];
      LiteralsAdvance(ix1, ts[1..], x, pos + 1, n - 1);
      HashedSplit(ix.entries, x, ix.next, Known(pos + 1), Known(pos + n));
    }
  }

  /** The two forms of a hash token. */
  method ReadHashed(fetch: nat, third: byte, ghost t: Token) returns (hash: nat, matchlen: nat, n: nat)
    requires t.Hashed? && Codable(t) && Agree(fetch, t) && fetch / 0x1_0000 % 256 == third
    ensures hash == t.hash && matchlen == t.len && n == TokenSize(t)
  {
    hide Agree, TokenWord;
    if t.len < 18 {
      ShortForm(fetch, t);
    } else {
      LongForm(fetch, t);
    }
    hash := fetch / 16 % 4096;
    if fetch % 16 != 0 {
      matchlen, n := fetch % 16 + 2, 2;
    } else {
      matchlen, n := third, 3;
    }
  }

  lemma ShortForm(fetch: nat, t: Token)
    requires t.Hashed? && Codable(t) && Agree(fetch, t) && t.len < 18
    ensures fetch % 16 == t.len - 2 && fetch / 16 % 4096 == t.hash
  {
    var q := fetch / 0x1_0000;
    DivModUnique(TokenWord(t), 0x1_0000, 0, TokenWord(t));
    DivModUnique(fetch, 16, q * 4096 + t.hash, t.len - 2);
    DivModUnique(q * 4096 + t.hash, 4096, q, t.hash);
  }

  lemma LongForm(fetch: nat, t: Token)
    requires t.Hashed? && Codable(t) && Agree(fetch, t) && t.len >= 18
    ensures fetch % 16 == 0 && fetch / 16 % 4096 == t.hash && fetch / 0x1_0000 % 256 == t.len
  {
    var q := fetch / 0x100_0000;
    DivModUnique(TokenWord(t), 0x100_0000, 0, TokenWord(t));
    DivModUnique(fetch, 16, q * 0x10_0000 + t.len * 4096 + t.hash, 0);
    DivModUnique(q * 0x10_0000 + t.len * 4096 + t.hash, 4096, q * 256 + t.len, t.hash);
    DivModUnique(fetch, 0x1_0000, q * 256 + t.len, t.hash * 16);
    DivModUnique(q * 256 + t.len, 256, q, t.len);
  }

  lemma ThirdByte(s: seq<byte>, i: nat)
    requires i + 4 <= |s|
    ensures Read4(s, i) / 0x1_0000 % 256 == s[i + 2]
  {
    var low := s[i] as int + 256 * s[i + 1] as int;
    DivModUnique(Read4(s, i), 0x1_0000, s[i + 2] as int + 256 * s[i + 3] as int, low);
    DivModUnique(s[i + 2] as int + 256 * s[i + 3] as int, 256, s[i + 3] as int, s[i + 2] as int);
  }

  /** What is left of the stream, against the index at this place. */
  ghost predicate Left(ts: seq<Token>, ix: Index, x: seq<byte>, pos: nat) {
    Covers(ts, x, pos, |x|) && AllResolve(ix, ts, x, pos)
  }

  lemma LeftParts(ts: seq<Token>, ix: Index, x: seq<byte>, pos: nat)
    requires Left(ts, ix, x, pos)
    ensures AllCodable(ts) && Fits(ts, x, pos, |x|) && (pos < |x| ==> ts != [])
  {
  }

  lemma MatchNext(s: seq<byte>, i: nat, ts: seq<Token>, slots: nat, ix: Index, x: seq<byte>, pos: nat)
    requires Left(ts, ix, x, pos) && AllCodable(ts) && Reads(s, i, Body(ts, slots)) && i + 4 <= |s|
    requires pos < |x| && slots > 0 && Word(ts, slots) % 2 == 1
    ensures ts != [] && ts[0].Hashed? && Codable(ts[0]) && Agree(Read4(s, i), ts[0])
    ensures Resolves(ix, ts[0], x, pos) && pos + ts[0].len + UNCOMPRESSED_END <= |x|
    ensures AllCodable(ts[1..]) && Left(ts[1..], Advance(ix, ts[0], x, pos), x, pos + ts[0].len)
    ensures Word(ts, slots) / 2 == Word(ts[1..], slots - 1)
    ensures Reads(s, i + TokenSize(ts[0]), Body(ts[1..], slots - 1))
  {
    hide Word, Body, Payload, Reads, Agree, Read4, Repeats, HashUpto;
    NextToken(s, i, ts, slots);
    PayloadAgrees(s, i, ts[0]);
  }

  lemma LiteralsNext(ts: seq<Token>, ix: Index, x: seq<byte>, pos: nat, n: nat)
    requires 1 <= n <= |ts| && pos + n <= |x| && Plain(ts[..n], x[..pos + n], pos) && Left(ts, ix, x, pos)
    requires Fits(ts[n..], x, pos + n, |x|)
    ensures var end := Known(pos + n);
            Left(ts[n..], Index(HashUpto(ix.entries, x, ix.next, end), Max(ix.next, end)), x, pos + n)
    ensures AllCodable(ts[n..])
  {
    hide HashUpto, Resolves, Fits;
    LiteralsAdvance(ix, ts, x, pos, n);
  }

  /** After n literals: the positions that can be hashed now. */
  method HashLiterals(out: array<byte>, table: array<nat>, lastHashed: int, dst: nat, n: nat,
                      ghost ts: seq<Token>, ghost ix: Index, ghost x: seq<byte>)
    returns (last: int, ghost ix': Index)
    requires table.Length == HASH_VALUES && Mirrors(table[..], ix.entries)
    requires -1 <= lastHashed && ix.next == lastHashed + 1
    requires 1 <= n <= |ts| && dst + n < |x| <= out.Length && out[..dst + n] == x[..dst + n]
    requires Left(ts, ix, x, dst) && Plain(ts[..n], x[..dst + n], dst) && Fits(ts[n..], x, dst + n, |x|)
    modifies table
    ensures -1 <= last && ix'.next == last + 1 && Mirrors(table[..], ix'.entries)
    ensures AllCodable(ts[n..]) && Left(ts[n..], ix', x, dst + n)
  {
    hide HashUpto, Left, Plain, Fits, AllCodable;
    LiteralsNext(ts, ix, x, dst, n);
    last := UpdateHashUpto(out, table, lastHashed, dst + n - 3, x, dst + n, ix.entries);
    ix' := Index(HashUpto(ix.entries, x, ix.next, Known(dst + n)), Max(ix.next, Known(dst + n)));
  }

  /** A match copied from where the index points, then hashed up to its start. */
  method CopyMatch(out: array<byte>, table: array<nat>, dst: nat, hash: nat, matchlen: nat, lastHashed: int,
                   ghost ix: Index, ghost x: seq<byte>)
    requires table.Length == HASH_VALUES && Mirrors(table[..], ix.entries) && hash < HASH_VALUES
    requires -1 <= lastHashed && ix.next == lastHashed + 1
    requires dst <= |x| <= out.Length && out[..dst] == x[..dst]
    requires Resolves(ix, Hashed(hash, matchlen), x, dst) && 3 <= matchlen
    requires dst + matchlen + UNCOMPRESSED_END <= |x|
    modifies out, table
    ensures out[..dst + matchlen] == x[..dst + matchlen] && out[|x|..] == old(out[|x|..])
    ensures Mirrors(table[..], Advance(ix, Hashed(hash, matchlen), x, dst).entries)
  {
    hide HashUpto, Repeats, Overlap;
    var offset2 := table[hash];
    OverlapSpells(x, dst, dst - offset2, matchlen);
    ghost var o := out[..];
    MemcpyUp(out, dst, offset2, matchlen);
    Untouched(o, out[..], dst + matchlen + 3, |x|);
    var last := UpdateHashUpto(out, table, lastHashed, dst, x, dst + matchlen, ix.entries);
  }

  /** qlz_decompress_core at level 1, with a table nobody has cleared. */
  method DecompressCore(source: seq<byte>, header: nat, out: array<byte>, size: nat, table: array<nat>,
                        ghost tokens: seq<Token>, ghost x: seq<byte>)
    requires |x| == size <= out.Length && 0 < size && table.Length == HASH_VALUES
    requires Spells1(tokens, x) && Reads(source, header, Body(tokens, 0)) && |source| >= header + MIN_PACKED
    modifies out, table
    ensures out[..size] == x && out[size..] == old(out[size..])
  {
    hide Word, Body, Payload, Reads, Agree, Read4, Repeats, Fits, AllCodable, Left, Plain, Overlap;
    hide HashUpto, Resolves, Mirrors, AllResolve;
    var src: nat, dst: nat, cwordVal: nat, lastHashed := header, 0, 1, -1;
    ghost var ts: seq<Token>, slots: nat, ix := tokens, 0, START;
    OnlySentinel(ts, slots);
    Beginning(ts, x, table[..]);
    while true
      invariant dst < size && header <= src && out[..dst] == x[..dst] && out[size..] == old(out[size..])
      invariant AllCodable(ts) && Left(ts, ix, x, dst)
      invariant Reads(source, src, Body(ts, slots)) && cwordVal == Word(ts, slots)
      invariant -1 <= lastHashed && ix.next == lastHashed + 1 && Mirrors(table[..], ix.entries)
      invariant size - dst >= 4 || (dst == 0 && src == header && slots == 0)
      decreases size - dst
    {
      LeftParts(ts, ix, x, dst);
      src, cwordVal, slots := FlagsInHand(source, src, cwordVal, ts, slots);
      if size - dst >= 4 {
        FetchInside(source, src, ts, slots, x, dst);
      }
      var fetch := Read4(source, src);
      if cwordVal % 2 == 1 {
        MatchNext(source, src, ts, slots, ix, x, dst);
        ThirdByte(source, src);
        ghost var t := ts[0];
        cwordVal := cwordVal / 2;
        var hash, matchlen, n := ReadHashed(fetch, source[src + 2], t);
        assert t == Hashed(hash, matchlen);
        CopyMatch(out, table, dst, hash, matchlen, lastHashed, ix, x);
        ix := Advance(ix, t, x, dst);
        src := src + n;
        dst := dst + matchlen;
        lastHashed := dst - 1;
        ts, slots := ts[1..], slots - 1;
      } else if dst + UNCONDITIONAL_MATCHLEN + UNCOMPRESSED_END + 1 < size {
        var n;
        n, cwordVal := CopyLiterals(source, src, cwordVal, out, dst, ts, slots, x);
        lastHashed, ix := HashLiterals(out, table, lastHashed, dst, n, ts, ix, x);
        dst := dst + n;
        src := src + n;
        ts, slots := ts[n..], slots - n;
      } else {
        TailIsPlain(source, src, ts, slots, x, dst);
        LiteralTail(source, src, out, dst, size, cwordVal, ts, slots, x);
        lastHashed := UpdateHashUpto(out, table, lastHashed, size - 4, x, size, ix.entries);
        return;
      }
    }
  }

  lemma Beginning(ts: seq<Token>, x: seq<byte>, table: seq<nat>)
    requires Spells1(ts, x)
    ensures AllCodable(ts) && Left(ts, START, x, 0) && Mirrors(table, START.entries)
  {
  }
}
