/**
 * Which tokens level 3 of QuickLZ makes of a packet: of the recent positions under the hash, the one with the longest
 * match, and of those the nearest, is taken whenever it is within reach.
 */
module QuickLz3Parse {
  import opened Bytes
  import opened QuickLz
  import opened QuickLzMatch
  import opened QuickLzCompress

  const POINTERS := 16
  const MAX_OFFSET := 131071

  // ---------------------------------------------------------------- entries

  /** The positions entered under every hash, in the order they were. */
  type Entries = e: seq<seq<nat>> | |e| == HASH_VALUES witness seq(HASH_VALUES, _ => [])

  function NoEntries(): (e: Entries) { seq(HASH_VALUES, _ => []) }

  function Enter(e: Entries, x: seq<byte>, p: nat): (r: Entries)
    requires p + 3 <= |x|
  {
    e[HashAt(x, p) := e[HashAt(x, p)] + [p]]
  }

  /** Every position from one to another that has three bytes. */
  function EnterRange(e: Entries, x: seq<byte>, from: nat, to: nat): (r: Entries)
    decreases to - from
  {
    if from >= to || to + 2 > |x| then e else Enter(EnterRange(e, x, from, to - 1), x, to - 1)
  }

  lemma EnterNext(e: Entries, x: seq<byte>, from: nat, to: nat)
    requires from <= to && to + 3 <= |x|
    ensures EnterRange(e, x, from, to + 1) == Enter(EnterRange(e, x, from, to), x, to)
  {
  }

  /** How many of n entries can still be found: the last 16, but after every 256 of them the count starts again. */
  function Findable(n: nat): (k: nat)
    ensures k <= n && k <= POINTERS && k <= n % 256
    ensures k == POINTERS || k == n % 256
  {
    if n % 256 < POINTERS then n % 256 else POINTERS
  }

  function Recent(e: seq<nat>): (r: seq<nat>)
    ensures |r| == Findable(|e|)
  {
    e[|e| - Findable(|e|)..]
  }

  // ---------------------------------------------------------------- the best match

  /** A position a match may be taken from: three equal bytes, at least three bytes back. */
  ghost predicate Candidate(x: seq<byte>, o: nat, src: nat) {
    o + MIN_OFFSET < src && Same(x, o, src, 3)
  }

  /** The length of the match a position offers; 0 when it offers none. */
  ghost function MatchOf(x: seq<byte>, o: nat, src: nat, limit: nat): (n: nat)
    requires 3 <= limit && src + limit <= |x|
    ensures n <= limit
  {
    if Candidate(x, o, src) then Common(x, o, src, 3, limit) else 0
  }

  /** A position offers its three equal bytes and all those behind them up to the first that differs or the limit. */
  lemma MatchIsLongest(x: seq<byte>, o: nat, src: nat, limit: nat)
    requires 3 <= limit && src + limit <= |x|
    ensures var n := MatchOf(x, o, src, limit);
            && (n == 0 <==> !Candidate(x, o, src))
            && (n > 0 ==> 3 <= n && Same(x, o, src, n) && (n < limit ==> x[o + n] != x[src + n]))
  {
    if Candidate(x, o, src) {
      CommonSame(x, o, src, 3, limit);
      CommonStops(x, o, src, 3, limit);
    }
  }

  /** No findable position offers more than o, and none that offers as much is nearer. */
  ghost predicate Best(e: seq<nat>, x: seq<byte>, src: nat, limit: nat, o: nat, len: nat)
    requires 3 <= limit && src + limit <= |x|
  {
    && (len > 0 ==> len == MatchOf(x, o, src, limit) && o in Recent(e))
    && forall p :: p in Recent(e) ==>
         var m := MatchOf(x, p, src, limit); m < len || (m == len && (m > 0 ==> p <= o))
  }

  /** A match goes up to 255 bytes and not into the last four. */
  function Limit(x: seq<byte>, src: nat): (n: nat)
    requires InMain(x, src)
    ensures 4 <= n <= 255 && src + n + UNCOMPRESSED_END <= |x|
  {
    if |x| - UNCOMPRESSED_END - src > 255 then 255 else |x| - UNCOMPRESSED_END - src
  }

  // ---------------------------------------------------------------- tokens

  /** What the token at src has to be. */
  ghost predicate Choice(e: Entries, t: Token, x: seq<byte>, src: nat) {
    && src < |x|
    && if InMain(x, src) then
         exists o: nat, len: nat {:trigger Best(e[HashAt(x, src)], x, src, Limit(x, src), o, len)} ::
           Best(e[HashAt(x, src)], x, src, Limit(x, src), o, len)
           && t == Chosen(x, src, o, len)
       else t == Literal(x[src])
  }

  /** A match of three bytes or more that is near enough, or else a literal. */
  function Chosen(x: seq<byte>, src: nat, o: nat, len: nat): (t: Token)
    requires src < |x|
  {
    if len > 2 && o < src < o + MAX_OFFSET then Near(src - o, len) else Literal(x[src])
  }

  /** The positions passed in the main loop have been entered. */
  function EnteredBy(e: Entries, ts: seq<Token>, x: seq<byte>, start: nat): (r: Entries)
    decreases |ts|
  {
    if ts == [] then e else
      var before, p := EnteredBy(e, ts[..|ts| - 1], x, start), start + Spans(ts[..|ts| - 1]);
      if InMain(x, p) then EnterRange(before, x, p, p + Span(ts[|ts| - 1])) else before
  }

  ghost predicate Greedy(e: Entries, ts: seq<Token>, x: seq<byte>, start: nat)
    decreases |ts|
  {
    ts == []
    || (Greedy(e, ts[..|ts| - 1], x, start)
        && Choice(EnteredBy(e, ts[..|ts| - 1], x, start), ts[|ts| - 1], x, start + Spans(ts[..|ts| - 1])))
  }

  lemma GreedySnoc(e: Entries, ts: seq<Token>, t: Token, x: seq<byte>, start: nat)
    requires Greedy(e, ts, x, start) && Choice(EnteredBy(e, ts, x, start), t, x, start + Spans(ts))
    ensures Greedy(e, ts + [t], x, start)
    ensures EnteredBy(e, ts + [t], x, start) ==
            if InMain(x, start + Spans(ts))
            then EnterRange(EnteredBy(e, ts, x, start), x, start + Spans(ts), start + Spans(ts) + Span(t))
            else EnteredBy(e, ts, x, start)
  {
    hide Choice, EnterRange, Spans;
    assert (ts + [t])[..|ts|] == ts;
  }

  lemma ChoiceUnique(e: Entries, t: Token, u: Token, x: seq<byte>, src: nat)
    requires Choice(e, t, x, src) && Choice(e, u, x, src)
    ensures t == u
  {
    hide Candidate, Common, HashAt;
    if InMain(x, src) {
      var h, limit := HashAt(x, src), Limit(x, src);
      var o: nat, len: nat :| Best(e[h], x, src, limit, o, len) && t == Chosen(x, src, o, len);
      var p: nat, m: nat :| Best(e[h], x, src, limit, p, m) && u == Chosen(x, src, p, m);
      BestUnique(e[h], x, src, limit, o, len, p, m);
    }
  }

  lemma BestUnique(e: seq<nat>, x: seq<byte>, src: nat, limit: nat, o: nat, len: nat, p: nat, m: nat)
    requires 3 <= limit && src + limit <= |x| && Best(e, x, src, limit, o, len) && Best(e, x, src, limit, p, m)
    ensures len == m && (len > 0 ==> o == p)
  {
    hide MatchOf;
  }

  /** The packet, and what was entered before it, decide the tokens. */
  lemma {:induction false} GreedyUnique(e: Entries, a: seq<Token>, b: seq<Token>, x: seq<byte>, start: nat)
    requires Greedy(e, a, x, start) && Greedy(e, b, x, start) && |a| <= |b|
    ensures a == b[..|a|]
    decreases |b|
  {
    hide Choice, EnteredBy;
    if |a| == |b| && a != [] {
      var n := |a| - 1;
      GreedyUnique(e, a[..n], b[..n], x, start);
      assert a[..n] == b[..n][..n] == b[..n];
      ChoiceUnique(EnteredBy(e, a[..n], x, start), a[n], b[n], x, start + Spans(a[..n]));
      assert a == a[..n] + [a[n]] && b == b[..n] + [b[n]];
    } else if |a| < |b| {
      GreedyUnique(e, a, b[..|b| - 1], x, start);
      assert b[..|b| - 1][..|a|] == b[..|a|];
    }
  }

  /** All the tokens the compressor makes: to the end of the packet, or to where it gives up. */
  ghost predicate Parse(e: Entries, ts: seq<Token>, x: seq<byte>, start: nat) {
    Greedy(e, ts, x, start) && Persists(ts, x, start) && (start + Spans(ts) == |x| || TooLong(ts, x, start))
  }

  lemma ParseUnique(e: Entries, a: seq<Token>, b: seq<Token>, x: seq<byte>, start: nat)
    requires Parse(e, a, x, start) && Parse(e, b, x, start) && |a| <= |b|
    ensures a == b
  {
    hide TooLong, Choice, EnteredBy;
    GreedyUnique(e, a, b, x, start);
    if |a| < |b| {
      NextInside(e, b, x, start, |a|);
      assert false;
    }
    assert b[..|b|] == b;
  }

  lemma {:induction false} NextInside(e: Entries, ts: seq<Token>, x: seq<byte>, start: nat, n: nat)
    requires Greedy(e, ts, x, start) && n < |ts|
    ensures start + Spans(ts[..n]) < |x|
    decreases |ts|
  {
    hide EnteredBy;
    if n < |ts| - 1 {
      NextInside(e, ts[..|ts| - 1], x, start, n);
      assert ts[..|ts| - 1][..n] == ts[..n];
    }
  }
}
