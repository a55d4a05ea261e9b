/**
 * Which tokens level 1 of QuickLZ makes of a source: at every position the latest token start under the same hash is
 * the only candidate, it is taken whenever it is usable, and then as far as it goes.
 */
module QuickLz1Parse {
  import opened Bytes
  import opened QuickLz
  import opened QuickLzMatch
  import opened QuickLzCompress

  /** same(src - 3, 6): seven equal bytes around src. */
  ghost predicate Run(x: seq<byte>, src: nat) {
    3 <= src && src + 4 <= |x| && forall j :: src - 3 <= j < src + 4 ==> x[j] == x[src - 3]
  }

  /** The compressor's test for a usable entry. */
  ghost predicate Usable(x: seq<byte>, o: nat, src: nat, lits: nat) {
    o != 0 && o < src && (src - o > MIN_OFFSET || (src == o + 1 && lits >= 3 && src > 3 && Run(x, src)))
  }

  /** Three bytes agree at a usable entry: the compressor takes the match. */
  ghost predicate Taken(x: seq<byte>, o: nat, src: nat, lits: nat) { Usable(x, o, src, lits) && Same(x, o, src, 3) }

  /** A match reaches as far as the bytes agree, up to 255 of them and not into the last four. */
  ghost predicate Longest(x: seq<byte>, o: nat, src: nat, len: nat) {
    && 3 <= len <= 255 && src + len + UNCOMPRESSED_END <= |x| && Same(x, o, src, len)
    && (len < 255 && src + len + UNCOMPRESSED_END < |x| ==> o < src && x[o + len] != x[src + len])
  }

  /** The last token that starts with this hash; 0 when there is none, or only the one at 0. */
  function Previous(ts: seq<Token>, x: seq<byte>, h: nat): (o: nat)
    decreases |ts|
  {
    if ts == [] then 0 else
      var p := Spans(ts[..|ts| - 1]);
      if p + 3 <= |x| && HashAt(x, p) == h then p else Previous(ts[..|ts| - 1], x, h)
  }

  /** How many literals there are since the last match. */
  function LiteralsBehind(ts: seq<Token>): (n: nat)
  {
    if ts == [] || !ts[|ts| - 1].Literal? then 0 else 1 + LiteralsBehind(ts[..|ts| - 1])
  }

  /** What the token behind ts has to be. */
  ghost predicate Choice(ts: seq<Token>, t: Token, x: seq<byte>) {
    var src := Spans(ts);
    && src < |x|
    && if InMain(x, src) && Taken(x, Previous(ts, x, HashAt(x, src)), src, LiteralsBehind(ts)) then
         t.Hashed? && t.hash == HashAt(x, src) && Longest(x, Previous(ts, x, t.hash), src, t.len)
       else t == Literal(x[src])
  }

  ghost predicate Greedy(ts: seq<Token>, x: seq<byte>)
    decreases |ts|
  {
    ts == [] || (Greedy(ts[..|ts| - 1], x) && Choice(ts[..|ts| - 1], ts[|ts| - 1], x))
  }

  lemma GreedySnoc(ts: seq<Token>, t: Token, x: seq<byte>)
    requires Greedy(ts, x) && Choice(ts, t, x)
    ensures Greedy(ts + [t], x)
  {
    assert (ts + [t])[..|ts|] == ts;
  }

  lemma PreviousSnoc(ts: seq<Token>, t: Token, x: seq<byte>, h: nat)
    ensures Previous(ts + [t], x, h) ==
            if Spans(ts) + 3 <= |x| && HashAt(x, Spans(ts)) == h then Spans(ts) else Previous(ts, x, h)
    ensures LiteralsBehind(ts + [t]) == if t.Literal? then 1 + LiteralsBehind(ts) else 0
  {
    assert (ts + [t])[..|ts|] == ts;
  }

  /** Only one length is the longest. */
  lemma LongestUnique(x: seq<byte>, o: nat, src: nat, a: nat, b: nat)
    requires Longest(x, o, src, a) && Longest(x, o, src, b)
    ensures a == b
  {
    if a < b {
      SameAt(x, o, src, b, a);
    } else if b < a {
      SameAt(x, o, src, a, b);
    }
  }

  lemma SameAt(x: seq<byte>, o: nat, src: nat, n: nat, k: nat)
    requires Same(x, o, src, n) && k < n
    ensures x[o + k] == x[src + k]
  {
    assert x[src + k] == x[src + k - (src - o)];
  }

  lemma ChoiceUnique(ts: seq<Token>, t: Token, u: Token, x: seq<byte>)
    requires Choice(ts, t, x) && Choice(ts, u, x)
    ensures t == u
  {
    hide Longest, Taken, HashAt;
    var src := Spans(ts);
    if InMain(x, src) && Taken(x, Previous(ts, x, HashAt(x, src)), src, LiteralsBehind(ts)) {
      LongestUnique(x, Previous(ts, x, t.hash), src, t.len, u.len);
    }
  }

  /** The source alone decides the tokens. */
  lemma {:induction false} GreedyUnique(a: seq<Token>, b: seq<Token>, x: seq<byte>)
    requires Greedy(a, x) && Greedy(b, x) && |a| <= |b|
    ensures a == b[..|a|]
    decreases |b|
  {
    hide Choice;
    if |a| == |b| && a != [] {
      var n := |a| - 1;
      GreedyUnique(a[..n], b[..n], x);
      assert a[..n] == b[..n][..n] == b[..n];
      ChoiceUnique(a[..n], a[n], b[n], x);
      assert a == a[..n] + [a[n]] && b == b[..n] + [b[n]];
    } else if |a| < |b| {
      GreedyUnique(a, b[..|b| - 1], x);
      assert b[..|b| - 1][..|a|] == b[..|a|];
    }
  }

  /** All the tokens the compressor makes: to the end of the source, or to where it gives up. */
  ghost predicate Parse(ts: seq<Token>, x: seq<byte>) {
    Greedy(ts, x) && Persists(ts, x, 0) && (Spans(ts) == |x| || TooLong(ts, x, 0))
  }

  lemma ParseUnique(a: seq<Token>, b: seq<Token>, x: seq<byte>)
    requires Parse(a, x) && Parse(b, x) && |a| <= |b|
    ensures a == b
  {
    hide TooLong, Choice, Previous;
    GreedyUnique(a, b, x);
    if |a| < |b| {
      GreedyPrefix(b, x, |a| + 1);
      assert b[..|a| + 1][..|a|] == a;
      NextInside(a, b[|a|], x);
      assert false;
    }
    assert b[..|b|] == b;
  }

  lemma NextInside(ts: seq<Token>, t: Token, x: seq<byte>)
    requires Choice(ts, t, x)
    ensures Spans(ts) < |x|
  {
  }

  lemma {:induction false} GreedyPrefix(ts: seq<Token>, x: seq<byte>, n: nat)
    requires Greedy(ts, x) && n <= |ts|
    ensures Greedy(ts[..n], x) && (n > 0 ==> Choice(ts[..n - 1], ts[n - 1], x))
    decreases |ts|
  {
    hide Choice;
    if n < |ts| {
      GreedyPrefix(ts[..|ts| - 1], x, n);
      assert ts[..|ts| - 1][..n] == ts[..n];
      if n > 0 { assert ts[..|ts| - 1][..n - 1] == ts[..n - 1]; }
    } else {
      assert ts[..n] == ts;
    }
  }
}
