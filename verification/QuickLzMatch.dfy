/** Repeated stretches of a source: what a match means and how far it reaches. */
module QuickLzMatch {
  import opened Arith
  import opened Bytes
  import opened QuickLz
  import opened QuickLzReader

  /** The hash of the three bytes at p. */
  function HashAt(x: seq<byte>, p: nat): (h: nat)
    requires p + 3 <= |x|
    ensures h < HASH_VALUES
  {
    HashFunc(x[p] as int + 256 * x[p + 1] as int + 0x1_0000 * x[p + 2] as int)
  }

  lemma HashOfRead(x: seq<byte>, p: nat)
    requires p + 4 <= |x|
    ensures HashFunc(Read4(x, p)) == HashAt(x, p)
  {
    hide HashFunc;
    BytesOfWord(x[p], x[p + 1], x[p + 2], x[p + 3]);
    var f := x[p] as int + 256 * x[p + 1] as int + 0x1_0000 * x[p + 2] as int;
    DivModUnique(f, 0x100_0000, 0, f);
    HashOfThree(Read4(x, p), f);
  }

  /** The n bytes of x at pos repeat those `offset` bytes earlier. */
  ghost predicate Repeats(x: seq<byte>, pos: nat, offset: nat, n: nat) {
    offset <= pos && pos + n <= |x| && forall j :: pos <= j < pos + n ==> x[j] == x[j - offset]
  }

  lemma OverlapSpells(x: seq<byte>, pos: nat, offset: nat, n: nat)
    requires 0 < offset && Repeats(x, pos, offset, n)
    ensures offset <= pos && pos + n <= |x| && Overlap(x[..pos], offset, n) == x[..pos + n]
  {
    OverlapRepeats(x[..pos], offset, n, x[..pos + n]);
  }

  /** The n bytes at o and at src are the same. */
  ghost predicate Same(x: seq<byte>, o: nat, src: nat, n: nat) {
    o <= src && Repeats(x, src, src - o, n)
  }

  lemma ThreeEqual(x: seq<byte>, o: nat, src: nat)
    requires o <= src && src + 4 <= |x|
    ensures Read4(x, o) % 0x100_0000 == Read4(x, src) % 0x100_0000 <==> Same(x, o, src, 3)
  {
    BytesOfWord(x[o], x[o + 1], x[o + 2], x[o + 3]);
    BytesOfWord(x[src], x[src + 1], x[src + 2], x[src + 3]);
    LowByteFirst(x[o], x[o + 1], x[o + 2], x[src], x[src + 1], x[src + 2]);
    if Same(x, o, src, 3) {
      assert x[src] == x[src - (src - o)] && x[src + 1] == x[src + 1 - (src - o)];
      assert x[src + 2] == x[src + 2 - (src - o)];
    }
  }

  lemma LowByteFirst(a0: nat, a1: nat, a2: nat, b0: nat, b1: nat, b2: nat)
    requires a0 < 256 && a1 < 256 && b0 < 256 && b1 < 256
    ensures a0 + 256 * a1 + 0x1_0000 * a2 == b0 + 256 * b1 + 0x1_0000 * b2
            <==> a0 == b0 && a1 == b1 && a2 == b2
  {
  }

  /** How far two positions agree, at most up to a limit, from m on. */
  function Common(x: seq<byte>, o: nat, src: nat, m: nat, limit: nat): (n: nat)
    requires o <= src && src + limit <= |x| && m <= limit
    ensures m <= n <= limit
    decreases limit - m
  {
    if m < limit && x[o + m] == x[src + m] then Common(x, o, src, m + 1, limit) else m
  }

  lemma CommonSame(x: seq<byte>, o: nat, src: nat, m: nat, limit: nat)
    requires o <= src && src + limit <= |x| && m <= limit && Same(x, o, src, m)
    ensures Same(x, o, src, Common(x, o, src, m, limit))
    decreases limit - m
  {
    if m < limit && x[o + m] == x[src + m] {
      CommonSame(x, o, src, m + 1, limit);
    }
  }

  /** Beyond the common length the bytes differ, unless the limit has been reached. */
  lemma CommonStops(x: seq<byte>, o: nat, src: nat, m: nat, limit: nat)
    requires o <= src && src + limit <= |x| && m <= limit
    ensures var n := Common(x, o, src, m, limit); n < limit ==> x[o + n] != x[src + n]
    decreases limit - m
  {
    if m < limit && x[o + m] == x[src + m] {
      CommonStops(x, o, src, m + 1, limit);
    }
  }

  method CommonLength(x: seq<byte>, o: nat, src: nat, from: nat, limit: nat) returns (m: nat)
    requires o < src && src + limit < |x| && from <= limit
    ensures m == Common(x, o, src, from, limit)
  {
    m := from;
    while x[o + m] == x[src + m] && m < limit
      invariant from <= m <= limit && Common(x, o, src, m, limit) == Common(x, o, src, from, limit)
    {
      m := m + 1;
    }
  }
}
