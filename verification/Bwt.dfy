/** The Burrows-Wheeler transform as suffix order, and its inversion by counting. */
module Bwt {
  import opened Bytes
  import opened CountingSort

  // ---------------------------------------------------------------- suffix order

  /** Suffix a of t, closed by a sentinel below every byte, comes before suffix b. */
  ghost predicate Less(t: seq<byte>, a: nat, b: nat)
    requires a <= |t| && b <= |t|
    decreases |t| - a
  {
    b < |t| && (a == |t| || t[a] < t[b] || (t[a] == t[b] && Less(t, a + 1, b + 1)))
  }

  lemma {:induction false} LessTotal(t: seq<byte>, a: nat, b: nat)
    requires a <= |t| && b <= |t| && a != b
    ensures Less(t, a, b) || Less(t, b, a)
    decreases |t| - a
  {
    if a < |t| && b < |t| && t[a] == t[b] {
      LessTotal(t, a + 1, b + 1);
    }
  }

  lemma {:induction false} LessAsymmetric(t: seq<byte>, a: nat, b: nat)
    requires a <= |t| && b <= |t| && Less(t, a, b)
    ensures !Less(t, b, a) && a != b
    decreases |t| - a
  {
    if a < |t| && t[a] == t[b] {
      LessAsymmetric(t, a + 1, b + 1);
    }
  }

  lemma {:induction false} LessTransitive(t: seq<byte>, a: nat, b: nat, c: nat)
    requires a <= |t| && b <= |t| && c <= |t| && Less(t, a, b) && Less(t, b, c)
    ensures Less(t, a, c)
    decreases |t| - a
  {
    if a < |t| && t[a] == t[b] && t[b] == t[c] {
      LessTransitive(t, a + 1, b + 1, c + 1);
    }
  }

  /** rows lists all suffixes, the empty one included, in order; rank is its inverse. */
  ghost predicate SuffixOrder(t: seq<byte>, rows: seq<nat>, rank: seq<nat>)
  {
    && |rows| == |rank| == |t| + 1
    && (forall r :: 0 <= r <= |t| ==> rows[r] <= |t| && rank[rows[r]] == r)
    && (forall s :: 0 <= s <= |t| ==> rank[s] <= |t| && rows[rank[s]] == s)
    && (forall r, r' :: 0 <= r < r' <= |t| ==> Less(t, rows[r], rows[r']))
  }

  /** Suffixes compare as their ranks do. */
  lemma RankOrders(t: seq<byte>, rows: seq<nat>, rank: seq<nat>, a: nat, b: nat)
    requires SuffixOrder(t, rows, rank) && a <= |t| && b <= |t|
    ensures Less(t, a, b) <==> rank[a] < rank[b]
  {
    assert rows[rank[a]] == a && rows[rank[b]] == b;
    if rank[b] < rank[a] {
      LessAsymmetric(t, b, a);
    } else if rank[a] == rank[b] && Less(t, a, b) {
      LessAsymmetric(t, a, b);
    }
  }

  lemma EmptySuffixFirst(t: seq<byte>, rows: seq<nat>, rank: seq<nat>)
    requires SuffixOrder(t, rows, rank)
    ensures rows[0] == |t| && rank[|t|] == 0
    ensures t != [] ==> 1 <= rank[0] <= |t|
  {
    if rows[0] != |t| {
      RankOrders(t, rows, rank, |t|, rows[0]);
    }
  }

  // ---------------------------------------------------------------- existence

  ghost predicate Ordered(t: seq<byte>, rows: seq<nat>, k: nat)
  {
    && (forall r :: 0 <= r < |rows| ==> k <= rows[r] <= |t|)
    && (forall r, r' :: 0 <= r < r' < |rows| ==> Less(t, rows[r], rows[r']))
  }

  /** at[s] is the place of suffix s in rows, for every suffix from k on. */
  ghost predicate Places(rows: seq<nat>, at: seq<nat>, k: nat)
  {
    forall s :: k <= s < |at| ==> at[s] < |rows| && rows[at[s]] == s
  }

  /** Every text has a suffix order. */
  lemma SuffixOrderExists(t: seq<byte>) returns (rows: seq<nat>, rank: seq<nat>)
    ensures SuffixOrder(t, rows, rank)
  {
    rows, rank := OrderedFrom(t, 0);
    forall r | 0 <= r <= |t| ensures rank[rows[r]] == r {
      var r' := rank[rows[r]];
      if r < r' {
        LessAsymmetric(t, rows[r], rows[r']);
      } else if r' < r {
        LessAsymmetric(t, rows[r'], rows[r]);
      }
    }
  }

  lemma {:induction false} OrderedFrom(t: seq<byte>, k: nat) returns (rows: seq<nat>, at: seq<nat>)
    requires k <= |t|
    ensures Ordered(t, rows, k) && |rows| == |t| - k + 1
    ensures |at| == |t| + 1 && Places(rows, at, k)
    decreases |t| - k
  {
    if k == |t| {
      rows, at := [k], seq(|t| + 1, _ => 0);
    } else {
      var later, at' := OrderedFrom(t, k + 1);
      var i := 0;
      while i < |later| && Less(t, later[i], k)
        invariant 0 <= i <= |later|
        invariant forall r :: 0 <= r < i ==> Less(t, later[r], k)
      {
        i := i + 1;
      }
      rows := Inserted(t, later, k, i);
      at := seq(|t| + 1, s requires 0 <= s <= |t| =>
        if s == k then i else if at'[s] < i then at'[s] else at'[s] + 1);
    }
  }

  lemma Inserted(t: seq<byte>, later: seq<nat>, k: nat, i: nat) returns (rows: seq<nat>)
    requires k < |t| && i <= |later| && Ordered(t, later, k + 1)
    requires forall r :: 0 <= r < i ==> Less(t, later[r], k)
    requires i < |later| ==> !Less(t, later[i], k)
    ensures rows == later[..i] + [k] + later[i..] && Ordered(t, rows, k)
  {
    rows := later[..i] + [k] + later[i..];
    forall r | i <= r < |later| ensures Less(t, k, later[r]) {
      LessTotal(t, k, later[i]);
      if r > i {
        LessTransitive(t, k, later[i], later[r]);
      }
    }
    forall r, r' | 0 <= r < r' < |rows| ensures Less(t, rows[r], rows[r']) {
      assert rows[r] == if r < i then later[r] else if r == i then k else later[r - 1];
      assert rows[r'] == if r' < i then later[r'] else if r' == i then k else later[r' - 1];
    }
  }

  // ---------------------------------------------------------------- transform

  /** The row whose last byte stands at place i: the row of the whole text is left out. */
  function RowAt(i: nat, idx: nat): (r: nat) { if i < idx then i else i + 1 }

  /** The place of a row other than the whole text's. */
  function PlaceOf(r: nat, idx: nat): (i: nat)
    requires r != idx
  {
    if r < idx then r else r - 1
  }

  /** The byte before each suffix, in suffix order; rank[0] is the primary index. */
  function Transform(t: seq<byte>, rows: seq<nat>, rank: seq<nat>): (b: seq<byte>)
    requires SuffixOrder(t, rows, rank)
    ensures |b| == |t|
  {
    seq(|t|, i requires 0 <= i < |t| => Before(t, rows, rank, i))
  }

  function Before(t: seq<byte>, rows: seq<nat>, rank: seq<nat>, i: nat): (c: byte)
    requires SuffixOrder(t, rows, rank) && i < |t|
  {
    var r := RowAt(i, rank[0]);
    assert rows[rank[0]] == 0;
    assert rows[r] != 0 by {
      assert rank[rows[r]] == r;
    }
    t[rows[r] - 1]
  }

  /** The place that holds the byte in front of row k + 1 of the sorted rows: its first byte. */
  function Origin(t: seq<byte>, rows: seq<nat>, rank: seq<nat>, k: nat): (i: nat)
    requires SuffixOrder(t, rows, rank) && k < |t|
    ensures i < |t|
  {
    EmptySuffixFirst(t, rows, rank);
    var s := rows[k + 1];
    assert rank[s] == k + 1;
    assert s < |t|;
    assert rows[rank[s + 1]] == s + 1 && rows[rank[0]] == 0;
    PlaceOf(rank[s + 1], rank[0])
  }

  lemma OriginByte(t: seq<byte>, rows: seq<nat>, rank: seq<nat>, k: nat)
    requires SuffixOrder(t, rows, rank) && k < |t|
    ensures rows[k + 1] < |t|
    ensures Transform(t, rows, rank)[Origin(t, rows, rank, k)] == t[rows[k + 1]]
    ensures RowAt(Origin(t, rows, rank, k), rank[0]) == rank[rows[k + 1] + 1]
  {
    var i := Origin(t, rows, rank, k);
    EmptySuffixFirst(t, rows, rank);
    assert rank[rows[k + 1]] == k + 1;
    var s := rows[k + 1];
    assert rows[rank[s + 1]] == s + 1 && rows[rank[0]] == 0;
    assert Before(t, rows, rank, i) == t[s];
  }

  /** The origins of consecutive sorted rows are in the order of a stable sort by byte. */
  lemma OriginsSorted(t: seq<byte>, rows: seq<nat>, rank: seq<nat>, k: nat)
    requires SuffixOrder(t, rows, rank) && k + 1 < |t|
    ensures Earlier(Transform(t, rows, rank), Origin(t, rows, rank, k), Origin(t, rows, rank, k + 1))
  {
    OriginByte(t, rows, rank, k);
    OriginByte(t, rows, rank, k + 1);
    var a, b := rows[k + 1], rows[k + 2];
    assert Less(t, a, b);
    if t[a] == t[b] {
      RankOrders(t, rows, rank, a + 1, b + 1);
    }
  }

  /** The counting sort puts the origin of every sorted row at that row. */
  lemma SlotOfOrigin(t: seq<byte>, rows: seq<nat>, rank: seq<nat>, k: nat)
    requires SuffixOrder(t, rows, rank) && k < |t|
    ensures Slot(Transform(t, rows, rank), Origin(t, rows, rank, k)) == k
  {
    SlotAtLeast(t, rows, rank, k);
    SlotAtMost(t, rows, rank, k);
  }

  lemma {:induction false} SlotAtLeast(t: seq<byte>, rows: seq<nat>, rank: seq<nat>, k: nat)
    requires SuffixOrder(t, rows, rank) && k < |t|
    ensures Slot(Transform(t, rows, rank), Origin(t, rows, rank, k)) >= k
  {
    hide Slot, Transform, Origin, SuffixOrder;
    if k > 0 {
      SlotAtLeast(t, rows, rank, k - 1);
      OriginsSorted(t, rows, rank, k - 1);
      SlotOrders(Transform(t, rows, rank), Origin(t, rows, rank, k - 1), Origin(t, rows, rank, k));
    }
  }

  lemma {:induction false} SlotAtMost(t: seq<byte>, rows: seq<nat>, rank: seq<nat>, k: nat)
    requires SuffixOrder(t, rows, rank) && k < |t|
    ensures Slot(Transform(t, rows, rank), Origin(t, rows, rank, k)) <= k
    decreases |t| - k
  {
    SlotBounds(Transform(t, rows, rank), Origin(t, rows, rank, k));
    if k + 1 < |t| {
      hide Slot, Transform, Origin, SuffixOrder;
      SlotAtMost(t, rows, rank, k + 1);
      OriginsSorted(t, rows, rank, k);
      SlotOrders(Transform(t, rows, rank), Origin(t, rows, rank, k), Origin(t, rows, rank, k + 1));
    }
  }

  // ---------------------------------------------------------------- inversion

  /** Turns the counts of each byte, held one place up, into the counts of the bytes below. */
  method Accumulate(cnt: array<nat>, ghost b: seq<byte>)
    requires cnt.Length == 257 && cnt[0] == 0
    requires forall c :: 1 <= c <= 256 ==> cnt[c] == Count(b, c - 1, |b|)
    modifies cnt
    ensures forall c :: 0 <= c < 256 ==> cnt[c] == Below(b, c, |b|)
  {
    BelowAll(b, |b|);
    for i := 1 to 256
      invariant forall c :: 0 <= c < i ==> cnt[c] == Below(b, c, |b|)
      invariant forall c :: i <= c <= 256 ==> cnt[c] == Count(b, c - 1, |b|)
    {
      BelowStep(b, i - 1, |b|);
      cnt[i] := cnt[i] + cnt[i - 1];
    }
  }

  /** i - (i < idx): the row, counted without the empty suffix, of the byte at place i. */
  function Link(i: nat, idx: nat): (p: int) { if i < idx then i - 1 else i }

  /** Sorts the links of all places by byte, keeping their order: the stable counting sort. */
  method LinkPlaces(buf: array<byte>, idx: nat, cnt: array<nat>, ptr: array<int>)
    requires cnt.Length == 257 && ptr.Length == buf.Length
    requires forall c :: 0 <= c < 256 ==> cnt[c] == Below(buf[..], c, buf.Length)
    modifies cnt, ptr
    ensures forall i :: 0 <= i < buf.Length ==> Slot(buf[..], i) < buf.Length && ptr[Slot(buf[..], i)] == Link(i, idx)
    ensures forall c :: 0 <= c < 256 ==> cnt[c] == Below(buf[..], c + 1, buf.Length)
  {
    hide Slot, Below, Count;
    ghost var b := buf[..];
    SlotsInRange(b);
    CountZero(b);
    for i := 0 to buf.Length
      invariant buf[..] == b
      invariant forall c :: 0 <= c < 256 ==> cnt[c] == Below(b, c, |b|) + Count(b, c, i)
      invariant forall j :: 0 <= j < i ==> Slot(b, j) < |b| && ptr[Slot(b, j)] == Link(j, idx)
    {
      SlotIs(b, i);
      forall j | 0 <= j < i ensures Slot(b, j) != Slot(b, i) {
        if Slot(b, j) == Slot(b, i) {
          SlotInjective(b, i, j);
        }
      }
      ptr[cnt[buf[i]]] := if i < idx then i - 1 else i;
      cnt[buf[i]] := cnt[buf[i]] + 1;
      CountNext(b, i);
    }
    forall c | 0 <= c < 256 ensures cnt[c] == Below(b, c + 1, |b|) {
      BelowStep(b, c, |b|);
    }
  }

  /** The first byte of sorted row p: the smallest c with more than p bytes up to c. */
  method FirstByte(cnt: array<nat>, p: nat, ghost b: seq<byte>) returns (c: byte)
    requires cnt.Length == 257 && p < |b|
    requires forall c :: 0 <= c < 256 ==> cnt[c] == Below(b, c + 1, |b|)
    ensures Below(b, c, |b|) <= p < Below(b, c as int + 1, |b|)
  {
    hide Below;
    BelowAll(b, |b|);
    var d := 0;
    var half := 127;
    assert cnt[255] == Below(b, 256, |b|);
    for j := 0 to 8
      invariant 0 <= half && 0 <= d && half == [127, 63, 31, 15, 7, 3, 1, 0, 0][j]
      invariant d + 2 * half + (if j < 8 then 1 else 0) <= 255
      invariant Below(b, d, |b|) <= p < cnt[d + 2 * half + (if j < 8 then 1 else 0)]
    {
      if cnt[d + half] <= p {
        assert cnt[d + half] == Below(b, d + half + 1, |b|);
        d := d + half + 1;
      }
      half := half / 2;
    }
    c := d;
  }

  lemma FirstByteIs(t: seq<byte>, rows: seq<nat>, rank: seq<nat>, p: nat, c: byte)
    requires SuffixOrder(t, rows, rank) && p < |t|
    requires var b := Transform(t, rows, rank); Below(b, c, |b|) <= p < Below(b, c as int + 1, |b|)
    ensures rows[p + 1] < |t| && c == t[rows[p + 1]]
  {
    hide Below, Slot, Transform;
    var b := Transform(t, rows, rank);
    var i := Origin(t, rows, rank, p);
    SlotOfOrigin(t, rows, rank, p);
    OriginByte(t, rows, rank, p);
    SlotBounds(b, i);
    if b[i] < c {
      BelowMono(b, b[i] as int + 1, c, |b|);
    } else if c < b[i] {
      BelowMono(b, c as int + 1, b[i], |b|);
    }
  }

  /** Following the links from the row of the whole text spells the text. */
  method Rebuild(buf: array<byte>, idx: nat, cnt: array<nat>, ptr: array<int>,
                 ghost t: seq<byte>, ghost rows: seq<nat>, ghost rank: seq<nat>)
    requires t != [] && SuffixOrder(t, rows, rank) && idx == rank[0]
    requires buf.Length == ptr.Length == |t| && cnt.Length == 257
    requires forall c :: 0 <= c < 256 ==> cnt[c] == Below(Transform(t, rows, rank), c + 1, |t|)
    requires forall i :: 0 <= i < |t| ==>
      var k := Slot(Transform(t, rows, rank), i); k < |t| && ptr[k] == Link(i, idx)
    modifies buf
    ensures buf[..] == t
  {
    hide Below, Slot, Transform;
    ghost var b := Transform(t, rows, rank);
    EmptySuffixFirst(t, rows, rank);
    var p := idx - 1;
    for i := 0 to buf.Length
      invariant p + 1 == rank[i]
      invariant forall k :: 0 <= k < i ==> buf[k] == t[k]
    {
      assert rows[rank[i]] == i && rows[0] == |t|;
      var c := FirstByte(cnt, p, b);
      FirstByteIs(t, rows, rank, p, c);
      buf[i] := c;
      NextRow(t, rows, rank, i);
      SlotOfOrigin(t, rows, rank, p);
      p := ptr[p];
    }
  }

  lemma NextRow(t: seq<byte>, rows: seq<nat>, rank: seq<nat>, s: nat)
    requires SuffixOrder(t, rows, rank) && s < |t|
    ensures 1 <= rank[s] <= |t| && rows[rank[s]] == s
    ensures Link(Origin(t, rows, rank, rank[s] - 1), rank[0]) + 1 == rank[s + 1]
  {
    EmptySuffixFirst(t, rows, rank);
    assert rows[rank[s]] == s;
    OriginByte(t, rows, rank, rank[s] - 1);
  }

  /** Counting, the links and the walk along them turn a transform and its primary index into the text. */
  method Invert(bs: seq<byte>, idx: nat, ghost t: seq<byte>, ghost rows: seq<nat>, ghost rank: seq<nat>)
    returns (out: seq<byte>)
    requires t != [] && SuffixOrder(t, rows, rank) && idx == rank[0] && bs == Transform(t, rows, rank)
    ensures out == t
  {
    hide Below, Count, Slot, Transform;
    var n := |bs|;
    var cnt, ptr, buf := new nat[257](_ => 0), new int[n](_ => 0), new byte[n](_ => 0);
    CountZero(bs);
    for i := 0 to n
      invariant cnt[0] == 0 && forall k :: 0 <= k < i ==> buf[k] == bs[k]
      invariant forall x :: 1 <= x <= 256 ==> cnt[x] == Count(bs, x - 1, i)
    {
      buf[i] := bs[i];
      cnt[buf[i] + 1] := cnt[buf[i] + 1] + 1;
      CountNext(bs, i);
    }
    assert buf[..] == bs;
    Accumulate(cnt, bs);
    LinkPlaces(buf, idx, cnt, ptr);
    Rebuild(buf, idx, cnt, ptr, t, rows, rank);
    out := buf[..];
  }
}
