/** FPC's histogram with four tables and its two-pass radix sort of symbols by frequency. */
module FpcSort {
  import opened Bytes
  import opened CountingSort

  datatype Fsym = Fsym(freq: nat, sym: nat)

  // ---------------------------------------------------------------- histogram

  method Tally(table: array<nat>, s: seq<byte>, at: nat, ghost b: seq<nat>)
    requires table.Length == 256 && at < |s| && table[..] == b
    modifies table
    ensures table[..] == b[s[at] := b[s[at]] + 1]
  {
    table[s[at]] := table[s[at]] + 1;
  }

  /** Four tables that together count the first n bytes. */
  ghost predicate Together(s: seq<byte>, n: nat, b0: seq<nat>, b1: seq<nat>, b2: seq<nat>, b3: seq<nat>)
  {
    && n <= |s| && |b0| == |b1| == |b2| == |b3| == 256
    && forall c :: 0 <= c < 256 ==> b0[c] + b1[c] + b2[c] + b3[c] == Count(s, c, n)
  }

  lemma TogetherStep(s: seq<byte>, n: nat, b0: seq<nat>, b1: seq<nat>, b2: seq<nat>, b3: seq<nat>)
    requires Together(s, n, b0, b1, b2, b3) && n < |s|
    ensures Together(s, n + 1, b0[s[n] := b0[s[n]] + 1], b1, b2, b3)
  {
    hide Count;
    CountNext(s, n);
  }

  lemma Turned(s: seq<byte>, n: nat, b0: seq<nat>, b1: seq<nat>, b2: seq<nat>, b3: seq<nat>)
    requires Together(s, n, b0, b1, b2, b3)
    ensures Together(s, n, b1, b2, b3, b0)
  {
    hide Count;
    forall c | 0 <= c < 256 ensures b1[c] + b2[c] + b3[c] + b0[c] == Count(s, c, n) {
      assert b0[c] + b1[c] + b2[c] + b3[c] == Count(s, c, n);
    }
  }

  /** Counts one byte in table t, whichever of the four that is. */
  method TallyNext(s: seq<byte>, a: nat, t: array<nat>, ghost u: seq<nat>, ghost v: seq<nat>, ghost w: seq<nat>)
    requires a < |s| && Together(s, a, t[..], u, v, w)
    modifies t
    ensures Together(s, a + 1, u, v, w, t[..])
  {
    TogetherStep(s, a, t[..], u, v, w);
    Tally(t, s, a, t[..]);
    Turned(s, a + 1, t[..], u, v, w);
  }

  method TallyFour(s: seq<byte>, a: nat, res: array<nat>, b1: array<nat>, b2: array<nat>, b3: array<nat>)
    requires a + 4 <= |s| && res != b1 && res != b2 && res != b3 && b1 != b2 && b1 != b3 && b2 != b3
    requires Together(s, a, res[..], b1[..], b2[..], b3[..])
    modifies res, b1, b2, b3
    ensures Together(s, a + 4, res[..], b1[..], b2[..], b3[..])
  {
    hide Together;
    TallyNext(s, a, res, b1[..], b2[..], b3[..]);
    TallyNext(s, a + 1, b1, b2[..], b3[..], res[..]);
    TallyNext(s, a + 2, b2, b3[..], res[..], b1[..]);
    TallyNext(s, a + 3, b3, res[..], b1[..], b2[..]);
  }

  /** byte_count: res, cleared by the caller, becomes the histogram of s. */
  method ByteCount(s: seq<byte>, res: array<nat>)
    requires res.Length == 256 && forall c :: 0 <= c < 256 ==> res[c] == 0
    modifies res
    ensures forall c :: 0 <= c < 256 ==> res[c] == Count(s, c, |s|)
  {
    hide Count;
    var b1 := new nat[256](_ => 0);
    var b2 := new nat[256](_ => 0);
    var b3 := new nat[256](_ => 0);
    CountZero(s);
    var a := 0;
    while a < |s| / 8 * 8
      invariant 0 <= a <= |s| / 8 * 8 && a % 8 == 0
      invariant Together(s, a, res[..], b1[..], b2[..], b3[..])
    {
      TallyFour(s, a, res, b1, b2, b3);
      TallyFour(s, a + 4, res, b1, b2, b3);
      a := a + 8;
    }
    while a < |s|
      invariant 0 <= a <= |s| && Together(s, a, res[..], b1[..], b2[..], b3[..])
    {
      TogetherStep(s, a, res[..], b1[..], b2[..], b3[..]);
      Tally(res, s, a, res[..]);
      a := a + 1;
    }
    AddTables(s, res, b1, b2, b3);
  }

  method AddTables(s: seq<byte>, res: array<nat>, b1: array<nat>, b2: array<nat>, b3: array<nat>)
    requires res != b1 && res != b2 && res != b3 && Together(s, |s|, res[..], b1[..], b2[..], b3[..])
    modifies res
    ensures forall c :: 0 <= c < 256 ==> res[c] == Count(s, c, |s|)
  {
    hide Count;
    ghost var r0 := res[..];
    for c := 0 to 256
      invariant forall d :: 0 <= d < c ==> res[d] == Count(s, d, |s|)
      invariant forall d :: c <= d < 256 ==> res[d] == r0[d]
    {
      assert r0[c] + b1[..][c] + b2[..][c] + b3[..][c] == Count(s, c, |s|);
      res[c] := res[c] + b1[c] + b2[c] + b3[c];
    }
  }

  // ---------------------------------------------------------------- radix sort

  function Low(s: seq<Fsym>): (k: seq<byte>)
    ensures |k| == |s|
  {
    seq(|s|, i requires 0 <= i < |s| => s[i].freq % 256)
  }

  function High(s: seq<Fsym>): (k: seq<byte>)
    ensures |k| == |s|
  {
    seq(|s|, i requires 0 <= i < |s| => s[i].freq / 256 % 256)
  }

  ghost predicate Sorted(s: seq<Fsym>) {
    forall i, j :: 0 <= i < j < |s| ==> s[i].freq <= s[j].freq
  }

  /** t is s after one stable counting sort by the keys k. */
  ghost predicate Scattered(s: seq<Fsym>, k: seq<byte>, t: seq<Fsym>) {
    && |k| == |s| == |t|
    && forall i :: 0 <= i < |s| ==> Slot(k, i) < |t| && t[Slot(k, i)] == s[i]
  }

  /** Entries moved to distinct places are still the same entries. */
  lemma {:induction false} MovedMultiset<T>(s: seq<T>, t: seq<T>, to: seq<nat>)
    requires |s| == |t| == |to|
    requires forall i :: 0 <= i < |s| ==> to[i] < |t| && t[to[i]] == s[i]
    requires forall i, j :: 0 <= i < j < |s| ==> to[i] != to[j]
    ensures multiset(s) == multiset(t)
    decreases |s|
  {
    if s != [] {
      var n := |s| - 1;
      var k := to[n];
      var t1 := t[..k] + t[k + 1..];
      var to1 := seq(n, i requires 0 <= i < n => if to[i] > k then to[i] - 1 else to[i]);
      MovedMultiset(s[..n], t1, to1);
      assert t == t[..k] + [t[k]] + t[k + 1..];
      assert s == s[..n] + [s[n]];
    }
  }

  lemma ScatteredMultiset(s: seq<Fsym>, k: seq<byte>, t: seq<Fsym>)
    requires Scattered(s, k, t)
    ensures multiset(s) == multiset(t)
  {
    hide Slot;
    var to := seq(|s|, i requires 0 <= i < |s| => Slot(k, i));
    forall i, j | 0 <= i < j < |s| ensures to[i] != to[j] {
      if to[i] == to[j] {
        SlotInjective(k, i, j);
      }
    }
    MovedMultiset(s, t, to);
  }

  lemma {:induction false} CountIsMultiplicity(b: seq<byte>, c: byte)
    ensures Count(b, c, |b|) == multiset(b)[c]
    decreases |b|
  {
    if b != [] {
      var n := |b| - 1;
      assert b == b[..n] + [b[n]];
      CountIsMultiplicity(b[..n], c);
      CountPrefix(b, c, n);
    }
  }

  lemma {:induction false} CountPrefix(b: seq<byte>, c: byte, n: nat)
    requires n <= |b|
    ensures Count(b[..n], c, n) == Count(b, c, n)
    decreases n
  {
    if n > 0 {
      CountPrefix(b, c, n - 1);
      CountPrefix(b[..n], c, n - 1);
      assert b[..n][..n - 1] == b[..n - 1];
    }
  }

  lemma HighMultiset(s: seq<Fsym>, k: seq<byte>, t: seq<Fsym>)
    requires Scattered(s, k, t)
    ensures multiset(High(s)) == multiset(High(t))
  {
    hide Slot;
    var to := seq(|s|, i requires 0 <= i < |s| => Slot(k, i));
    forall i, j | 0 <= i < j < |s| ensures to[i] != to[j] {
      if to[i] == to[j] {
        SlotInjective(k, i, j);
      }
    }
    MovedMultiset(High(s), High(t), to);
  }

  /** The number of keys below c does not depend on their order. */
  lemma {:induction false} BelowOfMultiset(b: seq<byte>, d: seq<byte>, c: nat)
    requires multiset(b) == multiset(d) && |b| == |d| && c <= 256
    ensures Below(b, c, |b|) == Below(d, c, |d|)
    decreases c
  {
    if c == 0 {
      BelowAll(b, |b|);
      BelowAll(d, |d|);
    } else {
      BelowOfMultiset(b, d, c - 1);
      BelowStep(b, c - 1, |b|);
      BelowStep(d, c - 1, |d|);
      CountIsMultiplicity(b, c - 1);
      CountIsMultiplicity(d, c - 1);
    }
  }

  /** A stable sort by high bytes of what is sorted by low bytes is sorted. */
  lemma TwoPasses(s: seq<Fsym>, t: seq<Fsym>, u: seq<Fsym>)
    requires forall i :: 0 <= i < |s| ==> s[i].freq < 0x1_0000
    requires Scattered(s, Low(s), t) && Scattered(t, High(t), u)
    ensures Sorted(u) && multiset(u) == multiset(s)
  {
    hide Slot;
    ScatteredMultiset(s, Low(s), t);
    ScatteredMultiset(t, High(t), u);
    forall p, q | 0 <= p < q < |u| ensures u[p].freq <= u[q].freq {
      var i := SlotOnto(High(t), p);
      var j := SlotOnto(High(t), q);
      OrderOfSlots(High(t), i, j);
      assert t[i] in multiset(t) && t[j] in multiset(t);
      var i0 :| 0 <= i0 < |s| && s[i0] == t[i];
      if High(t)[i] == High(t)[j] {
        var a := SlotOnto(Low(s), i);
        var b := SlotOnto(Low(s), j);
        OrderOfSlots(Low(s), a, b);
      }
    }
  }

  lemma OrderOfSlots(k: seq<byte>, i: nat, j: nat)
    requires i < |k| && j < |k| && Slot(k, i) < Slot(k, j)
    ensures Earlier(k, i, j)
  {
    if !Earlier(k, i, j) && i != j {
      SlotOrders(k, j, i);
    }
  }

  /** Turns counts into the number of smaller keys. */
  method Cumulate(f: array<nat>, ghost k: seq<byte>)
    requires f.Length == 256 && forall c :: 0 <= c < 256 ==> f[c] == Count(k, c, |k|)
    modifies f
    ensures forall c :: 0 <= c < 256 ==> f[c] == Below(k, c, |k|)
  {
    hide Count, Below;
    BelowAll(k, |k|);
    BelowStep(k, 0, |k|);
    var sum := f[0];
    f[0] := 0;
    for a := 1 to 256
      invariant sum == Below(k, a, |k|)
      invariant forall c :: 0 <= c < a ==> f[c] == Below(k, c, |k|)
      invariant forall c :: a <= c < 256 ==> f[c] == Count(k, c, |k|)
    {
      BelowStep(k, a, |k|);
      var b := f[a];
      f[a] := sum;
      sum := sum + b;
    }
  }

  /** One placing pass: every entry goes to the slot of its key. */
  method Scatter(from: array<Fsym>, into: array<Fsym>, num: nat, f: array<nat>, high: bool)
    requires from != into && num <= from.Length && num <= into.Length && f.Length == 256
    requires forall i :: 0 <= i < num ==> from[i].freq < 0x1_0000
    requires forall c :: 0 <= c < 256 ==> f[c] == Below(KeysOf(from[..num], high), c, num)
    modifies into, f
    ensures Scattered(from[..num], KeysOf(from[..num], high), into[..num])
    ensures into[num..] == old(into[num..])
  {
    hide Slot, Below, Count;
    ghost var s := from[..num];
    ghost var k := KeysOf(s, high);
    SlotsInRange(k);
    CountZero(k);
    for a := 0 to num
      invariant forall c :: 0 <= c < 256 ==> f[c] == Below(k, c, num) + Count(k, c, a)
      invariant forall j :: 0 <= j < a ==> Slot(k, j) < num && into[Slot(k, j)] == s[j]
      invariant into[num..] == old(into[num..])
    {
      SlotIs(k, a);
      forall j | 0 <= j < a ensures Slot(k, j) != Slot(k, a) {
        if Slot(k, j) == Slot(k, a) {
          SlotInjective(k, j, a);
        }
      }
      assert s[a] == from[a];
      var b := if high then from[a].freq / 256 else from[a].freq % 256;
      assert b == k[a];
      into[f[b]] := from[a];
      f[b] := f[b] + 1;
      CountNext(k, a);
    }
  }

  function KeysOf(s: seq<Fsym>, high: bool): (k: seq<byte>)
    ensures |k| == |s|
  {
    if high then High(s) else Low(s)
  }

  /** Both tables of counts in one pass. */
  method CountKeys(input: array<Fsym>, num: nat, f0: array<nat>, f1: array<nat>)
    requires num <= input.Length && f0.Length == f1.Length == 256 && f0 != f1
    requires forall i :: 0 <= i < num ==> input[i].freq < 0x1_0000
    requires forall c :: 0 <= c < 256 ==> f0[c] == f1[c] == 0
    modifies f0, f1
    ensures forall c :: 0 <= c < 256 ==> f0[c] == Count(Low(input[..num]), c, num)
    ensures forall c :: 0 <= c < 256 ==> f1[c] == Count(High(input[..num]), c, num)
  {
    hide Count;
    ghost var s := input[..num];
    ghost var k0, k1 := Low(s), High(s);
    CountZero(k0);
    CountZero(k1);
    for a := 0 to num
      invariant forall c :: 0 <= c < 256 ==> f0[c] == Count(k0, c, a) && f1[c] == Count(k1, c, a)
    {
      CountNext(k0, a);
      CountNext(k1, a);
      var b := input[a].freq;
      assert s[a] == input[a];
      f0[b % 256] := f0[b % 256] + 1;
      f1[b / 256] := f1[b / 256] + 1;
    }
  }

  /** sort_inc: sorts by frequency, in place, the first num symbols. */
  method SortInc(input: array<Fsym>, num: nat)
    requires num <= 256 && num <= input.Length
    requires forall i :: 0 <= i < num ==> input[i].freq < 0x1_0000
    modifies input
    ensures Sorted(input[..num]) && multiset(input[..num]) == multiset(old(input[..num]))
    ensures input[num..] == old(input[num..])
  {
    hide Count, Below, Sorted, Scattered, Low, High;
    var f0 := new nat[256](_ => 0);
    var f1 := new nat[256](_ => 0);
    ghost var s := input[..num];
    CountKeys(input, num, f0, f1);
    Cumulate(f0, Low(s));
    Cumulate(f1, High(s));
    var tmp := new Fsym[256](_ => Fsym(0, 0));
    Scatter(input, tmp, num, f0, false);
    ghost var t := tmp[..num];
    Rekeyed(s, t);
    assert forall i :: 0 <= i < num ==> tmp[i] == t[i];
    Scatter(tmp, input, num, f1, true);
    TwoPasses(s, t, input[..num]);
  }

  /** After the first pass the counts of the high bytes still hold. */
  lemma Rekeyed(s: seq<Fsym>, t: seq<Fsym>)
    requires Scattered(s, Low(s), t) && forall i :: 0 <= i < |s| ==> s[i].freq < 0x1_0000
    ensures forall i :: 0 <= i < |t| ==> t[i].freq < 0x1_0000
    ensures forall c :: 0 <= c < 256 ==> Below(High(t), c, |t|) == Below(High(s), c, |s|)
  {
    hide Below, High;
    ScatteredMultiset(s, Low(s), t);
    HighMultiset(s, Low(s), t);
    forall i | 0 <= i < |t| ensures t[i].freq < 0x1_0000 {
      assert t[i] in multiset(s);
    }
    forall c | 0 <= c < 256 ensures Below(High(t), c, |t|) == Below(High(s), c, |s|) {
      BelowOfMultiset(High(s), High(t), c);
    }
  }
}
