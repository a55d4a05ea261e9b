/** FPC's block header: code lengths as nibbles, with runs shortened, read back to the byte. */
module FpcHeader {
  import opened Bytes
  import opened FpcBase

  type nibble = n: int | 0 <= n < 16

  // ---------------------------------------------------------------- runs as nibbles

  /** The length of the run of equal lengths at a. */
  function Run(lens: seq<byte>, a: nat): (n: nat)
    requires a < |lens|
    ensures 1 <= n && a + n <= |lens| && forall j :: a <= j < a + n ==> lens[j] == lens[a]
    ensures a + n < |lens| ==> lens[a + n] != lens[a]
    decreases |lens| - a
  {
    if a + 1 < |lens| && lens[a + 1] == lens[a] then 1 + Run(lens, a + 1) else 1
  }

  /** A number as 15s and a rest below 15. */
  function Fifteens(k: nat): (s: seq<nibble>)
    ensures s != []
  {
    if k < 15 then [k] else [15] + Fifteens(k - 15)
  }

  /** r more copies of the previous length. */
  function Repeat(r: nat): (s: seq<nibble>)
    requires r >= 2
    ensures s != []
  {
    if r <= 15 - MAX_BIT_LEN then [MAX_BIT_LEN - 1 + r] else [15] + Fifteens(r - 5)
  }

  /** One run: its length, unless it is the 0 that precedes everything, and its repeats. */
  function RunNibbles(len: byte, n: nat, first: bool): (s: seq<nibble>)
    requires len <= MAX_BIT_LEN && n >= 1
  {
    if n == 1 then [len]
    else if n == 2 then [len, len]
    else if len == 0 && first then Repeat(n)
    else [len] + Repeat(n - 1)
  }

  function Describe(lens: seq<byte>, a: nat): (s: seq<nibble>)
    requires Lens(lens) && a <= SYMBOLS
    decreases SYMBOLS - a
  {
    if a == SYMBOLS then []
    else RunNibbles(lens[a], Run(lens, a), a == 0) + Describe(lens, a + Run(lens, a))
  }

  lemma {:induction false} FifteensSize(k: nat)
    ensures |Fifteens(k)| == 1 + k / 15
  {
    if k >= 15 {
      FifteensSize(k - 15);
    }
  }

  /** A run takes its length and one nibble for up to four repeats, or two and one more for every 15 beyond five. */
  lemma RunSize(len: byte, n: nat, first: bool)
    requires len <= MAX_BIT_LEN && n >= 3
    ensures var r := if len == 0 && first then n else n - 1;
            |RunNibbles(len, n, first)| == n - r + (if r <= 4 then 1 else 2 + (r - 5) / 15)
    ensures |RunNibbles(len, n, first)| <= n
  {
    var r := if len == 0 && first then n else n - 1;
    if r > 4 {
      FifteensSize(r - 5);
    }
  }

  /** A description never takes more than one nibble for a length. */
  lemma {:induction false} DescriptionSize(lens: seq<byte>, a: nat)
    requires Lens(lens) && a <= SYMBOLS
    ensures |Describe(lens, a)| <= SYMBOLS - a
    decreases SYMBOLS - a
  {
    hide RunNibbles, Run;
    if a < SYMBOLS {
      var n := Run(lens, a);
      DescriptionSize(lens, a + n);
      ShortRun(lens[a], n, a == 0);
    }
  }

  lemma ShortRun(len: byte, n: nat, first: bool)
    requires len <= MAX_BIT_LEN && n >= 1
    ensures |RunNibbles(len, n, first)| <= n
  {
    if n >= 3 {
      RunSize(len, n, first);
    }
  }

  // ---------------------------------------------------------------- nibbles as bytes

  /** Two nibbles to a byte, the first one low. */
  function Pack(s: seq<nibble>): (b: seq<byte>)
    ensures |b| == (|s| + 1) / 2
  {
    if |s| == 0 then [] else if |s| == 1 then [s[0]] else [s[0] as int + s[1] as int * 16] + Pack(s[2..])
  }

  function NibbleAt(b: seq<byte>, i: nat): (n: nibble)
    requires i / 2 < |b|
  {
    if i % 2 == 0 then b[i / 2] % 16 else b[i / 2] / 16
  }

  lemma {:induction false} PackAt(s: seq<nibble>, i: nat)
    requires i < |s|
    ensures NibbleAt(Pack(s), i) == s[i]
  {
    if i >= 2 {
      PackAt(s[2..], i - 2);
    }
  }

  lemma {:induction false} PackEven(s: seq<nibble>, t: seq<nibble>)
    requires |s| % 2 == 0
    ensures Pack(s + t) == Pack(s) + Pack(t)
  {
    if s == [] {
      assert s + t == t;
    } else {
      assert (s + t)[2..] == s[2..] + t;
      PackEven(s[2..], t);
    }
  }

  lemma PackFew(n: nibble, m: nibble)
    ensures Pack([n]) == [n] && Pack([n, m]) == [n as int + m as int * 16]
  {
    assert [n, m][2..] == [];
  }

  /** A pair of nibbles, or one left over, fills the next byte. */
  lemma PackEnd(s: seq<nibble>, n: nibble, m: nibble)
    requires |s| % 2 == 0
    ensures Pack(s + [n]) == Pack(s) + [n]
    ensures Pack(s + [n, m]) == Pack(s) + [n as int + m as int * 16]
  {
    hide Pack;
    PackEven(s, [n]);
    PackEven(s, [n, m]);
    PackFew(n, m);
  }

  /** The nibbles put so far are in out, an odd last one in c. */
  ghost predicate Held(out: seq<byte>, c: byte, put: seq<nibble>) {
    if |put| % 2 == 0 then out == Pack(put) else out == Pack(put[..|put| - 1]) && c == put[|put| - 1]
  }

  lemma HeldNext(out: seq<byte>, c: byte, put: seq<nibble>, n: nibble)
    requires Held(out, c, put)
    ensures |put| % 2 == 0 ==> Held(out, n, put + [n])
    ensures |put| % 2 == 1 ==> c + n * 16 < 256 && Held(out + [c + n * 16], c + n * 16, put + [n])
  {
    if |put| % 2 == 0 {
      assert (put + [n])[..|put|] == put;
    } else {
      PackEnd(put[..|put| - 1], c, n);
      assert put + [n] == put[..|put| - 1] + [c, n];
    }
  }

  /** byte_pos, nibble_count and c while writing. */
  class Writer {
    var out: seq<byte>
    var count: nat
    var c: byte
    ghost var put: seq<nibble>

    ghost predicate Valid()
      reads this
    {
      count == |put| && Held(out, c, put)
    }

    constructor ()
      ensures Valid() && put == []
    {
      out, count, c, put := [], 0, 0, [];
    }

    method Put(n: nibble)
      requires Valid()
      modifies this
      ensures Valid() && put == old(put) + [n]
    {
      hide Held;
      HeldNext(out, c, put, n);
      put := put + [n];
      count := count + 1;
      if count % 2 == 1 {
        c := n;
      } else {
        c := c + n * 16;
        out := out + [c];
      }
    }

    /** Writes the nibble left over and returns the number of bytes. */
    method Flush() returns (n: nat)
      requires Valid()
      modifies this`out
      ensures out == Pack(put) && n == |out|
    {
      if count % 2 == 1 {
        PackEnd(put[..count - 1], c, 0);
        assert put == put[..count - 1] + [c];
        out := out + [c];
      }
      n := |out|;
    }

    /** The tail of a long run: 15s, then the rest. */
    method PutFifteens(k: nat)
      requires Valid()
      modifies this
      ensures Valid() && put == old(put) + Fifteens(k)
    {
      var rest := k;
      while rest >= 15
        invariant Valid() && put + Fifteens(rest) == old(put) + Fifteens(k)
      {
        Put(15);
        rest := rest - 15;
      }
      Put(rest);
    }

    /** What follows the first of n equal lengths. */
    method PutRepeat(n: nat)
      requires Valid() && n >= 3
      modifies this
      ensures Valid() && put == old(put) + Repeat(n - 1)
    {
      hide Pack, Fifteens, Valid;
      if n <= 16 - MAX_BIT_LEN {
        Put(MAX_BIT_LEN + n - 2);
      } else {
        Put(15);
        PutFifteens(n - (17 - MAX_BIT_LEN));
        assert put == old(put) + ([15] + Fifteens(n - 6));
      }
    }

    /** One run of `run` equal lengths, the first run of all if `first`. */
    method PutRun(len: byte, run: nat, first: bool)
      requires Valid() && len <= MAX_BIT_LEN && run >= 1
      modifies this
      ensures Valid() && put == old(put) + RunNibbles(len, run, first)
    {
      hide Pack, Repeat, Valid;
      var n := run;
      if n == 1 {
        Put(len);
      } else if n == 2 {
        Put(len);
        Put(len);
        assert put == old(put) + [len, len];
      } else {
        if len == 0 && first {
          n := n + 1;
        } else {
          Put(len);
        }
        PutRepeat(n);
        assert put == old(put) + RunNibbles(len, run, first);
      }
    }
  }

  method ScanRun(lens: seq<byte>, start: nat) returns (count: nat)
    requires Lens(lens) && start < SYMBOLS
    ensures count == Run(lens, start)
  {
    count := 1;
    var a := start;
    var previous := lens[a];
    while a + 1 < SYMBOLS && previous == lens[a + 1]
      invariant start + count == a + 1 <= SYMBOLS && previous == lens[a]
      invariant count + (Run(lens, a) - 1) == Run(lens, start)
    {
      count := count + 1;
      a := a + 1;
    }
  }

  lemma DescribeStep(lens: seq<byte>, a: nat, before: seq<nibble>)
    requires Lens(lens) && a < SYMBOLS
    ensures before + Describe(lens, a)
         == before + RunNibbles(lens[a], Run(lens, a), a == 0) + Describe(lens, a + Run(lens, a))
  {
    DescribeNext(lens, a);
    hide RunNibbles, Run, Describe;
    Regroup(before, RunNibbles(lens[a], Run(lens, a), a == 0), Describe(lens, a + Run(lens, a)));
  }

  lemma DescribeNext(lens: seq<byte>, a: nat)
    requires Lens(lens) && a < SYMBOLS
    ensures Describe(lens, a) == RunNibbles(lens[a], Run(lens, a), a == 0) + Describe(lens, a + Run(lens, a))
  {
    hide RunNibbles, Run;
  }

  /** write_prefix_descr */
  method WritePrefixDescr(lens: seq<byte>) returns (out: seq<byte>)
    requires Lens(lens)
    ensures out == Pack(Describe(lens, 0))
  {
    hide Pack, RunNibbles, Describe, Run;
    var w := new Writer();
    var a := 0;
    while a < SYMBOLS
      invariant a <= SYMBOLS && w.Valid() && w.put + Describe(lens, a) == Describe(lens, 0)
    {
      var count := ScanRun(lens, a);
      DescribeStep(lens, a, w.put);
      w.PutRun(lens[a], count, count == a + count);
      a := a + count;
    }
    Nothing(lens);
    assert w.put + [] == w.put;
    var n := w.Flush();
    out := w.out;
  }

  lemma Nothing(lens: seq<byte>)
    requires Lens(lens)
    ensures Describe(lens, SYMBOLS) == []
  {
  }

  // ---------------------------------------------------------------- reading the description

  const NO_NIBBLE := 100

  /** byte_pos, byte_end, nibble_count and c while reading. */
  class Reader {
    const source: seq<byte>
    const start: nat
    const end: nat
    var pos: nat
    var count: nat
    var c: byte

    ghost predicate Valid()
      reads this
    {
      && start <= pos <= end <= |source|
      && pos == start + (count + 1) / 2
      && (count % 2 == 1 ==> c == source[pos - 1])
    }

    constructor (source: seq<byte>, start: nat, end: nat)
      requires start <= end <= |source|
      ensures Valid() && count == 0 && this.source == source && this.start == start && this.end == end
    {
      this.source, this.start, this.end := source, start, end;
      pos, count, c := start, 0, 0;
    }

    /** get_nibble: the next nibble, or 100 at the end of the input. */
    method Get() returns (n: nat)
      requires Valid()
      modifies this`pos, this`count, this`c
      ensures n == NO_NIBBLE || (n < 16 && Valid() && count == old(count) + 1)
      ensures start + old(count) / 2 < end ==>
                n != NO_NIBBLE && n == NibbleAt(source[start..end], old(count))
    {
      count := count + 1;
      if count % 2 == 1 {
        if pos >= end {
          return NO_NIBBLE;
        }
        c := source[pos];
        pos := pos + 1;
        n := c % 16;
      } else {
        n := c / 16;
      }
    }
  }

  /** The input starts with the description of these lengths. */
  ghost predicate Follows(source: seq<byte>, start: nat, end: nat, lens: seq<byte>) {
    && Lens(lens) && start <= end <= |source|
    && |Pack(Describe(lens, 0))| <= end - start
    && source[start..end][..|Pack(Describe(lens, 0))|] == Pack(Describe(lens, 0))
  }

  lemma FollowsAt(source: seq<byte>, start: nat, end: nat, lens: seq<byte>, i: nat)
    requires Follows(source, start, end, lens) && i < |Describe(lens, 0)|
    ensures start + i / 2 < end && NibbleAt(source[start..end], i) == Describe(lens, 0)[i]
  {
    hide Describe;
    var s, b := Describe(lens, 0), source[start..end];
    PackAt(s, i);
    assert b[i / 2] == b[..|Pack(s)|][i / 2];
  }

  ghost predicate AllEqual(lens: seq<byte>, a: nat, r: nat, v: nat) {
    a + r <= |lens| && forall j :: a <= j < a + r ==> lens[j] == v
  }

  ghost predicate Repeats(lens: seq<byte>, a: nat, r: nat, previous: nat, rest: seq<nibble>)
    requires Lens(lens)
  {
    2 <= r && AllEqual(lens, a, r, previous) && rest == Repeat(r) + Describe(lens, a + r)
  }

  /** What can be left of the description when a lengths have been read. */
  ghost predicate Pending(lens: seq<byte>, a: nat, previous: nat, rest: seq<nibble>)
    requires Lens(lens) && a <= SYMBOLS
  {
    || (rest == Describe(lens, a) && (a == 0 ==> previous == 0))
    || (a < SYMBOLS && lens[a] == previous && rest == [lens[a]] + Describe(lens, a + 1))
    || exists r :: Repeats(lens, a, r, previous, rest)
  }

  /** Either the next length itself comes next (r == 0), or r repeats of the previous one. */
  lemma NextIs(lens: seq<byte>, a: nat, previous: nat, rest: seq<nibble>) returns (r: nat)
    requires Lens(lens) && a < SYMBOLS && Pending(lens, a, previous, rest)
    ensures rest != []
    ensures r == 0 ==> rest[0] == lens[a] && Pending(lens, a + 1, lens[a], rest[1..])
    ensures r != 0 ==> Repeats(lens, a, r, previous, rest) && rest[0] > MAX_BIT_LEN
  {
    if rest == Describe(lens, a) && (a == 0 ==> previous == 0) {
      var n := Run(lens, a);
      if n >= 3 && lens[a] == 0 && a == 0 {
        r := n;
      } else {
        r := 0;
        DescribeStep(lens, a, []);
        assert rest == [] + rest;
        AfterFirst(lens, a, n, rest);
      }
    } else if lens[a] == previous && rest == [lens[a]] + Describe(lens, a + 1) {
      r := 0;
      assert rest[1..] == Describe(lens, a + 1);
    } else {
      r :| Repeats(lens, a, r, previous, rest);
    }
    if r != 0 {
      assert rest[0] == Repeat(r)[0];
    }
  }

  lemma AfterFirst(lens: seq<byte>, a: nat, n: nat, rest: seq<nibble>)
    requires Lens(lens) && a < SYMBOLS && 1 <= n && AllEqual(lens, a, n, lens[a])
    requires rest == RunNibbles(lens[a], n, a == 0) + Describe(lens, a + n)
    requires !(n >= 3 && lens[a] == 0 && a == 0)
    ensures rest != [] && rest[0] == lens[a] && Pending(lens, a + 1, lens[a], rest[1..])
  {
    hide Repeat, Describe;
    var next := Describe(lens, a + n);
    if n == 1 {
      assert rest == [lens[a]] + next && rest[1..] == next;
    } else if n == 2 {
      assert rest == [lens[a], lens[a]] + next && rest[1..] == [lens[a + 1]] + next;
    } else {
      LongRun(lens, a, n, rest);
    }
  }

  lemma LongRun(lens: seq<byte>, a: nat, n: nat, rest: seq<nibble>)
    requires Lens(lens) && a < SYMBOLS && 3 <= n && AllEqual(lens, a, n, lens[a])
    requires rest == [lens[a]] + Repeat(n - 1) + Describe(lens, a + n)
    ensures rest != [] && rest[0] == lens[a] && Pending(lens, a + 1, lens[a], rest[1..])
  {
    hide Repeat, Describe;
    assert rest[1..] == Repeat(n - 1) + Describe(lens, a + n);
    assert Repeats(lens, a + 1, n - 1, lens[a], rest[1..]);
  }

  method FillLens(len: array<byte>, a: nat, c: nat, v: byte)
    requires a + c <= len.Length
    modifies len
    ensures len[..a] == old(len[..a]) && forall j :: a <= j < a + c ==> len[j] == v
    ensures len[a + c..] == old(len[a + c..])
  {
    var k := 0;
    while k < c
      invariant k <= c && len[..a] == old(len[..a]) && forall j :: a <= j < a + k ==> len[j] == v
      invariant len[a + c..] == old(len[a + c..])
    {
      len[a + k] := v;
      k := k + 1;
    }
  }

  /** a lengths have been read, and if the input is the description of lens they are its first ones. */
  ghost predicate Reading(r: Reader, len: array<byte>, a: nat, previous: nat, lens: seq<byte>)
    reads r, len
  {
    && r.Valid() && len.Length == SYMBOLS && a <= SYMBOLS && previous <= MAX_BIT_LEN
    && (forall j :: 0 <= j < a ==> len[j] <= MAX_BIT_LEN)
    && (Follows(r.source, r.start, r.end, lens) ==>
          && len[..a] == lens[..a] && r.count <= |Describe(lens, 0)|
          && Pending(lens, a, previous, Describe(lens, 0)[r.count..]))
  }

  /** k more repeats are described by the 15s that come next; none when the last part has been read. */
  ghost predicate FifteensLeft(read: seq<byte>, count: nat, lens: seq<byte>, previous: nat, k: nat, more: bool)
    requires Lens(lens)
  {
    var a := |read|;
    && 0 < a <= SYMBOLS && read == lens[..a] && AllEqual(lens, a, k, previous) && count <= |Describe(lens, 0)|
    && (if more then Describe(lens, 0)[count..] == Fifteens(k) + Describe(lens, a + k)
        else Describe(lens, 0)[count..] == Describe(lens, a))
  }

  lemma FifteenTaken(read: seq<byte>, count: nat, lens: seq<byte>, previous: nat, k: nat, now: seq<byte>, bl: nat)
    requires Lens(lens) && FifteensLeft(read, count, lens, previous, k, true)
    requires count < |Describe(lens, 0)| && bl == Describe(lens, 0)[count]
    requires |now| == |read| + bl && now[..|read|] == read && AllEqual(now, |read|, bl, previous)
    ensures FifteensLeft(now, count + 1, lens, previous, if k < 15 then 0 else k - 15, bl == 15)
  {
    hide Describe;
    var a := |read|;
    NextFifteen(Describe(lens, 0), count, k, Describe(lens, a + k));
    forall j | 0 <= j < a + bl ensures now[j] == lens[j] {
      if j < a {
        assert now[j] == now[..a][j] == lens[..a][j];
      }
    }
  }

  lemma FifteenFollows(read: seq<byte>, count: nat, lens: seq<byte>, previous: nat, k: nat)
    requires Lens(lens) && FifteensLeft(read, count, lens, previous, k, true)
    ensures count < |Describe(lens, 0)| && Describe(lens, 0)[count] == if k < 15 then k else 15
    ensures |read| + Describe(lens, 0)[count] <= SYMBOLS
  {
    hide Describe;
    NextFifteen(Describe(lens, 0), count, k, Describe(lens, |read| + k));
  }

  lemma NextFifteen(ds: seq<nibble>, i: nat, k: nat, next: seq<nibble>)
    requires i <= |ds| && ds[i..] == Fifteens(k) + next
    ensures i < |ds| && ds[i] == if k < 15 then k else 15
    ensures ds[i + 1..] == if k < 15 then next else Fifteens(k - 15) + next
  {
    assert ds[i] == ds[i..][0] == Fifteens(k)[0];
    assert ds[i + 1..] == ds[i..][1..] == Fifteens(k)[1..] + next;
  }

  /** One more part of a long repeat. */
  method ReadFifteen(r: Reader, len: array<byte>, a: nat, previous: byte, ghost lens: seq<byte>, ghost k: nat)
    returns (ok: bool, bl: nat)
    requires Lens(lens) && r.Valid() && len.Length == SYMBOLS && 0 < a <= SYMBOLS && previous <= MAX_BIT_LEN
    requires forall j :: 0 <= j < a ==> len[j] <= MAX_BIT_LEN
    requires Follows(r.source, r.start, r.end, lens) ==> FifteensLeft(len[..a], r.count, lens, previous, k, true)
    modifies len, r`pos, r`count, r`c
    ensures Follows(r.source, r.start, r.end, lens) ==> ok
    ensures ok ==> r.Valid() && r.count == old(r.count) + 1 && a + bl <= SYMBOLS
    ensures ok ==> forall j :: 0 <= j < a + bl ==> len[j] <= MAX_BIT_LEN
    ensures ok && Follows(r.source, r.start, r.end, lens) ==>
              FifteensLeft(len[..a + bl], r.count, lens, previous, if k < 15 then 0 else k - 15, bl == 15)
  {
    hide Pack, Follows, Describe, NibbleAt, FifteensLeft;
    if Follows(r.source, r.start, r.end, lens) {
      FifteenFollows(len[..a], r.count, lens, previous, k);
      FollowsAt(r.source, r.start, r.end, lens, r.count);
    }
    ghost var read, count := len[..a], r.count;
    bl := r.Get();
    if bl == NO_NIBBLE || a + bl > SYMBOLS {
      return false, bl;
    }
    FillLens(len, a, bl, previous);
    ok := true;
    if Follows(r.source, r.start, r.end, lens) {
      assert len[..a + bl][..a] == read;
      FifteenTaken(read, count, lens, previous, k, len[..a + bl], bl);
    }
    forall j | 0 <= j < a + bl ensures len[j] <= MAX_BIT_LEN {
      assert j < a ==> len[j] == len[..a][j] == read[j];
    }
  }

  /** The rest of a long repeat. */
  method ReadFifteens(r: Reader, len: array<byte>, from: nat, previous: byte, ghost lens: seq<byte>,
                      ghost left: nat) returns (ok: bool, a: nat)
    requires Lens(lens) && r.Valid() && len.Length == SYMBOLS && 0 < from <= SYMBOLS && previous <= MAX_BIT_LEN
    requires forall j :: 0 <= j < from ==> len[j] <= MAX_BIT_LEN
    requires Follows(r.source, r.start, r.end, lens) ==>
               FifteensLeft(len[..from], r.count, lens, previous, left, true)
    modifies len, r`pos, r`count, r`c
    ensures Follows(r.source, r.start, r.end, lens) ==> ok
    ensures ok ==> from <= a <= SYMBOLS && r.count > old(r.count) && Reading(r, len, a, previous, lens)
  {
    hide Pack, Follows, Describe, FifteensLeft;
    a := from;
    ghost var k := left;
    var more := true;
    while more
      invariant r.Valid() && from <= a <= SYMBOLS && r.count >= old(r.count) && (!more ==> r.count > old(r.count))
      invariant forall j :: 0 <= j < a ==> len[j] <= MAX_BIT_LEN
      invariant Follows(r.source, r.start, r.end, lens) ==> FifteensLeft(len[..a], r.count, lens, previous, k, more)
      decreases SYMBOLS - a, more
    {
      var bl;
      ok, bl := ReadFifteen(r, len, a, previous, lens, k);
      if !ok {
        return false, a;
      }
      a := a + bl;
      k := if k < 15 then 0 else k - 15;
      more := bl == 15;
    }
    ok := true;
    if Follows(r.source, r.start, r.end, lens) {
      RunDone(len[..a], r.count, lens, previous, k);
    }
  }

  lemma RunDone(read: seq<byte>, count: nat, lens: seq<byte>, previous: nat, k: nat)
    requires Lens(lens) && FifteensLeft(read, count, lens, previous, k, false)
    ensures count <= |Describe(lens, 0)| && read == lens[..|read|]
    ensures Pending(lens, |read|, previous, Describe(lens, 0)[count..])
  {
  }

  /** One nibble of the description with what belongs to it. */
  method ReadItem(r: Reader, len: array<byte>, from: nat, previous: byte, ghost lens: seq<byte>)
    returns (ok: bool, a: nat, previous': byte)
    requires Lens(lens) && from < SYMBOLS && Reading(r, len, from, previous, lens)
    modifies len, r`pos, r`count, r`c
    ensures Follows(r.source, r.start, r.end, lens) ==> ok
    ensures ok ==> from < a <= SYMBOLS && Reading(r, len, a, previous', lens) && r.count > 0
  {
    hide Pack, Follows, Describe, NibbleAt, Pending, Repeats, FifteensLeft;
    a, previous' := from, previous;
    ghost var n, ds, count := 0, Describe(lens, 0), r.count;
    if Follows(r.source, r.start, r.end, lens) {
      n := NextIs(lens, from, previous, ds[count..]);
      FollowsAt(r.source, r.start, r.end, lens, count);
      RepeatFits(lens, from, n, previous, ds, count);
    }
    ghost var read := len[..from];
    var bl := r.Get();
    if bl == NO_NIBBLE {
      return false, a, previous';
    }
    if bl <= MAX_BIT_LEN {
      previous' := bl;
      len[a] := bl;
      a := a + 1;
      ok := true;
      assert len[..a] == read + [bl];
      if Follows(r.source, r.start, r.end, lens) {
        assert ds[count..][1..] == ds[count + 1..];
      }
    } else {
      ok, a := ReadRepeat(r, len, from, bl, previous, lens, n);
    }
  }

  /** n repeats are described by nibble bl and what stands in ds from place count on. */
  ghost predicate RepeatNext(lens: seq<byte>, a: nat, n: nat, previous: nat, bl: nat, ds: seq<nibble>, count: nat)
    requires Lens(lens)
  {
    && 1 <= n && a + n <= SYMBOLS && AllEqual(lens, a, n, previous) && count <= |ds|
    && bl == (if n <= 15 - MAX_BIT_LEN then MAX_BIT_LEN - 1 + n else 15)
    && if n <= 15 - MAX_BIT_LEN then Pending(lens, a + n, previous, ds[count..])
       else ds[count..] == Fifteens(n - 5) + Describe(lens, a + n)
  }

  /** The repeats that nibble bl announces, and more after a 15. */
  method ReadRepeat(r: Reader, len: array<byte>, from: nat, bl: nat, previous: byte, ghost lens: seq<byte>,
                    ghost n: nat)
    returns (ok: bool, a: nat)
    requires Lens(lens) && r.Valid() && len.Length == SYMBOLS && from < SYMBOLS && previous <= MAX_BIT_LEN
    requires MAX_BIT_LEN < bl <= 15 && r.count > 0 && forall j :: 0 <= j < from ==> len[j] <= MAX_BIT_LEN
    requires Follows(r.source, r.start, r.end, lens) ==>
               len[..from] == lens[..from] && RepeatNext(lens, from, n, previous, bl, Describe(lens, 0), r.count)
    modifies len, r`pos, r`count, r`c
    ensures Follows(r.source, r.start, r.end, lens) ==> ok
    ensures ok ==> from < a <= SYMBOLS && Reading(r, len, a, previous, lens) && r.count > 0
  {
    hide Pack, Follows, Describe, NibbleAt, Pending, FifteensLeft, Fifteens;
    var c := if bl < 15 then 1 + bl - MAX_BIT_LEN else 16 - MAX_BIT_LEN;
    a := from;
    if a + c > SYMBOLS {
      return false, a;
    }
    CopyPrevious(len, a, c, previous, lens, Follows(r.source, r.start, r.end, lens));
    a := a + c;
    ok := true;
    if bl == 15 {
      if Follows(r.source, r.start, r.end, lens) {
        LongLeft(len[..a], r.count, lens, previous, n - 5);
      }
      ok, a := ReadFifteens(r, len, a, previous, lens, if n < 5 then 0 else n - 5);
    }
  }

  method CopyPrevious(len: array<byte>, a: nat, c: nat, previous: byte, ghost lens: seq<byte>, ghost follows: bool)
    requires len.Length == SYMBOLS && a + c <= SYMBOLS && previous <= MAX_BIT_LEN
    requires forall j :: 0 <= j < a ==> len[j] <= MAX_BIT_LEN
    requires follows ==> |lens| == SYMBOLS && len[..a] == lens[..a] && AllEqual(lens, a, c, previous)
    modifies len
    ensures forall j :: 0 <= j < a + c ==> len[j] <= MAX_BIT_LEN
    ensures follows ==> len[..a + c] == lens[..a + c]
  {
    ghost var read := len[..a];
    FillLens(len, a, c, previous);
    assert len[..a + c][..a] == read;
    if follows {
      Copied(read, len[..a + c], c, previous, lens);
    }
    StillShort(read, len[..a + c], c, previous);
  }

  /** What a repeat of n lengths looks like: one nibble, or a 15 with the rest behind it. */
  lemma RepeatFits(lens: seq<byte>, a: nat, n: nat, previous: nat, ds: seq<nibble>, count: nat)
    requires Lens(lens) && count < |ds| && (n != 0 ==> Repeats(lens, a, n, previous, ds[count..]))
    ensures n != 0 ==> a + n <= SYMBOLS && AllEqual(lens, a, n, previous)
    ensures n != 0 ==> ds[count] == if n <= 15 - MAX_BIT_LEN then MAX_BIT_LEN - 1 + n else 15
    ensures n != 0 && n <= 15 - MAX_BIT_LEN ==> Pending(lens, a + n, previous, ds[count + 1..])
    ensures n > 15 - MAX_BIT_LEN ==> ds[count + 1..] == Fifteens(n - 5) + Describe(lens, a + n)
  {
    hide Describe, Fifteens;
    if n != 0 {
      assert ds[count] == ds[count..][0] == Repeat(n)[0];
      assert ds[count + 1..] == ds[count..][1..] == Repeat(n)[1..] + Describe(lens, a + n);
      if n > 15 - MAX_BIT_LEN {
        assert Repeat(n)[1..] == Fifteens(n - 5);
      } else {
        assert ds[count + 1..] == Describe(lens, a + n);
      }
    }
  }

  lemma Copied(read: seq<byte>, now: seq<byte>, c: nat, v: nat, lens: seq<byte>)
    requires |read| + c <= |lens| && read == lens[..|read|] && AllEqual(lens, |read|, c, v)
    requires |now| == |read| + c && now[..|read|] == read && AllEqual(now, |read|, c, v)
    ensures now == lens[..|now|]
  {
    forall j | 0 <= j < |now| ensures now[j] == lens[j] {
      if j < |read| {
        assert now[j] == now[..|read|][j] == lens[..|read|][j];
      }
    }
  }

  lemma StillShort(read: seq<byte>, now: seq<byte>, c: nat, v: nat)
    requires |now| == |read| + c && now[..|read|] == read && AllEqual(now, |read|, c, v) && v <= MAX_BIT_LEN
    requires forall j :: 0 <= j < |read| ==> read[j] <= MAX_BIT_LEN
    ensures forall j :: 0 <= j < |now| ==> now[j] <= MAX_BIT_LEN
  {
    forall j | 0 <= j < |now| ensures now[j] <= MAX_BIT_LEN {
      if j < |read| {
        assert now[j] == now[..|read|][j];
      }
    }
  }

  lemma LongLeft(read: seq<byte>, count: nat, lens: seq<byte>, previous: nat, k: nat)
    requires Lens(lens) && 0 < |read| && |read| + k <= SYMBOLS && read == lens[..|read|]
    requires AllEqual(lens, |read|, k, previous) && count <= |Describe(lens, 0)|
    requires Describe(lens, 0)[count..] == Fifteens(k) + Describe(lens, |read| + k)
    ensures FifteensLeft(read, count, lens, previous, k, true)
  {
  }

  /** read_prefix_descr: 0 for a bad input; a description is read back using exactly its bytes. */
  method ReadPrefixDescr(source: seq<byte>, start: nat, end: nat, len: array<byte>, ghost lens: seq<byte>)
    returns (used: nat)
    requires Lens(lens) && start <= end <= |source| && len.Length == SYMBOLS
    modifies len
    ensures used != 0 ==> Lens(len[..]) && start + used <= end
    ensures Follows(source, start, end, lens) ==>
              used == |Pack(Describe(lens, 0))| && used > 0 && len[..] == lens
  {
    hide Pack, Follows, Describe, Pending;
    var r := new Reader(source, start, end);
    var a, previous := 0, 0;
    Beginning(lens);
    while a < SYMBOLS
      invariant r.source == source && r.start == start && r.end == end
      invariant a <= SYMBOLS && Reading(r, len, a, previous, lens)
      invariant a > 0 ==> r.count > 0
      decreases SYMBOLS - a
    {
      var ok;
      ok, a, previous := ReadItem(r, len, a, previous, lens);
      if !ok {
        return 0;
      }
    }
    used := r.pos - start;
    if Follows(source, start, end, lens) {
      Ending(lens, previous, r.count);
      assert len[..] == len[..SYMBOLS] == lens[..SYMBOLS] == lens;
    }
    assert len[..] == len[..SYMBOLS];
  }

  lemma Beginning(lens: seq<byte>)
    requires Lens(lens)
    ensures Pending(lens, 0, 0, Describe(lens, 0)[0..])
  {
    assert Describe(lens, 0)[0..] == Describe(lens, 0);
  }

  lemma Ending(lens: seq<byte>, previous: nat, count: nat)
    requires Lens(lens) && count <= |Describe(lens, 0)|
    requires Pending(lens, SYMBOLS, previous, Describe(lens, 0)[count..])
    ensures count == |Describe(lens, 0)| && |Pack(Describe(lens, 0))| == (count + 1) / 2
  {
    Nothing(lens);
    assert Describe(lens, 0)[count..] == [];
  }
}
