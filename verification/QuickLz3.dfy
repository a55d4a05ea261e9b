/** QuickLZ level 3: matches with explicit offsets, and the streaming buffers of both sides. */
module QuickLz3 {
  import opened Arith
  import opened Bytes
  import opened QuickLz
  import opened QuickLzPacker
  import opened QuickLzReader
  import opened QuickLzMatch
  import opened QuickLzCompress
  import opened QuickLz3Parse

  const STREAMING_BUFFER := 1000000
  const LEVEL := 3
  const STREAMING_MODE := 2

  // ---------------------------------------------------------------- what the tokens mean

  ghost predicate Sourced(t: Token, x: seq<byte>, pos: nat) {
    match t
    case Literal(_) => true
    case Near(offset, len) => Repeats(x, pos, offset, len)
    case Hashed(_, _) => false
  }

  ghost predicate AllSourced(ts: seq<Token>, x: seq<byte>, pos: nat)
  {
    ts == [] || (Sourced(ts[0], x, pos) && AllSourced(ts[1..], x, pos + Span(ts[0])))
  }

  lemma {:induction false} SourcedSnoc(ts: seq<Token>, t: Token, x: seq<byte>, from: nat, to: nat)
    requires Fits(ts, x, from, to) && AllSourced(ts, x, from) && Sourced(t, x, to)
    ensures AllSourced(ts + [t], x, from)
  {
    hide Sourced, Placed;
    if ts == [] {
      assert (ts + [t])[1..] == [];
    } else {
      assert (ts + [t])[1..] == ts[1..] + [t];
      SourcedSnoc(ts[1..], t, x, from + Span(ts[0]), to);
    }
  }

  /** The tokens, all codable, spell out x from one position to another. */
  ghost predicate Spells(ts: seq<Token>, x: seq<byte>, from: nat, to: nat) {
    Covers(ts, x, from, to) && AllSourced(ts, x, from)
  }

  lemma SpellsSnoc(ts: seq<Token>, t: Token, x: seq<byte>, from: nat, to: nat)
    requires Spells(ts, x, from, to) && Codable(t) && Placed(t, x, to) && Sourced(t, x, to)
    ensures Spells(ts + [t], x, from, to + Span(t))
  {
    FitsSnoc(ts, t, x, from, to);
    SourcedSnoc(ts, t, x, from, to);
  }

  // ---------------------------------------------------------------- token shapes

  /** Which of the five shapes the fetched bytes have, and what they hold. */
  method ReadNear(fetch: nat, ghost t: Token) returns (offset: nat, matchlen: nat, n: nat)
    requires t.Near? && Codable(t) && Agree(fetch, t)
    ensures offset == t.offset && matchlen == t.len && n == TokenSize(t)
  {
    hide Agree, TokenWord;
    match TokenSize(t) {
      case 1 => OneByteShape(fetch, t);
      case 2 => TwoByteShapes(fetch, t);
      case 3 => ThreeByteShape(fetch, t);
      case 4 => FourByteShape(fetch, t);
    }
    if fetch % 4 == 0 {
      offset, matchlen, n := fetch % 256 / 4, 3, 1;
    } else if fetch / 2 % 2 == 0 {
      offset, matchlen, n := fetch % 0x1_0000 / 4, 3, 2;
    } else if fetch % 2 == 0 {
      offset, matchlen, n := fetch % 0x1_0000 / 64, fetch / 4 % 16 + 3, 2;
    } else if fetch % 128 != 3 {
      offset, matchlen, n := fetch / 128 % 0x2_0000, fetch / 4 % 32 + 2, 3;
    } else {
      offset, matchlen, n := fetch / 32768, fetch / 128 % 256 + 3, 4;
    }
  }

  lemma OneByteShape(fetch: nat, t: Token)
    requires t.Near? && Codable(t) && Agree(fetch, t) && TokenSize(t) == 1
    ensures t.len == 3 && fetch % 4 == 0 && fetch % 256 / 4 == t.offset
  {
    var q := fetch / 256;
    LowBits(fetch, q * 64 + t.offset, 0);
  }

  lemma TwoByteShapes(fetch: nat, t: Token)
    requires t.Near? && Codable(t) && Agree(fetch, t) && TokenSize(t) == 2
    ensures t.len == 3 && t.offset <= 16383 ==>
      fetch % 4 == 1 && fetch / 2 % 2 == 0 && fetch % 0x1_0000 / 4 == t.offset
    ensures !(t.len == 3 && t.offset <= 16383) ==>
      fetch % 4 == 2 && fetch / 2 % 2 == 1 && fetch % 2 == 0
      && fetch % 0x1_0000 / 64 == t.offset && fetch / 4 % 16 + 3 == t.len
  {
    var q, o, l := fetch / 0x1_0000, t.offset, t.len - 3;
    if t.len == 3 && o <= 16383 {
      LowBits(fetch, q * 16384 + o, 1);
      DivModUnique(fetch % 0x1_0000, 4, o, 1);
    } else {
      assert fetch % 0x1_0000 == o * 64 + l * 4 + 2;
      LowBits(fetch, q * 16384 + o * 16 + l, 2);
      DivModUnique(fetch % 0x1_0000, 64, o, l * 4 + 2);
      DivModUnique(q * 16384 + o * 16 + l, 16, q * 1024 + o, l);
    }
  }

  lemma ThreeByteShape(fetch: nat, t: Token)
    requires t.Near? && Codable(t) && Agree(fetch, t) && TokenSize(t) == 3
    ensures fetch % 4 == 3 && fetch / 2 % 2 == 1 && fetch % 2 == 1 && fetch % 128 != 3
    ensures fetch / 128 % 0x2_0000 == t.offset && fetch / 4 % 32 + 2 == t.len
  {
    var q, o, l := fetch / 0x100_0000, t.offset, t.len - 2;
    LongWord(fetch, t);
    ThreeByteParts(fetch, q, o, l);
  }

  lemma LongWord(fetch: nat, t: Token)
    requires t.Near? && Codable(t) && Agree(fetch, t) && TokenSize(t) >= 3
    ensures TokenSize(t) == 3 ==> 1 <= t.len - 2 < 32
    ensures TokenSize(t) == 3 ==>
      fetch == fetch / 0x100_0000 * 0x100_0000 + t.offset * 128 + (t.len - 2) * 4 + 3
    ensures TokenSize(t) == 4 ==> t.len - 3 < 256 && fetch == t.offset * 32768 + (t.len - 3) * 128 + 3
  {
    if TokenSize(t) == 3 {
      DivModUnique(TokenWord(t), 0x100_0000, 0, TokenWord(t));
    }
  }

  lemma ThreeByteParts(fetch: nat, q: nat, o: nat, l: nat)
    requires 1 <= l < 32 && o < 0x2_0000 && fetch == q * 0x100_0000 + o * 128 + l * 4 + 3
    ensures fetch % 4 == 3 && fetch / 2 % 2 == 1 && fetch % 2 == 1 && fetch % 128 != 3
    ensures fetch / 128 % 0x2_0000 == o && fetch / 4 % 32 == l
  {
    LowBits(fetch, q * 0x40_0000 + o * 32 + l, 3);
    DivModUnique(fetch, 128, q * 0x2_0000 + o, l * 4 + 3);
    DivModUnique(q * 0x2_0000 + o, 0x2_0000, q, o);
    DivModUnique(q * 0x40_0000 + o * 32 + l, 32, q * 0x2_0000 + o, l);
  }

  lemma FourByteShape(fetch: nat, t: Token)
    requires t.Near? && Codable(t) && Agree(fetch, t) && TokenSize(t) == 4
    ensures fetch % 4 == 3 && fetch / 2 % 2 == 1 && fetch % 2 == 1 && fetch % 128 == 3
    ensures fetch / 32768 == t.offset && fetch / 128 % 256 + 3 == t.len
  {
    LongWord(fetch, t);
    FourByteParts(fetch, t.offset, t.len - 3);
  }

  lemma FourByteParts(fetch: nat, o: nat, l: nat)
    requires l < 256 && fetch == o * 32768 + l * 128 + 3
    ensures fetch % 4 == 3 && fetch / 2 % 2 == 1 && fetch % 2 == 1 && fetch % 128 == 3
    ensures fetch / 32768 == o && fetch / 128 % 256 == l
  {
    LowBits(fetch, o * 8192 + l * 32, 3);
    DivModUnique(fetch, 32768, o, l * 128 + 3);
    DivModUnique(fetch, 128, o * 256 + l, 3);
    DivModUnique(o * 256 + l, 256, o, l);
  }

  // ---------------------------------------------------------------- decompression

  lemma MatchNext(s: seq<byte>, i: nat, ts: seq<Token>, slots: nat, x: seq<byte>, pos: nat)
    requires Spells(ts, x, pos, |x|) && Reads(s, i, Body(ts, slots)) && i + 4 <= |s|
    requires pos < |x| && slots > 0 && Word(ts, slots) % 2 == 1
    ensures ts != [] && ts[0].Near? && Codable(ts[0]) && Agree(Read4(s, i), ts[0])
    ensures Repeats(x, pos, ts[0].offset, ts[0].len) && pos + ts[0].len + UNCOMPRESSED_END <= |x|
    ensures Spells(ts[1..], x, pos + ts[0].len, |x|) && AllCodable(ts[1..])
    ensures Word(ts, slots) / 2 == Word(ts[1..], slots - 1)
    ensures Reads(s, i + TokenSize(ts[0]), Body(ts[1..], slots - 1))
  {
    hide Word, Body, Payload, Reads, Agree, Read4, Repeats;
    NextToken(s, i, ts, slots);
    PayloadAgrees(s, i, ts[0]);
  }

  lemma LiteralsNext(ts: seq<Token>, x: seq<byte>, pos: nat, n: nat)
    requires Spells(ts, x, pos, |x|) && n <= |ts| && pos + n <= |x| && Plain(ts[..n], x[..pos + n], pos)
    ensures Spells(ts[n..], x, pos + n, |x|) && AllCodable(ts[n..])
  {
    if n == 0 {
      assert ts[0..] == ts;
    } else {
      assert ts[..n][0] == ts[0];
      assert ts[n..] == ts[1..][n - 1..];
      assert ts[1..][..n - 1] == ts[..n][1..];
      LiteralsNext(ts[1..], x, pos + 1, n - 1);
    }
  }

  lemma Spelling(ts: seq<Token>, x: seq<byte>, pos: nat)
    requires Spells(ts, x, pos, |x|)
    ensures AllCodable(ts) && Fits(ts, x, pos, |x|) && (pos < |x| ==> ts != [])
  {
  }

  /** The match that fetch starts with, spelled out behind dst. */
  method CopyNear(fetch: nat, out: array<byte>, dst: nat, ghost t: Token, ghost x: seq<byte>)
    returns (n: nat, matchlen: nat)
    requires t.Near? && Codable(t) && Agree(fetch, t)
    requires Repeats(x, dst, t.offset, t.len) && dst + t.len + UNCOMPRESSED_END <= |x| <= out.Length
    requires out[..dst] == x[..dst]
    modifies out
    ensures n == TokenSize(t) && matchlen == t.len
    ensures out[..dst + matchlen] == x[..dst + matchlen] && out[|x|..] == old(out[|x|..])
  {
    hide Agree, Overlap;
    var offset;
    offset, matchlen, n := ReadNear(fetch, t);
    OverlapSpells(x, dst, offset, matchlen);
    ghost var o := out[..];
    MemcpyUp(out, dst, dst - offset, matchlen);
    Untouched(o, out[..], dst + matchlen + 3, |x|);
  }

  /** qlz_decompress_core: out[start..end] becomes the packet, out[..start] holds the ones before it. */
  method DecompressCore(source: seq<byte>, header: nat, out: array<byte>, start: nat, end: nat,
                        ghost tokens: seq<Token>, ghost x: seq<byte>)
    requires |x| == end <= out.Length && start < end && out[..start] == x[..start]
    requires Spells(tokens, x, start, end) && Reads(source, header, Body(tokens, 0))
    requires |source| >= header + MIN_PACKED
    modifies out
    ensures out[..end] == x && out[end..] == old(out[end..])
  {
    hide Word, Body, Payload, Reads, Agree, Read4, Repeats, Fits, AllSourced, AllCodable, Spells, Plain, Overlap;
    var src: nat, dst: nat, cwordVal: nat := header, start, 1;
    ghost var ts: seq<Token>, slots: nat := tokens, 0;
    OnlySentinel(ts, slots);
    Spelling(ts, x, dst);
    while true
      invariant start <= dst < end && header <= src && out[..dst] == x[..dst]
      invariant out[end..] == old(out[end..])
      invariant Spells(ts, x, dst, |x|) && AllCodable(ts)
      invariant Reads(source, src, Body(ts, slots)) && cwordVal == Word(ts, slots)
      invariant end - dst >= 4 || (dst == start && src == header && slots == 0)
      decreases end - dst
    {
      Spelling(ts, x, dst);
      src, cwordVal, slots := FlagsInHand(source, src, cwordVal, ts, slots);
      if end - dst >= 4 {
        FetchInside(source, src, ts, slots, x, dst);
      }
      var fetch := Read4(source, src);
      if cwordVal % 2 == 1 {
        MatchNext(source, src, ts, slots, x, dst);
        cwordVal := cwordVal / 2;
        var n, matchlen := CopyNear(fetch, out, dst, ts[0], x);
        src := src + n;
        dst := dst + matchlen;
        ts, slots := ts[1..], slots - 1;
      } else if dst + UNCONDITIONAL_MATCHLEN + UNCOMPRESSED_END + 1 < end {
        var n;
        n, cwordVal := CopyLiterals(source, src, cwordVal, out, dst, ts, slots, x);
        LiteralsNext(ts, x, dst, n);
        dst := dst + n;
        src := src + n;
        ts, slots := ts[n..], slots - n;
      } else {
        TailIsPlain(source, src, ts, slots, x, dst);
        LiteralTail(source, src, out, dst, end, cwordVal, ts, slots, x);
        return;
      }
    }
  }

  // ---------------------------------------------------------------- compression

  /** How far the bytes at p and src agree when the first three do and p is far enough back; 0 otherwise. */
  method MatchAt(x: seq<byte>, p: nat, src: nat, remaining: nat) returns (m: nat)
    requires p < src && 4 <= remaining && src + remaining < |x|
    ensures m == MatchOf(x, p, src, remaining)
  {
    hide Common, Same, Read4;
    m := 0;
    ThreeEqual(x, p, src);
    if Read4(x, p) % 0x100_0000 == Read4(x, src) % 0x100_0000 && p + MIN_OFFSET < src {
      m := CommonLength(x, p, src, 3, remaining);
    }
  }

  /** The match finder: up to 16 recent positions for every hash, with a wrapping counter. */
  class Tables {
    const offset: array2<nat>
    const counter: array<nat>
    // The positions entered since the last reset.
    ghost var entered: Entries

    /** Every position entered is before `limit`, and the last 16 of a hash stand in its slots. */
    ghost predicate Valid(limit: nat)
      reads this, offset, counter
    {
      && offset.Length0 == HASH_VALUES && offset.Length1 == POINTERS && counter.Length == HASH_VALUES
      && (forall h :: 0 <= h < HASH_VALUES ==> counter[h] == |entered[h]| % 256)
      && (forall h, i :: 0 <= h < HASH_VALUES && 0 <= i < |entered[h]| ==> entered[h][i] < limit)
      && forall h, i :: 0 <= h < HASH_VALUES && |entered[h]| - POINTERS <= i < |entered[h]| && 0 <= i ==>
           offset[h, i % POINTERS] == entered[h][i]
    }

    constructor ()
      ensures Valid(0) && entered == NoEntries() && fresh(offset) && fresh(counter)
    {
      offset := new nat[HASH_VALUES, POINTERS];
      counter := new nat[HASH_VALUES](_ => 0);
      entered := NoEntries();
    }

    /** reset_table_compress */
    method Reset()
      requires exists limit :: Valid(limit)
      modifies counter, this`entered
      ensures Valid(0) && entered == NoEntries()
    {
      var i := 0;
      while i < HASH_VALUES
        invariant 0 <= i <= HASH_VALUES && forall h :: 0 <= h < i ==> counter[h] == 0
        modifies counter
      {
        counter[i] := 0;
        i := i + 1;
      }
      entered := NoEntries();
    }

    /** Position p enters the slots of its hash. */
    method Insert(x: seq<byte>, h: nat, p: nat)
      requires Valid(p) && p + 3 <= |x| && h == HashAt(x, p)
      modifies offset, counter, this`entered
      ensures Valid(p + 1) && entered == Enter(old(entered), x, p)
    {
      hide HashAt;
      var c := counter[h];
      SlotOfCounter(|entered[h]|);
      offset[h, c % POINTERS] := p;
      counter[h] := (c + 1) % 256;
      ghost var e := entered;
      entered := Enter(entered, x, p);
      forall i | |entered[h]| - POINTERS <= i < |entered[h]| && 0 <= i
        ensures offset[h, i % POINTERS] == entered[h][i]
      {
        OneSlotEach(|e[h]|, i);
      }
    }

    /** The longest match among the findable entries of h; of equally long ones the nearest. */
    method Find(x: seq<byte>, src: nat, remaining: nat, h: nat) returns (o: nat, matchlen: nat)
      requires h < HASH_VALUES && Valid(src) && 4 <= remaining && src + remaining < |x|
      ensures Best(entered[h], x, src, remaining, o, matchlen)
    {
      hide MatchOf, Best, Recent, Findable;
      var c := counter[h];
      ghost var n := Findable(|entered[h]|);
      SlotsHoldEntries(h, src);
      o, matchlen := offset[h, 0], 0;
      if c > 0 {
        matchlen := MatchAt(x, o, src, remaining);
      }
      var k := 1;
      while k < POINTERS && c > k
        invariant 1 <= k <= POINTERS && (k <= n || n == 0)
        invariant matchlen > 0 ==> matchlen == MatchOf(x, o, src, remaining)
        invariant matchlen > 0 ==> exists i :: 0 <= i < k && i < n && o == offset[h, i]
        invariant forall i :: 0 <= i < k && i < n ==>
                    var m := MatchOf(x, offset[h, i], src, remaining);
                    m < matchlen || (m == matchlen && (m > 0 ==> offset[h, i] <= o))
      {
        var p := offset[h, k];
        var m := MatchAt(x, p, src, remaining);
        if m > 0 && (m > matchlen || (m == matchlen && p > o)) {
          o, matchlen := p, m;
        }
        k := k + 1;
      }
      BestOfSlots(x, src, remaining, h, o, matchlen);
    }

    /** The slots that the search looks at hold the findable entries, and nothing else. */
    lemma SlotsHoldEntries(h: nat, limit: nat)
      requires Valid(limit) && h < HASH_VALUES
      ensures forall k :: 0 <= k < Findable(|entered[h]|) ==>
                offset[h, k] in Recent(entered[h]) && offset[h, k] < limit
      ensures forall p :: p in Recent(entered[h]) ==>
                exists k :: 0 <= k < Findable(|entered[h]|) && offset[h, k] == p
    {
      var e, n := entered[h], |entered[h]|;
      var from := n - Findable(n);
      forall k | 0 <= k < Findable(n) ensures offset[h, k] in Recent(e) && offset[h, k] < limit {
        var i := EntryInSlot(n, k);
        assert Recent(e)[i - from] == e[i];
      }
      forall p | p in Recent(e) ensures exists k :: 0 <= k < Findable(n) && offset[h, k] == p {
        var j :| 0 <= j < |Recent(e)| && Recent(e)[j] == p;
        SlotOfEntry(n, from + j);
        assert offset[h, (from + j) % POINTERS] == e[from + j] == p;
      }
    }

    lemma BestOfSlots(x: seq<byte>, src: nat, remaining: nat, h: nat, o: nat, matchlen: nat)
      requires h < HASH_VALUES && Valid(src) && 4 <= remaining && src + remaining < |x|
      requires var n := Findable(|entered[h]|);
               && (matchlen > 0 ==> matchlen == MatchOf(x, o, src, remaining))
               && (matchlen > 0 ==> exists i :: 0 <= i < n && o == offset[h, i])
               && forall i :: 0 <= i < n ==>
                    var m := MatchOf(x, offset[h, i], src, remaining);
                    m < matchlen || (m == matchlen && (m > 0 ==> offset[h, i] <= o))
      ensures Best(entered[h], x, src, remaining, o, matchlen)
    {
      hide MatchOf;
      SlotsHoldEntries(h, src);
      var e, n := entered[h], Findable(|entered[h]|);
      forall p | p in Recent(e)
        ensures var m := MatchOf(x, p, src, remaining); m < matchlen || (m == matchlen && (m > 0 ==> p <= o))
      {
        var k :| 0 <= k < n && offset[h, k] == p;
      }
    }
  }

  lemma SlotOfCounter(n: nat)
    ensures n % 256 % POINTERS == n % POINTERS && (n + 1) % 256 == (n % 256 + 1) % 256
  {
    Euclid(n, 256);
    ModShift(n % 256, n / 256 * 16, POINTERS);
    ModShift(n % 256 + 1, n / 256, 256);
  }

  /** Among the 16 entries before entry n and itself every slot occurs once. */
  lemma OneSlotEach(n: nat, i: nat)
    requires n + 1 - POINTERS <= i <= n
    ensures i % POINTERS == n % POINTERS <==> i == n
  {
  }

  lemma EntryInSlot(n: nat, k: nat) returns (i: nat)
    requires k < Findable(n)
    ensures n - Findable(n) <= i < n && i % POINTERS == k
  {
    if n % 256 < POINTERS {
      i := n - n % 256 + k;
      DivModUnique(i, POINTERS, n / 256 * 16, k);
    } else {
      var r := n % POINTERS;
      i := if k < r then n - r + k else n - r + k - POINTERS;
      DivModUnique(i, POINTERS, if k < r then n / POINTERS else n / POINTERS - 1, k);
    }
  }

  lemma SlotOfEntry(n: nat, i: nat)
    requires n - Findable(n) <= i < n
    ensures i % POINTERS < Findable(n)
  {
    if n % 256 < POINTERS {
      DivModUnique(i, POINTERS, n / 256 * 16, i - (n - n % 256));
    }
  }

  /** Stores a match in the shortest of the five shapes that holds it. */
  method PutNear(packer: Packer, offset: nat, matchlen: nat)
    requires packer.Valid() && |packer.group| < GROUP && packer.dst + 4 <= packer.out.Length
    requires Codable(Near(offset, matchlen))
    modifies packer`dst, packer`cwordVal, packer`group, packer.out
    ensures packer.Valid() && packer.group == old(packer.group) + [Near(offset, matchlen)]
  {
    hide Filling, Body, Payloads;
    ghost var t := Near(offset, matchlen);
    if matchlen == 3 && offset <= 63 {
      packer.PutMatch(offset * 4, 1, t);
    } else if matchlen == 3 && offset <= 16383 {
      packer.PutMatch(offset * 4 + 1, 2, t);
    } else if matchlen <= 18 && offset <= 1023 {
      packer.PutMatch((matchlen - 3) * 4 + offset * 64 + 2, 2, t);
    } else if matchlen <= 33 {
      packer.PutMatch((matchlen - 2) * 4 + offset * 128 + 3, 3, t);
    } else {
      packer.PutMatch((matchlen - 3) * 128 + offset * 32768 + 3, 4, t);
    }
  }

  /** Enters the positions inside an accepted match. */
  method InsertRange(x: seq<byte>, src: nat, matchlen: nat, tables: Tables, ghost e: Entries)
    requires 1 <= matchlen && src + matchlen + 3 <= |x| && tables.Valid(src + 1)
    requires tables.entered == EnterRange(e, x, src, src + 1)
    modifies tables.offset, tables.counter, tables`entered
    ensures tables.Valid(src + matchlen) && tables.entered == EnterRange(e, x, src, src + matchlen)
  {
    hide Read4, HashFunc, HashAt, EnterRange;
    var u := 1;
    while u < matchlen
      invariant 1 <= u <= matchlen && tables.Valid(src + u) && tables.entered == EnterRange(e, x, src, src + u)
    {
      HashOfRead(x, src + u);
      EnterNext(e, x, src, src + u);
      tables.Insert(x, HashFunc(Read4(x, src + u)), src + u);
      u := u + 1;
    }
  }

  /** One token at src: the best match within reach, or a literal. */
  method Step(x: seq<byte>, start: nat, src: nat, tables: Tables, packer: Packer) returns (next: nat, ghost t: Token)
    requires InMain(x, src) && tables.Valid(src)
    requires packer.Valid() && |packer.group| < GROUP && packer.dst + 4 <= packer.out.Length
    requires Spells(packer.Tokens(), x, start, src)
    modifies packer`dst, packer`cwordVal, packer`group, packer.out, tables.offset, tables.counter, tables`entered
    ensures packer.Valid() && |packer.group| == |old(packer.group)| + 1
    ensures packer.Tokens() == old(packer.Tokens()) + [t]
    ensures Choice(old(tables.entered), t, x, src) && next == src + Span(t)
    ensures tables.entered == EnterRange(old(tables.entered), x, src, next)
    ensures tables.Valid(next) && src < next && next + UNCOMPRESSED_END <= |x|
    ensures Spells(packer.Tokens(), x, start, next)
  {
    hide Filling, Body, Payloads, Spells, Read4, HashFunc, HashAt, Common, Repeats, Codable, EnterRange, Best, Choice;
    var remaining := if |x| - UNCOMPRESSED_END - src > 255 then 255 else |x| - UNCOMPRESSED_END - src;
    HashOfRead(x, src);
    var h := HashFunc(Read4(x, src));
    var o, matchlen := tables.Find(x, src, remaining, h);
    ghost var ts, g, e := packer.Tokens(), packer.group, tables.entered;
    tables.Insert(x, h, src);
    EnterNext(e, x, src, src);
    NothingEntered(e, x, src);
    BestInside(e[h], x, src, remaining, o, matchlen);
    if matchlen > 2 && src - o < MAX_OFFSET {
      t := Near(src - o, matchlen);
      FoundMatch(x, o, src, matchlen, remaining);
      InsertRange(x, src, matchlen, tables, e);
      SpellsSnoc(ts, t, x, start, src);
      PutNear(packer, src - o, matchlen);
      assert packer.Tokens() == ts + [t];
      next := src + matchlen;
    } else {
      t := Literal(x[src]);
      SpellsLiteral(ts, x, start, src);
      packer.PutLiteral(x[src]);
      assert packer.Tokens() == ts + [t];
      next := src + 1;
    }
    ChoiceIs(e, t, x, src, o, matchlen);
  }

  lemma NothingEntered(e: Entries, x: seq<byte>, src: nat)
    ensures EnterRange(e, x, src, src) == e
  {
  }

  lemma BestInside(e: seq<nat>, x: seq<byte>, src: nat, limit: nat, o: nat, len: nat)
    requires 3 <= limit && src + limit <= |x| && Best(e, x, src, limit, o, len)
    ensures len > 0 ==> len == MatchOf(x, o, src, limit) && o < src
  {
  }

  lemma ChoiceIs(e: Entries, t: Token, x: seq<byte>, src: nat, o: nat, len: nat)
    requires InMain(x, src) && Best(e[HashAt(x, src)], x, src, Limit(x, src), o, len)
    requires len > 0 ==> o < src
    requires t == if len > 2 && src - o < MAX_OFFSET then Near(src - o, len) else Literal(x[src])
    ensures Choice(e, t, x, src)
  {
    hide Best, HashAt;
    assert t == Chosen(x, src, o, len);
  }

  lemma FoundMatch(x: seq<byte>, o: nat, src: nat, matchlen: nat, remaining: nat)
    requires src + remaining + UNCOMPRESSED_END <= |x| && 4 <= remaining <= 255
    requires matchlen > 0 && matchlen == MatchOf(x, o, src, remaining) && src - o < MAX_OFFSET
    ensures o + MIN_OFFSET < src && 3 <= matchlen <= remaining
    ensures Codable(Near(src - o, matchlen)) && Repeats(x, src, src - o, matchlen)
  {
    hide Repeats;
    CommonSame(x, o, src, 3, remaining);
  }

  lemma SpellsLiteral(ts: seq<Token>, x: seq<byte>, from: nat, to: nat)
    requires Spells(ts, x, from, to) && to < |x|
    ensures Spells(ts + [Literal(x[to])], x, from, to + 1)
  {
    SpellsSnoc(ts, Literal(x[to]), x, from, to);
  }

  lemma NothingSpelled(x: seq<byte>, start: nat)
    ensures Spells([], x, start, start)
  {
  }

  /** Between two tokens of the main loop; e is what had been entered before the packet. */
  ghost predicate Between(packer: Packer, tables: Tables, x: seq<byte>, start: nat, src: nat, e: Entries)
    reads packer, packer.out, tables, tables.offset, tables.counter
  {
    && Packing(packer, x, start, src, 0) && src < |x| && (packer.group == [] ==> packer.done == [])
    && AllSourced(packer.Tokens(), x, start) && tables.Valid(src)
    && Greedy(e, packer.Tokens(), x, start) && start + Spans(packer.Tokens()) == src
    && Persists(packer.Tokens(), x, start) && tables.entered == EnteredBy(e, packer.Tokens(), x, start)
  }

  /** One turn of the main loop; low says that the compressor gives up. */
  method Turn(x: seq<byte>, start: nat, src: nat, tables: Tables, packer: Packer, ghost e: Entries)
    returns (low: bool, next: nat)
    requires Between(packer, tables, x, start, src, e) && InMain(x, src)
    modifies packer`cwordPtr, packer`dst, packer`cwordVal, packer`done, packer`group, packer.out
    modifies tables.offset, tables.counter, tables`entered
    ensures low ==> GaveUp(packer.Tokens(), x, start) && Parse(e, packer.Tokens(), x, start)
    ensures low ==> AllSourced(packer.Tokens(), x, start) && tables.Valid(src)
                    && tables.entered == EnteredBy(e, packer.Tokens(), x, start)
    ensures !low ==> src < next && Between(packer, tables, x, start, next, e)
  {
    hide Filling, Body, Payloads, Covers, AllSourced, TooLong, Persists, Greedy, EnteredBy, EnterRange, Choice, HashAt;
    ghost var ts := packer.Tokens();
    low := OpenWord(x, start, src, packer);
    next := src;
    if low {
      return;
    }
    RoomLeft(packer, x, start, src, 0);
    ghost var t;
    next, t := Step(x, start, src, tables, packer);
    PersistsSnoc(ts, t, x, start);
    GreedySnoc(e, ts, t, x, start);
    SpansSnoc(ts, t);
  }

  /**
   * qlz_compress_core at level 3: the parse of the packet is coded to the end, or 0 says that it is given up and that
   * the packet is better stored as it is.
   */
  method CompressCore(x: seq<byte>, start: nat, tables: Tables, out: array<byte>, origin: nat)
    returns (r: nat, ghost tokens: seq<Token>)
    requires start < |x| && tables.Valid(start) && origin <= 9 && out.Length >= |x| - start + SLACK
    modifies out, tables.offset, tables.counter, tables`entered
    ensures tables.Valid(|x|) && AllSourced(tokens, x, start)
    ensures Parse(old(tables.entered), tokens, x, start)
    ensures tables.entered == EnteredBy(old(tables.entered), tokens, x, start)
    ensures r == 0 ==> GaveUp(tokens, x, start)
    ensures r != 0 ==> Spells(tokens, x, start, |x|) && |Body(tokens, 0)| <= |x| - start + 172
    ensures r != 0 ==> r == (if |Body(tokens, 0)| < MIN_PACKED then MIN_PACKED else |Body(tokens, 0)|)
    ensures r != 0 ==> origin + r <= out.Length && Reads(out[..], origin, Body(tokens, 0))
  {
    hide Filling, Body, Payloads, Covers, AllSourced, GaveUp, Reads, Greedy, Persists, EnteredBy, Parse;
    var packer: Packer := new Packer(out, origin);
    var src := start;
    ghost var e := tables.entered;
    NothingSpelled(x, start);
    NothingChosen(e, x, start);
    while src + UNCONDITIONAL_MATCHLEN + UNCOMPRESSED_END < |x|
      invariant packer.out == out && packer.origin == origin
      invariant Between(packer, tables, x, start, src, e)
      modifies packer`cwordPtr, packer`dst, packer`cwordVal, packer`done, packer`group, out
      modifies tables.offset, tables.counter, tables`entered
      decreases |x| - src
    {
      var low;
      low, src := Turn(x, start, src, tables, packer, e);
      if low {
        return 0, packer.Tokens();
      }
    }
    r := Tail(x, start, src, packer, e);
    tokens := packer.Tokens();
  }

  lemma NothingChosen(e: Entries, x: seq<byte>, start: nat)
    ensures Greedy(e, [], x, start) && Persists([], x, start) && EnteredBy(e, [], x, start) == e && Spans([]) == 0
  {
  }

  /** The bytes after the last match start, as literals, and the last control word. */
  method Tail(x: seq<byte>, start: nat, from: nat, packer: Packer, ghost e: Entries) returns (r: nat)
    requires Packing(packer, x, start, from, 0) && AllSourced(packer.Tokens(), x, start)
    requires start <= from < |x| && |x| - from <= 10
    requires Choosing(e, packer.Tokens(), x, start, from)
    modifies packer`cwordPtr, packer`dst, packer`cwordVal, packer`done, packer`group, packer.out
    ensures Parse(e, packer.Tokens(), x, start)
    ensures EnteredBy(e, packer.Tokens(), x, start) == EnteredBy(e, old(packer.Tokens()), x, start)
    ensures Spells(packer.Tokens(), x, start, |x|) && |Body(packer.Tokens(), 0)| <= |x| - start + 172
    ensures var n := |Body(packer.Tokens(), 0)|; r == (if n < MIN_PACKED then MIN_PACKED else n)
    ensures packer.origin + r <= packer.out.Length
    ensures Reads(packer.out[..], packer.origin, Body(packer.Tokens(), 0))
  {
    hide Filling, Body, Payloads, Covers, AllSourced, Packing, Choosing, EnteredBy;
    var src := from;
    ghost var over := 0;
    while src < |x|
      invariant from <= src <= |x| && Packing(packer, x, start, src, over)
      invariant AllSourced(packer.Tokens(), x, start) && Choosing(e, packer.Tokens(), x, start, src)
      invariant EnteredBy(e, packer.Tokens(), x, start) == EnteredBy(e, old(packer.Tokens()), x, start)
      invariant over == 0 || (over == 128 && |packer.group| <= src - from)
      invariant packer.group == [] ==> src == from
      decreases |x| - src
    {
      LiteralSourced(packer, x, start, src, over);
      LiteralChosen(e, packer.Tokens(), x, start, src);
      over := TailLiteral(x, start, src, packer, over);
      src := src + 1;
    }
    ParseEnds(e, packer.Tokens(), x, start);
    r := Sealing(x, start, packer, over);
  }

  ghost predicate Choosing(e: Entries, ts: seq<Token>, x: seq<byte>, start: nat, src: nat) {
    Greedy(e, ts, x, start) && start + Spans(ts) == src && Persists(ts, x, start)
  }

  lemma ParseEnds(e: Entries, ts: seq<Token>, x: seq<byte>, start: nat)
    requires Choosing(e, ts, x, start, |x|)
    ensures Parse(e, ts, x, start)
  {
  }

  /** Behind the main loop every token is a literal, and nothing is entered. */
  lemma LiteralChosen(e: Entries, ts: seq<Token>, x: seq<byte>, start: nat, src: nat)
    requires Choosing(e, ts, x, start, src) && src < |x| && !InMain(x, src)
    ensures var us := ts + [Literal(x[src])];
            Choosing(e, us, x, start, src + 1) && EnteredBy(e, us, x, start) == EnteredBy(e, ts, x, start)
  {
    hide Greedy, Persists, EnteredBy;
    GreedySnoc(e, ts, Literal(x[src]), x, start);
    SpansSnoc(ts, Literal(x[src]));
    PersistsSnoc(ts, Literal(x[src]), x, start);
  }

  lemma LiteralSourced(packer: Packer, x: seq<byte>, start: nat, src: nat, over: nat)
    requires Packing(packer, x, start, src, over) && AllSourced(packer.Tokens(), x, start) && src < |x|
    ensures AllSourced(packer.Tokens() + [Literal(x[src])], x, start)
  {
    hide AllSourced;
    SourcedSnoc(packer.Tokens(), Literal(x[src]), x, start, src);
  }
}
