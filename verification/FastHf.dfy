/** FastHF: adaptive Huffman codes, the 32-bit bit buffer, and messages through both. */
module FastHf {
  import opened Arith
  import opened Bytes
  import opened Registers
  import opened SymbolCounts
  import opened FastHfTree
  import opened FastHfForm
  import opened FastHfCode
  import opened FastHfSpec

  // ---------------------------------------------------------------- adaptive codes

  class AdaptiveHuffmanCode {
    const symbols: nat
    const tableBits: nat
    const symbolCount: array<nat>
    const left: array<int>
    const right: array<int>
    const table: array<int>
    const codeword: array<nat>
    const length: array<nat>
    var totalCount: nat
    var updateCycle: nat
    var untilUpdate: nat
    ghost var tree: Tree
    ghost var ns: seq<(int, int)>
    ghost var tabled: bool

    ghost predicate Shaped()
      reads this
    {
      && 3 <= symbols <= MAX_SYMBOLS && 3 <= tableBits <= 13
      && symbolCount.Length == left.Length == right.Length == codeword.Length == length.Length == symbols
      && table.Length == Pow2(tableBits)
      && left != right && table != left && table != right && codeword != length
      && symbolCount != codeword && symbolCount != length
      && Others(symbolCount) && Others(codeword) && Others(length)
    }

    /** An array of counts or codewords is none of the arrays of nodes. */
    ghost predicate Others(a: array<nat>)
      reads this
    {
      var o: object := a; o != left && o != right && o != table
    }

    ghost function Mod(): (m: Model)
      reads this, symbolCount
    {
      Model(symbolCount[..], totalCount, updateCycle, untilUpdate, tree)
    }

    ghost predicate Valid()
      reads this, symbolCount, left, right, table, codeword, length
    {
      && Shaped() && ModelOk(Mod())
      && Branches(left, right, ns, 1) && Stands(ns, -1, tree) && Coded(tree, 0, 0, codeword[..], length[..])
      && (tabled ==> Tabled(ns, -1, tree, 0, 0, tableBits, table[..]))
    }

    /** Halves the counts until they add up to less than 2^15. */
    method Rescale()
      requires Shaped() && Sized(symbolCount[..]) && totalCount == Sum(symbolCount[..])
      modifies this`totalCount, symbolCount
      ensures symbolCount[..] == Rescaled(old(symbolCount[..])) && totalCount == Sum(symbolCount[..])
    {
      hide Sum;
      while totalCount >= MAX_COUNT
        invariant Sized(symbolCount[..]) && totalCount == Sum(symbolCount[..])
        invariant Rescaled(symbolCount[..]) == Rescaled(old(symbolCount[..]))
        decreases totalCount
      {
        ghost var c := symbolCount[..];
        SumHalved(c);
        SumAtLeast(c);
        totalCount := 0;
        SumEmpty(c);
        var n := 0;
        while n < symbols
          invariant n <= symbols && symbolCount[..n] == Halved(c)[..n] && symbolCount[n..] == c[n..]
          invariant totalCount == Sum(symbolCount[..n])
        {
          assert symbolCount[n] == c[n];
          symbolCount[n] := (symbolCount[n] + 1) / 2;
          totalCount := totalCount + symbolCount[n];
          SumSnoc(symbolCount[..n], symbolCount[n]);
          assert symbolCount[..n + 1] == symbolCount[..n] + [symbolCount[n]];
          n := n + 1;
        }
        assert symbolCount[..] == symbolCount[..n] == Halved(c);
      }
    }

    /** update: a new code from the counts; the encoder leaves the decoder's table as it is. */
    method Update(encoder: bool)
      requires Shaped() && Sized(symbolCount[..]) && updateCycle >= 1
      requires totalCount + updateCycle == Sum(symbolCount[..])
      modifies this`totalCount, this`updateCycle, this`untilUpdate, this`tree, this`ns, this`tabled
      modifies symbolCount, left, right, table, codeword, length
      ensures Valid() && Mod() == Updated(old(Mod())) && tabled == !encoder
    {
      hide Sum, Tabled, Coded, Stands, HuffmanTree, Nodes, HeapAt, Rescaled, TreeOk;
      ghost var before := Mod();
      totalCount := totalCount + updateCycle;
      Rescale();
      ghost var counts := symbolCount[..];
      TreeForCounts(counts);
      FormHuffmanTree(symbolCount, left, right);
      ns := Nodes(HeapAt(counts, 1));
      SetHuffmanCode(left, right, table, if encoder then 0 else tableBits, codeword, length, ns, HuffmanTree(counts));
      tree, tabled := HuffmanTree(counts), !encoder;
      if updateCycle < symbols * 16 {
        updateCycle := 1 + 5 * updateCycle / 4;
      }
      untilUpdate := updateCycle;
      UpdatedIs(before, counts);
    }

    constructor (n: nat)
      requires 3 <= n <= MAX_SYMBOLS
      ensures Valid() && Mod() == Initial(n) && tabled && symbols == n
      ensures fresh(symbolCount) && fresh(left) && fresh(right) && fresh(table) && fresh(codeword) && fresh(length)
    {
      symbols := n;
      var tb := TableBits(n);
      tableBits := tb;
      symbolCount := new nat[n](_ => 1);
      left := new int[n](_ => 0);
      right := new int[n](_ => 0);
      table := new int[Pow2(tb)](_ => 0);
      codeword := new nat[n](_ => 0);
      length := new nat[n](_ => 0);
      totalCount, updateCycle, untilUpdate, tree := 0, n, n, Leaf(0);
      new;
      assert symbolCount[..] == Ones(n);
      SumOnes(n);
      Update(false);
    }

    /** Counts a symbol, and adapts when its cycle is over. */
    method Count(s: nat, encoder: bool)
      requires Valid() && s < symbols
      modifies this`totalCount, this`updateCycle, this`untilUpdate, this`tree, this`ns, this`tabled
      modifies symbolCount, left, right, table, codeword, length
      ensures Valid() && Mod() == Next(old(Mod()), s) && (old(tabled) && !encoder ==> tabled)
    {
      hide Sum, Tabled, Coded, Stands, Updated, TreeOk;
      ghost var m := Mod();
      SumUpdate(symbolCount[..], s, symbolCount[s] + 1);
      symbolCount[s] := symbolCount[s] + 1;
      assert symbolCount[..] == m.counts[s := m.counts[s] + 1];
      untilUpdate := untilUpdate - 1;
      if untilUpdate == 0 {
        Update(encoder);
      }
    }
  }

  lemma TreeForCounts(counts: seq<nat>)
    requires Sized(counts) && Sum(counts) < MAX_COUNT
    ensures TreeOk(HuffmanTree(counts), |counts|) && Stands(Nodes(HeapAt(counts, 1)), -1, HuffmanTree(counts))
    ensures HuffmanTree(counts).Node? && Distinct(HuffmanTree(counts)) && Below(HuffmanTree(counts), |counts|)
    ensures Height(HuffmanTree(counts)) <= MAX_LENGTH
  {
    hide HuffmanTree, Nodes, HeapAt, Stands;
    CountsOfLeaves(counts);
    TreeOfCounts(counts);
    DepthBound(counts);
  }

  lemma UpdatedIs(m: Model, counts: seq<nat>)
    requires Sized(m.counts) && m.total + m.cycle == Sum(m.counts) && m.cycle >= 1 && counts == Rescaled(m.counts)
    ensures var cycle := if m.cycle < |m.counts| * 16 then 1 + 5 * m.cycle / 4 else m.cycle;
            Updated(m) == Model(counts, Sum(counts), cycle, cycle, HuffmanTree(counts))
  {
  }

  /** One bit more than the symbols need, and at least three. */
  method TableBits(n: nat) returns (tb: nat)
    requires 3 <= n <= MAX_SYMBOLS
    ensures 3 <= tb <= 13
  {
    tb := 2;
    Pow2Values();
    Pow2Add(6, 6);
    while Pow2(tb) < n
      invariant 2 <= tb <= 12
      decreases 12 - tb
    {
      tb := tb + 1;
    }
    tb := tb + 1;
  }

  // ---------------------------------------------------------------- the bit buffer

  /** n bits with `low` places below them. */
  function Placed(s: seq<bit>, low: nat): (w: word32)
    requires |s| + low <= WORD_BITS
  {
    ToEnd(Holding(s, WORD_BITS), WORD_BITS - low - |s|)
  }

  /** bit_buffer >> 24 */
  function TopByte(w: word32): (b: byte)
  {
    PrefixBound(w, 8);
    Pow2Values();
    assert Pow2(8) == 256;
    Prefix(w, 8)
  }

  lemma TopByteBits(w: word32)
    ensures ByteBits(TopByte(w)) == w[..8]
  {
    BitsOfFold(w[..8]);
    assert ByteBits(TopByte(w)) == Bits(Fold(0, w[..8]), 8);
  }

  /** The encoder: whole bytes in `out`, less than a byte in the buffer. */
  class Encoder {
    var out: seq<byte>
    var bitBuffer: word32
    var bitPosition: nat
    ghost var sent: seq<bit>

    ghost predicate Valid()
      reads this
    {
      && 24 < bitPosition <= WORD_BITS && BitsOf(out) + bitBuffer[..WORD_BITS - bitPosition] == sent
      && bitBuffer == Holding(bitBuffer[..WORD_BITS - bitPosition], WORD_BITS)
    }

    /** start_encoder */
    constructor ()
      ensures Valid() && sent == []
    {
      out, bitBuffer, bitPosition, sent := [], Zeros(WORD_BITS), WORD_BITS, [];
    }

    /** Adds up to 24 bits and moves whole bytes out. */
    method PutBits(data: nat, bits: nat)
      requires Valid() && bits <= MAX_RAW
      modifies this
      ensures Valid() && sent == old(sent) + Bits(data, bits)
    {
      hide BitsOf, ByteBits, Or, ToEnd, ToStart, Holding;
      ghost var held := bitBuffer[..WORD_BITS - bitPosition];
      bitPosition := bitPosition - bits;
      OrAppends(held, Bits(data, bits), WORD_BITS);
      bitBuffer := Or(bitBuffer, Placed(Bits(data, bits), bitPosition));
      sent := sent + Bits(data, bits);
      TopPart(held + Bits(data, bits));
      Emit();
    }

    method PutBit(b: bit)
      requires Valid()
      modifies this
      ensures Valid() && sent == old(sent) + [b]
    {
      hide BitsOf, ByteBits, Or, ToEnd, ToStart, Holding;
      ghost var held := bitBuffer[..WORD_BITS - bitPosition];
      bitPosition := bitPosition - 1;
      OrAppends(held, [b], WORD_BITS);
      NoBit(bitBuffer, bitPosition);
      if b != 0 {
        bitBuffer := Or(bitBuffer, Placed([1], bitPosition));
      }
      sent := sent + [b];
      TopPart(held + [b]);
      Emit();
    }

    method Emit()
      requires bitPosition <= WORD_BITS && BitsOf(out) + bitBuffer[..WORD_BITS - bitPosition] == sent
      requires bitBuffer == Holding(bitBuffer[..WORD_BITS - bitPosition], WORD_BITS)
      modifies this`out, this`bitBuffer, this`bitPosition
      ensures Valid()
    {
      hide BitsOf, ByteBits, ToStart, Holding;
      while bitPosition <= 24
        invariant bitPosition <= WORD_BITS && BitsOf(out) + bitBuffer[..WORD_BITS - bitPosition] == sent
        invariant bitBuffer == Holding(bitBuffer[..WORD_BITS - bitPosition], WORD_BITS)
        decreases WORD_BITS - bitPosition
      {
        ghost var held := bitBuffer[..WORD_BITS - bitPosition];
        BitsOfSnoc(out, TopByte(bitBuffer));
        TopByteBits(bitBuffer);
        ShiftDrops(held, 8, WORD_BITS);
        TopPart(held[8..]);
        assert BitsOf(out) + held == BitsOf(out) + held[..8] + held[8..];
        assert bitBuffer[..8] == held[..8];
        out := out + [TopByte(bitBuffer)];
        bitBuffer := ToStart(bitBuffer, 8);
        bitPosition := bitPosition + 8;
      }
    }

    /** encode with an adaptive code */
    method Encode(s: nat, c: AdaptiveHuffmanCode)
      requires Valid() && c.Valid() && s < c.symbols
      modifies this, c`totalCount, c`updateCycle, c`untilUpdate, c`tree, c`ns, c`tabled
      modifies c.symbolCount, c.left, c.right, c.table, c.codeword, c.length
      ensures Valid() && c.Valid() && c.Mod() == Next(old(c.Mod()), s)
      ensures sent == old(sent) + PathTo(old(c.tree), s)
    {
      hide BitsOf, Coded, Tabled, Stands, Branches;
      PathOfSymbol(c.tree, c.codeword[..], c.length[..], s, c.symbols);
      PutBits(c.codeword[s], c.length[s]);
      c.Count(s, true);
    }

    /** stop_encoder */
    method Stop() returns (code: seq<byte>)
      requires Valid()
      modifies this
      ensures Carries(code, sent) && sent == old(sent)
    {
      if bitPosition < WORD_BITS {
        BitsOfSnoc(out, TopByte(bitBuffer));
        TopByteBits(bitBuffer);
        out := out + [TopByte(bitBuffer)];
      }
      code := out;
    }
  }

  lemma NoBit(w: word32, low: nat)
    requires low < WORD_BITS
    ensures Or(w, Placed([0], low)) == w
  {
  }

  lemma TopPart(s: seq<bit>)
    requires |s| <= WORD_BITS
    ensures Holding(s, WORD_BITS)[..|s|] == s
  {
  }

  lemma PathOfSymbol(t: Tree, cw: seq<nat>, ln: seq<nat>, s: nat, n: nat)
    requires TreeOk(t, n) && Coded(t, 0, 0, cw, ln) && s < n
    ensures s < |cw| && s < |ln| && s in Symbols(t)
    ensures ln[s] == |PathTo(t, s)| <= MAX_LENGTH && Bits(cw[s], ln[s]) == PathTo(t, s)
  {
    CodewordIsPath(t, 0, 0, cw, ln, s);
    BitsOfFold(PathTo(t, s));
  }

  /** The bytes are just enough for the bits. */
  ghost predicate Carries(code: seq<byte>, s: seq<bit>) {
    |code| == (|s| + 7) / 8 && BitsOf(code)[..|s|] == s
  }

  // ---------------------------------------------------------------- decoding

  function Window(s: seq<bit>, c: nat, n: nat): (w: seq<bit>)
    ensures |w| == n
  {
    seq<bit>(n, i requires 0 <= i < n => PaddedAt(s, c + i))
  }

  function ByteAt(b: seq<byte>, i: nat): (v: byte) { if i < |b| then b[i] else 0 }

  lemma {:induction false} BitsAt(b: seq<byte>, i: nat, j: nat)
    requires j < 8
    ensures PaddedAt(BitsOf(b), 8 * i + j) == ByteBits(ByteAt(b, i))[j]
    decreases |b|
  {
    if i >= |b| {
      Pow2Values();
      assert BitAt(0, 7 - j) == 0;
    } else if i > 0 {
      BitsAt(b[1..], i - 1, j);
    }
  }

  lemma ByteWindow(b: seq<byte>, i: nat)
    ensures ByteBits(ByteAt(b, i)) == Window(BitsOf(b), 8 * i, 8)
  {
    forall j: nat | j < 8 ensures ByteBits(ByteAt(b, i))[j] == Window(BitsOf(b), 8 * i, 8)[j] {
      BitsAt(b, i, j);
    }
  }

  lemma WindowParts(s: seq<bit>, c: nat, n: nat, m: nat)
    ensures Window(s, c, n + m) == Window(s, c, n) + Window(s, c + n, m)
  {
  }

  lemma WindowReads(s: seq<bit>, c: nat, p: seq<bit>)
    requires Reads(s, c, p)
    ensures Window(s, c, |p|) == p
  {
    var v := s[c..c + |p|];
    forall i: nat | i < |p| ensures Window(s, c, |p|)[i] == v[i] {
      assert v[i] == s[c + i] == PaddedAt(s, c + i);
    }
  }

  /** An entry is symbol s itself, or the node at which the rest of its path begins, `depth` bits in all. */
  ghost predicate Leads(ns: seq<(int, int)>, data: int, u: Tree, w: seq<bit>, tb: nat, s: nat, depth: nat) {
    if u.Leaf? then data == s && depth <= tb
    else data < 0 && Stands(ns, data, u) && s in Symbols(u) && tb <= |w| && depth == tb + |PathTo(u, s)| <= |w|
         && w[tb..depth] == PathTo(u, s)
  }

  /** A table place that starts with a path leads to its leaf, or to a node on the way. */
  lemma {:induction false} TableLeads(ns: seq<(int, int)>, id: int, t: Tree, code: nat, len: nat, tb: nat,
                                      table: seq<int>, w: seq<bit>, s: nat) returns (u: Tree)
    requires len <= tb <= |w| && |table| == Pow2(tb) && Tabled(ns, id, t, code, len, tb, table) && Stands(ns, id, t)
    requires s in Symbols(t) && code == Prefix(w, len)
    requires len + |PathTo(t, s)| <= |w| && w[len..len + |PathTo(t, s)|] == PathTo(t, s)
    ensures Prefix(w, tb) < |table|
    ensures Leads(ns, table[Prefix(w, tb)], u, w, tb, s, len + |PathTo(t, s)|)
    decreases t
  {
    hide Prefix, Start, Pow2;
    PrefixBound(w, tb);
    if len == tb {
      u := t;
    } else {
      match t {
        case Leaf(_) =>
          u := t;
          AssertStart(w, len, tb);
        case Node(l, r) =>
          OneStep(t, s, w, len);
          hide PathTo, Symbols, Leads;
          if s in Symbols(l) {
            u := TableLeads(ns, ns[0 - id - 1].0, l, 2 * code, len + 1, tb, table, w, s);
          } else {
            u := TableLeads(ns, ns[0 - id - 1].1, r, 2 * code + 1, len + 1, tb, table, w, s);
          }
      }
    }
  }

  /** The first bit of a path chooses the child, the others are the path from there. */
  lemma OneStep(t: Tree, s: nat, w: seq<bit>, len: nat)
    requires t.Node? && s in Symbols(t) && len + |PathTo(t, s)| <= |w|
    requires w[len..len + |PathTo(t, s)|] == PathTo(t, s)
    ensures var b: bit := if s in Symbols(t.left) then 0 else 1;
            var c := Child(t, b);
            s in Symbols(c) && |PathTo(t, s)| == 1 + |PathTo(c, s)| && Prefix(w, len + 1) == 2 * Prefix(w, len) + b
            && w[len + 1..len + 1 + |PathTo(c, s)|] == PathTo(c, s)
  {
    var p := PathTo(t, s);
    assert t == Node(t.left, t.right);
    assert w[len] == w[len..len + |p|][0] == p[0];
    PrefixStep(w, len);
    assert w[len + 1..len + |p|] == w[len..len + |p|][1..] == p[1..];
  }

  lemma AssertStart(w: seq<bit>, len: nat, tb: nat)
    requires len <= tb <= |w|
    ensures Start(Prefix(w, tb), len, tb) == Prefix(w, len)
  {
    assert Pow2(0) == 1 && Start(Prefix(w, tb), tb, tb) == Prefix(w, tb);
    StartsWith(w, len, tb, tb, Prefix(w, tb));
  }

  /** The decoder: the input so far unread, and at least 25 of its bits in the buffer when it is full. */
  class Decoder {
    const source: seq<byte>
    var pos: nat
    var bitBuffer: word32
    var bitPosition: nat
    ghost var consumed: nat

    ghost predicate Valid()
      reads this
    {
      && bitPosition <= WORD_BITS && 8 * pos == consumed + (WORD_BITS - bitPosition)
      && bitBuffer == Holding(Window(BitsOf(source), consumed, WORD_BITS - bitPosition), WORD_BITS)
    }

    /** start_decoder */
    constructor (source: seq<byte>)
      ensures Valid() && consumed == 0 && this.source == source
    {
      this.source := source;
      pos, bitBuffer, bitPosition, consumed := 0, Zeros(WORD_BITS), WORD_BITS, 0;
    }

    method Refill()
      requires Valid()
      modifies this`pos, this`bitBuffer, this`bitPosition
      ensures Valid() && bitPosition < 8
    {
      hide BitsOf, ByteBits, Or, ToEnd, Holding, Window;
      while bitPosition >= 8
        invariant Valid()
        decreases bitPosition
      {
        ghost var s := BitsOf(source);
        ByteWindow(source, pos);
        OrAppends(Window(s, consumed, WORD_BITS - bitPosition), ByteBits(ByteAt(source, pos)), WORD_BITS);
        WindowParts(s, consumed, WORD_BITS - bitPosition, 8);
        bitPosition := bitPosition - 8;
        bitBuffer := Or(bitBuffer, Placed(ByteBits(ByteAt(source, pos)), bitPosition));
        pos := pos + 1;
      }
    }

    /** The next n bits leave the buffer. */
    method Drop(n: nat)
      requires Valid() && bitPosition + n <= WORD_BITS
      modifies this`bitBuffer, this`bitPosition, this`consumed
      ensures Valid() && bitPosition == old(bitPosition) + n && consumed == old(consumed) + n
    {
      hide BitsOf, Window, Holding, ToStart;
      ghost var s := BitsOf(source);
      ShiftDrops(Window(s, consumed, WORD_BITS - bitPosition), n, WORD_BITS);
      WindowParts(s, consumed, n, WORD_BITS - bitPosition - n);
      bitBuffer := ToStart(bitBuffer, n);
      bitPosition := bitPosition + n;
      consumed := consumed + n;
    }

    lemma Ahead(p: seq<bit>, rest: seq<bit>)
      requires Valid() && bitPosition + |p| <= WORD_BITS && Reads(BitsOf(source), consumed, p + rest)
      ensures bitBuffer[..|p|] == p && Reads(BitsOf(source), consumed + |p|, rest)
    {
      hide BitsOf;
      var s := BitsOf(source);
      ReadsParts(s, consumed, p, rest);
      WindowReads(s, consumed, p);
      WindowParts(s, consumed, |p|, WORD_BITS - bitPosition - |p|);
    }

    /** get_bits */
    method GetBits(bits: nat, ghost p: seq<bit>, ghost rest: seq<bit>) returns (data: nat)
      requires Valid() && bits <= MAX_RAW && |p| == bits && Reads(BitsOf(source), consumed, p + rest)
      modifies this`pos, this`bitBuffer, this`bitPosition, this`consumed
      ensures Valid() && data == Fold(0, p) && Reads(BitsOf(source), consumed, rest)
      ensures consumed == old(consumed) + bits
    {
      hide BitsOf, Window, Holding, Reads;
      Refill();
      Ahead(p, rest);
      data := Prefix(bitBuffer, bits);
      Drop(bits);
    }

    /** decode with an adaptive code: by table, and on by single bits where the codeword is longer. */
    method Decode(c: AdaptiveHuffmanCode, ghost s: nat, ghost rest: seq<bit>) returns (data: nat)
      requires Valid() && c.Valid() && c.tabled && s < c.symbols
      requires s in Symbols(c.tree) && Reads(BitsOf(source), consumed, PathTo(c.tree, s) + rest)
      modifies this`pos, this`bitBuffer, this`bitPosition, this`consumed
      modifies c`totalCount, c`updateCycle, c`untilUpdate, c`tree, c`ns, c`tabled
      modifies c.symbolCount, c.left, c.right, c.table, c.codeword, c.length
      ensures Valid() && data == s && Reads(BitsOf(source), consumed, rest)
      ensures c.Valid() && c.tabled && c.Mod() == Next(old(c.Mod()), s)
    {
      hide BitsOf, Window, Holding, Reads, Coded, Tabled, Stands;
      Refill();
      PathOfSymbol(c.tree, c.codeword[..], c.length[..], s, c.symbols);
      data := Lookup(c, s, rest);
      c.Count(data, false);
    }

    method Lookup(c: AdaptiveHuffmanCode, ghost s: nat, ghost rest: seq<bit>) returns (data: nat)
      requires Valid() && bitPosition < 8 && c.Valid() && c.tabled && s < c.symbols && s in Symbols(c.tree)
      requires c.length[s] == |PathTo(c.tree, s)| <= MAX_LENGTH
      requires Reads(BitsOf(source), consumed, PathTo(c.tree, s) + rest)
      modifies this`bitBuffer, this`bitPosition, this`consumed
      ensures Valid() && data == s && Reads(BitsOf(source), consumed, rest)
    {
      hide BitsOf, Window, Holding, Reads, Coded, Tabled, Stands;
      ghost var p := PathTo(c.tree, s);
      Ahead(p, rest);
      assert Prefix(bitBuffer, 0) == 0;
      ghost var u := TableLeads(c.ns, -1, c.tree, 0, 0, c.tableBits, c.table[..], bitBuffer, s);
      var found := c.table[Prefix(bitBuffer, c.tableBits)];
      if found >= 0 {
        data := found;
        Drop(c.length[data]);
      } else {
        assert PathTo(c.tree, s) + rest == bitBuffer[..c.tableBits] + (PathTo(u, s) + rest);
        ReadsParts(BitsOf(source), consumed, bitBuffer[..c.tableBits], PathTo(u, s) + rest);
        Drop(c.tableBits);
        data := WalkTree(c, found, s, u, rest);
      }
    }

    /** Bit by bit from a node to a leaf. */
    method WalkTree(c: AdaptiveHuffmanCode, from: int, ghost s: nat, ghost t: Tree, ghost rest: seq<bit>)
      returns (data: nat)
      requires Valid() && c.Valid() && from < 0 && Stands(c.ns, from, t) && s in Symbols(t)
      requires bitPosition + |PathTo(t, s)| <= WORD_BITS
      requires Reads(BitsOf(source), consumed, PathTo(t, s) + rest)
      modifies this`bitBuffer, this`bitPosition, this`consumed
      ensures Valid() && data == s && Reads(BitsOf(source), consumed, rest)
    {
      hide BitsOf, Window, Holding, Reads, Coded, Tabled;
      var node := from;
      ghost var u := t;
      while node < 0
        invariant Valid() && Stands(c.ns, node, u) && s in Symbols(u)
        invariant bitPosition + |PathTo(u, s)| <= WORD_BITS
        invariant Reads(BitsOf(source), consumed, PathTo(u, s) + rest)
        decreases Height(u)
      {
        ghost var p := PathTo(u, s);
        assert u == Node(u.left, u.right);
        assert p + rest == [p[0]] + (p[1..] + rest);
        Ahead([p[0]], p[1..] + rest);
        assert bitBuffer[0] == bitBuffer[..1][0];
        node := if bitBuffer[0] == 0 then c.left[0 - node] else c.right[0 - node];
        u := if p[0] == 0 then u.left else u.right;
        Drop(1);
      }
      assert [] + rest == rest;
      data := node;
    }
  }

  // ---------------------------------------------------------------- messages

  ghost function Arrays(c: AdaptiveHuffmanCode): (a: set<object>)
  {
    var counts: set<object>, nodes: set<object> := {c.symbolCount, c.codeword, c.length}, {c.left, c.right, c.table};
    counts + nodes
  }

  ghost function AllArrays(cs: seq<AdaptiveHuffmanCode>): (a: set<object>)
  {
    CountArrays(cs) + NodeArrays(cs)
  }

  ghost function CountArrays(cs: seq<AdaptiveHuffmanCode>): (a: set<object>)
  {
    (set c | c in cs :: c.symbolCount) + (set c | c in cs :: c.codeword) + (set c | c in cs :: c.length)
  }

  ghost function NodeArrays(cs: seq<AdaptiveHuffmanCode>): (a: set<object>)
  {
    (set c | c in cs :: c.left) + (set c | c in cs :: c.right) + (set c | c in cs :: c.table)
  }

  lemma ArraysIn(cs: seq<AdaptiveHuffmanCode>, i: nat)
    requires i < |cs|
    ensures Arrays(cs[i]) <= AllArrays(cs)
  {
    assert cs[i] in cs;
  }

  /** No two codes are one, nor do they share arrays. */
  ghost predicate Apart(cs: seq<AdaptiveHuffmanCode>)
  {
    forall i, j :: 0 <= i < |cs| && 0 <= j < |cs| && i != j ==> cs[i] != cs[j] && Arrays(cs[i]) !! Arrays(cs[j])
  }

  ghost predicate CodeIs(c: AdaptiveHuffmanCode, m: Model)
    reads c, c.symbolCount, c.left, c.right, c.table, c.codeword, c.length
  {
    c.Valid() && c.Mod() == m
  }

  ghost predicate TableIs(c: AdaptiveHuffmanCode)
    reads c
  {
    c.tabled
  }

  ghost predicate CodesAre(cs: seq<AdaptiveHuffmanCode>, ms: seq<Model>)
    reads cs, AllArrays(cs)
  {
    |cs| == |ms| && forall i :: 0 <= i < |cs| ==> CodeIs(cs[i], ms[i])
  }

  ghost predicate AllTabled(cs: seq<AdaptiveHuffmanCode>)
    reads cs
  {
    forall i :: 0 <= i < |cs| ==> TableIs(cs[i])
  }

  method NewCode(n: nat) returns (c: AdaptiveHuffmanCode)
    requires 3 <= n <= MAX_SYMBOLS
    ensures fresh(c) && fresh(Arrays(c)) && CodeIs(c, Initial(n)) && TableIs(c)
  {
    hide Initial;
    c := new AdaptiveHuffmanCode(n);
  }

  lemma ApartSnoc(cs: seq<AdaptiveHuffmanCode>, c: AdaptiveHuffmanCode)
    requires Apart(cs) && forall i :: 0 <= i < |cs| ==> cs[i] != c && Arrays(cs[i]) !! Arrays(c)
    ensures Apart(cs + [c])
  {
    hide Arrays;
    var a := cs + [c];
    forall i, j | 0 <= i < |a| && 0 <= j < |a| && i != j ensures a[i] != a[j] && Arrays(a[i]) !! Arrays(a[j]) {
    }
  }

  lemma NoneApart()
    ensures Apart([]) && AllArrays([]) == {}
  {
  }

  lemma ArraysSnoc(cs: seq<AdaptiveHuffmanCode>, c: AdaptiveHuffmanCode)
    ensures AllArrays(cs + [c]) == AllArrays(cs) + Arrays(c)
  {
    hide AllArrays, Arrays;
    var all := cs + [c];
    ArraysIn(all, |cs|);
    forall a | a in AllArrays(cs) + Arrays(c) ensures a in AllArrays(all) {
      if a in AllArrays(cs) {
        var i := ArrayOf(cs, a);
        assert all[i] == cs[i];
        ArraysIn(all, i);
      }
    }
    forall a | a in AllArrays(all) ensures a in AllArrays(cs) + Arrays(c) {
      var i := ArrayOf(all, a);
      if i < |cs| {
        assert all[i] == cs[i];
        ArraysIn(cs, i);
      }
    }
  }

  lemma ArrayOf(cs: seq<AdaptiveHuffmanCode>, a: object) returns (i: nat)
    requires a in AllArrays(cs)
    ensures i < |cs| && a in Arrays(cs[i])
  {
    if a in CountArrays(cs) {
      i := CountArrayOf(cs, a);
    } else {
      i := NodeArrayOf(cs, a);
    }
  }

  lemma CountArrayOf(cs: seq<AdaptiveHuffmanCode>, a: object) returns (i: nat)
    requires a in CountArrays(cs)
    ensures i < |cs| && a in Arrays(cs[i])
  {
    var c :| c in cs && (a == c.symbolCount || a == c.codeword || a == c.length);
    i :| 0 <= i < |cs| && cs[i] == c;
  }

  lemma NodeArrayOf(cs: seq<AdaptiveHuffmanCode>, a: object) returns (i: nat)
    requires a in NodeArrays(cs)
    ensures i < |cs| && a in Arrays(cs[i])
  {
    var c :| c in cs && (a == c.left || a == c.right || a == c.table);
    i :| 0 <= i < |cs| && cs[i] == c;
  }

  /** One new code for each alphabet. */
  method NewCodes(sizes: seq<nat>) returns (cs: seq<AdaptiveHuffmanCode>)
    requires SizesOk(sizes)
    ensures |cs| == |sizes| && fresh(cs) && fresh(AllArrays(cs))
    ensures forall i :: 0 <= i < |cs| ==> CodeIs(cs[i], Initial(sizes[i])) && TableIs(cs[i])
    ensures Apart(cs)
  {
    hide CodeIs, TableIs, Apart, Initial, AllArrays;
    if sizes == [] {
      cs := [];
      NoneApart();
    } else {
      var k := |sizes| - 1;
      cs := NewCodes(sizes[..k]);
      var c := NewCode(sizes[k]);
      forall i | 0 <= i < k ensures cs[i] != c && Arrays(cs[i]) !! Arrays(c) {
        ArraysIn(cs, i);
      }
      ApartSnoc(cs, c);
      ArraysSnoc(cs, c);
      cs := cs + [c];
    }
  }

  lemma NewAre(cs: seq<AdaptiveHuffmanCode>, sizes: seq<nat>)
    requires SizesOk(sizes) && |cs| == |sizes|
    requires forall i :: 0 <= i < |cs| ==> CodeIs(cs[i], Initial(sizes[i])) && TableIs(cs[i])
    ensures CodesAre(cs, Fresh(sizes)) && AllTabled(cs)
  {
    hide CodeIs, TableIs, Initial;
  }

  lemma NextOp(ms: seq<Model>, ops: seq<Op>)
    requires ModelsOk(ms) && OpsOk(ops, SizesOf(ms)) && ops != []
    ensures OpOk(ops[0], SizesOf(ms)) && OpsOk(ops[1..], SizesOf(ms))
    ensures MessageBits(ms, ops) == OpBits(ms, ops[0]) + MessageBits(After(ms, ops[0]), ops[1..])
  {
    hide Next, ModelOk;
  }

  method EncodeOne(s: nat, e: Encoder, c: AdaptiveHuffmanCode, ghost m: Model)
    requires e.Valid() && ModelOk(m) && CodeIs(c, m) && s < |m.counts|
    modifies e, c, Arrays(c)
    ensures e.Valid() && e.sent == old(e.sent) + PathTo(m.tree, s) && CodeIs(c, Next(m, s))
  {
    hide BitsOf, Coded, Tabled, Stands, Branches, Next;
    e.Encode(s, c);
  }

  method EncodeWith(i: nat, s: nat, e: Encoder, cs: seq<AdaptiveHuffmanCode>, ghost ms: seq<Model>)
    requires e.Valid() && ModelsOk(ms) && CodesAre(cs, ms) && Apart(cs) && i < |ms| && s < |ms[i].counts|
    modifies e, cs[i], Arrays(cs[i])
    ensures e.Valid() && e.sent == old(e.sent) + PathTo(ms[i].tree, s)
    ensures CodesAre(cs, ms[i := Next(ms[i], s)])
  {
    hide BitsOf, Next, CodeIs, AllArrays, ModelOk;
    EncodeOne(s, e, cs[i], ms[i]);
  }

  lemma Named(cs: seq<AdaptiveHuffmanCode>, ms: seq<Model>)
    requires CodesAre(cs, ms)
    ensures |cs| == |ms|
  {
  }

  method EncodeOp(e: Encoder, cs: seq<AdaptiveHuffmanCode>, op: Op, ghost ms: seq<Model>)
    requires e.Valid() && ModelsOk(ms) && CodesAre(cs, ms) && Apart(cs) && OpOk(op, SizesOf(ms))
    modifies e, cs, AllArrays(cs)
    ensures e.Valid() && e.sent == old(e.sent) + OpBits(ms, op) && CodesAre(cs, After(ms, op))
  {
    hide BitsOf, Next, CodeIs, Apart, AllArrays, Arrays;
    match op {
      case Bit(b) => e.PutBit(b);
      case Raw(data, n) => e.PutBits(data, n);
      case Symbol(i, s) =>
        Named(cs, ms);
        ArraysIn(cs, i);
        EncodeWith(i, s, e, cs, ms);
    }
  }

  /** One call for each op. */
  method EncodeAll(ops: seq<Op>, e: Encoder, cs: seq<AdaptiveHuffmanCode>, ghost start: seq<Model>)
    requires e.Valid() && ModelsOk(start) && CodesAre(cs, start) && Apart(cs) && OpsOk(ops, SizesOf(start))
    modifies e, cs, AllArrays(cs)
    ensures e.Valid() && e.sent == old(e.sent) + MessageBits(start, ops)
  {
    hide BitsOf, MessageBits, Next, ModelsOk, SizesOf, OpOk, OpBits, After, CodesAre, Apart, AllArrays;
    ghost var ms, bits := start, old(e.sent) + MessageBits(start, ops);
    var i := 0;
    assert ops[0..] == ops;
    while i < |ops|
      invariant i <= |ops| && e.Valid() && ModelsOk(ms) && CodesAre(cs, ms) && SizesOf(ms) == SizesOf(start)
      invariant e.sent + MessageBits(ms, ops[i..]) == bits
    {
      ghost var before := e.sent;
      NextOp(ms, ops[i..]);
      assert ops[i..][0] == ops[i] && ops[i..][1..] == ops[i + 1..];
      EncodeOp(e, cs, ops[i], ms);
      Regroup(before, OpBits(ms, ops[i]), MessageBits(After(ms, ops[i]), ops[i + 1..]));
      ms := After(ms, ops[i]);
      i := i + 1;
    }
    NoOps(ms, ops[i..]);
    assert e.sent + [] == e.sent;
  }

  /** A message through fresh adaptive codes and the encoder. */
  method EncodeMessage(ops: seq<Op>, sizes: seq<nat>) returns (code: seq<byte>)
    requires SizesOk(sizes) && OpsOk(ops, sizes)
    ensures Carries(code, MessageBits(Fresh(sizes), ops))
  {
    hide BitsOf, MessageBits, Next, Fresh, Carries, ModelsOk, SizesOf, OpOk, CodesAre, Apart, CodeIs;
    var e: Encoder := new Encoder();
    var cs := NewCodes(sizes);
    NewAre(cs, sizes);
    EncodeAll(ops, e, cs, Fresh(sizes));
    assert [] + MessageBits(Fresh(sizes), ops) == MessageBits(Fresh(sizes), ops);
    code := e.Stop();
  }

  lemma NoOps(ms: seq<Model>, ops: seq<Op>)
    requires ModelsOk(ms) && OpsOk(ops, SizesOf(ms)) && ops == []
    ensures MessageBits(ms, ops) == []
  {
  }

  method DecodeOne(d: Decoder, c: AdaptiveHuffmanCode, ghost m: Model, ghost s: nat, ghost rest: seq<bit>)
    returns (data: nat)
    requires d.Valid() && ModelOk(m) && CodeIs(c, m) && TableIs(c) && s < |m.counts| && s in Symbols(m.tree)
    requires Reads(BitsOf(d.source), d.consumed, PathTo(m.tree, s) + rest)
    modifies d`pos, d`bitBuffer, d`bitPosition, d`consumed, c, Arrays(c)
    ensures d.Valid() && data == s && Reads(BitsOf(d.source), d.consumed, rest)
    ensures CodeIs(c, Next(m, s)) && TableIs(c)
  {
    hide BitsOf, Reads, Coded, Tabled, Stands, Branches, Next;
    data := d.Decode(c, s, rest);
  }

  method DecodeWith(i: nat, d: Decoder, cs: seq<AdaptiveHuffmanCode>, ghost ms: seq<Model>, ghost s: nat,
                    ghost rest: seq<bit>)
    returns (data: nat)
    requires d.Valid() && ModelsOk(ms) && CodesAre(cs, ms) && AllTabled(cs) && Apart(cs)
    requires i < |ms| && s < |ms[i].counts| && s in Symbols(ms[i].tree)
    requires Reads(BitsOf(d.source), d.consumed, PathTo(ms[i].tree, s) + rest)
    modifies d`pos, d`bitBuffer, d`bitPosition, d`consumed, cs[i], Arrays(cs[i])
    ensures d.Valid() && data == s && Reads(BitsOf(d.source), d.consumed, rest)
    ensures CodesAre(cs, ms[i := Next(ms[i], s)]) && AllTabled(cs)
  {
    hide BitsOf, Reads, Next, CodeIs, TableIs, AllArrays, ModelOk;
    data := DecodeOne(d, cs[i], ms[i], s, rest);
  }

  method DecodeOp(d: Decoder, cs: seq<AdaptiveHuffmanCode>, kind: Kind, ghost ms: seq<Model>, ghost op: Op,
                  ghost rest: seq<bit>)
    returns (r: Op)
    requires d.Valid() && ModelsOk(ms) && CodesAre(cs, ms) && AllTabled(cs) && Apart(cs)
    requires OpOk(op, SizesOf(ms)) && kind == KindOf(op)
    requires Reads(BitsOf(d.source), d.consumed, OpBits(ms, op) + rest)
    modifies d`pos, d`bitBuffer, d`bitPosition, d`consumed, cs, AllArrays(cs)
    ensures d.Valid() && r == op && Reads(BitsOf(d.source), d.consumed, rest)
    ensures CodesAre(cs, After(ms, op)) && AllTabled(cs)
  {
    hide BitsOf, Next, Reads, PathTo, CodeIs, TableIs, Apart, AllArrays, Arrays, Window, Holding;
    match kind {
      case BitKind =>
        var b := d.GetBits(1, [op.b], rest);
        OneBit(op.b);
        r := Bit(b);
      case RawKind(n) =>
        var data := d.GetBits(n, Bits(op.data, n), rest);
        RawBack(op.data, n);
        r := Raw(data, n);
      case SymbolKind(i) =>
        Named(cs, ms);
        ArraysIn(cs, i);
        var s := DecodeWith(i, d, cs, ms, op.s, rest);
        r := Symbol(i, s);
    }
  }

  lemma OneBit(b: bit)
    ensures Fold(0, [b]) == b
  {
    assert [b][1..] == [];
  }

  lemma RawBack(data: nat, n: nat)
    requires data < Pow2(n)
    ensures Fold(0, Bits(data, n)) == data
  {
    FoldBits(data, n);
    DivModUnique(data, Pow2(n), 0, data);
  }

  /** One call for each op that is still to come. */
  method DecodeAll(d: Decoder, cs: seq<AdaptiveHuffmanCode>, kinds: seq<Kind>, ghost start: seq<Model>,
                   ghost ops: seq<Op>)
    returns (r: seq<Op>)
    requires d.Valid() && ModelsOk(start) && CodesAre(cs, start) && AllTabled(cs) && Apart(cs)
    requires OpsOk(ops, SizesOf(start)) && kinds == Kinds(ops)
    requires Reads(BitsOf(d.source), d.consumed, MessageBits(start, ops))
    modifies d`pos, d`bitBuffer, d`bitPosition, d`consumed, cs, AllArrays(cs)
    ensures r == ops
  {
    hide BitsOf, MessageBits, Next, ModelsOk, SizesOf, OpOk, OpBits, After, Reads;
    hide CodesAre, AllTabled, Apart, AllArrays;
    ghost var ms := start;
    r := [];
    var i := 0;
    assert ops[0..] == ops;
    while i < |kinds|
      invariant i <= |kinds| && r == ops[..i] && d.Valid()
      invariant ModelsOk(ms) && CodesAre(cs, ms) && AllTabled(cs) && SizesOf(ms) == SizesOf(start)
      invariant Reads(BitsOf(d.source), d.consumed, MessageBits(ms, ops[i..]))
    {
      NextOp(ms, ops[i..]);
      assert ops[i..][0] == ops[i] && ops[i..][1..] == ops[i + 1..];
      var op := DecodeOp(d, cs, kinds[i], ms, ops[i], MessageBits(After(ms, ops[i]), ops[i + 1..]));
      ms := After(ms, ops[i]);
      r := r + [op];
      i := i + 1;
    }
    assert ops[..i] == ops;
  }

  /** The kinds of the operations, the code and any bytes after it give back the message. */
  method DecodeMessage(code: seq<byte>, trailing: seq<byte>, kinds: seq<Kind>, sizes: seq<nat>, ghost ops: seq<Op>)
    returns (r: seq<Op>)
    requires SizesOk(sizes) && OpsOk(ops, sizes) && kinds == Kinds(ops)
    requires Carries(code, MessageBits(Fresh(sizes), ops))
    ensures r == ops
  {
    hide BitsOf, MessageBits, Next, Fresh, ModelsOk, SizesOf, OpOk, Reads, CodesAre, AllTabled, Apart, CodeIs;
    var d: Decoder := new Decoder(code + trailing);
    var cs := NewCodes(sizes);
    NewAre(cs, sizes);
    CarriedReads(code, trailing, MessageBits(Fresh(sizes), ops));
    r := DecodeAll(d, cs, kinds, Fresh(sizes), ops);
  }

  lemma CarriedReads(code: seq<byte>, trailing: seq<byte>, s: seq<bit>)
    requires Carries(code, s)
    ensures Reads(BitsOf(code + trailing), 0, s)
  {
    hide BitsOf;
    BitsOfParts(code, trailing);
    assert BitsOf(code + trailing)[0..0 + |s|] == BitsOf(code)[..|s|];
  }

  /** Adaptive encoding and decoding is a round trip, whatever follows the code in memory. */
  method RoundTrip(ops: seq<Op>, sizes: seq<nat>, trailing: seq<byte>) returns (r: seq<Op>)
    requires SizesOk(sizes) && OpsOk(ops, sizes)
    ensures r == ops
  {
    hide MessageBits, Fresh, Carries;
    var code := EncodeMessage(ops, sizes);
    r := DecodeMessage(code, trailing, Kinds(ops), sizes, ops);
  }
}
