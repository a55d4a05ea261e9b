/** FastHF messages: adaptive codes that both sides recompute from the same counts, as a bit string. */
module FastHfSpec {
  import opened Arith
  import opened Bytes
  import opened SymbolCounts
  import opened FastHfTree
  import opened FastHfCode

  const MAX_SYMBOLS := 4096
  const MAX_RAW := 24

  // ---------------------------------------------------------------- codewords as paths

  /** The way from the root to a symbol's leaf, 0 for left. */
  function PathTo(t: Tree, s: nat): (p: seq<bit>)
    requires s in Symbols(t)
    ensures |p| <= Height(t)
  {
    match t
    case Leaf(_) => []
    case Node(l, r) => if s in Symbols(l) then [0] + PathTo(l, s) else [1] + PathTo(r, s)
  }

  /** The codeword arrays hold the paths. */
  lemma {:induction false} CodewordIsPath(t: Tree, code: nat, len: nat, cw: seq<nat>, ln: seq<nat>, s: nat)
    requires Coded(t, code, len, cw, ln) && s in Symbols(t)
    ensures s < |cw| && s < |ln| && ln[s] == len + |PathTo(t, s)| && cw[s] == Fold(code, PathTo(t, s))
  {
    match t {
      case Leaf(_) =>
      case Node(l, r) =>
        if s in Symbols(l) {
          CodewordIsPath(l, 2 * code, len + 1, cw, ln, s);
          assert ([0] + PathTo(l, s))[1..] == PathTo(l, s);
        } else {
          CodewordIsPath(r, 2 * code + 1, len + 1, cw, ln, s);
          assert ([1] + PathTo(r, s))[1..] == PathTo(r, s);
        }
    }
  }

  /** The first n bits of x as their number are x's path bits. */
  lemma {:induction false} BitsOfFold(p: seq<bit>)
    ensures Bits(Fold(0, p), |p|) == p
  {
    FoldIsPrefix(p, |p|);
    assert p[..|p|] == p;
    forall i | 0 <= i < |p| ensures BitAt(Fold(0, p), |p| - 1 - i) == p[i] {
      FoldBit(p, |p| - 1 - i);
    }
  }

  lemma FoldIsPrefix(p: seq<bit>, n: nat)
    requires n <= |p|
    ensures Fold(0, p[..n]) == Prefix(p, n)
  {
  }

  lemma {:induction false} FoldBit(p: seq<bit>, j: nat)
    requires j < |p|
    ensures BitAt(Fold(0, p), j) == p[|p| - 1 - j]
    decreases j
  {
    var n := |p| - 1;
    FoldSnoc(0, p[..n], p[n]);
    assert p == p[..n] + [p[n]];
    if j == 0 {
      assert Pow2(0) == 1;
    } else {
      FoldBit(p[..n], j - 1);
      HalfBit(Fold(0, p[..n]), p[n], j);
    }
  }

  lemma HalfBit(x: nat, b: bit, j: nat)
    requires j > 0
    ensures BitAt(2 * x + b, j) == BitAt(x, j - 1)
  {
    var p := Pow2(j - 1);
    DivDouble(2 * x + b, 1);
    DivAtLeast(x, p, 0);
    var q := x / p;
    DivModUnique(2 * x + b, 2 * p, q, 2 * (x % p) + b);
  }

  // ---------------------------------------------------------------- the adaptive model

  datatype Model = Model(counts: seq<nat>, total: nat, cycle: nat, left: nat, tree: Tree)

  ghost predicate Sized(counts: seq<nat>) { 3 <= |counts| <= MAX_SYMBOLS && AllPositive(counts) }

  /** A full binary tree of all symbols whose codewords the codec can handle. */
  ghost predicate TreeOk(t: Tree, n: nat) {
    t.Node? && Distinct(t) && Below(t, n) && Height(t) <= MAX_LENGTH && forall s :: 0 <= s < n ==> s in Symbols(t)
  }

  ghost predicate ModelOk(m: Model) {
    && Sized(m.counts) && TreeOk(m.tree, |m.counts|) && m.total < MAX_COUNT
    && 1 <= m.left <= m.cycle && m.total + (m.cycle - m.left) == Sum(m.counts)
  }

  lemma {:induction false} CountsOfLeaves(counts: seq<nat>)
    ensures Counts(Leaves(counts)) == Sum(counts)
  {
    if counts != [] {
      var n := |counts| - 1;
      assert Leaves(counts)[..n] == Leaves(counts[..n]);
      CountsOfLeaves(counts[..n]);
    }
  }

  /** Halving until the counts add up to less than 2^15. */
  ghost function Rescaled(counts: seq<nat>): (r: seq<nat>)
    requires Sized(counts)
    ensures |r| == |counts| && Sized(r) && Sum(r) < MAX_COUNT
    decreases Sum(counts)
  {
    SumHalved(counts);
    SumAtLeast(counts);
    if Sum(counts) < MAX_COUNT then counts else Rescaled(Halved(counts))
  }

  ghost function Updated(m: Model): (r: Model)
    requires Sized(m.counts) && m.total + m.cycle == Sum(m.counts) && m.cycle >= 1
    ensures ModelOk(r) && |r.counts| == |m.counts|
  {
    var counts := Rescaled(m.counts);
    var cycle := if m.cycle < |m.counts| * 16 then 1 + 5 * m.cycle / 4 else m.cycle;
    CountsOfLeaves(counts);
    TreeOfCounts(counts);
    DepthBound(counts);
    Model(counts, Sum(counts), cycle, cycle, HuffmanTree(counts))
  }

  /** set_alphabet and reset */
  ghost function Initial(n: nat): (m: Model)
    requires 3 <= n <= MAX_SYMBOLS
    ensures ModelOk(m) && |m.counts| == n
  {
    SumOnes(n);
    Updated(Model(Ones(n), 0, n, n, Leaf(0)))
  }

  /** After a symbol: its count, and a new code when the cycle is over. */
  ghost function Next(m: Model, s: nat): (r: Model)
    requires ModelOk(m) && s < |m.counts|
    ensures ModelOk(r) && |r.counts| == |m.counts|
  {
    SumUpdate(m.counts, s, m.counts[s] + 1);
    var n := m.(counts := m.counts[s := m.counts[s] + 1], left := m.left - 1);
    if n.left == 0 then Updated(n) else n
  }

  // ---------------------------------------------------------------- messages

  /** A bit, a group of raw bits, and a symbol under one of the adaptive codes. */
  datatype Op = Bit(b: bit) | Raw(data: nat, n: nat) | Symbol(i: nat, s: nat)
  datatype Kind = BitKind | RawKind(n: nat) | SymbolKind(i: nat)

  /** sizes are the alphabets of the codes. */
  predicate OpOk(op: Op, sizes: seq<nat>) {
    match op
    case Bit(_) => true
    case Raw(data, n) => 1 <= n <= MAX_RAW && data < Pow2(n)
    case Symbol(i, s) => i < |sizes| && s < sizes[i]
  }

  ghost predicate OpsOk(ops: seq<Op>, sizes: seq<nat>) { forall i :: 0 <= i < |ops| ==> OpOk(ops[i], sizes) }

  function KindOf(op: Op): (k: Kind) {
    match op
    case Bit(_) => BitKind
    case Raw(_, n) => RawKind(n)
    case Symbol(i, _) => SymbolKind(i)
  }

  function Kinds(ops: seq<Op>): (ks: seq<Kind>)
    ensures |ks| == |ops|
  {
    seq(|ops|, i requires 0 <= i < |ops| => KindOf(ops[i]))
  }

  ghost predicate SizesOk(sizes: seq<nat>) { forall i :: 0 <= i < |sizes| ==> 3 <= sizes[i] <= MAX_SYMBOLS }

  ghost predicate ModelsOk(ms: seq<Model>) { forall i :: 0 <= i < |ms| ==> ModelOk(ms[i]) }

  function SizesOf(ms: seq<Model>): (sizes: seq<nat>)
    ensures |sizes| == |ms|
  {
    seq(|ms|, i requires 0 <= i < |ms| => |ms[i].counts|)
  }

  ghost function Fresh(sizes: seq<nat>): (ms: seq<Model>)
    requires SizesOk(sizes)
    ensures ModelsOk(ms) && SizesOf(ms) == sizes
  {
    seq(|sizes|, i requires 0 <= i < |sizes| => Initial(sizes[i]))
  }

  ghost function OpBits(ms: seq<Model>, op: Op): (p: seq<bit>)
    requires ModelsOk(ms) && OpOk(op, SizesOf(ms))
    ensures |p| <= MAX_RAW
  {
    match op
    case Bit(b) => [b]
    case Raw(data, n) => Bits(data, n)
    case Symbol(i, s) => PathTo(ms[i].tree, s)
  }

  ghost function After(ms: seq<Model>, op: Op): (r: seq<Model>)
    requires ModelsOk(ms) && OpOk(op, SizesOf(ms))
    ensures ModelsOk(r) && SizesOf(r) == SizesOf(ms)
  {
    if op.Symbol? then ms[op.i := Next(ms[op.i], op.s)] else ms
  }

  ghost function MessageBits(ms: seq<Model>, ops: seq<Op>): (bits: seq<bit>)
    requires ModelsOk(ms) && OpsOk(ops, SizesOf(ms))
    decreases |ops|
  {
    if ops == [] then [] else OpBits(ms, ops[0]) + MessageBits(After(ms, ops[0]), ops[1..])
  }
}
