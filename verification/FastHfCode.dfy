/** FastHF's Set_Huffman_Code: codewords and decoder table from a walk along an explicit stack. */
module FastHfCode {
  import opened Arith
  import opened Bytes
  import opened FastHfTree
  import opened FastHfForm

  // ---------------------------------------------------------------- what codewords and table mean

  /** Every leaf of t has its path, behind `code` of `len` bits, as its codeword. */
  ghost predicate Coded(t: Tree, code: nat, len: nat, cw: seq<nat>, ln: seq<nat>) {
    match t
    case Leaf(s) => s < |cw| && s < |ln| && cw[s] == code && ln[s] == len
    case Node(l, r) => Coded(l, 2 * code, len + 1, cw, ln) && Coded(r, 2 * code + 1, len + 1, cw, ln)
  }

  /** The first len bits of a table place of tb bits. */
  function Start(x: nat, len: nat, tb: nat): (r: nat)
    requires len <= tb
  {
    ShiftedRight(x, tb - len)
  }

  /** Table places that start with `code` of `len` bits hold the leaf reached, or the node at tb bits. */
  ghost predicate Tabled(ns: seq<(int, int)>, id: int, t: Tree, code: nat, len: nat, tb: nat, table: seq<int>)
    requires len <= tb
    decreases t
  {
    if len == tb then code < |table| && table[code] == id
    else match t
      case Leaf(_) => forall x :: 0 <= x < |table| && Start(x, len, tb) == code ==> table[x] == id
      case Node(l, r) =>
        && id < 0 && 0 - id <= |ns|
        && Tabled(ns, ns[0 - id - 1].0, l, 2 * code, len + 1, tb, table)
        && Tabled(ns, ns[0 - id - 1].1, r, 2 * code + 1, len + 1, tb, table)
  }

  ghost predicate Done(ns: seq<(int, int)>, id: int, t: Tree, code: nat, len: nat,
                       cw: seq<nat>, ln: seq<nat>, tb: nat, table: seq<int>)
  {
    Coded(t, code, len, cw, ln) && (len <= tb ==> Tabled(ns, id, t, code, len, tb, table))
  }

  /** Codewords change only for symbols elsewhere. */
  lemma {:induction false} CodedFrame(t: Tree, code: nat, len: nat, cw: seq<nat>, ln: seq<nat>, s: nat, c: nat, n: nat)
    requires Coded(t, code, len, cw, ln) && s !in Symbols(t) && s < |cw| == |ln|
    ensures Coded(t, code, len, cw[s := c], ln[s := n])
  {
    match t {
      case Leaf(_) =>
      case Node(l, r) =>
        CodedFrame(l, 2 * code, len + 1, cw, ln, s, c, n);
        CodedFrame(r, 2 * code + 1, len + 1, cw, ln, s, c, n);
    }
  }

  /** The table has changed only outside the places that start with code. */
  ghost predicate SameUnder(code: nat, len: nat, tb: nat, table: seq<int>, table': seq<int>)
    requires len <= tb
  {
    |table| == |table'| && forall x :: 0 <= x < |table| && Start(x, len, tb) == code ==> table'[x] == table[x]
  }

  lemma SameDeeper(code: nat, len: nat, tb: nat, table: seq<int>, table': seq<int>, b: bit)
    requires len < tb && SameUnder(code, len, tb, table, table')
    ensures SameUnder(2 * code + b, len + 1, tb, table, table')
  {
    forall x: nat | x < |table| && Start(x, len + 1, tb) == 2 * code + b ensures Start(x, len, tb) == code {
      DivDouble(x, Pow2(tb - len - 1));
    }
  }

  lemma {:induction false} TabledFrame(ns: seq<(int, int)>, id: int, t: Tree, code: nat, len: nat, tb: nat,
                                      table: seq<int>, table': seq<int>)
    requires len <= tb && Tabled(ns, id, t, code, len, tb, table) && SameUnder(code, len, tb, table, table')
    ensures Tabled(ns, id, t, code, len, tb, table')
    decreases t
  {
    if len < tb {
      match t {
        case Leaf(_) =>
        case Node(l, r) =>
          SameDeeper(code, len, tb, table, table', 0);
          SameDeeper(code, len, tb, table, table', 1);
          TabledFrame(ns, ns[0 - id - 1].0, l, 2 * code, len + 1, tb, table, table');
          TabledFrame(ns, ns[0 - id - 1].1, r, 2 * code + 1, len + 1, tb, table, table');
      }
    } else {
      assert Pow2(0) == 1 && Start(code, len, tb) == code;
    }
  }

  // ---------------------------------------------------------------- the walk

  function Child(t: Tree, b: bit): (c: Tree)
    requires t.Node?
  {
    if b == 0 then t.left else t.right
  }

  function Branch(ns: seq<(int, int)>, m: nat, b: bit): (m': int)
    requires 1 <= m <= |ns|
  {
    if b == 0 then ns[m - 1].0 else ns[m - 1].1
  }

  /** The bits before level d as a number. */
  function Prefix(bits: seq<bit>, d: nat): (p: nat)
    requires d <= |bits|
  {
    Fold(0, bits[..d])
  }

  lemma PrefixSame(a: seq<bit>, b: seq<bit>, d: nat)
    requires d <= |a| && d <= |b| && a[..d] == b[..d]
    ensures Prefix(a, d) == Prefix(b, d)
  {
  }

  lemma PrefixStep(bits: seq<bit>, d: nat)
    requires d < |bits|
    ensures Prefix(bits, d + 1) == 2 * Prefix(bits, d) + bits[d]
  {
    FoldSnoc(0, bits[..d], bits[d]);
    assert bits[..d + 1] == bits[..d] + [bits[d]];
  }

  /** The nodes on the stack lead from the root to where the walk is. */
  ghost predicate Path(ns: seq<(int, int)>, t: Tree, bits: seq<bit>, trees: seq<Tree>, stack: seq<int>) {
    && 1 <= |bits| == |trees| == |stack| && trees[0] == t && stack[0] == 1
    && (forall d :: 0 <= d < |trees| ==>
          trees[d].Node? && 1 <= stack[d] <= |ns| && Stands(ns, 0 - stack[d], trees[d]) && Distinct(trees[d]))
    && (forall d :: 1 <= d < |trees| ==> trees[d] == Child(trees[d - 1], bits[d - 1]))
    && (forall d :: 1 <= d < |trees| ==> 0 - stack[d] == Branch(ns, stack[d - 1], bits[d - 1]))
  }

  /** Everything to the left of the path is done, and the table knows the node at tb bits on it. */
  ghost predicate LeftDone(ns: seq<(int, int)>, bits: seq<bit>, trees: seq<Tree>, stack: seq<int>,
                           cw: seq<nat>, ln: seq<nat>, tb: nat, table: seq<int>)
  {
    && |bits| == |trees| == |stack|
    && (forall d :: 0 <= d < |bits| ==> trees[d].Node? && 1 <= stack[d] <= |ns|)
    && (forall d :: 0 <= d < |bits| && bits[d] == 1 ==>
          Done(ns, ns[stack[d] - 1].0, trees[d].left, 2 * Prefix(bits, d), d + 1, cw, ln, tb, table))
    && (forall d :: 1 <= d < |bits| && d == tb ==>
          Prefix(bits, d) < |table| && table[Prefix(bits, d)] == 0 - stack[d])
  }

  function LeafCount(t: Tree): (n: nat)
    ensures n >= 1
  {
    match t
    case Leaf(_) => 1
    case Node(l, r) => LeafCount(l) + LeafCount(r)
  }

  /** The leaves still to come to the right of the path. */
  function Waiting(bits: seq<bit>, trees: seq<Tree>): (r: nat)
    requires |bits| == |trees| && forall d :: 0 <= d < |trees| ==> trees[d].Node?
    decreases |bits|
  {
    if bits == [] then 0
    else
      var n := |bits| - 1;
      Waiting(bits[..n], trees[..n]) + if bits[n] == 0 then LeafCount(trees[n].right) else 0
  }

  /** The child the walk has reached is done. */
  ghost predicate Reached(ns: seq<(int, int)>, bits: seq<bit>, trees: seq<Tree>, stack: seq<int>,
                          cw: seq<nat>, ln: seq<nat>, tb: nat, table: seq<int>)
  {
    && 1 <= |bits| == |trees| == |stack| && trees[|bits| - 1].Node? && 1 <= stack[|bits| - 1] <= |ns|
    && var n := |bits| - 1;
       Done(ns, Branch(ns, stack[n], bits[n]), Child(trees[n], bits[n]), Prefix(bits, n + 1), n + 1, cw, ln, tb, table)
  }

  /** With both children done, a node is done. */
  lemma NodeDone(ns: seq<(int, int)>, t: Tree, bits: seq<bit>, trees: seq<Tree>, stack: seq<int>,
                 cw: seq<nat>, ln: seq<nat>, tb: nat, table: seq<int>)
    requires Path(ns, t, bits, trees, stack) && LeftDone(ns, bits, trees, stack, cw, ln, tb, table)
    requires Reached(ns, bits, trees, stack, cw, ln, tb, table) && bits[|bits| - 1] == 1
    ensures var n := |bits| - 1;
            (n > 0 || tb > 0 ==> Done(ns, 0 - stack[n], trees[n], Prefix(bits, n), n, cw, ln, tb, table))
            && Coded(trees[n], Prefix(bits, n), n, cw, ln)
  {
    hide Stands, Distinct;
    var n := |bits| - 1;
    PrefixStep(bits, n);
    assert trees[n] == Node(trees[n].left, trees[n].right);
  }

  /** The table differs only in places that start with the path. */
  ghost predicate WrittenUnder(bits: seq<bit>, tb: nat, table: seq<int>, table': seq<int>)
  {
    && |table| == |table'|
    && (|bits| > tb ==> table' == table)
    && (|bits| <= tb ==>
          forall x :: 0 <= x < |table| && Start(x, |bits|, tb) != Prefix(bits, |bits|) ==> table'[x] == table[x])
  }

  lemma {:induction false} StartsWith(bits: seq<bit>, d: nat, n: nat, tb: nat, x: nat)
    requires d <= n <= |bits| && n <= tb && Start(x, n, tb) == Prefix(bits, n)
    ensures Start(x, d, tb) == Prefix(bits, d)
    decreases n
  {
    if d < n {
      DivDouble(x, Pow2(tb - n));
      PrefixStep(bits, n - 1);
      StartsWith(bits, d, n - 1, tb, x);
    }
  }

  lemma {:induction false} SymbolOnPath(ns: seq<(int, int)>, t: Tree, bits: seq<bit>, trees: seq<Tree>, stack: seq<int>,
                                        s: nat, d: nat)
    requires Path(ns, t, bits, trees, stack) && d < |bits|
    requires s in Symbols(Child(trees[|bits| - 1], bits[|bits| - 1]))
    ensures s in Symbols(Child(trees[d], bits[d])) && s in Symbols(trees[d])
    decreases |bits| - d
  {
    hide Stands, Distinct;
    if d < |bits| - 1 {
      SymbolOnPath(ns, t, bits, trees, stack, s, d + 1);
    }
    assert trees[d] == Node(trees[d].left, trees[d].right);
  }

  /** Writing at the end of the path disturbs nothing to its left. */
  lemma LeftStaysDone(ns: seq<(int, int)>, t: Tree, bits: seq<bit>, trees: seq<Tree>, stack: seq<int>,
                      cw: seq<nat>, ln: seq<nat>, tb: nat, table: seq<int>, table': seq<int>)
    requires Path(ns, t, bits, trees, stack) && LeftDone(ns, bits, trees, stack, cw, ln, tb, table)
    requires WrittenUnder(bits, tb, table, table')
    ensures LeftDone(ns, bits, trees, stack, cw, ln, tb, table')
  {
    hide Stands, Distinct, Coded, Tabled, Start, Prefix;
    forall d | 0 <= d < |bits| && bits[d] == 1
      ensures Done(ns, ns[stack[d] - 1].0, trees[d].left, 2 * Prefix(bits, d), d + 1, cw, ln, tb, table')
    {
      if d + 1 <= tb {
        PrefixStep(bits, d);
        assert SameUnder(2 * Prefix(bits, d), d + 1, tb, table, table') by {
          forall x: nat | x < |table| && Start(x, d + 1, tb) == 2 * Prefix(bits, d) ensures table'[x] == table[x] {
            if |bits| <= tb && Start(x, |bits|, tb) == Prefix(bits, |bits|) {
              StartsWith(bits, d + 1, |bits|, tb, x);
            }
          }
        }
        TabledFrame(ns, ns[stack[d] - 1].0, trees[d].left, 2 * Prefix(bits, d), d + 1, tb, table, table');
      }
    }
  }

  /** Giving the symbol at the end of the path its codeword disturbs nothing to its left. */
  lemma LeftStaysCoded(ns: seq<(int, int)>, t: Tree, bits: seq<bit>, trees: seq<Tree>, stack: seq<int>,
                       cw: seq<nat>, ln: seq<nat>, tb: nat, table: seq<int>, s: nat, c: nat, n: nat)
    requires Path(ns, t, bits, trees, stack) && LeftDone(ns, bits, trees, stack, cw, ln, tb, table)
    requires s in Symbols(Child(trees[|bits| - 1], bits[|bits| - 1])) && s < |cw| == |ln|
    ensures LeftDone(ns, bits, trees, stack, cw[s := c], ln[s := n], tb, table)
  {
    hide Stands, Coded, Tabled, Prefix;
    forall d | 0 <= d < |bits| && bits[d] == 1
      ensures Done(ns, ns[stack[d] - 1].0, trees[d].left, 2 * Prefix(bits, d), d + 1, cw[s := c], ln[s := n], tb, table)
    {
      SymbolOnPath(ns, t, bits, trees, stack, s, d);
      assert Distinct(Node(trees[d].left, trees[d].right));
      CodedFrame(trees[d].left, 2 * Prefix(bits, d), d + 1, cw, ln, s, c, n);
    }
  }

  /** A node's children stand where its branches say, with symbols of their own. */
  lemma ChildStands(ns: seq<(int, int)>, m: nat, t: Tree, b: bit)
    requires 1 <= m <= |ns| && t.Node? && Stands(ns, 0 - m, t) && Distinct(t)
    ensures Stands(ns, Branch(ns, m, b), Child(t, b)) && Distinct(Child(t, b))
    ensures Child(t, b).Node? ==> -|ns| <= Branch(ns, m, b) < 0
  {
    assert t == Node(t.left, t.right);
    var c := Child(t, b);
    assert c.Node? ==> c == Node(c.left, c.right);
  }

  /** The path one node longer. */
  lemma PathGrows(ns: seq<(int, int)>, t: Tree, bits: seq<bit>, trees: seq<Tree>, stack: seq<int>)
    requires Path(ns, t, bits, trees, stack) && Child(trees[|bits| - 1], bits[|bits| - 1]).Node?
    ensures var n := |bits| - 1;
            var c, id := Child(trees[n], bits[n]), Branch(ns, stack[n], bits[n]);
            -|ns| <= id < 0 && Path(ns, t, bits + [0], trees + [c], stack + [0 - id])
  {
    hide Stands, Distinct;
    var n := |bits| - 1;
    ChildStands(ns, stack[n], trees[n], bits[n]);
  }

  /** Nothing is to the left of a new left branch. */
  lemma LeftDoneGrows(ns: seq<(int, int)>, bits: seq<bit>, trees: seq<Tree>, stack: seq<int>,
                      cw: seq<nat>, ln: seq<nat>, tb: nat, table: seq<int>, c: Tree, m: nat)
    requires LeftDone(ns, bits, trees, stack, cw, ln, tb, table) && c.Node? && 1 <= m <= |ns|
    requires |bits| == tb ==> Prefix(bits, tb) < |table| && table[Prefix(bits, tb)] == 0 - m
    ensures LeftDone(ns, bits + [0], trees + [c], stack + [m], cw, ln, tb, table)
  {
    hide Done, Prefix;
    forall d | 0 <= d <= |bits| ensures Prefix(bits + [0], d) == Prefix(bits, d) {
      PrefixSame(bits + [0], bits, d);
    }
  }

  /** Going down to a node by its left branch. */
  lemma PathDown(ns: seq<(int, int)>, t: Tree, bits: seq<bit>, trees: seq<Tree>, stack: seq<int>,
                 cw: seq<nat>, ln: seq<nat>, tb: nat, table: seq<int>)
    requires Path(ns, t, bits, trees, stack) && LeftDone(ns, bits, trees, stack, cw, ln, tb, table)
    requires Child(trees[|bits| - 1], bits[|bits| - 1]).Node?
    requires |bits| == tb ==> (Prefix(bits, tb) < |table| &&
               table[Prefix(bits, tb)] == Branch(ns, stack[|bits| - 1], bits[|bits| - 1]))
    ensures var n := |bits| - 1;
            var c, id := Child(trees[n], bits[n]), Branch(ns, stack[n], bits[n]);
            id < 0 && Path(ns, t, bits + [0], trees + [c], stack + [0 - id])
            && LeftDone(ns, bits + [0], trees + [c], stack + [0 - id], cw, ln, tb, table)
            && Waiting(bits + [0], trees + [c]) == Waiting(bits, trees) + LeafCount(c.right)
            && Prefix(bits + [0], n + 2) == 2 * Prefix(bits, n + 1)
  {
    hide Done, Stands, Distinct, Prefix, Branch, LeftDone;
    var n := |bits| - 1;
    var c, id := Child(trees[n], bits[n]), Branch(ns, stack[n], bits[n]);
    PathGrows(ns, t, bits, trees, stack);
    LeftDoneGrows(ns, bits, trees, stack, cw, ln, tb, table, c, 0 - id);
    assert (bits + [0])[..n + 1] == bits && (trees + [c])[..n + 1] == trees;
    PrefixStep(bits + [0], n + 1);
    PrefixSame(bits + [0], bits, n + 1);
  }

  /** Back up from a right branch: the node above is done. */
  lemma PathUp(ns: seq<(int, int)>, t: Tree, bits: seq<bit>, trees: seq<Tree>, stack: seq<int>,
               cw: seq<nat>, ln: seq<nat>, tb: nat, table: seq<int>)
    requires Path(ns, t, bits, trees, stack) && LeftDone(ns, bits, trees, stack, cw, ln, tb, table)
    requires Reached(ns, bits, trees, stack, cw, ln, tb, table) && bits[|bits| - 1] == 1
    ensures var n := |bits| - 1;
            if n == 0 then Coded(t, 0, 0, cw, ln) && (tb > 0 ==> Tabled(ns, -1, t, 0, 0, tb, table))
            else Path(ns, t, bits[..n], trees[..n], stack[..n])
                 && LeftDone(ns, bits[..n], trees[..n], stack[..n], cw, ln, tb, table)
                 && Reached(ns, bits[..n], trees[..n], stack[..n], cw, ln, tb, table)
                 && Waiting(bits[..n], trees[..n]) == Waiting(bits, trees)
                 && Prefix(bits[..n], n) == Prefix(bits, n + 1) / 2
  {
    hide Coded, Tabled, Stands, Distinct;
    var n := |bits| - 1;
    NodeDone(ns, t, bits, trees, stack, cw, ln, tb, table);
    PrefixStep(bits, n);
    if n == 0 {
      assert Prefix(bits, 0) == 0;
    } else {
      forall d | 0 <= d <= n ensures Prefix(bits[..n], d) == Prefix(bits, d) {
        PrefixSame(bits[..n], bits, d);
      }
    }
  }

  /** From a left branch that is done to the right branch. */
  lemma PathTurn(ns: seq<(int, int)>, t: Tree, bits: seq<bit>, trees: seq<Tree>, stack: seq<int>,
                 cw: seq<nat>, ln: seq<nat>, tb: nat, table: seq<int>)
    requires Path(ns, t, bits, trees, stack) && LeftDone(ns, bits, trees, stack, cw, ln, tb, table)
    requires Reached(ns, bits, trees, stack, cw, ln, tb, table) && bits[|bits| - 1] == 0
    ensures var n := |bits| - 1;
            var b := bits[n := 1];
            Path(ns, t, b, trees, stack) && LeftDone(ns, b, trees, stack, cw, ln, tb, table)
            && Waiting(b, trees) + LeafCount(trees[n].right) == Waiting(bits, trees)
            && Prefix(b, n + 1) == Prefix(bits, n + 1) + 1
  {
    hide Coded, Tabled, Stands, Distinct;
    var n := |bits| - 1;
    var b := bits[n := 1];
    assert b[..n] == bits[..n];
    PrefixStep(bits, n);
    PrefixStep(b, n);
    forall d | 0 <= d <= n ensures Prefix(b, d) == Prefix(bits, d) {
      PrefixSame(b, bits, d);
    }
  }

  lemma {:induction false} PathHeight(ns: seq<(int, int)>, t: Tree, bits: seq<bit>, trees: seq<Tree>,
                                      stack: seq<int>, d: nat)
    requires Path(ns, t, bits, trees, stack) && d < |trees|
    ensures Height(trees[d]) + d <= Height(t)
    decreases d
  {
    hide Stands, Distinct;
    if d > 0 {
      PathHeight(ns, t, bits, trees, stack, d - 1);
      assert trees[d - 1] == Node(trees[d - 1].left, trees[d - 1].right);
    }
  }

  // ---------------------------------------------------------------- the method

  lemma {:induction false} PrefixBound(bits: seq<bit>, d: nat)
    requires d <= |bits|
    ensures Prefix(bits, d) < Pow2(d)
    decreases d
  {
    if d > 0 {
      PrefixBound(bits, d - 1);
      PrefixStep(bits, d - 1);
    } else {
      assert bits[..0] == [];
    }
  }

  /** The places of a table that start with a code of n bits are next to each other. */
  lemma PlacesOf(code: nat, n: nat, tb: nat, x: nat)
    requires n <= tb && code < Pow2(n)
    ensures Times(code, Pow2(tb - n)) + Pow2(tb - n) <= Pow2(tb)
    ensures Start(x, n, tb) == code <==> Times(code, Pow2(tb - n)) <= x < Times(code, Pow2(tb - n)) + Pow2(tb - n)
  {
    var p := Pow2(tb - n);
    Pow2Add(n, tb - n);
    MulMono(code + 1, Pow2(n), p);
    Distrib(code, 1, p);
    DivAtLeast(x, p, code);
    DivAtLeast(x, p, code + 1);
  }

  /** Fills the places of the table that start with a leaf's code, from the last to the first. */
  method FillTable(table: array<int>, tb: nat, node: int, nb: nat, code: nat)
    requires nb <= tb && code < Pow2(nb) && table.Length == Pow2(tb)
    modifies table
    ensures forall x :: 0 <= x < table.Length ==> table[x] == if Start(x, nb, tb) == code then node else old(table[x])
  {
    hide Start, Pow2, Times;
    var db := tb - nb;
    var sc, k := Times(code, Pow2(db)), Pow2(db);
    PlacesOf(code, nb, tb, 0);
    while k > 0
      invariant 0 <= k <= Pow2(db)
      invariant forall x :: 0 <= x < table.Length ==>
                  table[x] == if sc + k <= x < sc + Pow2(db) then node else old(table[x])
    {
      k := k - 1;
      table[sc + k] := node;
    }
    forall x: nat | x < table.Length ensures Start(x, nb, tb) == code <==> sc <= x < sc + Pow2(db) {
      PlacesOf(code, nb, tb, x);
    }
  }

  /** The arrays the walk reads: the branches and the stack of node numbers. */
  ghost predicate Walking(left: array<int>, right: array<int>, stack: array<int>, depth: nat, code: nat, tb: nat,
                          ns: seq<(int, int)>, t: Tree, bits: seq<bit>, trees: seq<Tree>,
                          cw: seq<nat>, ln: seq<nat>, table: seq<int>)
    reads left, right, stack
  {
    && Branches(left, right, ns, 1) && stack.Length == 32 && depth < 32 && Height(t) <= 32
    && |bits| == depth + 1 && code == Prefix(bits, depth + 1)
    && (tb > 0 ==> |table| == Pow2(tb)) && Below(t, |cw|) && |cw| == |ln|
    && Path(ns, t, bits, trees, stack[..depth + 1])
    && LeftDone(ns, bits, trees, stack[..depth + 1], cw, ln, tb, table)
  }

  ghost function Todo(bits: seq<bit>, trees: seq<Tree>): (r: nat)
    requires 1 <= |bits| == |trees| && forall d :: 0 <= d < |trees| ==> trees[d].Node?
  {
    Waiting(bits, trees) + LeafCount(Child(trees[|bits| - 1], bits[|bits| - 1]))
  }

  /** One step down to a node: its number on the stack, and in the table if it is at tb bits. */
  method DownOne(left: array<int>, right: array<int>, stack: array<int>, table: array<int>, tb: nat,
                 depth: nat, code: nat, node: int, ghost ns: seq<(int, int)>, ghost t: Tree,
                 ghost bits: seq<bit>, ghost trees: seq<Tree>, ghost cw: seq<nat>, ghost ln: seq<nat>)
    requires Walking(left, right, stack, depth, code, tb, ns, t, bits, trees, cw, ln, table[..])
    requires left != stack && right != stack && table != left && table != right && table != stack
    requires node < 0 && Child(trees[depth], bits[depth]).Node? && depth + 1 < 32 && 0 - node <= |ns|
    requires node == Branch(ns, stack[depth], bits[depth])
    modifies stack, table
    ensures var c := Child(trees[depth], bits[depth]);
            Walking(left, right, stack, depth + 1, 2 * code, tb, ns, t, bits + [0], trees + [c], cw, ln, table[..])
            && Todo(bits + [0], trees + [c]) == Todo(bits, trees)
    ensures stack[depth + 1] == 0 - node
  {
    hide Coded, Tabled, Done, LeftDone, Stands, Distinct, Below, Prefix, Path, Waiting;
    ghost var s, before := stack[..depth + 1], table[..];
    LastBit(ns, t, bits, trees, s);
    PrefixBound(bits, depth + 1);
    if depth + 1 == tb {
      table[code] := node;
    }
    OnePlace(bits, tb, before, table[..]);
    LeftStaysDone(ns, t, bits, trees, s, cw, ln, tb, before, table[..]);
    PathDown(ns, t, bits, trees, s, cw, ln, tb, table[..]);
    stack[depth + 1] := 0 - node;
    assert stack[..depth + 2] == s + [0 - node];
    LeavesOfBoth(Child(trees[depth], bits[depth]));
  }

  lemma LeavesOfBoth(t: Tree)
    requires t.Node?
    ensures LeafCount(t) == LeafCount(t.left) + LeafCount(t.right)
  {
  }

  /** One step down, and the left branch of the node there. */
  method StepDown(left: array<int>, right: array<int>, stack: array<int>, table: array<int>, tb: nat,
                  depth: nat, code: nat, node: int, ghost ns: seq<(int, int)>, ghost t: Tree,
                  ghost bits: seq<bit>, ghost trees: seq<Tree>, ghost cw: seq<nat>, ghost ln: seq<nat>)
    returns (node': int, ghost c: Tree)
    requires Walking(left, right, stack, depth, code, tb, ns, t, bits, trees, cw, ln, table[..])
    requires left != stack && right != stack && table != left && table != right && table != stack
    requires node < 0 && node == Branch(ns, stack[depth], bits[depth])
    requires Stands(ns, node, Child(trees[depth], bits[depth]))
    modifies stack, table
    ensures c == Child(trees[depth], bits[depth]) && c.Node? && Height(Child(c, 0)) < Height(c)
    ensures Walking(left, right, stack, depth + 1, 2 * code, tb, ns, t, bits + [0], trees + [c], cw, ln, table[..])
    ensures Todo(bits + [0], trees + [c]) == Todo(bits, trees)
    ensures node' == Branch(ns, stack[depth + 1], 0) && Stands(ns, node', Child(c, 0))
  {
    hide Coded, Tabled, Done, LeftDone, Stands, Distinct, Below, Prefix, Waiting, LeafCount;
    c := Child(trees[depth], bits[depth]);
    ChildIsNode(ns, node, c);
    PathHeight(ns, t, bits, trees, stack[..depth + 1], depth);
    ChildHeight(trees[depth], bits[depth]);
    ChildHeight(c, 0);
    DownOne(left, right, stack, table, tb, depth, code, node, ns, t, bits, trees, cw, ln);
    node' := left[0 - node];
    HereStands(ns, t, bits + [0], trees + [c], stack[..depth + 2]);
  }

  /** Down the left branches to a leaf. */
  method Descend(left: array<int>, right: array<int>, stack: array<int>, table: array<int>, tb: nat,
                 depth: nat, code: nat, ghost ns: seq<(int, int)>, ghost t: Tree,
                 ghost bits: seq<bit>, ghost trees: seq<Tree>, ghost cw: seq<nat>, ghost ln: seq<nat>)
    returns (depth': nat, code': nat, node: int, ghost bits': seq<bit>, ghost trees': seq<Tree>)
    requires Walking(left, right, stack, depth, code, tb, ns, t, bits, trees, cw, ln, table[..])
    requires left != stack && right != stack && table != left && table != right && table != stack
    modifies stack, table
    ensures Walking(left, right, stack, depth', code', tb, ns, t, bits', trees', cw, ln, table[..])
    ensures node >= 0 && Child(trees'[depth'], bits'[depth']) == Leaf(node)
    ensures node == Branch(ns, stack[depth'], bits'[depth'])
    ensures Walked(bits', trees') && Walked(bits, trees) && Todo(bits', trees') == Todo(bits, trees)
    ensures Waiting(bits', trees') < Todo(bits', trees')
  {
    hide Coded, Tabled, Done, LeftDone, Stands, Distinct, Below, Prefix, Waiting, LeafCount;
    depth', code', bits', trees' := depth, code, bits, trees;
    PrefixStep(bits', depth');
    HereStands(ns, t, bits', trees', stack[..depth' + 1]);
    node := if code' % 2 == 0 then left[stack[depth']] else right[stack[depth']];
    while node < 0
      invariant Walking(left, right, stack, depth', code', tb, ns, t, bits', trees', cw, ln, table[..])
      invariant node == Branch(ns, stack[depth'], bits'[depth'])
      invariant Stands(ns, node, Child(trees'[depth'], bits'[depth']))
      invariant Todo(bits', trees') == Todo(bits, trees)
      decreases Height(Child(trees'[depth'], bits'[depth']))
    {
      ghost var c;
      node, c := StepDown(left, right, stack, table, tb, depth', code', node, ns, t, bits', trees', cw, ln);
      code' := 2 * code';
      depth' := depth' + 1;
      bits', trees' := bits' + [0], trees' + [c];
      hide Walking, Child, Branch;
    }
    ChildIsLeaf(ns, node, Child(trees'[depth'], bits'[depth']));
  }

  lemma ChildHeight(t: Tree, b: bit)
    requires t.Node?
    ensures Height(Child(t, b)) < Height(t)
    ensures Child(t, b).Node? ==> Height(Child(t, b)) >= 1
  {
  }

  lemma HereStands(ns: seq<(int, int)>, t: Tree, bits: seq<bit>, trees: seq<Tree>, stack: seq<int>)
    requires Path(ns, t, bits, trees, stack)
    ensures var n := |bits| - 1; Stands(ns, Branch(ns, stack[n], bits[n]), Child(trees[n], bits[n]))
  {
    var n := |bits| - 1;
    assert trees[n] == Node(trees[n].left, trees[n].right);
  }

  lemma ChildIsNode(ns: seq<(int, int)>, id: int, t: Tree)
    requires Stands(ns, id, t) && id < 0
    ensures t.Node? && 0 - id <= |ns| && Height(t.left) < Height(t)
  {
  }

  lemma ChildIsLeaf(ns: seq<(int, int)>, id: int, t: Tree)
    requires Stands(ns, id, t) && id >= 0
    ensures t == Leaf(id)
  {
  }

  lemma OnePlace(bits: seq<bit>, tb: nat, table: seq<int>, table': seq<int>)
    requires |table| == |table'| && Prefix(bits, |bits|) < Pow2(|bits|)
    requires |bits| != tb ==> table' == table
    requires |bits| == tb ==> forall x :: 0 <= x < |table| && x != Prefix(bits, |bits|) ==> table'[x] == table[x]
    ensures WrittenUnder(bits, tb, table, table')
  {
    if |bits| == tb {
      forall x: nat ensures Start(x, |bits|, tb) == x {
        assert Pow2(0) == 1;
      }
    }
  }

  /** The codeword, the length and the table places of the leaf the walk has reached. */
  method WriteLeaf(left: array<int>, right: array<int>, stack: array<int>, table: array<int>, tb: nat,
                   cw: array<nat>, ln: array<nat>, depth: nat, code: nat, node: nat,
                   ghost ns: seq<(int, int)>, ghost t: Tree, ghost bits: seq<bit>, ghost trees: seq<Tree>)
    requires Walking(left, right, stack, depth, code, tb, ns, t, bits, trees, cw[..], ln[..], table[..])
    requires table != left && table != right && table != stack && cw != ln
    requires Child(trees[depth], bits[depth]) == Leaf(node) && node == Branch(ns, stack[depth], bits[depth])
    modifies table, cw, ln
    ensures Walking(left, right, stack, depth, code, tb, ns, t, bits, trees, cw[..], ln[..], table[..])
    ensures Reached(ns, bits, trees, stack[..depth + 1], cw[..], ln[..], tb, table[..])
  {
    hide Coded, LeftDone, Stands, Distinct, Prefix, Waiting, Start;
    ghost var s, before, c0, l0 := stack[..depth + 1], table[..], cw[..], ln[..];
    LeafInside(ns, t, bits, trees, s, |c0|);
    PrefixBound(bits, depth + 1);
    LeftStaysCoded(ns, t, bits, trees, s, c0, l0, tb, before, node, code, depth + 1);
    var nb: nat := depth + 1;
    cw[node] := code;
    ln[node] := nb;
    assert cw[..] == c0[node := code] && ln[..] == l0[node := nb];
    if nb <= tb {
      FillTable(table, tb, node, nb, code);
    }
    LeftStaysDone(ns, t, bits, trees, s, cw[..], ln[..], tb, before, table[..]);
    LeafReached(ns, bits, trees, s, cw[..], ln[..], tb, table[..], node);
  }

  lemma LeafInside(ns: seq<(int, int)>, t: Tree, bits: seq<bit>, trees: seq<Tree>, stack: seq<int>, n: nat)
    requires Path(ns, t, bits, trees, stack) && Below(t, n) && Child(trees[|bits| - 1], bits[|bits| - 1]).Leaf?
    ensures Child(trees[|bits| - 1], bits[|bits| - 1]).sym < n
    ensures Child(trees[|bits| - 1], bits[|bits| - 1]).sym in Symbols(Child(trees[|bits| - 1], bits[|bits| - 1]))
  {
    PathBelow(ns, t, bits, trees, stack, n, |bits| - 1);
    assert trees[|bits| - 1] == Node(trees[|bits| - 1].left, trees[|bits| - 1].right);
  }

  lemma {:induction false} PathBelow(ns: seq<(int, int)>, t: Tree, bits: seq<bit>, trees: seq<Tree>, stack: seq<int>,
                                     n: nat, d: nat)
    requires Path(ns, t, bits, trees, stack) && Below(t, n) && d < |bits|
    ensures Below(trees[d], n)
    decreases d
  {
    hide Stands, Distinct;
    if d > 0 {
      PathBelow(ns, t, bits, trees, stack, n, d - 1);
      assert trees[d - 1] == Node(trees[d - 1].left, trees[d - 1].right);
    }
  }

  lemma LeafReached(ns: seq<(int, int)>, bits: seq<bit>, trees: seq<Tree>, stack: seq<int>,
                    cw: seq<nat>, ln: seq<nat>, tb: nat, table: seq<int>, node: nat)
    requires 1 <= |bits| == |trees| == |stack| && trees[|bits| - 1].Node? && 1 <= stack[|bits| - 1] <= |ns|
    requires Child(trees[|bits| - 1], bits[|bits| - 1]) == Leaf(node) && node < |cw| && node < |ln|
    requires node == Branch(ns, stack[|bits| - 1], bits[|bits| - 1])
    requires cw[node] == Prefix(bits, |bits|) && ln[node] == |bits|
    requires |bits| <= tb ==> |table| == Pow2(tb) && Prefix(bits, |bits|) < Pow2(|bits|)
    requires |bits| <= tb ==>
               forall x :: 0 <= x < |table| && Start(x, |bits|, tb) == Prefix(bits, |bits|) ==> table[x] == node
    ensures Reached(ns, bits, trees, stack, cw, ln, tb, table)
  {
    hide Prefix;
    if |bits| == tb {
      assert Pow2(0) == 1 && Start(Prefix(bits, |bits|), tb, tb) == Prefix(bits, |bits|);
    }
  }

  /** Back up over right branches, then over to the next right branch; below 0 the whole tree is done. */
  method Backtrack(left: array<int>, right: array<int>, stack: array<int>, from: nat, code: nat, tb: nat,
                   ghost ns: seq<(int, int)>, ghost t: Tree, ghost bits: seq<bit>, ghost trees: seq<Tree>,
                   ghost cw: seq<nat>, ghost ln: seq<nat>, ghost table: seq<int>)
    returns (depth: int, code': nat, ghost bits': seq<bit>, ghost trees': seq<Tree>)
    requires Walking(left, right, stack, from, code, tb, ns, t, bits, trees, cw, ln, table)
    requires Reached(ns, bits, trees, stack[..from + 1], cw, ln, tb, table)
    ensures -1 <= depth <= from
    ensures depth < 0 ==> Coded(t, 0, 0, cw, ln) && (tb > 0 ==> Tabled(ns, -1, t, 0, 0, tb, table))
    ensures depth >= 0 ==> Walking(left, right, stack, depth, code', tb, ns, t, bits', trees', cw, ln, table)
    ensures Walked(bits, trees) && (depth >= 0 ==> Walked(bits', trees') && Todo(bits', trees') <= Waiting(bits, trees))
  {
    hide Coded, Tabled, Done, LeftDone, Stands, Distinct, Below, Prefix, Path, Reached, Waiting, LeafCount;
    depth, code', bits', trees' := from, code, bits, trees;
    LastBit(ns, t, bits', trees', stack[..depth + 1]);
    while code' % 2 == 1
      invariant 0 <= depth <= from
      invariant Walking(left, right, stack, depth, code', tb, ns, t, bits', trees', cw, ln, table)
      invariant Reached(ns, bits', trees', stack[..depth + 1], cw, ln, tb, table)
      invariant Walked(bits', trees') && code' % 2 == bits'[depth] && Waiting(bits', trees') == Waiting(bits, trees)
      decreases depth
    {
      PathUp(ns, t, bits', trees', stack[..depth + 1], cw, ln, tb, table);
      code' := code' / 2;
      depth := depth - 1;
      if depth < 0 {
        return;
      }
      assert stack[..depth + 2][..depth + 1] == stack[..depth + 1];
      bits', trees' := bits'[..depth + 1], trees'[..depth + 1];
      LastBit(ns, t, bits', trees', stack[..depth + 1]);
    }
    PathTurn(ns, t, bits', trees', stack[..depth + 1], cw, ln, tb, table);
    code' := code' + 1;
    bits' := bits'[depth := 1];
    LastBit(ns, t, bits', trees', stack[..depth + 1]);
  }

  ghost predicate Walked(bits: seq<bit>, trees: seq<Tree>) { 1 <= |bits| == |trees| && PathNodes(trees) }

  /** At the root nothing has been done yet and nothing is to the left. */
  lemma AtRoot(ns: seq<(int, int)>, t: Tree, cw: seq<nat>, ln: seq<nat>, tb: nat, table: seq<int>)
    requires t.Node? && Stands(ns, -1, t) && Distinct(t)
    ensures Path(ns, t, [0], [t], [1]) && LeftDone(ns, [0], [t], [1], cw, ln, tb, table)
    ensures Prefix([0], 1) == 0
  {
    PrefixStep([0], 0);
    assert Prefix([0], 0) == 0;
  }

  ghost predicate PathNodes(trees: seq<Tree>) { forall d :: 0 <= d < |trees| ==> trees[d].Node? }

  lemma LastBit(ns: seq<(int, int)>, t: Tree, bits: seq<bit>, trees: seq<Tree>, stack: seq<int>)
    requires Path(ns, t, bits, trees, stack)
    ensures bits != [] && Prefix(bits, |bits|) % 2 == bits[|bits| - 1] && PathNodes(trees) && |trees| == |bits|
  {
    PrefixStep(bits, |bits| - 1);
  }

  /** Both Set_Huffman_Code: without a decoder table, tb is 0. */
  method SetHuffmanCode(left: array<int>, right: array<int>, table: array<int>, tb: nat,
                        cw: array<nat>, ln: array<nat>, ghost ns: seq<(int, int)>, ghost t: Tree)
    requires Branches(left, right, ns, 1) && Stands(ns, -1, t) && t.Node? && Distinct(t) && Height(t) <= 32
    requires Below(t, cw.Length) && cw.Length == ln.Length && (tb > 0 ==> table.Length == Pow2(tb))
    requires table != left && table != right && cw != ln
    modifies table, cw, ln
    ensures Coded(t, 0, 0, cw[..], ln[..]) && (tb > 0 ==> Tabled(ns, -1, t, 0, 0, tb, table[..]))
  {
    hide Coded, Tabled, LeftDone, Stands, Distinct, Below, Prefix, Path, Reached, Waiting, LeafCount;
    var stack := new int[32](_ => 0);
    stack[0] := 1;
    var depth: int, code: nat := 0, 0;
    ghost var bits: seq<bit>, trees: seq<Tree> := [0], [t];
    assert stack[..1] == [1];
    AtRoot(ns, t, cw[..], ln[..], tb, table[..]);
    while depth >= 0
      invariant -1 <= depth < 32
      invariant depth < 0 ==> Coded(t, 0, 0, cw[..], ln[..]) && (tb > 0 ==> Tabled(ns, -1, t, 0, 0, tb, table[..]))
      invariant depth >= 0 ==>
                  Walking(left, right, stack, depth, code, tb, ns, t, bits, trees, cw[..], ln[..], table[..])
      invariant depth >= 0 ==> Walked(bits, trees)
      decreases depth >= 0, if Walked(bits, trees) then Todo(bits, trees) else 0
      modifies stack, table, cw, ln
    {
      var node;
      hide Walking;
      depth, code, node, bits, trees :=
        Descend(left, right, stack, table, tb, depth, code, ns, t, bits, trees, cw[..], ln[..]);
      WriteLeaf(left, right, stack, table, tb, cw, ln, depth, code, node, ns, t, bits, trees);
      depth, code, bits, trees :=
        Backtrack(left, right, stack, depth, code, tb, ns, t, bits, trees, cw[..], ln[..], table[..]);
    }
  }
}
