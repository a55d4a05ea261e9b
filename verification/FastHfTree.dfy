/**
 * FastHF's Huffman tree as a function of the counts: the heap that is consumed, the nodes it leaves
 * behind, and what makes the tree full, complete and shallow.
 */
module FastHfTree {
  import opened SymbolCounts

  datatype Item = Item(count: nat, id: int)
  datatype Tree = Leaf(sym: nat) | Node(left: Tree, right: Tree)

  // ---------------------------------------------------------------- the heap

  /** The count at place i, counted from 1. */
  function At(h: seq<Item>, i: nat): (r: nat)
    requires 1 <= i <= |h|
  {
    h[i - 1].count
  }

  /** The lighter child of place i, counted from 1, in a heap of n. */
  function LightChild(h: seq<Item>, i: nat): (j: nat)
    requires 1 <= i && 2 * i <= |h|
    ensures 2 * i <= j <= 2 * i + 1 && j <= |h|
    ensures forall c :: 2 * i <= c <= 2 * i + 1 && c <= |h| ==> At(h, j) <= At(h, c)
  {
    if 2 * i < |h| && At(h, 2 * i) > At(h, 2 * i + 1) then 2 * i + 1 else 2 * i
  }

  /** Lets x sink from place i to where no child is lighter. */
  function Sift(h: seq<Item>, i: nat, x: Item): (r: seq<Item>)
    requires 1 <= i <= |h|
    ensures |r| == |h|
    decreases |h| - i
  {
    if 2 * i > |h| then h[i - 1 := x]
    else
      var j := LightChild(h, i);
      if x.count <= At(h, j) then h[i - 1 := x] else Sift(h[i - 1 := h[j - 1]], j, x)
  }

  /** No place from k on is lighter than its parent, if that is also from k on. */
  ghost predicate HeapFrom(h: seq<Item>, k: nat) {
    1 <= k && forall i :: 2 * k <= i <= |h| ==> At(h, i / 2) <= At(h, i)
  }

  /** Like a heap from k on, but for the children of place i, which are not below its parent. */
  ghost predicate Hole(h: seq<Item>, k: nat, i: nat) {
    && 1 <= k <= i <= |h|
    && (forall c :: 2 * k <= c <= |h| && c / 2 != i && c != i ==> At(h, c / 2) <= At(h, c))
    && (forall c :: 2 * i <= c <= 2 * i + 1 && c <= |h| && 2 * k <= i ==> At(h, i / 2) <= At(h, c))
  }

  lemma {:induction false} SiftHeap(h: seq<Item>, k: nat, i: nat, x: Item)
    requires Hole(h, k, i) && (2 * k <= i ==> At(h, i / 2) <= x.count)
    ensures HeapFrom(Sift(h, i, x), k)
    decreases |h| - i
  {
    if 2 * i <= |h| {
      var j := LightChild(h, i);
      if x.count > At(h, j) {
        MovedUp(h, k, i, j);
        SiftHeap(h[i - 1 := h[j - 1]], k, j, x);
      }
    }
  }

  /** Moving the lighter child up moves the hole down. */
  lemma MovedUp(h: seq<Item>, k: nat, i: nat, j: nat)
    requires Hole(h, k, i) && 2 * i <= |h| && j == LightChild(h, i)
    ensures Hole(h[i - 1 := h[j - 1]], k, j)
  {
    var g := h[i - 1 := h[j - 1]];
    assert forall c :: 1 <= c <= |h| && c != i ==> At(g, c) == At(h, c);
    assert At(g, i) == At(h, j);
    forall c | 2 * k <= c <= |g| && c / 2 != j && c != j ensures At(g, c / 2) <= At(g, c) {
      if c == i {
        assert At(h, i / 2) <= At(h, j);
      }
    }
    forall c | 2 * j <= c <= 2 * j + 1 && c <= |g| && 2 * k <= j ensures At(g, j / 2) <= At(g, c) {
      assert j / 2 == i && c / 2 == j;
      assert At(h, c / 2) <= At(h, c);
    }
  }

  lemma {:induction false} SiftMultiset(h: seq<Item>, i: nat, x: Item)
    requires 1 <= i <= |h|
    ensures multiset(Sift(h, i, x)) == multiset(h) - multiset{h[i - 1]} + multiset{x}
    decreases |h| - i
  {
    if 2 * i <= |h| {
      var j := LightChild(h, i);
      if x.count > At(h, j) {
        SiftMultiset(h[i - 1 := h[j - 1]], j, x);
        Replaced(h, i - 1, h[j - 1]);
        Exchange(multiset(h), h[i - 1], h[j - 1], x);
      } else {
        Replaced(h, i - 1, x);
      }
    } else {
      Replaced(h, i - 1, x);
    }
  }

  lemma Replaced(h: seq<Item>, i: nat, x: Item)
    requires i < |h|
    ensures multiset(h[i := x]) == multiset(h) - multiset{h[i]} + multiset{x} && h[i] in multiset(h)
  {
  }

  lemma Exchange(m: multiset<Item>, a: Item, b: Item, x: Item)
    requires a in m
    ensures m - multiset{a} + multiset{b} - multiset{b} + multiset{x} == m - multiset{a} + multiset{x}
  {
  }

  function Counts(h: seq<Item>): (n: nat)
  {
    if h == [] then 0 else Counts(h[..|h| - 1]) + h[|h| - 1].count
  }

  lemma {:induction false} CountsUpdate(h: seq<Item>, i: nat, x: Item)
    requires i < |h|
    ensures Counts(h[i := x]) + h[i].count == Counts(h) + x.count
    decreases |h|
  {
    var n := |h| - 1;
    if i < n {
      CountsUpdate(h[..n], i, x);
      assert h[i := x][..n] == h[..n][i := x];
    } else {
      assert h[i := x][..n] == h[..n];
    }
  }

  lemma {:induction false} SiftCounts(h: seq<Item>, i: nat, x: Item)
    requires 1 <= i <= |h|
    ensures Counts(Sift(h, i, x)) + h[i - 1].count == Counts(h) + x.count
    decreases |h| - i
  {
    hide Counts;
    CountsUpdate(h, i - 1, x);
    if 2 * i <= |h| {
      var j := LightChild(h, i);
      if x.count > At(h, j) {
        CountsUpdate(h, i - 1, h[j - 1]);
        SiftCounts(h[i - 1 := h[j - 1]], j, x);
      }
    }
  }

  lemma {:induction false} RootIsLeast(h: seq<Item>, i: nat)
    requires HeapFrom(h, 1) && 1 <= i <= |h|
    ensures At(h, 1) <= At(h, i)
  {
    if i > 1 {
      RootIsLeast(h, i / 2);
    }
  }

  // ---------------------------------------------------------------- building and consuming

  function Leaves(counts: seq<nat>): (h: seq<Item>)
    ensures |h| == |counts|
  {
    seq(|counts|, i requires 0 <= i < |counts| => Item(counts[i], i))
  }

  /** The heap once the places from k on are in order. */
  function HeapAt(counts: seq<nat>, k: nat): (h: seq<Item>)
    requires 1 <= k <= |counts| / 2 + 1
    ensures |h| == |counts|
    decreases |counts| - k
  {
    if k == |counts| / 2 + 1 then Leaves(counts)
    else Sift(HeapAt(counts, k + 1), k, Item(counts[k - 1], k - 1))
  }

  /** The first of the two least items has been taken away. */
  function Without(h: seq<Item>): (r: seq<Item>)
    requires |h| >= 3
    ensures |r| == |h| - 1
  {
    Sift(h[..|h| - 1], 1, h[|h| - 1])
  }

  /** The two least items have become one, under the number of the node that joins them. */
  function Joined(h: seq<Item>): (r: seq<Item>)
    requires |h| >= 3
    ensures |r| == |h| - 1
  {
    Sift(Without(h), 1, Item(h[0].count + Without(h)[0].count, 1 - |h|))
  }

  /** The nodes 1..n - 1 that consuming a heap of n leaves behind. */
  function Nodes(h: seq<Item>): (ns: seq<(int, int)>)
    requires |h| >= 2
    ensures |ns| == |h| - 1
    decreases |h|
  {
    if |h| == 2 then [(h[0].id, h[1].id)]
    else Nodes(Joined(h)) + [(h[0].id, Without(h)[0].id)]
  }

  /** The tree made of the trees the items stand for. */
  function Combine(h: seq<Item>, t: map<int, Tree>): (t': Tree)
    requires |h| >= 2 && forall i :: 0 <= i < |h| ==> h[i].id in t
    decreases |h|
  {
    if |h| == 2 then Node(t[h[0].id], t[h[1].id])
    else
      JoinedIds(h, t);
      Combine(Joined(h), t[1 - |h| := Node(t[h[0].id], t[Without(h)[0].id])])
  }

  lemma JoinedIds(h: seq<Item>, t: map<int, Tree>)
    requires |h| >= 3 && forall i :: 0 <= i < |h| ==> h[i].id in t
    ensures forall i :: 0 <= i < |h| - 1 ==> Without(h)[i].id in t
    ensures forall i :: 0 <= i < |h| - 1 ==> Joined(h)[i].id == 1 - |h| || Joined(h)[i].id in t
  {
    hide Sift, Without, Joined;
    WithoutMultiset(h);
    forall i | 0 <= i < |h| - 1 ensures Without(h)[i].id in t {
      assert Without(h)[i] in multiset(Without(h));
      assert Without(h)[i] in multiset(h);
    }
    JoinedMultiset(h);
    forall i | 0 <= i < |h| - 1 ensures Joined(h)[i].id == 1 - |h| || Joined(h)[i].id in t {
      assert Joined(h)[i] in multiset(Joined(h));
    }
  }

  lemma WithoutMultiset(h: seq<Item>)
    requires |h| >= 3
    ensures multiset(Without(h)) == multiset(h) - multiset{h[0]}
  {
    hide Sift;
    var n := |h| - 1;
    SiftMultiset(h[..n], 1, h[n]);
    assert h == h[..n] + [h[n]];
  }

  lemma JoinedMultiset(h: seq<Item>)
    requires |h| >= 3
    ensures var b := Without(h)[0];
            multiset(Joined(h)) ==
            multiset(h) - multiset{h[0]} - multiset{b} + multiset{Item(h[0].count + b.count, 1 - |h|)}
  {
    hide Sift;
    WithoutMultiset(h);
    SiftMultiset(Without(h), 1, Item(h[0].count + Without(h)[0].count, 1 - |h|));
  }

  lemma {:induction false} SiftAbove(h: seq<Item>, i: nat, x: Item)
    requires 1 <= i <= |h|
    ensures forall p :: 0 <= p < i - 1 ==> Sift(h, i, x)[p] == h[p]
    decreases |h| - i
  {
    if 2 * i <= |h| {
      var j := LightChild(h, i);
      if x.count > At(h, j) {
        SiftAbove(h[i - 1 := h[j - 1]], j, x);
      }
    }
  }

  /** The first loop makes a heap of all symbols. */
  lemma {:induction false} HeapBuilt(counts: seq<nat>, k: nat)
    requires counts != [] && 1 <= k <= |counts| / 2 + 1
    ensures var h := HeapAt(counts, k);
            HeapFrom(h, k) && multiset(h) == multiset(Leaves(counts)) && Counts(h) == Counts(Leaves(counts))
            && forall p :: 0 <= p < k - 1 ==> h[p] == Item(counts[p], p)
    decreases |counts| - k
  {
    hide Sift, Counts, HeapFrom;
    if k <= |counts| / 2 {
      HeapBuilt(counts, k + 1);
      SiftKeeps(HeapAt(counts, k + 1), k, Item(counts[k - 1], k - 1));
    } else {
      UpperHalf(Leaves(counts), k);
    }
  }

  /** Sifting the item at place k down changes nothing but the order from k on. */
  lemma SiftKeeps(h: seq<Item>, k: nat, x: Item)
    requires 1 <= k <= |h| && HeapFrom(h, k + 1) && h[k - 1] == x
    ensures var r := Sift(h, k, x);
            HeapFrom(r, k) && multiset(r) == multiset(h) && Counts(r) == Counts(h)
            && forall p :: 0 <= p < k - 1 ==> r[p] == h[p]
  {
    SiftHeap(h, k, k, x);
    hide Sift, Counts, HeapFrom;
    SiftMultiset(h, k, x);
    SiftCounts(h, k, x);
    SiftAbove(h, k, x);
    assert x in multiset(h);
  }

  lemma UpperHalf(h: seq<Item>, k: nat)
    requires k == |h| / 2 + 1
    ensures HeapFrom(h, k)
  {
  }

  lemma StaysHeap(h: seq<Item>)
    requires |h| >= 3 && HeapFrom(h, 1)
    ensures HeapFrom(Without(h), 1) && HeapFrom(Joined(h), 1)
    ensures Counts(Joined(h)) == Counts(h)
  {
    hide Sift, Counts;
    var n := |h| - 1;
    var g := h[..n];
    assert forall i :: 1 <= i <= n ==> At(g, i) == At(h, i);
    SiftHeap(g, 1, 1, h[n]);
    SiftCounts(g, 1, h[n]);
    CountsSplit(h);
    var b := Item(h[0].count + Without(h)[0].count, 1 - |h|);
    SiftHeap(Without(h), 1, 1, b);
    SiftCounts(Without(h), 1, b);
  }

  lemma CountsSplit(h: seq<Item>)
    requires h != []
    ensures Counts(h) == Counts(h[..|h| - 1]) + h[|h| - 1].count
  {
  }

  // ---------------------------------------------------------------- trees

  function Symbols(t: Tree): (s: set<nat>) {
    match t
    case Leaf(s) => {s}
    case Node(l, r) => Symbols(l) + Symbols(r)
  }

  predicate Below(t: Tree, n: nat) {
    match t
    case Leaf(s) => s < n
    case Node(l, r) => Below(l, n) && Below(r, n)
  }

  /** No symbol is at two leaves. */
  predicate Distinct(t: Tree) {
    match t
    case Leaf(_) => true
    case Node(l, r) => Distinct(l) && Distinct(r) && Symbols(l) !! Symbols(r)
  }

  function Weight(t: Tree, counts: seq<nat>): (w: nat) {
    match t
    case Leaf(s) => if s < |counts| then counts[s] else 0
    case Node(l, r) => Weight(l, counts) + Weight(r, counts)
  }

  function Height(t: Tree): (d: nat) {
    match t
    case Leaf(_) => 0
    case Node(l, r) => 1 + if Height(l) < Height(r) then Height(r) else Height(l)
  }

  /** Neither child of t weighs more than w. */
  predicate KidsAtMost(t: Tree, counts: seq<nat>, w: nat) {
    t.Node? ==> Weight(t.left, counts) <= w && Weight(t.right, counts) <= w
  }

  /** No node weighs more than the sibling of its parent. */
  predicate Greedy(t: Tree, counts: seq<nat>) {
    t.Node? ==>
      && Greedy(t.left, counts) && Greedy(t.right, counts)
      && KidsAtMost(t.left, counts, Weight(t.right, counts))
      && KidsAtMost(t.right, counts, Weight(t.left, counts))
  }

  function Fib(n: nat): (f: nat) { if n < 2 then n else Fib(n - 1) + Fib(n - 2) }

  lemma {:induction false} FibMono(a: nat, b: nat)
    requires 1 <= a <= b
    ensures Fib(a) <= Fib(b)
    decreases b
  {
    if a < b {
      FibMono(a, b - 1);
    }
  }

  /** A deep tree built by joining the two lightest is heavy. */
  lemma {:induction false} DeepIsHeavy(t: Tree, counts: seq<nat>)
    requires Greedy(t, counts) && AllPositive(counts) && Below(t, |counts|)
    ensures Weight(t, counts) >= Fib(Height(t) + 2)
  {
    match t {
      case Leaf(s) =>
      case Node(l, r) =>
        DeepIsHeavy(l, counts);
        DeepIsHeavy(r, counts);
        if Height(l) >= Height(r) {
          UncleIsHeavy(l, r, counts);
        } else {
          UncleIsHeavy(r, l, counts);
        }
    }
  }

  lemma {:induction false} UncleIsHeavy(a: Tree, b: Tree, counts: seq<nat>)
    requires Greedy(a, counts) && KidsAtMost(a, counts, Weight(b, counts)) && AllPositive(counts)
    requires Below(a, |counts|)
    requires Weight(b, counts) >= Fib(Height(b) + 2)
    ensures Weight(b, counts) >= Fib(Height(a) + 1)
    decreases a, 0
  {
    if a.Node? {
      DeepIsHeavy(a.left, counts);
      DeepIsHeavy(a.right, counts);
    } else {
      FibMono(1, Height(b) + 2);
    }
  }

  // ---------------------------------------------------------------- the forest in the heap

  /** What every item of the heap is, with its tree. */
  ghost predicate ItemOk(x: Item, t: map<int, Tree>, counts: seq<nat>) {
    x.id in t && x.count == Weight(t[x.id], counts) && Greedy(t[x.id], counts) && Distinct(t[x.id])
    && Below(t[x.id], |counts|)
  }

  ghost predicate Apart(x: Item, y: Item, t: map<int, Tree>)
    requires x.id in t && y.id in t
  {
    x.id != y.id && Symbols(t[x.id]) !! Symbols(t[y.id])
  }

  ghost predicate Found(m: multiset<Item>, t: map<int, Tree>, s: nat) {
    exists x :: x in m && x.id in t && s in Symbols(t[x.id])
  }

  /** The items of the heap stand for disjoint trees that hold every symbol; no node is too heavy. */
  ghost predicate Forest(m: multiset<Item>, t: map<int, Tree>, counts: seq<nat>) {
    && (forall x :: x in m ==> ItemOk(x, t, counts) && m[x] == 1)
    && (forall x, y :: x in m && y in m && x != y ==> Apart(x, y, t))
    && (forall x, y :: x in m && y in m ==> KidsAtMost(t[x.id], counts, y.count))
    && (forall s :: 0 <= s < |counts| ==> Found(m, t, s))
  }

  /** Joining the two lightest keeps the forest. */
  lemma ForestJoined(m: multiset<Item>, t: map<int, Tree>, counts: seq<nat>, a: Item, b: Item, id: int)
    requires Forest(m, t, counts) && a in m && b in m && a != b
    requires forall x :: x in m ==> a.count <= x.count && (x != a ==> b.count <= x.count) && x.id != id
    ensures var c := Item(a.count + b.count, id);
            Forest(m - multiset{a} - multiset{b} + multiset{c}, t[id := Node(t[a.id], t[b.id])], counts)
  {
    hide Symbols, Weight, Distinct, Greedy, Below, KidsAtMost;
    var c := Item(a.count + b.count, id);
    var m' := m - multiset{a} - multiset{b} + multiset{c};
    var t' := t[id := Node(t[a.id], t[b.id])];
    assert Apart(a, b, t);
    forall x | x in m' ensures ItemOk(x, t', counts) && m'[x] == 1 && (x != c ==> x in m && x != a && x != b) {
      if x == c {
        JoinedOk(t[a.id], t[b.id], counts);
      }
    }
    forall x | x in m' && x != c ensures Apart(x, c, t') && Apart(c, x, t') {
      assert Apart(x, a, t) && Apart(x, b, t);
      SymbolsOfNode(t[a.id], t[b.id]);
    }
    forall x, y | x in m' && y in m' ensures KidsAtMost(t'[x.id], counts, y.count) {
      KidsOfJoined(m, t, counts, a, b, c, x, y);
    }
    forall s | 0 <= s < |counts| ensures Found(m', t', s) {
      StillFound(m, t, a, b, c, s);
    }
  }

  lemma JoinedOk(a: Tree, b: Tree, counts: seq<nat>)
    requires Greedy(a, counts) && Greedy(b, counts) && Distinct(a) && Distinct(b) && Symbols(a) !! Symbols(b)
    requires Below(a, |counts|) && Below(b, |counts|)
    requires KidsAtMost(a, counts, Weight(b, counts)) && KidsAtMost(b, counts, Weight(a, counts))
    ensures Greedy(Node(a, b), counts) && Distinct(Node(a, b)) && Below(Node(a, b), |counts|)
    ensures Weight(Node(a, b), counts) == Weight(a, counts) + Weight(b, counts)
  {
  }

  lemma SymbolsOfNode(a: Tree, b: Tree)
    ensures Symbols(Node(a, b)) == Symbols(a) + Symbols(b)
  {
  }

  lemma KidsOfJoined(m: multiset<Item>, t: map<int, Tree>, counts: seq<nat>, a: Item, b: Item, c: Item,
                     x: Item, y: Item)
    requires Forest(m, t, counts) && a in m && b in m && a != b && c.count == a.count + b.count
    requires forall z :: z in m ==> a.count <= z.count && (z != a ==> b.count <= z.count) && z.id != c.id
    requires x == c || (x in m && x != a && x != b)
    requires y == c || (y in m && y != a && y != b)
    ensures KidsAtMost(t[c.id := Node(t[a.id], t[b.id])][x.id], counts, y.count)
  {
    hide Symbols, Greedy, Distinct, Below, Found, Apart;
    if x != c {
      assert KidsAtMost(t[x.id], counts, a.count);
    }
  }

  lemma StillFound(m: multiset<Item>, t: map<int, Tree>, a: Item, b: Item, c: Item, s: nat)
    requires Found(m, t, s) && a in m && b in m && a != b && c !in m && a.id in t && b.id in t
    requires forall x :: x in m ==> x.id != c.id
    ensures Found(m - multiset{a} - multiset{b} + multiset{c}, t[c.id := Node(t[a.id], t[b.id])], s)
  {
    hide Symbols;
    var m', t' := m - multiset{a} - multiset{b} + multiset{c}, t[c.id := Node(t[a.id], t[b.id])];
    var x :| x in m && x.id in t && s in Symbols(t[x.id]);
    SymbolsOfNode(t[a.id], t[b.id]);
    if x == a || x == b {
      assert c in m' && s in Symbols(t'[c.id]);
    } else {
      assert x in m' && s in Symbols(t'[x.id]);
    }
  }

  /** Node numbers already given out are those of places that have left the heap. */
  ghost predicate Numbered(h: seq<Item>) {
    forall i :: 0 <= i < |h| ==> h[i].id >= 0 || h[i].id <= 0 - |h|
  }

  ghost predicate Consumable(h: seq<Item>, t: map<int, Tree>, counts: seq<nat>) {
    |h| >= 2 && HeapFrom(h, 1) && Numbered(h) && Forest(multiset(h), t, counts)
  }

  lemma LeastFirst(h: seq<Item>, x: Item)
    requires h != [] && HeapFrom(h, 1) && x in multiset(h)
    ensures h[0].count <= x.count
  {
    var i :| 0 <= i < |h| && h[i] == x;
    RootIsLeast(h, i + 1);
  }

  /** The two items taken in a round are the least ones, and the new node's number is not in use. */
  lemma TwoLeast(h: seq<Item>, x: Item)
    requires |h| >= 3 && HeapFrom(h, 1) && Numbered(h) && x in multiset(h)
    ensures h[0].count <= x.count && x.id != 1 - |h| && (x != h[0] ==> Without(h)[0].count <= x.count)
  {
    hide Sift, Without, HeapFrom;
    LeastFirst(h, x);
    WithoutMultiset(h);
    StaysHeap(h);
    if x != h[0] {
      assert x in multiset(Without(h));
      LeastFirst(Without(h), x);
    }
    var i :| 0 <= i < |h| && h[i] == x;
  }

  lemma RoundTakes(h: seq<Item>, t: map<int, Tree>, counts: seq<nat>)
    requires |h| >= 3 && Consumable(h, t, counts)
    ensures var m, a, b := multiset(h), h[0], Without(h)[0];
            a in m && b in m && a != b
            && forall x :: x in m ==> a.count <= x.count && (x != a ==> b.count <= x.count) && x.id != 1 - |h|
  {
    hide Sift, ItemOk, Apart, Found, KidsAtMost, Without, HeapFrom, Numbered;
    var m, a, b := multiset(h), h[0], Without(h)[0];
    WithoutMultiset(h);
    assert a in m && b in multiset(Without(h)) && m[a] == 1;
    forall x | x in m ensures a.count <= x.count && (x != a ==> b.count <= x.count) && x.id != 1 - |h| {
      TwoLeast(h, x);
    }
  }

  /** One round of the main loop keeps everything the loop relies on. */
  lemma RoundKeeps(h: seq<Item>, t: map<int, Tree>, counts: seq<nat>)
    requires |h| >= 3 && Consumable(h, t, counts) && forall i :: 0 <= i < |h| ==> h[i].id in t
    ensures h[0].id in t && Without(h)[0].id in t
    ensures Consumable(Joined(h), t[1 - |h| := Node(t[h[0].id], t[Without(h)[0].id])], counts)
  {
    hide Forest, Without, Joined, HeapFrom, Numbered;
    RoundTakes(h, t, counts);
    JoinedMultiset(h);
    StaysHeap(h);
    JoinedIds(h, t);
    JoinedNumbered(h);
    ForestJoined(multiset(h), t, counts, h[0], Without(h)[0], 1 - |h|);
  }

  lemma JoinedNumbered(h: seq<Item>)
    requires |h| >= 3 && Numbered(h)
    ensures Numbered(Joined(h))
  {
    hide Sift, Without, Joined;
    JoinedMultiset(h);
    var g := Joined(h);
    forall i | 0 <= i < |g| ensures g[i].id >= 0 || g[i].id <= 0 - |g| {
      assert g[i] in multiset(g);
      if g[i].id != 1 - |h| {
        assert g[i] in multiset(h);
        var j :| 0 <= j < |h| && h[j] == g[i];
      }
    }
  }

  /** Two trees of a forest of two: disjoint, and together everything. */
  lemma LastTwo(h: seq<Item>, t: map<int, Tree>, counts: seq<nat>)
    requires |h| == 2 && Consumable(h, t, counts) && h[0].id in t && h[1].id in t
    ensures var r := Node(t[h[0].id], t[h[1].id]);
            Greedy(r, counts) && Distinct(r) && Below(r, |counts|) && Weight(r, counts) == Counts(h)
            && forall s :: 0 <= s < |counts| ==> s in Symbols(r)
  {
    var m := multiset(h);
    assert h == [h[0], h[1]];
    assert h[0] in m && h[1] in m && m[h[0]] == 1;
    assert h[0] != h[1];
    assert Apart(h[0], h[1], t);
    JoinedOk(t[h[0].id], t[h[1].id], counts);
    TwoCounts(h);
    forall s | 0 <= s < |counts| ensures s in Symbols(Node(t[h[0].id], t[h[1].id])) {
      assert Found(m, t, s);
    }
  }

  lemma TwoCounts(h: seq<Item>)
    requires |h| == 2
    ensures Counts(h) == h[0].count + h[1].count
  {
    assert Counts(h[..1]) == Counts(h[..1][..0]) + h[0].count;
  }

  /** The tree the whole heap becomes. */
  lemma {:induction false} CombineGood(h: seq<Item>, t: map<int, Tree>, counts: seq<nat>)
    requires |h| >= 2 && Consumable(h, t, counts) && forall i :: 0 <= i < |h| ==> h[i].id in t
    ensures var r := Combine(h, t);
            Greedy(r, counts) && Distinct(r) && Below(r, |counts|) && Weight(r, counts) == Counts(h)
            && forall s :: 0 <= s < |counts| ==> s in Symbols(r)
    decreases |h|
  {
    hide Greedy, Distinct, Below, Weight, Symbols, Counts, Consumable, Joined, Without;
    if |h| == 2 {
      LastTwo(h, t, counts);
    } else {
      RoundKeeps(h, t, counts);
      KeepsCounts(h, t, counts);
      JoinedIds(h, t);
      CombineGood(Joined(h), t[1 - |h| := Node(t[h[0].id], t[Without(h)[0].id])], counts);
    }
  }

  lemma KeepsCounts(h: seq<Item>, t: map<int, Tree>, counts: seq<nat>)
    requires |h| >= 3 && Consumable(h, t, counts)
    ensures Counts(Joined(h)) == Counts(h)
  {
    StaysHeap(h);
  }

  // ---------------------------------------------------------------- trees in the branch arrays

  /** Node number id, or a symbol, stands for tree t in the branches ns. */
  ghost predicate Stands(ns: seq<(int, int)>, id: int, t: Tree)
    decreases t
  {
    match t
    case Leaf(s) => id == s
    case Node(l, r) =>
      id < 0 && 0 - id <= |ns| && Stands(ns, ns[0 - id - 1].0, l) && Stands(ns, ns[0 - id - 1].1, r)
  }

  /** The branches left behind spell out the combined tree from node 1. */
  lemma {:induction false} NodesStand(h: seq<Item>, t: map<int, Tree>, tail: seq<(int, int)>)
    requires |h| >= 2 && forall i :: 0 <= i < |h| ==> h[i].id in t && Stands(Nodes(h) + tail, h[i].id, t[h[i].id])
    requires Numbered(h)
    ensures Stands(Nodes(h) + tail, -1, Combine(h, t))
    decreases |h|
  {
    hide Sift, Joined, Without;
    var ns := Nodes(h) + tail;
    if |h| > 2 {
      JoinedIds(h, t);
      var a, b := h[0], Without(h)[0];
      var t' := t[1 - |h| := Node(t[a.id], t[b.id])];
      JoinedNumbered(h);
      assert ns == Nodes(Joined(h)) + ([(a.id, b.id)] + tail);
      assert ns[|h| - 2] == (a.id, b.id);
      JoinedStand(h, t, ns);
      NodesStand(Joined(h), t', [(a.id, b.id)] + tail);
    } else {
      assert ns[0] == (h[0].id, h[1].id);
    }
  }

  lemma JoinedStand(h: seq<Item>, t: map<int, Tree>, ns: seq<(int, int)>)
    requires |h| > 2 && Numbered(h) && forall i :: 0 <= i < |h| ==> h[i].id in t && Stands(ns, h[i].id, t[h[i].id])
    requires |ns| >= |h| - 1 && ns[|h| - 2] == (h[0].id, Without(h)[0].id) && Without(h)[0].id in t
    ensures var t' := t[1 - |h| := Node(t[h[0].id], t[Without(h)[0].id])];
            forall i :: 0 <= i < |h| - 1 ==> Joined(h)[i].id in t' && Stands(ns, Joined(h)[i].id, t'[Joined(h)[i].id])
  {
    hide Sift, Joined, Without;
    var t' := t[1 - |h| := Node(t[h[0].id], t[Without(h)[0].id])];
    var k := PlaceOfSecond(h);
    assert Stands(ns, 1 - |h|, t'[1 - |h|]);
    hide Stands;
    forall i | 0 <= i < |h| - 1 ensures Joined(h)[i].id in t' && Stands(ns, Joined(h)[i].id, t'[Joined(h)[i].id]) {
      if Joined(h)[i].id != 1 - |h| {
        var j := PlaceBefore(h, i);
      }
    }
  }

  lemma PlaceOfSecond(h: seq<Item>) returns (k: nat)
    requires |h| > 2
    ensures k < |h| && h[k] == Without(h)[0]
  {
    hide Without;
    WithoutMultiset(h);
    var b := Without(h)[0];
    assert b in multiset(Without(h)) && b in multiset(h);
    k :| 0 <= k < |h| && h[k] == b;
  }

  /** An item of the joined heap that is not the new one was in the heap before. */
  lemma PlaceBefore(h: seq<Item>, i: nat) returns (j: nat)
    requires |h| > 2 && i < |h| - 1 && Joined(h)[i].id != 1 - |h|
    ensures j < |h| && h[j] == Joined(h)[i]
  {
    hide Without, Joined;
    JoinedMultiset(h);
    var x := Joined(h)[i];
    assert x in multiset(Joined(h)) && x in multiset(h);
    j :| 0 <= j < |h| && h[j] == x;
  }

  // ---------------------------------------------------------------- the tree of a table of counts

  ghost function LeafTrees(n: nat): (t: map<int, Tree>) { map i: int | 0 <= i < n :: Leaf(i) }

  ghost function HuffmanTree(counts: seq<nat>): (t: Tree)
    requires |counts| >= 2
  {
    StartsNamed(counts);
    Combine(HeapAt(counts, 1), LeafTrees(|counts|))
  }

  lemma StartsNamed(counts: seq<nat>)
    requires |counts| >= 2
    ensures forall i :: 0 <= i < |counts| ==> HeapAt(counts, 1)[i].id in LeafTrees(|counts|)
    ensures Numbered(HeapAt(counts, 1))
  {
    hide HeapAt, Counts, HeapFrom;
    HeapBuilt(counts, 1);
    var h := HeapAt(counts, 1);
    forall i | 0 <= i < |counts| ensures 0 <= h[i].id < |counts| {
      assert h[i] in multiset(h);
      assert h[i] in multiset(Leaves(counts));
    }
  }

  lemma LeavesForest(counts: seq<nat>)
    requires |counts| >= 2
    ensures Forest(multiset(Leaves(counts)), LeafTrees(|counts|), counts)
  {
    var h, t := Leaves(counts), LeafTrees(|counts|);
    var m := multiset(h);
    LeavesOnce(counts);
    forall s | 0 <= s < |counts| ensures Found(m, t, s) {
      assert h[s] in m && s in Symbols(t[h[s].id]);
    }
  }

  lemma LeavesOnce(counts: seq<nat>)
    ensures var h := Leaves(counts);
            forall x: Item :: x in multiset(h) ==> 0 <= x.id < |counts| && x == h[x.id] && multiset(h)[x] == 1
  {
    var h := Leaves(counts);
    forall x: Item | x in multiset(h) ensures 0 <= x.id < |counts| && x == h[x.id] && multiset(h)[x] == 1 {
      var i :| 0 <= i < |h| && h[i] == x;
      Once(counts, |counts|, x);
      assert h[..|counts|] == h;
    }
  }

  lemma {:induction false} Once(counts: seq<nat>, n: nat, x: Item)
    requires n <= |counts|
    ensures multiset(Leaves(counts)[..n])[x] <= 1 && (x.id >= n ==> multiset(Leaves(counts)[..n])[x] == 0)
    decreases n
  {
    if n > 0 {
      Once(counts, n - 1, x);
      assert Leaves(counts)[..n] == Leaves(counts)[..n - 1] + [Leaves(counts)[n - 1]];
    }
  }

  /** Every symbol is at exactly one leaf, and the tree weighs what the counts add up to. */
  lemma TreeOfCounts(counts: seq<nat>)
    requires |counts| >= 2
    ensures var t := HuffmanTree(counts);
            t.Node? && Distinct(t) && Below(t, |counts|) && Greedy(t, counts)
            && Weight(t, counts) == Counts(Leaves(counts))
            && forall s :: 0 <= s < |counts| ==> s in Symbols(t)
    ensures Stands(Nodes(HeapAt(counts, 1)), -1, HuffmanTree(counts))
  {
    hide HeapAt, Counts, Forest, Nodes, Greedy, Weight;
    var h, leaves := HeapAt(counts, 1), LeafTrees(|counts|);
    HeapBuilt(counts, 1);
    LeavesForest(counts);
    StartsNamed(counts);
    CombineGood(h, leaves, counts);
    assert Nodes(h) + [] == Nodes(h);
    NodesStand(h, leaves, []);
    CombineIsNode(h, leaves);
  }

  lemma {:induction false} CombineIsNode(h: seq<Item>, t: map<int, Tree>)
    requires |h| >= 2 && forall i :: 0 <= i < |h| ==> h[i].id in t
    ensures Combine(h, t).Node?
    decreases |h|
  {
    if |h| > 2 {
      JoinedIds(h, t);
      CombineIsNode(Joined(h), t[1 - |h| := Node(t[h[0].id], t[Without(h)[0].id])]);
    }
  }

  const MAX_COUNT := 32768
  const MAX_LENGTH := 21

  lemma FibValues()
    ensures Fib(24) == 46368
  {
    assert Fib(8) == 21 && Fib(9) == 34;
    assert Fib(12) == Fib(11) + Fib(10) && Fib(11) == Fib(10) + Fib(9) && Fib(10) == 55;
    assert Fib(16) == Fib(15) + Fib(14) && Fib(15) == Fib(14) + Fib(13) && Fib(14) == Fib(13) + Fib(12);
    assert Fib(13) == 233;
    assert Fib(20) == Fib(19) + Fib(18) && Fib(19) == Fib(18) + Fib(17) && Fib(18) == Fib(17) + Fib(16);
    assert Fib(17) == 1597;
    assert Fib(24) == Fib(23) + Fib(22) && Fib(23) == Fib(22) + Fib(21) && Fib(22) == Fib(21) + Fib(20);
    assert Fib(21) == 10946;
  }

  /** Counts that add up to less than 2^15 give codewords of at most 21 bits. */
  lemma DepthBound(counts: seq<nat>)
    requires |counts| >= 2 && AllPositive(counts) && Counts(Leaves(counts)) < MAX_COUNT
    ensures Height(HuffmanTree(counts)) <= MAX_LENGTH
  {
    hide HuffmanTree, Counts, Fib, Greedy;
    TreeOfCounts(counts);
    DeepIsHeavy(HuffmanTree(counts), counts);
    FibValues();
    if Height(HuffmanTree(counts)) > MAX_LENGTH {
      FibMono(24, Height(HuffmanTree(counts)) + 2);
    }
  }
}
