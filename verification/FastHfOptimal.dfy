/** No prefix code takes fewer bits than FastHF's Huffman tree: the exchange argument, over the heap it consumes. */
module FastHfOptimal {
  import opened Arith
  import opened Bytes
  import opened FastHfTree
  import opened FastHfSpec

  // ---------------------------------------------------------------- codes

  /** The weight of a symbol, or of symbols joined, and the length of its codeword. */
  datatype Word = Word(weight: nat, len: nat)

  function Cost(p: seq<Word>): (c: nat)
  {
    if p == [] then 0 else Cost(p[..|p| - 1]) + p[|p| - 1].weight * p[|p| - 1].len
  }

  ghost predicate Within(p: seq<Word>, d: nat) { forall i :: 0 <= i < |p| ==> p[i].len <= d }

  /** The code space used, in units of a codeword of length d. */
  function Space(p: seq<Word>, d: nat): (k: nat)
    requires Within(p, d)
  {
    if p == [] then 0 else Space(p[..|p| - 1], d) + Pow2(d - p[|p| - 1].len)
  }

  function Weights(p: seq<Word>): (w: seq<nat>)
    ensures |w| == |p|
  {
    seq(|p|, i requires 0 <= i < |p| => p[i].weight)
  }

  lemma {:induction false} CostUpdate(p: seq<Word>, i: nat, x: Word)
    requires i < |p|
    ensures Cost(p[i := x]) + p[i].weight * p[i].len == Cost(p) + x.weight * x.len
    decreases |p|
  {
    var n := |p| - 1;
    if i < n {
      CostUpdate(p[..n], i, x);
      assert p[i := x][..n] == p[..n][i := x];
    } else {
      assert p[i := x][..n] == p[..n];
    }
  }

  lemma {:induction false} SpaceUpdate(p: seq<Word>, i: nat, x: Word, d: nat)
    requires i < |p| && Within(p, d) && x.len <= d
    ensures Space(p[i := x], d) + Pow2(d - p[i].len) == Space(p, d) + Pow2(d - x.len)
    decreases |p|
  {
    hide Pow2;
    var n := |p| - 1;
    if i < n {
      SpaceUpdate(p[..n], i, x, d);
      assert p[i := x][..n] == p[..n][i := x];
    } else {
      assert p[i := x][..n] == p[..n];
    }
  }

  lemma WeightsUpdate(p: seq<Word>, i: nat, x: Word)
    requires i < |p|
    ensures Weights(p)[i] in multiset(Weights(p))
    ensures multiset(Weights(p[i := x])) == multiset(Weights(p)) - multiset{p[i].weight} + multiset{x.weight}
  {
    assert Weights(p[i := x]) == Weights(p)[i := x.weight];
  }

  /** The words without word i; the last one takes its place. */
  function Without1(p: seq<Word>, i: nat): (r: seq<Word>)
    requires i < |p|
    ensures |r| == |p| - 1
  {
    p[i := p[|p| - 1]][..|p| - 1]
  }

  lemma DropWord(p: seq<Word>, i: nat, d: nat)
    requires i < |p| && Within(p, d)
    ensures var r := Without1(p, i);
            && Within(r, d) && Cost(r) + p[i].weight * p[i].len == Cost(p)
            && Space(r, d) + Pow2(d - p[i].len) == Space(p, d)
    ensures p[i].weight in multiset(Weights(p))
    ensures multiset(Weights(Without1(p, i))) == multiset(Weights(p)) - multiset{p[i].weight}
  {
    DropBag(p, i);
    hide Pow2, Weights;
    var n := |p| - 1;
    CostUpdate(p, i, p[n]);
    SpaceUpdate(p, i, p[n], d);
    assert p[i := p[n]][n] == p[n];
  }

  lemma DropBag(p: seq<Word>, i: nat)
    requires i < |p|
    ensures p[i].weight in multiset(Weights(p))
    ensures multiset(Weights(Without1(p, i))) == multiset(Weights(p)) - multiset{p[i].weight}
  {
    var n := |p| - 1;
    var u := p[i := p[n]];
    WeightsUpdate(p, i, p[n]);
    assert Weights(p)[i] == p[i].weight;
    WeightsSnoc(u[..n], p[n]);
    assert u[..n] + [p[n]] == u;
    hide Weights;
    BagOut(multiset(Weights(u[..n])), multiset(Weights(p)), p[i].weight, p[n].weight);
  }

  lemma WeightsSnoc(p: seq<Word>, x: Word)
    ensures multiset(Weights(p + [x])) == multiset(Weights(p)) + multiset{x.weight}
  {
    assert Weights(p + [x]) == Weights(p) + [x.weight];
  }

  lemma BagOut(r: multiset<nat>, m: multiset<nat>, a: nat, c: nat)
    requires a in m && r + multiset{c} == m - multiset{a} + multiset{c}
    ensures r == m - multiset{a}
  {
    assert r == r + multiset{c} - multiset{c};
    assert m - multiset{a} == m - multiset{a} + multiset{c} - multiset{c};
  }

  lemma AddWord(p: seq<Word>, x: Word, d: nat)
    requires Within(p, d) && x.len <= d
    ensures Within(p + [x], d) && Cost(p + [x]) == Cost(p) + x.weight * x.len
    ensures Space(p + [x], d) == Space(p, d) + Pow2(d - x.len)
    ensures multiset(Weights(p + [x])) == multiset(Weights(p)) + multiset{x.weight}
  {
    hide Pow2;
    assert (p + [x])[..|p|] == p;
    WeightsSnoc(p, x);
  }

  // ---------------------------------------------------------------- exchanging weights

  /** Words i and k exchange their weights. */
  function Exchanged(p: seq<Word>, i: nat, k: nat): (r: seq<Word>)
    requires i < |p| && k < |p|
    ensures |r| == |p|
  {
    p[i := Word(p[k].weight, p[i].len)][k := Word(p[i].weight, p[k].len)]
  }

  /** A lighter weight on a longer word costs no more. */
  lemma ExchangeCost(p: seq<Word>, i: nat, k: nat, d: nat)
    requires i < |p| && k < |p| && Within(p, d) && p[k].weight <= p[i].weight && p[k].len <= p[i].len
    ensures var r := Exchanged(p, i, k);
            && Within(r, d) && Cost(r) <= Cost(p) && Space(r, d) == Space(p, d)
            && multiset(Weights(r)) == multiset(Weights(p))
            && r[i] == Word(p[k].weight, p[i].len) && (i != k ==> r[k] == Word(p[i].weight, p[k].len))
            && forall j :: 0 <= j < |p| && j != i && j != k ==> r[j] == p[j]
  {
    if i == k {
      assert Exchanged(p, i, k) == p;
    } else {
      ExchangeBag(p, i, k);
      ExchangeSpace(p, i, k, d);
      hide Pow2, Cost, Space, Weights;
      var x, y := Word(p[k].weight, p[i].len), Word(p[i].weight, p[k].len);
      CostUpdate(p, i, x);
      CostUpdate(p[i := x], k, y);
      CrossProducts(p[i].weight, p[k].weight, p[i].len, p[k].len);
    }
  }

  lemma ExchangeBag(p: seq<Word>, i: nat, k: nat)
    requires i < |p| && k < |p| && i != k
    ensures multiset(Weights(Exchanged(p, i, k))) == multiset(Weights(p))
  {
    var x, y := Word(p[k].weight, p[i].len), Word(p[i].weight, p[k].len);
    WeightsUpdate(p, i, x);
    WeightsUpdate(p[i := x], k, y);
    hide Weights;
    SwapBack(multiset(Weights(p)), p[i].weight, p[k].weight);
  }

  lemma ExchangeSpace(p: seq<Word>, i: nat, k: nat, d: nat)
    requires i < |p| && k < |p| && i != k && Within(p, d)
    ensures Within(Exchanged(p, i, k), d) && Space(Exchanged(p, i, k), d) == Space(p, d)
  {
    hide Pow2, Space;
    var x, y := Word(p[k].weight, p[i].len), Word(p[i].weight, p[k].len);
    SpaceUpdate(p, i, x, d);
    SpaceUpdate(p[i := x], k, y, d);
  }

  lemma CrossProducts(wi: nat, wk: nat, li: nat, lk: nat)
    requires wk <= wi && lk <= li
    ensures wk * li + wi * lk <= wi * li + wk * lk
  {
    MulMono(wk, wi, li - lk);
    Distrib(li, lk, wk);
    Distrib(li, lk, wi);
    assert wk * (li - lk) == wk * li - wk * lk && wi * (li - lk) == wi * li - wi * lk;
  }

  lemma SwapBack(m: multiset<nat>, a: nat, b: nat)
    requires a in m
    ensures m - multiset{a} + multiset{b} - multiset{b} + multiset{a} == m
  {
  }

  // ---------------------------------------------------------------- the deepest words

  /** With a single word of the greatest length the space used is odd. */
  lemma {:induction false} OddSpace(p: seq<Word>, d: nat, i: nat)
    requires Within(p, d) && i < |p| && p[i].len == d && forall j :: 0 <= j < |p| && j != i ==> p[j].len < d
    ensures Space(p, d) % 2 == 1
    decreases |p|
  {
    var n := |p| - 1;
    if i < n {
      OddSpace(p[..n], d, i);
      assert Pow2(d - p[n].len) == 2 * Pow2(d - p[n].len - 1);
    } else {
      EvenSpace(p[..n], d);
      assert Pow2(0) == 1;
    }
  }

  /** Shorter words use an even number of units, twice as many as on the coarser scale. */
  lemma {:induction false} EvenSpace(p: seq<Word>, d: nat)
    requires Within(p, d) && forall j :: 0 <= j < |p| ==> p[j].len < d
    ensures Space(p, d) % 2 == 0 && (d > 0 ==> Within(p, d - 1) && Space(p, d) == 2 * Space(p, d - 1))
  {
    if p != [] {
      var n := |p| - 1;
      EvenSpace(p[..n], d);
      assert Pow2(d - p[n].len) == 2 * Pow2(d - p[n].len - 1);
    }
  }

  // ---------------------------------------------------------------- the heap

  function ItemWeights(h: seq<Item>): (w: seq<nat>)
    ensures |w| == |h|
  {
    seq(|h|, i requires 0 <= i < |h| => h[i].count)
  }

  lemma ItemReplaced(h: seq<Item>, i: nat, x: Item)
    requires i < |h|
    ensures h[i].count in multiset(ItemWeights(h))
    ensures multiset(ItemWeights(h[i := x])) == multiset(ItemWeights(h)) - multiset{h[i].count} + multiset{x.count}
  {
    assert ItemWeights(h)[i] == h[i].count;
    assert ItemWeights(h[i := x]) == ItemWeights(h)[i := x.count];
  }

  lemma {:induction false} SiftWeights(h: seq<Item>, i: nat, x: Item)
    requires 1 <= i <= |h|
    ensures h[i - 1].count in multiset(ItemWeights(h))
    ensures multiset(ItemWeights(Sift(h, i, x))) ==
            multiset(ItemWeights(h)) - multiset{h[i - 1].count} + multiset{x.count}
    decreases |h| - i
  {
    ItemReplaced(h, i - 1, x);
    hide ItemWeights;
    if 2 * i <= |h| && x.count > At(h, LightChild(h, i)) {
      var j := LightChild(h, i);
      var g := h[i - 1 := h[j - 1]];
      assert Sift(h, i, x) == Sift(g, j, x) && g[j - 1] == h[j - 1];
      ItemReplaced(h, i - 1, h[j - 1]);
      hide Sift;
      SiftWeights(g, j, x);
      Passed(multiset(ItemWeights(h)), h[i - 1].count, h[j - 1].count, x.count);
    }
  }

  lemma Passed(m: multiset<nat>, a: nat, b: nat, x: nat)
    requires a in m
    ensures m - multiset{a} + multiset{b} - multiset{b} + multiset{x} == m - multiset{a} + multiset{x}
  {
  }

  lemma WithoutWeights(h: seq<Item>)
    requires |h| >= 3
    ensures h[0].count in multiset(ItemWeights(h))
    ensures multiset(ItemWeights(Without(h))) == multiset(ItemWeights(h)) - multiset{h[0].count}
  {
    hide Sift;
    var n := |h| - 1;
    var g := h[..n];
    SiftWeights(g, 1, h[n]);
    assert ItemWeights(h) == ItemWeights(g) + [h[n].count];
    assert ItemWeights(h)[0] == h[0].count;
    hide ItemWeights;
    BagMoved(multiset(ItemWeights(g)), h[0].count, h[n].count);
  }

  /** The weights once a and b are one. */
  function JoinedBag(m: multiset<nat>, a: nat, b: nat): (r: multiset<nat>)
  {
    var c: nat := a + b;
    m - multiset{a} - multiset{b} + multiset{c}
  }

  lemma BagMoved(g: multiset<nat>, a: nat, c: nat)
    requires a in g
    ensures g - multiset{a} + multiset{c} == g + multiset{c} - multiset{a}
  {
  }

  /** The two weights that are joined are the least two, and their sum takes their place. */
  lemma RoundWeights(h: seq<Item>)
    requires |h| >= 3 && HeapFrom(h, 1)
    ensures var m, a, b := multiset(ItemWeights(h)), h[0].count, Without(h)[0].count;
            && a in m && b in m - multiset{a}
            && (forall x :: x in m ==> a <= x) && (forall x :: x in m - multiset{a} ==> b <= x)
            && multiset(ItemWeights(Joined(h))) == JoinedBag(m, a, b)
  {
    hide Sift, ItemWeights, Without, HeapFrom;
    StaysHeap(h);
    WithoutWeights(h);
    LeastWeight(h);
    LeastWeight(Without(h));
    SiftWeights(Without(h), 1, Item(h[0].count + Without(h)[0].count, 1 - |h|));
  }

  lemma LeastWeight(h: seq<Item>)
    requires h != [] && HeapFrom(h, 1)
    ensures h[0].count in multiset(ItemWeights(h)) && forall x :: x in multiset(ItemWeights(h)) ==> h[0].count <= x
  {
    assert ItemWeights(h)[0] == h[0].count;
    forall x | x in multiset(ItemWeights(h)) ensures h[0].count <= x {
      var i :| 0 <= i < |h| && ItemWeights(h)[i] == x;
      RootIsLeast(h, i + 1);
    }
  }

  /** What joining costs: the weights of all nodes made. */
  function JoinCost(h: seq<Item>): (c: nat)
    requires |h| >= 2
    decreases |h|
  {
    if |h| == 2 then h[0].count + h[1].count else h[0].count + Without(h)[0].count + JoinCost(Joined(h))
  }

  // ---------------------------------------------------------------- the exchange argument

  /** The least two weights can be given to two words of the greatest length, and those joined into one. */
  lemma JoinWords(p: seq<Word>, d: nat, i: nat, j: nat, a: nat, b: nat) returns (r: seq<Word>)
    requires Within(p, d) && d > 0 && i < |p| && j < |p| && i != j && p[i].len == d && p[j].len == d
    requires var m := multiset(Weights(p));
             a in m && b in m - multiset{a} && (forall x :: x in m ==> a <= x)
             && (forall x :: x in m - multiset{a} ==> b <= x)
    ensures Within(r, d) && |r| == |p| - 1 && Cost(r) + a + b <= Cost(p) && Space(r, d) == Space(p, d)
    ensures multiset(Weights(r)) == JoinedBag(multiset(Weights(p)), a, b)
  {
    hide Pow2, Cost, Space;
    var k := WordOf(p, a);
    assert Weights(p)[i] in multiset(Weights(p));
    hide Weights;
    ExchangeCost(p, i, k, d);
    var u := Exchanged(p, i, k);
    assert u[i] == Word(a, d) && u[j].len == d;
    r := JoinSecond(u, d, i, j, a, b);
  }

  lemma JoinSecond(u: seq<Word>, d: nat, i: nat, j: nat, a: nat, b: nat) returns (r: seq<Word>)
    requires Within(u, d) && d > 0 && i < |u| && j < |u| && i != j && u[i] == Word(a, d) && u[j].len == d
    requires b in multiset(Weights(u)) - multiset{a} && forall x :: x in multiset(Weights(u)) - multiset{a} ==> b <= x
    ensures Within(r, d) && |r| == |u| - 1 && Cost(r) + a + b <= Cost(u) && Space(r, d) == Space(u, d)
    ensures multiset(Weights(r)) == JoinedBag(multiset(Weights(u)), a, b)
  {
    hide Pow2, Cost, Space, Weights;
    DropWord(u, i, d);
    var v := Without1(u, i);
    var j' := if j == |u| - 1 then i else j;
    assert v[j'].len == d;
    var k := WordOf(v, b);
    WeightThere(v, j');
    ExchangeCost(v, j', k, d);
    var w := Exchanged(v, j', k);
    DropWord(w, j', d);
    var x := Word(a + b, d - 1);
    AddWord(Without1(w, j'), x, d);
    r := Without1(w, j') + [x];
    JoinedSums(a, b, d);
  }

  lemma JoinedSums(a: nat, b: nat, d: nat)
    requires d > 0
    ensures a * d + b * d == (a + b) * (d - 1) + a + b
    ensures Pow2(d - d) + Pow2(d - d) == Pow2(d - (d - 1))
  {
    Distrib(a, b, d);
    Distrib(d, 1, a + b);
    assert (a + b) * (d - 1) == (a + b) * d - (a + b);
    assert Pow2(0) == 1 && Pow2(1) == 2 * Pow2(0);
  }

  lemma WordOf(p: seq<Word>, w: nat) returns (k: nat)
    requires w in multiset(Weights(p))
    ensures k < |p| && p[k].weight == w
  {
    k :| 0 <= k < |p| && Weights(p)[k] == w;
  }

  lemma WeightThere(p: seq<Word>, k: nat)
    requires k < |p|
    ensures p[k].weight in multiset(Weights(p))
  {
    assert Weights(p)[k] == p[k].weight;
  }

  /** Two words of the greatest length, or the only one, or none. */
  lemma Deepest(p: seq<Word>, d: nat) returns (i: nat, j: nat)
    requires Within(p, d)
    ensures i <= |p| && j <= |p| && (i < |p| ==> p[i].len == d) && (j < |p| ==> i < j && p[j].len == d)
    ensures i == |p| ==> forall k :: 0 <= k < |p| ==> p[k].len < d
    ensures j == |p| ==> forall k :: 0 <= k < |p| && k != i ==> p[k].len < d
  {
    i, j := |p|, |p|;
    if a: nat, b: nat :| a < b < |p| && p[a].len == d && p[b].len == d {
      i, j := a, b;
    } else if a: nat :| a < |p| && p[a].len == d {
      i := a;
    }
  }

  /** Any words for the weights in the heap cost at least what joining them costs. */
  lemma {:induction false} JoiningIsLeast(h: seq<Item>, p: seq<Word>, d: nat)
    requires |h| == |p| >= 2 && HeapFrom(h, 1) && multiset(Weights(p)) == multiset(ItemWeights(h))
    requires Within(p, d) && Space(p, d) <= Pow2(d)
    ensures JoinCost(h) <= Cost(p)
    decreases |h|, d
  {
    hide Pow2, Weights, ItemWeights, Cost, HeapFrom, Space, Without, Joined, JoinCost, Within;
    assert Within(p, d);
    var i, j := Deepest(p, d);
    if j < |p| {
      LongEnough(p, d, i, j);
      if |h| == 2 {
        TwoWords(h, p, d);
      } else {
        var r := JoinRound(h, p, d, i, j);
        JoiningIsLeast(Joined(h), r, d);
      }
    } else if i < |p| {
      ShorterCode(p, d, i);
      JoiningIsLeast(h, p[i := Word(p[i].weight, d - 1)], d - 1);
    } else {
      EvenSpace(p, d);
      assert p[0].len < d;
      HalfScale(d);
      JoiningIsLeast(h, p, d - 1);
    }
  }

  lemma JoinRound(h: seq<Item>, p: seq<Word>, d: nat, i: nat, j: nat) returns (r: seq<Word>)
    requires |h| == |p| >= 3 && HeapFrom(h, 1) && multiset(Weights(p)) == multiset(ItemWeights(h))
    requires Within(p, d) && d > 0 && i < j < |p| && p[i].len == d && p[j].len == d
    ensures HeapFrom(Joined(h), 1) && |r| == |p| - 1 && multiset(Weights(r)) == multiset(ItemWeights(Joined(h)))
    ensures Within(r, d) && Space(r, d) == Space(p, d)
    ensures JoinCost(h) - JoinCost(Joined(h)) + Cost(r) <= Cost(p)
  {
    JoinCostNext(h);
    hide Pow2, Weights, ItemWeights, Cost, HeapFrom, Space, Without, Joined, Within, JoinCost, JoinedBag;
    RoundWeights(h);
    StaysHeap(h);
    r := JoinWords(p, d, i, j, h[0].count, Without(h)[0].count);
  }

  lemma JoinCostNext(h: seq<Item>)
    requires |h| >= 3
    ensures JoinCost(h) == h[0].count + Without(h)[0].count + JoinCost(Joined(h))
  {
    hide Without, Joined;
  }

  lemma HalfScale(d: nat)
    requires d > 0
    ensures Pow2(d) == 2 * Pow2(d - 1)
  {
  }

  lemma {:induction false} SpaceAtLeast(p: seq<Word>, d: nat, i: nat, j: nat)
    requires Within(p, d) && i < j < |p|
    ensures Space(p, d) >= Pow2(d - p[i].len) + Pow2(d - p[j].len)
    decreases |p|
  {
    var n := |p| - 1;
    if j < n {
      SpaceAtLeast(p[..n], d, i, j);
    } else {
      OneOfThem(p[..n], d, i);
    }
  }

  lemma {:induction false} OneOfThem(p: seq<Word>, d: nat, i: nat)
    requires Within(p, d) && i < |p|
    ensures Space(p, d) >= Pow2(d - p[i].len)
    decreases |p|
  {
    var n := |p| - 1;
    if i < n {
      OneOfThem(p[..n], d, i);
    }
  }

  lemma LongEnough(p: seq<Word>, d: nat, i: nat, j: nat)
    requires Within(p, d) && i < j < |p| && p[i].len == d && p[j].len == d && Space(p, d) <= Pow2(d)
    ensures d > 0
  {
    SpaceAtLeast(p, d, i, j);
    assert Pow2(0) == 1;
  }

  lemma TwoWords(h: seq<Item>, p: seq<Word>, d: nat)
    requires |h| == |p| == 2 && multiset(Weights(p)) == multiset(ItemWeights(h))
    requires p[0].len == d && p[1].len == d && d > 0
    ensures JoinCost(h) <= Cost(p)
  {
    var a, b := p[0].weight, p[1].weight;
    assert Weights(p) == [a, b] && ItemWeights(h) == [h[0].count, h[1].count];
    assert multiset([a, b]) == multiset{a, b} && multiset([h[0].count, h[1].count]) == multiset{h[0].count, h[1].count};
    TwoSums(a, b, h[0].count, h[1].count);
    assert p[..1][..0] == [] && p[..1] == [p[0]];
    assert Cost(p[..1]) == a * d;
    MulMono(1, d, a);
    MulMono(1, d, b);
    assert a * d == d * a && b * d == d * b;
  }

  lemma TwoSums(a: nat, b: nat, x: nat, y: nat)
    requires multiset{a, b} == multiset{x, y}
    ensures a + b == x + y
  {
    assert a in multiset{x, y};
    if a == x {
      assert multiset{a, b} - multiset{a} == multiset{b} && multiset{x, y} - multiset{x} == multiset{y};
      assert b in multiset{y};
    } else {
      assert multiset{a, b} - multiset{a} == multiset{b} && multiset{x, y} - multiset{y} == multiset{x};
      assert b in multiset{x};
    }
  }

  /** A word that is the only one of the greatest length can be shortened. */
  lemma ShorterCode(p: seq<Word>, d: nat, i: nat)
    requires |p| >= 2 && Within(p, d) && i < |p| && p[i].len == d && Space(p, d) <= Pow2(d)
    requires forall j :: 0 <= j < |p| && j != i ==> p[j].len < d
    ensures d > 0
    ensures var r := p[i := Word(p[i].weight, d - 1)];
            Within(r, d - 1) && Space(r, d - 1) <= Pow2(d - 1) && Cost(r) <= Cost(p)
            && multiset(Weights(r)) == multiset(Weights(p))
  {
    hide Space, Cost, Weights;
    var other := if i == 0 then 1 else 0;
    assert p[other].len < d;
    var x := Word(p[i].weight, d - 1);
    var r := p[i := x];
    OddSpace(p, d, i);
    HalfScale(d);
    SpaceUpdate(p, i, x, d);
    assert Pow2(0) == 1 && Pow2(1) == 2;
    EvenSpace(r, d);
    CostUpdate(p, i, x);
    Distrib(d, 1, p[i].weight);
    assert p[i].weight * (d - 1) == p[i].weight * d - p[i].weight;
    WeightsUpdate(p, i, x);
  }

  // ---------------------------------------------------------------- what the tree costs

  /** The weights of the nodes below the root. */
  function TreeCost(t: Tree, counts: seq<nat>): (c: nat) {
    match t
    case Leaf(_) => 0
    case Node(l, r) => Weight(l, counts) + Weight(r, counts) + TreeCost(l, counts) + TreeCost(r, counts)
  }

  ghost function SumOver(h: seq<Item>, f: Item -> nat): (n: nat)
  {
    if h == [] then 0 else SumOver(h[..|h| - 1], f) + f(h[|h| - 1])
  }

  lemma {:induction false} SumReplaced(h: seq<Item>, i: nat, x: Item, f: Item -> nat)
    requires i < |h|
    ensures SumOver(h[i := x], f) + f(h[i]) == SumOver(h, f) + f(x)
    decreases |h|
  {
    var n := |h| - 1;
    if i < n {
      SumReplaced(h[..n], i, x, f);
      assert h[i := x][..n] == h[..n][i := x];
    } else {
      assert h[i := x][..n] == h[..n];
    }
  }

  lemma {:induction false} SiftSum(h: seq<Item>, i: nat, x: Item, f: Item -> nat)
    requires 1 <= i <= |h|
    ensures SumOver(Sift(h, i, x), f) + f(h[i - 1]) == SumOver(h, f) + f(x)
    decreases |h| - i
  {
    hide SumOver;
    SumReplaced(h, i - 1, x, f);
    if 2 * i <= |h| {
      var j := LightChild(h, i);
      if x.count > At(h, j) {
        SumReplaced(h, i - 1, h[j - 1], f);
        SiftSum(h[i - 1 := h[j - 1]], j, x, f);
      }
    }
  }

  lemma {:induction false} SumAgrees(h: seq<Item>, f: Item -> nat, g: Item -> nat)
    requires forall i :: 0 <= i < |h| ==> f(h[i]) == g(h[i])
    ensures SumOver(h, f) == SumOver(h, g)
  {
    if h != [] {
      SumAgrees(h[..|h| - 1], f, g);
    }
  }

  lemma JoinedSum(h: seq<Item>, f: Item -> nat)
    requires |h| >= 3
    ensures SumOver(Joined(h), f) + f(h[0]) + f(Without(h)[0])
            == SumOver(h, f) + f(Item(h[0].count + Without(h)[0].count, 1 - |h|))
  {
    hide Sift;
    var n := |h| - 1;
    SiftSum(h[..n], 1, h[n], f);
    hide SumOver;
    SiftSum(Without(h), 1, Item(h[0].count + Without(h)[0].count, 1 - |h|), f);
    LastOfSum(h, f);
  }

  lemma LastOfSum(h: seq<Item>, f: Item -> nat)
    requires h != []
    ensures SumOver(h, f) == SumOver(h[..|h| - 1], f) + f(h[|h| - 1])
  {
  }

  ghost function CostOf(t: map<int, Tree>, counts: seq<nat>): (f: Item -> nat)
  {
    (x: Item) => if x.id in t then TreeCost(t[x.id], counts) else 0
  }

  /** A tree costs the trees it was made of, and the joining. */
  lemma {:induction false} CombineCost(h: seq<Item>, t: map<int, Tree>, counts: seq<nat>)
    requires |h| >= 2 && Consumable(h, t, counts) && forall i :: 0 <= i < |h| ==> h[i].id in t
    ensures TreeCost(Combine(h, t), counts) == JoinCost(h) + SumOver(h, CostOf(t, counts))
    decreases |h|
  {
    hide Consumable, Joined, Without, SumOver, JoinCost, TreeCost, CostOf;
    if |h| == 2 {
      CombineTwo(h, t, counts);
    } else {
      RoundKeeps(h, t, counts);
      JoinedIds(h, t);
      var t' := t[1 - |h| := Node(t[h[0].id], t[Without(h)[0].id])];
      CombineCost(Joined(h), t', counts);
      JoinCostNext(h);
      RoundCost(h, t, counts);
    }
  }

  lemma CombineTwo(h: seq<Item>, t: map<int, Tree>, counts: seq<nat>)
    requires |h| == 2 && Consumable(h, t, counts) && forall i :: 0 <= i < |h| ==> h[i].id in t
    ensures TreeCost(Combine(h, t), counts) == JoinCost(h) + SumOver(h, CostOf(t, counts))
  {
    hide Greedy, Distinct, Below, Symbols, Weight, Apart, Found, KidsAtMost, HeapFrom;
    assert h[0] in multiset(h) && h[1] in multiset(h);
    assert ItemOk(h[0], t, counts) && ItemOk(h[1], t, counts);
    var f := CostOf(t, counts);
    assert h[..1][..0] == [] && h[..1][0] == h[0];
    assert SumOver(h[..1], f) == f(h[0]);
  }

  lemma RoundCost(h: seq<Item>, t: map<int, Tree>, counts: seq<nat>)
    requires |h| >= 3 && Consumable(h, t, counts) && forall i :: 0 <= i < |h| ==> h[i].id in t
    requires Without(h)[0].id in t
    ensures var a, b := h[0], Without(h)[0];
            var t' := t[1 - |h| := Node(t[a.id], t[b.id])];
            SumOver(Joined(h), CostOf(t', counts)) == SumOver(h, CostOf(t, counts)) + a.count + b.count
  {
    hide Joined, Without, SumOver, Weight, TreeCost, HeapFrom;
    hide Greedy, Distinct, Below, Symbols, Apart, Found, KidsAtMost;
    var a, b := h[0], Without(h)[0];
    var c := Item(a.count + b.count, 1 - |h|);
    var t' := t[1 - |h| := Node(t[a.id], t[b.id])];
    var f, g := CostOf(t, counts), CostOf(t', counts);
    RoundTakes(h, t, counts);
    forall i | 0 <= i < |h| ensures f(h[i]) == g(h[i]) {
      assert h[i] in multiset(h);
    }
    SumAgrees(h, f, g);
    JoinedSum(h, g);
    assert ItemOk(a, t, counts) && ItemOk(b, t, counts);
    NodeCost(t[a.id], t[b.id], counts);
  }

  lemma NodeCost(l: Tree, r: Tree, counts: seq<nat>)
    ensures TreeCost(Node(l, r), counts) ==
            Weight(l, counts) + Weight(r, counts) + TreeCost(l, counts) + TreeCost(r, counts)
  {
  }

  // ---------------------------------------------------------------- costs by symbol

  /** The bits the first n symbols take under the tree, each as often as it is counted. */
  function PathBits(t: Tree, counts: seq<nat>, n: nat): (bits: nat)
    requires n <= |counts|
  {
    if n == 0 then 0 else
      PathBits(t, counts, n - 1) + if n - 1 in Symbols(t) then counts[n - 1] * |PathTo(t, n - 1)| else 0
  }

  function WeightIn(t: Tree, counts: seq<nat>, n: nat): (w: nat)
    requires n <= |counts|
  {
    if n == 0 then 0 else WeightIn(t, counts, n - 1) + if n - 1 in Symbols(t) then counts[n - 1] else 0
  }

  lemma OneStep(l: Tree, r: Tree, s: nat)
    requires Symbols(l) !! Symbols(r)
    ensures s in Symbols(Node(l, r)) <==> s in Symbols(l) || s in Symbols(r)
    ensures !(s in Symbols(l) && s in Symbols(r))
    ensures s in Symbols(l) ==> |PathTo(Node(l, r), s)| == 1 + |PathTo(l, s)|
    ensures s in Symbols(r) ==> |PathTo(Node(l, r), s)| == 1 + |PathTo(r, s)|
  {
  }

  lemma OneMoreBit(c: nat, n: nat)
    ensures c * (1 + n) == c + c * n
  {
  }

  /** One step down the tree every symbol of both sides takes one more bit. */
  lemma {:induction false} NodeBits(l: Tree, r: Tree, counts: seq<nat>, n: nat)
    requires n <= |counts| && Symbols(l) !! Symbols(r)
    ensures PathBits(Node(l, r), counts, n) ==
            WeightIn(l, counts, n) + WeightIn(r, counts, n) + PathBits(l, counts, n) + PathBits(r, counts, n)
    ensures WeightIn(Node(l, r), counts, n) == WeightIn(l, counts, n) + WeightIn(r, counts, n)
  {
    if n > 0 {
      var s := n - 1;
      NodeBits(l, r, counts, s);
      OneStep(l, r, s);
      hide PathTo, Symbols;
      if s in Symbols(l) {
        OneMoreBit(counts[s], |PathTo(l, s)|);
      } else if s in Symbols(r) {
        OneMoreBit(counts[s], |PathTo(r, s)|);
      }
    }
  }

  lemma {:induction false} LeafBits(s: nat, counts: seq<nat>, n: nat)
    requires n <= |counts|
    ensures PathBits(Leaf(s), counts, n) == 0 && WeightIn(Leaf(s), counts, n) == if s < n then counts[s] else 0
  {
    if n > 0 {
      LeafBits(s, counts, n - 1);
    }
  }

  lemma {:induction false} BitsOfTree(t: Tree, counts: seq<nat>)
    requires Distinct(t) && Below(t, |counts|)
    ensures PathBits(t, counts, |counts|) == TreeCost(t, counts) && WeightIn(t, counts, |counts|) == Weight(t, counts)
  {
    hide PathBits, WeightIn;
    match t {
      case Leaf(s) => LeafBits(s, counts, |counts|);
      case Node(l, r) =>
        BitsOfTree(l, counts);
        BitsOfTree(r, counts);
        NodeBits(l, r, counts, |counts|);
    }
  }

  // ---------------------------------------------------------------- the Huffman tree

  lemma {:induction false} HeapWeights(counts: seq<nat>, k: nat)
    requires counts != [] && 1 <= k <= |counts| / 2 + 1
    ensures multiset(ItemWeights(HeapAt(counts, k))) == multiset(counts)
    decreases |counts| - k
  {
    if k <= |counts| / 2 {
      HeapWeights(counts, k + 1);
      HeapBuilt(counts, k + 1);
      hide ItemWeights;
      SiftWeights(HeapAt(counts, k + 1), k, Item(counts[k - 1], k - 1));
    } else {
      assert ItemWeights(Leaves(counts)) == counts;
    }
  }

  /** The symbols with their counts and the lengths of their codewords. */
  function WordsOf(counts: seq<nat>, lens: seq<nat>): (p: seq<Word>)
    requires |lens| == |counts|
    ensures |p| == |counts|
  {
    seq(|counts|, i requires 0 <= i < |counts| => Word(counts[i], lens[i]))
  }

  lemma {:induction false} NoTreeCost(h: seq<Item>, counts: seq<nat>, n: nat)
    requires forall i :: 0 <= i < |h| ==> 0 <= h[i].id < n
    ensures SumOver(h, CostOf(LeafTrees(n), counts)) == 0
  {
    if h != [] {
      NoTreeCost(h[..|h| - 1], counts, n);
    }
  }

  /**
   * For any counts, whatever the lengths of a prefix code's codewords are, they take at least the bits of the Huffman
   * tree. The lengths are at most d and meet Kraft's inequality, as those of every prefix code do.
   */
  lemma HuffmanIsLeast(counts: seq<nat>, lens: seq<nat>, d: nat)
    requires 2 <= |counts| == |lens|
    requires Within(WordsOf(counts, lens), d) && Space(WordsOf(counts, lens), d) <= Pow2(d)
    ensures PathBits(HuffmanTree(counts), counts, |counts|) <= Cost(WordsOf(counts, lens))
  {
    hide HeapAt, Pow2, Space, Cost, JoinCost, Combine, Within, WordsOf, Forest, TreeCost, PathBits, SumOver;
    var h, p := HeapAt(counts, 1), WordsOf(counts, lens);
    StartsNamed(counts);
    LeavesForest(counts);
    HeapBuilt(counts, 1);
    HeapWeights(counts, 1);
    WeightsOfWords(counts, lens);
    JoiningIsLeast(h, p, d);
    CombineCost(h, LeafTrees(|counts|), counts);
    LeavesFirst(counts);
    NoTreeCost(h, counts, |counts|);
    TreeOfCounts(counts);
    BitsOfTree(HuffmanTree(counts), counts);
  }

  lemma WeightsOfWords(counts: seq<nat>, lens: seq<nat>)
    requires |lens| == |counts|
    ensures Weights(WordsOf(counts, lens)) == counts
  {
  }

  lemma LeavesFirst(counts: seq<nat>)
    requires |counts| >= 2
    ensures forall i :: 0 <= i < |counts| ==> 0 <= HeapAt(counts, 1)[i].id < |counts|
  {
    hide HeapAt, Counts, HeapFrom;
    HeapBuilt(counts, 1);
    var h := HeapAt(counts, 1);
    forall i | 0 <= i < |counts| ensures 0 <= h[i].id < |counts| {
      assert h[i] in multiset(h);
      assert h[i] in multiset(Leaves(counts));
    }
  }
}
