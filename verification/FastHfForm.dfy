/** FastHF's Form_Huffman_Tree: the heap and the tree it becomes share the two branch arrays. */
module FastHfForm {
  import opened FastHfTree

  /** Places from..|h| of the overlaid arrays hold the heap h: numbers on the left, counts on the right. */
  ghost predicate Holds(left: array<int>, right: array<int>, h: seq<Item>, from: nat)
    reads left, right
  {
    && |h| <= left.Length == right.Length && left != right
    && forall p :: from <= p < |h| ==> left[p] == h[p].id && right[p] == h[p].count
  }

  /** The inner loop: an item sinks from place k to where no child is lighter. */
  method SiftIn(left: array<int>, right: array<int>, k: nat, n: nat, x: Item, ghost h: seq<Item>)
    requires 1 <= k <= n == |h| && Holds(left, right, h, k)
    modifies left, right
    ensures Holds(left, right, Sift(h, k, x), k - 1)
    ensures forall p :: 0 <= p < left.Length && !(k - 1 <= p < n) ==>
              left[p] == old(left[p]) && right[p] == old(right[p])
  {
    hide Sift;
    var i, j := k, 2 * k;
    ghost var g := h;
    while j <= n
      invariant k <= i <= n && j == 2 * i && |g| == n && Sift(g, i, x) == Sift(h, k, x)
      invariant forall p :: k - 1 <= p < n && p != i - 1 ==> left[p] == g[p].id && right[p] == g[p].count
      invariant forall p :: 0 <= p < left.Length && !(k - 1 <= p < n) ==>
                  left[p] == old(left[p]) && right[p] == old(right[p])
      decreases n - i
    {
      if j < n && right[j - 1] > right[j] {
        j := j + 1;
      }
      assert j == LightChild(g, i);
      SiftStep(g, i, x);
      if x.count <= right[j - 1] {
        break;
      }
      left[i - 1] := left[j - 1];
      right[i - 1] := right[j - 1];
      g := g[i - 1 := g[j - 1]];
      i := j;
      j := 2 * j;
    }
    SiftStep(g, i, x);
    left[i - 1] := x.id;
    right[i - 1] := x.count;
  }

  lemma SiftStep(h: seq<Item>, i: nat, x: Item)
    requires 1 <= i <= |h|
    ensures 2 * i > |h| ==> Sift(h, i, x) == h[i - 1 := x]
    ensures 2 * i <= |h| ==>
      var j := LightChild(h, i);
      Sift(h, i, x) == if x.count <= At(h, j) then h[i - 1 := x] else Sift(h[i - 1 := h[j - 1]], j, x)
  {
  }

  /** The nodes from n on have their branches in place of the heap items that have left. */
  ghost predicate Branches(left: array<int>, right: array<int>, ns: seq<(int, int)>, n: nat)
    reads left, right
  {
    && left.Length == right.Length == |ns| + 1
    && forall m :: n <= m <= |ns| && 1 <= m ==> left[m] == ns[m - 1].0 && right[m] == ns[m - 1].1
  }

  /** A valid min-heap of all symbols, built from the middle down. */
  method BuildHeap(count: array<nat>, left: array<int>, right: array<int>)
    requires left != right && left.Length == right.Length == count.Length >= 2
    modifies left, right
    ensures Holds(left, right, HeapAt(count[..], 1), 0) && HeapFrom(HeapAt(count[..], 1), 1)
  {
    hide Sift;
    var n := count.Length;
    ghost var counts := count[..];
    var k := n / 2 + 1;
    var p := k - 1;
    while p < n
      invariant k - 1 <= p <= n
      invariant forall q :: k - 1 <= q < p ==> left[q] == q && right[q] == count[q]
    {
      left[p] := p;
      right[p] := count[p];
      p := p + 1;
    }
    while k > 1
      invariant 1 <= k <= n / 2 + 1 && Holds(left, right, HeapAt(counts, k), k - 1)
    {
      k := k - 1;
      SiftIn(left, right, k, n, Item(count[k - 1], k - 1), HeapAt(counts, k + 1));
    }
    HeapBuilt(counts, 1);
  }

  /** it odd: the least item becomes the left branch of node n, in the place the heap gives up. */
  method TakeFirst(left: array<int>, right: array<int>, n: nat, ghost h: seq<Item>, ghost ns: seq<(int, int)>)
    returns (nc: nat)
    requires 2 <= n <= |ns| && |h| == n + 1 && Holds(left, right, h, 0) && Branches(left, right, ns, n + 1)
    requires ns[n - 1] == (h[0].id, Without(h)[0].id)
    modifies left, right
    ensures Holds(left, right, Without(h), 0) && Branches(left, right, ns, n + 1)
    ensures left[n] == ns[n - 1].0 && nc == h[0].count
  {
    hide Sift, Nodes;
    var x := Item(right[n], left[n]);
    left[n] := left[0];
    nc := right[0];
    SiftIn(left, right, 1, n, x, h[..n]);
  }

  /** it even: the next item becomes its right branch, and node n takes its place in the heap. */
  method TakeSecond(left: array<int>, right: array<int>, n: nat, nc: nat, ghost h: seq<Item>,
                    ghost ns: seq<(int, int)>)
    requires 2 <= n <= |ns| && |h| == n + 1 && nc == h[0].count
    requires Holds(left, right, Without(h), 0) && Branches(left, right, ns, n + 1)
    requires ns[n - 1] == (h[0].id, Without(h)[0].id) && left[n] == ns[n - 1].0
    modifies left, right
    ensures Holds(left, right, Joined(h), 0) && Branches(left, right, ns, n)
  {
    hide Sift, Nodes;
    right[n] := left[0];
    SiftIn(left, right, 1, n, Item(nc + right[0], 0 - n), Without(h));
  }

  /** Form_Huffman_Tree: the branches of nodes 1..n - 1, in the memory of the heap they consume. */
  method FormHuffmanTree(count: array<nat>, left: array<int>, right: array<int>)
    requires left != right && left.Length == right.Length == count.Length >= 2
    modifies left, right
    ensures Branches(left, right, Nodes(HeapAt(count[..], 1)), 1)
  {
    hide Sift, HeapAt;
    BuildHeap(count, left, right);
    var n := count.Length;
    ghost var h := HeapAt(count[..], 1);
    ghost var ns := Nodes(h);
    assert ns[..n - 1] == ns;
    while n > 2
      invariant 2 <= n <= left.Length && |h| == n && Holds(left, right, h, 0)
      invariant Nodes(h) == ns[..n - 1] && Branches(left, right, ns, n)
    {
      NodesStep(h, ns);
      n := n - 1;
      var nc := TakeFirst(left, right, n, h, ns);
      TakeSecond(left, right, n, nc, h, ns);
      h := Joined(h);
    }
    var ts := left[1];
    left[1] := left[0];
    right[1] := ts;
  }

  lemma NodesStep(h: seq<Item>, ns: seq<(int, int)>)
    requires |h| >= 3 && |ns| >= |h| - 1 && Nodes(h) == ns[..|h| - 1]
    ensures ns[|h| - 2] == (h[0].id, Without(h)[0].id) && Nodes(Joined(h)) == ns[..|h| - 2]
  {
    hide Sift;
    assert Nodes(h)[|h| - 2] == ns[|h| - 2];
    assert Nodes(h)[..|h| - 2] == Nodes(Joined(h));
  }
}
