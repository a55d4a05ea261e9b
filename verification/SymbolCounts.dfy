/** Tables of symbol counts, as the adaptive models keep them: their sums and their halving. */
module SymbolCounts {

  function Sum(c: seq<nat>): (s: nat)
  {
    if c == [] then 0 else Sum(c[..|c| - 1]) + c[|c| - 1]
  }

  ghost predicate AllPositive(c: seq<nat>) { forall k :: 0 <= k < |c| ==> c[k] > 0 }

  function Ones(n: nat): (c: seq<nat>)
    ensures |c| == n && AllPositive(c)
  {
    seq(n, _ => 1)
  }

  /** Every count halved upwards. */
  function Halved(c: seq<nat>): (h: seq<nat>)
    ensures |h| == |c| && forall k :: 0 <= k < |c| ==> h[k] == (c[k] + 1) / 2
  {
    seq(|c|, k requires 0 <= k < |c| => (c[k] + 1) / 2)
  }

  lemma SumEmpty(c: seq<nat>)
    ensures Sum([]) == 0 && Sum(c[..0]) == 0
  {
  }

  lemma SumSnoc(c: seq<nat>, x: nat)
    ensures Sum(c + [x]) == Sum(c) + x
  {
    assert (c + [x])[..|c|] == c;
  }

  lemma {:induction false} SumOnes(n: nat)
    ensures Sum(Ones(n)) == n
  {
    if n > 0 {
      assert Ones(n)[..n - 1] == Ones(n - 1);
      SumOnes(n - 1);
    }
  }

  /** Giving symbol k the count x changes the sum by the difference. */
  lemma {:induction false} SumUpdate(c: seq<nat>, k: nat, x: nat)
    requires k < |c|
    ensures Sum(c[k := x]) + c[k] == Sum(c) + x
  {
    var n := |c| - 1;
    var u := c[k := x];
    if k == n {
      assert u[..n] == c[..n];
    } else {
      assert u[..n] == c[..n][k := x];
      SumUpdate(c[..n], k, x);
    }
  }

  /** Halving upwards bounds the new sum and never empties a table. */
  lemma {:induction false} SumHalved(c: seq<nat>)
    ensures 2 * Sum(Halved(c)) <= Sum(c) + |c|
    ensures Sum(c) > 0 ==> Sum(Halved(c)) > 0
  {
    if c != [] {
      var n := |c| - 1;
      assert Halved(c)[..n] == Halved(c[..n]);
      SumHalved(c[..n]);
    }
  }

  lemma {:induction false} SumAtLeast(c: seq<nat>)
    requires AllPositive(c)
    ensures Sum(c) >= |c|
  {
    if c != [] {
      SumAtLeast(c[..|c| - 1]);
    }
  }

  // ---------------------------------------------------------------- what a message counts

  /** How often symbol s occurs in a message. */
  function Occurs(syms: seq<nat>, s: nat): (n: nat)
  {
    if syms == [] then 0 else Occurs(syms[..|syms| - 1], s) + if syms[|syms| - 1] == s then 1 else 0
  }

  ghost predicate InAlphabet(syms: seq<nat>, n: nat) { forall i :: 0 <= i < |syms| ==> syms[i] < n }

  lemma OccursNext(syms: seq<nat>, s: nat)
    requires syms != []
    ensures Occurs(syms, s) == Occurs(syms[..|syms| - 1], s) + if syms[|syms| - 1] == s then 1 else 0
  {
  }

  /** Every symbol once, and once more for each time it occurs. */
  function OneAndOccurs(n: nat, syms: seq<nat>): (c: seq<nat>)
    ensures |c| == n
  {
    seq(n, s requires 0 <= s < n => 1 + Occurs(syms, s))
  }

  /** One more symbol raises its own count. */
  lemma RaisedOccurs(n: nat, syms: seq<nat>)
    requires syms != [] && InAlphabet(syms, n)
    ensures var i := |syms| - 1; var c := OneAndOccurs(n, syms[..i]);
            OneAndOccurs(n, syms) == c[syms[i] := c[syms[i]] + 1]
  {
    forall s | 0 <= s < n ensures OneAndOccurs(n, syms)[s] == 1 + Occurs(syms, s) {
      OccursNext(syms, s);
    }
  }
}
