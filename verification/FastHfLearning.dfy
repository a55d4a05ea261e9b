/** What FastHF's adaptive code learns: the code in use is the least for the message up to the last update. */
module FastHfLearning {
  import opened Bytes
  import opened SymbolCounts
  import opened FastHfTree
  import opened FastHfSpec
  import opened FastHfOptimal

  /** The model after a message. */
  ghost function Trained(m: Model, syms: seq<nat>): (r: Model)
    requires ModelOk(m) && InAlphabet(syms, |m.counts|)
    ensures ModelOk(r) && |r.counts| == |m.counts|
  {
    if syms == [] then m else Next(Trained(m, syms[..|syms| - 1]), syms[|syms| - 1])
  }

  /** The count of the symbol is raised; at the end of a cycle counts beyond 2^15 are halved, and the tree is theirs. */
  lemma NextCounts(m: Model, s: nat)
    requires ModelOk(m) && s < |m.counts|
    ensures var raised, r := m.counts[s := m.counts[s] + 1], Next(m, s);
            && Sum(raised) == Sum(m.counts) + 1
            && if m.left > 1 then r == m.(counts := raised, left := m.left - 1)
               else
                 && r.cycle == (if m.cycle < 16 * |m.counts| then m.cycle + 1 + m.cycle / 4 else m.cycle)
                 && r.left == r.cycle
                 && Sized(raised) && r.counts == Rescaled(raised) && r.tree == HuffmanTree(r.counts)
  {
    hide Sum, Rescaled;
    SumUpdate(m.counts, s, m.counts[s] + 1);
  }

  lemma RescaledSmall(counts: seq<nat>)
    requires Sized(counts) && Sum(counts) < MAX_COUNT
    ensures Rescaled(counts) == counts
  {
  }

  /** While 2^15 is not reached, the counts are those of the message, and the tree those of it up to the last update. */
  lemma {:induction false} CountsFollow(n: nat, syms: seq<nat>) returns (u: nat)
    requires 3 <= n <= MAX_SYMBOLS && InAlphabet(syms, n) && n + |syms| < MAX_COUNT
    ensures u <= |syms|
    ensures var m := Trained(Initial(n), syms);
            && m.counts == OneAndOccurs(n, syms) && Sum(m.counts) == n + |syms|
            && |syms| - u == m.cycle - m.left && m.tree == HuffmanTree(OneAndOccurs(n, syms[..u]))
  {
    hide Sum, Next, Rescaled, HuffmanTree, Sized, TreeOk, OneAndOccurs;
    if syms == [] {
      u := 0;
      StartCounts(n);
      assert syms[..0] == [];
    } else {
      var i := |syms| - 1;
      u := CountsFollow(n, syms[..i]);
      var before := Trained(Initial(n), syms[..i]);
      var raised := before.counts[syms[i] := before.counts[syms[i]] + 1];
      NextCounts(before, syms[i]);
      RaisedOccurs(n, syms);
      if before.left == 1 {
        u := |syms|;
        RescaledSmall(raised);
        assert syms[..u] == syms;
      } else {
        assert syms[..i][..u] == syms[..u];
      }
    }
  }

  lemma StartCounts(n: nat)
    requires 3 <= n <= MAX_SYMBOLS
    ensures var m := Initial(n);
            && m.counts == OneAndOccurs(n, []) && Sum(m.counts) == n && m.left == m.cycle
            && m.tree == HuffmanTree(OneAndOccurs(n, []))
  {
    hide Sum, HuffmanTree;
    SumOnes(n);
    RescaledSmall(Ones(n));
    assert Ones(n) == OneAndOccurs(n, []);
  }

  /**
   * No prefix code of this alphabet takes fewer bits for the message up to the last update, every symbol counted once
   * more, than the code in use.
   */
  lemma CodeIsLeast(n: nat, syms: seq<nat>, lens: seq<nat>, d: nat) returns (u: nat)
    requires 3 <= n <= MAX_SYMBOLS && InAlphabet(syms, n) && n + |syms| < MAX_COUNT && |lens| == n
    requires (forall s :: 0 <= s < n ==> lens[s] <= d)
             && Space(WordsOf(Ones(n), lens), d) <= Pow2(d)
    ensures u <= |syms|
    ensures var m, counts := Trained(Initial(n), syms), OneAndOccurs(n, syms[..u]);
            |syms| - u == m.cycle - m.left && PathBits(m.tree, counts, n) <= Cost(WordsOf(counts, lens))
  {
    hide Space, HuffmanTree, Cost, PathBits, Trained;
    u := CountsFollow(n, syms);
    var counts := OneAndOccurs(n, syms[..u]);
    SpaceOfLengths(counts, Ones(n), lens, d, n);
    HuffmanIsLeast(counts, lens, d);
  }

  /** The code space depends on the lengths alone. */
  lemma {:induction false} SpaceOfLengths(a: seq<nat>, b: seq<nat>, lens: seq<nat>, d: nat, n: nat)
    requires |a| == |b| == |lens| && n <= |a| && forall s :: 0 <= s < |lens| ==> lens[s] <= d
    ensures Space(WordsOf(a, lens)[..n], d) == Space(WordsOf(b, lens)[..n], d)
    ensures WordsOf(a, lens)[..|a|] == WordsOf(a, lens) && WordsOf(b, lens)[..|a|] == WordsOf(b, lens)
  {
    hide Pow2;
    var p, q := WordsOf(a, lens), WordsOf(b, lens);
    if n > 0 {
      SpaceOfLengths(a, b, lens, d, n - 1);
      assert p[..n][..n - 1] == p[..n - 1] && q[..n][..n - 1] == q[..n - 1];
    }
  }
}
