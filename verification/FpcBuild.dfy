/** FPC's build_prefix_codes: package-merge in two alternating package lists and a table of leaf counts. */
module FpcBuild {
  import opened FpcBase
  import opened FpcLengths
  import opened FpcSort

  /** The frequencies of input[from..from + num]. */
  ghost predicate Holds(input: array<Fsym>, from: nat, num: nat, f: seq<nat>)
    reads input
  {
    from + num <= input.Length && |f| == num && forall i :: 0 <= i < num ==> input[from + i].freq == f[i]
  }

  /** The frequencies of input[from..from + num], which add up to at most 65535, and a sentinel behind them. */
  ghost predicate Guarded(input: array<Fsym>, from: nat, num: nat, f: seq<nat>)
    reads input
  {
    && Holds(input, from, num, f) && from + num < input.Length && input[from + num].freq == U16MAX
    && 2 <= num <= 256 && Rising(f) && Positive(f) && PrefixSum(f, num) <= U16MAX
  }

  /** A weight up to 65535 as it is; a heavier one may have any weight that is heavier. */
  predicate Alike(v: nat, w: nat) { if w <= U16MAX then v == w else v > U16MAX }

  /** The first n packages of a level, and all of them. */
  ghost predicate PackedTo(p: array<nat>, n: nat, b: seq<nat>)
    reads p
  {
    n <= |b| && n <= p.Length && forall k :: 0 <= k < n ==> Alike(p[k], b[k])
  }

  ghost predicate Packages(p: array<nat>, n: nat, b: seq<nat>)
    reads p
  {
    n == |b| && PackedTo(p, n, b)
  }

  /** The part of row l that is filled after n entries. */
  ghost predicate Filled(m: array2<nat>, f: seq<nat>, l: nat, n: nat)
    reads m
  {
    && m.Length0 == MAX_BIT_LEN && m.Length1 == 512 && l < MAX_BIT_LEN && n <= 512 && n <= |f| + |Prior(f, l)|
    && forall t :: 1 <= t <= n && Entry(f, Prior(f, l), t - 1) <= U16MAX ==>
         m[l, t - 1] + 1 == Leaves(f, Prior(f, l), t)
  }

  /** Row l of the table: the number of leaves up to each entry that is in a package, less one. */
  ghost predicate Row(m: array2<nat>, f: seq<nat>, l: nat)
    reads m
  {
    Filled(m, f, l, 2 * |Prior(f, l + 1)|)
  }

  lemma NextEntry(a: seq<nat>, b: seq<nat>, t: nat)
    requires t < |a| + |b|
    ensures var i := Leaves(a, b, t);
            if TakeLeaf(a, b, i, t - i) then Leaves(a, b, t + 1) == i + 1 && Entry(a, b, t) == a[i]
            else Leaves(a, b, t + 1) == i && t - i < |b| && Entry(a, b, t) == b[t - i]
  {
  }

  /** The lightest entry of every list is the lightest leaf. */
  lemma {:induction false} FirstIsLeaf(f: seq<nat>, l: nat)
    requires Positive(f) && 2 <= |f|
    ensures TakeLeaf(f, Prior(f, l), 0, 0)
  {
    hide Prior, Leaves, Entry;
    PriorIs(f, l);
    if l > 0 {
      FirstIsLeaf(f, l - 1);
      var below := Prior(f, l - 1);
      NoneTaken(f, below);
      NextEntry(f, below, 0);
      PriorPositive(f, l - 1);
      EntryPositive(f, below, 1);
    }
  }

  lemma {:induction false} SomeLeaf(f: seq<nat>, l: nat, t: nat)
    requires Positive(f) && 2 <= |f| && 1 <= t <= |f| + |Prior(f, l)|
    ensures Leaves(f, Prior(f, l), t) >= 1
  {
    if t == 1 {
      FirstIsLeaf(f, l);
    } else {
      SomeLeaf(f, l, t - 1);
    }
  }

  /** Two positive frequencies leave less than 65535 for each. */
  lemma {:induction false} BelowSentinel(f: seq<nat>, n: nat, i: nat)
    requires Positive(f) && i < n <= |f| && 2 <= n
    ensures f[i] < PrefixSum(f, n)
  {
    if i < n - 1 {
      if n > 2 {
        BelowSentinel(f, n - 1, i);
      } else {
        SumStep(f, 0);
      }
    } else {
      LeafLight(f, n - 1, 0);
    }
  }

  /** What the code's comparison of the next leaf and the next package, sentinels included, decides. */
  lemma Compared(f: seq<nat>, l: nat, t: nat, i: nat, leaf: nat, package: nat)
    requires Rising(f) && Positive(f) && 2 <= |f| && PrefixSum(f, |f|) <= U16MAX
    requires t < |f| + |Prior(f, l)| && i == Leaves(f, Prior(f, l), t)
    requires leaf == if i < |f| then f[i] else U16MAX
    requires if t - i < |Prior(f, l)| then Alike(package, Prior(f, l)[t - i]) else package == U16MAX
    ensures var b := Prior(f, l);
            if Entry(f, b, t) <= U16MAX
            then Entry(f, b, t) == (if leaf < package then leaf else package)
              && Leaves(f, b, t + 1) == i + if leaf < package then 1 else 0
            else t + 1 == |f| + |b| && (if leaf < package then leaf else package) >= U16MAX
  {
    hide Prior, Leaves, Entry;
    NextEntry(f, Prior(f, l), t);
    if i < |f| {
      BelowSentinel(f, |f|, i);
    }
    if t + 1 < |f| + |Prior(f, l)| {
      EntryLight(f, l, t);
    }
  }

  /** Seven frequencies of 1 and one of 65000. */
  ghost predicate Steep(f: seq<nat>) { |f| == 8 && f[7] == 65000 && forall i :: 0 <= i < 7 ==> f[i] == 1 }

  /** m light packages, then one that is heavier than all leaves. */
  ghost predicate OneHeavy(b: seq<nat>, m: nat) {
    |b| == m + 1 && b[m] > 65000 && forall j :: 0 <= j < m ==> 2 <= b[j] <= 4
  }

  lemma {:induction false} SteepLeaves(f: seq<nat>, b: seq<nat>, m: nat, t: nat)
    requires Steep(f) && OneHeavy(b, m) && t <= m + 9
    ensures Leaves(f, b, t) == if t <= 7 then t else if t <= m + 7 then 7 else 8
  {
    if t > 0 {
      SteepLeaves(f, b, m, t - 1);
    }
  }

  lemma SteepEntry(f: seq<nat>, b: seq<nat>, m: nat, t: nat)
    requires Steep(f) && OneHeavy(b, m) && t < m + 9
    ensures Entry(f, b, t) == if t < 7 then 1 else if t < m + 7 then b[t - 7] else if t == m + 7 then 65000 else b[m]
  {
    hide Leaves;
    SteepLeaves(f, b, m, t);
  }

  lemma SteepPackage(f: seq<nat>, b: seq<nat>, m: nat, k: nat)
    requires Steep(f) && OneHeavy(b, m) && 2 * k + 1 < m + 9
    ensures k <= 2 ==> Pairs(f, b)[k] == 2
    ensures k == 3 && m >= 1 ==> Pairs(f, b)[k] == 1 + b[0]
    ensures k >= 4 && 2 * k < m + 6 ==> Pairs(f, b)[k] == b[2 * k - 7] + b[2 * k - 6]
    ensures 2 * k == m + 7 ==> Pairs(f, b)[k] == 65000 + b[m]
  {
    hide Entry;
    SteepEntry(f, b, m, 2 * k);
    SteepEntry(f, b, m, 2 * k + 1);
  }

  lemma SteepPriors(f: seq<nat>)
    requires Steep(f)
    ensures |Prior(f, 1)| == 4 && OneHeavy(Prior(f, 1), 3) && Prior(f, 1)[0] == Prior(f, 1)[1] == Prior(f, 1)[2] == 2
    ensures |Prior(f, 2)| == 6 && OneHeavy(Prior(f, 2), 5) && Prior(f, 2)[5] > U16MAX
  {
    hide Prior, Entry;
    PriorIs(f, 0);
    PriorIs(f, 1);
    PriorIs(f, 2);
    forall t: nat | t < 8 ensures Entry(f, [], t) == f[t] {
      LeafEntry(f, t);
    }
    var b := Prior(f, 1);
    assert b[0] == b[1] == b[2] == 2 && b[3] == 65001;
    forall k: nat | k < 6 ensures k < 5 ==> 2 <= Prior(f, 2)[k] <= 4 {
      SteepPackage(f, b, 3, k);
    }
    SteepPackage(f, b, 3, 5);
  }

  /** The last entry of a level can outweigh the sentinel, and the code then takes the sentinel in its place. */
  lemma SentinelTaken(f: seq<nat>)
    requires Steep(f)
    ensures Rising(f) && Positive(f) && PrefixSum(f, 8) <= U16MAX
    ensures var b := Prior(f, 2); |f| + |b| == 14 && Leaves(f, b, 13) == |f| && Entry(f, b, 13) == b[5] > U16MAX
  {
    hide Prior, Leaves, Entry, Rising, Positive, PrefixSum;
    SteepFits(f);
    SteepPriors(f);
    SteepLeaves(f, Prior(f, 2), 5, 13);
    SteepEntry(f, Prior(f, 2), 5, 13);
  }

  lemma SteepFits(f: seq<nat>)
    requires Steep(f)
    ensures Rising(f) && Positive(f) && PrefixSum(f, 8) <= U16MAX
  {
    hide PrefixSum;
    SteepSum(f, 7);
    SumStep(f, 7);
  }

  lemma {:induction false} SteepSum(f: seq<nat>, n: nat)
    requires Steep(f) && n <= 7
    ensures PrefixSum(f, n) == n
  {
    if n > 0 {
      SteepSum(f, n - 1);
    }
  }

  /** The next entry of the merged list, found by comparing over the sentinels. */
  method TakeEntry(input: array<Fsym>, from: nat, num: nat, prev: array<nat>, packageNum: nat,
                   leafPos: nat, packagePos: nat, ghost f: seq<nat>, ghost l: nat)
    returns (weight: nat, leaf: bool)
    requires Guarded(input, from, num, f) && Packages(prev, packageNum, Prior(f, l))
    requires packageNum < prev.Length && prev[packageNum] == U16MAX
    requires leafPos + packagePos < num + packageNum
    requires leafPos == Leaves(f, Prior(f, l), leafPos + packagePos)
    ensures var b, t := Prior(f, l), leafPos + packagePos;
            if Entry(f, b, t) <= U16MAX
            then weight == Entry(f, b, t) && Leaves(f, b, t + 1) == leafPos + if leaf then 1 else 0
            else t + 1 == num + packageNum && weight >= U16MAX
  {
    hide Prior, Leaves, Entry;
    Compared(f, l, leafPos + packagePos, leafPos, input[from + leafPos].freq, prev[packagePos]);
    leaf := input[from + leafPos].freq < prev[packagePos];
    weight := if leaf then input[from + leafPos].freq else prev[packagePos];
  }

  /** Two neighbouring entries: the package they make, and the leaves up to either. */
  method TakePair(input: array<Fsym>, from: nat, num: nat, prev: array<nat>, packageNum: nat,
                  pnum: nat, leafPos: nat, ghost f: seq<nat>, ghost l: nat)
    returns (weight: nat, i: nat, j: nat)
    requires Guarded(input, from, num, f) && Packages(prev, packageNum, Prior(f, l))
    requires packageNum < prev.Length && prev[packageNum] == U16MAX
    requires 2 * pnum + 2 <= num + packageNum && leafPos == Leaves(f, Prior(f, l), 2 * pnum)
    ensures Alike(weight, Entry(f, Prior(f, l), 2 * pnum) + Entry(f, Prior(f, l), 2 * pnum + 1))
    ensures 1 <= i == Leaves(f, Prior(f, l), 2 * pnum + 1) && j >= 1
    ensures if Entry(f, Prior(f, l), 2 * pnum + 1) <= U16MAX then j == Leaves(f, Prior(f, l), 2 * pnum + 2)
            else 2 * pnum + 2 == num + packageNum
  {
    hide Prior, Leaves, Entry;
    SomeLeaf(f, l, 2 * pnum + 1);
    PriorPositive(f, l);
    EntryPositive(f, Prior(f, l), 2 * pnum);
    EntryPositive(f, Prior(f, l), 2 * pnum + 1);
    var first, leaf := TakeEntry(input, from, num, prev, packageNum, leafPos, 2 * pnum - leafPos, f, l);
    i := if leaf then leafPos + 1 else leafPos;
    var second;
    second, leaf := TakeEntry(input, from, num, prev, packageNum, i, 2 * pnum + 1 - i, f, l);
    j := if leaf then i + 1 else i;
    weight := first + second;
  }

  /** The leaves up to two entries, each less one, as bytes. */
  method PutPair(m: array2<nat>, l: nat, n: nat, i: nat, j: nat, ghost f: seq<nat>)
    requires Filled(m, f, l, n) && n + 2 <= 512 && n + 2 <= |f| + |Prior(f, l)| && |f| <= 256 && 1 <= i && 1 <= j
    requires i == Leaves(f, Prior(f, l), n + 1)
    requires Entry(f, Prior(f, l), n + 1) <= U16MAX ==> j == Leaves(f, Prior(f, l), n + 2)
    modifies m
    ensures Filled(m, f, l, n + 2)
    ensures forall k :: k != l && old(Row(m, f, k)) ==> Row(m, f, k)
  {
    hide Prior, Leaves, Entry;
    m[l, n] := (i - 1) % 256;
    m[l, n + 1] := (j - 1) % 256;
  }

  /** The next package of a level and its two places in the table. */
  method NextPair(input: array<Fsym>, from: nat, num: nat, prev: array<nat>, packageNum: nat, cur: array<nat>,
                  m: array2<nat>, l: nat, pnum: nat, leafPos: nat, ghost f: seq<nat>)
    returns (leafPos': nat)
    requires Guarded(input, from, num, f) && Packages(prev, packageNum, Prior(f, l))
    requires cur != prev && packageNum < prev.Length && prev[packageNum] == U16MAX && cur.Length == 257
    requires pnum < |Prior(f, l + 1)| <= 256 && leafPos == Leaves(f, Prior(f, l), 2 * pnum)
    requires PackedTo(cur, pnum, Prior(f, l + 1)) && Filled(m, f, l, 2 * pnum)
    modifies cur, m
    ensures PackedTo(cur, pnum + 1, Prior(f, l + 1)) && Filled(m, f, l, 2 * pnum + 2)
    ensures pnum + 1 < |Prior(f, l + 1)| ==> leafPos' == Leaves(f, Prior(f, l), 2 * pnum + 2)
    ensures forall k :: 0 <= k < l && old(Row(m, f, k)) ==> Row(m, f, k)
  {
    hide Prior, Leaves, Entry, Guarded, Filled, Row;
    PriorIs(f, l + 1);
    GuardedFits(input, from, num, f);
    var weight, i, j := TakePair(input, from, num, prev, packageNum, pnum, leafPos, f, l);
    PutPair(m, l, 2 * pnum, i, j, f);
    cur[pnum] := weight;
    leafPos' := j;
  }

  /** One level: merges the leaves with the packages below and pairs the result. */
  method FillLevel(input: array<Fsym>, from: nat, num: nat, prev: array<nat>, packageNum: nat,
                   cur: array<nat>, m: array2<nat>, l: nat, ghost f: seq<nat>)
    returns (pnum: nat)
    requires Guarded(input, from, num, f) && Packages(prev, packageNum, Prior(f, l))
    requires packageNum < num && prev.Length == 257
    requires cur != prev && cur.Length == 257 && m.Length0 == MAX_BIT_LEN && m.Length1 == 512 && l < MAX_BIT_LEN
    modifies prev, cur, m
    ensures pnum == |Prior(f, l + 1)| <= 256 && Packages(cur, pnum, Prior(f, l + 1))
    ensures Row(m, f, l)
    ensures forall k :: 0 <= k < l && old(Row(m, f, k)) ==> Row(m, f, k)
  {
    hide Prior, Leaves, Entry, Guarded;
    PriorIs(f, l + 1);
    GuardedFits(input, from, num, f);
    NoneTaken(f, Prior(f, l));
    var len := (packageNum + num) / 2;
    prev[packageNum] := U16MAX;
    var leafPos := 0;
    pnum := 0;
    while pnum < len
      invariant pnum <= len && (pnum < len ==> leafPos == Leaves(f, Prior(f, l), 2 * pnum))
      invariant PackedTo(cur, pnum, Prior(f, l + 1)) && Filled(m, f, l, 2 * pnum)
      invariant forall k :: 0 <= k < l && old(Row(m, f, k)) ==> Row(m, f, k)
      modifies cur, m
    {
      hide Filled, Row;
      leafPos := NextPair(input, from, num, prev, packageNum, cur, m, l, pnum, leafPos, f);
      pnum := pnum + 1;
    }
  }

  lemma GuardedFits(input: array<Fsym>, from: nat, num: nat, f: seq<nat>)
    requires Guarded(input, from, num, f)
    ensures |f| == num && 2 <= num <= 256
  {
  }

  lemma NoneTaken(a: seq<nat>, b: seq<nat>)
    ensures Leaves(a, b, 0) == 0
  {
  }

  /** Level 0 has leaves only. */
  method FirstLevel(input: array<Fsym>, from: nat, num: nat, cur: array<nat>, m: array2<nat>, ghost f: seq<nat>)
    returns (packageNum: nat)
    requires Guarded(input, from, num, f)
    requires cur.Length == 257 && m.Length0 == MAX_BIT_LEN && m.Length1 == 512
    modifies cur, m
    ensures packageNum == |Prior(f, 1)| == num / 2 && Packages(cur, packageNum, Prior(f, 1))
    ensures Row(m, f, 0)
  {
    hide Leaves, Entry;
    packageNum := num / 2;
    var a := 0;
    while a < 2 * packageNum
      invariant 0 <= a <= 2 * packageNum && forall t :: 0 <= t < a ==> m[0, t] == t
    {
      m[0, a] := a;
      a := a + 1;
    }
    PriorIs(f, 0);
    PriorIs(f, 1);
    a := 0;
    while a < packageNum
      invariant 0 <= a <= packageNum && forall k :: 0 <= k < a ==> cur[k] == Prior(f, 1)[k]
      modifies cur
    {
      LeafEntry(f, 2 * a);
      LeafEntry(f, 2 * a + 1);
      cur[a] := input[from + 2 * a].freq + input[from + 2 * a + 1].freq;
      a := a + 1;
    }
    forall t | 1 <= t <= 2 * packageNum ensures m[0, t - 1] + 1 == Leaves(f, Prior(f, 0), t) {
      OnlyLeaves(f, t);
    }
  }

  lemma LeafEntry(f: seq<nat>, t: nat)
    requires t < |f|
    ensures Entry(f, [], t) == f[t]
  {
    OnlyLeaves(f, t);
  }

  /** The table of all levels. */
  method FillTable(input: array<Fsym>, from: nat, num: nat, m: array2<nat>, ghost f: seq<nat>)
    requires Guarded(input, from, num, f)
    requires m.Length0 == MAX_BIT_LEN && m.Length1 == 512
    modifies m
    ensures forall l :: 0 <= l < MAX_BIT_LEN ==> Row(m, f, l)
  {
    hide Prior, Leaves, Entry, Row, Guarded, Packages;
    var even := new nat[257];
    var odd := new nat[257];
    GuardedFits(input, from, num, f);
    var packageNum := FirstLevel(input, from, num, even, m, f);
    var l := 1;
    while l < MAX_BIT_LEN
      invariant 1 <= l <= MAX_BIT_LEN && packageNum == |Prior(f, l)| <= 257
      invariant Packages(if (l - 1) % 2 == 0 then even else odd, packageNum, Prior(f, l))
      invariant forall k :: 0 <= k < l ==> Row(m, f, k)
      modifies even, odd, m
    {
      Deficit(f, l);
      var prev, cur := if l % 2 == 1 then even else odd, if l % 2 == 1 then odd else even;
      packageNum := FillLevel(input, from, num, prev, packageNum, cur, m, l, f);
      l := l + 1;
    }
  }

  // ---------------------------------------------------------------- reading the lengths off the table

  /** How many levels stop right behind leaf x. */
  function Marks(cs: seq<nat>, x: nat): (n: nat)
  {
    if cs == [] then 0 else Marks(cs[..|cs| - 1], x) + if cs[|cs| - 1] == x + 1 then 1 else 0
  }

  lemma {:induction false} LengthByMarks(cs: seq<nat>, x: nat)
    ensures LengthAt(cs, x) == Marks(cs, x) + LengthAt(cs, x + 1)
    decreases |cs|
  {
    if cs != [] {
      LengthByMarks(cs[..|cs| - 1], x);
    }
  }

  lemma {:induction false} NoMarks(cs: seq<nat>, x: nat)
    requires forall l :: 0 <= l < |cs| ==> cs[l] == 0
    ensures Marks(cs, x) == 0
    decreases |cs|
  {
    if cs != [] {
      NoMarks(cs[..|cs| - 1], x);
    }
  }

  lemma MarksSnoc(cs: seq<nat>, c: nat, x: nat)
    ensures Marks(cs + [c], x) == Marks(cs, x) + if c == x + 1 then 1 else 0
  {
    assert (cs + [c])[..|cs|] == cs;
  }

  lemma {:induction false} EmptyPlan(f: seq<nat>, l: nat)
    ensures forall k :: 0 <= k <= l ==> Plan(f, l, 0)[k] == 0
  {
    hide Prior, Leaves;
    NoneTaken(f, Prior(f, l));
    if l > 0 {
      EmptyPlan(f, l - 1);
    }
  }

  /** What is left of the plan below level a, with len entries to take there. */
  ghost function Remaining(f: seq<nat>, a: int, len: nat): (cs: seq<nat>)
    requires a >= 0 ==> len <= |f| + |Prior(f, a)|
  {
    if a < 0 then [] else Plan(f, a, len)
  }

  /** Nothing but frequencies inside from..to differs. */
  ghost predicate OnlyFreqs(s: seq<Fsym>, t: seq<Fsym>, from: nat, to: nat) {
    |s| == |t| && forall i :: 0 <= i < |s| ==> s[i].sym == t[i].sym && (from <= i < to || s[i] == t[i])
  }

  method SetFreq(input: array<Fsym>, i: nat, v: nat)
    requires i < input.Length
    modifies input
    ensures input[..] == old(input[..])[i := Fsym(v, old(input[i].sym))]
  {
    input[i] := Fsym(v, input[i].sym);
  }

  lemma LevelStep(f: seq<nat>, a: nat, len: nat)
    requires len <= |f| + |Prior(f, a)|
    ensures Rest(f, a, len) == 2 * (len - Leaves(f, Prior(f, a), len)) <= 2 * |Prior(f, a)|
  {
    hide Prior, Leaves;
  }

  /** Level a is next, and len of its entries are needed, none heavier than 65535; below level 0 nothing is. */
  ghost predicate Pending(f: seq<nat>, a: int, len: nat) {
    && -1 <= a < MAX_BIT_LEN && (a < 0 ==> len == 0)
    && (a >= 0 ==> len <= |f| + |Prior(f, a)| && len <= 2 * |Prior(f, a + 1)|)
    && (a >= 0 && len > 0 ==> Entry(f, Prior(f, a), len - 1) <= U16MAX)
  }

  /** The marks made so far are those of the plan but for the counts still to come. */
  ghost predicate Counted(s: seq<Fsym>, from: nat, num: nat, f: seq<nat>, rest: seq<nat>) {
    && from + num <= |s| && num == |f| && 2 <= num <= 256
    && forall x :: 0 <= x < num ==> s[from + x].freq + Marks(rest, x) == Marks(TopPlan(f), x)
  }

  lemma MarkMade(s: seq<Fsym>, from: nat, num: nat, f: seq<nat>, rest: seq<nat>, c: nat)
    requires Counted(s, from, num, f, rest + [c + 1]) && c < num
    ensures Counted(s[from + c := Fsym(s[from + c].freq + 1, s[from + c].sym)], from, num, f, rest)
  {
    hide Marks, TopPlan;
    forall x | 0 <= x < num ensures Marks(rest + [c + 1], x) == Marks(rest, x) + if x == c then 1 else 0 {
      MarksSnoc(rest, c + 1, x);
    }
  }

  lemma NextLevel(f: seq<nat>, a: nat, len: nat)
    requires Rising(f) && Pending(f, a, len) && len > 0
    ensures Pending(f, a - 1, Rest(f, a, len))
    ensures Remaining(f, a, len) == Remaining(f, a - 1, Rest(f, a, len)) + [Leaves(f, Prior(f, a), len)]
    ensures Rest(f, a, len) == 2 * (len - Leaves(f, Prior(f, a), len))
  {
    hide Prior, Leaves, Entry;
    LevelStep(f, a, len);
    if a > 0 && Rest(f, a, len) > 0 {
      RestLight(f, a, len);
    }
  }

  /** Marks the last leaf that level a uses. */
  method MarkLevel(input: array<Fsym>, from: nat, num: nat, m: array2<nat>, a: nat, len: nat, ghost f: seq<nat>)
    returns (len': nat)
    requires Rising(f) && Pending(f, a, len) && len > 0 && Row(m, f, a)
    requires Counted(input[..], from, num, f, Remaining(f, a, len))
    modifies input
    ensures Pending(f, a - 1, len') && Counted(input[..], from, num, f, Remaining(f, a - 1, len'))
    ensures OnlyFreqs(input[..], old(input[..]), from, from + num)
  {
    hide Prior, Leaves, Entry, Row, Counted, Remaining, Rest;
    var leafPos := ReadRow(m, a, len, f);
    NextLevel(f, a, len);
    CountedFits(input[..], from, num, f, Remaining(f, a, len));
    MarkMade(input[..], from, num, f, Remaining(f, a - 1, Rest(f, a, len)), leafPos);
    SetFreq(input, from + leafPos, input[from + leafPos].freq + 1);
    len' := 2 * (len - 1 - leafPos);
  }

  lemma CountedFits(s: seq<Fsym>, from: nat, num: nat, f: seq<nat>, rest: seq<nat>)
    requires Counted(s, from, num, f, rest)
    ensures from + num <= |s| && num == |f|
  {
  }

  lemma StartPending(f: seq<nat>)
    requires Rising(f) && 2 <= |f| <= 256 && PrefixSum(f, |f|) <= U16MAX
    ensures Pending(f, MAX_BIT_LEN - 1, 2 * |f| - 2)
    ensures Remaining(f, MAX_BIT_LEN - 1, 2 * |f| - 2) == TopPlan(f)
  {
    hide Prior, Leaves, Entry, Plan;
    TopList(f);
    EntryLight(f, MAX_BIT_LEN - 1, 2 * |f| - 3);
  }

  lemma NothingPending(f: seq<nat>, a: int)
    requires Pending(f, a, 0)
    ensures forall x :: Marks(Remaining(f, a, 0), x) == 0
  {
    hide Marks, Prior, Leaves, Entry, Plan;
    forall x: nat ensures Marks(Remaining(f, a, 0), x) == 0 {
      if a >= 0 {
        EmptyPlan(f, a);
      }
      NoMarks(Remaining(f, a, 0), x);
    }
  }

  /** Marks, for every level of the plan, the last leaf it uses. */
  method CountMarks(input: array<Fsym>, from: nat, num: nat, m: array2<nat>, ghost f: seq<nat>)
    requires from + num <= input.Length && |f| == num && 2 <= num <= 256
    requires Rising(f) && PrefixSum(f, num) <= U16MAX
    requires forall l :: 0 <= l < MAX_BIT_LEN ==> Row(m, f, l)
    requires forall i :: from <= i < from + num ==> input[i].freq == 0
    modifies input
    ensures forall x :: 0 <= x < num ==> input[from + x].freq == Marks(TopPlan(f), x)
    ensures OnlyFreqs(input[..], old(input[..]), from, from + num)
  {
    hide Row, Marks, Prior, Leaves, Entry, Plan, TopPlan;
    StartPending(f);
    var len: nat := 2 * num - 2;
    var a: int := MAX_BIT_LEN - 1;
    while a >= 0 && len > 0
      invariant -1 <= a < MAX_BIT_LEN && Pending(f, a, len) && (a < 0 ==> len == 0)
      invariant Counted(input[..], from, num, f, Remaining(f, a, len))
      invariant OnlyFreqs(input[..], old(input[..]), from, from + num)
      invariant forall l :: 0 <= l < MAX_BIT_LEN ==> Row(m, f, l)
      decreases a + 1
    {
      len := MarkLevel(input, from, num, m, a, len, f);
      a := a - 1;
    }
    NothingPending(f, a);
  }

  method ReadRow(m: array2<nat>, a: nat, len: nat, ghost f: seq<nat>) returns (leafPos: nat)
    requires a < MAX_BIT_LEN && Row(m, f, a) && 0 < len <= 2 * |Prior(f, a + 1)| && len <= |f| + |Prior(f, a)|
    requires Entry(f, Prior(f, a), len - 1) <= U16MAX
    ensures leafPos + 1 == Leaves(f, Prior(f, a), len) && leafPos < |f|
  {
    hide Prior;
    leafPos := m[a, len - 1];
  }

  /** Adds up the marks from the last symbol to the first. */
  method SumMarks(input: array<Fsym>, from: nat, num: nat, ghost cs: seq<nat>)
    requires from + num <= input.Length && num >= 1
    requires forall x :: 0 <= x < num ==> input[from + x].freq == Marks(cs, x)
    requires forall l :: 0 <= l < |cs| ==> cs[l] <= num
    modifies input
    ensures forall x :: 0 <= x < num ==> input[from + x].freq == LengthAt(cs, x)
    ensures OnlyFreqs(input[..], old(input[..]), from, from + num)
  {
    hide Marks, LengthAt;
    NoneAbove(cs, num);
    LengthByMarks(cs, num - 1);
    var b := input[from + num - 1].freq;
    var a: int := num - 2;
    while a >= 0
      invariant -1 <= a <= num - 2 && b == LengthAt(cs, a + 1)
      invariant forall x :: a < x < num ==> input[from + x].freq == LengthAt(cs, x)
      invariant forall x :: 0 <= x <= a ==> input[from + x].freq == Marks(cs, x)
      invariant OnlyFreqs(input[..], old(input[..]), from, from + num)
      decreases a + 1
    {
      LengthByMarks(cs, a);
      b := b + input[from + a].freq;
      SetFreq(input, from + a, b);
      a := a - 1;
    }
  }

  method ClearFreqs(input: array<Fsym>, from: nat, num: nat)
    requires from + num <= input.Length
    modifies input
    ensures forall i :: from <= i < from + num ==> input[i].freq == 0
    ensures OnlyFreqs(input[..], old(input[..]), from, from + num)
  {
    var a := 0;
    while a < num
      invariant 0 <= a <= num && forall i :: from <= i < from + a ==> input[i].freq == 0
      invariant OnlyFreqs(input[..], old(input[..]), from, from + num)
    {
      SetFreq(input, from + a, 0);
      a := a + 1;
    }
  }

  /** build_prefix_codes: the frequencies of input[from..from + num] become code lengths. */
  method BuildPrefixCodes(input: array<Fsym>, from: nat, num: nat, ghost f: seq<nat>)
    requires Holds(input, from, num, f) && 2 <= num <= 256 && Rising(f) && Positive(f)
    requires from + num < input.Length && PrefixSum(f, num) <= U16MAX
    modifies input
    ensures Holds(input, from, num, Lengths(f))
    ensures OnlyFreqs(input[..], old(input[..]), from, from + num + 1)
    ensures Kraft(Lengths(f), num) == FULL && Assignment(Lengths(f))
    ensures forall g: seq<nat> :: |g| == num && Assignment(g) ==> TotalBits(f, Lengths(f)) <= TotalBits(f, g)
  {
    hide Prior, Leaves, Row, Marks, LengthAt, Kraft, TotalBits, Assignment, Plan;
    SetFreq(input, from + num, U16MAX);
    var m := new nat[MAX_BIT_LEN, 512];
    FillTable(input, from, num, m, f);
    ClearFreqs(input, from, num);
    CountMarks(input, from, num, m, f);
    SumMarks(input, from, num, TopPlan(f));
    LengthsAreFull(f);
    forall g: seq<nat> | |g| == num && Assignment(g) ensures TotalBits(f, Lengths(f)) <= TotalBits(f, g) {
      Optimal(f, g);
    }
  }
}
