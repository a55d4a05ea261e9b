/** The carryless range coder on values: truncation instead of carries, and adaptive frequencies. */
module SubbotinSpec {
  import opened Arith
  import opened Bytes
  import opened ByteWindow
  import opened SymbolCounts

  const BOT := 0x1_0000

  // ---------------------------------------------------------------- frequencies

  /** What stands before symbol s. */
  function Cum(f: seq<nat>, s: nat): (c: nat)
    requires s <= |f|
  {
    Sum(f[..s])
  }

  lemma CumStep(f: seq<nat>, s: nat)
    requires s < |f|
    ensures Cum(f, s + 1) == Cum(f, s) + f[s]
  {
    assert f[..s + 1][..s] == f[..s];
  }

  lemma CumEnds(f: seq<nat>)
    ensures Cum(f, 0) == 0 && Cum(f, |f|) == Sum(f)
  {
    assert f[..|f|] == f;
  }

  lemma {:induction false} CumMono(f: seq<nat>, a: nat, b: nat)
    requires a <= b <= |f|
    ensures Cum(f, a) <= Cum(f, b)
    decreases b - a
  {
    hide Cum;
    if a < b {
      CumMono(f, a, b - 1);
      CumStep(f, b - 1);
    }
  }

  lemma {:induction false} SumRaised(f: seq<nat>, s: nat, d: nat, k: nat)
    requires s < |f| && k <= |f|
    ensures Cum(f[s := f[s] + d], k) == Cum(f, k) + if s < k then d else 0
    decreases k
  {
    hide Cum;
    var g := f[s := f[s] + d];
    if k == 0 {
      CumEnds(f);
      CumEnds(g);
    } else {
      SumRaised(f, s, d, k - 1);
      CumStep(f, k - 1);
      CumStep(g, k - 1);
    }
  }

  /** Rescaling takes at least half of every count away. */
  lemma {:induction false} HalvingTakes(f: seq<nat>, s: nat)
    requires s < |f|
    ensures Sum(Halved(f)) + f[s] / 2 <= Sum(f)
  {
    var n := |f| - 1;
    assert Halved(f)[..n] == Halved(f[..n]);
    if s < n {
      HalvingTakes(f[..n], s);
    } else if n > 0 {
      HalvingTakes(f[..n], 0);
    }
  }

  /** The total as a 32-bit word holds it. */
  function Total(f: seq<nat>): (t: nat)
    ensures t < WORD && t <= Sum(f)
  {
    Sum(f) % WORD
  }

  /** The counts with that of symbol s raised, in 32-bit arithmetic. */
  function Raised(f: seq<nat>, s: nat, incr: nat): (g: seq<nat>)
    requires s < |f|
    ensures |g| == |f|
  {
    f[s := (f[s] + incr) % WORD]
  }

  /** The counts after a symbol, halved upwards where the total passes the maximum. */
  function Adapted(f: seq<nat>, s: nat, incr: nat, maxFreq: nat): (g: seq<nat>)
    requires s < |f|
    ensures |g| == |f|
  {
    var g := Raised(f, s, incr);
    if Total(g) > maxFreq then Halved(g) else g
  }

  /** How many of n counts can be positive when they add up to at most 2^16. */
  function Filled(n: nat): (m: nat) { if n < BOT then n else BOT }

  /** Increments of up to 2^32 - 1 - 2^16 do not let any count or total wrap. */
  lemma RaisedPlain(f: seq<nat>, s: nat, incr: nat)
    requires s < |f| && Sum(f) <= BOT && incr + BOT < WORD
    ensures f[s] <= Sum(f) && Raised(f, s, incr) == f[s := f[s] + incr]
    ensures Total(Raised(f, s, incr)) == Sum(Raised(f, s, incr)) == Sum(f) + incr
  {
    hide Sum;
    RaisedTotal(f, s, incr);
    DivModUnique(f[s] + incr, WORD, 0, f[s] + incr);
    DivModUnique(Sum(f) + incr, WORD, 0, Sum(f) + incr);
  }

  /** An increment of 2^32 - v takes v off a count of at least v. */
  lemma RaisedBack(f: seq<nat>, s: nat, v: nat)
    requires s < |f| && Sum(f) <= BOT && 0 < v <= BOT && v <= f[s]
    ensures Raised(f, s, WORD - v) == f[s := f[s] - v] && Sum(Raised(f, s, WORD - v)) == Sum(f) - v
  {
    hide Sum;
    RaisedTotal(f, s, 0);
    DivModUnique(f[s] + WORD - v, WORD, 1, f[s] - v);
    SumUpdate(f, s, f[s] - v);
  }

  lemma AdaptedStays(f: seq<nat>, s: nat, incr: nat, maxFreq: nat)
    requires s < |f| && f[s] > 0 && Sum(f) <= BOT && maxFreq <= BOT && incr + Filled(|f|) <= BOT + 1
    ensures 0 < Sum(Adapted(f, s, incr, maxFreq)) <= BOT
    ensures forall k :: 0 <= k < |f| && f[k] > 0 ==> Adapted(f, s, incr, maxFreq)[k] > 0
  {
    hide Sum, Halved, Cum;
    RaisedPlain(f, s, incr);
    var g := Raised(f, s, incr);
    SumHalved(g);
    HalvingTakes(g, s);
  }

  lemma RaisedTotal(f: seq<nat>, s: nat, incr: nat)
    requires s < |f|
    ensures f[s] <= Sum(f) && Sum(f[s := f[s] + incr]) == Sum(f) + incr
  {
    hide Sum, Cum;
    SumRaised(f, s, incr, |f|);
    CumEnds(f);
    CumEnds(f[s := f[s] + incr]);
    CumStep(f, s);
    CumMono(f, s + 1, |f|);
  }

  /** One large count, then ones, then zeros. */
  function Steep(n: nat, ones: nat, a: nat): (f: seq<nat>)
    ensures |f| == n
  {
    seq(n, i requires 0 <= i < n => if i == 0 then a else if i <= ones then 1 else 0)
  }

  lemma {:induction false} SumSteep(n: nat, ones: nat, a: nat)
    requires 1 <= n
    ensures Sum(Steep(n, ones, a)) == a + if ones < n then ones else n - 1
  {
    assert Steep(n, ones, a)[..n - 1] == Steep(n - 1, ones, a);
    if n > 1 {
      SumSteep(n - 1, ones, a);
    }
  }

  lemma SteepAdapts(n: nat, ones: nat, a: nat, incr: nat)
    requires 1 <= n
    ensures Steep(n, ones, a)[0] == a && Steep(n, ones, a)[0 := a + incr] == Steep(n, ones, a + incr)
    ensures Halved(Steep(n, ones, a + incr)) == Steep(n, ones, (a + incr) - (a + incr) / 2)
  {
  }

  /** With a larger increment some table of counts gets a total that no longer fits a short range. */
  lemma AdaptedOverflows(n: nat, incr: nat, maxFreq: nat) returns (f: seq<nat>)
    requires n > 0 && maxFreq <= BOT && BOT + 1 < incr + Filled(n) && incr < WORD - 1
    ensures |f| == n && 0 < Sum(f) <= BOT && f[0] > 0 && Total(Adapted(f, 0, incr, maxFreq)) > BOT
    ensures incr + BOT < WORD ==> Sum(f) == BOT && f == Steep(n, Filled(n) - 1, BOT + 1 - Filled(n))
    ensures incr + BOT >= WORD ==> Sum(f) == 1 && Total(Adapted(f, 0, incr, maxFreq)) > 2 * BOT
  {
    hide Sum, Steep;
    var ones := if incr + BOT < WORD then Filled(n) - 1 else 0;
    var a: nat := if incr + BOT < WORD then BOT - ones else 1;
    f := Steep(n, ones, a);
    SteepAdapts(n, ones, a, incr);
    SumSteep(n, ones, a);
    SumSteep(n, ones, a + incr);
    SumSteep(n, ones, (a + incr) - (a + incr) / 2);
    DivModUnique(a + incr, WORD, 0, a + incr);
    SteepTotals(n, ones, a, incr);
  }

  lemma SteepTotals(n: nat, ones: nat, a: nat, incr: nat)
    requires n > 0 && ones < n && a + ones <= BOT && a + incr + ones < WORD
    ensures Total(Steep(n, ones, a + incr)) == a + incr + ones
    ensures Total(Steep(n, ones, (a + incr) - (a + incr) / 2)) == (a + incr) - (a + incr) / 2 + ones
  {
    hide Sum, Steep;
    SumSteep(n, ones, a + incr);
    SumSteep(n, ones, (a + incr) - (a + incr) / 2);
    DivModUnique(a + incr + ones, WORD, 0, a + incr + ones);
    DivModUnique((a + incr) - (a + incr) / 2 + ones, WORD, 0, (a + incr) - (a + incr) / 2 + ones);
  }

  /** An increment of 2^32 - 1 takes 1 off the count. */
  lemma AdaptedShrinks(f: seq<nat>, s: nat, maxFreq: nat)
    requires s < |f| && f[s] > 0 && Sum(f) <= BOT
    ensures Sum(Adapted(f, s, WORD - 1, maxFreq)) < Sum(f)
  {
    hide Sum, Halved, Raised;
    RaisedBack(f, s, 1);
    HalvingTakes(Raised(f, s, WORD - 1), s);
  }

  /** Every total stays within 2^16 exactly when the increment leaves room for the alphabet, or counts as -1. */
  lemma TotalsStayIff(n: nat, incr: nat, maxFreq: nat)
    requires n > 0 && maxFreq <= BOT && incr < WORD
    ensures (forall f: seq<nat>, s: nat :: |f| == n && Sum(f) <= BOT && s < n && f[s] > 0 ==>
               Total(Adapted(f, s, incr, maxFreq)) <= BOT)
            <==> incr + Filled(n) <= BOT + 1 || incr == WORD - 1
  {
    hide Sum, Adapted;
    if incr + Filled(n) <= BOT + 1 || incr == WORD - 1 {
      forall f: seq<nat>, s: nat | |f| == n && Sum(f) <= BOT && s < n && f[s] > 0
        ensures Total(Adapted(f, s, incr, maxFreq)) <= BOT
      {
        if incr == WORD - 1 {
          AdaptedShrinks(f, s, maxFreq);
        } else {
          AdaptedStays(f, s, incr, maxFreq);
        }
      }
    } else {
      var f := AdaptedOverflows(n, incr, maxFreq);
    }
  }

  /** Counts that still have parts in a range of 2^16, one for every symbol that had one. */
  ghost predicate StaysCodable(f: seq<nat>, g: seq<nat>)
    requires |f| == |g|
  {
    0 < Sum(g) <= BOT && forall k :: 0 <= k < |f| && f[k] > 0 ==> g[k] > 0
  }

  /** Adapting keeps every symbol codable exactly when the increment leaves room for the alphabet. */
  lemma StaysCodableIff(n: nat, incr: nat, maxFreq: nat)
    requires n > 0 && maxFreq <= BOT && incr < WORD
    ensures (forall f: seq<nat>, s: nat :: |f| == n && Sum(f) <= BOT && s < n && f[s] > 0 ==>
               StaysCodable(f, Adapted(f, s, incr, maxFreq)))
            <==> incr + Filled(n) <= BOT + 1
  {
    hide Sum, Adapted, Steep;
    if incr + Filled(n) <= BOT + 1 {
      forall f: seq<nat>, s: nat | |f| == n && Sum(f) <= BOT && s < n && f[s] > 0
        ensures StaysCodable(f, Adapted(f, s, incr, maxFreq))
      {
        AdaptedStays(f, s, incr, maxFreq);
      }
    } else if incr == WORD - 1 {
      var f := Steep(n, 0, 1);
      SumSteep(n, 0, 1);
      SteepAdapts(n, 0, 1, 0);
      AdaptedShrinks(f, 0, maxFreq);
    } else {
      var f := AdaptedOverflows(n, incr, maxFreq);
    }
  }

  /** A range has room for the parts of all counts exactly when their total has not wrapped. */
  lemma PartsFitIff(f: seq<nat>, range: nat)
    requires 0 < Total(f) <= range < WORD
    ensures Sum(f) * (range / Total(f)) <= range <==> Sum(f) < WORD
  {
    hide Sum;
    var unit := range / Total(f);
    DivAtLeast(range, Total(f), 1);
    if Sum(f) < WORD {
      DivModUnique(Sum(f), WORD, 0, Sum(f));
      assert range == unit * Sum(f) + range % Sum(f);
      assert unit * Sum(f) == Sum(f) * unit;
    } else {
      MulMono(1, unit, Sum(f));
      assert unit * Sum(f) == Sum(f) * unit;
    }
  }

  /** Two counts that a total of 32 bits takes for one. */
  lemma WrappedTotal()
    ensures Sum([0x8000_0000, 0x8000_0001]) == WORD + 1 && Total([0x8000_0000, 0x8000_0001]) == 1
  {
    SumEmpty([]);
    SumSnoc([], 0x8000_0000);
    SumSnoc([0x8000_0000], 0x8000_0001);
    assert [] + [0x8000_0000] == [0x8000_0000];
    assert [0x8000_0000] + [0x8000_0001] == [0x8000_0000, 0x8000_0001];
  }

  datatype Model = Model(freq: seq<nat>, incr: nat, maxFreq: nat, adapt: bool)

  /** The total stays within 2^16, so that a range of 2^16 still gives every count a part. */
  ghost predicate ModelOk(m: Model)
  {
    && 0 < Sum(m.freq) <= BOT && m.maxFreq <= BOT
    && (m.adapt ==> m.incr + Filled(|m.freq|) <= BOT + 1)
  }

  predicate Codable(m: Model, s: nat) { s < |m.freq| && m.freq[s] > 0 }

  function Step(m: Model, s: nat): (r: Model)
    requires ModelOk(m) && Codable(m, s)
    ensures ModelOk(r) && |r.freq| == |m.freq|
    ensures forall k :: Codable(m, k) ==> Codable(r, k)
  {
    if !m.adapt then m else
      AdaptedStays(m.freq, s, m.incr, m.maxFreq);
      m.(freq := Adapted(m.freq, s, m.incr, m.maxFreq))
  }

  // ---------------------------------------------------------------- intervals

  /** Neither end wraps, and an interval that touches 2^32 starts above the first 2^24. */
  ghost predicate IntervalOk(i: Interval)
  {
    && i.range > 0 && i.low < WORD && i.low + i.range <= WORD
    && (i.low + i.range == WORD ==> i.low >= TOP)
  }

  /** (low ^ (low + range)) < TOP in 32-bit arithmetic. */
  predicate SameTop(i: Interval) { i.low / TOP == (i.low + i.range) % WORD / TOP }

  /** range = -low & (BOT - 1) */
  function Truncated(i: Interval): (r: Interval)
  {
    Interval(i.low, (WORD - i.low % WORD) % BOT)
  }

  function Shift32(i: Interval): (r: Interval) { Interval(i.low % TOP * 256, i.range * 256 % WORD) }

  predicate Settled(i: Interval) { !SameTop(i) && i.range >= BOT }

  /** One turn of the renormalisation loop. */
  function Turn(i: Interval): (r: Interval)
  {
    Shift32(if SameTop(i) then i else Truncated(i))
  }

  /** The truncation never gives an empty range, never leaves the interval and ends it on a multiple of 2^24. */
  lemma TruncationOk(i: Interval)
    requires IntervalOk(i) && !SameTop(i) && i.range < BOT
    ensures 0 < Truncated(i).range <= i.range
    ensures i.low % TOP + Truncated(i).range == TOP
    ensures i.low + i.range == WORD ==> Truncated(i) == i
  {
    var q, r := i.low / TOP, i.low % TOP;
    if r + i.range < TOP {
      DivModUnique(i.low + i.range, TOP, q, r + i.range);
      assert false;
    }
    DivModUnique(WORD - i.low, BOT, (255 - q) * 256, TOP - r);
  }

  lemma TurnOk(i: Interval)
    requires IntervalOk(i) && !Settled(i)
    ensures IntervalOk(Turn(i))
    ensures Touches(i) ==> Touches(Turn(i))
    ensures Turn(i).range == 256 * (if SameTop(i) then i else Truncated(i)).range
    ensures i.low % TOP + (if SameTop(i) then i else Truncated(i)).range <= TOP
    ensures Touches(Turn(i)) == Touches(i) ==> Turn(i).range > i.range
  {
    if SameTop(i) {
    } else {
      TruncationOk(i);
    }
  }

  predicate Touches(i: Interval) { i.low + i.range == WORD }

  function Settle(i: Interval): (r: Interval)
    requires IntervalOk(i)
    ensures IntervalOk(r) && r.range >= BOT
    decreases if Touches(i) then 0 else 1, WORD - i.range
  {
    if Settled(i) then i else
      TurnOk(i);
      Settle(Turn(i))
  }

  function Turns(i: Interval, k: nat): (r: Interval)
    decreases k
  {
    if k == 0 then i else Turns(Turn(i), k - 1)
  }

  /** The part of a symbol whose count is 0 is empty, and the renormalisation loop never leaves an empty part. */
  lemma {:induction false} EmptyNeverSettles(i: Interval, k: nat)
    requires i.low < WORD && i.range == 0
    ensures !Settled(Turns(i, k))
    decreases k
  {
    if k > 0 {
      EmptyNeverSettles(Turn(i), k - 1);
    }
  }

  // ---------------------------------------------------------------- bytes

  ghost predicate Within(i: Interval, t: seq<byte>) { i.low <= Window(t) < i.low + i.range }

  /** The bytes shifted out while settling, in front of t. */
  function Unsettle(i: Interval, t: seq<byte>): (u: seq<byte>)
    requires IntervalOk(i)
    decreases if Touches(i) then 0 else 1, WORD - i.range
  {
    if Settled(i) then t else
      TurnOk(i);
      [i.low / TOP] + Unsettle(Turn(i), t)
  }

  lemma SettleTurn(i: Interval)
    requires IntervalOk(i)
    ensures Settled(i) ==> Settle(i) == i && Unsettle(i, []) == []
    ensures !Settled(i) ==> IntervalOk(Turn(i)) && Settle(i) == Settle(Turn(i))
    ensures !Settled(i) ==> Unsettle(i, []) == [i.low / TOP] + Unsettle(Turn(i), [])
    ensures !Settled(i) ==>
      (if Touches(i) then 0 else 1) > (if Touches(Turn(i)) then 0 else 1)
      || ((Touches(i) <==> Touches(Turn(i))) && WORD - i.range > WORD - Turn(i).range)
    ensures !Settled(i) ==> Turn(i).range <= WORD
  {
    if !Settled(i) {
      TurnOk(i);
    }
  }

  /** The decoder's input after settling: one byte dropped for each shift. */
  function Skip(i: Interval, cur: seq<byte>): (r: seq<byte>)
    requires IntervalOk(i)
    decreases if Touches(i) then 0 else 1, WORD - i.range
  {
    if Settled(i) then cur else
      TurnOk(i);
      Skip(Turn(i), Rest(cur))
  }

  lemma TurnBack(i: Interval, t: seq<byte>)
    requires IntervalOk(i) && !Settled(i) && Within(Turn(i), t)
    ensures Within(i, [i.low / TOP] + t)
  {
    TurnOk(i);
    if !SameTop(i) { TruncationOk(i); }
    WindowShift([i.low / TOP] + t);
    assert Rest([i.low / TOP] + t) == t;
  }

  /** Truncated or not, every shift keeps the code inside the interval it came from. */
  lemma {:induction false} SettleBack(i: Interval, t: seq<byte>)
    requires IntervalOk(i) && Within(Settle(i), t)
    ensures Within(i, Unsettle(i, t)) && Skip(i, Unsettle(i, t)) == t
    decreases if Touches(i) then 0 else 1, WORD - i.range
  {
    hide Window, Turn;
    if !Settled(i) {
      TurnOk(i);
      SettleBack(Turn(i), t);
      TurnBack(i, Unsettle(Turn(i), t));
      assert Rest(Unsettle(i, t)) == Unsettle(Turn(i), t);
    }
  }

  // ---------------------------------------------------------------- one symbol

  /** low += cumFreq * (range / total), range = range / total * freq */
  function Share(i: Interval, f: seq<nat>, s: nat): (r: Interval)
    requires 0 < Sum(f) && s < |f|
  {
    var unit := i.range / Sum(f);
    Interval(i.low + Times(Cum(f, s), unit), Times(f[s], unit))
  }

  lemma ShareOk(i: Interval, f: seq<nat>, s: nat)
    requires IntervalOk(i) && 0 < Sum(f) <= i.range && s < |f| && f[s] > 0
    ensures i.range / Sum(f) > 0
    ensures IntervalOk(Share(i, f, s))
    ensures i.low <= Share(i, f, s).low && Share(i, f, s).low + Share(i, f, s).range <= i.low + i.range
  {
    hide Sum, Cum;
    var total := Sum(f);
    var unit := i.range / total;
    DivAtLeast(i.range, total, 1);
    CumStep(f, s);
    CumMono(f, s + 1, |f|);
    CumEnds(f);
    PartInside(Cum(f, s), f[s], total, unit, i.range);
  }

  function Part(i: Interval, m: Model, s: nat): (r: Interval)
    requires ModelOk(m) && s < |m.freq|
  {
    Share(i, m.freq, s)
  }

  lemma PartOk(i: Interval, m: Model, s: nat)
    requires IntervalOk(i) && i.range >= BOT && ModelOk(m) && Codable(m, s)
    ensures i.range / Sum(m.freq) > 0
    ensures IntervalOk(Part(i, m, s))
    ensures i.low <= Part(i, m, s).low && Part(i, m, s).low + Part(i, m, s).range <= i.low + i.range
  {
    hide Share, Sum;
    ShareOk(i, m.freq, s);
  }

  lemma PartInside(c: nat, f: nat, total: nat, unit: nat, range: nat)
    requires 0 < f && c + f <= total && 0 < unit && total > 0 && unit == range / total
    ensures 0 <= c * unit && 0 < f * unit && c * unit + f * unit <= range
  {
    MulMono(1, f, unit);
    MulMono(0, c, unit);
    MulMono(c + f, total, unit);
    Distrib(c, 0 - f, unit);
    assert range == unit * total + range % total;
    assert unit * total == total * unit;
    assert c * unit - (0 - f) * unit == c * unit + f * unit;
  }

  function Narrow(i: Interval, m: Model, s: nat): (r: Interval)
    requires IntervalOk(i) && i.range >= BOT && ModelOk(m) && Codable(m, s)
    ensures IntervalOk(r) && r.range >= BOT
  {
    PartOk(i, m, s);
    Settle(Part(i, m, s))
  }

  // ---------------------------------------------------------------- ranges and totals

  /** The interval that coding symbol s leaves behind. */
  function After(i: Interval, f: seq<nat>, s: nat): (r: Interval)
    requires IntervalOk(i) && 0 < Sum(f) <= i.range && s < |f| && f[s] > 0
    ensures IntervalOk(r) && r.range >= BOT
  {
    ShareOk(i, f, s);
    Settle(Share(i, f, s))
  }

  /** The range that coding symbol s first leaves behind. */
  function FirstRange(f: seq<nat>, s: nat): (r: nat)
    requires 0 < Sum(f) <= BOT && s < |f| && f[s] > 0
    ensures r >= BOT
  {
    After(Whole(), f, s).range
  }

  lemma {:induction false} SumOfParts(a: seq<nat>, b: seq<nat>)
    ensures Sum(a + b) == Sum(a) + Sum(b)
  {
    if b == [] {
      assert a + b == a;
    } else {
      var n := |b| - 1;
      assert (a + b)[..|a| + n] == a + b[..n];
      SumOfParts(a, b[..n]);
    }
  }

  lemma SumOfFour(a: nat, b: nat, c: nat, d: nat)
    ensures Sum([a, b, c, d]) == a + b + c + d
  {
    SumEmpty([]);
    SumSnoc([], a);
    SumSnoc([a], b);
    SumSnoc([a, b], c);
    SumSnoc([a, b, c], d);
    assert [] + [a] == [a] && [a] + [b] == [a, b] && [a, b] + [c] == [a, b, c] && [a, b, c] + [d] == [a, b, c, d];
  }

  /** Symbol 2 has the count c, 256 before it, and what fills up 2^16 behind it, in odd counts where possible. */
  function Tight(n: nat, c: nat): (f: seq<nat>)
    requires 4 <= n <= BOT - 254
    ensures |f| == n && f[2] == c
  {
    [255, 1, c, BOT - 253 - n] + Ones(n - 4)
  }

  lemma SumTight(n: nat, c: nat)
    requires 4 <= n <= BOT - 254
    ensures Sum(Tight(n, c)) == BOT - 1 + c && Cum(Tight(n, c), 2) == 256
    ensures Sum(Halved(Tight(n, c))) == 129 + (c + 1) / 2 + (BOT - 252 - n) / 2 + (n - 4)
  {
    hide Sum;
    var d: nat := BOT - 253 - n;
    var f := Tight(n, c);
    SumOnes(n - 4);
    SumOfParts([255, 1, c, d], Ones(n - 4));
    SumOfFour(255, 1, c, d);
    SumOfFour(128, 1, (c + 1) / 2, (d + 1) / 2);
    assert Halved(f) == [128, 1, (c + 1) / 2, (d + 1) / 2] + Ones(n - 4);
    SumOfParts([128, 1, (c + 1) / 2, (d + 1) / 2], Ones(n - 4));
    CumEnds(f);
    CumStep(f, 0);
    CumStep(f, 1);
  }

  /** An interval that crosses the multiple of 2^24 that is d above its start is truncated to d. */
  lemma Truncates(i: Interval, d: nat)
    requires IntervalOk(i) && i.range < BOT && !SameTop(i) && (d == 1 || d == 256) && i.low % TOP + d == TOP
    ensures Settle(i) == Interval(WORD - BOT, BOT)
  {
    hide Settle, Unsettle;
    SettleTurn(i);
    TruncatedTurn(i, d);
    LastTurns();
  }

  lemma TruncatedTurn(i: Interval, d: nat)
    requires IntervalOk(i) && i.range < BOT && !SameTop(i) && d <= 256 && i.low % TOP + d == TOP
    ensures Turn(i) == Interval(WORD - 256 * d, 256 * d)
  {
    TruncationOk(i);
  }

  lemma LastTurns()
    ensures var j, k := Interval(WORD - 256, 256), Interval(WORD - BOT, BOT);
            IntervalOk(j) && IntervalOk(k) && Settle(j) == Settle(k) == k
  {
    hide Settle, Unsettle;
    var j, k := Interval(WORD - 256, 256), Interval(WORD - BOT, BOT);
    assert Settled(k) && !Settled(j) && IntervalOk(j) && IntervalOk(k) && Turn(j) == k;
    SettleTurn(j);
    SettleTurn(k);
  }

  /** Coding symbol 2 truncates the range to 256, and one shift makes it 2^16. */
  lemma TightRange(n: nat)
    requires 4 <= n <= BOT - 254
    ensures Sum(Tight(n, 1)) == BOT && FirstRange(Tight(n, 1), 2) == BOT
  {
    hide Sum, Cum, Settle;
    SumTight(n, 1);
    var i := Interval(256 * 65535, 65535);
    assert Share(Whole(), Tight(n, 1), 2) == i;
    Truncates(i, 256);
  }

  lemma TightRaised(n: nat, incr: nat)
    requires 4 <= n <= BOT - 254
    ensures Tight(n, 1)[2 := 1 + incr] == Tight(n, 1 + incr)
  {
  }

  /** 1 where the increment and the number of symbols are odd. */
  function BothOdd(n: nat, incr: nat): (r: bit) { if n % 2 == 1 && incr % 2 == 1 then 1 else 0 }

  lemma TightPasses(n: nat, incr: nat)
    requires 4 <= n <= BOT - 254 && incr + n > BOT + 1 + BothOdd(n, incr)
    ensures 129 + (incr + 2) / 2 + (BOT - 252 - n) / 2 + (n - 4) > BOT && BOT + incr > BOT
  {
    var a, b := incr / 2, n / 2;
    assert incr == 2 * a + incr % 2 && n == 2 * b + n % 2;
    assert (incr + 2) / 2 == a + 1;
    assert (BOT - 252 - n) / 2 == BOT / 2 - 126 - b - n % 2;
  }

  /** Without room for the increment a total passes 2^16 while the range is 2^16: no count has a part any more. */
  lemma RangeSpent(n: nat, incr: nat, maxFreq: nat) returns (f: seq<nat>)
    requires 4 <= n <= BOT - 254 && maxFreq <= BOT
    requires incr + n > BOT + 1 + BothOdd(n, incr) && incr + BOT < WORD
    ensures |f| == n && Sum(f) == BOT && f[2] == 1
    ensures FirstRange(f, 2) == BOT < Total(Adapted(f, 2, incr, maxFreq))
    ensures BOT / Total(Adapted(f, 2, incr, maxFreq)) == 0
  {
    hide Sum, Tight, Halved, FirstRange;
    f := Tight(n, 1);
    TightRange(n);
    RaisedPlain(f, 2, incr);
    var g := Raised(f, 2, incr);
    TightRaised(n, incr);
    SumTight(n, 1 + incr);
    TightPasses(n, incr);
    assert Adapted(f, 2, incr, maxFreq) == Halved(g);
    HalvingTakes(g, 2);
    DivModUnique(Sum(Halved(g)), WORD, 0, Sum(Halved(g)));
    DivModUnique(BOT, Sum(Halved(g)), 0, BOT);
  }

  /** Halving adds nothing to an even count. */
  lemma SumHalvedEven(c: seq<nat>, s: nat)
    requires s < |c| && c[s] % 2 == 0
    ensures 2 * Sum(Halved(c)) < Sum(c) + |c|
  {
    hide Sum;
    var odd := c[s := c[s] + 1];
    assert Halved(odd) == Halved(c)[s := Halved(c)[s] + 1];
    SumUpdate(c, s, c[s] + 1);
    SumUpdate(Halved(c), s, Halved(c)[s] + 1);
    SumHalved(odd);
  }

  /** Without a truncation the range does not get shorter. */
  lemma {:induction false} SettleGrows(i: Interval)
    requires IntervalOk(i) && i.range >= BOT
    ensures Settle(i).range >= i.range
    decreases if Touches(i) then 0 else 1, WORD - i.range
  {
    hide Turn, Truncated;
    if !Settled(i) {
      TurnOk(i);
      SettleGrows(Turn(i));
    }
  }

  /** A count of at least 2 leaves the first range longer than 2^16. */
  lemma FirstRangeLong(f: seq<nat>, s: nat)
    requires 0 < Sum(f) <= BOT && s < |f| && f[s] >= 2
    ensures FirstRange(f, s) > BOT
  {
    hide Sum, Settle, Cum;
    var i := Share(Whole(), f, s);
    ShareOk(Whole(), f, s);
    var unit := (WORD - 1) / Sum(f);
    DivAtLeast(WORD - 1, Sum(f), 65535);
    MulMono(Sum(f), BOT, 65535);
    MulMono(2, f[s], unit);
    assert i.range == f[s] * unit;
    SettleGrows(i);
  }

  lemma AdaptedTotal(f: seq<nat>, s: nat, incr: nat, maxFreq: nat)
    requires s < |f| && maxFreq <= BOT
    ensures Total(Adapted(f, s, incr, maxFreq)) <= BOT
            || Total(Adapted(f, s, incr, maxFreq)) <= Sum(Halved(Raised(f, s, incr)))
  {
    hide Sum, Total, Raised;
  }

  /** With an odd alphabet and an odd increment one more fits: only symbol s could have a count of 1. */
  lemma FirstCovered(f: seq<nat>, s: nat, incr: nat, maxFreq: nat)
    requires 0 < Sum(f) <= BOT && s < |f| && f[s] > 0 && maxFreq <= BOT
    requires 4 <= |f| <= BOT - 254 && incr + |f| <= BOT + 1 + BothOdd(|f|, incr) && incr + BOT < WORD
    ensures Total(Adapted(f, s, incr, maxFreq)) <= FirstRange(f, s)
  {
    hide Sum, Total, FirstRange, Halved, Adapted, BothOdd, Raised;
    RaisedPlain(f, s, incr);
    var g := Raised(f, s, incr);
    AdaptedTotal(f, s, incr, maxFreq);
    SumHalved(g);
    if f[s] >= 2 {
      FirstRangeLong(f, s);
    } else if BothOdd(|f|, incr) == 1 {
      assert incr % 2 == 1 by { BothAreOdd(|f|, incr); }
      assert g[s] == 1 + incr;
      SumHalvedEven(g, s);
    }
  }

  lemma BothAreOdd(n: nat, incr: nat)
    ensures BothOdd(n, incr) <= 1 && (BothOdd(n, incr) == 1 ==> incr % 2 == 1)
  {
  }

  /** The first range covers the adapted total exactly when the increment leaves room. */
  lemma RangeCoversIff(n: nat, incr: nat, maxFreq: nat)
    requires 4 <= n <= BOT - 254 && incr + BOT < WORD && maxFreq <= BOT
    ensures (forall f: seq<nat>, s: nat :: |f| == n && 0 < Sum(f) <= BOT && s < n && f[s] > 0 ==>
               Total(Adapted(f, s, incr, maxFreq)) <= FirstRange(f, s))
            <==> incr + n <= BOT + 1 + BothOdd(n, incr)
  {
    hide Sum, Adapted, FirstRange, BothOdd;
    if incr + n <= BOT + 1 + BothOdd(n, incr) {
      forall f: seq<nat>, s: nat | |f| == n && 0 < Sum(f) <= BOT && s < n && f[s] > 0
        ensures Total(Adapted(f, s, incr, maxFreq)) <= FirstRange(f, s)
      {
        FirstCovered(f, s, incr, maxFreq);
      }
    } else {
      var f := RangeSpent(n, incr, maxFreq);
      assert f[2] > 0;
    }
  }

  // ---------------------------------------------------------------- whole runs

  /** A symbol coded with some table of counts: several models may share one encoder. */
  datatype Coded = Coded(freq: seq<nat>, sym: nat)

  ghost predicate CodedOk(c: Coded) { 0 < Sum(c.freq) <= BOT && c.sym < |c.freq| && c.freq[c.sym] > 0 }

  /** The interval that the start leads to over symbols coded before. */
  function Reached(before: seq<Coded>): (i: Interval)
    requires forall c :: c in before ==> CodedOk(c)
    ensures IntervalOk(i) && i.range >= BOT
  {
    if before == [] then Whole() else
      var n := |before| - 1;
      AfterCoded(Reached(before[..n]), before[n])
  }

  function AfterCoded(i: Interval, c: Coded): (r: Interval)
    requires IntervalOk(i) && i.range >= BOT && CodedOk(c)
    ensures IntervalOk(r) && r.range >= BOT
  {
    After(i, c.freq, c.sym)
  }

  /** Through a run of codable symbols the range always has a part for every count. */
  ghost predicate Covered(i: Interval, f: seq<nat>, incr: nat, maxFreq: nat, syms: seq<nat>)
    requires IntervalOk(i) && Sum(f) <= i.range
    decreases |syms|
  {
    syms == [] || !(syms[0] < |f| && f[syms[0]] > 0)
    || (RaisedTotal(f, syms[0], 0);
        var g, j := Adapted(f, syms[0], incr, maxFreq), After(i, f, syms[0]);
        Sum(g) <= j.range && Covered(j, g, incr, maxFreq, syms[1..]))
  }

  lemma {:induction false} RunCovered(i: Interval, f: seq<nat>, incr: nat, maxFreq: nat, syms: seq<nat>)
    requires IntervalOk(i) && i.range >= BOT && Sum(f) <= BOT && maxFreq <= BOT
    requires incr + Filled(|f|) <= BOT + 1 || incr == WORD - 1
    ensures Covered(i, f, incr, maxFreq, syms)
    decreases |syms|
  {
    hide Sum, Adapted, After, Filled;
    if syms != [] && syms[0] < |f| && f[syms[0]] > 0 {
      var s := syms[0];
      RaisedTotal(f, s, 0);
      if incr == WORD - 1 {
        AdaptedShrinks(f, s, maxFreq);
      } else {
        AdaptedStays(f, s, incr, maxFreq);
      }
      RunCovered(After(i, f, s), Adapted(f, s, incr, maxFreq), incr, maxFreq, syms[1..]);
    }
  }

  /** One symbol of another model brings the encoder to one below 2^30, with a range below 2^17. */
  lemma CloseBelow() returns (c: Coded)
    ensures CodedOk(c) && Reached([c]) == Interval(0x3FFF_FFFF, 112871)
  {
    hide Settle;
    c := Coded([9513, 1, 28538, 0], 1);
    SumOfFour(9513, 1, 28538, 0);
    CumEnds(c.freq);
    CumStep(c.freq, 0);
    var i := Interval(0x3FFF_FFFF, 112871);
    assert Share(Whole(), c.freq, 1) == i;
    SettleTurn(i);
    assert [c][..0] == [];
    assert Reached([]) == Whole();
  }

  /** There a table with one large count and ones gets its first symbol truncated to 1, which leaves a range of 2^16. */
  lemma SteepRange(f: seq<nat>)
    requires f != [] && f[0] > 0 && (Sum(f) == BOT || f[0] == Sum(f) == 1)
    ensures var r := After(Interval(0x3FFF_FFFF, 112871), f, 0).range; r == if Sum(f) == 1 then 112871 else BOT
  {
    hide Sum, Settle, Cum;
    var i := Interval(0x3FFF_FFFF, 112871);
    CumEnds(f);
    RaisedTotal(f, 0, 0);
    var p := Share(i, f, 0);
    assert p == Interval(i.low, if Sum(f) == 1 then i.range else f[0]);
    if p.range < BOT {
      Truncates(p, 1);
    } else {
      SettleTurn(p);
    }
  }

  /**
   * Over all runs, whatever other models were used before, the range covers the counts exactly when the increment
   * leaves room for the alphabet, or counts as -1.
   */
  lemma RunsCoveredIff(n: nat, incr: nat, maxFreq: nat)
    requires n > 0 && maxFreq <= BOT && incr < WORD
    ensures (forall before: seq<Coded>, f: seq<nat>, syms: seq<nat> ::
               (forall c :: c in before ==> CodedOk(c)) && |f| == n && Sum(f) <= BOT ==>
               Covered(Reached(before), f, incr, maxFreq, syms))
            <==> incr + Filled(n) <= BOT + 1 || incr == WORD - 1
  {
    hide Sum, Covered, Filled, Reached, CodedOk;
    if incr + Filled(n) <= BOT + 1 || incr == WORD - 1 {
      forall before: seq<Coded>, f: seq<nat>, syms: seq<nat> |
        (forall c :: c in before ==> CodedOk(c)) && |f| == n && Sum(f) <= BOT
        ensures Covered(Reached(before), f, incr, maxFreq, syms)
      {
        RunCovered(Reached(before), f, incr, maxFreq, syms);
      }
    } else {
      var c := CloseBelow();
      var f := SpentAfter(n, incr, maxFreq);
      assert !Covered(Reached([c]), f, incr, maxFreq, [0]);
    }
  }

  lemma SpentAfter(n: nat, incr: nat, maxFreq: nat) returns (f: seq<nat>)
    requires n > 0 && maxFreq <= BOT && BOT + 1 < incr + Filled(n) && incr < WORD - 1
    ensures |f| == n && Sum(f) <= BOT && !Covered(Interval(0x3FFF_FFFF, 112871), f, incr, maxFreq, [0])
  {
    hide Sum, Adapted, After, Filled, Steep;
    f := AdaptedOverflows(n, incr, maxFreq);
    RaisedTotal(f, 0, 0);
    SteepRange(f);
  }

  // ---------------------------------------------------------------- decoder

  /** cur starts with the four bytes in code. */
  datatype Reader = Reader(i: Interval, cur: seq<byte>)

  /** (code - low) / (range / total) in 32-bit arithmetic. */
  function Target(r: Reader, m: Model): (t: nat)
    requires ModelOk(m) && r.i.range >= BOT && r.i.low < WORD
  {
    DivAtLeast(r.i.range, Sum(m.freq), 1);
    (Window(r.cur) - r.i.low) % WORD / (r.i.range / Sum(m.freq))
  }

  /** The first symbol at or after s whose part reaches beyond t. */
  function FindFrom(f: seq<nat>, t: nat, s: nat): (r: nat)
    requires s < |f|
    ensures s <= r < |f|
    decreases |f| - s
  {
    if s + 1 < |f| && Cum(f, s + 1) <= t then FindFrom(f, t, s + 1) else s
  }

  lemma {:induction false} FindIs(f: seq<nat>, t: nat, s: nat, r: nat)
    requires s <= r < |f| && Cum(f, r) <= t < Cum(f, r + 1)
    ensures FindFrom(f, t, s) == r
    decreases r - s
  {
    hide Cum;
    if s < r {
      CumMono(f, s + 1, r);
      FindIs(f, t, s + 1, r);
    }
  }

  /** The symbol of the interval's part that holds the code; None is the symbol error. */
  function DecodeSymbol(r: Reader, m: Model): (s: Option<nat>)
    requires ModelOk(m) && r.i.range >= BOT && r.i.low < WORD
    ensures s.Some? ==> s.value < |m.freq| && s.value == FindFrom(m.freq, Target(r, m), 0)
  {
    if Target(r, m) >= Sum(m.freq) then None else Some(FindFrom(m.freq, Target(r, m), 0))
  }

  lemma {:induction false} FindHolds(f: seq<nat>, t: nat, s: nat)
    requires s < |f| && Cum(f, s) <= t < Sum(f)
    ensures Cum(f, FindFrom(f, t, s)) <= t < Cum(f, FindFrom(f, t, s) + 1)
    decreases |f| - s
  {
    hide Cum;
    CumEnds(f);
    if s + 1 < |f| && Cum(f, s + 1) <= t {
      FindHolds(f, t, s + 1);
    }
  }

  lemma FoundCodable(m: Model, t: nat)
    requires ModelOk(m) && t < Sum(m.freq)
    ensures |m.freq| > 0
    ensures var s := FindFrom(m.freq, t, 0); Codable(m, s) && Cum(m.freq, s) <= t < Cum(m.freq, s + 1)
  {
    hide Cum;
    CumEnds(m.freq);
    FindHolds(m.freq, t, 0);
    CumStep(m.freq, FindFrom(m.freq, t, 0));
  }

  function AfterSymbol(r: Reader, m: Model, s: nat): (r': Reader)
    requires IntervalOk(r.i) && r.i.range >= BOT && ModelOk(m) && Codable(m, s)
    ensures IntervalOk(r'.i) && r'.i.range >= BOT
  {
    PartOk(r.i, m, s);
    Reader(Narrow(r.i, m, s), Skip(Part(r.i, m, s), r.cur))
  }

  /** A code inside the part of s is decoded as s. */
  lemma DecodeIs(r: Reader, m: Model, s: nat)
    requires IntervalOk(r.i) && r.i.range >= BOT && ModelOk(m) && Codable(m, s)
    requires Within(Part(r.i, m, s), r.cur)
    ensures DecodeSymbol(r, m) == Some(s)
  {
    hide Sum, Cum, Window;
    PartOk(r.i, m, s);
    var unit := r.i.range / Sum(m.freq);
    var v := Window(r.cur) - r.i.low;
    CumStep(m.freq, s);
    InPart(v, Cum(m.freq, s), m.freq[s], unit);
    CumMono(m.freq, s + 1, |m.freq|);
    CumEnds(m.freq);
    FindIs(m.freq, v / unit, 0, s);
  }

  lemma InPart(v: nat, c: nat, f: nat, unit: nat)
    requires unit > 0 && c * unit <= v < c * unit + f * unit
    ensures c <= v / unit < c + f
  {
    DivAtLeast(v, unit, c);
    DivAtLeast(v, unit, c + f);
    Distrib(c, 0 - f, unit);
    assert c * unit - (0 - f) * unit == c * unit + f * unit;
  }

  // ---------------------------------------------------------------- messages

  ghost predicate AllCodable(m: Model, syms: seq<nat>) { forall k :: 0 <= k < |syms| ==> Codable(m, syms[k]) }

  lemma LowWithin(i: Interval, trail: seq<byte>)
    requires IntervalOk(i)
    ensures Within(i, LowBytes(i.low) + trail)
  {
    LowBytesWindow(i.low, trail);
  }

  /** The code of the symbols from interval i on: shifted bytes, the final low, then trail. */
  function Code(i: Interval, m: Model, syms: seq<nat>, trail: seq<byte>): (t: seq<byte>)
    requires IntervalOk(i) && i.range >= BOT && ModelOk(m) && AllCodable(m, syms)
    ensures Within(i, t)
    decreases |syms|
  {
    if syms == [] then
      LowWithin(i, trail);
      LowBytes(i.low) + trail
    else
      var t := Code(Narrow(i, m, syms[0]), Step(m, syms[0]), syms[1..], trail);
      PartOk(i, m, syms[0]);
      SettleBack(Part(i, m, syms[0]), t);
      Unsettle(Part(i, m, syms[0]), t)
  }

  /** Decoding |syms| symbols yields syms and leaves the reader in e. */
  ghost predicate Decodes(r: Reader, m: Model, syms: seq<nat>, e: Reader)
    requires IntervalOk(r.i) && r.i.range >= BOT && ModelOk(m) && AllCodable(m, syms)
    decreases |syms|
  {
    if syms == [] then r == e else
      DecodeSymbol(r, m) == Some(syms[0]) && Decodes(AfterSymbol(r, m, syms[0]), Step(m, syms[0]), syms[1..], e)
  }

  /** Decoding inverts encoding, symbol by symbol, with equal models on both sides. */
  lemma {:induction false} CodeDecodes(i: Interval, m: Model, syms: seq<nat>, trail: seq<byte>) returns (e: Reader)
    requires IntervalOk(i) && i.range >= BOT && ModelOk(m) && AllCodable(m, syms)
    ensures Decodes(Reader(i, Code(i, m, syms, trail)), m, syms, e)
    ensures Beyond(e.cur) == trail
    decreases |syms|
  {
    hide Settle, Window, Unsettle, Skip, DecodeSymbol, Step;
    if syms == [] {
      e := Reader(i, Code(i, m, syms, trail));
      LowBytesWindow(i.low, trail);
    } else {
      var s := syms[0];
      var t := Code(Narrow(i, m, s), Step(m, s), syms[1..], trail);
      PartOk(i, m, s);
      SettleBack(Part(i, m, s), t);
      DecodeIs(Reader(i, Code(i, m, syms, trail)), m, s);
      e := CodeDecodes(Narrow(i, m, s), Step(m, s), syms[1..], trail);
    }
  }

  function Whole(): (i: Interval)
    ensures IntervalOk(i) && i.range >= BOT
  {
    Interval(0, WORD - 1)
  }

  function Encode(m: Model, syms: seq<nat>): (b: seq<byte>)
    requires ModelOk(m) && AllCodable(m, syms)
  {
    Code(Whole(), m, syms, [])
  }

  lemma {:induction false} UnsettleAppend(i: Interval, t: seq<byte>, trail: seq<byte>)
    requires IntervalOk(i)
    ensures Unsettle(i, t + trail) == Unsettle(i, t) + trail
    decreases if Touches(i) then 0 else 1, WORD - i.range
  {
    hide Turn;
    if !Settled(i) {
      TurnOk(i);
      UnsettleAppend(Turn(i), t, trail);
      Regroup([i.low / TOP], Unsettle(Turn(i), t), trail);
    }
  }

  /** With no symbols left, the code is the final low. */
  lemma CodeEnd(i: Interval, m: Model)
    requires IntervalOk(i) && i.range >= BOT && ModelOk(m)
    ensures Code(i, m, [], []) == LowBytes(i.low)
  {
    assert LowBytes(i.low) + [] == LowBytes(i.low);
  }

  /** What the first symbol shifts out comes first, then the code of the rest. */
  lemma CodeNext(i: Interval, m: Model, syms: seq<nat>)
    requires IntervalOk(i) && i.range >= BOT && ModelOk(m) && AllCodable(m, syms) && syms != []
    ensures Codable(m, syms[0]) && IntervalOk(Part(i, m, syms[0])) && AllCodable(Step(m, syms[0]), syms[1..])
    ensures Code(i, m, syms, []) ==
            Unsettle(Part(i, m, syms[0]), []) + Code(Narrow(i, m, syms[0]), Step(m, syms[0]), syms[1..], [])
  {
    hide Unsettle, Step, Settle, Part;
    assert Codable(m, syms[0]);
    var t := Code(Narrow(i, m, syms[0]), Step(m, syms[0]), syms[1..], []);
    PartOk(i, m, syms[0]);
    UnsettleAppend(Part(i, m, syms[0]), [], t);
    assert [] + t == t;
  }

  lemma {:induction false} CodeAppend(i: Interval, m: Model, syms: seq<nat>, trail: seq<byte>)
    requires IntervalOk(i) && i.range >= BOT && ModelOk(m) && AllCodable(m, syms)
    ensures Code(i, m, syms, trail) == Code(i, m, syms, []) + trail
    decreases |syms|
  {
    hide Unsettle, Step, Settle;
    if syms == [] {
      assert LowBytes(i.low) + [] == LowBytes(i.low);
    } else {
      var s := syms[0];
      PartOk(i, m, s);
      CodeAppend(Narrow(i, m, s), Step(m, s), syms[1..], trail);
      UnsettleAppend(Part(i, m, s), Code(Narrow(i, m, s), Step(m, s), syms[1..], []), trail);
    }
  }

  /** The decoder returns every message from its code and reads exactly the bytes of the code. */
  lemma RoundTrip(m: Model, syms: seq<nat>, trail: seq<byte>) returns (e: Reader)
    requires ModelOk(m) && AllCodable(m, syms)
    ensures Decodes(Reader(Whole(), Encode(m, syms) + trail), m, syms, e)
    ensures Beyond(e.cur) == trail
  {
    CodeAppend(Whole(), m, syms, trail);
    e := CodeDecodes(Whole(), m, syms, trail);
  }

  // ---------------------------------------------------------------- machine operations

  lemma SameTopIsXor(a: bv32, b: bv32)
    ensures (a ^ b) < 0x100_0000 <==> a >> 24 == b >> 24
  {
  }

  lemma TruncationIsMask(low: bv32)
    ensures (0 - low) & 0xFFFF == (0x1_0000 - (low & 0xFFFF)) & 0xFFFF
  {
  }
}
