/** The carryless range coder as it runs: cached cumulative frequencies, four search paths on either side. */
module Subbotin {
  import opened Arith
  import opened Bytes
  import opened ByteWindow
  import opened SymbolCounts
  import opened SubbotinSpec

  /** How far apart two symbols are. */
  function Gap(a: nat, b: nat): (n: nat) { if a < b then b - a else a - b }

  class RcModel {
    const freq: array<uint>
    const nsym: uint
    const nsym2: uint
    const nsym3: uint
    const nsym4: uint
    const nsym23: uint
    const incr: uint
    const maxFreq: uint
    const adapt: bool
    var totFreq: uint
    var halfFreq: uint
    var firstFreq: uint
    var lastFreq: uint
    var lastSym: uint
    var lastCumFreq: uint

    ghost function State(): (m: Model)
      reads freq
    {
      Model(freq[..], incr, maxFreq, adapt)
    }

    ghost predicate Sums()
      reads this, freq
    {
      freq.Length == nsym && ModelOk(State()) && totFreq == Sum(freq[..]) && lastSym < nsym
    }

    ghost predicate Valid()
      reads this, freq
    {
      Sums() && lastCumFreq == Cum(freq[..], lastSym)
    }

    /** ModelInit; the model is one to code with when its true total, which 32 bits may not show, is within 2^16. */
    constructor (nsym: uint, ifreq: Option<seq<uint>>, incr: uint, maxFreq: uint, adapt: bool)
      requires ifreq.Some? ==> |ifreq.value| == nsym
      ensures State() == Model(if ifreq.Some? then ifreq.value else seq(nsym, _ => 1), incr, maxFreq, adapt)
      ensures totFreq == Total(State().freq) && (ModelOk(State()) && nsym > 0 ==> Valid())
      ensures ModelOk(State()) && nsym4 <= nsym2 <= nsym23 ==> Hints(freq[..])
      ensures fresh(freq)
    {
      this.nsym, nsym2, nsym3 := nsym, nsym / 2, nsym / 3;
      hide *;
      nsym4, nsym23 := FirstSymbols(nsym), LastSymbols(nsym);
      this.incr, this.maxFreq, this.adapt := incr, maxFreq, adapt;
      freq := new uint[nsym];
      totFreq, firstFreq, halfFreq, lastFreq, lastSym, lastCumFreq := 0, 0, 0, 0, 0, 0;
      new;
      SetCounts(ifreq);
    }

    method SetCounts(ifreq: Option<seq<uint>>)
      requires freq.Length == nsym && (ifreq.Some? ==> |ifreq.value| == nsym) && lastSym == lastCumFreq == 0
      requires nsym4 <= nsym2 <= nsym && nsym23 <= nsym
      modifies this`totFreq, this`firstFreq, this`halfFreq, this`lastFreq, freq
      ensures freq[..] == if ifreq.Some? then ifreq.value else seq(nsym, _ => 1)
      ensures totFreq == Total(freq[..]) && (ModelOk(State()) && nsym > 0 ==> Valid())
      ensures ModelOk(State()) && nsym4 <= nsym2 <= nsym23 ==> Hints(freq[..])
    {
      hide Sum, Cum;
      Fill(ifreq);
      SumPrefixes();
      CumEnds(freq[..]);
      CumMono(freq[..], nsym4, nsym);
      CumMono(freq[..], nsym2, nsym);
      CumMono(freq[..], nsym23, nsym);
    }

    /** The initial counts, or ones, and what 32 bits hold of their total. */
    method Fill(ifreq: Option<seq<uint>>)
      requires freq.Length == nsym && (ifreq.Some? ==> |ifreq.value| == nsym)
      modifies this`totFreq, freq
      ensures freq[..] == (if ifreq.Some? then ifreq.value else seq(nsym, _ => 1)) && totFreq == Total(freq[..])
    {
      hide Cum, Sum;
      ghost var f: seq<nat> := if ifreq.Some? then ifreq.value else seq(nsym, _ => 1);
      CumEnds(f);
      totFreq := 0;
      for i := 0 to nsym
        invariant forall k :: 0 <= k < i ==> freq[k] == f[k]
        invariant totFreq == Cum(f, i) % WORD
      {
        freq[i] := if ifreq.Some? then ifreq.value[i] else 1;
        CumStep(f, i);
        WrapOnce(Cum(f, i), freq[i]);
        totFreq := (totFreq + freq[i]) % WORD;
      }
      assert freq[..] == f;
    }

    /** Sums that only help the decoder to choose where to start its search. */
    method SumPrefixes()
      requires freq.Length == nsym && nsym4 <= nsym2 <= nsym && nsym23 <= nsym
      modifies this`firstFreq, this`halfFreq, this`lastFreq
      ensures firstFreq == Cum(freq[..], nsym4) % WORD && halfFreq == Cum(freq[..], nsym2) % WORD
      ensures lastFreq == Cum(freq[..], if nsym2 <= nsym23 then nsym23 else nsym2) % WORD
    {
      CumEnds(freq[..]);
      ghost var steps;
      firstFreq, steps := AddUp(0, nsym4, 0);
      halfFreq, steps := AddUp(nsym4, nsym2, firstFreq);
      lastFreq, steps := AddUp(nsym2, nsym23, halfFreq);
    }

    /** What lastCumFreq will miss once the count of sym is raised. */
    ghost function Missing(sym: nat): (d: nat)
      reads this`lastSym
    {
      if adapt && sym < lastSym then incr else 0
    }

    /** Adds the counts from symbol a up to b to c; there are none of them when b is below a. */
    method AddUp(a: uint, b: uint, c: uint) returns (cum: uint, ghost steps: nat)
      requires freq.Length == nsym && a <= nsym && b <= nsym && c == Cum(freq[..], a) % WORD
      ensures cum == Cum(freq[..], if a <= b then b else a) % WORD && steps == if a <= b then b - a else 0
    {
      hide Cum;
      cum, steps := c, 0;
      var i := a;
      while i < b
        invariant a <= i <= nsym && (i <= b || i == a) && cum == Cum(freq[..], i) % WORD && steps == i - a
      {
        CumStep(freq[..], i);
        WrapOnce(Cum(freq[..], i), freq[i]);
        cum, steps := (cum + freq[i]) % WORD, steps + 1;
        i := i + 1;
      }
    }

    /** Takes the counts from symbol a up to b off c. */
    method TakeOff(a: uint, b: uint, c: uint) returns (cum: uint, ghost steps: nat)
      requires freq.Length == nsym && a <= b <= nsym && c == Cum(freq[..], b)
      ensures cum == Cum(freq[..], a) && steps == b - a
    {
      cum, steps := c, 0;
      for i := a to b
        invariant cum + Cum(freq[..], i) == c + Cum(freq[..], a) && steps == i - a
      {
        CumMono(freq[..], a, i);
        CumMono(freq[..], i, b);
        CumStep(freq[..], i);
        CumMono(freq[..], i + 1, b);
        cum, steps := cum - freq[i], steps + 1;
      }
    }

    /**
     * The cumulative frequency of a symbol along the shortest of four paths: from the remembered symbol, or from the
     * end of the alphabet that is on the symbol's side of it.
     */
    method Locate(sym: uint) returns (cumFreq: uint, ghost steps: nat)
      requires Valid() && sym < nsym
      modifies this`lastSym, this`lastCumFreq
      ensures cumFreq == Cum(freq[..], sym)
      ensures var near, end: nat := Gap(sym, old(lastSym)), if sym >= old(lastSym) then nsym - sym else sym;
              (steps == near || steps == end) && (nsym <= WORD / 2 ==> steps <= near && steps <= end)
      ensures Sums() && lastCumFreq == Cum(freq[..], lastSym) + Missing(sym)
    {
      hide Cum, Sum;
      CumEnds(freq[..]);
      CumMono(freq[..], sym, nsym);
      CumMono(freq[..], lastSym, nsym);
      if sym >= lastSym {
        if nsym - sym > sym - lastSym {
          cumFreq, steps := AddUp(lastSym, sym, lastCumFreq);
          lastCumFreq := cumFreq;
          lastSym := sym;
        } else {
          cumFreq, steps := TakeOff(sym, nsym, totFreq);
        }
      } else {
        if lastSym >= (sym + sym) % WORD {
          cumFreq, steps := AddUp(0, sym, 0);
          if adapt {
            lastCumFreq := lastCumFreq + incr;
          }
        } else {
          cumFreq, steps := TakeOff(sym, lastSym, lastCumFreq);
          lastCumFreq := cumFreq;
          lastSym := sym;
        }
      }
    }

    /** From symbol s down to the first whose counts start at or before t. */
    method SearchDown(s: uint, t: uint, c: uint) returns (sym: uint, cumFreq: uint)
      requires freq.Length == nsym && s < nsym && c == Cum(freq[..], s) && t < Cum(freq[..], s + 1)
      ensures sym <= s && cumFreq == Cum(freq[..], sym) && cumFreq <= t < Cum(freq[..], sym + 1)
    {
      sym, cumFreq := s, c;
      CumEnds(freq[..]);
      while cumFreq > t
        invariant sym <= s && cumFreq == Cum(freq[..], sym) && t < Cum(freq[..], sym + 1)
        decreases sym
      {
        sym := sym - 1;
        CumStep(freq[..], sym);
        cumFreq := cumFreq - freq[sym];
      }
    }

    /** From symbol s up to the first whose counts end beyond t. */
    method SearchUp(s: uint, t: uint, c: uint) returns (sym: uint, cumFreq: uint)
      requires freq.Length == nsym && s < nsym && c == Cum(freq[..], s) <= t < Sum(freq[..]) < WORD
      ensures s <= sym < nsym && cumFreq == Cum(freq[..], sym) && cumFreq <= t < Cum(freq[..], sym + 1)
    {
      hide Cum, Sum;
      sym := s;
      CumEnds(freq[..]);
      CumStep(freq[..], s);
      CumMono(freq[..], s + 1, nsym);
      cumFreq := c + freq[s];
      while cumFreq <= t
        invariant s <= sym < nsym && cumFreq == Cum(freq[..], sym + 1) && Cum(freq[..], sym) <= t
        decreases nsym - sym
      {
        sym := sym + 1;
        CumStep(freq[..], sym);
        CumMono(freq[..], sym + 1, nsym);
        cumFreq := cumFreq + freq[sym];
      }
      CumStep(freq[..], sym);
      cumFreq := cumFreq - freq[sym];
    }

    /** The symbol whose counts hold rfreq, along the shortest of four paths. */
    method Search(rfreq: uint) returns (sym: uint, cumFreq: uint)
      requires Valid() && rfreq < totFreq
      modifies this`lastSym, this`lastCumFreq
      ensures sym < nsym && cumFreq == Cum(freq[..], sym) && cumFreq <= rfreq < Cum(freq[..], sym + 1)
      ensures Sums() && lastCumFreq == Cum(freq[..], lastSym) + Missing(sym)
    {
      hide Cum, Sum;
      CumEnds(freq[..]);
      CumMono(freq[..], lastSym, nsym);
      if lastCumFreq > rfreq {
        if rfreq > halfFreq || (lastSym <= nsym23 && rfreq >= firstFreq) {
          CumStep(freq[..], lastSym - 1);
          sym, cumFreq := SearchDown(lastSym - 1, rfreq, lastCumFreq - freq[lastSym - 1]);
          lastCumFreq := cumFreq;
          lastSym := sym;
        } else {
          sym, cumFreq := SearchUp(0, rfreq, 0);
          if sym >= lastSym {
            CumMono(freq[..], lastSym, sym);
            assert false;
          }
          if adapt {
            lastCumFreq := lastCumFreq + incr;
          }
        }
      } else {
        if rfreq < halfFreq || (lastSym >= nsym3 && rfreq <= lastFreq) {
          sym, cumFreq := SearchUp(lastSym, rfreq, lastCumFreq);
          lastCumFreq := cumFreq;
          lastSym := sym;
        } else {
          CumStep(freq[..], nsym - 1);
          sym, cumFreq := SearchDown(nsym - 1, rfreq, totFreq - freq[nsym - 1]);
          if sym < lastSym {
            CumMono(freq[..], sym + 1, lastSym);
            assert false;
          }
        }
      }
    }

    /** The sums that help the decoder are those of counts f, where the alphabet is small enough for its fractions. */
    ghost predicate Hints(f: seq<nat>)
      reads this`firstFreq, this`halfFreq, this`lastFreq
    {
      && |f| == nsym && nsym4 <= nsym2 <= nsym23 <= nsym
      && firstFreq == Cum(f, nsym4) && halfFreq == Cum(f, nsym2) && lastFreq == Cum(f, nsym23)
    }

    /** The sums are half of those of counts f. */
    ghost predicate HalfHints(f: seq<nat>)
      reads this`firstFreq, this`halfFreq, this`lastFreq
    {
      && |f| == nsym && nsym4 <= nsym2 <= nsym23 <= nsym
      && firstFreq == Cum(f, nsym4) / 2 && halfFreq == Cum(f, nsym2) / 2 && lastFreq == Cum(f, nsym23) / 2
    }

    /**
     * Raises the count of a symbol, and halves all counts when the total passes the maximum. In the decoder the sums
     * that help it stay those of the counts until the first halving, which halves them as they are.
     */
    method Adapt(sym: uint, decoding: bool)
      requires Sums() && sym < nsym && freq[sym] > 0 && lastCumFreq == Cum(freq[..], lastSym) + Missing(sym)
      modifies this`totFreq, this`halfFreq, this`firstFreq, this`lastFreq, this`lastSym, this`lastCumFreq, freq
      ensures Valid() && State() == Step(old(State()), sym)
      ensures !(adapt && decoding) ==>
                firstFreq == old(firstFreq) && halfFreq == old(halfFreq) && lastFreq == old(lastFreq)
      ensures adapt && decoding && old(Hints(freq[..])) ==>
                var raised := Raised(old(freq[..]), sym, incr);
                if Sum(raised) <= maxFreq then Hints(raised) else HalfHints(raised)
    {
      hide Cum, Sum, Step, Halved, Hints, HalfHints;
      StepSums(State(), sym, lastSym);
      if adapt {
        RaiseHinted(sym, decoding);
        totFreq := (totFreq + incr) % WORD;
        if totFreq > maxFreq {
          Shrink(decoding);
        }
      }
    }

    /** Halves the counts, and for the decoder the sums; the remembered pair starts again. */
    method Shrink(decoding: bool)
      requires freq.Length == nsym
      modifies this`totFreq, this`halfFreq, this`firstFreq, this`lastFreq, this`lastSym, this`lastCumFreq, freq
      ensures freq[..] == Halved(old(freq[..])) && totFreq == Total(freq[..]) && lastSym == lastCumFreq == 0
      ensures Cum(freq[..], 0) == 0
      ensures if decoding then forall f :: old(Hints(f)) ==> HalfHints(f)
              else firstFreq == old(firstFreq) && halfFreq == old(halfFreq) && lastFreq == old(lastFreq)
    {
      hide Cum, Sum, Halved;
      Rescale();
      if decoding {
        halfFreq, firstFreq, lastFreq := halfFreq / 2, firstFreq / 2, lastFreq / 2;
      }
      lastCumFreq := 0;
      lastSym := 0;
      CumEnds(freq[..]);
    }

    /** Raises a count, and with it the sums the decoder has of it. */
    method RaiseHinted(sym: uint, decoding: bool)
      requires freq.Length == nsym && sym < nsym && 0 < Sum(freq[..]) <= BOT && incr + BOT < WORD
      modifies this`halfFreq, this`firstFreq, this`lastFreq, freq
      ensures freq[..] == Raised(old(freq[..]), sym, incr)
      ensures decoding && old(Hints(freq[..])) ==> Hints(freq[..])
      ensures !decoding ==> firstFreq == old(firstFreq) && halfFreq == old(halfFreq) && lastFreq == old(lastFreq)
    {
      hide Cum, Sum, Raised;
      ghost var f := freq[..];
      if nsym4 <= nsym2 <= nsym23 <= nsym {
        HintsRaised(f, sym);
      }
      Raise(sym, decoding);
    }

    /** What the three sums become when a count they contain is raised. */
    lemma HintsRaised(f: seq<nat>, sym: nat)
      requires |f| == nsym && sym < nsym && 0 < Sum(f) <= BOT && incr + BOT < WORD && nsym4 <= nsym2 <= nsym23 <= nsym
      ensures var g := Raised(f, sym, incr);
              && Cum(g, nsym4) == Cum(f, nsym4) + (if sym < nsym4 then incr else 0) < WORD
              && Cum(g, nsym2) == Cum(f, nsym2) + (if sym < nsym2 then incr else 0) < WORD
              && Cum(g, nsym23) == Cum(f, nsym23) + (if sym < nsym23 then incr else 0) < WORD
    {
      hide Cum, Sum;
      RaisedPlain(f, sym, incr);
      SumRaised(f, sym, incr, nsym4);
      SumRaised(f, sym, incr, nsym2);
      SumRaised(f, sym, incr, nsym23);
      CumEnds(f);
      CumMono(f, nsym4, nsym);
      CumMono(f, nsym2, nsym);
      CumMono(f, nsym23, nsym);
    }

    /** The count of sym, and for the decoder the sums it is part of. */
    method Raise(sym: uint, decoding: bool)
      requires freq.Length == nsym && sym < nsym
      modifies this`halfFreq, this`firstFreq, this`lastFreq, freq
      ensures freq[..] == Raised(old(freq[..]), sym, incr)
      ensures var last := decoding && sym < nsym23;
              && lastFreq == (if last then (old(lastFreq) + incr) % WORD else old(lastFreq))
              && halfFreq == (if last && sym < nsym2 then (old(halfFreq) + incr) % WORD else old(halfFreq))
              && firstFreq ==
                 (if last && sym < nsym2 && sym < nsym4 then (old(firstFreq) + incr) % WORD else old(firstFreq))
    {
      freq[sym] := (freq[sym] + incr) % WORD;
      if decoding && sym < nsym23 {
        lastFreq := (lastFreq + incr) % WORD;
        if sym < nsym2 {
          halfFreq := (halfFreq + incr) % WORD;
          if sym < nsym4 {
            firstFreq := (firstFreq + incr) % WORD;
          }
        }
      }
    }

    /** Every count halved upwards, and their new total. */
    method Rescale()
      requires freq.Length == nsym
      modifies this`totFreq, freq
      ensures freq[..] == Halved(old(freq[..])) && totFreq == Total(freq[..])
    {
      hide Cum, Sum;
      ghost var f := freq[..];
      ghost var g := Halved(f);
      totFreq := 0;
      CumEnds(g);
      for i := 0 to nsym
        invariant forall k :: 0 <= k < i ==> freq[k] == g[k]
        invariant forall k :: i <= k < nsym ==> freq[k] == f[k]
        invariant totFreq == Cum(g, i) % WORD
      {
        freq[i] := freq[i] - freq[i] / 2;
        CumStep(g, i);
        WrapOnce(Cum(g, i), freq[i]);
        totFreq := (totFreq + freq[i]) % WORD;
      }
      assert freq[..] == g;
    }
  }

  /** Up to where firstFreq sums: five 22nds of the alphabet, while the product fits. */
  function FirstSymbols(nsym: uint): (n: uint)
    ensures n <= nsym / 2
  {
    assert nsym * 5 % WORD <= nsym * 5;
    nsym * 5 % WORD / 22
  }

  /** Up to where lastFreq sums: two thirds of the alphabet, while the product fits. */
  function LastSymbols(nsym: uint): (n: uint)
    ensures n <= nsym
  {
    assert nsym * 2 % WORD <= nsym * 2;
    nsym * 2 % WORD / 3
  }

  /** Adding to a sum that has been reduced before. */
  lemma WrapOnce(sum: nat, x: nat)
    ensures (sum % WORD + x) % WORD == (sum + x) % WORD
  {
    ModShift(sum % WORD + x, sum / WORD, WORD);
  }

  /**
   * ModelInit: the model is set up in any case, and RC_ERROR says that the maximum or the 32-bit total is above 2^16.
   * Counts whose true total reaches 2^32 may pass; where it does not, RC_OK means a model to code with.
   */
  method ModelInit(nsym: uint, ifreq: Option<seq<uint>>, incr: uint, maxFreq: uint, adapt: bool)
    returns (rcm: RcModel, ok: bool)
    requires ifreq.Some? ==> |ifreq.value| == nsym
    ensures fresh(rcm) && fresh(rcm.freq)
    ensures rcm.State() == Model(if ifreq.Some? then ifreq.value else seq(nsym, _ => 1), incr, maxFreq, adapt)
    ensures ok <==> maxFreq <= BOT && Total(rcm.State().freq) <= BOT
    ensures ok && 0 < Sum(rcm.State().freq) < WORD && (adapt ==> incr + Filled(nsym) <= BOT + 1) ==> rcm.Valid()
  {
    hide Sum, Cum;
    rcm := new RcModel(nsym, ifreq, incr, maxFreq, adapt);
    ok := maxFreq <= BOT && rcm.totFreq <= BOT;
    if nsym == 0 { SumEmpty([]); assert rcm.freq[..] == []; }
  }

  lemma StepSums(m: Model, s: nat, k: nat)
    requires ModelOk(m) && Codable(m, s) && k <= |m.freq|
    ensures !m.adapt ==> Step(m, s) == m
    ensures m.adapt ==>
      var g := Raised(m.freq, s, m.incr);
      && Total(g) == Sum(g) == Sum(m.freq) + m.incr
      && Cum(g, k) == Cum(m.freq, k) + (if s < k then m.incr else 0)
      && Total(Halved(g)) == Sum(Halved(g))
      && Step(m, s) == m.(freq := if Sum(g) > m.maxFreq then Halved(g) else g)
  {
    hide Cum, Sum;
    if m.adapt {
      RaisedPlain(m.freq, s, m.incr);
      var g := Raised(m.freq, s, m.incr);
      SumRaised(m.freq, s, m.incr, k);
      HalvingTakes(g, s);
      DivModUnique(Sum(Halved(g)), WORD, 0, Sum(Halved(g)));
    }
  }

  // ---------------------------------------------------------------- encoder

  class RcEncoder {
    var low: uint
    var range: uint
    var out: seq<byte>

    ghost predicate Valid()
      reads this
    {
      IntervalOk(Low()) && range >= BOT
    }

    ghost function Low(): (i: Interval)
      reads this`low, this`range
    {
      Interval(low, range)
    }

    /** StartEncode */
    constructor ()
      ensures Valid() && Low() == Whole() && out == []
    {
      low, range, out := 0, 0xFFFF_FFFF, [];
    }

    /** FinishEncode: the four bytes of low. */
    method Finish()
      requires low < WORD
      modifies this
      ensures out == old(out) + LowBytes(old(low))
    {
      hide LowBytes;
      ghost var b, w := out, LowBytes(low);
      assert w[..4] == w;
      for k := 0 to 4
        invariant low < WORD && out + LowBytes(low)[..4 - k] == b + w
      {
        LowBytesNext(low, 4 - k);
        Regroup(out, [low / TOP], LowBytes(low % TOP * 256)[..3 - k]);
        out := out + [low / TOP];
        low := low % TOP * 256;
      }
      assert out + [] == out;
    }

    method Encode(rcm: RcModel, cumFreq: uint, sym: uint)
      requires Valid() && rcm.Sums() && Codable(rcm.State(), sym) && cumFreq == Cum(rcm.freq[..], sym)
      modifies this
      ensures Valid()
      ensures Low() == Narrow(old(Low()), rcm.State(), sym)
      ensures IntervalOk(Part(old(Low()), rcm.State(), sym))
      ensures out == old(out) + Unsettle(Part(old(Low()), rcm.State(), sym), [])
    {
      hide Sum, Cum, Settle, Unsettle;
      ghost var i, m := Low(), rcm.State();
      PartOk(i, m, sym);
      range := range / rcm.totFreq;
      low := low + Times(cumFreq, range);
      range := Times(range, rcm.freq[sym]);
      TimesSwap(i.range / rcm.totFreq, rcm.freq[sym]);
      assert Low() == Part(i, m, sym);
      Renormalize();
    }

    method Renormalize()
      requires IntervalOk(Low())
      modifies this
      ensures Valid() && Low() == Settle(old(Low()))
      ensures out == old(out) + Unsettle(old(Low()), [])
    {
      hide Settle, Unsettle;
      ghost var i, b := Low(), out;
      assert b + Unsettle(i, []) == out + Unsettle(Low(), []);
      while low / TOP == (low + range) % WORD / TOP || range < BOT
        invariant IntervalOk(Low()) && Settle(Low()) == Settle(i)
        invariant b + Unsettle(i, []) == out + Unsettle(Low(), [])
        decreases if Touches(Low()) then 0 else 1, WORD - range
      {
        SettleTurn(Low());
        ghost var j, o := Low(), out;
        out := out + [low / TOP];
        low, range := TurnInterval(low, range);
        assert out + Unsettle(Low(), []) == o + ([j.low / TOP] + Unsettle(Turn(j), []));
      }
      SettleTurn(Low());
    }
  }

  /** One turn of the renormalisation loop: truncate a short range, then shift. */
  method TurnInterval(low: uint, range: uint) returns (low': uint, range': uint)
    requires IntervalOk(Interval(low, range)) && !Settled(Interval(low, range))
    ensures Interval(low', range') == Turn(Interval(low, range))
  {
    var r := range;
    if low / TOP != (low + range) % WORD / TOP {
      r := (WORD - low % WORD) % BOT;
    }
    range' := r * 256 % WORD;
    low' := low % TOP * 256;
  }

  lemma SkipTurn(i: Interval, cur: seq<byte>)
    requires IntervalOk(i)
    ensures Settled(i) ==> Skip(i, cur) == cur
    ensures !Settled(i) ==> IntervalOk(Turn(i)) && Skip(i, cur) == Skip(Turn(i), Rest(cur))
  {
    if !Settled(i) {
      TurnOk(i);
    }
  }

  lemma TimesSwap(a: nat, b: nat)
    ensures Times(a, b) == Times(b, a)
  {
  }

  // ---------------------------------------------------------------- decoder

  class RcDecoder {
    var low: uint
    var range: uint
    var code: uint
    var src: seq<byte>
    // The input from the first byte of the code on.
    ghost var cur: seq<byte>

    ghost predicate Valid()
      reads this
    {
      Inside() && range >= BOT
    }

    ghost predicate Inside()
      reads this
    {
      IntervalOk(Low()) && code == Window(cur) && src == Beyond(cur)
    }

    ghost function Low(): (i: Interval)
      reads this`low, this`range
    {
      Interval(low, range)
    }

    ghost function State(): (r: SubbotinSpec.Reader)
      reads this
    {
      SubbotinSpec.Reader(Low(), cur)
    }

    /** StartDecode */
    constructor (b: seq<byte>)
      ensures Valid() && State() == SubbotinSpec.Reader(Whole(), b)
    {
      low, range, cur := 0, 0xFFFF_FFFF, b;
      var c, s := 0, b;
      c, s := c * 256 + Head(s), Rest(s);
      c, s := c * 256 + Head(s), Rest(s);
      c, s := c * 256 + Head(s), Rest(s);
      c, s := c * 256 + Head(s), Rest(s);
      code, src := c, s;
    }

    /** The next byte of the input enters the code. */
    method ReadByte()
      requires code == Window(cur) && src == Beyond(cur)
      modifies this`code, this`src, this`cur
      ensures code == Window(cur) && src == Beyond(cur) && cur == Rest(old(cur))
    {
      hide Window, Beyond, Rest;
      WindowShift(cur);
      ShiftedCode(code, Head(src));
      code := (code * 256 + Head(src)) % WORD;
      src := Rest(src);
      cur := Rest(cur);
    }

    method Renormalize()
      requires Inside()
      modifies this
      ensures Valid() && Low() == Settle(old(Low())) && cur == Skip(old(Low()), old(cur))
    {
      hide Settle, Unsettle, Skip, Window, Turn;
      ghost var i, c := Low(), cur;
      while low / TOP == (low + range) % WORD / TOP || range < BOT
        invariant Inside() && Settle(Low()) == Settle(i) && Skip(Low(), cur) == Skip(i, c)
        decreases if Touches(Low()) then 0 else 1, WORD - range
      {
        SettleTurn(Low());
        SkipTurn(Low(), cur);
        low, range := TurnInterval(low, range);
        ReadByte();
      }
      SettleTurn(Low());
      SkipTurn(Low(), cur);
    }

    /** DecodeSymbol; None is the symbol error. */
    method DecodeSymbol(rdm: RcModel) returns (r: Option<uint>)
      requires Valid() && rdm.Valid()
      modifies this, rdm`totFreq, rdm`halfFreq, rdm`firstFreq, rdm`lastFreq, rdm`lastSym, rdm`lastCumFreq, rdm.freq
      ensures r == SubbotinSpec.DecodeSymbol(old(State()), old(rdm.State()))
      ensures r.Some? ==>
        && Codable(old(rdm.State()), r.value) && Valid() && rdm.Valid()
        && State() == AfterSymbol(old(State()), old(rdm.State()), r.value)
        && rdm.State() == Step(old(rdm.State()), r.value)
    {
      hide Sum, Cum, Settle, Skip, Window, Step;
      ghost var i, m := Low(), rdm.State();
      DivAtLeast(range, rdm.totFreq, 1);
      var unit := range / rdm.totFreq;
      var rfreq := (code - low) % WORD / unit;
      if rfreq >= rdm.totFreq {
        range := unit;
        return None;
      }
      FoundCodable(m, rfreq);
      var sym, cumFreq := rdm.Search(rfreq);
      FindIs(m.freq, rfreq, 0, sym);
      PartOk(i, m, sym);
      low := low + Times(cumFreq, unit);
      range := Times(unit, rdm.freq[sym]);
      TimesSwap(unit, rdm.freq[sym]);
      assert Low() == Part(i, m, sym);
      Renormalize();
      rdm.Adapt(sym, true);
      r := Some(sym);
    }
  }

  lemma ShiftedCode(code: nat, b: byte)
    requires code < WORD
    ensures (code * 256 + b) % WORD == code % TOP * 256 + b
  {
  }

  // ---------------------------------------------------------------- messages

  /** EncodeSymbol; false is the symbol error. */
  method EncodeSymbol(rc: RcEncoder, rcm: RcModel, sym: uint) returns (ok: bool)
    requires rc.Valid() && rcm.Valid() && (sym < rcm.nsym ==> rcm.freq[sym] > 0)
    modifies rc, rcm`totFreq, rcm`halfFreq, rcm`firstFreq, rcm`lastFreq, rcm`lastSym, rcm`lastCumFreq, rcm.freq
    ensures ok <==> sym < rcm.nsym
    ensures ok ==>
      && rc.Valid() && rcm.Valid() && rcm.State() == Step(old(rcm.State()), sym)
      && rc.Low() == Narrow(old(rc.Low()), old(rcm.State()), sym)
      && IntervalOk(Part(old(rc.Low()), old(rcm.State()), sym))
      && rc.out == old(rc.out) + Unsettle(Part(old(rc.Low()), old(rcm.State()), sym), [])
  {
    hide Sum, Cum, Step;
    if sym >= rcm.nsym {
      return false;
    }
    var cumFreq, steps := rcm.Locate(sym);
    rc.Encode(rcm, cumFreq, sym);
    rcm.Adapt(sym, false);
    ok := true;
  }

  /** One symbol moves from the code still to come into the output. */
  method EncodeNext(rc: RcEncoder, rcm: RcModel, sym: nat, ghost syms: seq<nat>)
    requires rc.Valid() && rcm.Valid() && AllCodable(rcm.State(), syms) && syms != [] && sym == syms[0]
    modifies rc, rcm`totFreq, rcm`halfFreq, rcm`firstFreq, rcm`lastFreq, rcm`lastSym, rcm`lastCumFreq, rcm.freq
    ensures rc.Valid() && rcm.Valid() && AllCodable(rcm.State(), syms[1..])
    ensures old(rc.out) + Code(old(rc.Low()), old(rcm.State()), syms, [])
            == rc.out + Code(rc.Low(), rcm.State(), syms[1..], [])
  {
    hide Step, Settle, Unsettle, Code, Part, Codable, Narrow;
    ghost var i, m, before := rc.Low(), rcm.State(), rc.out;
    CodeNext(i, m, syms);
    FirstCodable(m, syms);
    var ok := EncodeSymbol(rc, rcm, sym);
    Regroup(before, Unsettle(Part(i, m, sym), []), Code(rc.Low(), rcm.State(), syms[1..], []));
  }

  lemma FirstCodable(m: Model, syms: seq<nat>)
    requires AllCodable(m, syms) && syms != []
    ensures syms[0] < |m.freq| && m.freq[syms[0]] > 0
  {
    assert Codable(m, syms[0]);
  }

  method EncodeMessage(rcm: RcModel, syms: seq<nat>) returns (b: seq<byte>)
    requires rcm.Valid() && AllCodable(rcm.State(), syms)
    modifies rcm`totFreq, rcm`halfFreq, rcm`firstFreq, rcm`lastFreq, rcm`lastSym, rcm`lastCumFreq, rcm.freq
    ensures b == Encode(old(rcm.State()), syms)
  {
    hide Step, Settle, Code, Part, Codable;
    var rc := new RcEncoder();
    assert syms[0..] == syms;
    for k := 0 to |syms|
      invariant fresh(rc) && rc.Valid() && rcm.Valid()
      invariant AllCodable(rcm.State(), syms[k..])
      invariant Encode(old(rcm.State()), syms) == rc.out + Code(rc.Low(), rcm.State(), syms[k..], [])
    {
      assert syms[k..][1..] == syms[k + 1..];
      EncodeNext(rc, rcm, syms[k], syms[k..]);
    }
    assert syms[|syms|..] == [];
    CodeEnd(rc.Low(), rcm.State());
    rc.Finish();
    b := rc.out;
  }

  method DecodeNext(rd: RcDecoder, rdm: RcModel, ghost syms: seq<nat>, ghost e: SubbotinSpec.Reader) returns (s: nat)
    requires rd.Valid() && rdm.Valid() && AllCodable(rdm.State(), syms) && syms != []
    requires Decodes(rd.State(), rdm.State(), syms, e)
    modifies rd, rdm`totFreq, rdm`halfFreq, rdm`firstFreq, rdm`lastFreq, rdm`lastSym, rdm`lastCumFreq, rdm.freq
    ensures s == syms[0] && rd.Valid() && rdm.Valid()
    ensures AllCodable(rdm.State(), syms[1..]) && Decodes(rd.State(), rdm.State(), syms[1..], e)
  {
    hide SubbotinSpec.DecodeSymbol, AfterSymbol, Step, Sum, Cum, Window, Turn;
    assert Codable(rdm.State(), syms[0]);
    var r := rd.DecodeSymbol(rdm);
    s := r.value;
  }

  method DecodeAll(rd: RcDecoder, rdm: RcModel, n: nat, ghost syms: seq<nat>, ghost e: SubbotinSpec.Reader)
    returns (out: seq<nat>)
    requires rd.Valid() && rdm.Valid() && AllCodable(rdm.State(), syms) && n == |syms|
    requires Decodes(rd.State(), rdm.State(), syms, e)
    modifies rd, rdm`totFreq, rdm`halfFreq, rdm`firstFreq, rdm`lastFreq, rdm`lastSym, rdm`lastCumFreq, rdm.freq
    ensures out == syms
  {
    hide Decodes, Sum, Cum, AllCodable, ModelOk, IntervalOk;
    out := [];
    assert syms[0..] == syms;
    for k := 0 to n
      invariant rd.Valid() && rdm.Valid() && out == syms[..k]
      invariant AllCodable(rdm.State(), syms[k..])
      invariant Decodes(rd.State(), rdm.State(), syms[k..], e)
    {
      var s := DecodeNext(rd, rdm, syms[k..], e);
      assert syms[k..][0] == syms[k] && syms[k..][1..] == syms[k + 1..];
      out := out + [s];
    }
    assert syms[..n] == syms;
  }

  /** A message comes back from its code, whatever follows it. */
  method DecodeMessage(rdm: RcModel, b: seq<byte>, n: nat, ghost syms: seq<nat>, ghost trail: seq<byte>)
    returns (out: seq<nat>)
    requires rdm.Valid() && AllCodable(rdm.State(), syms) && b == Encode(rdm.State(), syms) + trail && n == |syms|
    modifies rdm`totFreq, rdm`halfFreq, rdm`firstFreq, rdm`lastFreq, rdm`lastSym, rdm`lastCumFreq, rdm.freq
    ensures out == syms
  {
    hide Decodes, Sum, Cum, Window, Encode, AllCodable, ModelOk, IntervalOk;
    ghost var e := RoundTrip(rdm.State(), syms, trail);
    var rd := new RcDecoder(b);
    out := DecodeAll(rd, rdm, n, syms, e);
  }
}
