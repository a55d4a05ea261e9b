/** What Subbotin's adaptive model learns: its counts are those of the message, the parts the shares of the counts. */
module SubbotinLearning {
  import opened Arith
  import opened ByteWindow
  import opened SymbolCounts
  import opened SubbotinSpec

  /** The model after a message. */
  function Trained(m: Model, syms: seq<nat>): (r: Model)
    requires ModelOk(m) && AllCodable(m, syms)
    ensures ModelOk(r) && |r.freq| == |m.freq|
    ensures forall k :: Codable(m, k) ==> Codable(r, k)
  {
    if syms == [] then m else
      assert AllCodable(m, syms[..|syms| - 1]) && Codable(m, syms[|syms| - 1]);
      Step(Trained(m, syms[..|syms| - 1]), syms[|syms| - 1])
  }

  /** A static model stays; an adaptive one raises the symbol's count, and halves all when the total is too large. */
  lemma StepCounts(m: Model, s: nat)
    requires ModelOk(m) && Codable(m, s)
    ensures var raised := m.freq[s := m.freq[s] + m.incr];
            && (!m.adapt ==> Step(m, s) == m)
            && (m.adapt ==> Sum(raised) == Sum(m.freq) + m.incr
                            && Step(m, s) == m.(freq := if Sum(raised) > m.maxFreq then Halved(raised) else raised))
  {
    hide Sum;
    if m.adapt {
      RaisedPlain(m.freq, s, m.incr);
    }
  }

  /** While the maximum is not passed, every count has been raised once for each time its symbol has been coded. */
  lemma {:induction false} CountsFollow(m: Model, syms: seq<nat>)
    requires ModelOk(m) && AllCodable(m, syms) && m.adapt && Sum(m.freq) + Times(|syms|, m.incr) <= m.maxFreq
    ensures var r := Trained(m, syms);
            && r == m.(freq := r.freq) && Sum(r.freq) == Sum(m.freq) + Times(|syms|, m.incr)
            && forall s :: 0 <= s < |m.freq| ==> r.freq[s] == m.freq[s] + Times(Occurs(syms, s), m.incr)
  {
    hide Sum, Step, Times, ModelOk, Occurs;
    if syms == [] {
      NoneOccur(m);
    } else {
      var i := |syms| - 1;
      assert AllCodable(m, syms[..i]) && Codable(m, syms[i]);
      TimesNext(i, m.incr);
      CountsFollow(m, syms[..i]);
      var before := Trained(m, syms[..i]);
      StepCounts(before, syms[i]);
      forall s | 0 <= s < |m.freq|
        ensures Times(Occurs(syms, s), m.incr) ==
                Times(Occurs(syms[..i], s), m.incr) + if s == syms[i] then m.incr else 0
      {
        OccursNext(syms, s);
        TimesNext(Occurs(syms[..i], s), m.incr);
      }
    }
  }

  lemma NoneOccur(m: Model)
    ensures Times(0, m.incr) == 0 && forall s: nat :: Times(Occurs([], s), m.incr) == 0
  {
  }

  /** A symbol's part of the range is the share of its count, of the range rounded down to a multiple of the total. */
  lemma PartShare(i: Interval, f: seq<nat>, s: nat)
    requires 0 < Sum(f) <= i.range && s < |f| && f[s] > 0
    ensures var x := Share(i, f, s).range;
            x * Sum(f) <= f[s] * i.range < (x + f[s]) * Sum(f)
  {
    hide Sum, Cum;
    var total, unit, r := Sum(f), i.range / Sum(f), i.range % Sum(f);
    assert i.range == unit * total + r;
    Distrib(unit * total, r, f[s]);
    MulMono(0, r, f[s]);
    MulMono(r + 1, total, f[s]);
    Distrib(r, 1, f[s]);
    Distrib(f[s] * unit, f[s], total);
    assert f[s] * (unit * total) == f[s] * unit * total;
    assert f[s] * i.range == i.range * f[s] && total * f[s] == f[s] * total;
  }
}
