/** What bcm's model learns: counters follow the bits coded in their contexts, and the history is the file's. */
module BcmLearning {
  import opened Arith
  import opened Bytes
  import opened BcmSpec

  // ---------------------------------------------------------------- one counter

  /** How far a counter is from the end that stands for bit y. */
  function Distance(p: nat, y: bit): (d: nat)
    requires p < 65536
  {
    if y == 1 then 65535 - p else p
  }

  /** A counter never moves away from the bit, and moves towards it by the part of the distance its rate says. */
  lemma MovedTowards(p: nat, y: bit, div: nat)
    requires p < 65536 && div > 0
    ensures Distance(Moved(p, y, div), y) == Distance(p, y) - Distance(p, y) / div
    ensures Distance(Moved(p, y, div), y) <= Distance(p, y)
    ensures Distance(p, y) >= div ==> Distance(Moved(p, y, div), y) < Distance(p, y)
  {
    var d := Distance(p, y);
    DivAtLeast(d, div, 0);
    DivAtLeast(d, div, 1);
  }

  /** Three parts of the distance come closer where the distance is twelve. */
  lemma FirstCounterMoves(p: nat, y: bit)
    requires p < 65536 && Distance(p, y) >= 12
    ensures Distance(Moved(p, y, 4), y) + 3 <= Distance(p, y)
  {
    MovedTowards(p, y, 4);
  }

  // ---------------------------------------------------------------- the mix

  /** The model after a bit, asked again in the context it was coded in. */
  function Again(m: Cm, y: bit): (r: Cm)
    requires CmOk(m)
    ensures CmOk(r) && r.ctx == m.ctx && r.last == m.last && r.older == m.older && r.run == m.run
  {
    var r := Learn(m, y).(ctx := m.ctx);
    AgainOk(m, y);
    r
  }

  lemma AgainOk(m: Cm, y: bit)
    requires CmOk(m)
    ensures CmOk(Learn(m, y).(ctx := m.ctx))
  {
    hide Moved, Mixed;
    var r := Learn(m, y);
    forall k | 0 <= k < 256 ensures CountersOk(r.c1[k], 256) {
      assert CountersOk(m.c1[k], 256);
    }
    forall f, k | 0 <= f < 2 && 0 <= k < 256 ensures CountersOk(r.c2[f][k], 17) {
      assert CountersOk(m.c2[f][k], 17);
    }
  }

  /** The counters that mix into the estimate. */
  lemma MixedCounters(m: Cm)
    requires CmOk(m)
    ensures m.c0[m.ctx] < 65536 && m.c1[m.last][m.ctx] < 65536 && m.c1[m.older][m.ctx] < 65536
    ensures Mixed(m) == ((m.c0[m.ctx] + m.c1[m.last][m.ctx]) * 7 + 2 * m.c1[m.older][m.ctx]) / 16
  {
    assert CountersOk(m.c1[m.last], 256) && CountersOk(m.c1[m.older], 256);
  }

  lemma AgainCounters(m: Cm, y: bit)
    requires CmOk(m)
    ensures m.c0[m.ctx] < 65536 && m.c1[m.last][m.ctx] < 65536 && m.c1[m.older][m.ctx] < 65536
    ensures Again(m, y).c0[m.ctx] == Moved(m.c0[m.ctx], y, 4)
    ensures Again(m, y).c1[m.last][m.ctx] == Moved(m.c1[m.last][m.ctx], y, 16)
    ensures Again(m, y).c1[m.older][m.ctx] ==
            if m.older == m.last then Moved(m.c1[m.older][m.ctx], y, 16) else m.c1[m.older][m.ctx]
  {
    hide Moved, Mixed;
    MixedCounters(m);
  }

  /** The mixed estimate follows the bit, strictly while the order-0 counter is twelve or more away from its end. */
  lemma MixedFollows(m: Cm, y: bit)
    requires CmOk(m)
    ensures Distance(Mixed(Again(m, y)), y) <= Distance(Mixed(m), y)
    ensures m.c0[m.ctx] < 65536
    ensures Distance(m.c0[m.ctx], y) >= 12 ==> Distance(Mixed(Again(m, y)), y) < Distance(Mixed(m), y)
  {
    hide Moved, Mixed, Learn;
    var r := Again(m, y);
    MixedCounters(m);
    MixedCounters(r);
    AgainCounters(m, y);
    MovedTowards(m.c0[m.ctx], y, 4);
    MovedTowards(m.c1[m.last][m.ctx], y, 16);
    MovedTowards(m.c1[m.older][m.ctx], y, 16);
    if Distance(m.c0[m.ctx], y) >= 12 {
      FirstCounterMoves(m.c0[m.ctx], y);
    }
  }

  // ---------------------------------------------------------------- the final estimate

  /** Between higher counters the interpolation is no lower. */
  lemma InterpolatedGrows(x1: nat, x2: nat, y1: nat, y2: nat, w: nat)
    requires w < 4096 && x1 <= y1 && x2 <= y2
    ensures Interpolated(x1, x2, w) <= Interpolated(y1, y2, w)
  {
    InterpolatedSum(x1, x2, w);
    InterpolatedSum(y1, y2, w);
    MulMono(x1, y1, 4096 - w);
    MulMono(x2, y2, w);
  }

  lemma InterpolatedSum(x1: nat, x2: nat, w: nat)
    requires w < 4096
    ensures Interpolated(x1, x2, w) == (x1 * (4096 - w) + x2 * w) / 4096
  {
    Distrib(x2, x1, w);
    ModShift((x2 - x1) * w, x1, 4096);
    assert x1 * (4096 - w) == x1 * 4096 - x1 * w;
  }

  /** The estimate between the same two counters, in the same proportion, follows the bit. */
  lemma RefinedFollows(m: Cm, y: bit)
    requires CmOk(m)
    ensures var j, w := Mixed(m) / 4096, Mixed(m) % 4096;
            var row, row' := m.c2[Flag(m)][m.ctx], Again(m, y).c2[Flag(m)][m.ctx];
            && |row| == |row'| == 17 && row[j] < 65536 && row'[j] < 65536 && row[j + 1] < 65536 && row'[j + 1] < 65536
            && Distance(row'[j], y) <= Distance(row[j], y) && Distance(row'[j + 1], y) <= Distance(row[j + 1], y)
            && (Distance(row[j], y) >= 64 ==> Distance(row'[j], y) < Distance(row[j], y))
            && (Distance(row[j + 1], y) >= 64 ==> Distance(row'[j + 1], y) < Distance(row[j + 1], y))
            && Refined(m) == Interpolated(row[j], row[j + 1], w) < 65536
            && if y == 1 then Interpolated(row'[j], row'[j + 1], w) >= Refined(m)
               else Interpolated(row'[j], row'[j + 1], w) <= Refined(m)
  {
    var j, w := Mixed(m) / 4096, Mixed(m) % 4096;
    assert CountersOk(m.c2[Flag(m)][m.ctx], 17);
    hide Moved, Mixed, Interpolated;
    var row, row' := m.c2[Flag(m)][m.ctx], Again(m, y).c2[Flag(m)][m.ctx];
    assert row' == row[j := Moved(row[j], y, 64)][j + 1 := Moved(row[j + 1], y, 64)];
    MovedTowards(row[j], y, 64);
    MovedTowards(row[j + 1], y, 64);
    if y == 1 {
      InterpolatedGrows(row[j], row[j + 1], row'[j], row'[j + 1], w);
    } else {
      InterpolatedGrows(row'[j], row'[j + 1], row[j], row[j + 1], w);
    }
  }

  /** The mix counts once and the final estimate three times; at first they are the same but for the last sixteenth. */
  lemma EstimatesWeigh(m: Cm)
    requires CmOk(m)
    ensures Probability(m) - 4 * Mixed(m) == 3 * (Refined(m) - Mixed(m))
    ensures m.c2 == InitialCm().c2 && Mixed(m) < 15 * 4096 ==> Refined(m) == Mixed(m)
  {
    hide Mixed;
    var j, w := Mixed(m) / 4096, Mixed(m) % 4096;
    if m.c2 == InitialCm().c2 && Mixed(m) < 15 * 4096 {
      assert m.c2[Flag(m)][m.ctx][j] == j * 4096 && m.c2[Flag(m)][m.ctx][j + 1] == (j + 1) * 4096;
      DivModUnique(4096 * w, 4096, w, 0);
    }
  }

  /** The first bit of a file has a chance of one half. */
  lemma StartsEven()
    ensures Probability(InitialCm()) == 0x2_0000
  {
    MixedCounters(InitialCm());
    EstimatesWeigh(InitialCm());
  }

  // ---------------------------------------------------------------- the parts

  /** A 1 gets the share of the codes that its probability says, to within one code. */
  lemma PartShare(s: Span, m: Cm)
    requires SpanOk(s) && s.low < s.high && CmOk(m)
    ensures var d, ones := s.high - s.low, Middle(s, m, false) - s.low;
            ones * 0x4_0000 <= d * Probability(m) < (ones + 1) * 0x4_0000
    ensures Middle(s, m, true) - s.low == (s.high - s.low) / 2
    ensures Half(s, m, Modelled(1)) == Span(s.low, Middle(s, m, false))
    ensures Half(s, m, Modelled(0)) == Span(Middle(s, m, false) + 1, s.high)
  {
  }

  // ---------------------------------------------------------------- runs of events

  /** The model after coding events. */
  function Trained(m: Cm, es: seq<Event>): (r: Cm)
    requires CmOk(m)
    ensures CmOk(r)
    decreases |es|
  {
    if es == [] then m else Trained(Step(m, es[0]), es[1..])
  }

  /** The bit is coded in order-0 context c. */
  predicate Visit(m: Cm, e: Event, c: nat) { e.Modelled? && m.ctx == c }

  /** All bits that come to order-0 context c are y. */
  ghost predicate Always(m: Cm, es: seq<Event>, c: nat, y: bit)
    requires CmOk(m)
    decreases |es|
  {
    es == [] || ((Visit(m, es[0], c) ==> es[0].b == y) && Always(Step(m, es[0]), es[1..], c, y))
  }

  function Visits(m: Cm, es: seq<Event>, c: nat): (n: nat)
    requires CmOk(m)
    decreases |es|
  {
    if es == [] then 0 else (if Visit(m, es[0], c) then 1 else 0) + Visits(Step(m, es[0]), es[1..], c)
  }

  lemma CounterAfter(m: Cm, e: Event, c: nat)
    requires CmOk(m) && c < 256
    ensures m.c0[c] < 65536
    ensures Step(m, e).c0[c] == if Visit(m, e, c) then Moved(m.c0[c], e.b, 4) else m.c0[c]
  {
    hide Moved, Mixed;
  }

  /**
   * While a context sees only one bit, every visit takes its order-0 counter closer to that bit's end, until it is
   * within 2^2 of it.
   */
  lemma {:induction false} CounterDriven(m: Cm, es: seq<Event>, c: nat, y: bit)
    requires CmOk(m) && c < 256 && Always(m, es, c, y)
    ensures m.c0[c] < 65536 && Trained(m, es).c0[c] < 65536
    ensures Distance(Trained(m, es).c0[c], y) <= Distance(m.c0[c], y)
    ensures Distance(Trained(m, es).c0[c], y) < 4
            || Distance(Trained(m, es).c0[c], y) + Visits(m, es, c) <= Distance(m.c0[c], y)
    decreases |es|
  {
    hide Step, Moved;
    if es != [] {
      CounterAfter(m, es[0], c);
      if Visit(m, es[0], c) {
        MovedTowards(m.c0[c], y, 4);
      }
      CounterDriven(Step(m, es[0]), es[1..], c, y);
    }
  }

  // ---------------------------------------------------------------- history

  /** The byte before place k; 0 in front of the file. */
  function Before(f: seq<byte>, k: int): (c: byte)
    requires k <= |f|
  {
    if k <= 0 then 0 else f[k - 1]
  }

  /** How many bytes at the end of the file equal the one before them. */
  function Repeats(f: seq<byte>): (n: nat)
  {
    if f == [] || f[|f| - 1] != Before(f, |f| - 1) then 0 else 1 + Repeats(f[..|f| - 1])
  }

  lemma {:induction false} TrainedSplit(m: Cm, a: seq<Event>, b: seq<Event>)
    requires CmOk(m)
    ensures Trained(m, a + b) == Trained(Trained(m, a), b)
    decreases |a|
  {
    hide Step;
    if a == [] {
      assert a + b == b;
    } else {
      assert (a + b)[1..] == a[1..] + b;
      TrainedSplit(Step(m, a[0]), a[1..], b);
    }
  }

  /** The bits of a byte leave the history alone until the byte is complete. */
  lemma {:induction false} ByteTrains(m: Cm, bits: seq<bit>, es: seq<Event>)
    requires CmOk(m) && bits != [] && Depth(m.ctx) + |bits| == 8
    requires |es| == |bits| && forall k :: 0 <= k < |bits| ==> es[k] == Modelled(bits[k])
    ensures var r, c := Trained(m, es), Fold(m.ctx, bits);
            && 256 <= c < 512 && r.ctx == 1 && r.last == c - 256 && r.older == m.last
            && r.run == if c - 256 == m.last then m.run + 1 else 0
    decreases |bits|
  {
    hide Step, Depth;
    var y := bits[0];
    var ctx := 2 * m.ctx + y;
    DepthStep(m.ctx, y);
    DepthEight(ctx);
    assert Fold(m.ctx, bits) == Fold(ctx, bits[1..]);
    StepHistory(m, y);
    if |bits| == 1 {
      assert bits[1..] == [] && es[1..] == [];
      assert Trained(m, es) == Step(m, es[0]);
    } else {
      ByteTrains(Step(m, es[0]), bits[1..], es[1..]);
    }
  }

  lemma StepHistory(m: Cm, y: bit)
    requires CmOk(m)
    ensures var c, r := 2 * m.ctx + y, Step(m, Modelled(y));
            if c < 256 then r.ctx == c && r.last == m.last && r.older == m.older && r.run == m.run
            else r.ctx == 1 && r.last == c - 256 && r.older == m.last
                 && r.run == if c - 256 == m.last then m.run + 1 else 0
  {
    hide Mixed, Moved;
  }

  /** After a file the model's history is its last two bytes and how often the last one has been repeated. */
  lemma {:induction false} HistoryIs(f: seq<byte>)
    ensures var m := Trained(InitialCm(), FileEvents(f));
            m.ctx == 1 && m.last == Before(f, |f|) && m.older == Before(f, |f| - 1) && m.run == Repeats(f)
  {
    hide Step, InitialCm;
    if f == [] {
      StartHistory();
    } else {
      var n := |f| - 1;
      HistoryIs(f[..n]);
      TrainedSplit(InitialCm(), FileEvents(f[..n]), ByteEvents(f[n]));
      FoldByte(f[n]);
      assert Depth(1) == 0;
      ByteTrains(Trained(InitialCm(), FileEvents(f[..n])), ByteBits(f[n]), ByteEvents(f[n]));
    }
  }

  /** The code of a file is the code of its first part, followed by that of the rest under the model trained so far. */
  lemma {:induction false} CodeTrains(s: Span, m: Cm, a: seq<Event>, b: seq<Event>) returns (r: Span)
    requires Ready(s) && CmOk(m)
    ensures Ready(r) && exists p: seq<byte> :: Code(s, m, a + b, []) == p + Code(r, Trained(m, a), b, [])
    decreases |a|
  {
    hide Step, Middle, Settle, Unsettle;
    if a == [] {
      r := s;
      assert a + b == b;
      assert Code(s, m, a + b, []) == [] + Code(r, Trained(m, a), b, []);
    } else {
      var h := Half(s, m, a[0]);
      assert (a + b)[1..] == a[1..] + b;
      r := CodeTrains(Settle(h), Step(m, a[0]), a[1..], b);
      var t := Code(Settle(h), Step(m, a[0]), a[1..] + b, []);
      var p :| t == p + Code(r, Trained(m, a), b, []);
      UnsettleAppend(h, p, Code(r, Trained(m, a), b, []));
      assert Code(s, m, a + b, []) == Unsettle(h, p) + Code(r, Trained(m, a), b, []);
    }
  }

  lemma StartHistory()
    ensures var m := InitialCm(); m.ctx == 1 && m.last == 0 && m.older == 0 && m.run == 0
  {
  }

  /** The second set of final counters is in use while the last four bytes are the same. */
  lemma FlagIs(f: seq<byte>)
    ensures Flag(Trained(InitialCm(), FileEvents(f))) == 1 <==> Repeats(f) >= 3
  {
    hide InitialCm, Trained, Repeats;
    HistoryIs(f);
  }
}
