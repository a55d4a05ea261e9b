/** What the predictors of fpaqc and fpaq0p_sh learn: a context's probability follows the bits coded in it. */
module FpaqLearning {
  import opened Arith
  import opened Bytes
  import opened ByteWindow
  import C = FpaqcSpec
  import S = FpaqShSpec

  /** What is left of a distance once a 32nd of it has been taken. */
  function Closer(d: nat): (r: nat)
    ensures r <= d && (d >= 32 ==> r < d)
  {
    d - d / 32
  }

  // ---------------------------------------------------------------- fpaqc

  /** How far the estimate of context c is from certainty that the next bit is y. */
  function DistanceC(m: C.Model, c: nat, y: bit): (d: nat)
    requires C.ModelOk(m) && c < 512
  {
    if y == 1 then 65536 - m.t[c] else m.t[c]
  }

  /** Only the context of the bit learns, and the next context is the byte's bits so far, or empty behind the ninth. */
  lemma UpdateLearnsC(m: C.Model, y: bit, c: nat)
    requires C.ModelOk(m) && c < 512
    ensures c == m.cxt ==> DistanceC(C.Update(m, y), c, y) == Closer(DistanceC(m, c, y))
    ensures c != m.cxt ==> C.Update(m, y).t[c] == m.t[c]
    ensures C.Update(m, y).cxt == if 2 * m.cxt + y < 512 then 2 * m.cxt + y else 1
  {
  }

  /** The estimate of the bit just coded does not fall. */
  lemma ProbabilityFollowsC(m: C.Model, y: bit)
    requires C.ModelOk(m)
    ensures var again := C.Update(m, y).(cxt := m.cxt);
            C.ModelOk(again)
            && if y == 1 then C.Probability(again) >= C.Probability(m) else C.Probability(again) <= C.Probability(m)
  {
  }

  function TrainedC(m: C.Model, bits: seq<bit>): (r: C.Model)
    requires C.ModelOk(m)
    ensures C.ModelOk(r)
    decreases |bits|
  {
    if bits == [] then m else TrainedC(C.Update(m, bits[0]), bits[1..])
  }

  ghost predicate AlwaysC(m: C.Model, bits: seq<bit>, c: nat, y: bit)
    requires C.ModelOk(m)
    decreases |bits|
  {
    bits == [] || ((m.cxt == c ==> bits[0] == y) && AlwaysC(C.Update(m, bits[0]), bits[1..], c, y))
  }

  function VisitsC(m: C.Model, bits: seq<bit>, c: nat): (n: nat)
    requires C.ModelOk(m)
    decreases |bits|
  {
    if bits == [] then 0 else (if m.cxt == c then 1 else 0) + VisitsC(C.Update(m, bits[0]), bits[1..], c)
  }

  /** While a context sees only one bit, every visit brings its estimate closer to it, until it is within 2^5. */
  lemma {:induction false} ContextDrivenC(m: C.Model, bits: seq<bit>, c: nat, y: bit)
    requires C.ModelOk(m) && c < 512 && AlwaysC(m, bits, c, y)
    ensures DistanceC(TrainedC(m, bits), c, y) <= DistanceC(m, c, y)
    ensures DistanceC(TrainedC(m, bits), c, y) < 32
            || DistanceC(TrainedC(m, bits), c, y) + VisitsC(m, bits, c) <= DistanceC(m, c, y)
    decreases |bits|
  {
    hide C.Update, Closer;
    if bits != [] {
      UpdateLearnsC(m, bits[0], c);
      ContextDrivenC(C.Update(m, bits[0]), bits[1..], c, y);
    }
  }

  /** Every bit of a file is coded with the estimate of the model trained on the bits before it. */
  lemma {:induction false} ItemsTrain(m: C.Model, bits: seq<bit>, k: nat)
    requires C.ModelOk(m) && k < |bits|
    ensures |C.Items(m, bits)| == |bits|
    ensures C.Items(m, bits)[k] == C.Item(C.Probability(TrainedC(m, bits[..k])), bits[k])
    decreases |bits|
  {
    hide C.Update, C.Probability;
    ItemsCount(m, bits);
    if k > 0 {
      ItemsTrain(C.Update(m, bits[0]), bits[1..], k - 1);
      assert bits[1..][..k - 1] == bits[..k][1..];
    }
  }

  lemma {:induction false} ItemsCount(m: C.Model, bits: seq<bit>)
    requires C.ModelOk(m)
    ensures |C.Items(m, bits)| == |bits|
    decreases |bits|
  {
    hide C.Update, C.Probability;
    if bits != [] {
      ItemsCount(C.Update(m, bits[0]), bits[1..]);
    }
  }

  /** At first every bit has a chance of about one half. */
  lemma StartsEvenC(c: nat)
    requires 1 <= c < 512
    ensures C.Probability(C.InitialModel().(cxt := c)) == 2048
  {
  }

  /** Coding a bit multiplies the state by one over the bit's probability, to within one step. */
  lemma StateGrows(it: C.Item, w: nat)
    requires C.ItemOk(it)
    ensures var x, share := C.CodeWord(it, w), if it.d == 1 then it.q else 4096 - it.q;
            4096 * w < share * (x + 1) && share * x < 4096 * (w + 1)
  {
    var share := if it.d == 1 then it.q else 4096 - it.q;
    var a := if it.d == 1 then w * 4096 else (w + 1) * 4096 - 1;
    var x := a / share;
    assert a == x * share + a % share;
    Distrib(x, 1, share);
    assert share * x == x * share && share * (x + 1) == (x + 1) * share;
  }

  // ---------------------------------------------------------------- fpaq0p_sh

  ghost predicate OkS(m: S.Model) { S.ModelOk(m) && m.cxt < 256 }

  /** How far the estimate of context c is from certainty that the next bit is y; it never reaches it. */
  function DistanceS(m: S.Model, c: nat, y: bit): (d: nat)
    requires OkS(m) && 1 <= c < 256
  {
    if y == 1 then m.p[c - 1] else 32768 - m.p[c - 1]
  }

  /** Only the context of the bit learns, and the next context is the byte's bits so far, or empty behind the eighth. */
  lemma StepLearnsS(m: S.Model, y: bit, c: nat)
    requires OkS(m) && 1 <= c < 256
    ensures c == m.cxt ==> DistanceS(S.Step(m, y), c, y) == Closer(DistanceS(m, c, y))
    ensures c != m.cxt ==> S.Step(m, y).p[c - 1] == m.p[c - 1]
    ensures S.Step(m, y).cxt == if 2 * m.cxt + y < 256 then 2 * m.cxt + y else 1
  {
  }

  /** A 0 gets the share of the range that its estimate says, rounded down to a multiple of it. */
  lemma PartShareS(m: S.Model, range: nat)
    requires OkS(m) && range >= TOP
    ensures var p, zero := m.p[m.cxt - 1], S.Size(m, range, 0);
            zero * 32768 <= p * range < (zero + p) * 32768 && S.Size(m, range, 1) == range - zero
  {
    var p, q := m.p[m.cxt - 1], range / 32768;
    assert range == q * 32768 + range % 32768;
    Distrib(q * 32768, range % 32768, p);
    MulMono(range % 32768, 32767, p);
    MulMono(0, range % 32768, p);
    assert p * (q * 32768) == q * p * 32768;
    Distrib(q * p, p, 32768);
    assert p * range == range * p;
  }

  function TrainedS(m: S.Model, bits: seq<bit>): (r: S.Model)
    requires OkS(m)
    ensures OkS(r)
    decreases |bits|
  {
    if bits == [] then m else TrainedS(S.Step(m, bits[0]), bits[1..])
  }

  ghost predicate AlwaysS(m: S.Model, bits: seq<bit>, c: nat, y: bit)
    requires OkS(m)
    decreases |bits|
  {
    bits == [] || ((m.cxt == c ==> bits[0] == y) && AlwaysS(S.Step(m, bits[0]), bits[1..], c, y))
  }

  function VisitsS(m: S.Model, bits: seq<bit>, c: nat): (n: nat)
    requires OkS(m)
    decreases |bits|
  {
    if bits == [] then 0 else (if m.cxt == c then 1 else 0) + VisitsS(S.Step(m, bits[0]), bits[1..], c)
  }

  /** While a context sees only one bit, every visit brings its estimate closer to it, until it is within 2^5. */
  lemma {:induction false} ContextDrivenS(m: S.Model, bits: seq<bit>, c: nat, y: bit)
    requires OkS(m) && 1 <= c < 256 && AlwaysS(m, bits, c, y)
    ensures DistanceS(TrainedS(m, bits), c, y) <= DistanceS(m, c, y)
    ensures DistanceS(TrainedS(m, bits), c, y) < 32
            || DistanceS(TrainedS(m, bits), c, y) + VisitsS(m, bits, c) <= DistanceS(m, c, y)
    decreases |bits|
  {
    hide S.Step, Closer;
    if bits != [] {
      StepLearnsS(m, bits[0], c);
      ContextDrivenS(S.Step(m, bits[0]), bits[1..], c, y);
    }
  }

  /** At first every bit has a chance of one half. */
  lemma StartsEvenS(c: nat)
    requires 1 <= c < 256
    ensures DistanceS(S.InitialModel(), c, 0) == DistanceS(S.InitialModel(), c, 1)
  {
  }
}
