/** The block exchange that moves non-option arguments behind option arguments. */
module PermuteArgs {
  import opened Arith

  function Gcd(a: nat, b: nat): (g: nat)
    decreases b
  {
    if b == 0 then a else Gcd(b, a % b)
  }

  lemma BezoutStep(b: int, r: int, d: int, u: int, v: int)
    ensures v * (d * b + r) + (u - v * d) * b == u * b + v * r
  {
  }

  lemma EuclidStep(a: nat, b: nat) returns (d: nat, r: nat)
    requires b > 0
    ensures a == d * b + r && r < b && Gcd(a, b) == Gcd(b, r)
  {
    d, r := a / b, a % b;
  }

  /** Euclid's result divides both arguments and is an integer combination of them. */
  lemma {:induction false} GcdBezout(a: nat, b: nat) returns (p: nat, q: nat, u: int, v: int)
    requires a > 0 || b > 0
    ensures Gcd(a, b) > 0
    ensures a == p * Gcd(a, b) && b == q * Gcd(a, b)
    ensures u * a + v * b == Gcd(a, b)
    decreases b
  {
    if b == 0 {
      p, q, u, v := 1, 0, 1, 0;
    } else {
      hide Gcd;
      var d, r := EuclidStep(a, b);
      var p', q', u', v' := GcdBezout(b, r);
      p, v := BezoutOf(a, b, r, d, p', q', u', v', Gcd(b, r));
      q, u := p', v';
    }
  }

  lemma BezoutOf(a: nat, b: nat, r: nat, d: nat, p: nat, q: nat, u: int, v: int, g: nat) returns (p': nat, u': int)
    requires a == d * b + r && b == p * g && r == q * g && u * b + v * r == g
    ensures a == p' * g && v * a + u' * b == g
  {
    p', u' := d * p + q, u - v * d;
    BezoutStep(b, r, d, u, v);
    assert (d * p + q) * g == d * (p * g) + q * g;
  }

  method ComputeGcd(a: nat, b: nat) returns (g: nat)
    requires b > 0
    ensures g == Gcd(a, b)
  {
    var x, y := a, b;
    var c := x % y;
    while c != 0
      invariant y > 0 && c == x % y
      invariant Gcd(x, y) == Gcd(a, b)
      decreases c
    {
      x := y;
      y := c;
      c := x % y;
    }
    return y;
  }

  /** The slot, counted from the start of the first block, that a cycle visits after p. */
  function Next(p: nat, m: nat, k: nat): (r: nat)
    requires p < m + k
    ensures r < m + k
  {
    if p >= m then p - m else p + k
  }

  /** The slot whose content ends up in slot p. */
  function Source(p: nat, m: nat, k: nat): (r: nat)
    requires p < m + k
    ensures r < m + k
  {
    if p < k then p + m else p - k
  }

  /** When the cycle of slot p visits it, counted from 1: w inverts the step modulo the length. */
  function Turn(p: nat, g: nat, len: nat, w: int): (j: int)
    requires g > 0 && len > 0
    ensures 1 <= j <= len
  {
    (-(p / g) * w) % len + 1
  }

  /** Bezout data of the exchange: g divides both blocks, and w * m is g modulo the total. */
  ghost predicate Cycle(m: nat, k: nat, g: nat, len: nat, w: int, m': nat, z: int)
  {
    && k > 0 && g > 0 && len > 0
    && m == m' * g && m + k == len * g
    && w * m' == 1 + z * len
  }

  lemma CycleExists(m: nat, k: nat) returns (len: nat, w: int, m': nat, z: int)
    requires k > 0
    ensures Cycle(m, k, Gcd(m, k), len, w, m', z)
    ensures (m + k) / Gcd(m, k) == len
  {
    var p, q, u, v := GcdBezout(m, k);
    var g := Gcd(m, k);
    len, w, m', z := p + q, u - v, p, -v;
    Distrib(p, q, g);
    BezoutQuotients(p, q, u, v, g);
    Cancel(u * p + v * q, 1, g);
    if len == 0 { MulMono(len, 0, g); }
    DivModUnique(m + k, g, len, 0);
  }

  lemma BezoutQuotients(p: int, q: int, u: int, v: int, g: int)
    ensures (u * p + v * q) * g == u * (p * g) + v * (q * g)
    ensures (u - v) * p == u * p + v * q + (-v) * (p + q)
  {
  }

  /** Dividing by g turns Next into the step on quotients, and keeps the residue. */
  lemma NextQuotient(p: nat, m: nat, k: nat, g: nat, len: nat, w: int, m': nat, z: int)
    requires Cycle(m, k, g, len, w, m', z) && p < m + k
    ensures Next(p, m, k) % g == p % g
    ensures Next(p, m, k) / g == (if p >= m then p / g - m' else p / g - m' + len)
  {
    if p >= m {
      Distrib(0, m', g);
      ModShift(p, 0 - m', g);
    } else {
      Distrib(len, m', g);
      ModShift(p, len - m', g);
    }
  }

  lemma TurnNext(p: nat, m: nat, k: nat, g: nat, len: nat, w: int, m': nat, z: int)
    requires Cycle(m, k, g, len, w, m', z) && p < m + k
    ensures Turn(Next(p, m, k), g, len, w) == (if Turn(p, g, len, w) == len then 1 else Turn(p, g, len, w) + 1)
  {
    NextQuotient(p, m, k, g, len, w, m', z);
    var q, s := p / g, if p >= m then 0 else 1;
    StepTimesInverse(q, m', s, len, w, z);
    StepMod(-q * w, -(Next(p, m, k) / g) * w, z - s * w, len);
  }

  lemma StepTimesInverse(q: int, m': int, s: int, len: int, w: int, z: int)
    requires w * m' == 1 + z * len
    ensures -(q - m' + s * len) * w == -q * w + 1 + (z - s * w) * len
  {
    assert -(q - m' + s * len) * w == -q * w + w * m' - s * w * len;
  }

  lemma StepMod(a: int, b: int, t: int, len: nat)
    requires len > 0 && b == a + 1 + t * len
    ensures b % len == (if a % len == len - 1 then 0 else a % len + 1)
  {
    ModShift(a + 1, t, len);
    if a % len == len - 1 {
      Distrib(a / len, 1, len);
      DivModUnique(a + 1, len, a / len + 1, 0);
    } else {
      DivModUnique(a + 1, len, a / len, a % len + 1);
    }
  }

  lemma TurnInjective(p: nat, p': nat, m: nat, k: nat, g: nat, len: nat, w: int, m': nat, z: int)
    requires Cycle(m, k, g, len, w, m', z) && p < m + k && p' < m + k
    requires p % g == p' % g && Turn(p, g, len, w) == Turn(p', g, len, w)
    ensures p == p'
  {
    TurnQuotient(p, m, k, g, len, w, m', z);
    TurnQuotient(p', m, k, g, len, w, m', z);
  }

  lemma TurnQuotient(p: nat, m: nat, k: nat, g: nat, len: nat, w: int, m': nat, z: int)
    requires Cycle(m, k, g, len, w, m', z) && p < m + k
    ensures p / g == (-(Turn(p, g, len, w) - 1) * m') % len
  {
    var q := p / g;
    var a := -q * w;
    InverseTimesStep(q, w, m', z, len, a / len, a % len);
    ModShift(q, (a / len) * m' + q * z, len);
    if q >= len {
      MulMono(len, q, g);
    }
    DivModUnique(q, len, 0, q);
  }

  lemma InverseTimesStep(q: int, w: int, m': int, z: int, len: int, c: int, r: int)
    requires -q * w == c * len + r && w * m' == 1 + z * len
    ensures -r * m' == q + (c * m' + q * z) * len
  {
    assert -r * m' == (q * w + c * len) * m';
    assert (q * w + c * len) * m' == q * (w * m') + c * m' * len;
    assert q * (1 + z * len) + c * m' * len == q + (c * m' + q * z) * len;
  }

  lemma TurnOfStart(i: nat, m: nat, k: nat, g: nat, len: nat, w: int, m': nat, z: int)
    requires Cycle(m, k, g, len, w, m', z) && i < g && g <= k
    ensures (m + i) % g == i && Turn(m + i, g, len, w) == len
  {
    DivModUnique(m + i, g, m', i);
    InverseOfStart(w, m', z, len);
    ModShift(len - 1, -z - 1, len);
    DivModUnique(len - 1, len, 0, len - 1);
  }

  lemma InverseOfStart(w: int, m': int, z: int, len: int)
    requires w * m' == 1 + z * len
    ensures -m' * w == (len - 1) + (-z - 1) * len
  {
    Distrib(-z, 1, len);
  }

  lemma GcdAtMost(m: nat, k: nat, g: nat, len: nat, m': nat)
    requires k > 0 && m == m' * g && m + k == len * g
    ensures g <= k
  {
    Distrib(len, m', g);
    if len <= m' {
      MulMono(len - m', 0, g);
    } else {
      MulMono(1, len - m', g);
    }
  }

  ghost predicate Advances(cls: seq<nat>, turn: seq<nat>, m: nat, k: nat, len: nat)
    requires |cls| == |turn| == m + k
  {
    forall p {:trigger Next(p, m, k)} :: 0 <= p < m + k ==>
      var n := Next(p, m, k);
      cls[n] == cls[p] && turn[n] == if turn[p] == len then 1 else turn[p] + 1
  }

  ghost predicate Distinct(cls: seq<nat>, turn: seq<nat>)
    requires |cls| == |turn|
  {
    forall p, p' {:trigger cls[p], turn[p']} ::
      0 <= p < |cls| && 0 <= p' < |cls| && cls[p] == cls[p'] && turn[p] == turn[p'] ==> p == p'
  }

  /** cls[p] is the cycle that visits slot p and turn[p] the turn, counted from 1, at which it does. */
  ghost predicate Schedule(cls: seq<nat>, turn: seq<nat>, m: nat, k: nat, g: nat, len: nat)
  {
    && |cls| == |turn| == m + k && 0 < g <= k && 0 < len
    && (forall p :: 0 <= p < m + k ==> cls[p] < g && 1 <= turn[p] <= len)
    && Advances(cls, turn, m, k, len)
    && Distinct(cls, turn)
    && (forall p :: m <= p < m + g ==> cls[p] == p - m && turn[p] == len)
  }

  function Classes(n: nat, g: nat): (r: seq<nat>)
    requires g > 0
  {
    seq(n, p requires 0 <= p < n => p % g)
  }

  function Turns(n: nat, g: nat, len: nat, w: int): (r: seq<nat>)
    requires g > 0 && len > 0
  {
    seq(n, p requires 0 <= p < n => Turn(p, g, len, w))
  }

  lemma TurnsAdvance(m: nat, k: nat, g: nat, len: nat, w: int, m': nat, z: int)
    requires Cycle(m, k, g, len, w, m', z)
    ensures Advances(Classes(m + k, g), Turns(m + k, g, len, w), m, k, len)
  {
    forall p: nat | p < m + k
      ensures Next(p, m, k) % g == p % g
      ensures Turn(Next(p, m, k), g, len, w) == (if Turn(p, g, len, w) == len then 1 else Turn(p, g, len, w) + 1)
    {
      NextQuotient(p, m, k, g, len, w, m', z);
      TurnNext(p, m, k, g, len, w, m', z);
    }
  }

  lemma TurnsDistinct(m: nat, k: nat, g: nat, len: nat, w: int, m': nat, z: int)
    requires Cycle(m, k, g, len, w, m', z)
    ensures Distinct(Classes(m + k, g), Turns(m + k, g, len, w))
  {
    forall p: nat, p': nat | p < m + k && p' < m + k && p % g == p' % g && Turn(p, g, len, w) == Turn(p', g, len, w)
      ensures p == p'
    {
      TurnInjective(p, p', m, k, g, len, w, m', z);
    }
  }

  lemma TurnsStart(m: nat, k: nat, g: nat, len: nat, w: int, m': nat, z: int)
    requires Cycle(m, k, g, len, w, m', z) && g <= k
    ensures forall p {:trigger Classes(m + k, g)[p]} :: m <= p < m + g ==>
              Classes(m + k, g)[p] == p - m && Turns(m + k, g, len, w)[p] == len
  {
    forall p: nat | m <= p < m + g ensures p % g == p - m && Turn(p, g, len, w) == len {
      TurnOfStart(p - m, m, k, g, len, w, m', z);
    }
  }

  /** Gcd-many cycles of equal length visit every slot exactly once. */
  lemma ScheduleExists(m: nat, k: nat) returns (cls: seq<nat>, turn: seq<nat>, len: nat)
    requires k > 0
    ensures 0 < Gcd(m, k) && len == (m + k) / Gcd(m, k)
    ensures Schedule(cls, turn, m, k, Gcd(m, k), len)
  {
    var w, m', z;
    len, w, m', z := CycleExists(m, k);
    var g := Gcd(m, k);
    GcdAtMost(m, k, g, len, m');
    TurnsAdvance(m, k, g, len, w, m', z);
    TurnsDistinct(m, k, g, len, w, m', z);
    TurnsStart(m, k, g, len, w, m', z);
    cls, turn := Classes(m + k, g), Turns(m + k, g, len, w);
    forall p | 0 <= p < m + k ensures cls[p] < g && 1 <= turn[p] <= len {
    }
  }

  /** a with the block [start, mid) moved behind the block [mid, end). */
  function Exchanged<T>(a: seq<T>, start: nat, mid: nat, end: nat): (r: seq<T>)
    requires start <= mid <= end <= |a|
  {
    a[..start] + a[mid..end] + a[start..mid] + a[end..]
  }

  /** Slots visited in the cycles before i, or in the first j turns of cycle i, hold their source;
      the others, except the slot e in which cycle i carries an entry, are as they were. */
  ghost predicate Progress<T>(now: seq<T>, was: seq<T>, start: nat, m: nat, k: nat,
                              cls: seq<nat>, turn: seq<nat>, i: nat, j: nat, e: int)
    requires |now| == |was| && start + m + k <= |was| && |cls| == |turn| == m + k
  {
    && (forall x :: 0 <= x < start || start + m + k <= x < |was| ==> now[x] == was[x])
    && (forall p :: 0 <= p < m + k && p != e ==>
          now[start + p] == if cls[p] < i || (cls[p] == i && turn[p] <= j)
                            then was[start + Source(p, m, k)] else was[start + p])
  }

  lemma ProgressDone<T>(now: seq<T>, was: seq<T>, start: nat, m: nat, k: nat,
                        cls: seq<nat>, turn: seq<nat>, g: nat)
    requires |now| == |was| && start + m + k <= |was| && |cls| == |turn| == m + k
    requires forall p :: 0 <= p < m + k ==> cls[p] < g
    requires Progress(now, was, start, m, k, cls, turn, g, 0, -1)
    ensures now == Exchanged(was, start, start + m, start + m + k)
  {
    var ex := Exchanged(was, start, start + m, start + m + k);
    forall x | 0 <= x < |was| ensures now[x] == ex[x] {
      if start <= x < start + m + k {
        var p := x - start;
        assert cls[p] < g;
        assert now[start + p] == was[start + Source(p, m, k)];
      }
    }
  }

  /** Storing the carried entry in the slot of turn j + 1 extends the progress by one turn. */
  lemma ProgressStep<T>(now: seq<T>, after: seq<T>, was: seq<T>, start: nat, m: nat, k: nat,
                        cls: seq<nat>, turn: seq<nat>, g: nat, len: nat, i: nat, j: nat, e: nat, q: nat)
    requires |now| == |after| == |was| && start + m + k <= |was| && |cls| == |turn| == m + k
    requires Schedule(cls, turn, m, k, g, len) && e < m + k && q < m + k && cls[q] == i && turn[q] == j + 1
    requires Progress(now, was, start, m, k, cls, turn, i, j, e)
    requires after == now[start + q := now[start + e]][start + e := now[start + q]]
    requires now[start + e] == was[start + Source(q, m, k)]
    ensures Progress(after, was, start, m, k, cls, turn, i, j + 1, e)
  {
    forall p | 0 <= p < m + k && p != e
      ensures after[start + p] == if cls[p] < i || (cls[p] == i && turn[p] <= j + 1)
                                 then was[start + Source(p, m, k)] else was[start + p]
    {
      if p != q {
        assert cls[p] != i || turn[p] != j + 1;
      }
    }
  }

  /** The next slot of a cycle has the next turn, still holds its own entry, and is the start only at the end. */
  lemma CycleMoves<T>(now: seq<T>, was: seq<T>, start: nat, m: nat, k: nat, cls: seq<nat>, turn: seq<nat>,
                      i: nat, j: nat, g: nat, len: nat, b: nat, p: nat)
    requires |now| == |was| && start + m + k <= |was| && i < g && j < len && b < m + k
    requires Schedule(cls, turn, m, k, g, len) && Progress(now, was, start, m, k, cls, turn, i, j, m + i)
    requires cls[b] == i && turn[b] == (if j == 0 then len else j) && p == Next(b, m, k)
    ensures cls[p] == i && turn[p] == j + 1 && Source(p, m, k) == b
    ensures p == m + i <==> j + 1 == len
    ensures p != m + i ==> now[start + p] == was[start + p]
  {
    assert cls[p] == i && turn[p] == if turn[b] == len then 1 else turn[b] + 1;
    assert cls[m + i] == i && turn[m + i] == len;
    if j + 1 == len {
      assert turn[p] == turn[m + i];
    }
  }

  lemma CycleStarts(cls: seq<nat>, turn: seq<nat>, m: nat, k: nat, g: nat, len: nat, i: nat)
    requires Schedule(cls, turn, m, k, g, len) && i < g
    ensures |cls| == |turn| == m + k && g <= k && 0 < len
    ensures cls[m + i] == i && turn[m + i] == len
  {
  }

  method Exchange<T>(nargv: array<T>, p: nat, q: nat)
    requires p < nargv.Length && q < nargv.Length
    modifies nargv
    ensures nargv[..] == old(nargv[..])[p := old(nargv[q])][q := old(nargv[p])]
  {
    var swap := nargv[p];
    nargv[p] := nargv[q];
    nargv[q] := swap;
  }

  /** The next slot of cycle i takes what slot `mid + i` holds, and that slot keeps what it held. */
  method NextSlot<T>(start: nat, mid: nat, end: nat, i: nat, pos: nat, nargv: array<T>, ghost j: nat,
                     ghost ncycle: nat, ghost cyclelen: nat, ghost was: seq<T>,
                     ghost cls: seq<nat>, ghost turn: seq<nat>)
    returns (pos': nat)
    requires start <= mid < end <= nargv.Length == |was| && i < ncycle && j < cyclelen && start <= pos < end
    requires Schedule(cls, turn, mid - start, end - mid, ncycle, cyclelen)
    requires cls[pos - start] == i && turn[pos - start] == (if j == 0 then cyclelen else j)
    requires mid + i < end && nargv[mid + i] == was[pos]
    requires Progress(nargv[..], was, start, mid - start, end - mid, cls, turn, i, j, mid - start + i)
    modifies nargv
    ensures start <= pos' < end && cls[pos' - start] == i && turn[pos' - start] == j + 1
    ensures Progress(nargv[..], was, start, mid - start, end - mid, cls, turn, i, j + 1, mid - start + i)
    ensures nargv[mid + i]
         == if j + 1 < cyclelen then was[pos'] else was[start + Source(mid - start + i, mid - start, end - mid)]
  {
    hide Progress, Schedule, Source;
    ghost var m, k, now := mid - start, end - mid, nargv[..];
    CycleStarts(cls, turn, m, k, ncycle, cyclelen, i);
    pos' := if pos >= mid then pos - (mid - start) else pos + (end - mid);
    CycleMoves(now, was, start, m, k, cls, turn, i, j, ncycle, cyclelen, pos - start, pos' - start);
    Exchange(nargv, pos', mid + i);
    ProgressStep(now, nargv[..], was, start, m, k, cls, turn, ncycle, cyclelen, i, j, m + i, pos' - start);
  }

  method RunCycle<T>(start: nat, mid: nat, end: nat, i: nat, ncycle: nat, cyclelen: nat, nargv: array<T>,
                     ghost was: seq<T>, ghost cls: seq<nat>, ghost turn: seq<nat>)
    requires start <= mid < end <= nargv.Length == |was| && i < ncycle
    requires Schedule(cls, turn, mid - start, end - mid, ncycle, cyclelen)
    requires Progress(nargv[..], was, start, mid - start, end - mid, cls, turn, i, 0, -1)
    modifies nargv
    ensures Progress(nargv[..], was, start, mid - start, end - mid, cls, turn, i + 1, 0, -1)
  {
    hide Progress, Schedule, Source;
    ghost var m, k := mid - start, end - mid;
    var pos := mid + i;
    CycleStarts(cls, turn, m, k, ncycle, cyclelen, i);
    ProgressStart(nargv[..], was, start, m, k, cls, turn, i, m + i);
    for j := 0 to cyclelen
      invariant start <= pos < end && cls[pos - start] == i
      invariant turn[pos - start] == (if j == 0 then cyclelen else j)
      invariant Progress(nargv[..], was, start, m, k, cls, turn, i, j, m + i)
      invariant nargv[mid + i] == if j < cyclelen then was[pos] else was[start + Source(m + i, m, k)]
    {
      pos := NextSlot(start, mid, end, i, pos, nargv, j, ncycle, cyclelen, was, cls, turn);
    }
    CycleDone(nargv[..], was, start, m, k, cls, turn, i, ncycle, cyclelen);
  }

  lemma NothingDone<T>(was: seq<T>, start: nat, m: nat, k: nat, cls: seq<nat>, turn: seq<nat>)
    requires start + m + k <= |was| && |cls| == |turn| == m + k
    requires forall p :: 0 <= p < m + k ==> 1 <= turn[p]
    ensures Progress(was, was, start, m, k, cls, turn, 0, 0, -1)
  {
  }

  lemma ProgressStart<T>(now: seq<T>, was: seq<T>, start: nat, m: nat, k: nat,
                         cls: seq<nat>, turn: seq<nat>, i: nat, e: nat)
    requires |now| == |was| && start + m + k <= |was| && |cls| == |turn| == m + k
    requires Progress(now, was, start, m, k, cls, turn, i, 0, -1) && e < m + k && cls[e] == i && turn[e] > 0
    ensures Progress(now, was, start, m, k, cls, turn, i, 0, e) && now[start + e] == was[start + e]
  {
  }

  lemma CycleDone<T>(now: seq<T>, was: seq<T>, start: nat, m: nat, k: nat,
                     cls: seq<nat>, turn: seq<nat>, i: nat, g: nat, len: nat)
    requires |now| == |was| && start + m + k <= |was| && |cls| == |turn| == m + k
    requires i < g && Schedule(cls, turn, m, k, g, len)
    requires Progress(now, was, start, m, k, cls, turn, i, len, m + i)
    requires now[start + (m + i)] == was[start + Source(m + i, m, k)]
    ensures Progress(now, was, start, m, k, cls, turn, i + 1, 0, -1)
  {
  }

  method PermuteArguments<T>(start: nat, mid: nat, end: nat, nargv: array<T>)
    requires start <= mid < end <= nargv.Length
    modifies nargv
    ensures nargv[..] == Exchanged(old(nargv[..]), start, mid, end)
  {
    hide Progress, Gcd, Exchanged, Advances, Distinct;
    ghost var was := nargv[..];
    var nnonopts := mid - start;
    var nopts := end - mid;
    var ncycle := ComputeGcd(nnonopts, nopts);
    ghost var cls, turn, len := ScheduleExists(nnonopts, nopts);
    var cyclelen := (end - start) / ncycle;
    assert cyclelen == len;
    NothingDone(was, start, nnonopts, nopts, cls, turn);
    for i := 0 to ncycle
      invariant Progress(nargv[..], was, start, nnonopts, nopts, cls, turn, i, 0, -1)
    {
      RunCycle(start, mid, end, i, ncycle, cyclelen, nargv, was, cls, turn);
    }
    ProgressDone(nargv[..], was, start, nnonopts, nopts, cls, turn, ncycle);
  }
}
