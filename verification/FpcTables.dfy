/** FPC's canonical codes: aligned starts, bit reversal, and the encoding and decoding tables. */
module FpcTables {
  import opened Arith
  import opened Bytes
  import opened CountingSort
  import opened FpcBase

  const SPACE := 16384

  datatype Enode = Enode(val: nat, len: nat)
  datatype Dnode = Dnode(len: nat, sym: nat)

  // ---------------------------------------------------------------- reversing bits

  /** The n low bits of x in reverse order. */
  function Rev(x: nat, n: nat): (r: nat)
    decreases n
  {
    if n == 0 then 0 else Times(x % 2, Pow2(n - 1)) + Rev(x / 2, n - 1)
  }

  lemma {:induction false} RevBound(x: nat, n: nat)
    ensures Rev(x, n) < Pow2(n)
    decreases n
  {
    if n > 0 {
      RevBound(x / 2, n - 1);
      assert x % 2 == 0 || x % 2 == 1;
    }
  }

  /** Reversing two parts next to each other swaps them. */
  lemma {:induction false} RevParts(h: nat, l: nat, j: nat, k: nat)
    requires l < Pow2(k)
    ensures Rev(Times(h, Pow2(k)) + l, j + k) == Times(Rev(l, k), Pow2(j)) + Rev(h, j)
    decreases k
  {
    if k > 0 {
      var p := Pow2(k - 1);
      HalfOf(h, p, l);
      RevParts(h, l / 2, j, k - 1);
      Pow2Add(k - 1, j);
      TimesSplit(l % 2, p, Rev(l / 2, k - 1), Pow2(j));
    }
  }

  lemma HalfOf(h: nat, p: nat, l: nat)
    ensures (Times(h, 2 * p) + l) / 2 == Times(h, p) + l / 2 && (Times(h, 2 * p) + l) % 2 == l % 2
  {
    assert Times(h, 2 * p) == 2 * Times(h, p);
  }

  lemma TimesSplit(b: nat, p: nat, r: nat, q: nat)
    ensures Times(Times(b, p) + r, q) == Times(b, p * q) + Times(r, q)
  {
    Distrib(b * p, r, q);
    assert b * p * q == b * (p * q);
  }

  lemma {:induction false} RevTwice(x: nat, n: nat)
    requires x < Pow2(n)
    ensures Rev(Rev(x, n), n) == x
  {
    if n > 0 {
      RevStep(x, n);
      hide Rev;
      var l := Rev(x / 2, n - 1);
      RevBound(x / 2, n - 1);
      RevParts(x % 2, l, 1, n - 1);
      RevTwice(x / 2, n - 1);
      RevBit(x % 2);
    }
  }

  lemma RevStep(x: nat, n: nat)
    requires n > 0
    ensures Rev(x, n) == Times(x % 2, Pow2(n - 1)) + Rev(x / 2, n - 1)
  {
  }

  lemma RevBit(b: bit)
    ensures Rev(b, 1) == b && forall h: nat :: Times(h, Pow2(1)) == 2 * h
  {
    assert Pow2(0) == 1 && Pow2(1) == 2;
    assert Rev(b / 2, 0) == 0;
  }

  const TREV0: seq<nat> := [0, 64, 32, 96, 16, 80, 48, 112, 8, 72, 40, 104, 24, 88, 56, 120]
  const TREV1: seq<nat> := [4, 68, 36, 100, 20, 84, 52, 116, 12, 76, 44, 108, 28, 92, 60, 124]
  const TREV2: seq<nat> := [2, 66, 34, 98, 18, 82, 50, 114, 10, 74, 42, 106, 26, 90, 58, 122]
  const TREV3: seq<nat> := [6, 70, 38, 102, 22, 86, 54, 118, 14, 78, 46, 110, 30, 94, 62, 126]
  const TREV4: seq<nat> := [1, 65, 33, 97, 17, 81, 49, 113, 9, 73, 41, 105, 25, 89, 57, 121]
  const TREV5: seq<nat> := [5, 69, 37, 101, 21, 85, 53, 117, 13, 77, 45, 109, 29, 93, 61, 125]
  const TREV6: seq<nat> := [3, 67, 35, 99, 19, 83, 51, 115, 11, 75, 43, 107, 27, 91, 59, 123]
  const TREV7: seq<nat> := [7, 71, 39, 103, 23, 87, 55, 119, 15, 79, 47, 111, 31, 95, 63, 127]

  /** trev: seven bits reversed, a row for each value of the upper three. */
  function Trev(i: nat): (v: nat)
    requires i < 128
  {
    match i / 16
    case 0 => TREV0[i % 16]
    case 1 => TREV1[i % 16]
    case 2 => TREV2[i % 16]
    case 3 => TREV3[i % 16]
    case 4 => TREV4[i % 16]
    case 5 => TREV5[i % 16]
    case 6 => TREV6[i % 16]
    case _ => TREV7[i % 16]
  }

  /** brev: 14 bits through a table of 7. */
  function Brev(num: nat): (v: nat)
    requires num < SPACE
  {
    Trev(num / 128) + Trev(num % 128) * 128
  }

  /** The seven bits of i, reversed one by one. */
  function SevenBits(i: nat): (r: nat) {
    i % 2 * 64 + i / 2 % 2 * 32 + i / 4 % 2 * 16 + i / 8 % 2 * 8 + i / 16 % 2 * 4 + i / 32 % 2 * 2 + i / 64 % 2
  }

  lemma RevFour(i: nat, n: nat)
    ensures Rev(i, n + 4) ==
            i % 2 * Pow2(n + 3) + i / 2 % 2 * Pow2(n + 2) + i / 4 % 2 * Pow2(n + 1) + i / 8 % 2 * Pow2(n)
            + Rev(i / 16, n)
  {
    hide Rev, Pow2;
    RevNext(i, n + 3);
    RevNext(i / 2, n + 2);
    RevNext(i / 4, n + 1);
    RevNext(i / 8, n);
    assert i / 2 / 2 == i / 4 && i / 4 / 2 == i / 8 && i / 8 / 2 == i / 16;
  }

  lemma RevNext(i: nat, n: nat)
    ensures Rev(i, n + 1) == i % 2 * Pow2(n) + Rev(i / 2, n)
  {
  }

  lemma RevThree(i: nat)
    ensures Rev(i, 3) == i % 2 * 4 + i / 2 % 2 * 2 + i / 4 % 2
  {
    Pow2Values();
    RevNext(i, 2);
    RevNext(i / 2, 1);
    RevNext(i / 4, 0);
  }

  lemma SevenBitsIsRev(i: nat)
    ensures Rev(i, 7) == SevenBits(i)
  {
    hide Rev, Pow2;
    Pow2Values();
    RevThree(i / 16);
    RevFour(i, 3);
    assert i / 16 / 2 == i / 32 && i / 16 / 4 == i / 64;
  }

  /** The lower four bits of a row's place, reversed above the row's own three bits. */
  function FourBits(c: nat): (r: nat) { c % 2 * 64 + c / 2 % 2 * 32 + c / 4 % 2 * 16 + c / 8 % 2 * 8 }

  lemma FourBitsAre()
    ensures FourBits(0) == 0 && FourBits(1) == 64 && FourBits(2) == 32 && FourBits(3) == 96
    ensures FourBits(4) == 16 && FourBits(5) == 80 && FourBits(6) == 48 && FourBits(7) == 112
    ensures FourBits(8) == 8 && FourBits(9) == 72 && FourBits(10) == 40 && FourBits(11) == 104
    ensures FourBits(12) == 24 && FourBits(13) == 88 && FourBits(14) == 56 && FourBits(15) == 120
  {
  }

  lemma RowOfTable(row: seq<nat>, top: nat)
    requires |row| == 16 && row == [top, 64 + top, 32 + top, 96 + top, 16 + top, 80 + top, 48 + top, 112 + top,
                                    8 + top, 72 + top, 40 + top, 104 + top, 24 + top, 88 + top, 56 + top, 120 + top]
    ensures forall c :: 0 <= c < 16 ==> row[c] == FourBits(c) + top
  {
    hide FourBits;
    FourBitsAre();
  }

  lemma TwoParts(i: nat)
    ensures SevenBits(i) == FourBits(i % 16) + (i / 16 % 2 * 4 + i / 16 / 2 % 2 * 2 + i / 16 / 4 % 2)
  {
    var h, c := i / 16, i % 16;
    assert i == 16 * h + c;
    LowBit(i, h, c, 1);
    LowBit(i, h, c, 2);
    LowBit(i, h, c, 4);
    LowBit(i, h, c, 8);
    DivModUnique(i, 32, h / 2, h % 2 * 16 + c);
    DivModUnique(i, 64, h / 4, h % 4 * 16 + c);
  }

  lemma LowBit(i: nat, h: nat, c: nat, d: nat)
    requires i == 16 * h + c && (d == 1 || d == 2 || d == 4 || d == 8)
    ensures i / d % 2 == c / d % 2
  {
    DivModUnique(i, d, 16 / d * h + c / d, c % d);
    ModShift(c / d, 8 / d * h, 2);
  }

  lemma TrevReverses(i: nat)
    requires i < 128
    ensures Trev(i) == SevenBits(i)
  {
    hide SevenBits, FourBits, TREV0, TREV1, TREV2, TREV3, TREV4, TREV5, TREV6, TREV7;
    TwoParts(i);
    match i / 16 {
      case 0 => FirstRows(i % 16);
      case 1 => FirstRows(i % 16);
      case 2 => FirstRows(i % 16);
      case 3 => FirstRows(i % 16);
      case _ => LastRows(i % 16);
    }
  }

  lemma FirstRows(c: nat)
    requires c < 16
    ensures TREV0[c] == FourBits(c) && TREV1[c] == FourBits(c) + 4
    ensures TREV2[c] == FourBits(c) + 2 && TREV3[c] == FourBits(c) + 6
  {
    hide FourBits;
    RowOfTable(TREV0, 0);
    RowOfTable(TREV1, 4);
    RowOfTable(TREV2, 2);
    RowOfTable(TREV3, 6);
  }

  lemma LastRows(c: nat)
    requires c < 16
    ensures TREV4[c] == FourBits(c) + 1 && TREV5[c] == FourBits(c) + 5
    ensures TREV6[c] == FourBits(c) + 3 && TREV7[c] == FourBits(c) + 7
  {
    hide FourBits;
    RowOfTable(TREV4, 1);
    RowOfTable(TREV5, 5);
    RowOfTable(TREV6, 3);
    RowOfTable(TREV7, 7);
  }

  lemma BrevIsRev(num: nat)
    requires num < SPACE
    ensures Brev(num) == Rev(num, AMAX_BIT_LEN)
  {
    hide SevenBits, Rev;
    var h, l := num / 128, num % 128;
    Pow2Values();
    TrevReverses(h);
    TrevReverses(l);
    SevenBitsIsRev(h);
    SevenBitsIsRev(l);
    RevParts(h, l, 7, 7);
  }

  // ---------------------------------------------------------------- canonical starts

  /** Codes of all symbols longer than b bits, in units of 2^-14. */
  function Start(lens: seq<byte>, b: nat, n: nat): (r: nat)
    requires b <= MAX_BIT_LEN && n <= |lens|
    decreases MAX_BIT_LEN - b
  {
    if b == MAX_BIT_LEN then 0
    else Start(lens, b + 1, n) + Times(Count(lens, b + 1, n), Pow2(AMAX_BIT_LEN - (b + 1)))
  }

  /** The next code of length b when the first a symbols have theirs. */
  function Fill(lens: seq<byte>, b: nat, a: nat): (r: nat)
    requires b <= MAX_BIT_LEN && a <= |lens|
  {
    Start(lens, b, |lens|) + Times(Count(lens, b, a), Pow2(AMAX_BIT_LEN - b))
  }

  /** The lengths use up the whole code space: Kraft's equality. */
  ghost predicate Full(lens: seq<byte>) { Lens(lens) && Start(lens, 0, |lens|) == SPACE }

  /** Symbol a owns the codes y that start with its own code. */
  ghost predicate Owns(lens: seq<byte>, a: nat, y: nat)
  {
    && Lens(lens) && a < 256 && lens[a] > 0
    && Fill(lens, lens[a], a) <= y < Fill(lens, lens[a], a + 1)
  }

  lemma {:induction false} StartFalls(lens: seq<byte>, b: nat, c: nat)
    requires b <= c <= MAX_BIT_LEN
    ensures Start(lens, c, |lens|) <= Start(lens, b, |lens|)
    decreases c - b
  {
    if b < c {
      StartFalls(lens, b + 1, c);
    }
  }

  lemma FillRises(lens: seq<byte>, b: nat, i: nat, j: nat)
    requires b <= MAX_BIT_LEN && i <= j <= |lens|
    ensures Fill(lens, b, i) <= Fill(lens, b, j)
  {
    CountMono(lens, b, i, j);
    MulMono(Count(lens, b, i), Count(lens, b, j), Pow2(AMAX_BIT_LEN - b));
  }

  lemma FillEnds(lens: seq<byte>, b: nat)
    requires 1 <= b <= MAX_BIT_LEN
    ensures Fill(lens, b, |lens|) == Start(lens, b - 1, |lens|)
  {
  }

  lemma FillStep(lens: seq<byte>, b: nat, a: nat)
    requires b <= MAX_BIT_LEN && a < |lens|
    ensures Fill(lens, b, a + 1) == Fill(lens, b, a) + if lens[a] == b then Pow2(AMAX_BIT_LEN - b) else 0
  {
    hide Start, Times, Pow2;
    TimesNext(Count(lens, b, a), Pow2(AMAX_BIT_LEN - b));
  }

  /** No code starts with another: a place in the code space has one owner at most. */
  lemma OneOwner(lens: seq<byte>, a: nat, c: nat, y: nat)
    requires Owns(lens, a, y) && Owns(lens, c, y)
    ensures a == c
  {
    hide Fill, Start;
    if lens[a] == lens[c] {
      if a < c {
        FillRises(lens, lens[a], a + 1, c);
      } else if c < a {
        FillRises(lens, lens[a], c + 1, a);
      }
    } else if lens[a] > lens[c] {
      LongerBelow(lens, a, c);
    } else {
      LongerBelow(lens, c, a);
    }
  }

  lemma LongerBelow(lens: seq<byte>, a: nat, c: nat)
    requires Lens(lens) && a < 256 && c < 256 && lens[a] > lens[c] > 0
    ensures Fill(lens, lens[a], a + 1) <= Fill(lens, lens[c], c)
  {
    FillRises(lens, lens[a], a + 1, 256);
    FillEnds(lens, lens[a]);
    StartFalls(lens, lens[c], lens[a] - 1);
  }

  /** With Kraft's equality every place has an owner. */
  lemma SomeOwner(lens: seq<byte>, y: nat) returns (a: nat)
    requires Full(lens) && y < SPACE
    ensures Owns(lens, a, y)
  {
    hide Fill, Start;
    a := OwnerFrom(lens, y, 1);
  }

  lemma NoneLonger(lens: seq<byte>)
    ensures Start(lens, MAX_BIT_LEN, |lens|) == 0
  {
  }

  /** Which of n spaces of width p place y falls in. */
  lemma Turn(y: nat, n: nat, p: nat) returns (k: nat)
    requires p > 0 && y < Times(n, p)
    ensures k < n && Times(k, p) <= y < Times(k, p) + p
  {
    k := y / p;
    DivAtLeast(y, p, n);
    DivAtLeast(y, p, k);
    DivAtLeast(y, p, k + 1);
    Distrib(k, 1, p);
  }

  lemma OwnerFrom(lens: seq<byte>, y: nat, b: nat) returns (a: nat)
    requires Lens(lens) && 1 <= b <= MAX_BIT_LEN && y < Start(lens, b - 1, 256)
    ensures Owns(lens, a, y)
    decreases MAX_BIT_LEN - b
  {
    hide Start, Count;
    StartStep(lens, b, 256);
    NoneLonger(lens);
    if Start(lens, b, 256) <= y {
      hide Pow2, Times;
      var p := Pow2(AMAX_BIT_LEN - b);
      var k := Turn(y - Start(lens, b, 256), Count(lens, b, 256), p);
      a := PlaceWithCount(lens, b, k, 256);
      FillStep(lens, b, a);
    } else {
      a := OwnerFrom(lens, y, b + 1);
    }
  }

  /** Kraft's equality alone puts every start on a multiple of its code width. */
  lemma {:induction false} StartAligned(lens: seq<byte>, b: nat) returns (k: nat)
    requires Full(lens) && b <= MAX_BIT_LEN
    ensures SPACE - Start(lens, b, 256) == Times(k, Pow2(AMAX_BIT_LEN - b))
    decreases b
  {
    hide Start, Count;
    if b == 0 {
      k := 0;
    } else {
      var j := StartAligned(lens, b - 1);
      var n := Count(lens, b, 256);
      k := 2 * j + n;
      StartStep(lens, b, 256);
      AlignStep(j, n, Pow2(AMAX_BIT_LEN - b));
    }
  }

  lemma StartStep(lens: seq<byte>, b: nat, n: nat)
    requires 1 <= b <= MAX_BIT_LEN && n <= |lens|
    ensures Start(lens, b - 1, n) == Start(lens, b, n) + Times(Count(lens, b, n), Pow2(AMAX_BIT_LEN - b))
    ensures Pow2(AMAX_BIT_LEN - (b - 1)) == 2 * Pow2(AMAX_BIT_LEN - b)
  {
  }

  lemma AlignStep(j: nat, n: nat, p: nat)
    ensures Times(2 * j + n, p) == Times(j, 2 * p) + Times(n, p)
  {
    Distrib(2 * j, n, p);
  }

  /** The code of a symbol: its place is a multiple of its width, and inside the code space. */
  lemma CodeAligned(lens: seq<byte>, a: nat) returns (c: nat)
    requires Full(lens) && a < 256 && lens[a] > 0
    ensures Fill(lens, lens[a], a) == Times(c, Pow2(AMAX_BIT_LEN - lens[a])) && c < Pow2(lens[a])
    ensures Fill(lens, lens[a], a + 1) == Times(c + 1, Pow2(AMAX_BIT_LEN - lens[a])) <= SPACE
  {
    var b: nat := lens[a];
    var p := Pow2(AMAX_BIT_LEN - b);
    var k := StartAligned(lens, b);
    FillRises(lens, b, a + 1, 256);
    FillStep(lens, b, a);
    FillEnds(lens, b);
    StartFalls(lens, 0, b - 1);
    Pow2Add(b, AMAX_BIT_LEN - b);
    Sixteen();
    c := CodeOf(Start(lens, b, 256), Count(lens, b, a), Pow2(b), k, p);
  }

  lemma Sixteen()
    ensures Pow2(AMAX_BIT_LEN) == SPACE && Pow2(MAX_BIT_LEN) == TABLE
  {
    Pow2Values();
    Pow2Add(7, 7);
    Pow2Add(5, 6);
  }

  lemma CodeOf(start: nat, n: nat, q: nat, k: nat, p: nat) returns (c: nat)
    requires p > 0 && SPACE == Times(q, p) && SPACE - start == Times(k, p) && start <= SPACE
    requires start + Times(n, p) + p <= SPACE
    ensures start + Times(n, p) == Times(c, p) && start + Times(n, p) + p == Times(c + 1, p) && c < q
  {
    if q < k {
      TimesNext(q, p);
      TimesMono(q + 1, k, p);
    }
    c := q - k + n;
    TimesAdd(q - k, k, p);
    TimesAdd(q - k, n, p);
    TimesNext(c, p);
    hide Times;
    if c >= q {
      TimesMono(q, c, p);
    }
  }

  // ---------------------------------------------------------------- tables

  /** The bits of a symbol's code, first bit lowest. */
  function CodeVal(lens: seq<byte>, a: nat): (c: nat)
    requires Lens(lens) && a < 256
  {
    Rev(Fill(lens, lens[a], a), AMAX_BIT_LEN)
  }

  /** The windows of 11 bits that start with a symbol's code are the ones it owns. */
  lemma WindowOwner(lens: seq<byte>, a: nat, x: nat)
    requires Full(lens) && a < 256 && lens[a] > 0 && x < TABLE
    ensures CodeVal(lens, a) < Pow2(lens[a])
    ensures x % Pow2(lens[a]) == CodeVal(lens, a) <==> Owns(lens, a, Rev(x, AMAX_BIT_LEN))
  {
    hide Fill, Start, Rev;
    var c := CodeAligned(lens, a);
    ReversedWindow(c, lens[a], AMAX_BIT_LEN - lens[a], x);
  }

  /** The b lowest bits of x are the reversed c exactly when the reversed x starts with c. */
  lemma ReversedWindow(c: nat, b: nat, n: nat, x: nat)
    requires c < Pow2(b)
    ensures Rev(Times(c, Pow2(n)), b + n) == Rev(c, b) < Pow2(b)
    ensures x % Pow2(b) == Rev(c, b) <==> Times(c, Pow2(n)) <= Rev(x, b + n) < Times(c + 1, Pow2(n))
  {
    hide Rev, Pow2;
    var p, q := Pow2(n), Pow2(b);
    RevParts(c, 0, b, n);
    RevZero(n);
    RevBound(c, b);
    var h, l := x / q, x % q;
    WholeOf(x, q);
    RevParts(h, l, n, b);
    RevBound(h, n);
    RevBound(l, b);
    RevTwice(l, b);
    RevTwice(c, b);
    Between(Rev(l, b), c, p, Rev(h, n));
    Between(0, c, q, 0);
  }

  lemma WholeOf(x: nat, q: nat)
    requires q > 0
    ensures x / q >= 0 && x == Times(x / q, q) + x % q
  {
    DivAtLeast(x, q, 0);
  }

  lemma {:induction false} RevZero(n: nat)
    ensures Rev(0, n) == 0
  {
    if n > 0 {
      RevZero(n - 1);
    }
  }

  lemma Between(m: nat, c: nat, p: nat, r: nat)
    requires r < p
    ensures Times(0, p) == 0 && (Times(c, p) <= Times(m, p) + r < Times(c + 1, p) <==> m == c)
  {
    Distrib(c, 1, p);
    if m > c {
      MulMono(c + 1, m, p);
    } else if m < c {
      MulMono(m + 1, c, p);
      Distrib(m, 1, p);
    }
  }

  /** The symbol whose code a window of 11 bits starts with. */
  ghost function Owner(lens: seq<byte>, x: nat): (a: nat)
    requires Full(lens) && x < TABLE
    ensures a < 256 && lens[a] > 0 && x % Pow2(lens[a]) == CodeVal(lens, a)
  {
    hide Fill, Start, Rev;
    RevBound(x, AMAX_BIT_LEN);
    Sixteen();
    var y := Rev(x, AMAX_BIT_LEN);
    assert exists a :: Owns(lens, a, y) by {
      var a := SomeOwner(lens, y);
    }
    var a :| Owns(lens, a, y);
    WindowOwner(lens, a, x);
    a
  }

  /** A window that starts with a symbol's code belongs to that symbol alone. */
  lemma OwnerIs(lens: seq<byte>, a: nat, x: nat)
    requires Full(lens) && x < TABLE && a < 256 && lens[a] > 0
    ensures x % Pow2(lens[a]) == CodeVal(lens, a) <==> a == Owner(lens, x)
  {
    hide Fill, Start, Rev, CodeVal;
    if x % Pow2(lens[a]) == CodeVal(lens, a) {
      var y := Rev(x, AMAX_BIT_LEN);
      WindowOwner(lens, a, x);
      WindowOwner(lens, Owner(lens, x), x);
      OneOwner(lens, a, Owner(lens, x), y);
    }
  }

  /** Counts of lengths become the first code of every length; the sum is the used code space. */
  method Starts(count: array<nat>, ghost lens: seq<byte>) returns (total: nat)
    requires Lens(lens) && count.Length == AMAX_BIT_LEN + 1
    requires forall b :: 1 <= b <= MAX_BIT_LEN ==> count[b] == Count(lens, b, 256)
    modifies count
    ensures forall b :: 1 <= b <= MAX_BIT_LEN ==> count[b] == Start(lens, b, 256)
    ensures total == Start(lens, 0, 256)
  {
    hide Start, Count;
    var prevCum, prevNum := 0, 0;
    var a := MAX_BIT_LEN;
    NoneLonger(lens);
    while a != 0
      invariant 0 <= a <= MAX_BIT_LEN && prevCum + prevNum == Start(lens, a, 256)
      invariant forall b :: a < b <= MAX_BIT_LEN ==> count[b] == Start(lens, b, 256)
      invariant forall b :: 1 <= b <= a ==> count[b] == Count(lens, b, 256)
      invariant a < MAX_BIT_LEN ==> prevCum == count[a + 1]
    {
      StartStep(lens, a, 256);
      prevCum := prevCum + prevNum;
      prevNum := Times(count[a], Pow2(AMAX_BIT_LEN - a));
      count[a] := prevCum;
      a := a - 1;
    }
    total := count[1] + prevNum;
  }

  ghost predicate NextCodes(count: array<nat>, lens: seq<byte>, a: nat)
    reads count
  {
    && count.Length == AMAX_BIT_LEN + 1 && a <= |lens|
    && forall b :: 1 <= b <= MAX_BIT_LEN ==> count[b] == Fill(lens, b, a)
  }

  /** The next code of length b, reversed; the count moves on to the one after it. */
  method NextCode(count: array<nat>, b: nat, ghost lens: seq<byte>, ghost a: nat) returns (val: nat)
    requires Full(lens) && a < SYMBOLS && lens[a] == b > 0 && NextCodes(count, lens, a)
    modifies count
    ensures NextCodes(count, lens, a + 1) && val == CodeVal(lens, a)
  {
    hide Fill, Start, Rev, Brev;
    forall c: nat | 1 <= c <= MAX_BIT_LEN
      ensures Fill(lens, c, a + 1) == Fill(lens, c, a) + if b == c then Pow2(AMAX_BIT_LEN - c) else 0
    {
      FillStep(lens, c, a);
    }
    ghost var c := CodeAligned(lens, a);
    BrevIsRev(count[b]);
    val := Brev(count[b]);
    count[b] := count[b] + Pow2(AMAX_BIT_LEN - b);
  }

  lemma SkipCode(count: array<nat>, lens: seq<byte>, a: nat)
    requires Lens(lens) && a < SYMBOLS && lens[a] == 0 && NextCodes(count, lens, a)
    ensures NextCodes(count, lens, a + 1)
  {
    hide Fill;
    forall b: nat | 1 <= b <= MAX_BIT_LEN ensures Fill(lens, b, a + 1) == Fill(lens, b, a) {
      FillStep(lens, b, a);
    }
  }

  /** The windows that start with the bits of `first`. */
  predicate Hit(x: nat, first: nat, d: nat)
    requires d > 0
  {
    x % d == first
  }

  /** Every hit below `base` has been written, once. */
  ghost predicate Written(t0: seq<Dnode>, w0: seq<nat>, t: seq<Dnode>, w: seq<nat>,
                          first: nat, d: nat, e: Dnode, base: nat)
    requires d > 0
  {
    && |t0| == |w0| == |t| == |w| == TABLE
    && forall x :: 0 <= x < TABLE ==>
         && t[x] == (if Hit(x, first, d) && x < base then e else t0[x])
         && w[x] == w0[x] + if Hit(x, first, d) && x < base then 1 else 0
  }

  lemma WriteNext(t0: seq<Dnode>, w0: seq<nat>, t: seq<Dnode>, w: seq<nat>,
                  first: nat, d: nat, e: Dnode, k: nat)
    requires d > 0 && first < d && first + Times(k, d) < TABLE
    requires Written(t0, w0, t, w, first, d, e, first + Times(k, d))
    ensures var base := first + Times(k, d);
            Written(t0, w0, t[base := e], w[base := w[base] + 1], first, d, e, base + d)
  {
    hide Hit;
    var base := first + Times(k, d);
    HitAt(base, first, d, k);
    forall x | base < x < base + d ensures !Hit(x, first, d) {
      NoHitAt(x, first, d, k);
    }
  }

  lemma HitAt(x: nat, first: nat, d: nat, k: nat)
    requires d > 0 && first < d && x == first + Times(k, d)
    ensures Hit(x, first, d)
  {
    DivModUnique(x, d, k, first);
  }

  lemma NoHitAt(x: nat, first: nat, d: nat, k: nat)
    requires d > 0 && first < d && first + Times(k, d) < x < first + Times(k, d) + d
    ensures !Hit(x, first, d)
  {
    if x < Times(k, d) + d {
      DivModUnique(x, d, k, x - Times(k, d));
    } else {
      Distrib(k, 1, d);
      DivModUnique(x, d, k + 1, x - Times(k, d) - d);
    }
  }

  /** The places first, first + d, ... lie in the table as long as their number is below 2^m. */
  lemma Steps(first: nat, d: nat, m: nat, k: nat)
    requires d > 0 && first < d && Times(Pow2(m), d) == TABLE
    ensures Times(k + 1, d) == Times(k, d) + d && Times(0, d) == 0
    ensures first + Times(k, d) < TABLE <==> k < Pow2(m)
    ensures m > 0 <==> Pow2(m) > 1
    ensures m > 0 ==> Pow2(m) % 2 == 0
  {
    PlacesBelow(first, d, Pow2(m), k);
  }

  lemma PlacesBelow(first: nat, d: nat, p: nat, k: nat)
    requires d > 0 && first < d && Times(p, d) == TABLE
    ensures Times(k + 1, d) == Times(k, d) + d && Times(0, d) == 0
    ensures first + Times(k, d) < TABLE <==> k < p
  {
    TimesNext(k, d);
    hide Times;
    if k < p {
      TimesMono(k + 1, p, d);
    } else {
      TimesMono(p, k, d);
    }
  }

  lemma TableSize(b: nat)
    requires 1 <= b <= MAX_BIT_LEN
    ensures Times(Pow2(MAX_BIT_LEN - b), Pow2(b)) == TABLE
    ensures Pow2(b) < TABLE <==> b < MAX_BIT_LEN
  {
    Pow2Add(MAX_BIT_LEN - b, b);
    Sixteen();
    Widens(MAX_BIT_LEN - b, Pow2(b));
  }

  lemma Widens(m: nat, d: nat)
    requires d > 0 && Times(Pow2(m), d) == TABLE
    ensures d < TABLE <==> m > 0
  {
    Steps(0, d, m, 1);
    if m > 0 {
      MulMono(2, Pow2(m), d);
    }
  }

  method Put(lookup: array<Dnode>, base: nat, e: Dnode)
    requires base < lookup.Length
    modifies lookup
    ensures lookup[..] == old(lookup[..])[base := e]
  {
    lookup[base] := e;
  }

  /** Writes one entry at base and every d places after it; with short codes two at a time. */
  method PlaceSymbol(lookup: array<Dnode>, first: nat, b: nat, e: Dnode, ghost writes: seq<nat>)
    returns (ghost w: seq<nat>)
    requires lookup.Length == TABLE == |writes| && 1 <= b <= MAX_BIT_LEN && first < Pow2(b)
    modifies lookup
    ensures Written(old(lookup[..]), writes, lookup[..], w, first, Pow2(b), e, TABLE + Pow2(b))
  {
    hide Hit, Written, Times, Pow2;
    var d := Pow2(b);
    var base := first;
    ghost var k, m, t0 := 0, MAX_BIT_LEN - b, lookup[..];
    w := writes;
    TableSize(b);
    Steps(first, d, m, 0);
    NothingWritten(t0, w, first, d, e);
    if d < TABLE {
      while base < TABLE
        invariant base == first + Times(k, d) && k % 2 == 0 && k <= Pow2(m)
        invariant |w| == TABLE && Written(t0, writes, lookup[..], w, first, d, e, base)
        decreases TABLE - base
      {
        Steps(first, d, m, k);
        Steps(first, d, m, k + 1);
        WriteNext(t0, writes, lookup[..], w, first, d, e, k);
        w := w[base := w[base] + 1];
        Put(lookup, base, e);
        base := base + d;
        WriteNext(t0, writes, lookup[..], w, first, d, e, k + 1);
        w := w[base := w[base] + 1];
        Put(lookup, base, e);
        base := base + d;
        k := k + 2;
      }
      Steps(first, d, m, k);
    } else {
      WriteNext(t0, writes, lookup[..], w, first, d, e, 0);
      w := w[base := w[base] + 1];
      Put(lookup, base, e);
      base := base + d;
    }
    AllWritten(t0, writes, lookup[..], w, first, d, e, base);
  }

  lemma NothingWritten(t0: seq<Dnode>, w0: seq<nat>, first: nat, d: nat, e: Dnode)
    requires d > 0 && first < d && |t0| == |w0| == TABLE
    ensures Written(t0, w0, t0, w0, first, d, e, first)
  {
    forall x: nat | x < first ensures !Hit(x, first, d) {
      DivModUnique(x, d, 0, x);
    }
  }

  lemma AllWritten(t0: seq<Dnode>, w0: seq<nat>, t: seq<Dnode>, w: seq<nat>,
                   first: nat, d: nat, e: Dnode, base: nat)
    requires d > 0 && base >= TABLE && Written(t0, w0, t, w, first, d, e, base)
    ensures Written(t0, w0, t, w, first, d, e, TABLE + d)
  {
  }

  // ---------------------------------------------------------------- the decoding table

  /** Every window whose owner is below a has its entry, written once. */
  ghost predicate Placed(t: seq<Dnode>, w: seq<nat>, lens: seq<byte>, a: nat)
    requires Full(lens)
  {
    && |t| == |w| == TABLE
    && forall x :: 0 <= x < TABLE ==>
         && (Owner(lens, x) < a ==> t[x] == Dnode(lens[Owner(lens, x)], Owner(lens, x)))
         && w[x] == if Owner(lens, x) < a then 1 else 0
  }

  lemma PlacedStep(t0: seq<Dnode>, w0: seq<nat>, t: seq<Dnode>, w: seq<nat>, lens: seq<byte>, a: nat)
    requires Full(lens) && a < 256 && lens[a] > 0 && Placed(t0, w0, lens, a)
    requires Written(t0, w0, t, w, CodeVal(lens, a), Pow2(lens[a]), Dnode(lens[a], a), TABLE + Pow2(lens[a]))
    ensures |w| == TABLE && Placed(t, w, lens, a + 1)
  {
    hide CodeVal, Owner;
    forall x | 0 <= x < TABLE ensures Hit(x, CodeVal(lens, a), Pow2(lens[a])) <==> a == Owner(lens, x) {
      OwnerIs(lens, a, x);
    }
  }

  lemma PlacedSkip(t: seq<Dnode>, w: seq<nat>, lens: seq<byte>, a: nat)
    requires Full(lens) && a < 256 && lens[a] == 0 && Placed(t, w, lens, a)
    ensures |w| == TABLE && Placed(t, w, lens, a + 1)
  {
    hide CodeVal;
  }

  /** construct_dec_table: fails exactly when the lengths do not fill the code space. */
  method ConstructDecTable(lens: seq<byte>, lookup: array<Dnode>) returns (ok: bool, ghost writes: seq<nat>)
    requires Lens(lens) && lookup.Length == TABLE
    modifies lookup
    ensures ok <==> Full(lens)
    ensures ok ==> Placed(lookup[..], writes, lens, 256)
  {
    hide Start, Fill, Rev, CodeVal, Owner, Count, Placed, Written;
    var count := new nat[AMAX_BIT_LEN + 1](_ => 0);
    var a := 0;
    CountZero(lens);
    while a < 256
      invariant 0 <= a <= 256 && forall b :: 0 <= b <= MAX_BIT_LEN ==> count[b] == Count(lens, b, a)
    {
      CountNext(lens, a);
      count[lens[a]] := count[lens[a]] + 1;
      a := a + 1;
    }
    var total := Starts(count, lens);
    ok := total == SPACE;
    writes := seq(TABLE, _ => 0);
    if ok {
      StartsFill(lens);
      NothingPlaced(lookup[..], writes, lens);
      a := 0;
      while a < 256
        invariant 0 <= a <= 256 && NextCodes(count, lens, a)
        invariant |writes| == TABLE && Placed(lookup[..], writes, lens, a)
      {
        if lens[a] != 0 {
          var base := NextCode(count, lens[a], lens, a);
          WindowOwner(lens, a, 0);
          ghost var t0, w0 := lookup[..], writes;
          writes := PlaceSymbol(lookup, base, lens[a], Dnode(lens[a], a), writes);
          PlacedStep(t0, w0, lookup[..], writes, lens, a);
        } else {
          SkipCode(count, lens, a);
          PlacedSkip(lookup[..], writes, lens, a);
        }
        a := a + 1;
      }
    }
  }

  lemma StartsFill(lens: seq<byte>)
    requires Lens(lens)
    ensures forall b :: 1 <= b <= MAX_BIT_LEN ==> Fill(lens, b, 0) == Start(lens, b, 256)
  {
    CountZero(lens);
    forall b: nat | 1 <= b <= MAX_BIT_LEN ensures Fill(lens, b, 0) == Start(lens, b, 256) {
      assert Times(0, Pow2(AMAX_BIT_LEN - b)) == 0;
    }
  }

  lemma NothingPlaced(t: seq<Dnode>, w: seq<nat>, lens: seq<byte>)
    requires Full(lens) && |t| == |w| == TABLE && forall x :: 0 <= x < TABLE ==> w[x] == 0
    ensures Placed(t, w, lens, 0)
  {
  }
}
