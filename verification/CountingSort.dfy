/** The stable counting sort of bytes: where it puts each place, and that every place is taken once. */
module CountingSort {
  import opened Bytes

  /** Byte first, then place. */
  predicate Earlier(b: seq<byte>, i: nat, j: nat)
    requires i < |b| && j < |b|
  {
    b[i] < b[j] || (b[i] == b[j] && i < j)
  }

  function Count(b: seq<byte>, c: nat, i: nat): (n: nat)
    requires i <= |b|
    ensures n <= i
  {
    if i == 0 then 0 else Count(b, c, i - 1) + if b[i - 1] == c then 1 else 0
  }

  /** How many of the first i bytes are below c. */
  function Below(b: seq<byte>, c: nat, i: nat): (n: nat)
    requires i <= |b|
    ensures n <= i
  {
    if i == 0 then 0 else Below(b, c, i - 1) + if b[i - 1] < c then 1 else 0
  }

  lemma {:induction false} BelowStep(b: seq<byte>, c: nat, i: nat)
    requires i <= |b|
    ensures Below(b, c + 1, i) == Below(b, c, i) + Count(b, c, i)
  {
    if i > 0 {
      BelowStep(b, c, i - 1);
    }
  }

  lemma {:induction false} BelowMono(b: seq<byte>, c: nat, d: nat, i: nat)
    requires c <= d && i <= |b|
    ensures Below(b, c, i) <= Below(b, d, i)
  {
    if i > 0 {
      BelowMono(b, c, d, i - 1);
    }
  }

  lemma {:induction false} BelowAll(b: seq<byte>, i: nat)
    requires i <= |b|
    ensures Below(b, 0, i) == 0 && Below(b, 256, i) == i
  {
    if i > 0 {
      BelowAll(b, i - 1);
    }
  }

  lemma {:induction false} CountMono(b: seq<byte>, c: nat, i: nat, j: nat)
    requires i <= j <= |b|
    ensures Count(b, c, i) <= Count(b, c, j)
    decreases j
  {
    if i < j {
      CountMono(b, c, i, j - 1);
    }
  }

  /** Where the counting sort puts place i. */
  function Slot(b: seq<byte>, i: nat): (k: nat)
    requires i < |b|
  {
    Below(b, b[i], |b|) + Count(b, b[i], i)
  }

  lemma SlotBounds(b: seq<byte>, i: nat)
    requires i < |b|
    ensures Below(b, b[i], |b|) <= Slot(b, i) < Below(b, b[i] as int + 1, |b|) <= |b|
  {
    BelowStep(b, b[i], |b|);
    CountMono(b, b[i], i + 1, |b|);
  }

  lemma SlotOrders(b: seq<byte>, i: nat, j: nat)
    requires i < |b| && j < |b| && Earlier(b, i, j)
    ensures Slot(b, i) < Slot(b, j)
  {
    SlotBounds(b, i);
    SlotBounds(b, j);
    if b[i] < b[j] {
      BelowMono(b, b[i] as int + 1, b[j], |b|);
    } else {
      CountMono(b, b[i], i + 1, j);
    }
  }

  lemma SlotInjective(b: seq<byte>, i: nat, j: nat)
    requires i < |b| && j < |b| && Slot(b, i) == Slot(b, j)
    ensures i == j
  {
    if Earlier(b, i, j) {
      SlotOrders(b, i, j);
    } else if Earlier(b, j, i) {
      SlotOrders(b, j, i);
    }
  }

  lemma SlotsInRange(b: seq<byte>)
    ensures forall i :: 0 <= i < |b| ==> Slot(b, i) < |b|
  {
    forall i | 0 <= i < |b| ensures Slot(b, i) < |b| {
      SlotBounds(b, i);
    }
  }

  lemma SlotIs(b: seq<byte>, i: nat)
    requires i < |b|
    ensures Slot(b, i) == Below(b, b[i], |b|) + Count(b, b[i], i)
  {
  }

  lemma CountZero(b: seq<byte>)
    ensures forall c :: Count(b, c, 0) == 0
  {
  }

  lemma CountNext(b: seq<byte>, i: nat)
    requires i < |b|
    ensures forall c :: Count(b, c, i + 1) == Count(b, c, i) + if b[i] == c then 1 else 0
  {
  }

  /** Some place is put at every slot. */
  lemma SlotOnto(b: seq<byte>, k: nat) returns (i: nat)
    requires k < |b|
    ensures i < |b| && Slot(b, i) == k
  {
    BelowAll(b, |b|);
    var c := ByteOfSlot(b, k, 256);
    BelowStep(b, c, |b|);
    i := PlaceWithCount(b, c, k - Below(b, c, |b|), |b|);
  }

  lemma ByteOfSlot(b: seq<byte>, k: nat, top: nat) returns (c: byte)
    requires Below(b, 0, |b|) == 0 && k < Below(b, top, |b|) && top <= 256
    ensures Below(b, c, |b|) <= k < Below(b, c as int + 1, |b|)
    decreases top
  {
    if Below(b, top - 1, |b|) <= k {
      c := top - 1;
    } else {
      c := ByteOfSlot(b, k, top - 1);
    }
  }

  lemma PlaceWithCount(b: seq<byte>, c: byte, n: nat, end: nat) returns (i: nat)
    requires end <= |b| && n < Count(b, c, end)
    ensures i < end && b[i] == c && Count(b, c, i) == n
    decreases end
  {
    if b[end - 1] == c && Count(b, c, end - 1) == n {
      i := end - 1;
    } else {
      i := PlaceWithCount(b, c, n, end - 1);
    }
  }
}
