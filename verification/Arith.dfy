/** Division and remainder, and the cells and cell indices of a ring. */
module Arith {

  lemma {:induction false} MulStep(n: nat, a: nat, b: nat)
    requires a < b
    ensures n * b >= n * a + n
  {
    assert n * b == n * a + n * (b - a);
    assert n * (b - a) == n + n * (b - a - 1);
    assert n * (b - a - 1) >= 0;
  }

  // Quotient and remainder are unique.
  lemma {:induction false} DivModUnique(n: nat, a: nat, r: nat, b: nat, s: nat)
    requires r < n && s < n && n * a + r == n * b + s
    ensures a == b && r == s
  {
    if a < b { MulStep(n, a, b); } else if b < a { MulStep(n, b, a); }
  }

  lemma {:induction false} ModInRange(h: nat, n: nat)
    requires n > 0
    ensures 0 <= h % n < n
  {
  }

  // A ring cell: its sequence number and its value.
  datatype Cell<T> = Cell(stamp: nat, data: T)

  // The cell of a ring of n cells that position p falls in: p with whole laps dropped.
  function Slot(p: nat, n: nat): (i: nat)
    requires n > 0
    ensures i < n && i <= p
  {
    if p < n then p else Slot(p - n, n)
  }

  lemma {:induction false} LapsOf(p: nat, n: nat) returns (laps: nat)
    requires n > 0
    ensures p == n * laps + Slot(p, n)
  {
    if p < n {
      laps := 0;
    } else {
      var before := LapsOf(p - n, n);
      laps := before + 1;
      assert n * laps == n * before + n;
    }
  }

  lemma {:induction false} SlotIsMod(p: nat, n: nat)
    requires n > 0
    ensures Slot(p, n) == p % n
  {
    var laps := LapsOf(p, n);
    DivModUnique(n, laps, Slot(p, n), p / n, p % n);
  }

  // Two positions less than one lap apart share a cell only if they are equal.
  lemma {:induction false} SlotUnique(p: nat, q: nat, n: nat)
    requires n > 0 && Slot(p, n) == Slot(q, n) && p <= q < p + n
    ensures p == q
  {
    if p >= n { SlotUnique(p - n, q - n, n); }
  }

  lemma {:induction false} SlotShift(p: nat, n: nat)
    requires n >= 2
    ensures Slot(p + n, n) == Slot(p, n)
    ensures Slot(p + 1, n) != Slot(p, n)
  {
    if Slot(p + 1, n) == Slot(p, n) { SlotUnique(p, p + 1, n); }
  }
}
