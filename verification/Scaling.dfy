/**
  Capacity arithmetic of the ring queue: the power-of-two test and index mask of
  internal/queue/mpmc/entry.go and the resize decision of internal/queue/mpmc/scaling.go.
  Machine words are naturals; their bitwise operations are defined bit by bit.
*/
module Scaling {
  import opened Arith

  function Pow2(k: nat): (p: nat)
    ensures p >= 1
  {
    if k == 0 then 1 else 2 * Pow2(k - 1)
  }

  ghost predicate IsPow2(n: nat) { exists k: nat :: n == Pow2(k) }

  function BitAnd(a: nat, b: nat): nat {
    if a == 0 || b == 0 then 0
    else 2 * BitAnd(a / 2, b / 2) + (if a % 2 == 1 && b % 2 == 1 then 1 else 0)
  }

  function BitOr(a: nat, b: nat): nat
    decreases a + b
  {
    if a == 0 then b else if b == 0 then a
    else 2 * BitOr(a / 2, b / 2) + (if a % 2 == 1 || b % 2 == 1 then 1 else 0)
  }

  function ShiftRight(x: nat, m: nat): nat
    decreases m
  {
    if m == 0 then x else ShiftRight(x / 2, m - 1)
  }

  predicate Bit(x: nat, i: nat)
    decreases i
  {
    if i == 0 then x % 2 == 1 else Bit(x / 2, i - 1)
  }

  // Number of significant bits.
  function BitLen(x: nat): nat { if x == 0 then 0 else 1 + BitLen(x / 2) }

  // ----- Masking -----

  lemma {:induction false} MaskForm(pos: nat, k: nat) returns (q: nat)
    ensures BitAnd(pos, Pow2(k) - 1) < Pow2(k)
    ensures pos == Pow2(k) * q + BitAnd(pos, Pow2(k) - 1)
  {
    if k == 0 {
      q := pos;
    } else {
      var half := Pow2(k - 1);
      q := MaskForm(pos / 2, k - 1);
      assert (Pow2(k) - 1) / 2 == half - 1 && (Pow2(k) - 1) % 2 == 1;
      assert (2 * half) * q == 2 * (half * q);
    }
  }

  // `pos & mask` is the position modulo the capacity, for every capacity the ring accepts.
  lemma {:induction false} MaskIsSlot(pos: nat, capacity: nat)
    requires IsPow2(capacity)
    ensures BitAnd(pos, capacity - 1) == Slot(pos, capacity) == pos % capacity
  {
    SlotIsMod(pos, capacity);
    var k: nat :| capacity == Pow2(k);
    var q := MaskForm(pos, k);
    var laps := LapsOf(pos, capacity);
    DivModUnique(capacity, q, BitAnd(pos, capacity - 1), laps, Slot(pos, capacity));
  }

  // The test `capacity & (capacity - 1) == 0` accepts exactly the powers of two.
  lemma {:induction false} PowerTest(c: nat)
    requires c >= 1
    ensures BitAnd(c, c - 1) == 0 <==> IsPow2(c)
  {
    if c == 1 {
      assert c == Pow2(0);
    } else if c % 2 == 1 {
      assert (c - 1) / 2 == c / 2;
      AndSelf(c / 2);
      forall k: nat ensures c != Pow2(k) { }
    } else {
      PowerTest(c / 2);
      assert (c - 1) / 2 == c / 2 - 1;
      if IsPow2(c / 2) {
        var k: nat :| c / 2 == Pow2(k);
        assert c == Pow2(k + 1);
      }
      if IsPow2(c) {
        var k: nat :| c == Pow2(k);
        assert c / 2 == Pow2(k - 1);
      }
    }
  }

  lemma {:induction false} AndSelf(x: nat)
    ensures BitAnd(x, x) == x
  {
    if x > 0 { AndSelf(x / 2); }
  }

  // ----- Smearing -----

  lemma {:induction false} OrBit(a: nat, b: nat, i: nat)
    ensures Bit(BitOr(a, b), i) == (Bit(a, i) || Bit(b, i))
    decreases i
  {
    ZeroBit(i);
    if a > 0 && b > 0 && i > 0 { OrBit(a / 2, b / 2, i - 1); }
  }

  lemma {:induction false} ZeroBit(i: nat)
    ensures !Bit(0, i)
  {
    if i > 0 { ZeroBit(i - 1); }
  }

  lemma {:induction false} ShiftBit(x: nat, m: nat, i: nat)
    ensures Bit(ShiftRight(x, m), i) == Bit(x, i + m)
    decreases m
  {
    if m > 0 { ShiftBit(x / 2, m - 1, i); }
  }

  lemma {:induction false} TopBit(x: nat)
    requires x > 0
    ensures Pow2(BitLen(x) - 1) <= x < Pow2(BitLen(x))
    ensures Bit(x, BitLen(x) - 1)
    ensures forall i: nat :: i >= BitLen(x) ==> !Bit(x, i)
  {
    if x > 1 {
      TopBit(x / 2);
      forall i: nat | i >= BitLen(x) ensures !Bit(x, i) { assert !Bit(x / 2, i - 1); }
    } else {
      forall i: nat | i >= 1 ensures !Bit(x, i) { ZeroBit(i - 1); }
    }
  }

  lemma {:induction false} AllOnes(x: nat, len: nat)
    requires forall i: nat :: Bit(x, i) <==> i < len
    ensures x == Pow2(len) - 1
    decreases x, len
  {
    assert Bit(x, 0) <==> 0 < len;
    if x == 0 {
      ZeroBit(0);
    } else {
      TopBit(x);
      assert Bit(x, BitLen(x) - 1);
      forall i: nat ensures Bit(x / 2, i) <==> i < len - 1 { assert Bit(x, i + 1) <==> i + 1 < len; }
      AllOnes(x / 2, len - 1);
    }
  }

  // x has len significant bits and the top m of them are ones.
  ghost predicate TopOnes(x: nat, len: nat, m: nat) {
    && (forall i: nat :: i >= len ==> !Bit(x, i))
    && (forall i: nat :: i < len <= i + m ==> Bit(x, i))
  }

  lemma {:induction false} SmearStep(x: nat, len: nat, m: nat)
    requires TopOnes(x, len, m)
    ensures TopOnes(BitOr(x, ShiftRight(x, m)), len, 2 * m)
  {
    var y := BitOr(x, ShiftRight(x, m));
    forall i: nat | i >= len ensures !Bit(y, i) {
      SmearBit(x, m, i);
      assert !Bit(x, i) && !Bit(x, i + m);
    }
    forall i: nat | i < len <= i + 2 * m ensures Bit(y, i) {
      SmearBit(x, m, i);
      if len <= i + m { assert Bit(x, i); } else { assert Bit(x, i + m); }
    }
  }

  lemma {:induction false} SmearBit(x: nat, m: nat, i: nat)
    ensures Bit(BitOr(x, ShiftRight(x, m)), i) == (Bit(x, i) || Bit(x, i + m))
  {
    OrBit(x, ShiftRight(x, m), i);
    ShiftBit(x, m, i);
  }

  lemma {:induction false} Pow2Mono(a: nat, b: nat)
    ensures a <= b ==> Pow2(a) <= Pow2(b)
    ensures a < b ==> 2 * Pow2(a) <= Pow2(b)
  {
    if a < b { Pow2Mono(a, b - 1); }
  }

  const INT64_MIN: int := -0x8000_0000_0000_0000

  // Least power of two not below start; past 2^62 the final increment wraps around.
  method NextPowerOfTwo(start: int) returns (next: int)
    requires start < 0x8000_0000_0000_0000
    ensures start <= 1 ==> next == 1
    ensures start <= Pow2(62) ==> next >= 1 && start <= next && IsPow2(next)
    ensures start <= Pow2(62) ==> forall p: nat :: IsPow2(p) && start <= p ==> next <= p
    ensures start > Pow2(62) ==> next == INT64_MIN
  {
    assert Pow2(0) == 1;
    if start <= 1 {
      return 1;
    }
    assert Pow2(62) == 0x4000_0000_0000_0000 by { Pow2At62(); }
    var x := start - 1;
    ghost var len := BitLen(x);
    TopBit(x);
    var m := 1;
    var y: nat := x;
    while m <= 32
      invariant m in {1, 2, 4, 8, 16, 32, 64} && TopOnes(y, len, m)
    {
      SmearStep(y, len, m);
      y := BitOr(y, ShiftRight(y, m));
      m := 2 * m;
    }
    Pow2Mono(63, len - 1);
    Pow2Mono(len, 63);
    assert len <= 63;
    AllOnes(y, len);
    next := if y + 1 == 0x8000_0000_0000_0000 then INT64_MIN else y + 1;
    Pow2Mono(62, len - 1);
    Pow2Mono(len, 62);
    LeastAbove(start, len);
  }

  // No power of two lies between the one below start and the next.
  lemma {:induction false} LeastAbove(start: int, len: nat)
    requires len >= 1 && Pow2(len - 1) < start
    ensures forall p: nat :: IsPow2(p) && start <= p ==> Pow2(len) <= p
  {
    forall p: nat | IsPow2(p) && start <= p ensures Pow2(len) <= p {
      var k: nat :| p == Pow2(k);
      Pow2Mono(k, len - 1);
      Pow2Mono(len, k);
    }
  }

  lemma {:induction false} Pow2At62()
    ensures Pow2(62) == 0x4000_0000_0000_0000
  {
    assert Pow2(8) == 256 by { assert Pow2(4) == 16; }
    assert Pow2(16) == 0x1_0000 by { assert Pow2(12) == 4096; }
    assert Pow2(32) == 0x1_0000_0000 by { assert Pow2(20) == 0x10_0000 && Pow2(24) == 0x100_0000 && Pow2(28) == 0x1000_0000; }
    assert Pow2(48) == 0x1_0000_0000_0000 by { assert Pow2(36) == 0x10_0000_0000 && Pow2(40) == 0x100_0000_0000 && Pow2(44) == 0x1000_0000_0000; }
    assert Pow2(60) == 0x1000_0000_0000_0000 by { assert Pow2(52) == 0x10_0000_0000_0000 && Pow2(56) == 0x100_0000_0000_0000; }
  }

  // ----- The resize decision -----

  // The capacity ScaleCapacity asks mutateSize for, or nothing.  The fill percentage is
  // compared exactly.
  method ScaleTarget(capacity: nat, depth: nat, bytes: nat, freeMemory: nat, minimum: int, maximum: int)
    returns (scale: bool, target: nat)
    requires 2 <= capacity < Pow2(62) && IsPow2(capacity)
    ensures scale ==> target == (if depth * 100 >= 90 * capacity then 2 * capacity else capacity / 2)
    ensures scale ==> minimum < capacity < maximum
    ensures scale && (minimum <= 0 || IsPow2(minimum)) && IsPow2(maximum) ==> minimum <= target <= maximum
    ensures scale ==> IsPow2(target)
    ensures depth == 0 && minimum < capacity < maximum ==> scale && target == capacity / 2
    ensures !scale <==> capacity <= minimum || capacity >= maximum
                        || 2 * capacity < depth * 100 < 90 * capacity
                        || (depth * 100 >= 90 * capacity && freeMemory > 0 && capacity * (bytes / capacity) > freeMemory)
  {
    Pow2At62();
    scale, target := false, 0;
    if capacity <= minimum || capacity >= maximum {
      return;
    }
    var power := NextPowerOfTwo(capacity);
    assert power == capacity;
    var expected := power * (bytes / capacity);
    if depth * 100 >= 90 * capacity {
      if freeMemory > 0 && expected > freeMemory { return; }
      var up := NextPowerOfTwo(capacity + 1);
      NextIsDouble(capacity, up);
      if IsPow2(maximum) { DoubleFits(capacity, maximum); }
      scale, target := true, up;
    } else if depth * 100 <= 2 * capacity {
      HalfIsPow2(capacity);
      if minimum > 0 && IsPow2(minimum) { DoubleFits(minimum, capacity); }
      scale, target := true, power / 2;
    }
  }

  lemma {:induction false} DoubleFits(a: nat, b: nat)
    requires IsPow2(a) && IsPow2(b) && a < b
    ensures 2 * a <= b && IsPow2(2 * a)
  {
    var i: nat, j: nat :| a == Pow2(i) && b == Pow2(j);
    Pow2Mono(i, j);
    Pow2Mono(j, i);
    assert 2 * a == Pow2(i + 1);
  }

  lemma {:induction false} NextIsDouble(capacity: nat, up: nat)
    requires IsPow2(capacity) && IsPow2(up) && capacity < up
    requires forall p: nat :: IsPow2(p) && capacity + 1 <= p ==> up <= p
    ensures up == 2 * capacity
  {
    DoubleFits(capacity, up);
  }

  lemma {:induction false} HalfIsPow2(c: nat)
    requires IsPow2(c) && c >= 2
    ensures IsPow2(c / 2) && c == 2 * (c / 2)
  {
    var k: nat :| c == Pow2(k);
    assert c / 2 == Pow2(k - 1);
  }
}
