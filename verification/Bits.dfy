/** Bitwise OR of natural numbers, used to put fields together. */
module Bits {

  /** Quotient and remainder are determined by n = q * k + r. */
  lemma DivMod(k: nat, q: nat, r: nat)
    requires r < k
    ensures (q * k + r) / k == q && (q * k + r) % k == r
  {
    var n := q * k + r;
    var d := q - n / k;
    assert n == n / k * k + n % k;
    assert d * k == n % k - r;
    if d >= 1 {
      MulMonotone(1, d, k);
    } else if d <= -1 {
      MulMonotone(d, -1, k);
    }
  }

  lemma MulMonotone(a: int, b: int, k: nat)
    requires a <= b
    ensures a * k <= b * k
  {
  }

  /** x shifted left by k places. */
  function Shl(x: nat, k: nat): nat
    decreases k
  {
    if k == 0 then x else 2 * Shl(x, k - 1)
  }

  lemma ShlValues(x: nat)
    ensures Shl(x, 8) == x * 0x100 && Shl(x, 16) == x * 0x1_0000 && Shl(x, 24) == x * 0x100_0000
  {
    assert Shl(x, 4) == x * 0x10;
    assert Shl(x, 8) == x * 0x100;
    assert Shl(x, 12) == x * 0x1000;
    assert Shl(x, 16) == x * 0x1_0000;
    assert Shl(x, 20) == x * 0x10_0000;
  }

  function Or(x: nat, y: nat): nat
    decreases x + y
  {
    if x == 0 && y == 0 then 0
    else (if x % 2 == 1 || y % 2 == 1 then 1 else 0) + 2 * Or(x / 2, y / 2)
  }

  lemma {:induction false} OrZero(x: nat)
    ensures Or(x, 0) == x && Or(0, x) == x
  {
    if x == 0 {
    } else {
      OrZero(x / 2);
    }
  }

  lemma {:induction false} OrCommutes(x: nat, y: nat)
    ensures Or(x, y) == Or(y, x)
    decreases x + y
  {
    if x == 0 && y == 0 {
    } else {
      OrCommutes(x / 2, y / 2);
    }
  }

  /** Fields that do not overlap are added. */
  lemma {:induction false} OrDisjoint(q: nat, k: nat, y: nat)
    requires y < Shl(1, k)
    ensures Or(Shl(q, k), y) == Shl(q, k) + y
  {
    if k == 0 {
      OrZero(q);
    } else {
      OrDisjoint(q, k - 1, y / 2);
      OrStep(Shl(q, k - 1), y);
    }
  }

  lemma OrStep(x: nat, y: nat)
    ensures Or(2 * x, y) == y % 2 + 2 * Or(x, y / 2)
  {
    assert (2 * x) % 2 == 0 && 2 * x / 2 == x;
  }

  lemma {:induction false} OrAssociates(x: nat, y: nat, z: nat)
    ensures Or(Or(x, y), z) == Or(x, Or(y, z))
    decreases x + y + z
  {
    if x == 0 && y == 0 && z == 0 {
    } else {
      OrAssociates(x / 2, y / 2, z / 2);
      OrDigits(x, y);
      OrDigits(y, z);
    }
  }

  lemma OrDigits(x: nat, y: nat)
    ensures Or(x, y) % 2 == (if x % 2 == 1 || y % 2 == 1 then 1 else 0) && Or(x, y) / 2 == Or(x / 2, y / 2)
  {
  }

  lemma OrBelow8(q: nat, y: nat)
    requires y < 0x100
    ensures Or(q * 0x100, y) == q * 0x100 + y
  {
    ShlValues(1);
    ShlValues(q);
    OrDisjoint(q, 8, y);
  }

  lemma OrBelow10(q: nat, y: nat)
    requires y < 0x400
    ensures Or(q * 0x400, y) == q * 0x400 + y
  {
    assert Shl(1, 5) == 0x20 && Shl(q, 5) == q * 0x20;
    assert Shl(1, 10) == 0x400 && Shl(q, 10) == q * 0x400;
    OrDisjoint(q, 10, y);
  }

  lemma OrBelow12(q: nat, y: nat)
    requires y < 0x1000
    ensures Or(q * 0x1000, y) == q * 0x1000 + y
  {
    assert Shl(1, 6) == 0x40 && Shl(q, 6) == q * 0x40;
    assert Shl(1, 12) == 0x1000 && Shl(q, 12) == q * 0x1000;
    OrDisjoint(q, 12, y);
  }

  /** Two attribute fields in the low bits of a page-aligned word. */
  lemma TwoFlags(q: nat, y: nat, z: nat)
    requires Or(y, z) < 0x1000
    ensures Or(Or(q * 0x1000, y), z) == q * 0x1000 + Or(y, z)
  {
    OrAssociates(q * 0x1000, y, z);
    OrBelow12(q, Or(y, z));
  }
}
