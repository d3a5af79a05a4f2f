/** Binary places of a number. */
module Bits {

  function Pow2(n: nat): (p: nat)
    ensures p > 0
  {
    if n == 0 then 1 else 2 * Pow2(n - 1)
  }

  /** The number without its n lowest bits. */
  function ShiftRight(x: nat, n: nat): nat {
    if n == 0 then x else ShiftRight(x / 2, n - 1)
  }

  /** The n lowest bits are zero. */
  predicate Aligned(x: nat, n: nat) {
    n == 0 || (x % 2 == 0 && Aligned(x / 2, n - 1))
  }

  lemma {:induction false} ShiftTwice(x: nat, m: nat, n: nat)
    ensures ShiftRight(x, m + n) == ShiftRight(ShiftRight(x, m), n)
  {
    if m > 0 {
      ShiftTwice(x / 2, m - 1, n);
    }
  }

  lemma HalfQuotient(x: nat, p: nat)
    requires p > 0
    ensures x / 2 / p == x / (2 * p)
    ensures x % (2 * p) == 0 <==> x % 2 == 0 && x / 2 % p == 0
  {
    var h, q, r := x / 2, x / 2 / p, x / 2 % p;
    assert h == p * q + r;
    QuotientIs(x, 2 * p, q, 2 * r + x % 2);
  }

  lemma QuotientIs(x: nat, p: nat, q: nat, r: nat)
    requires r < p && x == p * q + r
    ensures x / p == q && x % p == r
  {
    var d := x / p - q;
    assert p * (x / p) + x % p == x;
    assert p * d == r - x % p by { assert p * d == p * (x / p) - p * q; }
    NonzeroMultiple(p, d);
  }

  lemma NonzeroMultiple(p: nat, d: int)
    ensures d > 0 ==> p * d >= p
    ensures d < 0 ==> p * d + p <= 0
  {
    if d > 0 {
      Times(p, d - 1);
      assert p * d == p + p * (d - 1);
    } else if d < 0 {
      Times(p, -d - 1);
      assert p * d + p + p * (-d - 1) == 0;
    }
  }

  lemma Times(p: nat, d: nat)
    ensures p * d >= 0
  {
  }

  /** Shifting divides by a power of two, and aligned numbers are its multiples. */
  lemma {:induction false} ShiftDivides(x: nat, n: nat)
    ensures ShiftRight(x, n) == x / Pow2(n)
    ensures Aligned(x, n) <==> x % Pow2(n) == 0
  {
    if n > 0 {
      ShiftDivides(x / 2, n - 1);
      HalfQuotient(x, Pow2(n - 1));
    }
  }

  /** Two numbers have the same quotient when they lie between the same two multiples. */
  lemma SameBlock(x: nat, y: nat, p: nat)
    requires p > 0
    ensures x / p == y / p <==> x - x % p <= y < x - x % p + p
  {
    var q, b := x / p, x - x % p;
    assert b == p * q && y == p * (y / p) + y % p;
    if b <= y < b + p { QuotientIs(y, p, q, y - b); }
  }

  /** The numbers that agree with an aligned one above n bits are the next Pow2(n). */
  lemma {:induction false} AlignedBlock(x: nat, f: nat, n: nat)
    requires Aligned(f, n)
    ensures ShiftRight(x, n) == ShiftRight(f, n) <==> f <= x < f + Pow2(n)
  {
    if n > 0 {
      AlignedBlock(x / 2, f / 2, n - 1);
    }
  }

  /** An aligned block of n bits stays inside w bits. */
  lemma {:induction false} AlignedFits(f: nat, n: nat, w: nat)
    requires Aligned(f, n) && n <= w && f < Pow2(w)
    ensures f + Pow2(n) <= Pow2(w)
  {
    if n > 0 {
      AlignedFits(f / 2, n - 1, w - 1);
    }
  }

  lemma {:induction false} AlignedShift(x: nat, m: nat, n: nat)
    requires Aligned(x, m + n)
    ensures Aligned(ShiftRight(x, m), n)
  {
    if m > 0 {
      AlignedShift(x / 2, m - 1, n);
    }
  }
}
