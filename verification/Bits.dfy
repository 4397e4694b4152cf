/** Shifts and masks on unsigned integers, as the drivers use them. */
module Bits {
  import opened Arith

  function Shl(x: nat, k: nat): nat {
    x * Pow2(k)
  }

  function Shr(x: nat, k: nat): nat {
    Quotient(x, Pow2(k))
  }

  function Quotient(x: nat, n: nat): nat
    requires 0 < n
  {
    x / n
  }

  /** Bitwise and. */
  function And(a: nat, b: nat): nat {
    if a == 0 || b == 0 then 0
    else 2 * And(a / 2, b / 2) + (if a % 2 == 1 && b % 2 == 1 then 1 else 0)
  }

  /** Masking with a power of two less one keeps the remainder. */
  lemma {:induction false} MaskIsRemainder(a: nat, k: nat)
    ensures And(a, Pow2(k) - 1) == a % Pow2(k)
  {
    if k == 0 || a == 0 {
      SmallMod(0, Pow2(k));
    } else {
      MaskIsRemainder(a / 2, k - 1);
      RemainderHalves(a, Pow2(k - 1));
      assert (Pow2(k) - 1) / 2 == Pow2(k - 1) - 1 && (Pow2(k) - 1) % 2 == 1;
    }
  }

  lemma RemainderHalves(a: nat, half: nat)
    requires 0 < half
    ensures a % (2 * half) == 2 * ((a / 2) % half) + a % 2
  {
    var h := a / 2;
    DivMod(h, half);
    var q, r := h / half, h % half;
    assert a == q * (2 * half) + (2 * r + a % 2);
    DivModUnique(a, 2 * half, q, 2 * r + a % 2);
  }

  ghost predicate IsPow2(x: nat) {
    exists k: nat :: x == Pow2(k)
  }

  lemma DoubleIsPow2(h: nat)
    ensures IsPow2(2 * h) <==> IsPow2(h) || 2 * h == 1
  {
    if k: nat :| h == Pow2(k) {
      assert 2 * h == Pow2(k + 1);
    }
    if k: nat :| 2 * h == Pow2(k) {
      assert k != 0 && h == Pow2(k - 1);
    }
  }

  /** x & (x - 1) is zero for the powers of two and for nothing else. */
  lemma {:induction false} ClearLowestBit(x: nat)
    requires 0 < x
    ensures And(x, x - 1) == 0 <==> IsPow2(x)
  {
    if x == 1 {
      assert x == Pow2(0);
    } else if x % 2 == 1 {
      assert x / 2 == (x - 1) / 2 && (x - 1) % 2 == 0;
      AndSelf(x / 2);
      assert And(x, x - 1) == 2 * And(x / 2, (x - 1) / 2);
    } else {
      var h := x / 2;
      assert (x - 1) / 2 == h - 1 && x == 2 * h;
      assert And(x, x - 1) == 2 * And(h, h - 1);
      ClearLowestBit(h);
      DoubleIsPow2(h);
    }
  }

  lemma {:induction false} AndSelf(a: nat)
    ensures And(a, a) == a
  {
    if a != 0 {
      AndSelf(a / 2);
    }
  }

  /** Shifting right and back left rounds down to a multiple. */
  lemma ShiftRoundsDown(x: nat, k: nat)
    ensures Shl(Shr(x, k), k) == x - x % Pow2(k)
    ensures Shl(Shr(x, k), k) == x <==> x % Pow2(k) == 0
  {
    DivMod(x, Pow2(k));
  }
}
