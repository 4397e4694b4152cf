/** Division, remainder and powers of two: the facts the models share. */
module Arith {

  /** The place of element q of column u when the columns are m apart. */
  function Slot(q: nat, u: nat, m: nat): nat {
    q * m + u
  }

  lemma MulMonotone(a: int, b: int, n: int)
    requires a <= b && 0 <= n
    ensures a * n <= b * n
  {}

  lemma DivModUnique(a: int, n: int, q: int, r: int)
    requires 0 < n && 0 <= r < n && a == q * n + r
    ensures a / n == q && a % n == r
  {
    var q', r' := a / n, a % n;
    assert (q - q') * n == r' - r;
    if q' < q {
      MulMonotone(1, q - q', n);
    } else if q < q' {
      MulMonotone(q - q', -1, n);
    }
  }

  lemma DivMod(a: int, n: int)
    requires 0 < n
    ensures a == (a / n) * n + a % n
    ensures 0 <= a % n < n
  {}

  lemma ModShift(r: int, q: int, n: int)
    requires 0 < n
    ensures (q * n + r) % n == r % n
  {
    DivMod(r, n);
    assert q * n + r == (q + r / n) * n + r % n;
    DivModUnique(q * n + r, n, q + r / n, r % n);
  }

  lemma ModAdds(a: int, b: int, n: int)
    requires 0 < n
    ensures (a % n + b % n) % n == (a + b) % n
  {
    DivMod(a, n);
    DivMod(b, n);
    assert a + b == (a / n + b / n) * n + (a % n + b % n);
    ModShift(a % n + b % n, a / n + b / n, n);
  }

  lemma SmallMod(a: int, n: int)
    requires 0 <= a < n
    ensures a % n == a && a / n == 0
  {
    DivModUnique(a, n, 0, a);
  }

  function Pow2(k: nat): (r: nat)
    ensures 0 < r
  {
    if k == 0 then 1 else 2 * Pow2(k - 1)
  }

  lemma {:induction false} Pow2Monotone(a: nat, b: nat)
    requires a <= b
    ensures Pow2(a) <= Pow2(b)
  {
    if a < b {
      Pow2Monotone(a, b - 1);
    }
  }

  lemma {:induction false} Pow2Adds(a: nat, b: nat)
    ensures Pow2(a + b) == Pow2(a) * Pow2(b)
  {
    if b != 0 {
      Pow2Adds(a, b - 1);
    }
  }

  lemma MultipleHasNoRemainder(q: nat, n: nat)
    requires 0 < n
    ensures (q * n) % n == 0 && (q * n) / n == q
    ensures 0 < q ==> n <= q * n
  {
    DivModUnique(q * n, n, q, 0);
    if 0 < q {
      MulMonotone(1, q, n);
    }
  }

  /** The smaller power of two divides the larger. */
  lemma Pow2Divides(a: nat, b: nat)
    requires a <= b
    ensures Pow2(b) % Pow2(a) == 0 && Pow2(a) <= Pow2(b)
  {
    hide Pow2;
    Pow2Adds(a, b - a);
    assert Pow2(b) == Pow2(b - a) * Pow2(a);
    MultipleHasNoRemainder(Pow2(b - a), Pow2(a));
  }

  lemma Pow2Of32()
    ensures Pow2(32) == 0x1_0000_0000
  {
    assert Pow2(8) == 0x100;
    assert Pow2(16) == 0x1_0000;
    assert Pow2(24) == 0x100_0000;
  }
}
