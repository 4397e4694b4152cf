/** kiss_fft_next_fast_size: the next length the fast butterflies can handle alone. */
module FastSize {
  import opened Arith
  import opened Factor

  /** No prime factor other than 2, 3 and 5. */
  ghost predicate IsFast(n: nat) {
    0 < n && forall d | 2 <= d <= n && IsPrime(d) && n % d == 0 :: d == 2 || d == 3 || d == 5
  }

  lemma ProductResidue(c: int, a: int, s: int, b: int, r: int)
    requires 0 < c
    ensures ((a * c + s) * (b * c + r)) % c == (s * r) % c
  {
    var y := b * c + r;
    Expand(a * c, s, y);
    Rotate(a, c, y);
    Expand(b * c, r, s);
    Rotate(b, c, s);
    Expand(a * y, b * s, c);
    ModShift(r * s, a * y + b * s, c);
    Rotate(1, s, y);
    Rotate(1, r, s);
  }

  lemma Expand(x: int, y: int, z: int)
    ensures (x + y) * z == x * z + y * z
  {}

  lemma Rotate(x: int, y: int, z: int)
    ensures (x * y) * z == (x * z) * y
  {}

  lemma SmallResidues(c: nat, s: nat, r: nat)
    requires c == 2 || c == 3 || c == 5
    requires s < c && 0 < r < c && (s * r) % c == 0
    ensures s == 0
  {
    if {
      case r == 1 =>
      case r == 2 =>
      case r == 3 =>
      case r == 4 =>
    }
  }

  /** For c = 2, 3, 5: a number that c does not divide and that divides c * x divides x. */
  lemma CancelSmallPrime(c: nat, d: nat, x: nat)
    requires c == 2 || c == 3 || c == 5
    requires 0 < d && d % c != 0 && (c * x) % d == 0
    ensures x % d == 0
  {
    var k := (c * x) / d;
    DivMod(c * x, d);
    DivModUnique(c * x, c, x, 0);
    DivMod(d, c);
    DivMod(k, c);
    ProductResidue(c, k / c, k % c, d / c, d % c);
    SmallResidues(c, k % c, d % c);
    CancelFactor(c, x, k / c, d);
    DivModUnique(x, d, k / c, 0);
  }

  lemma CancelFactor(c: nat, x: nat, e: nat, d: nat)
    requires 0 < c && c * x == (e * c) * d
    ensures x == e * d
  {
    assert c * (x - e * d) == 0;
    if x < e * d {
      MulMonotone(x - e * d, -1, c);
    } else if e * d < x {
      MulMonotone(1, x - e * d, c);
    }
  }

  lemma MultipleDivides(c: nat, x: nat, d: nat)
    requires 0 < d && x % d == 0
    ensures (c * x) % d == 0
  {
    DivMod(x, d);
    assert c * x == (c * (x / d)) * d;
    DivModUnique(c * x, d, c * (x / d), 0);
  }

  /** A prime that divides c * x is c or divides x. */
  lemma PrimeDividesTimes(c: nat, x: nat, d: nat)
    requires c == 2 || c == 3 || c == 5
    requires IsPrime(d) && (c * x) % d == 0
    ensures d == c || x % d == 0
  {
    if d % c == 0 {
      if d < c {
        SmallMod(d, c);
      }
    } else {
      CancelSmallPrime(c, d, x);
    }
  }

  /** Multiplying by 2, 3 or 5 does not change whether a length is fast. */
  lemma FastTimes(c: nat, x: nat)
    requires c == 2 || c == 3 || c == 5
    requires 0 < x
    ensures IsFast(c * x) <==> IsFast(x)
  {
    hide IsPrime;
    if IsFast(c * x) {
      forall d | 2 <= d <= x && IsPrime(d) && x % d == 0 ensures d == 2 || d == 3 || d == 5 {
        MultipleDivides(c, x, d);
      }
    }
    if IsFast(x) {
      forall d | 2 <= d <= c * x && IsPrime(d) && (c * x) % d == 0 ensures d == 2 || d == 3 || d == 5 {
        PrimeDividesTimes(c, x, d);
        if x < d {
          SmallMod(x, d);
        }
      }
    }
  }

  /** What is left after stripping twos, threes and fives decides. */
  lemma StrippedDecides(m: nat)
    requires 0 < m && m % 2 != 0 && m % 3 != 0 && m % 5 != 0
    ensures IsFast(m) <==> m == 1
  {
    if m != 1 {
      LeastDivisorIsPrime(m);
      var p := LeastDivisorFrom(m, 2);
      assert p != 2 && p != 3 && p != 5;
    }
  }

  lemma {:induction false} PowerOfTwoIsFast(k: nat)
    ensures IsFast(Pow2(k))
  {
    if k != 0 {
      PowerOfTwoIsFast(k - 1);
      FastTimes(2, Pow2(k - 1));
    }
  }

  lemma {:induction false} PowerOfTwoAbove(n: nat)
    ensures n < Pow2(n)
  {
    if n != 0 {
      PowerOfTwoAbove(n - 1);
    }
  }

  /** Divides c out of m for as long as it goes. */
  method Strip(m: nat, c: nat) returns (r: nat)
    requires 0 < m && (c == 2 || c == 3 || c == 5)
    ensures 0 < r && r % c != 0
    ensures IsFast(r) <==> IsFast(m)
    ensures forall b | 0 < b && m % b != 0 :: r % b != 0
  {
    r := m;
    while r % c == 0
      invariant 0 < r
      invariant IsFast(r) <==> IsFast(m)
      invariant m % r == 0
      decreases r
    {
      QuotientShrinks(r, c);
      FastTimes(c, r / c);
      assert r % (r / c) == 0 by { DivModUnique(r, r / c, c, 0); }
      DividesTransitively(r / c, r, m);
      r := r / c;
    }
    forall b | 0 < b && m % b != 0 ensures r % b != 0 {
      if r % b == 0 {
        DividesTransitively(b, r, m);
      }
    }
  }

  /** The least fast length that is not below n. */
  method NextFastSize(from: nat) returns (n: nat)
    requires 0 < from
    ensures from <= n && IsFast(n)
    ensures forall k | from <= k < n :: !IsFast(k)
  {
    hide IsFast;
    n := from;
    ghost var bound := Pow2(from);
    PowerOfTwoAbove(from);
    PowerOfTwoIsFast(from);
    while true
      invariant from <= n <= bound
      invariant forall k | from <= k < n :: !IsFast(k)
      decreases bound - n
    {
      var m := Strip(n, 2);
      m := Strip(m, 3);
      m := Strip(m, 5);
      StrippedDecides(m);
      if m <= 1 {
        break;
      }
      n := n + 1;
    }
  }
}
