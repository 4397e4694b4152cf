/** How the transform length is split into radices: kf_factor of the C code and the prepare
    loop of the C++ class, two loops with different stopping tests and one result. */
module Factor {
  import opened Basics
  import opened Arith

  const MAX_FACTORS: nat := 32

  // ----- the list, without the loops -----

  /** The least divisor of n from d on. */
  function LeastDivisorFrom(n: nat, d: nat): (r: nat)
    requires 2 <= d <= n
    ensures d <= r <= n && n % r == 0
    ensures forall e | d <= e < r :: n % e != 0
    decreases n - d
  {
    if n % d == 0 then d else
      SelfDivides(n);
      LeastDivisorFrom(n, d + 1)
  }

  lemma SelfDivides(n: nat)
    requires 0 < n
    ensures n % n == 0
  {
    DivModUnique(n, n, 1, 0);
  }

  /** Radix four while it divides, then the least divisor. */
  function Radix(n: nat): (r: nat)
    requires 0 < n
    ensures 0 < r <= n && n % r == 0
    ensures 1 < n ==> 1 < r
  {
    if n == 1 then 1 else if n % 4 == 0 then 4 else LeastDivisorFrom(n, 2)
  }

  /** p1, m1, p2, m2, ... with p1 * m1 == n, p2 * m2 == m1, ... . */
  function FactorList(n: nat): (list: seq<nat>)
    requires 0 < n
    ensures 2 <= |list|
  {
    var r := Radix(n);
    QuotientShrinks(n, r);
    [r, n / r] + if 1 < n / r then FactorList(n / r) else []
  }

  lemma QuotientShrinks(n: nat, r: nat)
    requires 0 < r <= n && n % r == 0
    ensures 0 < n / r <= n && n == r * (n / r)
    ensures 1 < r ==> n / r < n
  {
    DivMod(n, r);
    if n / r <= 0 {
      MulMonotone(n / r, 0, r);
    }
    MulMonotone(1, r, n / r);
    if 1 < r {
      MulMonotone(2, r, n / r);
    }
  }

  // ----- what the list is good for -----

  ghost predicate IsPrime(p: nat) {
    2 <= p && forall d | 2 <= d < p :: p % d != 0
  }

  lemma DividesTransitively(a: nat, b: nat, n: nat)
    requires 0 < a && 0 < b && b % a == 0 && n % b == 0
    ensures n % a == 0
  {
    DivMod(b, a);
    DivMod(n, b);
    assert n == ((n / b) * (b / a)) * a + 0 by {
      assert n == (n / b) * ((b / a) * a);
    }
    DivModUnique(n, a, (n / b) * (b / a), 0);
  }

  lemma LeastDivisorIsPrime(n: nat)
    requires 2 <= n
    ensures IsPrime(LeastDivisorFrom(n, 2))
  {
    var p := LeastDivisorFrom(n, 2);
    forall d | 2 <= d < p ensures p % d != 0 {
      if p % d == 0 {
        DividesTransitively(d, p, n);
      }
    }
  }

  /** Every radix of a length above one is four or a prime. */
  lemma {:induction false} RadicesArePrimeOrFour(n: nat)
    requires 2 <= n
    ensures forall i | 0 <= i < |FactorList(n)| && i % 2 == 0 :: FactorList(n)[i] == 4 || IsPrime(FactorList(n)[i])
  {
    hide IsPrime;
    var r := Radix(n);
    QuotientShrinks(n, r);
    LeastDivisorIsPrime(n);
    if 1 < n / r {
      RadicesArePrimeOrFour(n / r);
      var rest := FactorList(n / r);
      forall i | 0 <= i < |FactorList(n)| && i % 2 == 0 ensures FactorList(n)[i] == 4 || IsPrime(FactorList(n)[i]) {
        if 2 <= i {
          assert FactorList(n)[i] == rest[i - 2] && (i - 2) % 2 == 0;
        }
      }
    }
  }

  /** The number of radices is at most logarithmic in the length. */
  lemma {:induction false} FactorListIsShort(n: nat)
    requires 2 <= n
    ensures |FactorList(n)| % 2 == 0 && Pow2(|FactorList(n)| / 2) <= n
  {
    var r := Radix(n);
    QuotientShrinks(n, r);
    if 1 < n / r {
      FactorListIsShort(n / r);
      var half := |FactorList(n / r)| / 2;
      assert |FactorList(n)| / 2 == half + 1;
      MulMonotone(2, r, n / r);
    } else {
      assert Pow2(1) == 2;
    }
  }

  /** The 2 * MAXFACTORS entries of kiss_fft_state.factors suffice for every 32-bit length. */
  lemma FactorListFits(n: nat)
    requires 0 < n < U32
    ensures |FactorList(n)| < 2 * MAX_FACTORS
  {
    if n == 1 {
      assert FactorList(1) == [1, 1];
    } else {
      FactorListIsShort(n);
      Pow2Of32();
      if 2 * MAX_FACTORS <= |FactorList(n)| {
        Pow2Monotone(32, |FactorList(n)| / 2);
      }
    }
  }

  // ----- the search loop -----

  /** Nothing between 2 and p - 1 divides n, and neither does 4 once p has left 4. */
  ghost predicate Tried(n: nat, p: nat) {
    || p == 4
    || (p == 2 && n % 4 != 0)
    || (3 <= p && p % 2 == 1 && n % 4 != 0 && forall d | 2 <= d < p :: n % d != 0)
  }

  lemma RadixFound(n: nat, p: nat)
    requires 2 <= n && 0 < p && Tried(n, p) && n % p == 0
    ensures p == Radix(n)
  {
    if p != 4 && p != 2 {
      assert p <= n by {
        if n < p {
          SmallMod(n, p);
        }
      }
      var r := LeastDivisorFrom(n, 2);
      assert n % r == 0;
    }
  }

  /** The next candidate after p. */
  function NextCandidate(p: nat): nat {
    match p {
      case 4 => 2
      case 2 => 3
      case _ => p + 2
    }
  }

  lemma CandidateTried(n: nat, p: nat)
    requires 2 <= n && 0 < p && Tried(n, p) && n % p != 0
    ensures Tried(n, NextCandidate(p))
    ensures p != 4 ==> p < n
    ensures p != 4 ==> NextCandidate(p) <= n
    ensures forall d | 2 <= d < NextCandidate(p) :: n % d != 0
  {
    var next := NextCandidate(p);
    if p != 4 {
      forall d | 2 <= d < next ensures n % d != 0 {
        if p < d {
          // d is even, and 2 does not divide n
          assert d == p + 1 && p != 2;
          if n % d == 0 {
            assert d % 2 == 0;
            DividesTransitively(2, d, n);
          }
        }
      }
      SelfDivides(n);
      assert next <= n;
    }
  }

  /** With no divisor below p and p * p > n, n has no proper divisor at all. */
  lemma SkipToEnd(n: nat, p: nat)
    requires 2 <= n && 2 <= p && n < p * p
    requires n % 4 != 0
    requires forall d | 2 <= d < p :: n % d != 0
    ensures Radix(n) == n
  {
    var r := LeastDivisorFrom(n, 2);
    if r < n {
      QuotientShrinks(n, r);
      var e := n / r;
      assert p <= r;
      assert e < p by {
        if p <= e {
          MulMonotone(p, r, p);
          MulMonotone(p, e, r);
        }
      }
      DivModUnique(n, e, r, 0);
    }
  }

  /** Dividing out the radix keeps the record of what has been tried. */
  lemma TriedAfterDivision(n: nat, p: nat)
    requires 2 <= n && 0 < p <= n && Tried(n, p) && n % p == 0
    ensures Tried(n / p, p)
  {
    QuotientShrinks(n, p);
    var m := n / p;
    DivModUnique(n, m, p, 0);
    if p == 2 {
      if m % 4 == 0 {
        DividesTransitively(4, m, n);
      }
    } else if p != 4 {
      if m % 4 == 0 {
        DividesTransitively(4, m, n);
      }
      forall d | 2 <= d < p ensures m % d != 0 {
        if m % d == 0 {
          DividesTransitively(d, m, n);
        }
      }
    }
  }

  // ----- kf_factor -----

  function FloorSqrt(n: nat): (r: nat)
    ensures r * r <= n < (r + 1) * (r + 1)
  {
    if n == 0 then 0 else
      var r := FloorSqrt(n - 1);
      if (r + 1) * (r + 1) <= n then r + 1 else r
  }

  /** What is known between two rounds of the outer loop. */
  ghost predicate Searching(n: nat, p: nat) {
    0 < n && 0 < p && (n == 1 ==> p == 4) && (1 < n ==> Tried(n, p))
  }

  function Distance(n: nat, p: nat): nat {
    if p == 4 then n + 2 else if p == 2 then n + 1 else if p <= n then n - p else 0
  }

  /** Where the inner loops may be: a candidate still to be tried, or the jump to n. */
  ghost predicate Candidate(n: nat, p: nat) {
    && 0 < n && 0 < p
    && (n == 1 ==> p == 4 || p == 1)
    && (1 < n ==> Tried(n, p) || p == n == Radix(n))
  }

  /** One step of the search; jump says whether the stopping test fired. */
  lemma CandidateStep(n: nat, p: nat, jump: bool)
    requires Candidate(n, p) && n % p != 0
    requires n == 1 ==> jump
    requires jump ==> n < NextCandidate(p) * NextCandidate(p)
    ensures Candidate(n, if jump then n else NextCandidate(p))
    ensures Distance(n, if jump then n else NextCandidate(p)) < Distance(n, p)
  {
    if 1 < n {
      SelfDivides(n);
      CandidateTried(n, p);
      if jump {
        SkipToEnd(n, NextCandidate(p));
      }
    }
  }

  lemma CandidateFound(n: nat, p: nat)
    requires Candidate(n, p) && n % p == 0
    ensures p == Radix(n)
    ensures 1 < n / p ==> Searching(n / p, p)
  {
    SelfDivides(n);
    if 1 < n && Tried(n, p) {
      RadixFound(n, p);
      TriedAfterDivision(n, p);
    } else if n == 1 {
      assert 1 % 4 == 1;
    } else {
      DivModUnique(n, n, 1, 0);
    }
  }

  /** The inner loop of kf_factor, whose bound is the root of the whole length. */
  method NextRadix(n: nat, from: nat, floorSqrt: nat, ghost length: nat) returns (p: nat)
    requires Searching(n, from)
    requires n <= length && (n == 1 ==> length == 1) && floorSqrt == FloorSqrt(length)
    ensures p == Radix(n)
    ensures 1 < n / p ==> Searching(n / p, p)
  {
    hide Tried, Radix, Distance;
    p := from;
    while n % p != 0
      invariant Candidate(n, p)
      decreases Distance(n, p)
    {
      PastRoot(n, NextCandidate(p), floorSqrt, length);
      CandidateStep(n, p, NextCandidate(p) > floorSqrt);
      p := NextCandidate(p);
      if p > floorSqrt {
        p := n;
      }
    }
    CandidateFound(n, p);
  }

  lemma PastRoot(n: nat, p: nat, floorSqrt: nat, length: nat)
    requires n <= length && floorSqrt == FloorSqrt(length)
    ensures floorSqrt < p ==> n < p * p
    ensures length == 1 ==> floorSqrt == 1
  {
    if floorSqrt < p {
      MulMonotone(floorSqrt + 1, p, floorSqrt + 1);
      MulMonotone(floorSqrt + 1, p, p);
    }
  }

  lemma FactorListStep(n: nat)
    requires 0 < n
    ensures var r := Radix(n);
            FactorList(n) == [r, n / r] + if 1 < n / r then FactorList(n / r) else []
  {}

  lemma StartSearching(n: nat)
    requires 0 < n
    ensures Searching(n, 4)
  {}

  /** kf_factor fills the buffer with exactly the factor list, within its 64 entries. */
  method KfFactor(length: nat, facbuf: array<nat>) returns (written: nat)
    requires 0 < length < U32 && facbuf.Length == 2 * MAX_FACTORS
    modifies facbuf
    ensures written == |FactorList(length)| < facbuf.Length
    ensures facbuf[..written] == FactorList(length)
    ensures facbuf[written..] == old(facbuf[written..])
  {
    hide FactorList, Radix, FloorSqrt, Searching;
    assert Searching(length, 4) by { StartSearching(length); }
    FactorListFits(length);
    var n, p, floorSqrt, more := length, 4, FloorSqrt(length), true;
    ghost var rest := FactorList(length);
    written := 0;
    while more
      invariant 0 < n <= length && (n == 1 && more ==> length == 1)
      invariant more ==> Searching(n, p) && rest == FactorList(n)
      invariant !more ==> n == 1 && rest == []
      invariant 0 <= written && written + |rest| == |FactorList(length)|
      invariant facbuf[..written] + rest == FactorList(length)
      invariant forall i | written <= i < facbuf.Length :: facbuf[i] == old(facbuf[i])
      decreases n, more
    {
      p := NextRadix(n, p, floorSqrt, length);
      FactorListStep(n);
      QuotientShrinks(n, p);
      rest := rest[2..];
      n := n / p;
      WritePair(facbuf, written, p, n);
      written := written + 2;
      more := n > 1;
    }
  }

  /** Stores the next two entries of the list. */
  method WritePair(facbuf: array<nat>, at: nat, x: nat, y: nat)
    requires at + 1 < facbuf.Length
    modifies facbuf
    ensures facbuf[..at + 2] == old(facbuf[..at]) + [x, y]
    ensures forall i | at + 2 <= i < facbuf.Length :: facbuf[i] == old(facbuf[i])
  {
    facbuf[at] := x;
    facbuf[at + 1] := y;
  }

  // ----- traits::prepare -----

  /** The inner loop of prepare, whose bound follows the remaining length. */
  method NextStageRadix(n: nat, from: nat) returns (p: nat)
    requires Searching(n, from)
    ensures p == Radix(n)
    ensures 1 < n / p ==> Searching(n / p, p)
  {
    hide Tried, Radix, Distance;
    p := from;
    while n % p != 0
      invariant Candidate(n, p)
      decreases Distance(n, p)
    {
      CandidateStep(n, p, NextCandidate(p) * NextCandidate(p) > n);
      p := NextCandidate(p);
      if p * p > n {
        p := n;
      }
    }
    CandidateFound(n, p);
  }

  /** Two lists of equal length, interleaved. */
  function Interleaved(a: seq<nat>, b: seq<nat>): seq<nat>
    requires |a| == |b|
  {
    if a == [] then [] else [a[0], b[0]] + Interleaved(a[1..], b[1..])
  }

  lemma {:induction false} InterleavedAppends(a: seq<nat>, b: seq<nat>, x: nat, y: nat)
    requires |a| == |b|
    ensures Interleaved(a + [x], b + [y]) == Interleaved(a, b) + [x, y]
  {
    if a == [] {
      assert [x][1..] == [] && [y][1..] == [];
    } else {
      InterleavedAppends(a[1..], b[1..], x, y);
      assert (a + [x])[1..] == a[1..] + [x] && (b + [y])[1..] == b[1..] + [y];
    }
  }

  /** The C++ loop finds the same stages as the C loop. */
  method Prepare(nfft: nat) returns (stageRadix: seq<nat>, stageRemainder: seq<nat>)
    requires 0 < nfft
    ensures |stageRadix| == |stageRemainder|
    ensures Interleaved(stageRadix, stageRemainder) == FactorList(nfft)
  {
    hide FactorList, Radix;
    stageRadix, stageRemainder := [], [];
    var n, p, more := nfft, 4, true;
    ghost var rest := FactorList(nfft);
    while more
      invariant 0 < n <= nfft && (n == 1 && more ==> nfft == 1)
      invariant more ==> Searching(n, p) && rest == FactorList(n)
      invariant !more ==> n == 1 && rest == []
      invariant |stageRadix| == |stageRemainder|
      invariant Interleaved(stageRadix, stageRemainder) + rest == FactorList(nfft)
      decreases n, more
    {
      p := NextStageRadix(n, p);
      FactorListStep(n);
      QuotientShrinks(n, p);
      rest := rest[2..];
      n := n / p;
      InterleavedAppends(stageRadix, stageRemainder, p, n);
      stageRadix := stageRadix + [p];
      stageRemainder := stageRemainder + [n];
      more := n > 1;
    }
  }
}
