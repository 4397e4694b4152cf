/** What the FFT has to compute: the discrete Fourier transform as the plain sum,
    stated over an abstract twiddle table, and the two classical facts about it:
    decimation in time, and inversion. */
module Fourier {
  import opened Arith
  import opened Complex

  /** The powers of a primitive n-th root of unity, as kiss_fft_alloc tabulates them:
      exp(-2*pi*i*k/n), or exp(+2*pi*i*k/n) for the inverse transform. The sign of the
      exponent shows in the quarter turn alone. */
  ghost predicate IsTwiddleTable(tw: seq<Cpx>, inverse: bool) {
    && 0 < |tw|
    && tw[0] == One
    && (forall a, b | 0 <= a < |tw| && 0 <= b < |tw| :: AnglesAdd(tw, a, b))
    && (forall k | 0 < k < |tw| :: TurnsBack(tw, k))
    && (forall k | 0 < k < |tw| :: tw[k] != One)
    && Oriented(tw, inverse)
  }

  ghost predicate Oriented(tw: seq<Cpx>, inverse: bool) {
    0 < |tw| && |tw| % 4 == 0 ==> tw[|tw| / 4] == QuarterTurn(inverse)
  }

  ghost predicate AnglesAdd(tw: seq<Cpx>, a: nat, b: nat)
    requires a < |tw| && b < |tw|
  {
    tw[(a + b) % |tw|] == Mul(tw[a], tw[b])
  }

  ghost predicate TurnsBack(tw: seq<Cpx>, k: nat)
    requires 0 < k < |tw|
  {
    tw[|tw| - k] == Conj(tw[k])
  }

  function QuarterTurn(inverse: bool): Cpx {
    if inverse then Cpx(0.0, 1.0) else Cpx(0.0, -1.0)
  }

  /** The table read as a periodic function of the exponent. */
  function W(tw: seq<Cpx>, e: nat): Cpx
    requires 0 < |tw|
  {
    tw[e % |tw|]
  }

  lemma TwiddleAdds(tw: seq<Cpx>, inverse: bool, a: nat, b: nat)
    requires IsTwiddleTable(tw, inverse)
    ensures W(tw, a + b) == Mul(W(tw, a), W(tw, b))
  {
    ModAdds(a, b, |tw|);
    assert AnglesAdd(tw, a % |tw|, b % |tw|);
  }

  lemma TwiddlePeriodic(tw: seq<Cpx>, q: nat, r: nat)
    requires 0 < |tw|
    ensures W(tw, Slot(q, r, |tw|)) == W(tw, r)
  {
    ModShift(r, q, |tw|);
  }

  // ----- the transform -----

  /** The exponent of the twiddle that multiplies sample j in output k. */
  function Angle(j: nat, k: nat, fstride: nat): nat {
    j * k * fstride
  }

  function DftTerms(x: Signal, tw: seq<Cpx>, fstride: nat, k: nat): Signal
    requires 0 < |tw|
  {
    (j: nat) => Mul(x(j), W(tw, Angle(j, k, fstride)))
  }

  /** Output k of the transform of x(0), ..., x(n-1) when the table holds the powers of
      an (n * fstride)-th root of unity. */
  function Dft(x: Signal, tw: seq<Cpx>, fstride: nat, n: nat, k: nat): Cpx
    requires 0 < |tw|
  {
    Sum(DftTerms(x, tw, fstride, k), n)
  }

  /** Radix p, sub-transforms of length m and stride fstride fit the twiddle table. */
  predicate Fits(tw: seq<Cpx>, fstride: nat, p: nat, m: nat) {
    && 0 < p && 0 < m && 0 < fstride
    && p * m * fstride == |tw|
  }

  lemma FitsHasTable(tw: seq<Cpx>, fstride: nat, p: nat, m: nat)
    requires Fits(tw, fstride, p, m)
    ensures 0 < |tw| && 0 < p && 0 < m && 0 < fstride
  {
    assert p * m > 0;
  }

  /** The stride of a sub-transform. */
  function Finer(fstride: nat, p: nat): nat {
    fstride * p
  }

  function CombineTerms(x: Signal, tw: seq<Cpx>, fstride: nat, p: nat, m: nat, d: nat, r: nat): Signal
    requires 0 < |tw|
  {
    (q: nat) => Mul(Dft(Decimated(x, q, p), tw, Finer(fstride, p), m, r), W(tw, Angle(q, Slot(d, r, m), fstride)))
  }

  /** Decimation in time: a transform of length p * m is a combination of p transforms
      of length m, each over every p-th sample. Output d * m + r needs output r of each. */
  lemma DecimationInTime(x: Signal, tw: seq<Cpx>, inverse: bool, fstride: nat, p: nat, m: nat, d: nat, r: nat)
    requires IsTwiddleTable(tw, inverse) && Fits(tw, fstride, p, m)
    ensures Dft(x, tw, fstride, p * m, Slot(d, r, m)) == Sum(CombineTerms(x, tw, fstride, p, m, d, r), p)
  {
    assert 0 < |tw|;
    hide Mul, W, IsTwiddleTable, Slot, Fits, Angle, Sum, Finer;
    var terms := DftTerms(x, tw, fstride, Slot(d, r, m));
    SumDecimated(terms, p, m);
    forall q: nat | q < p
      ensures DecimatedSums(terms, p, m)(q) == CombineTerms(x, tw, fstride, p, m, d, r)(q)
    {
      DecimatedPart(x, tw, inverse, fstride, p, m, d, r, q);
    }
    SumCongruence(DecimatedSums(terms, p, m), CombineTerms(x, tw, fstride, p, m, d, r), p);
  }

  lemma DecimatedPart(x: Signal, tw: seq<Cpx>, inverse: bool, fstride: nat, p: nat, m: nat, d: nat, r: nat, q: nat)
    requires IsTwiddleTable(tw, inverse) && Fits(tw, fstride, p, m)
    ensures Sum(Decimated(DftTerms(x, tw, fstride, Slot(d, r, m)), q, p), m) ==
            CombineTerms(x, tw, fstride, p, m, d, r)(q)
  {
    assert 0 < |tw|;
    hide Mul, W, IsTwiddleTable, Slot, Fits, Angle, Sum, Finer;
    var whole := Decimated(DftTerms(x, tw, fstride, Slot(d, r, m)), q, p);
    var part := DftTerms(Decimated(x, q, p), tw, Finer(fstride, p), r);
    var c := W(tw, Angle(q, Slot(d, r, m), fstride));
    forall i: nat | i < m ensures whole(i) == Scaled(part, c)(i) {
      DecimatedTerm(x, tw, inverse, fstride, p, m, d, r, q, i);
    }
    SumCongruence(whole, Scaled(part, c), m);
    SumScaled(part, c, m);
  }

  lemma DecimatedTerm(x: Signal, tw: seq<Cpx>, inverse: bool, fstride: nat, p: nat, m: nat, d: nat,
                      r: nat, q: nat, i: nat)
    requires IsTwiddleTable(tw, inverse) && Fits(tw, fstride, p, m)
    ensures Decimated(DftTerms(x, tw, fstride, Slot(d, r, m)), q, p)(i) ==
            Mul(DftTerms(Decimated(x, q, p), tw, Finer(fstride, p), r)(i), W(tw, Angle(q, Slot(d, r, m), fstride)))
  {
    assert 0 < |tw|;
    hide Mul, W, IsTwiddleTable, Slot, Fits, Angle, DftTerms, Decimated, Finer;
    ExponentSplits(tw, inverse, fstride, p, m, d, r, q, i);
    MulAssociates(x(Slot(i, q, p)), W(tw, Angle(i, r, Finer(fstride, p))), W(tw, Angle(q, Slot(d, r, m), fstride)));
    TermValues(x, tw, fstride, p, Slot(d, r, m), r, q, i);
  }

  lemma TermValues(x: Signal, tw: seq<Cpx>, fstride: nat, p: nat, k: nat, r: nat, q: nat, i: nat)
    requires 0 < |tw|
    ensures Decimated(DftTerms(x, tw, fstride, k), q, p)(i) ==
            Mul(x(Slot(i, q, p)), W(tw, Angle(Slot(i, q, p), k, fstride)))
    ensures DftTerms(Decimated(x, q, p), tw, Finer(fstride, p), r)(i) ==
            Mul(x(Slot(i, q, p)), W(tw, Angle(i, r, Finer(fstride, p))))
  {
    hide Mul, W, Slot, Angle, Finer;
  }

  lemma ExponentSplits(tw: seq<Cpx>, inverse: bool, fstride: nat, p: nat, m: nat, d: nat, r: nat, q: nat, i: nat)
    requires IsTwiddleTable(tw, inverse) && Fits(tw, fstride, p, m)
    ensures W(tw, Angle(Slot(i, q, p), Slot(d, r, m), fstride)) ==
            Mul(W(tw, Angle(i, r, Finer(fstride, p))), W(tw, Angle(q, Slot(d, r, m), fstride)))
  {
    assert 0 < |tw|;
    hide Mul, W, IsTwiddleTable, Angle, Slot, Fits, Finer;
    AngleSplits(tw, fstride, p, m, d, r, q, i);
    TwiddleAdds(tw, inverse, Slot(i * d, Angle(i, r, Finer(fstride, p)), |tw|), Angle(q, Slot(d, r, m), fstride));
    TwiddlePeriodic(tw, i * d, Angle(i, r, Finer(fstride, p)));
  }

  lemma AngleSplits(tw: seq<Cpx>, fstride: nat, p: nat, m: nat, d: nat, r: nat, q: nat, i: nat)
    requires Fits(tw, fstride, p, m)
    ensures Angle(Slot(i, q, p), Slot(d, r, m), fstride) ==
            Slot(i * d, Angle(i, r, Finer(fstride, p)), |tw|) + Angle(q, Slot(d, r, m), fstride)
  {
    Expand(i, q, p, d, r, m, fstride);
  }

  lemma Expand(i: int, q: int, p: int, d: int, r: int, m: int, s: int)
    ensures (i * p + q) * (d * m + r) * s == (i * d) * (p * m * s) + i * r * (s * p) + q * (d * m + r) * s
  {}

  // ----- the inverse transform undoes the forward one, up to the factor n -----

  function Powers(tw: seq<Cpx>, d: nat): Signal
    requires 0 < |tw|
  {
    (k: nat) => W(tw, Angle(k, d, 1))
  }

  /** The powers of a root of unity other than one sum to zero. */
  lemma GeometricSum(tw: seq<Cpx>, inverse: bool, d: nat)
    requires IsTwiddleTable(tw, inverse)
    requires 0 < d < |tw|
    ensures Sum(Powers(tw, d), |tw|) == Zero
  {
    var n := |tw|;
    Telescope(tw, inverse, d, n);
    TwiddlePeriodic(tw, d, 0);
    assert Angle(n, d, 1) == Slot(d, 0, n);
    assert Mul(Sum(Powers(tw, d), n), Sub(tw[d], One)) == Zero;
    NoZeroDivisors(Sum(Powers(tw, d), n), Sub(tw[d], One));
  }

  lemma {:induction false} Telescope(tw: seq<Cpx>, inverse: bool, d: nat, k: nat)
    requires IsTwiddleTable(tw, inverse)
    requires 0 < d < |tw|
    ensures Mul(Sum(Powers(tw, d), k), Sub(tw[d], One)) == Sub(W(tw, Angle(k, d, 1)), One)
  {
    assert 0 < |tw| && W(tw, 0) == One && W(tw, d) == tw[d] by { SmallMod(d, |tw|); }
    MulZero(Sub(tw[d], One));
    hide Mul, W, IsTwiddleTable;
    if k != 0 {
      Telescope(tw, inverse, d, k - 1);
      assert k * d == (k - 1) * d + d;
      TwiddleAdds(tw, inverse, (k - 1) * d, d);
      TelescopeStep(Sum(Powers(tw, d), k - 1), W(tw, Angle(k - 1, d, 1)), tw[d]);
    }
  }

  lemma TelescopeStep(sum: Cpx, power: Cpx, w: Cpx)
    requires Mul(sum, Sub(w, One)) == Sub(power, One)
    ensures Mul(Add(sum, power), Sub(w, One)) == Sub(Mul(power, w), One)
  {
    MulDistributes(sum, power, Sub(w, One));
    assert Mul(power, Sub(w, One)) == Sub(Mul(power, w), power);
  }

  /** The table of the inverse transform: every twiddle conjugated. */
  function Conjugated(tw: seq<Cpx>): seq<Cpx> {
    seq(|tw|, k requires 0 <= k < |tw| => Conj(tw[k]))
  }

  lemma ConjMul(a: Cpx, b: Cpx)
    ensures Conj(Mul(a, b)) == Mul(Conj(a), Conj(b))
  {}

  lemma ConjugatedIsTwiddleTable(tw: seq<Cpx>, inverse: bool)
    requires IsTwiddleTable(tw, inverse)
    ensures IsTwiddleTable(Conjugated(tw), !inverse)
  {
    hide Mul, AnglesAdd, Oriented, QuarterTurn;
    ConjugatedOrientation(tw, inverse);
    var ct := Conjugated(tw);
    forall a, b | 0 <= a < |ct| && 0 <= b < |ct| ensures AnglesAdd(ct, a, b) {
      ConjugatedAngles(tw, inverse, a, b);
    }
    forall k | 0 < k < |ct| ensures TurnsBack(ct, k) && ct[k] != One {
      assert TurnsBack(tw, k);
    }
  }

  lemma ConjugatedOrientation(tw: seq<Cpx>, inverse: bool)
    requires Oriented(tw, inverse)
    ensures Oriented(Conjugated(tw), !inverse)
  {}

  lemma ConjugatedAngles(tw: seq<Cpx>, inverse: bool, a: nat, b: nat)
    requires IsTwiddleTable(tw, inverse)
    requires a < |tw| && b < |tw|
    ensures AnglesAdd(Conjugated(tw), a, b)
  {
    hide Mul;
    assert AnglesAdd(tw, a, b);
    ConjMul(tw[a], tw[b]);
    hide IsTwiddleTable;
  }

  lemma ConjugatedTurnsBack(tw: seq<Cpx>, inverse: bool, e: nat) returns (back: nat, turns: nat)
    requires IsTwiddleTable(tw, inverse)
    ensures W(Conjugated(tw), e) == W(tw, back)
    ensures back + e == turns * |tw|
  {
    hide Mul;
    back, turns := BackTurn(e, |tw|);
    if back != 0 {
      assert TurnsBack(tw, e % |tw|);
      SmallMod(back, |tw|);
    }
  }

  lemma BackTurn(e: nat, n: nat) returns (back: nat, turns: nat)
    requires 0 < n
    ensures back == if e % n == 0 then 0 else n - e % n
    ensures back + e == turns * n
  {
    DivMod(e, n);
    if e % n == 0 {
      back, turns := 0, e / n;
    } else {
      back, turns := n - e % n, e / n + 1;
    }
  }

  /** The spectrum of x, as a signal. */
  function Spectrum(x: Signal, tw: seq<Cpx>, n: nat): Signal
    requires 0 < |tw|
  {
    (k: nat) => Dft(x, tw, 1, n, k)
  }

  function RoundTripTerms(x: Signal, tw: seq<Cpx>, l: nat): (nat, nat) -> Cpx
    requires 0 < |tw|
  {
    (k: nat, j: nat) => Mul(Mul(x(j), W(tw, Angle(j, k, 1))), W(Conjugated(tw), Angle(k, l, 1)))
  }

  /** Transforming forward and then with the conjugate table multiplies every sample by n. */
  lemma InverseUndoesForward(x: Signal, tw: seq<Cpx>, inverse: bool, l: nat)
    requires IsTwiddleTable(tw, inverse)
    requires l < |tw|
    ensures Dft(Spectrum(x, tw, |tw|), Conjugated(tw), 1, |tw|, l) == Scale(x(l), |tw| as real)
  {
    var n := |tw|;
    var g := RoundTripTerms(x, tw, l);
    forall k: nat | k < n
      ensures DftTerms(Spectrum(x, tw, n), Conjugated(tw), 1, l)(k) == RowSums(g, n)(k)
    {
      var c := W(Conjugated(tw), Angle(k, l, 1));
      SumScaled(DftTerms(x, tw, 1, k), c, n);
      SumCongruence(Scaled(DftTerms(x, tw, 1, k), c), Row(g, k), n);
    }
    SumCongruence(DftTerms(Spectrum(x, tw, n), Conjugated(tw), 1, l), RowSums(g, n), n);
    SumExchange(g, n, n);
    forall j: nat | j < n
      ensures ColumnSums(g, n)(j) == if j == l then Scale(x(l), n as real) else Zero
    {
      RoundTripColumn(x, tw, inverse, l, j);
    }
    SumSingle(ColumnSums(g, n), n, l);
  }

  lemma RoundTripColumn(x: Signal, tw: seq<Cpx>, inverse: bool, l: nat, j: nat)
    requires IsTwiddleTable(tw, inverse)
    requires l < |tw| && j < |tw|
    ensures Sum(Column(RoundTripTerms(x, tw, l), j), |tw|) ==
            if j == l then Scale(x(l), |tw| as real) else Zero
  {
    hide Mul, W, Scale, IsTwiddleTable, Sum, Column, RoundTripTerms, Angle, PhaseStep;
    ColumnIsPowers(x, tw, inverse, l, j);
    PowersSum(tw, inverse, j, l, x(j));
  }

  lemma ColumnIsPowers(x: Signal, tw: seq<Cpx>, inverse: bool, l: nat, j: nat)
    requires IsTwiddleTable(tw, inverse)
    requires l < |tw| && j < |tw|
    ensures Sum(Column(RoundTripTerms(x, tw, l), j), |tw|) ==
            Mul(Sum(Powers(tw, PhaseStep(j, l, |tw|)), |tw|), x(j))
  {
    hide Mul, W, IsTwiddleTable, Sum, Column, RoundTripTerms, Angle, PhaseStep;
    var powers := Powers(tw, PhaseStep(j, l, |tw|));
    var column := Column(RoundTripTerms(x, tw, l), j);
    forall k: nat | k < |tw| ensures column(k) == Scaled(powers, x(j))(k) {
      RoundTripTerm(x, tw, inverse, l, j, k);
    }
    SumCongruence(column, Scaled(powers, x(j)), |tw|);
    SumScaled(powers, x(j), |tw|);
  }

  lemma PowersSum(tw: seq<Cpx>, inverse: bool, j: nat, l: nat, x: Cpx)
    requires IsTwiddleTable(tw, inverse)
    requires l < |tw| && j < |tw|
    ensures Mul(Sum(Powers(tw, PhaseStep(j, l, |tw|)), |tw|), x) ==
            if j == l then Scale(x, |tw| as real) else Zero
  {
    assert tw[0] == One;
    hide Mul, Scale, Sum;
    if j == l {
      SumOfOnes(tw, |tw|);
      RealProduct(|tw| as real, x);
    } else {
      GeometricSum(tw, inverse, PhaseStep(j, l, |tw|));
      MulZero(x);
    }
  }

  /** (j - l) mod n. */
  function PhaseStep(j: nat, l: nat, n: nat): nat
    requires j < n && l < n
  {
    if l <= j then j - l else j + n - l
  }

  lemma RoundTripTerm(x: Signal, tw: seq<Cpx>, inverse: bool, l: nat, j: nat, k: nat)
    requires IsTwiddleTable(tw, inverse)
    requires l < |tw| && j < |tw|
    ensures Column(RoundTripTerms(x, tw, l), j)(k) == Mul(W(tw, Angle(k, PhaseStep(j, l, |tw|), 1)), x(j))
  {
    assert 0 < |tw|;
    hide Mul, W, IsTwiddleTable, PhaseStep, Angle;
    PhaseDifference(tw, inverse, j, k, l);
    MulAssociates(x(j), W(tw, Angle(j, k, 1)), W(Conjugated(tw), Angle(k, l, 1)));
    MulCommutes(x(j), W(tw, Angle(k, PhaseStep(j, l, |tw|), 1)));
  }

  lemma PhaseDifference(tw: seq<Cpx>, inverse: bool, j: nat, k: nat, l: nat)
    requires IsTwiddleTable(tw, inverse)
    requires l < |tw| && j < |tw|
    ensures Mul(W(tw, Angle(j, k, 1)), W(Conjugated(tw), Angle(k, l, 1))) ==
            W(tw, Angle(k, PhaseStep(j, l, |tw|), 1))
  {
    hide Mul, W, IsTwiddleTable, Angle, PhaseStep;
    var back, turns := ConjugatedTurnsBack(tw, inverse, Angle(k, l, 1));
    TwiddleAdds(tw, inverse, Angle(j, k, 1), back);
    // The two exponents differ by a whole number of turns.
    BackedPhase(tw, j, k, l, back, turns);
  }

  lemma BackedPhase(tw: seq<Cpx>, j: nat, k: nat, l: nat, back: nat, turns: nat)
    requires l < |tw| && j < |tw|
    requires back + Angle(k, l, 1) == turns * |tw|
    ensures W(tw, Angle(j, k, 1) + back) == W(tw, Angle(k, PhaseStep(j, l, |tw|), 1))
  {
    hide W;
    PhaseArithmetic(j, k, l, |tw|, turns);
    SamePhase(tw, turns, k * PhaseStep(j, l, |tw|), if l <= j then 0 else k, j * k + back);
  }

  /** Exponents that differ by whole turns stand for the same twiddle. */
  lemma SamePhase(tw: seq<Cpx>, a: nat, e: nat, b: nat, f: nat)
    requires 0 < |tw| && a * |tw| + e == b * |tw| + f
    ensures W(tw, e) == W(tw, f)
  {
    TwiddlePeriodic(tw, a, e);
    TwiddlePeriodic(tw, b, f);
  }

  lemma PhaseArithmetic(j: int, k: int, l: int, n: int, turns: int)
    ensures turns * n + k * (j - l) == j * k + (turns * n - k * l)
    ensures turns * n + k * (j + n - l) == k * n + (j * k + (turns * n - k * l))
  {}

  lemma {:induction false} SumOfOnes(tw: seq<Cpx>, n: nat)
    requires 0 < |tw| && tw[0] == One
    ensures Sum(Powers(tw, 0), n) == Cpx(n as real, 0.0)
  {
    if n != 0 {
      SumOfOnes(tw, n - 1);
      assert Powers(tw, 0)(n - 1) == W(tw, Angle(n - 1, 0, 1)) == One;
    }
  }

  /** The hypotheses on a twiddle table can be met: the table for four points. */
  lemma FourPointTable(inverse: bool)
    ensures IsTwiddleTable(FourPoints(inverse), inverse)
  {
    var tw := FourPoints(inverse);
    forall a, b | 0 <= a < 4 && 0 <= b < 4 ensures AnglesAdd(tw, a, b) {
      FourPointAngles(inverse, a, b);
    }
  }

  function FourPoints(inverse: bool): seq<Cpx> {
    [One, QuarterTurn(inverse), Cpx(-1.0, 0.0), Conj(QuarterTurn(inverse))]
  }

  lemma QuarterTurnPowers(inverse: bool)
    ensures var i, minus := QuarterTurn(inverse), Cpx(-1.0, 0.0);
            && Mul(i, i) == minus && Mul(i, minus) == Mul(minus, i) == Conj(i)
            && Mul(i, Conj(i)) == Mul(Conj(i), i) == One && Mul(minus, minus) == One
            && Mul(minus, Conj(i)) == Mul(Conj(i), minus) == i && Mul(Conj(i), Conj(i)) == minus
  {
    UnitProducts(if inverse then 1.0 else -1.0);
    hide Mul;
  }

  lemma UnitProducts(s: real)
    requires s * s == 1.0
    ensures var i, minus := Cpx(0.0, s), Cpx(-1.0, 0.0);
            && Mul(i, i) == minus && Mul(i, minus) == Mul(minus, i) == Conj(i)
            && Mul(i, Conj(i)) == Mul(Conj(i), i) == One && Mul(minus, minus) == One
            && Mul(minus, Conj(i)) == Mul(Conj(i), minus) == i && Mul(Conj(i), Conj(i)) == minus
  {}

  lemma FourPointAngles(inverse: bool, a: nat, b: nat)
    requires a < 4 && b < 4
    ensures AnglesAdd(FourPoints(inverse), a, b)
  {
    hide Mul, QuarterTurn;
    var tw := FourPoints(inverse);
    QuarterTurnPowers(inverse);
    MulOne(tw[a]);
    MulOne(tw[b]);
    if {
      case a == 0 => assert (a + b) % 4 == b;
      case b == 0 => assert (a + b) % 4 == a;
      case a == 1 && 0 < b => assert (a + b) % 4 == if b == 3 then 0 else b + 1;
      case a == 2 && 0 < b => assert (a + b) % 4 == if b == 1 then 3 else b - 2;
      case a == 3 && 0 < b => assert (a + b) % 4 == b - 1;
    }
  }
}
