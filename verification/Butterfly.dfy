/** The butterflies: what a combination step has to leave in the output buffer, and the
    algebra that lets radix 2, 3, 4 and 5 take short cuts. */
module Butterfly {
  import opened Arith
  import opened Complex
  import opened Fourier

  function At(F: seq<Cpx>, i: nat): Cpx {
    if i < |F| then F[i] else Zero
  }

  function OutTerms(F: seq<Cpx>, tw: seq<Cpx>, fstride: nat, m: nat, r: nat, u: nat): Signal
    requires 0 < |tw|
  {
    (q: nat) => Mul(At(F, Slot(q, u, m)), W(tw, Angle(q, Slot(r, u, m), fstride)))
  }

  /** Element r of column u of the recombination of p transforms of length m, laid end to
      end in F. Column u holds the elements u, u + m, u + 2*m, ... . */
  function Out(F: seq<Cpx>, tw: seq<Cpx>, fstride: nat, p: nat, m: nat, r: nat, u: nat): Cpx
    requires 0 < |tw|
  {
    Sum(OutTerms(F, tw, fstride, m, r, u), p)
  }

  /** F after its first u columns have been recombined. */
  function Recombined(F: seq<Cpx>, tw: seq<Cpx>, fstride: nat, p: nat, m: nat, u: nat): seq<Cpx>
    requires 0 < |tw| && 0 < m
  {
    seq(|F|, k requires 0 <= k < |F| => if k % m < u then Out(F, tw, fstride, p, m, k / m, k % m) else F[k])
  }

  lemma IndexInColumn(u: nat, q: nat, p: nat, m: nat)
    requires u < m && q < p
    ensures Slot(q, u, m) < p * m
    ensures Slot(q, u, m) % m == u && Slot(q, u, m) / m == q
  {
    MulMonotone(q + 1, p, m);
    DivModUnique(q * m + u, m, q, u);
  }

  lemma TwiddleIndexInTable(tw: seq<Cpx>, fstride: nat, p: nat, m: nat, u: nat, q: nat)
    requires Fits(tw, fstride, p, m)
    requires u < m && q < p
    ensures u * (q * fstride) == Angle(q, u, fstride) < |tw|
    ensures W(tw, Angle(q, u, fstride)) == tw[Angle(q, u, fstride)]
  {
    assert q * u * fstride < p * m * fstride by {
      MulMonotone(q, p, u);
      MulMonotone(u + 1, m, p);
      assert q * u <= p * u && (u + 1) * p == p * u + p;
      assert q * u + 1 <= p * m;
      MulMonotone(q * u + 1, p * m, fstride);
      assert (q * u + 1) * fstride == q * u * fstride + fstride;
    }
    assert u * (q * fstride) == q * u * fstride;
    SmallMod(q * u * fstride, |tw|);
  }

  /** Element q of column u of H is what the recombination of F requires there. */
  ghost predicate ColumnEntry(F: seq<Cpx>, tw: seq<Cpx>, fstride: nat, p: nat, m: nat, H: seq<Cpx>, u: nat, q: nat)
    requires 0 < |tw| && 0 < m
  {
    Slot(q, u, m) < |H| && H[Slot(q, u, m)] == Out(F, tw, fstride, p, m, q, u)
  }

  ghost predicate ColumnEntries(F: seq<Cpx>, tw: seq<Cpx>, fstride: nat, p: nat, m: nat, H: seq<Cpx>, u: nat)
    requires 0 < |tw| && 0 < m
  {
    forall q | 0 <= q < p :: ColumnEntry(F, tw, fstride, p, m, H, u, q)
  }

  lemma EntryOf(F: seq<Cpx>, tw: seq<Cpx>, fstride: nat, p: nat, m: nat, H: seq<Cpx>, u: nat, k: nat)
    requires 0 < |tw| && 0 < m && k < p * m && k % m == u
    requires ColumnEntries(F, tw, fstride, p, m, H, u)
    ensures k < |H| && H[k] == Out(F, tw, fstride, p, m, k / m, u)
  {
    hide Out, W, Mul;
    DivMod(k, m);
    if p <= k / m {
      MulMonotone(p, k / m, m);
    }
    assert ColumnEntry(F, tw, fstride, p, m, H, u, k / m);
  }

  /** Recombining one more column. */
  lemma ColumnDone(F: seq<Cpx>, tw: seq<Cpx>, fstride: nat, p: nat, m: nat, u: nat, H: seq<Cpx>)
    requires 0 < |tw| && u < m && |F| == p * m == |H|
    requires ColumnEntries(F, tw, fstride, p, m, H, u)
    requires forall k | 0 <= k < p * m && k % m != u :: H[k] == Recombined(F, tw, fstride, p, m, u)[k]
    ensures H == Recombined(F, tw, fstride, p, m, u + 1)
  {
    hide Out, W, Mul, ColumnEntries, ColumnEntry, Slot;
    forall k | 0 <= k < p * m ensures H[k] == Recombined(F, tw, fstride, p, m, u + 1)[k] {
      if k % m == u {
        EntryOf(F, tw, fstride, p, m, H, u, k);
      }
    }
  }

  lemma AllColumns(F: seq<Cpx>, tw: seq<Cpx>, fstride: nat, p: nat, m: nat)
    requires 0 < |tw| && 0 < m
    ensures Recombined(F, tw, fstride, p, m, 0) == F
    ensures forall k | 0 <= k < |F| :: Recombined(F, tw, fstride, p, m, m)[k] == Out(F, tw, fstride, p, m, k / m, k % m)
  {
    hide Out, W, Mul;
  }

  // ----- one column: a DFT of p twisted samples -----

  /** Sample q of column u, turned by its twiddle. */
  function Twist(F: seq<Cpx>, tw: seq<Cpx>, fstride: nat, m: nat, u: nat, q: nat): Cpx
    requires 0 < |tw|
  {
    Mul(At(F, Slot(q, u, m)), W(tw, Angle(q, u, fstride)))
  }

  /** The p-th roots of unity are every (m * fstride)-th entry of the table. */
  function Root(tw: seq<Cpx>, fstride: nat, m: nat, e: nat): Cpx
    requires 0 < |tw|
  {
    W(tw, e * (m * fstride))
  }

  function Turn(q: nat, r: nat, p: nat): nat
    requires 0 < p
  {
    (q * r) % p
  }

  function ColumnTerms(F: seq<Cpx>, tw: seq<Cpx>, fstride: nat, p: nat, m: nat, u: nat, r: nat): Signal
    requires 0 < |tw| && 0 < m && 0 < p
  {
    (q: nat) => Mul(Twist(F, tw, fstride, m, u, q), Root(tw, fstride, m, Turn(q, r, p)))
  }

  lemma ColumnIsSmallDft(F: seq<Cpx>, tw: seq<Cpx>, inverse: bool, fstride: nat, p: nat, m: nat, u: nat, r: nat)
    requires IsTwiddleTable(tw, inverse) && Fits(tw, fstride, p, m)
    requires u < m && r < p
    ensures Out(F, tw, fstride, p, m, r, u) == Sum(ColumnTerms(F, tw, fstride, p, m, u, r), p)
  {
    FitsHasTable(tw, fstride, p, m);
    hide W, Mul, Sum, IsTwiddleTable, At, Fits, Slot, Angle, Turn, Root;
    forall q: nat | q < p
      ensures OutTerms(F, tw, fstride, m, r, u)(q) == ColumnTerms(F, tw, fstride, p, m, u, r)(q)
    {
      ColumnTerm(F, tw, inverse, fstride, p, m, u, r, q);
    }
    SumCongruence(OutTerms(F, tw, fstride, m, r, u), ColumnTerms(F, tw, fstride, p, m, u, r), p);
  }

  lemma ColumnTerm(F: seq<Cpx>, tw: seq<Cpx>, inverse: bool, fstride: nat, p: nat, m: nat, u: nat, r: nat, q: nat)
    requires IsTwiddleTable(tw, inverse) && Fits(tw, fstride, p, m)
    requires u < m && r < p
    ensures OutTerms(F, tw, fstride, m, r, u)(q) == ColumnTerms(F, tw, fstride, p, m, u, r)(q)
  {
    FitsHasTable(tw, fstride, p, m);
    hide W, Mul, IsTwiddleTable, At, Root, Fits, Angle, Slot, Turn;
    TwistSplits(tw, inverse, fstride, p, m, u, r, q);
    MulAssociates(At(F, Slot(q, u, m)), W(tw, Angle(q, u, fstride)), Root(tw, fstride, m, Turn(q, r, p)));
    assert Twist(F, tw, fstride, m, u, q) == Mul(At(F, Slot(q, u, m)), W(tw, Angle(q, u, fstride)));
    assert ColumnTerms(F, tw, fstride, p, m, u, r)(q) ==
           Mul(Twist(F, tw, fstride, m, u, q), Root(tw, fstride, m, Turn(q, r, p)));
  }

  lemma TwistSplits(tw: seq<Cpx>, inverse: bool, fstride: nat, p: nat, m: nat, u: nat, r: nat, q: nat)
    requires IsTwiddleTable(tw, inverse) && Fits(tw, fstride, p, m)
    ensures W(tw, Angle(q, Slot(r, u, m), fstride)) ==
            Mul(W(tw, Angle(q, u, fstride)), Root(tw, fstride, m, Turn(q, r, p)))
  {
    FitsHasTable(tw, fstride, p, m);
    hide W, Mul, IsTwiddleTable, Fits, Angle, Slot;
    RootPeriodic(tw, fstride, p, m, q * r);
    TermExponent(q, r, m, u, fstride);
    TwiddleAdds(tw, inverse, Angle(q, u, fstride), (q * r) * (m * fstride));
  }

  lemma TermExponent(q: nat, r: nat, m: nat, u: nat, s: nat)
    ensures Angle(q, Slot(r, u, m), s) == Angle(q, u, s) + (q * r) * (m * s)
  {}

  lemma RootPeriodic(tw: seq<Cpx>, fstride: nat, p: nat, m: nat, e: nat)
    requires Fits(tw, fstride, p, m)
    ensures 0 < |tw| && Root(tw, fstride, m, e) == Root(tw, fstride, m, e % p)
  {
    assert 0 < |tw| by { assert p * m > 0; }
    hide W;
    DivMod(e, p);
    assert e * (m * fstride) == (e / p) * |tw| + (e % p) * (m * fstride) by {
      TurnsOut(e, p, m * fstride, e / p, e % p);
    }
    TwiddlePeriodic(tw, e / p, (e % p) * (m * fstride));
  }

  lemma TurnsOut(e: int, p: int, step: int, d: int, r: int)
    requires e == d * p + r
    ensures e * step == d * (p * step) + r * step
  {}

  // ----- roots of unity for the special radices -----

  lemma RootIsTableEntry(tw: seq<Cpx>, fstride: nat, p: nat, m: nat, e: nat)
    requires Fits(tw, fstride, p, m) && e < p
    ensures 0 < |tw| && e * (m * fstride) < |tw|
    ensures Root(tw, fstride, m, e) == tw[e * (m * fstride)]
    ensures 0 < e ==> 0 < e * (m * fstride) && (p - e) * (m * fstride) == |tw| - e * (m * fstride)
  {
    var step := m * fstride;
    assert 0 < step && p * step == |tw|;
    assert e * step < |tw| by {
      MulMonotone(e + 1, p, step);
      assert (e + 1) * step == e * step + step;
    }
    SmallMod(e * step, |tw|);
    if 0 < e {
      MulMonotone(1, e, step);
      assert (p - e) * step == |tw| - e * step;
    }
  }

  lemma RootTurnsBack(tw: seq<Cpx>, inverse: bool, fstride: nat, p: nat, m: nat, e: nat)
    requires IsTwiddleTable(tw, inverse) && Fits(tw, fstride, p, m)
    requires 0 < e < p
    ensures Root(tw, fstride, m, p - e) == Conj(Root(tw, fstride, m, e))
    ensures Root(tw, fstride, m, e) != One
  {
    hide Mul, W;
    RootIsTableEntry(tw, fstride, p, m, e);
    RootIsTableEntry(tw, fstride, p, m, p - e);
    assert TurnsBack(tw, e * (m * fstride));
  }

  lemma RootsMultiply(tw: seq<Cpx>, inverse: bool, fstride: nat, m: nat, e: nat, f: nat)
    requires IsTwiddleTable(tw, inverse)
    ensures Root(tw, fstride, m, e + f) == Mul(Root(tw, fstride, m, e), Root(tw, fstride, m, f))
  {
    hide Mul, W;
    assert (e + f) * (m * fstride) == e * (m * fstride) + f * (m * fstride);
    TwiddleAdds(tw, inverse, e * (m * fstride), f * (m * fstride));
  }

  lemma RootZero(tw: seq<Cpx>, inverse: bool, fstride: nat, m: nat)
    requires IsTwiddleTable(tw, inverse)
    ensures Root(tw, fstride, m, 0) == One
  {
    SmallMod(0, |tw|);
  }

  /** A square root of one that is not one is minus one. */
  lemma MinusOne(w: Cpx)
    requires Mul(w, w) == One && w != One
    ensures w == Cpx(-1.0, 0.0)
  {
    assert Mul(Sub(w, One), Add(w, One)) == Zero;
    NoZeroDivisors(Sub(w, One), Add(w, One));
  }

  lemma Radix2Roots(tw: seq<Cpx>, inverse: bool, fstride: nat, m: nat)
    requires IsTwiddleTable(tw, inverse) && Fits(tw, fstride, 2, m)
    ensures Root(tw, fstride, m, 0) == One && Root(tw, fstride, m, 1) == Cpx(-1.0, 0.0)
  {
    hide Root, Mul, W, IsTwiddleTable;
    RootZero(tw, inverse, fstride, m);
    RootsMultiply(tw, inverse, fstride, m, 1, 1);
    RootPeriodic(tw, fstride, 2, m, 2);
    RootTurnsBack(tw, inverse, fstride, 2, m, 1);
    MinusOne(Root(tw, fstride, m, 1));
  }

  /** A cube root of one that is not one has real part -1/2. */
  lemma HalfTurnBack(w: Cpx)
    requires Mul(w, w) == Conj(w) && w != One && Mul(w, Conj(w)) == One
    ensures w.re == -0.5
  {
    var total := Add(Add(One, w), Conj(w));
    assert Mul(Sub(w, One), total) == Zero by {
      assert Mul(Sub(w, One), total) ==
             Sub(Add(Add(w, Mul(w, w)), Mul(w, Conj(w))), total);
    }
    NoZeroDivisors(Sub(w, One), total);
  }

  lemma Radix3Roots(tw: seq<Cpx>, inverse: bool, fstride: nat, m: nat)
    requires IsTwiddleTable(tw, inverse) && Fits(tw, fstride, 3, m)
    ensures Root(tw, fstride, m, 0) == One
    ensures Root(tw, fstride, m, 2) == Conj(Root(tw, fstride, m, 1))
    ensures Root(tw, fstride, m, 1).re == -0.5
  {
    hide Root, Mul, W, IsTwiddleTable;
    RootZero(tw, inverse, fstride, m);
    RootsMultiply(tw, inverse, fstride, m, 1, 1);
    RootsMultiply(tw, inverse, fstride, m, 1, 2);
    RootPeriodic(tw, fstride, 3, m, 3);
    RootTurnsBack(tw, inverse, fstride, 3, m, 1);
    HalfTurnBack(Root(tw, fstride, m, 1));
  }

  lemma Radix4Roots(tw: seq<Cpx>, inverse: bool, fstride: nat, m: nat)
    requires IsTwiddleTable(tw, inverse) && Fits(tw, fstride, 4, m)
    ensures Root(tw, fstride, m, 0) == One
    ensures Root(tw, fstride, m, 1) == QuarterTurn(inverse)
    ensures Root(tw, fstride, m, 2) == Cpx(-1.0, 0.0)
    ensures Root(tw, fstride, m, 3) == Conj(QuarterTurn(inverse))
  {
    hide Mul, W, QuarterTurn;
    RootZero(tw, inverse, fstride, m);
    RootIsTableEntry(tw, fstride, 4, m, 1);
    assert m * fstride == |tw| / 4;
    hide Root, IsTwiddleTable;
    RootTurnsBack(tw, inverse, fstride, 4, m, 1);
    RootsMultiply(tw, inverse, fstride, m, 1, 1);
    QuarterTurnPowers(inverse);
  }

  lemma Radix5Roots(tw: seq<Cpx>, inverse: bool, fstride: nat, m: nat)
    requires IsTwiddleTable(tw, inverse) && Fits(tw, fstride, 5, m)
    ensures Root(tw, fstride, m, 0) == One
    ensures Root(tw, fstride, m, 3) == Conj(Root(tw, fstride, m, 2))
    ensures Root(tw, fstride, m, 4) == Conj(Root(tw, fstride, m, 1))
  {
    RootZero(tw, inverse, fstride, m);
    RootTurnsBack(tw, inverse, fstride, 5, m, 1);
    RootTurnsBack(tw, inverse, fstride, 5, m, 2);
  }

  // ----- the short cuts -----

  /** Three twisted samples recombined with one scalar multiplication. */
  function Fan3(t0: Cpx, t1: Cpx, t2: Cpx, epi3: Cpx): (out: seq<Cpx>)
    ensures |out| == 3
  {
    var sum, diff := Add(t1, t2), Scale(Sub(t1, t2), epi3.im);
    var mid := Sub(t0, Scale(sum, 0.5));
    [Add(t0, sum),
     Cpx(mid.re - diff.im, mid.im + diff.re),
     Cpx(mid.re + diff.im, mid.im - diff.re)]
  }

  /** Four twisted samples recombined without multiplications. */
  function Fan4(t0: Cpx, t1: Cpx, t2: Cpx, t3: Cpx, inverse: bool): (out: seq<Cpx>)
    ensures |out| == 4
  {
    var even, odd := Sub(t0, t2), Sub(t1, t3);
    var total, sum := Add(t0, t2), Add(t1, t3);
    var plus, minus := Cpx(even.re - odd.im, even.im + odd.re), Cpx(even.re + odd.im, even.im - odd.re);
    [Add(total, sum),
     if inverse then plus else minus,
     Sub(total, sum),
     if inverse then minus else plus]
  }

  /** Five twisted samples recombined with the real and imaginary parts of two roots. */
  function Fan5(t0: Cpx, t1: Cpx, t2: Cpx, t3: Cpx, t4: Cpx, ya: Cpx, yb: Cpx): (out: seq<Cpx>)
    ensures |out| == 5
  {
    var s7, s10 := Add(t1, t4), Sub(t1, t4);
    var s8, s9 := Add(t2, t3), Sub(t2, t3);
    var s5 := Cpx(t0.re + s7.re * ya.re + s8.re * yb.re, t0.im + s7.im * ya.re + s8.im * yb.re);
    var s6 := Cpx(s10.im * ya.im + s9.im * yb.im, -(s10.re * ya.im) - s9.re * yb.im);
    var s11 := Cpx(t0.re + s7.re * yb.re + s8.re * ya.re, t0.im + s7.im * yb.re + s8.im * ya.re);
    var s12 := Cpx(-(s10.im * yb.im) + s9.im * ya.im, s10.re * yb.im - s9.re * ya.im);
    [Cpx(t0.re + (s7.re + s8.re), t0.im + (s7.im + s8.im)),
     Sub(s5, s6), Add(s11, s12), Sub(s11, s12), Add(s5, s6)]
  }

  function Add3(a: Cpx, b: Cpx, c: Cpx): Cpx {
    Add(Add(a, b), c)
  }

  function Add4(a: Cpx, b: Cpx, c: Cpx, d: Cpx): Cpx {
    Add(Add3(a, b, c), d)
  }

  function Add5(a: Cpx, b: Cpx, c: Cpx, d: Cpx, e: Cpx): Cpx {
    Add(Add4(a, b, c, d), e)
  }

  lemma SmallSums(g: Signal)
    ensures Sum(g, 2) == Add(g(0), g(1))
    ensures Sum(g, 3) == Add3(g(0), g(1), g(2))
    ensures Sum(g, 4) == Add4(g(0), g(1), g(2), g(3))
    ensures Sum(g, 5) == Add5(g(0), g(1), g(2), g(3), g(4))
  {
    assert Sum(g, 1) == Add(Sum(g, 0), g(0)) == g(0);
    assert Sum(g, 3) == Add(Sum(g, 2), g(2));
    assert Sum(g, 4) == Add(Sum(g, 3), g(3));
    assert Sum(g, 5) == Add(Sum(g, 4), g(4));
  }

  lemma Fan3Correct(t0: Cpx, t1: Cpx, t2: Cpx, w: Cpx)
    requires w.re == -0.5
    ensures var out := Fan3(t0, t1, t2, w);
            && out[0] == Add3(t0, t1, t2)
            && out[1] == Add3(t0, Mul(t1, w), Mul(t2, Conj(w)))
            && out[2] == Add3(t0, Mul(t1, Conj(w)), Mul(t2, w))
  {
    PairIsProducts(t1, t2, w);
    PairBackIsProducts(t1, t2, w);
    hide Mul;
  }

  /** A turn by a quarter or a half needs no multiplication. */
  lemma QuarterProducts(a: Cpx, inverse: bool)
    ensures var i := QuarterTurn(inverse); var turned := Cpx(-a.im, a.re);
            && Mul(a, i) == (if inverse then turned else Cpx(a.im, -a.re))
            && Mul(a, Conj(i)) == (if inverse then Cpx(a.im, -a.re) else turned)
            && Mul(a, Cpx(-1.0, 0.0)) == Cpx(-a.re, -a.im)
  {}

  lemma Fan4Correct(t0: Cpx, t1: Cpx, t2: Cpx, t3: Cpx, inverse: bool)
    ensures var out, i, minus := Fan4(t0, t1, t2, t3, inverse), QuarterTurn(inverse), Cpx(-1.0, 0.0);
            && out[0] == Add4(t0, t1, t2, t3)
            && out[1] == Add4(t0, Mul(t1, i), Mul(t2, minus), Mul(t3, Conj(i)))
            && out[2] == Add4(t0, Mul(t1, minus), t2, Mul(t3, minus))
            && out[3] == Add4(t0, Mul(t1, Conj(i)), Mul(t2, minus), Mul(t3, i))
  {
    hide Mul, QuarterTurn;
    QuarterProducts(t1, inverse);
    QuarterProducts(t2, inverse);
    QuarterProducts(t3, inverse);
  }

  /** a * y + b * Conj(y), from the sum and the difference of a and b. */
  function Pair(a: Cpx, b: Cpx, y: Cpx): Cpx {
    var s, d := Add(a, b), Sub(a, b);
    Cpx(s.re * y.re - d.im * y.im, s.im * y.re + d.re * y.im)
  }

  /** a * Conj(y) + b * y. */
  function PairBack(a: Cpx, b: Cpx, y: Cpx): Cpx {
    var s, d := Add(a, b), Sub(a, b);
    Cpx(s.re * y.re + d.im * y.im, s.im * y.re - d.re * y.im)
  }

  lemma PairComponents(a: real, b: real, c: real, d: real, x: real, y: real)
    ensures (a + b) * x - (c - d) * y == (a * x - c * y) + (b * x - d * (-y))
    ensures (a + b) * x + (c - d) * y == (a * x - c * (-y)) + (b * x - d * y)
  {}

  lemma PairIsProducts(a: Cpx, b: Cpx, y: Cpx)
    ensures Add(Mul(a, y), Mul(b, Conj(y))) == Pair(a, b, y)
  {
    PairComponents(a.re, b.re, a.im, b.im, y.re, y.im);
    PairComponents(a.im, b.im, b.re, a.re, y.re, y.im);
  }

  lemma PairBackIsProducts(a: Cpx, b: Cpx, y: Cpx)
    ensures Add(Mul(a, Conj(y)), Mul(b, y)) == PairBack(a, b, y)
  {
    PairIsProducts(b, a, y);
    hide Mul;
    assert PairBack(a, b, y) == Pair(b, a, y);
  }

  lemma Fan5IsPairs(t0: Cpx, t1: Cpx, t2: Cpx, t3: Cpx, t4: Cpx, ya: Cpx, yb: Cpx)
    ensures var out := Fan5(t0, t1, t2, t3, t4, ya, yb);
            && out[1] == Add(t0, Add(Pair(t1, t4, ya), Pair(t2, t3, yb)))
            && out[2] == Add(t0, Add(Pair(t1, t4, yb), PairBack(t2, t3, ya)))
            && out[3] == Add(t0, Add(PairBack(t1, t4, yb), Pair(t2, t3, ya)))
            && out[4] == Add(t0, Add(PairBack(t1, t4, ya), PairBack(t2, t3, yb)))
  {
    Fan5OuterPairs(t0, t1, t2, t3, t4, ya, yb);
    Fan5Second(t0, t1, t2, t3, t4, ya, yb);
    Fan5Third(t0, t1, t2, t3, t4, ya, yb);
    hide Fan5, Add, Pair, PairBack;
  }

  lemma Fan5OuterPairs(t0: Cpx, t1: Cpx, t2: Cpx, t3: Cpx, t4: Cpx, ya: Cpx, yb: Cpx)
    ensures var out := Fan5(t0, t1, t2, t3, t4, ya, yb);
            && out[1] == Add(t0, Add(Pair(t1, t4, ya), Pair(t2, t3, yb)))
            && out[4] == Add(t0, Add(PairBack(t1, t4, ya), PairBack(t2, t3, yb)))
  {}

  lemma Fan5Second(t0: Cpx, t1: Cpx, t2: Cpx, t3: Cpx, t4: Cpx, ya: Cpx, yb: Cpx)
    ensures Fan5(t0, t1, t2, t3, t4, ya, yb)[2] == Add(t0, Add(Pair(t1, t4, yb), PairBack(t2, t3, ya)))
  {}

  lemma Fan5Third(t0: Cpx, t1: Cpx, t2: Cpx, t3: Cpx, t4: Cpx, ya: Cpx, yb: Cpx)
    ensures Fan5(t0, t1, t2, t3, t4, ya, yb)[3] == Add(t0, Add(PairBack(t1, t4, yb), Pair(t2, t3, ya)))
  {}

  lemma Regroup(t0: Cpx, a: Cpx, b: Cpx, c: Cpx, d: Cpx)
    ensures Add5(t0, a, b, c, d) == Add(t0, Add(Add(a, d), Add(b, c)))
  {}

  lemma Fan5Correct(t0: Cpx, t1: Cpx, t2: Cpx, t3: Cpx, t4: Cpx, ya: Cpx, yb: Cpx)
    ensures var out := Fan5(t0, t1, t2, t3, t4, ya, yb);
            && out[0] == Add5(t0, t1, t2, t3, t4)
            && out[1] == Add5(t0, Mul(t1, ya), Mul(t2, yb), Mul(t3, Conj(yb)), Mul(t4, Conj(ya)))
            && out[2] == Add5(t0, Mul(t1, yb), Mul(t2, Conj(ya)), Mul(t3, ya), Mul(t4, Conj(yb)))
            && out[3] == Add5(t0, Mul(t1, Conj(yb)), Mul(t2, ya), Mul(t3, Conj(ya)), Mul(t4, yb))
            && out[4] == Add5(t0, Mul(t1, Conj(ya)), Mul(t2, Conj(yb)), Mul(t3, yb), Mul(t4, ya))
  {
    hide Mul, Pair, PairBack;
    assert Fan5(t0, t1, t2, t3, t4, ya, yb)[0] == Add5(t0, t1, t2, t3, t4);
    hide Fan5, Add, Add5;
    Fan5IsPairs(t0, t1, t2, t3, t4, ya, yb);
    PairIsProducts(t1, t4, ya);
    PairIsProducts(t1, t4, yb);
    PairIsProducts(t2, t3, ya);
    PairIsProducts(t2, t3, yb);
    PairBackIsProducts(t1, t4, ya);
    PairBackIsProducts(t1, t4, yb);
    PairBackIsProducts(t2, t3, ya);
    PairBackIsProducts(t2, t3, yb);
    Regroup(t0, Mul(t1, ya), Mul(t2, yb), Mul(t3, Conj(yb)), Mul(t4, Conj(ya)));
    Regroup(t0, Mul(t1, yb), Mul(t2, Conj(ya)), Mul(t3, ya), Mul(t4, Conj(yb)));
    Regroup(t0, Mul(t1, Conj(yb)), Mul(t2, ya), Mul(t3, Conj(ya)), Mul(t4, yb));
    Regroup(t0, Mul(t1, Conj(ya)), Mul(t2, Conj(yb)), Mul(t3, yb), Mul(t4, ya));
  }

  // ----- each short cut is the general recombination of its column -----

  lemma TwistedSample(F: seq<Cpx>, tw: seq<Cpx>, fstride: nat, p: nat, m: nat, u: nat, q: nat, at: nat, e: nat)
    requires Fits(tw, fstride, p, m) && |F| == p * m
    requires u < m && q < p
    requires at == Slot(q, u, m) && e == u * (q * fstride)
    ensures at < |F| && e < |tw|
    ensures Twist(F, tw, fstride, m, u, q) == Mul(F[at], tw[e])
  {
    FitsHasTable(tw, fstride, p, m);
    hide Mul, W;
    TwiddleIndexInTable(tw, fstride, p, m, u, q);
    IndexInColumn(u, q, p, m);
  }

  lemma FirstSample(F: seq<Cpx>, tw: seq<Cpx>, inverse: bool, fstride: nat, p: nat, m: nat, u: nat)
    requires IsTwiddleTable(tw, inverse) && Fits(tw, fstride, p, m) && |F| == p * m
    requires u < m
    ensures u < |F| && Twist(F, tw, fstride, m, u, 0) == F[u]
  {
    TwistedSample(F, tw, fstride, p, m, u, 0, u, 0);
    hide Mul;
    MulOne(F[u]);
  }

  /** Term q of output r of column u, in a small transform of length p. */
  function Spoke(F: seq<Cpx>, tw: seq<Cpx>, fstride: nat, p: nat, m: nat, u: nat, r: nat, q: nat): Cpx
    requires 0 < |tw| && 0 < p
  {
    Mul(Twist(F, tw, fstride, m, u, q), Root(tw, fstride, m, Turn(q, r, p)))
  }

  /** Output r of the column, as a sum over roots of unity. */
  lemma ColumnUnrolled(F: seq<Cpx>, tw: seq<Cpx>, inverse: bool, fstride: nat, p: nat, m: nat, u: nat, r: nat)
    requires IsTwiddleTable(tw, inverse) && Fits(tw, fstride, p, m)
    requires u < m && r < p && 0 < |tw|
    ensures var out := Out(F, tw, fstride, p, m, r, u);
            var s0, s1 := Spoke(F, tw, fstride, p, m, u, r, 0), Spoke(F, tw, fstride, p, m, u, r, 1);
            var s2, s3 := Spoke(F, tw, fstride, p, m, u, r, 2), Spoke(F, tw, fstride, p, m, u, r, 3);
            && (p == 2 ==> out == Add(s0, s1))
            && (p == 3 ==> out == Add3(s0, s1, s2))
            && (p == 4 ==> out == Add4(s0, s1, s2, s3))
            && (p == 5 ==> out == Add5(s0, s1, s2, s3, Spoke(F, tw, fstride, p, m, u, r, 4)))
  {
    FitsHasTable(tw, fstride, p, m);
    hide Mul, W, IsTwiddleTable, Fits, Root, Turn, Out, Sum, Twist, Add, Add3, Add4, Add5;
    ColumnIsSmallDft(F, tw, inverse, fstride, p, m, u, r);
    SmallSums(ColumnTerms(F, tw, fstride, p, m, u, r));
  }

  /** col is what the recombination of F requires in column u. */
  ghost predicate IsOutColumn(F: seq<Cpx>, tw: seq<Cpx>, fstride: nat, p: nat, m: nat, u: nat, col: seq<Cpx>)
    requires 0 < |tw|
  {
    |col| == p && forall r | 0 <= r < p :: col[r] == Out(F, tw, fstride, p, m, r, u)
  }

  lemma Radix2Column(F: seq<Cpx>, tw: seq<Cpx>, inverse: bool, fstride: nat, m: nat, u: nat)
    requires IsTwiddleTable(tw, inverse) && Fits(tw, fstride, 2, m)
    requires u < m && 0 < |tw|
    ensures var t0, t1 := Twist(F, tw, fstride, m, u, 0), Twist(F, tw, fstride, m, u, 1);
            IsOutColumn(F, tw, fstride, 2, m, u, [Add(t0, t1), Sub(t0, t1)])
  {
    hide Mul, W, IsTwiddleTable, Fits, Root, Out, Twist;
    Radix2Roots(tw, inverse, fstride, m);
    ColumnUnrolled(F, tw, inverse, fstride, 2, m, u, 0);
    ColumnUnrolled(F, tw, inverse, fstride, 2, m, u, 1);
    var t0, t1 := Twist(F, tw, fstride, m, u, 0), Twist(F, tw, fstride, m, u, 1);
    MulOne(t0);
    MulOne(t1);
    MulMinusOne(t1);
  }

  lemma MulMinusOne(a: Cpx)
    ensures Mul(a, Cpx(-1.0, 0.0)) == Cpx(-a.re, -a.im)
  {}

  lemma Radix3Column(F: seq<Cpx>, tw: seq<Cpx>, inverse: bool, fstride: nat, m: nat, u: nat)
    requires IsTwiddleTable(tw, inverse) && Fits(tw, fstride, 3, m)
    requires u < m && 0 < |tw|
    ensures var t0, t1 := Twist(F, tw, fstride, m, u, 0), Twist(F, tw, fstride, m, u, 1);
            var t2 := Twist(F, tw, fstride, m, u, 2);
            IsOutColumn(F, tw, fstride, 3, m, u, Fan3(t0, t1, t2, Root(tw, fstride, m, 1)))
  {
    hide Mul, W, IsTwiddleTable, Fits, Root, Out, Twist, Fan3, Add3;
    Radix3Roots(tw, inverse, fstride, m);
    ColumnUnrolled(F, tw, inverse, fstride, 3, m, u, 0);
    ColumnUnrolled(F, tw, inverse, fstride, 3, m, u, 1);
    ColumnUnrolled(F, tw, inverse, fstride, 3, m, u, 2);
    var t0, t1 := Twist(F, tw, fstride, m, u, 0), Twist(F, tw, fstride, m, u, 1);
    var t2 := Twist(F, tw, fstride, m, u, 2);
    MulOne(t0);
    MulOne(t1);
    MulOne(t2);
    Fan3Correct(t0, t1, t2, Root(tw, fstride, m, 1));
  }

  lemma Radix4Column(F: seq<Cpx>, tw: seq<Cpx>, inverse: bool, fstride: nat, m: nat, u: nat)
    requires IsTwiddleTable(tw, inverse) && Fits(tw, fstride, 4, m)
    requires u < m && 0 < |tw|
    ensures var t0, t1 := Twist(F, tw, fstride, m, u, 0), Twist(F, tw, fstride, m, u, 1);
            var t2, t3 := Twist(F, tw, fstride, m, u, 2), Twist(F, tw, fstride, m, u, 3);
            IsOutColumn(F, tw, fstride, 4, m, u, Fan4(t0, t1, t2, t3, inverse))
  {
    hide Mul, W, IsTwiddleTable, Fits, Root, Out, Twist, Fan4, Add4, QuarterTurn;
    Radix4Roots(tw, inverse, fstride, m);
    ColumnUnrolled(F, tw, inverse, fstride, 4, m, u, 0);
    ColumnUnrolled(F, tw, inverse, fstride, 4, m, u, 1);
    ColumnUnrolled(F, tw, inverse, fstride, 4, m, u, 2);
    ColumnUnrolled(F, tw, inverse, fstride, 4, m, u, 3);
    var t0, t1 := Twist(F, tw, fstride, m, u, 0), Twist(F, tw, fstride, m, u, 1);
    var t2, t3 := Twist(F, tw, fstride, m, u, 2), Twist(F, tw, fstride, m, u, 3);
    MulOne(t0);
    MulOne(t1);
    MulOne(t2);
    MulOne(t3);
    Fan4Correct(t0, t1, t2, t3, inverse);
  }

  lemma Radix5Column(F: seq<Cpx>, tw: seq<Cpx>, inverse: bool, fstride: nat, m: nat, u: nat)
    requires IsTwiddleTable(tw, inverse) && Fits(tw, fstride, 5, m)
    requires u < m && 0 < |tw|
    ensures var t0, t1 := Twist(F, tw, fstride, m, u, 0), Twist(F, tw, fstride, m, u, 1);
            var t2, t3 := Twist(F, tw, fstride, m, u, 2), Twist(F, tw, fstride, m, u, 3);
            var t4 := Twist(F, tw, fstride, m, u, 4);
            IsOutColumn(F, tw, fstride, 5, m, u,
                        Fan5(t0, t1, t2, t3, t4, Root(tw, fstride, m, 1), Root(tw, fstride, m, 2)))
  {
    hide Mul, W, IsTwiddleTable, Fits, Root, Out, Twist, Fan5, Add5;
    Radix5Roots(tw, inverse, fstride, m);
    ColumnUnrolled(F, tw, inverse, fstride, 5, m, u, 0);
    ColumnUnrolled(F, tw, inverse, fstride, 5, m, u, 1);
    ColumnUnrolled(F, tw, inverse, fstride, 5, m, u, 2);
    ColumnUnrolled(F, tw, inverse, fstride, 5, m, u, 3);
    ColumnUnrolled(F, tw, inverse, fstride, 5, m, u, 4);
    var t0, t1 := Twist(F, tw, fstride, m, u, 0), Twist(F, tw, fstride, m, u, 1);
    var t2, t3 := Twist(F, tw, fstride, m, u, 2), Twist(F, tw, fstride, m, u, 3);
    var t4 := Twist(F, tw, fstride, m, u, 4);
    MulOne(t0);
    MulOne(t1);
    MulOne(t2);
    MulOne(t3);
    MulOne(t4);
    Fan5Correct(t0, t1, t2, t3, t4, Root(tw, fstride, m, 1), Root(tw, fstride, m, 2));
  }
}
