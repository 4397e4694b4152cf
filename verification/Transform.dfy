/** kf_work: the recursion over the factor list, and the user-level transform. */
module Transform {
  import opened Basics
  import opened Arith
  import opened Complex
  import opened Fourier
  import opened Butterfly
  import opened KissFft
  import opened Factor

  /** p1, m1, p2, m2, ...: p1 * m1 is the length, p2 * m2 is m1, and so on down to one. */
  predicate ValidFactors(factors: seq<nat>, n: nat)
    decreases |factors|
  {
    && 2 <= |factors|
    && 0 < factors[0] && 0 < factors[1] && factors[0] * factors[1] == n
    && (factors[1] != 1 ==> ValidFactors(factors[2..], factors[1]))
  }

  /** Every step-th element of s, starting at off. */
  function Samples(s: seq<Cpx>, off: nat, step: nat): Signal {
    (j: nat) => At(s, off + j * step)
  }

  lemma DftCongruence(x: Signal, y: Signal, tw: seq<Cpx>, fstride: nat, n: nat, k: nat)
    requires 0 < |tw|
    requires forall j: nat | j < n :: x(j) == y(j)
    ensures Dft(x, tw, fstride, n, k) == Dft(y, tw, fstride, n, k)
  {
    hide Mul, W, Angle;
    SumCongruence(DftTerms(x, tw, fstride, k), DftTerms(y, tw, fstride, k), n);
  }

  lemma DftOfOne(x: Signal, tw: seq<Cpx>, inverse: bool, fstride: nat)
    requires IsTwiddleTable(tw, inverse)
    ensures Dft(x, tw, fstride, 1, 0) == x(0)
  {
    var g := DftTerms(x, tw, fstride, 0);
    SmallMod(0, |tw|);
    assert g(0) == Mul(x(0), One);
    hide Mul;
    MulOne(x(0));
    assert Sum(g, 1) == Add(Sum(g, 0), g(0));
  }

  /** Sub-transform q, over every p-th sample of x, lies at q * m. */
  ghost predicate SubTransform(F: seq<Cpx>, base: nat, x: Signal, tw: seq<Cpx>, fstride: nat, p: nat, m: nat, q: nat)
    requires 0 < |tw|
  {
    forall r: nat | r < m :: SubOutput(F, base, x, tw, fstride, p, m, q, r)
  }

  ghost predicate SubOutput(F: seq<Cpx>, base: nat, x: Signal, tw: seq<Cpx>, fstride: nat, p: nat, m: nat,
                            q: nat, r: nat)
    requires 0 < |tw|
  {
    base + Slot(q, r, m) < |F| &&
    F[base + Slot(q, r, m)] == Dft(Decimated(x, q, p), tw, Finer(fstride, p), m, r)
  }

  /** Recombining p sub-transforms gives the whole transform. */
  lemma RecombinedIsDft(F: seq<Cpx>, x: Signal, tw: seq<Cpx>, inverse: bool, fstride: nat, p: nat, m: nat, k: nat)
    requires IsTwiddleTable(tw, inverse) && Fits(tw, fstride, p, m) && |F| == p * m && k < p * m
    requires 0 < |tw| && 0 < m
    requires forall q: nat | q < p :: SubTransform(F, 0, x, tw, fstride, p, m, q)
    ensures Out(F, tw, fstride, p, m, k / m, k % m) == Dft(x, tw, fstride, p * m, k)
  {
    hide Mul, W, Angle, Slot, Finer, Dft, Sum, IsTwiddleTable, Fits;
    var d, u := k / m, k % m;
    assert 0 <= u < m;
    forall q: nat | q < p
      ensures OutTerms(F, tw, fstride, m, d, u)(q) == CombineTerms(x, tw, fstride, p, m, d, u)(q)
    {
      assert SubTransform(F, 0, x, tw, fstride, p, m, q);
      assert SubOutput(F, 0, x, tw, fstride, p, m, q, u);
      OutTermValue(F, x, tw, fstride, p, m, d, u, q);
    }
    SumCongruence(OutTerms(F, tw, fstride, m, d, u), CombineTerms(x, tw, fstride, p, m, d, u), p);
    DecimationInTime(x, tw, inverse, fstride, p, m, d, u);
    SlotOf(k, m);
  }

  lemma SlotOf(k: nat, m: nat)
    requires 0 < m
    ensures Slot(k / m, k % m, m) == k
  {
    DivMod(k, m);
  }

  lemma OutTermValue(F: seq<Cpx>, x: Signal, tw: seq<Cpx>, fstride: nat, p: nat, m: nat, d: nat, u: nat, q: nat)
    requires 0 < |tw| && SubOutput(F, 0, x, tw, fstride, p, m, q, u)
    ensures OutTerms(F, tw, fstride, m, d, u)(q) == CombineTerms(x, tw, fstride, p, m, d, u)(q)
  {
    hide Mul, W, Angle, Slot, Finer, Dft;
  }

  // ----- the recursion -----

  /** The transform of x has been written to the n places from base on, and nothing else
      has changed. */
  ghost predicate Transformed(before: seq<Cpx>, now: seq<Cpx>, base: nat, x: Signal, tw: seq<Cpx>, fstride: nat, n: nat)
    requires 0 < |tw|
  {
    && base + n <= |before| == |now|
    && now[..base] == before[..base]
    && now[base + n..] == before[base + n..]
    && forall k: nat | k < n :: now[base + k] == Dft(x, tw, fstride, n, k)
  }

  /** The first count sub-transforms are in place. */
  ghost predicate Laid(before: seq<Cpx>, now: seq<Cpx>, base: nat, x: Signal, tw: seq<Cpx>, fstride: nat,
                       p: nat, m: nat, count: nat)
    requires 0 < |tw|
  {
    && base + count * m <= |before| == |now|
    && now[..base] == before[..base]
    && now[base + count * m..] == before[base + count * m..]
    && forall q: nat | q < count :: SubTransform(now, base, x, tw, fstride, p, m, q)
  }

  lemma LaidNothing(before: seq<Cpx>, base: nat, x: Signal, tw: seq<Cpx>, fstride: nat, p: nat, m: nat)
    requires 0 < |tw| && base <= |before|
    ensures Laid(before, before, base, x, tw, fstride, p, m, 0)
  {}

  /** One more sub-transform, computed over the samples that start step further on. */
  lemma LaidOneMore(before: seq<Cpx>, mid: seq<Cpx>, now: seq<Cpx>, base: nat, s: seq<Cpx>, off: nat, step: nat,
                    tw: seq<Cpx>, fstride: nat, p: nat, m: nat, count: nat, at: nat)
    requires 0 < |tw| && 0 < m
    requires Laid(before, mid, base, Samples(s, off, step), tw, fstride, p, m, count)
    requires at == base + count * m
    requires Transformed(mid, now, at, Samples(s, off + count * step, step * p), tw, Finer(fstride, p), m)
    ensures Laid(before, now, base, Samples(s, off, step), tw, fstride, p, m, count + 1)
  {
    hide Dft, Slot, Samples, Finer;
    var x, y := Samples(s, off, step), Samples(s, off + count * step, step * p);
    assert (count + 1) * m == count * m + m;
    forall q: nat | q < count + 1 ensures SubTransform(now, base, x, tw, fstride, p, m, q) {
      forall r: nat | r < m ensures SubOutput(now, base, x, tw, fstride, p, m, q, r) {
        if q < count {
          assert SubTransform(mid, base, x, tw, fstride, p, m, q);
          assert SubOutput(mid, base, x, tw, fstride, p, m, q, r);
          IndexInColumn(r, q, count, m);
          assert now[..at][base + Slot(q, r, m)] == mid[..at][base + Slot(q, r, m)];
        } else {
          SlotIs(count, r, m);
          SamplesDecimated(s, off, step, p, count);
          DftCongruence(y, Decimated(x, count, p), tw, Finer(fstride, p), m, r);
          assert now[at + r] == Dft(y, tw, Finer(fstride, p), m, r);
        }
      }
    }
    assert now[..base] == now[..at][..base] == mid[..at][..base];
    assert now[at + m..] == mid[at..][m..] == before[at..][m..];
  }

  lemma SlotIs(q: nat, r: nat, m: nat)
    ensures Slot(q, r, m) == q * m + r
  {}

  lemma SamplesDecimated(s: seq<Cpx>, off: nat, step: nat, p: nat, q: nat)
    ensures forall j: nat :: Samples(s, off + q * step, step * p)(j) == Decimated(Samples(s, off, step), q, p)(j)
  {
    forall j: nat ensures Samples(s, off + q * step, step * p)(j) == Decimated(Samples(s, off, step), q, p)(j) {
      SameSample(off, step, p, q, j);
    }
  }

  lemma SameSample(off: nat, step: nat, p: nat, q: nat, j: nat)
    ensures off + q * step + j * (step * p) == off + Slot(j, q, p) * step
  {}

  /** All sub-transforms in place and recombined: the whole transform. */
  lemma StageIsTransform(before: seq<Cpx>, mid: seq<Cpx>, now: seq<Cpx>, base: nat, x: Signal, tw: seq<Cpx>,
                         inverse: bool, fstride: nat, p: nat, m: nat)
    requires IsTwiddleTable(tw, inverse) && Fits(tw, fstride, p, m) && 0 < |tw| && 0 < m
    requires Laid(before, mid, base, x, tw, fstride, p, m, p)
    requires Stage(mid, now, base, tw, fstride, p, m, m)
    ensures Transformed(before, now, base, x, tw, fstride, p * m)
  {
    hide Dft, Out, IsTwiddleTable, Fits, Slot;
    var F := mid[base..base + p * m];
    forall q: nat | q < p ensures SubTransform(F, 0, x, tw, fstride, p, m, q) {
      assert SubTransform(mid, base, x, tw, fstride, p, m, q);
      forall r: nat | r < m ensures SubOutput(F, 0, x, tw, fstride, p, m, q, r) {
        assert SubOutput(mid, base, x, tw, fstride, p, m, q, r);
        IndexInColumn(r, q, p, m);
      }
    }
    AllColumns(F, tw, fstride, p, m);
    forall k: nat | k < p * m ensures now[base + k] == Dft(x, tw, fstride, p * m, k) {
      RecombinedIsDft(F, x, tw, inverse, fstride, p, m, k);
      assert now[base + k] == now[base..base + p * m][k];
    }
  }

  /** The stage at this level of the recursion fits the table, the output and the input. */
  ghost predicate CanWork(outLength: nat, base: nat, inLength: nat, off: nat, fstride: nat, inStride: nat,
                          factors: seq<nat>, n: nat, st: State) {
    && st.Valid()
    && ValidFactors(factors, n) && 0 < fstride && n * fstride == st.nfft
    && base + n <= outLength
    && off + (n - 1) * (fstride * inStride) < inLength
  }

  lemma StageFitsTable(factors: seq<nat>, n: nat, fstride: nat, tw: seq<Cpx>)
    requires ValidFactors(factors, n) && 0 < fstride && n * fstride == |tw|
    ensures Fits(tw, fstride, factors[0], factors[1])
    ensures 0 < |tw| && 0 < n == factors[0] * factors[1]
  {
    FitsHasTable(tw, fstride, factors[0], factors[1]);
  }

  lemma SubStageCanWork(outLength: nat, base: nat, inLength: nat, off: nat, fstride: nat, inStride: nat,
                        factors: seq<nat>, n: nat, st: State, p: nat, m: nat, q: nat)
    requires CanWork(outLength, base, inLength, off, fstride, inStride, factors, n, st)
    requires p == factors[0] && m == factors[1] && m != 1 && q < p
    ensures CanWork(outLength, base + q * m, inLength, off + q * (fstride * inStride), fstride * p, inStride,
                    factors[2..], m, st)
  {
    assert m * (fstride * p) == (p * m) * fstride;
    MulMonotone(q + 1, p, m);
    assert (q + 1) * m == q * m + m;
    LastSample(q, p, m, fstride, inStride);
  }

  lemma LastSample(q: nat, p: nat, m: nat, fstride: nat, inStride: nat)
    requires q < p && 0 < m
    ensures q * (fstride * inStride) + (m - 1) * ((fstride * p) * inStride) <= (p * m - 1) * (fstride * inStride)
  {
    var s := fstride * inStride;
    assert (m - 1) * ((fstride * p) * inStride) == ((m - 1) * p) * s;
    assert q * s + ((m - 1) * p) * s == (q + (m - 1) * p) * s;
    assert q + (m - 1) * p <= p * m - 1;
    MulMonotone(q + (m - 1) * p, p * m - 1, s);
  }

  lemma SampleExists(q: nat, p: nat, off: nat, step: nat, inLength: nat)
    requires q < p && off + (p - 1) * step < inLength
    ensures off + q * step < inLength
  {
    MulMonotone(q, p - 1, step);
  }

  /** A sub-transform of length one is its sample. */
  lemma CopyIsTransform(mid: seq<Cpx>, at: nat, s: seq<Cpx>, off: nat, step: nat, tw: seq<Cpx>, inverse: bool,
                        fstride: nat)
    requires IsTwiddleTable(tw, inverse) && at < |mid| && off < |s|
    ensures Transformed(mid, mid[at := s[off]], at, Samples(s, off, step), tw, fstride, 1)
  {
    hide Dft, IsTwiddleTable;
    DftOfOne(Samples(s, off, step), tw, inverse, fstride);
    assert Samples(s, off, step)(0) == s[off];
  }

  /** The last level: the p samples themselves. */
  method CopySamples(Fout: array<Cpx>, base: nat, f: array<Cpx>, off: nat, fstride: nat, inStride: nat, p: nat,
                     st: State)
    requires Fout != f && st.Valid() && 0 < |st.twiddles|
    requires 0 < p && base + p <= Fout.Length && off + (p - 1) * (fstride * inStride) < f.Length
    modifies Fout
    ensures Laid(old(Fout[..]), Fout[..], base, Samples(f[..], off, fstride * inStride), st.twiddles, fstride, p, 1, p)
  {
    hide IsTwiddleTable, Transformed, Laid, Samples;
    ghost var before, s, step := Fout[..], f[..], fstride * inStride;
    ghost var x := Samples(s, off, step);
    LaidNothing(before, base, x, st.twiddles, fstride, p, 1);
    var out, src := base, off;
    for q := 0 to p
      invariant out == base + q && src == off + q * step
      invariant Laid(before, Fout[..], base, x, st.twiddles, fstride, p, 1, q)
    {
      ghost var mid := Fout[..];
      SampleExists(q, p, off, step, |s|);
      Fout[out] := f[src];
      CopyIsTransform(mid, out, s, src, step * p, st.twiddles, st.inverse, Finer(fstride, p));
      LaidOneMore(before, mid, Fout[..], base, s, off, step, st.twiddles, fstride, p, 1, q, out);
      assert (q + 1) * step == q * step + step;
      src := src + fstride * inStride;
      out := out + 1;
    }
  }

  /** The p smaller transforms, each over every p-th sample. */
  method SubTransforms(Fout: array<Cpx>, base: nat, f: array<Cpx>, off: nat, fstride: nat, inStride: nat,
                       factors: seq<nat>, ghost n: nat, st: State)
    requires Fout != f && 2 <= |factors| && factors[1] != 1
    requires CanWork(Fout.Length, base, f.Length, off, fstride, inStride, factors, n, st)
    modifies Fout
    ensures 0 < |st.twiddles|
    ensures Laid(old(Fout[..]), Fout[..], base, Samples(f[..], off, fstride * inStride), st.twiddles, fstride,
                 factors[0], factors[1], factors[0])
    decreases |factors|, 0
  {
    hide IsTwiddleTable, Transformed, Laid, Samples;
    var p, m := factors[0], factors[1];
    StageFitsTable(factors, n, fstride, st.twiddles);
    ghost var before, s, step := Fout[..], f[..], fstride * inStride;
    ghost var x := Samples(s, off, step);
    LaidNothing(before, base, x, st.twiddles, fstride, p, m);
    hide CanWork, Fits;
    var out, src := base, off;
    for q := 0 to p
      invariant out == base + q * m && src == off + q * step
      invariant Laid(before, Fout[..], base, x, st.twiddles, fstride, p, m, q)
    {
      ghost var mid := Fout[..];
      SubStageCanWork(Fout.Length, base, f.Length, off, fstride, inStride, factors, n, st, p, m, q);
      Work(Fout, out, f, src, fstride * p, inStride, factors[2..], m, st);
      assert (fstride * p) * inStride == step * p;
      LaidOneMore(before, mid, Fout[..], base, s, off, step, st.twiddles, fstride, p, m, q, out);
      assert (q + 1) * m == q * m + m && (q + 1) * step == q * step + step;
      src := src + fstride * inStride;
      out := out + m;
    }
  }

  /** Picks the butterfly for the radix. */
  method Recombine(Fout: array<Cpx>, base: nat, fstride: nat, st: State, m: nat, p: nat)
    requires st.Valid() && Fits(st.twiddles, fstride, p, m)
    requires base + p * m <= Fout.Length
    modifies Fout
    ensures 0 < |st.twiddles| && 0 < m
    ensures Stage(old(Fout[..]), Fout[..], base, st.twiddles, fstride, p, m, m)
  {
    hide IsTwiddleTable, Stage, Fits;
    match p {
      case 2 => Bfly2(Fout, base, fstride, st, m);
      case 3 => Bfly3(Fout, base, fstride, st, m);
      case 4 => Bfly4(Fout, base, fstride, st, m);
      case 5 => Bfly5(Fout, base, fstride, st, m);
      case _ => BflyGeneric(Fout, base, fstride, st, m, p);
    }
  }

  /** kf_work leaves the transform of every step-th input sample in its stretch of the output. */
  method Work(Fout: array<Cpx>, base: nat, f: array<Cpx>, off: nat, fstride: nat, inStride: nat, factors: seq<nat>,
              ghost n: nat, st: State)
    requires Fout != f
    requires CanWork(Fout.Length, base, f.Length, off, fstride, inStride, factors, n, st)
    modifies Fout
    ensures 0 < |st.twiddles|
    ensures Transformed(old(Fout[..]), Fout[..], base, Samples(f[..], off, fstride * inStride), st.twiddles, fstride, n)
    decreases |factors|, 1
  {
    hide IsTwiddleTable, Transformed, Laid, Stage, Samples, Fits, Dft;
    var p, m := factors[0], factors[1];
    StageFitsTable(factors, n, fstride, st.twiddles);
    ghost var before := Fout[..];
    if m == 1 {
      CopySamples(Fout, base, f, off, fstride, inStride, p, st);
    } else {
      SubTransforms(Fout, base, f, off, fstride, inStride, factors, n, st);
    }
    ghost var laid := Fout[..];
    Recombine(Fout, base, fstride, st, m, p);
    StageIsTransform(before, laid, Fout[..], base, Samples(f[..], off, fstride * inStride), st.twiddles, st.inverse,
                     fstride, p, m);
  }

  // ----- the transform as the user sees it -----

  /** The factor list the driver computes is one the recursion can follow. */
  lemma {:induction false} FactorListIsValid(n: nat)
    requires 0 < n
    ensures ValidFactors(FactorList(n), n)
  {
    var r := Radix(n);
    QuotientShrinks(n, r);
    if 1 < n / r {
      FactorListIsValid(n / r);
      assert FactorList(n)[2..] == FactorList(n / r);
    }
  }

  /** kiss_fft_alloc, with the twiddle table given. */
  method Alloc(nfft: nat, inverse: bool, tw: seq<Cpx>) returns (st: State)
    requires IsTwiddleTable(tw, inverse) && nfft == |tw| < U32
    ensures st.Valid() && ValidFactors(st.factors, nfft)
    ensures st == State(nfft, inverse, FactorList(nfft), tw)
  {
    hide IsTwiddleTable;
    assert 0 < |tw| by { TableIsNotEmpty(tw, inverse); }
    var facbuf := new nat[2 * MAX_FACTORS];
    var written := KfFactor(nfft, facbuf);
    FactorListIsValid(nfft);
    st := State(nfft, inverse, facbuf[..written], tw);
  }

  lemma TableIsNotEmpty(tw: seq<Cpx>, inverse: bool)
    requires IsTwiddleTable(tw, inverse)
    ensures 0 < |tw|
  {}

  /** out is the discrete Fourier transform of every inStride-th element of s. */
  ghost predicate IsFft(s: seq<Cpx>, out: seq<Cpx>, tw: seq<Cpx>, inStride: nat)
    requires 0 < |tw|
  {
    |out| == |tw| && forall k: nat | k < |tw| :: out[k] == Dft(Samples(s, 0, inStride), tw, 1, |tw|, k)
  }

  lemma WholeTransform(before: seq<Cpx>, now: seq<Cpx>, s: seq<Cpx>, tw: seq<Cpx>, inStride: nat)
    requires 0 < |tw|
    requires Transformed(before, now, 0, Samples(s, 0, 1 * inStride), tw, 1, |tw|)
    ensures |tw| <= |now| == |before|
    ensures IsFft(s, now[..|tw|], tw, inStride) && now[|tw|..] == before[|tw|..]
  {
    hide Dft, Samples;
  }

  /** kiss_fft_stride. Input and output may be the same buffer. */
  method KissFftStride(st: State, fin: array<Cpx>, fout: array<Cpx>, inStride: nat)
    requires st.Valid() && ValidFactors(st.factors, st.nfft) && 0 < |st.twiddles|
    requires st.nfft <= fout.Length && (st.nfft - 1) * inStride < fin.Length
    modifies fout
    ensures IsFft(old(fin[..]), fout[..st.nfft], st.twiddles, inStride)
    ensures fout[st.nfft..] == old(fout[st.nfft..])
  {
    hide IsTwiddleTable, Transformed, IsFft, ValidFactors;
    assert (st.nfft - 1) * (1 * inStride) == (st.nfft - 1) * inStride;
    ghost var s, before := fin[..], fout[..];
    if fin == fout {
      var tmpbuf := new Cpx[st.nfft];
      ghost var blank := tmpbuf[..];
      Work(tmpbuf, 0, fin, 0, 1, inStride, st.factors, st.nfft, st);
      WholeTransform(blank, tmpbuf[..], s, st.twiddles, inStride);
      ghost var result := tmpbuf[..][..|st.twiddles|];
      forall k | 0 <= k < st.nfft {
        fout[k] := tmpbuf[k];
      }
      assert fout[..st.nfft] == result;
    } else {
      Work(fout, 0, fin, 0, 1, inStride, st.factors, st.nfft, st);
      WholeTransform(before, fout[..], s, st.twiddles, inStride);
    }
  }

  /** Transforming and then transforming back with the inverse configuration multiplies
      every sample by the length. */
  lemma BackAndForth(x: seq<Cpx>, y: seq<Cpx>, z: seq<Cpx>, tw: seq<Cpx>, inverse: bool)
    requires IsTwiddleTable(tw, inverse) && |x| == |tw| && 0 < |tw|
    requires IsFft(x, y, tw, 1) && IsFft(y, z, Conjugated(tw), 1)
    ensures IsTwiddleTable(Conjugated(tw), !inverse)
    ensures forall l | 0 <= l < |tw| :: z[l] == Scale(x[l], |tw| as real)
  {
    hide IsTwiddleTable, Dft, Scale;
    ConjugatedIsTwiddleTable(tw, inverse);
    var n := |tw|;
    forall l: nat | l < n ensures z[l] == Scale(x[l], n as real) {
      var spectrum := Spectrum(Samples(x, 0, 1), tw, n);
      forall k: nat | k < n ensures Samples(y, 0, 1)(k) == spectrum(k) {
        assert y[k] == Dft(Samples(x, 0, 1), tw, 1, n, k);
      }
      DftCongruence(Samples(y, 0, 1), spectrum, Conjugated(tw), 1, n, l);
      InverseUndoesForward(Samples(x, 0, 1), tw, inverse, l);
      assert Samples(x, 0, 1)(l) == x[l];
    }
  }
}
