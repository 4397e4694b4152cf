/** The in-place mixed-radix transform: butterflies over a stretch of the output buffer,
    and the recursion that lays sub-transforms end to end and recombines them. */
module KissFft {
  import opened Arith
  import opened Complex
  import opened Fourier
  import opened Butterfly

  /** kiss_fft_state: the transform length, its direction, the factor list p1, m1, p2, m2, ...
      and the twiddle table. */
  datatype State = State(nfft: nat, inverse: bool, factors: seq<nat>, twiddles: seq<Cpx>)
  {
    ghost predicate Valid() {
      nfft == |twiddles| && IsTwiddleTable(twiddles, inverse)
    }
  }

  // ----- a butterfly in progress -----

  /** Columns 0..u-1 of the p * m elements from base on have been recombined; everything
      else in the buffer is as it was before. */
  ghost predicate Stage(before: seq<Cpx>, now: seq<Cpx>, base: nat, tw: seq<Cpx>, fstride: nat, p: nat, m: nat, u: nat)
    requires 0 < |tw| && 0 < m
  {
    var end := base + p * m;
    && end <= |before| == |now|
    && now[base..end] == Recombined(before[base..end], tw, fstride, p, m, u)
    && now[..base] == before[..base]
    && now[end..] == before[end..]
  }

  lemma StageStarts(before: seq<Cpx>, base: nat, tw: seq<Cpx>, fstride: nat, p: nat, m: nat)
    requires 0 < |tw| && 0 < m && base + p * m <= |before|
    ensures Stage(before, before, base, tw, fstride, p, m, 0)
  {
    AllColumns(before[base..base + p * m], tw, fstride, p, m);
  }

  /** A column that has not been recombined yet still holds its input. */
  lemma StageReads(before: seq<Cpx>, now: seq<Cpx>, base: nat, tw: seq<Cpx>, fstride: nat, p: nat, m: nat, u: nat,
                   q: nat, at: nat)
    requires 0 < |tw| && u < m && q < p
    requires Stage(before, now, base, tw, fstride, p, m, u)
    requires at == Slot(q, u, m)
    ensures at < p * m && at % m == u && base + at < |now|
    ensures now[base + at] == before[base..base + p * m][at]
  {
    hide Out;
    IndexInColumn(u, q, p, m);
    assert now[base + at] == now[base..base + p * m][at];
  }

  /** s with col written to the places f, f + m, f + 2*m, ... . */
  function PutColumn(s: seq<Cpx>, f: nat, m: nat, col: seq<Cpx>): (r: seq<Cpx>)
    ensures |r| == |s|
    decreases |col|
  {
    if col == [] || |s| <= f then s else PutColumn(s[f := col[0]], f + m, m, col[1..])
  }

  lemma {:induction false} PutElsewhere(s: seq<Cpx>, f: nat, m: nat, col: seq<Cpx>, i: nat)
    requires i < |s| && forall q | 0 <= q < |col| :: i != f + Slot(q, 0, m)
    ensures PutColumn(s, f, m, col)[i] == s[i]
    decreases |col|
  {
    if col != [] && f < |s| {
      assert i != f + Slot(0, 0, m);
      forall q | 0 <= q < |col| - 1 ensures i != f + m + Slot(q, 0, m) {
        assert i != f + Slot(q + 1, 0, m);
      }
      PutElsewhere(s[f := col[0]], f + m, m, col[1..], i);
    }
  }

  lemma {:induction false} PutThere(s: seq<Cpx>, f: nat, m: nat, col: seq<Cpx>, q: nat)
    requires 0 < m && q < |col| && f + Slot(q, 0, m) < |s|
    ensures PutColumn(s, f, m, col)[f + Slot(q, 0, m)] == col[q]
    decreases |col|
  {
    if q == 0 {
      forall r | 0 <= r < |col| - 1 ensures f != f + m + Slot(r, 0, m) {}
      PutElsewhere(s[f := col[0]], f + m, m, col[1..], f);
    } else {
      MulMonotone(1, q, m);
      assert f + Slot(q, 0, m) == f + m + Slot(q - 1, 0, m);
      PutThere(s[f := col[0]], f + m, m, col[1..], q - 1);
    }
  }

  lemma {:induction false} PutOneMore(s: seq<Cpx>, f: nat, m: nat, col: seq<Cpx>, x: Cpx)
    requires f + Slot(|col|, 0, m) < |s|
    ensures PutColumn(s, f, m, col + [x]) == PutColumn(s, f, m, col)[f + Slot(|col|, 0, m) := x]
    decreases |col|
  {
    if col == [] {
      assert [x][1..] == [];
    } else {
      assert f + Slot(|col|, 0, m) == f + m + Slot(|col| - 1, 0, m);
      assert (col + [x])[1..] == col[1..] + [x];
      PutOneMore(s[f := col[0]], f + m, m, col[1..], x);
    }
  }

  lemma Put2(s: seq<Cpx>, f: nat, m: nat, x0: Cpx, x1: Cpx)
    requires f + m < |s|
    ensures PutColumn(s, f, m, [x0, x1]) == s[f := x0][f + m := x1]
  {
    assert [x0, x1][1..] == [x1] && [x1][1..] == [];
    assert PutColumn(s[f := x0], f + m, m, [x1]) == s[f := x0][f + m := x1];
  }

  lemma Put3(s: seq<Cpx>, f: nat, m: nat, x0: Cpx, x1: Cpx, x2: Cpx)
    requires f + 2 * m < |s|
    ensures PutColumn(s, f, m, [x0, x1, x2]) == s[f := x0][f + m := x1][f + 2 * m := x2]
  {
    assert [x0, x1, x2][1..] == [x1, x2];
    Put2(s[f := x0], f + m, m, x1, x2);
  }

  lemma Put4(s: seq<Cpx>, f: nat, m: nat, x0: Cpx, x1: Cpx, x2: Cpx, x3: Cpx)
    requires f + 3 * m < |s|
    ensures PutColumn(s, f, m, [x0, x1, x2, x3]) == s[f := x0][f + m := x1][f + 2 * m := x2][f + 3 * m := x3]
  {
    assert [x0, x1, x2, x3][1..] == [x1, x2, x3];
    Put3(s[f := x0], f + m, m, x1, x2, x3);
  }

  lemma Put5(s: seq<Cpx>, f: nat, m: nat, x0: Cpx, x1: Cpx, x2: Cpx, x3: Cpx, x4: Cpx)
    requires f + 4 * m < |s|
    ensures PutColumn(s, f, m, [x0, x1, x2, x3, x4]) ==
            s[f := x0][f + m := x1][f + 2 * m := x2][f + 3 * m := x3][f + 4 * m := x4]
  {
    assert [x0, x1, x2, x3, x4][1..] == [x1, x2, x3, x4];
    Put4(s[f := x0], f + m, m, x1, x2, x3, x4);
  }

  /** What the loop bodies do: overwrite column u with its recombination. */
  lemma StageAdvances(before: seq<Cpx>, mid: seq<Cpx>, now: seq<Cpx>, base: nat, tw: seq<Cpx>, fstride: nat,
                      p: nat, m: nat, u: nat, col: seq<Cpx>)
    requires 0 < |tw| && u < m
    requires Stage(before, mid, base, tw, fstride, p, m, u)
    requires now == PutColumn(mid, base + u, m, col)
    requires IsOutColumn(before[base..base + p * m], tw, fstride, p, m, u, col)
    ensures Stage(before, now, base, tw, fstride, p, m, u + 1)
  {
    hide Out, Recombined, PutColumn, Slot;
    var end := base + p * m;
    var F, G, H := before[base..end], mid[base..end], now[base..end];
    forall i | 0 <= i < |now| && !(base <= i < end && (i - base) % m == u) ensures now[i] == mid[i] {
      forall q | 0 <= q < p ensures i != base + u + Slot(q, 0, m) {
        ColumnPlace(u, q, p, m);
      }
      PutElsewhere(mid, base + u, m, col, i);
    }
    assert now[..base] == mid[..base] && now[end..] == mid[end..];
    forall k | 0 <= k < p * m && k % m != u ensures H[k] == Recombined(F, tw, fstride, p, m, u)[k] {
      assert H[k] == now[base + k] == mid[base + k] == G[k];
    }
    forall q | 0 <= q < p ensures ColumnEntry(F, tw, fstride, p, m, H, u, q) {
      ColumnPlace(u, q, p, m);
      PutThere(mid, base + u, m, col, q);
      assert H[Slot(q, u, m)] == now[base + Slot(q, u, m)];
    }
    ColumnDone(F, tw, fstride, p, m, u, H);
  }

  lemma ColumnPlace(u: nat, q: nat, p: nat, m: nat)
    requires u < m && q < p
    ensures Slot(q, u, m) == u + Slot(q, 0, m)
    ensures Slot(q, u, m) < p * m && Slot(q, u, m) % m == u
  {
    IndexInColumn(u, q, p, m);
  }

  /** The running twiddle pointer for element q of column u. */
  ghost predicate TwiddleFor(e: nat, u: nat, q: nat, fstride: nat) {
    e == u * (q * fstride)
  }

  lemma NextTwiddle(e: nat, u: nat, q: nat, fstride: nat)
    requires TwiddleFor(e, u, q, fstride)
    ensures TwiddleFor(e + q * fstride, u + 1, q, fstride)
  {
    assert (u + 1) * (q * fstride) == u * (q * fstride) + q * fstride;
  }

  lemma FirstTwiddle(q: nat, fstride: nat)
    ensures TwiddleFor(0, 0, q, fstride)
  {}

  lemma ZeroTwiddle(u: nat, fstride: nat)
    ensures TwiddleFor(0, u, 0, fstride)
  {}

  /** Reading element q of column u and its twiddle gives the twisted sample. */
  lemma SampleRead(before: seq<Cpx>, mid: seq<Cpx>, base: nat, st: State, fstride: nat, p: nat, m: nat, u: nat,
                   q: nat, at: nat, e: nat)
    requires st.Valid() && Fits(st.twiddles, fstride, p, m)
    requires 0 < |st.twiddles| && u < m && q < p
    requires Stage(before, mid, base, st.twiddles, fstride, p, m, u)
    requires at == base + q * m + u && TwiddleFor(e, u, q, fstride)
    ensures at < |mid| && e < |st.twiddles|
    ensures Twist(before[base..base + p * m], st.twiddles, fstride, m, u, q) == Mul(mid[at], st.twiddles[e])
    ensures q == 0 ==> Mul(mid[at], st.twiddles[e]) == mid[at]
  {
    hide Mul, IsTwiddleTable, Out, Twist;
    var F := before[base..base + p * m];
    StageReads(before, mid, base, st.twiddles, fstride, p, m, u, q, Slot(q, u, m));
    TwistedSample(F, st.twiddles, fstride, p, m, u, q, Slot(q, u, m), e);
    if q == 0 {
      FirstSample(F, st.twiddles, st.inverse, fstride, p, m, u);
    }
  }

  // ----- radix 2 -----

  lemma Bfly2Outputs(before: seq<Cpx>, mid: seq<Cpx>, base: nat, st: State, fstride: nat, m: nat, u: nat,
                     f: nat, f2: nat, tw1: nat)
    requires st.Valid() && Fits(st.twiddles, fstride, 2, m) && 0 < |st.twiddles| && u < m
    requires Stage(before, mid, base, st.twiddles, fstride, 2, m, u)
    requires f == base + u && f2 == f + m && TwiddleFor(tw1, u, 1, fstride)
    ensures base + 2 * m <= |before| == |mid| && f2 < |mid| && tw1 < |st.twiddles|
    ensures var t := Mul(mid[f2], st.twiddles[tw1]);
            IsOutColumn(before[base..base + 2 * m], st.twiddles, fstride, 2, m, u, [Add(mid[f], t), Sub(mid[f], t)])
  {
    assert base + 2 * m <= |before| == |mid|;
    assert TwiddleFor(0, u, 0, fstride);
    hide Mul, IsTwiddleTable, Stage, IsOutColumn, Twist, Add, Sub, Fits, TwiddleFor;
    SampleRead(before, mid, base, st, fstride, 2, m, u, 0, f, 0);
    SampleRead(before, mid, base, st, fstride, 2, m, u, 1, f2, tw1);
    var F := before[base..base + 2 * m];
    Radix2Column(F, st.twiddles, st.inverse, fstride, m, u);
    assert Twist(F, st.twiddles, fstride, m, u, 0) == mid[f];
    assert Twist(F, st.twiddles, fstride, m, u, 1) == Mul(mid[f2], st.twiddles[tw1]);
  }

  lemma Bfly2Column(before: seq<Cpx>, mid: seq<Cpx>, base: nat, st: State, fstride: nat, m: nat, u: nat,
                    f: nat, f2: nat, tw1: nat)
    requires st.Valid() && Fits(st.twiddles, fstride, 2, m) && 0 < |st.twiddles| && u < m
    requires Stage(before, mid, base, st.twiddles, fstride, 2, m, u)
    requires f == base + u && f2 == f + m && TwiddleFor(tw1, u, 1, fstride)
    ensures f2 < |mid| && tw1 < |st.twiddles|
    ensures var t := Mul(mid[f2], st.twiddles[tw1]);
            Stage(before, mid[f2 := Sub(mid[f], t)][f := Add(mid[f], t)], base, st.twiddles, fstride, 2, m, u + 1)
  {
    hide Mul, IsTwiddleTable, Stage, IsOutColumn, Add, Sub, PutColumn, Fits, TwiddleFor;
    Bfly2Outputs(before, mid, base, st, fstride, m, u, f, f2, tw1);
    var t := Mul(mid[f2], st.twiddles[tw1]);
    var out := [Add(mid[f], t), Sub(mid[f], t)];
    Put2(mid, f, m, out[0], out[1]);
    assert PutColumn(mid, f, m, out) == mid[f2 := out[1]][f := out[0]];
    StageAdvances(before, mid, PutColumn(mid, f, m, out), base, st.twiddles, fstride, 2, m, u, out);
  }

  method Bfly2(Fout: array<Cpx>, base: nat, fstride: nat, st: State, m: nat)
    requires st.Valid() && Fits(st.twiddles, fstride, 2, m)
    requires base + 2 * m <= Fout.Length
    modifies Fout
    ensures 0 < |st.twiddles| && 0 < m
    ensures Stage(old(Fout[..]), Fout[..], base, st.twiddles, fstride, 2, m, m)
  {
    hide Mul, IsTwiddleTable, Stage, Add, Sub, TwiddleFor;
    FitsHasTable(st.twiddles, fstride, 2, m);
    hide Fits;
    ghost var before := Fout[..];
    StageStarts(before, base, st.twiddles, fstride, 2, m);
    FirstTwiddle(1, fstride);
    var f, f2, tw1, left := base, base + m, 0, m;
    while 0 < left
      invariant 0 <= left <= m && f == base + (m - left) && f2 == f + m
      invariant 0 <= tw1 && TwiddleFor(tw1, m - left, 1, fstride)
      invariant Stage(before, Fout[..], base, st.twiddles, fstride, 2, m, m - left)
    {
      Bfly2Column(before, Fout[..], base, st, fstride, m, m - left, f, f2, tw1);
      NextTwiddle(tw1, m - left, 1, fstride);
      var t := Mul(Fout[f2], st.twiddles[tw1]);
      tw1 := tw1 + fstride;
      Fout[f2] := Sub(Fout[f], t);
      Fout[f] := Add(Fout[f], t);
      f2 := f2 + 1;
      f := f + 1;
      left := left - 1;
    }
  }

  // ----- radix 3 -----

  lemma Bfly3Outputs(before: seq<Cpx>, mid: seq<Cpx>, base: nat, st: State, fstride: nat, m: nat, u: nat,
                     f: nat, tw1: nat, tw2: nat)
    requires st.Valid() && Fits(st.twiddles, fstride, 3, m) && 0 < |st.twiddles| && u < m
    requires Stage(before, mid, base, st.twiddles, fstride, 3, m, u)
    requires f == base + u && TwiddleFor(tw1, u, 1, fstride) && TwiddleFor(tw2, u, 2, fstride)
    ensures base + 3 * m <= |before| == |mid| && f + 2 * m < |mid| && tw1 < |st.twiddles| && tw2 < |st.twiddles|
    ensures var tw := st.twiddles;
            IsOutColumn(before[base..base + 3 * m], tw, fstride, 3, m, u,
                        Fan3(mid[f], Mul(mid[f + m], tw[tw1]), Mul(mid[f + 2 * m], tw[tw2]), Root(tw, fstride, m, 1)))
  {
    hide Mul, IsTwiddleTable, Stage, IsOutColumn, Twist, Fan3, Fits, Root, TwiddleFor;
    StageFits(before, mid, base, st.twiddles, fstride, 3, m, u);
    ZeroTwiddle(u, fstride);
    SampleRead(before, mid, base, st, fstride, 3, m, u, 0, f, 0);
    SampleRead(before, mid, base, st, fstride, 3, m, u, 1, f + m, tw1);
    SampleRead(before, mid, base, st, fstride, 3, m, u, 2, f + 2 * m, tw2);
    var F := before[base..base + 3 * m];
    Radix3Column(F, st.twiddles, st.inverse, fstride, m, u);
    assert Twist(F, st.twiddles, fstride, m, u, 0) == mid[f];
    assert Twist(F, st.twiddles, fstride, m, u, 1) == Mul(mid[f + m], st.twiddles[tw1]);
    assert Twist(F, st.twiddles, fstride, m, u, 2) == Mul(mid[f + 2 * m], st.twiddles[tw2]);
  }

  lemma Bfly3Column(before: seq<Cpx>, mid: seq<Cpx>, base: nat, st: State, fstride: nat, m: nat, u: nat,
                    f: nat, tw1: nat, tw2: nat)
    requires st.Valid() && Fits(st.twiddles, fstride, 3, m) && 0 < |st.twiddles| && u < m
    requires Stage(before, mid, base, st.twiddles, fstride, 3, m, u)
    requires f == base + u && TwiddleFor(tw1, u, 1, fstride) && TwiddleFor(tw2, u, 2, fstride)
    ensures f + 2 * m < |mid| && tw1 < |st.twiddles| && tw2 < |st.twiddles|
    ensures var tw := st.twiddles;
            var out := Fan3(mid[f], Mul(mid[f + m], tw[tw1]), Mul(mid[f + 2 * m], tw[tw2]), Root(tw, fstride, m, 1));
            Stage(before, mid[f := out[0]][f + m := out[1]][f + 2 * m := out[2]], base, tw, fstride, 3, m, u + 1)
  {
    hide Mul, IsTwiddleTable, Stage, IsOutColumn, Fan3, PutColumn, Fits, Root, TwiddleFor;
    Bfly3Outputs(before, mid, base, st, fstride, m, u, f, tw1, tw2);
    var tw := st.twiddles;
    var out := Fan3(mid[f], Mul(mid[f + m], tw[tw1]), Mul(mid[f + 2 * m], tw[tw2]), Root(tw, fstride, m, 1));
    Put3(mid, f, m, out[0], out[1], out[2]);
    assert [out[0], out[1], out[2]] == out;
    StageAdvances(before, mid, PutColumn(mid, f, m, out), base, tw, fstride, 3, m, u, out);
  }

  method Bfly3(Fout: array<Cpx>, base: nat, fstride: nat, st: State, m: nat)
    requires st.Valid() && Fits(st.twiddles, fstride, 3, m)
    requires base + 3 * m <= Fout.Length
    modifies Fout
    ensures 0 < |st.twiddles| && 0 < m
    ensures Stage(old(Fout[..]), Fout[..], base, st.twiddles, fstride, 3, m, m)
  {
    hide Mul, IsTwiddleTable, Stage, Fan3, TwiddleFor;
    FitsHasTable(st.twiddles, fstride, 3, m);
    RootIsTableEntry(st.twiddles, fstride, 3, m, 1);
    assert 1 * (m * fstride) == fstride * m;
    hide Fits, Root;
    ghost var before := Fout[..];
    StageStarts(before, base, st.twiddles, fstride, 3, m);
    FirstTwiddle(1, fstride);
    FirstTwiddle(2, fstride);
    var epi3 := st.twiddles[fstride * m];
    var f, tw1, tw2, left, m2 := base, 0, 0, m, 2 * m;
    while 0 < left
      invariant 0 <= left <= m && f == base + (m - left)
      invariant 0 <= tw1 && TwiddleFor(tw1, m - left, 1, fstride)
      invariant 0 <= tw2 && TwiddleFor(tw2, m - left, 2, fstride)
      invariant Stage(before, Fout[..], base, st.twiddles, fstride, 3, m, m - left)
    {
      Bfly3Column(before, Fout[..], base, st, fstride, m, m - left, f, tw1, tw2);
      NextTwiddle(tw1, m - left, 1, fstride);
      NextTwiddle(tw2, m - left, 2, fstride);
      var s1 := Mul(Fout[f + m], st.twiddles[tw1]);
      var s2 := Mul(Fout[f + m2], st.twiddles[tw2]);
      tw1 := tw1 + fstride;
      tw2 := tw2 + fstride * 2;
      var out := Fan3(Fout[f], s1, s2, epi3);
      Fout[f] := out[0];
      Fout[f + m] := out[1];
      Fout[f + m2] := out[2];
      f := f + 1;
      left := left - 1;
    }
  }

  // ----- radix 4 -----

  lemma Bfly4Outputs(before: seq<Cpx>, mid: seq<Cpx>, base: nat, st: State, fstride: nat, m: nat, u: nat,
                     f: nat, tw1: nat, tw2: nat, tw3: nat)
    requires st.Valid() && Fits(st.twiddles, fstride, 4, m) && 0 < |st.twiddles| && u < m
    requires Stage(before, mid, base, st.twiddles, fstride, 4, m, u)
    requires f == base + u
    requires TwiddleFor(tw1, u, 1, fstride) && TwiddleFor(tw2, u, 2, fstride) && TwiddleFor(tw3, u, 3, fstride)
    ensures base + 4 * m <= |before| == |mid| && f + 3 * m < |mid|
    ensures tw1 < |st.twiddles| && tw2 < |st.twiddles| && tw3 < |st.twiddles|
    ensures var tw := st.twiddles;
            IsOutColumn(before[base..base + 4 * m], tw, fstride, 4, m, u,
                        Fan4(mid[f], Mul(mid[f + m], tw[tw1]), Mul(mid[f + 2 * m], tw[tw2]),
                             Mul(mid[f + 3 * m], tw[tw3]), st.inverse))
  {
    hide Mul, IsTwiddleTable, Stage, IsOutColumn, Twist, Fan4, Fits, TwiddleFor;
    StageFits(before, mid, base, st.twiddles, fstride, 4, m, u);
    ZeroTwiddle(u, fstride);
    SampleRead(before, mid, base, st, fstride, 4, m, u, 0, f, 0);
    SampleRead(before, mid, base, st, fstride, 4, m, u, 1, f + m, tw1);
    SampleRead(before, mid, base, st, fstride, 4, m, u, 2, f + 2 * m, tw2);
    SampleRead(before, mid, base, st, fstride, 4, m, u, 3, f + 3 * m, tw3);
    var F := before[base..base + 4 * m];
    Radix4Column(F, st.twiddles, st.inverse, fstride, m, u);
    assert Twist(F, st.twiddles, fstride, m, u, 0) == mid[f];
    assert Twist(F, st.twiddles, fstride, m, u, 1) == Mul(mid[f + m], st.twiddles[tw1]);
    assert Twist(F, st.twiddles, fstride, m, u, 2) == Mul(mid[f + 2 * m], st.twiddles[tw2]);
    assert Twist(F, st.twiddles, fstride, m, u, 3) == Mul(mid[f + 3 * m], st.twiddles[tw3]);
  }

  lemma Bfly4Column(before: seq<Cpx>, mid: seq<Cpx>, base: nat, st: State, fstride: nat, m: nat, u: nat,
                    f: nat, tw1: nat, tw2: nat, tw3: nat)
    requires st.Valid() && Fits(st.twiddles, fstride, 4, m) && 0 < |st.twiddles| && u < m
    requires Stage(before, mid, base, st.twiddles, fstride, 4, m, u)
    requires f == base + u
    requires TwiddleFor(tw1, u, 1, fstride) && TwiddleFor(tw2, u, 2, fstride) && TwiddleFor(tw3, u, 3, fstride)
    ensures f + 3 * m < |mid| && tw1 < |st.twiddles| && tw2 < |st.twiddles| && tw3 < |st.twiddles|
    ensures var tw := st.twiddles;
            var out := Fan4(mid[f], Mul(mid[f + m], tw[tw1]), Mul(mid[f + 2 * m], tw[tw2]),
                            Mul(mid[f + 3 * m], tw[tw3]), st.inverse);
            Stage(before, mid[f := out[0]][f + m := out[1]][f + 2 * m := out[2]][f + 3 * m := out[3]],
                  base, tw, fstride, 4, m, u + 1)
  {
    hide Mul, IsTwiddleTable, Stage, IsOutColumn, Fan4, PutColumn, Fits, TwiddleFor;
    Bfly4Outputs(before, mid, base, st, fstride, m, u, f, tw1, tw2, tw3);
    var tw := st.twiddles;
    var out := Fan4(mid[f], Mul(mid[f + m], tw[tw1]), Mul(mid[f + 2 * m], tw[tw2]),
                    Mul(mid[f + 3 * m], tw[tw3]), st.inverse);
    Put4(mid, f, m, out[0], out[1], out[2], out[3]);
    assert [out[0], out[1], out[2], out[3]] == out;
    StageAdvances(before, mid, PutColumn(mid, f, m, out), base, tw, fstride, 4, m, u, out);
  }

  method Bfly4(Fout: array<Cpx>, base: nat, fstride: nat, st: State, m: nat)
    requires st.Valid() && Fits(st.twiddles, fstride, 4, m)
    requires base + 4 * m <= Fout.Length
    modifies Fout
    ensures 0 < |st.twiddles| && 0 < m
    ensures Stage(old(Fout[..]), Fout[..], base, st.twiddles, fstride, 4, m, m)
  {
    hide Mul, IsTwiddleTable, Stage, Fan4, TwiddleFor;
    FitsHasTable(st.twiddles, fstride, 4, m);
    hide Fits;
    ghost var before := Fout[..];
    StageStarts(before, base, st.twiddles, fstride, 4, m);
    FirstTwiddle(1, fstride);
    FirstTwiddle(2, fstride);
    FirstTwiddle(3, fstride);
    var f, tw1, tw2, tw3, left, m2, m3 := base, 0, 0, 0, m, 2 * m, 3 * m;
    while 0 < left
      invariant 0 <= left <= m && f == base + (m - left)
      invariant 0 <= tw1 && TwiddleFor(tw1, m - left, 1, fstride)
      invariant 0 <= tw2 && TwiddleFor(tw2, m - left, 2, fstride)
      invariant 0 <= tw3 && TwiddleFor(tw3, m - left, 3, fstride)
      invariant Stage(before, Fout[..], base, st.twiddles, fstride, 4, m, m - left)
    {
      Bfly4Column(before, Fout[..], base, st, fstride, m, m - left, f, tw1, tw2, tw3);
      NextTwiddle(tw1, m - left, 1, fstride);
      NextTwiddle(tw2, m - left, 2, fstride);
      NextTwiddle(tw3, m - left, 3, fstride);
      var s0 := Mul(Fout[f + m], st.twiddles[tw1]);
      var s1 := Mul(Fout[f + m2], st.twiddles[tw2]);
      var s2 := Mul(Fout[f + m3], st.twiddles[tw3]);
      tw1 := tw1 + fstride;
      tw2 := tw2 + fstride * 2;
      tw3 := tw3 + fstride * 3;
      var out := Fan4(Fout[f], s0, s1, s2, st.inverse);
      Fout[f] := out[0];
      Fout[f + m] := out[1];
      Fout[f + m2] := out[2];
      Fout[f + m3] := out[3];
      f := f + 1;
      left := left - 1;
    }
  }

  // ----- radix 5 -----

  /** The four twiddles of column u. */
  ghost predicate TwiddlesFor5(e1: nat, e2: nat, e3: nat, e4: nat, u: nat, fstride: nat) {
    && TwiddleFor(e1, u, 1, fstride) && TwiddleFor(e2, u, 2, fstride)
    && TwiddleFor(e3, u, 3, fstride) && TwiddleFor(e4, u, 4, fstride)
  }

  lemma Bfly5Outputs(before: seq<Cpx>, mid: seq<Cpx>, base: nat, st: State, fstride: nat, m: nat, u: nat,
                     f: nat, e1: nat, e2: nat, e3: nat, e4: nat)
    requires st.Valid() && Fits(st.twiddles, fstride, 5, m) && 0 < |st.twiddles| && u < m
    requires Stage(before, mid, base, st.twiddles, fstride, 5, m, u)
    requires f == base + u && TwiddlesFor5(e1, e2, e3, e4, u, fstride)
    ensures base + 5 * m <= |before| == |mid| && f + 4 * m < |mid|
    ensures e1 < |st.twiddles| && e2 < |st.twiddles| && e3 < |st.twiddles| && e4 < |st.twiddles|
    ensures var tw := st.twiddles;
            IsOutColumn(before[base..base + 5 * m], tw, fstride, 5, m, u,
                        Fan5(mid[f], Mul(mid[f + m], tw[e1]), Mul(mid[f + 2 * m], tw[e2]), Mul(mid[f + 3 * m], tw[e3]),
                             Mul(mid[f + 4 * m], tw[e4]), Root(tw, fstride, m, 1), Root(tw, fstride, m, 2)))
  {
    hide Mul, IsTwiddleTable, Stage, IsOutColumn, Twist, Fan5, Fits, Root, TwiddleFor;
    StageFits(before, mid, base, st.twiddles, fstride, 5, m, u);
    ZeroTwiddle(u, fstride);
    SampleRead(before, mid, base, st, fstride, 5, m, u, 0, f, 0);
    SampleRead(before, mid, base, st, fstride, 5, m, u, 1, f + m, e1);
    SampleRead(before, mid, base, st, fstride, 5, m, u, 2, f + 2 * m, e2);
    SampleRead(before, mid, base, st, fstride, 5, m, u, 3, f + 3 * m, e3);
    SampleRead(before, mid, base, st, fstride, 5, m, u, 4, f + 4 * m, e4);
    var F := before[base..base + 5 * m];
    Radix5Column(F, st.twiddles, st.inverse, fstride, m, u);
    assert Twist(F, st.twiddles, fstride, m, u, 0) == mid[f];
    assert Twist(F, st.twiddles, fstride, m, u, 1) == Mul(mid[f + m], st.twiddles[e1]);
    assert Twist(F, st.twiddles, fstride, m, u, 2) == Mul(mid[f + 2 * m], st.twiddles[e2]);
    assert Twist(F, st.twiddles, fstride, m, u, 3) == Mul(mid[f + 3 * m], st.twiddles[e3]);
    assert Twist(F, st.twiddles, fstride, m, u, 4) == Mul(mid[f + 4 * m], st.twiddles[e4]);
  }

  lemma Bfly5Column(before: seq<Cpx>, mid: seq<Cpx>, base: nat, st: State, fstride: nat, m: nat, u: nat,
                    f: nat, e1: nat, e2: nat, e3: nat, e4: nat)
    requires st.Valid() && Fits(st.twiddles, fstride, 5, m) && 0 < |st.twiddles| && u < m
    requires Stage(before, mid, base, st.twiddles, fstride, 5, m, u)
    requires f == base + u && TwiddlesFor5(e1, e2, e3, e4, u, fstride)
    ensures f + 4 * m < |mid|
    ensures e1 < |st.twiddles| && e2 < |st.twiddles| && e3 < |st.twiddles| && e4 < |st.twiddles|
    ensures var tw := st.twiddles;
            var out := Fan5(mid[f], Mul(mid[f + m], tw[e1]), Mul(mid[f + 2 * m], tw[e2]), Mul(mid[f + 3 * m], tw[e3]),
                            Mul(mid[f + 4 * m], tw[e4]), Root(tw, fstride, m, 1), Root(tw, fstride, m, 2));
            Stage(before,
                  mid[f := out[0]][f + m := out[1]][f + 2 * m := out[2]][f + 3 * m := out[3]][f + 4 * m := out[4]],
                  base, tw, fstride, 5, m, u + 1)
  {
    hide Mul, IsTwiddleTable, Stage, IsOutColumn, Fan5, PutColumn, Fits, Root, TwiddlesFor5;
    Bfly5Outputs(before, mid, base, st, fstride, m, u, f, e1, e2, e3, e4);
    var tw := st.twiddles;
    var out := Fan5(mid[f], Mul(mid[f + m], tw[e1]), Mul(mid[f + 2 * m], tw[e2]), Mul(mid[f + 3 * m], tw[e3]),
                    Mul(mid[f + 4 * m], tw[e4]), Root(tw, fstride, m, 1), Root(tw, fstride, m, 2));
    Put5(mid, f, m, out[0], out[1], out[2], out[3], out[4]);
    assert [out[0], out[1], out[2], out[3], out[4]] == out;
    StageAdvances(before, mid, PutColumn(mid, f, m, out), base, tw, fstride, 5, m, u, out);
  }

  lemma TwiddleProducts(u: nat, fstride: nat)
    ensures TwiddlesFor5(u * fstride, 2 * u * fstride, 3 * u * fstride, 4 * u * fstride, u, fstride)
  {}

  /** Where the two constants of the radix 5 butterfly are in the table. */
  lemma FifthRoots(tw: seq<Cpx>, fstride: nat, m: nat)
    requires 0 < |tw| && Fits(tw, fstride, 5, m)
    ensures fstride * m < |tw| && Root(tw, fstride, m, 1) == tw[fstride * m]
    ensures fstride * 2 * m < |tw| && Root(tw, fstride, m, 2) == tw[fstride * 2 * m]
  {
    RootIsTableEntry(tw, fstride, 5, m, 1);
    RootIsTableEntry(tw, fstride, 5, m, 2);
    assert 1 * (m * fstride) == fstride * m && 2 * (m * fstride) == fstride * 2 * m;
  }

  method Bfly5(Fout: array<Cpx>, base: nat, fstride: nat, st: State, m: nat)
    requires st.Valid() && Fits(st.twiddles, fstride, 5, m)
    requires base + 5 * m <= Fout.Length
    modifies Fout
    ensures 0 < |st.twiddles| && 0 < m
    ensures Stage(old(Fout[..]), Fout[..], base, st.twiddles, fstride, 5, m, m)
  {
    hide Mul, IsTwiddleTable, Stage, Fan5, TwiddlesFor5, Fits, Root;
    FitsHasTable(st.twiddles, fstride, 5, m);
    FifthRoots(st.twiddles, fstride, m);
    ghost var before := Fout[..];
    StageStarts(before, base, st.twiddles, fstride, 5, m);
    var tw := st.twiddles;
    var ya, yb := tw[fstride * m], tw[fstride * 2 * m];
    var f0, f1, f2, f3, f4 := base, base + m, base + 2 * m, base + 3 * m, base + 4 * m;
    for u := 0 to m
      invariant f0 == base + u && f1 == f0 + m && f2 == f0 + 2 * m && f3 == f0 + 3 * m && f4 == f0 + 4 * m
      invariant Stage(before, Fout[..], base, tw, fstride, 5, m, u)
    {
      TwiddleProducts(u, fstride);
      Bfly5Column(before, Fout[..], base, st, fstride, m, u, f0,
                  u * fstride, 2 * u * fstride, 3 * u * fstride, 4 * u * fstride);
      var s1 := Mul(Fout[f1], tw[u * fstride]);
      var s2 := Mul(Fout[f2], tw[2 * u * fstride]);
      var s3 := Mul(Fout[f3], tw[3 * u * fstride]);
      var s4 := Mul(Fout[f4], tw[4 * u * fstride]);
      var out := Fan5(Fout[f0], s1, s2, s3, s4, ya, yb);
      Fout[f0] := out[0];
      Fout[f1] := out[1];
      Fout[f2] := out[2];
      Fout[f3] := out[3];
      Fout[f4] := out[4];
      f0, f1, f2, f3, f4 := f0 + 1, f1 + 1, f2 + 1, f3 + 1, f4 + 1;
    }
  }

  // ----- any radix -----

  /** The terms of one output, from the column's samples in a scratch buffer. */
  function ScratchTerms(s: seq<Cpx>, tw: seq<Cpx>, fstride: nat, k: nat): Signal
    requires 0 < |tw|
  {
    (q: nat) => Mul(At(s, q), W(tw, Angle(q, k, fstride)))
  }

  /** The running index into the twiddle table: one step adds less than a full turn. */
  lemma NextIndex(n: nat, q: nat, k: nat, fstride: nat)
    requires 0 < n && fstride * k < n
    ensures var next := Angle(q, k, fstride) % n + fstride * k;
            Angle(q + 1, k, fstride) % n == if n <= next then next - n else next
  {
    var step, a := fstride * k, Angle(q, k, fstride);
    assert Angle(q + 1, k, fstride) == a + step;
    DivMod(a, n);
    var next := a % n + step;
    if n <= next {
      assert a + step == (a / n + 1) * n + (next - n);
      DivModUnique(a + step, n, a / n + 1, next - n);
    } else {
      DivModUnique(a + step, n, a / n, next);
    }
  }

  lemma FirstTerm(s: seq<Cpx>, st: State, fstride: nat, k: nat)
    requires st.Valid() && 0 < |s| && 0 < |st.twiddles|
    ensures Sum(ScratchTerms(s, st.twiddles, fstride, k), 1) == s[0]
  {
    var g := ScratchTerms(s, st.twiddles, fstride, k);
    SmallMod(0, |st.twiddles|);
    assert g(0) == Mul(s[0], One);
    hide Mul;
    MulOne(s[0]);
    assert Sum(g, 1) == Add(Sum(g, 0), g(0));
  }

  /** Computes one output in place, term by term. */
  method AccumulateOutput(Fout: array<Cpx>, at: nat, scratch: array<Cpx>, fstride: nat, k: nat, st: State)
    requires st.Valid() && fstride * k < |st.twiddles|
    requires at < Fout.Length && 0 < scratch.Length && scratch != Fout
    modifies Fout
    ensures Fout[..] == old(Fout[..])[at := Sum(ScratchTerms(scratch[..], st.twiddles, fstride, k), scratch.Length)]
  {
    hide Mul, W, IsTwiddleTable, Angle;
    ghost var terms, s := ScratchTerms(scratch[..], st.twiddles, fstride, k), scratch[..];
    FirstTerm(s, st, fstride, k);
    AngleZero(k, fstride, st.nfft);
    var twidx := 0;
    Fout[at] := scratch[0];
    for q := 1 to scratch.Length
      invariant 0 <= twidx < st.nfft && twidx == Angle(q - 1, k, fstride) % st.nfft
      invariant scratch[..] == s
      invariant Fout[..] == old(Fout[..])[at := Sum(terms, q)]
    {
      NextIndex(st.nfft, q - 1, k, fstride);
      twidx := twidx + fstride * k;
      if twidx >= st.nfft {
        twidx := twidx - st.nfft;
      }
      var t := Mul(scratch[q], st.twiddles[twidx]);
      assert t == terms(q) by { TermValue(s, st.twiddles, fstride, k, q); }
      Fout[at] := Add(Fout[at], t);
    }
  }

  lemma AngleZero(k: nat, fstride: nat, n: nat)
    requires 0 < n
    ensures Angle(0, k, fstride) % n == 0
  {
    SmallMod(0, n);
  }

  lemma TermValue(s: seq<Cpx>, tw: seq<Cpx>, fstride: nat, k: nat, q: nat)
    requires 0 < |tw| && q < |s|
    ensures ScratchTerms(s, tw, fstride, k)(q) == Mul(s[q], tw[Angle(q, k, fstride) % |tw|])
  {}

  method GatherColumn(Fout: array<Cpx>, base: nat, m: nat, u: nat, scratch: array<Cpx>)
    requires 0 < m && u < m && base + scratch.Length * m <= Fout.Length && scratch != Fout
    modifies scratch
    ensures forall q | 0 <= q < scratch.Length :: IsSample(Fout[..], base, m, u, q, scratch[q])
  {
    var k := u;
    for q1 := 0 to scratch.Length
      invariant k == q1 * m + u
      invariant forall q | 0 <= q < q1 :: IsSample(Fout[..], base, m, u, q, scratch[q])
    {
      IndexInColumn(u, q1, scratch.Length, m);
      scratch[q1] := Fout[base + k];
      assert (q1 + 1) * m == q1 * m + m;
      k := k + m;
    }
  }

  ghost predicate IsSample(s: seq<Cpx>, base: nat, m: nat, u: nat, q: nat, x: Cpx) {
    var at := base + Slot(q, u, m);
    at < |s| && s[at] == x
  }

  /** The scratch buffer's terms are the recombination's. */
  lemma ScratchIsColumn(before: seq<Cpx>, mid: seq<Cpx>, base: nat, tw: seq<Cpx>, fstride: nat, p: nat, m: nat,
                        u: nat, r: nat, s: seq<Cpx>)
    requires 0 < |tw| && u < m && r < p == |s|
    requires Stage(before, mid, base, tw, fstride, p, m, u)
    requires forall q | 0 <= q < p :: IsSample(mid, base, m, u, q, s[q])
    ensures Sum(ScratchTerms(s, tw, fstride, Slot(r, u, m)), p) ==
            Out(before[base..base + p * m], tw, fstride, p, m, r, u)
  {
    hide Mul, W, Angle, Slot, Sum;
    var F := before[base..base + p * m];
    forall q: nat | q < p
      ensures ScratchTerms(s, tw, fstride, Slot(r, u, m))(q) == OutTerms(F, tw, fstride, m, r, u)(q)
    {
      assert IsSample(mid, base, m, u, q, s[q]);
      StageReads(before, mid, base, tw, fstride, p, m, u, q, Slot(q, u, m));
    }
    SumCongruence(ScratchTerms(s, tw, fstride, Slot(r, u, m)), OutTerms(F, tw, fstride, m, r, u), p);
  }

  method BflyGeneric(Fout: array<Cpx>, base: nat, fstride: nat, st: State, m: nat, p: nat)
    requires st.Valid() && Fits(st.twiddles, fstride, p, m)
    requires base + p * m <= Fout.Length
    modifies Fout
    ensures 0 < |st.twiddles| && 0 < m
    ensures Stage(old(Fout[..]), Fout[..], base, st.twiddles, fstride, p, m, m)
  {
    hide Mul, W, IsTwiddleTable, Stage, Out, IsSample, Sum, ScratchTerms;
    FitsHasTable(st.twiddles, fstride, p, m);
    ghost var before := Fout[..];
    StageStarts(before, base, st.twiddles, fstride, p, m);
    hide Fits;
    var scratch := new Cpx[p];
    for u := 0 to m
      invariant Stage(before, Fout[..], base, st.twiddles, fstride, p, m, u)
      invariant fresh(scratch)
    {
      GatherColumn(Fout, base, m, u, scratch);
      ScatterColumn(Fout, before, base, fstride, st, m, p, u, scratch);
    }
  }

  /** Recombines column u from the scratch buffer. */
  method ScatterColumn(Fout: array<Cpx>, ghost before: seq<Cpx>, base: nat, fstride: nat, st: State, m: nat, p: nat,
                       u: nat, scratch: array<Cpx>)
    requires st.Valid() && Fits(st.twiddles, fstride, p, m) && 0 < |st.twiddles| && u < m
    requires scratch != Fout && scratch.Length == p && base + p * m <= Fout.Length
    requires Stage(before, Fout[..], base, st.twiddles, fstride, p, m, u)
    requires forall q | 0 <= q < p :: IsSample(Fout[..], base, m, u, q, scratch[q])
    modifies Fout
    ensures Stage(before, Fout[..], base, st.twiddles, fstride, p, m, u + 1)
  {
    hide Mul, W, IsTwiddleTable, Stage, Out, IsSample, Sum, ScratchTerms, PutColumn;
    ghost var mid, s, col := Fout[..], scratch[..], [];
    assert base + p * m <= |before| by { StageFits(before, mid, base, st.twiddles, fstride, p, m, u); }
    ghost var F := before[base..base + p * m];
    PutNothing(mid, base + u, m);
    var k := u;
    for q1 := 0 to p
      invariant k == Slot(q1, u, m) && |col| == q1
      invariant scratch[..] == s
      invariant forall r | 0 <= r < q1 :: col[r] == Out(F, st.twiddles, fstride, p, m, r, u)
      invariant Fout[..] == PutColumn(mid, base + u, m, col)
    {
      ColumnPlace(u, q1, p, m);
      OutputIndex(st.twiddles, fstride, p, m, k);
      AccumulateOutput(Fout, base + k, scratch, fstride, k, st);
      ScratchIsColumn(before, mid, base, st.twiddles, fstride, p, m, u, q1, s);
      ghost var x := Sum(ScratchTerms(s, st.twiddles, fstride, k), p);
      PutOneMore(mid, base + u, m, col, x);
      col := col + [x];
      assert Slot(q1 + 1, u, m) == k + m;
      k := k + m;
    }
    StageAdvances(before, mid, Fout[..], base, st.twiddles, fstride, p, m, u, col);
  }

  lemma StageFits(before: seq<Cpx>, now: seq<Cpx>, base: nat, tw: seq<Cpx>, fstride: nat, p: nat, m: nat, u: nat)
    requires 0 < |tw| && 0 < m
    requires Stage(before, now, base, tw, fstride, p, m, u)
    ensures base + p * m <= |before| == |now|
  {}

  lemma PutNothing(s: seq<Cpx>, f: nat, m: nat)
    ensures PutColumn(s, f, m, []) == s
  {}

  lemma OutputIndex(tw: seq<Cpx>, fstride: nat, p: nat, m: nat, k: nat)
    requires Fits(tw, fstride, p, m) && k < p * m
    ensures fstride * k < |tw|
  {
    MulMonotone(k + 1, p * m, fstride);
    assert (k + 1) * fstride == fstride * k + fstride;
  }
}
