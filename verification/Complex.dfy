/** Exact complex arithmetic: the C_ADD, C_SUB and C_MUL macros of kissfft's
    floating-point build, over mathematical reals. */
module Complex {
  import opened Arith

  datatype Cpx = Cpx(re: real, im: real)

  const Zero: Cpx := Cpx(0.0, 0.0)
  const One: Cpx := Cpx(1.0, 0.0)

  function Add(a: Cpx, b: Cpx): Cpx {
    Cpx(a.re + b.re, a.im + b.im)
  }

  function Sub(a: Cpx, b: Cpx): Cpx {
    Cpx(a.re - b.re, a.im - b.im)
  }

  function Mul(a: Cpx, b: Cpx): Cpx {
    Cpx(a.re * b.re - a.im * b.im, a.re * b.im + a.im * b.re)
  }

  function Scale(a: Cpx, s: real): Cpx {
    Cpx(a.re * s, a.im * s)
  }

  function Conj(a: Cpx): Cpx {
    Cpx(a.re, -a.im)
  }

  lemma MulOne(a: Cpx)
    ensures Mul(a, One) == a && Mul(One, a) == a
  {}

  lemma MulZero(a: Cpx)
    ensures Mul(a, Zero) == Zero && Mul(Zero, a) == Zero
  {}

  lemma MulCommutes(a: Cpx, b: Cpx)
    ensures Mul(a, b) == Mul(b, a)
  {}

  lemma TripleProduct(x: real, y: real, z: real)
    ensures (x * y) * z == x * (y * z)
  {}

  lemma ProductOfSum(x: real, y: real, z: real)
    ensures (x + y) * z == x * z + y * z && z * (x + y) == z * x + z * y
    ensures (x - y) * z == x * z - y * z && z * (x - y) == z * x - z * y
  {}

  lemma MulAssociates(a: Cpx, b: Cpx, c: Cpx)
    ensures Mul(Mul(a, b), c) == Mul(a, Mul(b, c))
  {
    RealPartAssociates(a, b, c);
    ImaginaryPartAssociates(a, b, c);
  }

  lemma RealPartAssociates(a: Cpx, b: Cpx, c: Cpx)
    ensures (a.re * b.re - a.im * b.im) * c.re - (a.re * b.im + a.im * b.re) * c.im ==
            a.re * (b.re * c.re - b.im * c.im) - a.im * (b.re * c.im + b.im * c.re)
  {
    ProductOfSum(a.re * b.re, a.im * b.im, c.re);
    ProductOfSum(a.re * b.im, a.im * b.re, c.im);
    ProductOfSum(b.re * c.re, b.im * c.im, a.re);
    ProductOfSum(b.re * c.im, b.im * c.re, a.im);
    TripleProduct(a.re, b.re, c.re);
    TripleProduct(a.im, b.im, c.re);
    TripleProduct(a.re, b.im, c.im);
    TripleProduct(a.im, b.re, c.im);
  }

  lemma ImaginaryPartAssociates(a: Cpx, b: Cpx, c: Cpx)
    ensures (a.re * b.re - a.im * b.im) * c.im + (a.re * b.im + a.im * b.re) * c.re ==
            a.re * (b.re * c.im + b.im * c.re) + a.im * (b.re * c.re - b.im * c.im)
  {
    ProductOfSum(a.re * b.re, a.im * b.im, c.im);
    ProductOfSum(a.re * b.im, a.im * b.re, c.re);
    ProductOfSum(b.re * c.im, b.im * c.re, a.re);
    ProductOfSum(b.re * c.re, b.im * c.im, a.im);
    TripleProduct(a.re, b.re, c.im);
    TripleProduct(a.im, b.im, c.im);
    TripleProduct(a.re, b.im, c.re);
    TripleProduct(a.im, b.re, c.re);
  }

  lemma MulDistributes(a: Cpx, b: Cpx, c: Cpx)
    ensures Mul(Add(a, b), c) == Add(Mul(a, c), Mul(b, c))
    ensures Mul(c, Add(a, b)) == Add(Mul(c, a), Mul(c, b))
  {}

  lemma ZeroProduct(x: real, y: real)
    requires x * y == 0.0
    ensures x == 0.0 || y == 0.0
  {}

  lemma Square(x: real, square: real)
    requires square == x * x
    ensures square >= 0.0
    ensures square == 0.0 ==> x == 0.0
  {
    if square == 0.0 {
      ZeroProduct(x, x);
    }
  }

  function Norm(a: Cpx): real {
    a.re * a.re + a.im * a.im
  }

  lemma NormIsPositive(a: Cpx)
    ensures Norm(a) == 0.0 ==> a == Zero
  {
    var re2, im2 := a.re * a.re, a.im * a.im;
    assert Norm(a) == re2 + im2;
    Square(a.re, re2);
    Square(a.im, im2);
  }

  lemma ConjProduct(a: Cpx)
    ensures Mul(Conj(a), a) == Cpx(Norm(a), 0.0)
  {}

  lemma RealProduct(r: real, b: Cpx)
    ensures Mul(Cpx(r, 0.0), b) == Scale(b, r)
  {}

  /** The complex numbers have no zero divisors. */
  lemma NoZeroDivisors(a: Cpx, b: Cpx)
    requires Mul(a, b) == Zero
    ensures a == Zero || b == Zero
  {
    var norm := Norm(a);
    assert Scale(b, norm) == Zero by {
      MulAssociates(Conj(a), a, b);
      MulZero(Conj(a));
      ConjProduct(a);
      RealProduct(norm, b);
    }
    ZeroProduct(b.re, norm);
    ZeroProduct(b.im, norm);
    NormIsPositive(a);
  }

  // ----- finite sums -----

  /** An infinite signal; a finite transform looks at an initial stretch of it. */
  type Signal = nat -> Cpx

  /** g(0) + g(1) + ... + g(n-1). */
  function Sum(g: Signal, n: nat): Cpx {
    if n == 0 then Zero else Add(Sum(g, n - 1), g(n - 1))
  }

  function Scaled(g: Signal, c: Cpx): Signal {
    (j: nat) => Mul(g(j), c)
  }

  function Plus(g: Signal, h: Signal): Signal {
    (j: nat) => Add(g(j), h(j))
  }

  function Shifted(g: Signal, start: nat): Signal {
    (j: nat) => g(start + j)
  }

  /** Every p-th sample, starting with sample q. */
  function Decimated(g: Signal, q: nat, p: nat): Signal {
    (i: nat) => g(Slot(i, q, p))
  }

  function DecimatedSums(g: Signal, p: nat, m: nat): Signal {
    (q: nat) => Sum(Decimated(g, q, p), m)
  }

  lemma {:induction false} SumCongruence(g: Signal, h: Signal, n: nat)
    requires forall j: nat | j < n :: g(j) == h(j)
    ensures Sum(g, n) == Sum(h, n)
  {
    if n != 0 {
      SumCongruence(g, h, n - 1);
    }
  }

  lemma {:induction false} SumScaled(g: Signal, c: Cpx, n: nat)
    ensures Sum(Scaled(g, c), n) == Mul(Sum(g, n), c)
  {
    if n == 0 {
      MulZero(c);
    } else {
      SumScaled(g, c, n - 1);
      MulDistributes(Sum(g, n - 1), g(n - 1), c);
    }
  }

  lemma {:induction false} SumAdds(g: Signal, h: Signal, n: nat)
    ensures Sum(Plus(g, h), n) == Add(Sum(g, n), Sum(h, n))
  {
    if n != 0 {
      SumAdds(g, h, n - 1);
    }
  }

  lemma {:induction false} SumIsZero(g: Signal, n: nat)
    requires forall j: nat | j < n :: g(j) == Zero
    ensures Sum(g, n) == Zero
  {
    if n != 0 {
      SumIsZero(g, n - 1);
    }
  }

  /** A sum with at most one non-zero term. */
  lemma {:induction false} SumSingle(g: Signal, n: nat, at: nat)
    requires at < n
    requires forall j: nat | j < n && j != at :: g(j) == Zero
    ensures Sum(g, n) == g(at)
  {
    if at == n - 1 {
      SumIsZero(g, n - 1);
    } else {
      SumSingle(g, n - 1, at);
    }
  }

  lemma {:induction false} SumSplit(g: Signal, a: nat, b: nat)
    ensures Sum(g, a + b) == Add(Sum(g, a), Sum(Shifted(g, a), b))
  {
    if b != 0 {
      SumSplit(g, a, b - 1);
      assert Sum(g, a + b) == Add(Sum(g, a + (b - 1)), g(a + (b - 1)));
    }
  }

  /** Re-indexing j = i * p + q: a sum of p * m terms is p interleaved sums of m terms. */
  lemma {:induction false} SumDecimated(g: Signal, p: nat, m: nat)
    ensures Sum(g, p * m) == Sum(DecimatedSums(g, p, m), p)
  {
    if m == 0 {
      SumIsZero(DecimatedSums(g, p, m), p);
    } else {
      var rest, last := DecimatedSums(g, p, m - 1), Shifted(g, p * (m - 1));
      SumDecimated(g, p, m - 1);
      assert p * m == p * (m - 1) + p;
      SumSplit(g, p * (m - 1), p);
      SumAdds(rest, last, p);
      forall q: nat | q < p ensures DecimatedSums(g, p, m)(q) == Plus(rest, last)(q) {
        assert Slot(m - 1, q, p) == p * (m - 1) + q;
      }
      SumCongruence(DecimatedSums(g, p, m), Plus(rest, last), p);
    }
  }

  function Row(g: (nat, nat) -> Cpx, i: nat): Signal {
    (j: nat) => g(i, j)
  }

  function Column(g: (nat, nat) -> Cpx, j: nat): Signal {
    (i: nat) => g(i, j)
  }

  function RowSums(g: (nat, nat) -> Cpx, width: nat): Signal {
    (i: nat) => Sum(Row(g, i), width)
  }

  function ColumnSums(g: (nat, nat) -> Cpx, height: nat): Signal {
    (j: nat) => Sum(Column(g, j), height)
  }

  /** Exchanging two finite sums. */
  lemma {:induction false} SumExchange(g: (nat, nat) -> Cpx, height: nat, width: nat)
    ensures Sum(RowSums(g, width), height) == Sum(ColumnSums(g, height), width)
  {
    if height == 0 {
      SumIsZero(ColumnSums(g, 0), width);
    } else {
      SumExchange(g, height - 1, width);
      var rest, last := ColumnSums(g, height - 1), Row(g, height - 1);
      SumAdds(rest, last, width);
      SumCongruence(ColumnSums(g, height), Plus(rest, last), width);
    }
  }
}
