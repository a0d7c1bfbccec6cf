/** Exact complex arithmetic, integer powers, and polynomial evaluation: the algebra behind the FFT. */
module Complex {
  datatype Complex = Cx(re: real, im: real)

  const ZERO := Cx(0.0, 0.0)
  const ONE := Cx(1.0, 0.0)
  const MINUS_ONE := Cx(-1.0, 0.0)
  const MINUS_I := Cx(0.0, -1.0)

  function Add(a: Complex, b: Complex): Complex { Cx(a.re + b.re, a.im + b.im) }
  function Sub(a: Complex, b: Complex): Complex { Cx(a.re - b.re, a.im - b.im) }
  function Mul(a: Complex, b: Complex): Complex { Cx(a.re * b.re - a.im * b.im, a.re * b.im + a.im * b.re) }
  function Conj(a: Complex): Complex { Cx(a.re, -a.im) }
  function Scale(r: real, a: Complex): Complex { Cx(r * a.re, r * a.im) }
  function Real(r: real): Complex { Cx(r, 0.0) }
  function NormSq(a: Complex): real { a.re * a.re + a.im * a.im }

  function Pow(a: Complex, n: nat): Complex {
    if n == 0 then ONE else Mul(a, Pow(a, n - 1))
  }

  /** Horner evaluation of the polynomial with coefficients `z` at `c`. */
  function Eval(z: seq<Complex>, c: Complex): Complex {
    if |z| == 0 then ZERO else Add(z[0], Mul(c, Eval(z[1..], c)))
  }

  lemma MulAssoc(a: Complex, b: Complex, c: Complex)
    ensures Mul(Mul(a, b), c) == Mul(a, Mul(b, c))
  {
    var x, y, u, v, s, t := a.re, a.im, b.re, b.im, c.re, c.im;
    assert (x * u - y * v) * s - (x * v + y * u) * t == x * (u * s - v * t) - y * (u * t + v * s);
    assert (x * u - y * v) * t + (x * v + y * u) * s == x * (u * t + v * s) + y * (u * s - v * t);
  }

  lemma MulComm(a: Complex, b: Complex)
    ensures Mul(a, b) == Mul(b, a)
  {}

  lemma MulOne(a: Complex)
    ensures Mul(a, ONE) == a == Mul(ONE, a)
  {}

  lemma ConjMul(a: Complex, b: Complex)
    ensures Conj(Mul(a, b)) == Mul(Conj(a), Conj(b))
  {}

  lemma {:induction false} PowAdd(a: Complex, m: nat, n: nat)
    ensures Pow(a, m + n) == Mul(Pow(a, m), Pow(a, n))
  {
    if m > 0 {
      PowAdd(a, m - 1, n);
      MulAssoc(a, Pow(a, m - 1), Pow(a, n));
    }
  }

  lemma {:induction false} PowMul(a: Complex, m: nat, n: nat)
    ensures 0 <= m * n
    ensures Pow(a, m * n) == Pow(Pow(a, m), n)
  {
    if n > 0 {
      PowMul(a, m, n - 1);
      assert m * n == m + m * (n - 1);
      PowAdd(a, m, m * (n - 1));
    } else {
      assert m * n == 0;
    }
  }

  lemma {:induction false} PowOfProduct(a: Complex, b: Complex, n: nat)
    ensures Pow(Mul(a, b), n) == Mul(Pow(a, n), Pow(b, n))
  {
    if n > 0 {
      PowOfProduct(a, b, n - 1);
      var p, q := Pow(a, n - 1), Pow(b, n - 1);
      MulAssoc(a, b, Mul(p, q));
      MulAssoc(b, p, q);
      MulComm(b, p);
      MulAssoc(p, b, q);
      MulAssoc(a, p, Mul(b, q));
    }
  }

  lemma {:induction false} PowConj(a: Complex, n: nat)
    ensures Pow(Conj(a), n) == Conj(Pow(a, n))
  {
    if n > 0 {
      PowConj(a, n - 1);
      ConjMul(a, Pow(a, n - 1));
    }
  }

  lemma {:induction false} PowOne(n: nat)
    ensures Pow(ONE, n) == ONE
  {
    hide Mul;
    assert Mul(ONE, ONE) == ONE by { MulOne(ONE); }
    if n > 0 { PowOne(n - 1); }
  }

  lemma UnitConj(a: Complex)
    requires NormSq(a) == 1.0
    ensures Mul(a, Conj(a)) == ONE
    ensures NormSq(Conj(a)) == 1.0
  {}

  lemma NormMul(a: Complex, b: Complex)
    ensures NormSq(Mul(a, b)) == NormSq(a) * NormSq(b)
  {
    var x, y, u, v := a.re, a.im, b.re, b.im;
    assert (x * u - y * v) * (x * u - y * v) == x * x * u * u - 2.0 * (x * u * y * v) + y * y * v * v;
    assert (x * v + y * u) * (x * v + y * u) == x * x * v * v + 2.0 * (x * u * y * v) + y * y * u * u;
    assert (x * x + y * y) * (u * u + v * v) == x * x * u * u + x * x * v * v + y * y * u * u + y * y * v * v;
  }

  lemma {:induction false} PowUnit(a: Complex, n: nat)
    requires NormSq(a) == 1.0
    ensures NormSq(Pow(a, n)) == 1.0
  {
    if n > 0 {
      PowUnit(a, n - 1);
      NormMul(a, Pow(a, n - 1));
    }
  }

  // ── Splitting a polynomial into its even and odd coefficients ──

  function Every2(z: seq<Complex>, bit: nat): (h: seq<Complex>)
    requires |z| % 2 == 0 && bit < 2
    ensures |h| == |z| / 2
  {
    seq(|z| / 2, t requires 0 <= t < |z| / 2 => z[2 * t + bit])
  }

  lemma DecimateStep(z0: Complex, z1: Complex, c: Complex, a: Complex, b: Complex)
    ensures Add(z0, Mul(c, Add(z1, Mul(c, Add(a, Mul(c, b))))))
         == Add(Add(z0, Mul(Mul(c, c), a)), Mul(c, Add(z1, Mul(Mul(c, c), b))))
  {
    MulAdd(c, a, Mul(c, b));
    MulAdd(c, z1, Add(Mul(c, a), Mul(c, Mul(c, b))));
    MulAdd(c, Mul(c, a), Mul(c, Mul(c, b)));
    MulAdd(c, z1, Mul(Mul(c, c), b));
    MulAssoc(c, c, a);
    MulAssoc(c, c, b);
  }

  lemma MulAdd(c: Complex, a: Complex, b: Complex)
    ensures Mul(c, Add(a, b)) == Add(Mul(c, a), Mul(c, b))
  {
    assert c.re * (a.re + b.re) == c.re * a.re + c.re * b.re;
    assert c.im * (a.im + b.im) == c.im * a.im + c.im * b.im;
    assert c.re * (a.im + b.im) == c.re * a.im + c.re * b.im;
    assert c.im * (a.re + b.re) == c.im * a.re + c.im * b.re;
  }

  lemma DecimateNil(c: Complex)
    ensures Add(ZERO, Mul(c, ZERO)) == ZERO
  {}

  /** Decimation in time: a polynomial is E(c^2) + c O(c^2). */
  lemma {:induction false} Decimate(z: seq<Complex>, c: Complex)
    requires |z| % 2 == 0
    ensures Eval(z, c) == Add(Eval(Every2(z, 0), Mul(c, c)), Mul(c, Eval(Every2(z, 1), Mul(c, c))))
    decreases |z|
  {
    hide Mul, Add;
    if |z| == 0 {
      DecimateNil(c);
    } else {
      var t := z[2..];
      Decimate(t, c);
      assert z[1..][1..] == t;
      assert Every2(z, 0)[1..] == Every2(t, 0);
      assert Every2(z, 1)[1..] == Every2(t, 1);
      DecimateStep(z[0], z[1], c, Eval(Every2(t, 0), Mul(c, c)), Eval(Every2(t, 1), Mul(c, c)));
    }
  }
}
