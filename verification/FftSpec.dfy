/**
 The discrete Fourier transform as a defining sum, and the decimation-in-time recursion that the
 in-place stages of the transform follow.
 */
module FftSpec {
  import opened Powers
  import opened Complex

  /** Bit reversal of the low `l` bits. */
  function Rev(l: nat, i: nat): nat {
    if l == 0 then 0 else (if i % 2 == 1 then Pow2(l - 1) else 0) + Rev(l - 1, i / 2)
  }

  /** The defining sum of the DFT at bin `k`, over the first `n` terms. */
  ghost function DftSum(x: seq<Complex>, w: Complex, k: nat, n: nat): Complex
    requires n <= |x|
  {
    if n == 0 then ZERO else Add(DftSum(x, w, k, n - 1), Mul(x[n - 1], Pow(w, k * (n - 1))))
  }

  /** The unnormalised DFT of `x` at bin `k`, for the root of unity `w`. */
  ghost function Dft(x: seq<Complex>, w: Complex, k: nat): Complex {
    DftSum(x, w, k, |x|)
  }

  lemma {:induction false} EvalSnoc(z: seq<Complex>, a: Complex, c: Complex)
    ensures Eval(z + [a], c) == Add(Eval(z, c), Mul(a, Pow(c, |z|)))
  {
    hide Mul;
    if |z| == 0 {
      hide Add;
      assert z + [a] == [a] && [a][1..] == [];
      EvalOne(a, c);
    } else {
      EvalSnoc(z[1..], a, c);
      assert (z + [a])[1..] == z[1..] + [a];
      MulAdd(c, Eval(z[1..], c), Mul(a, Pow(c, |z| - 1)));
      MulComm(c, Mul(a, Pow(c, |z| - 1)));
      MulAssoc(a, Pow(c, |z| - 1), c);
      MulComm(c, Pow(c, |z| - 1));
    }
  }

  lemma EvalOne(a: Complex, c: Complex)
    ensures Add(a, Mul(c, ZERO)) == Add(ZERO, Mul(a, ONE))
  {}

  /** The DFT is polynomial evaluation at the powers of the root. */
  lemma DftIsEval(x: seq<Complex>, w: Complex, k: nat)
    ensures Dft(x, w, k) == Eval(x, Pow(w, k))
  {
    DftSumIsEval(x, w, k, |x|);
    assert x[..|x|] == x;
  }

  lemma {:induction false} DftSumIsEval(x: seq<Complex>, w: Complex, k: nat, n: nat)
    requires n <= |x|
    ensures DftSum(x, w, k, n) == Eval(x[..n], Pow(w, k))
  {
    hide Mul, Add;
    if n > 0 {
      DftSumIsEval(x, w, k, n - 1);
      assert x[..n] == x[..n - 1] + [x[n - 1]];
      EvalSnoc(x[..n - 1], x[n - 1], Pow(w, k));
      PowMul(w, k, n - 1);
    }
  }

  // ── Decimation in time ──

  /** The coefficients that stage `s` of the transform has combined in block `q`. */
  ghost function Block(z: seq<Complex>, l: nat, s: nat, q: nat): (b: seq<Complex>)
    requires |z| == Pow2(l) && s <= l && q < Pow2(l - s)
    ensures |b| == Pow2(s)
    decreases l - s
  {
    if s == l then z else Every2(Block(z, l, s + 1, q / 2), q % 2)
  }

  /** The root of unity of order 2^s, given the root `v` of order 2^(l+1). */
  ghost function StageRoot(v: Complex, l: nat, s: nat): Complex
    requires s <= l + 1
  {
    Pow(v, Pow2(l + 1 - s))
  }

  /** What position `i` of the buffer holds after stage `s`. */
  ghost function StageValue(z: seq<Complex>, v: Complex, l: nat, s: nat, i: nat): Complex
    requires |z| == Pow2(l) && s <= l && i < Pow2(l)
  {
    BlockIndex(l, s, i);
    var q, k := i / Pow2(s), i % Pow2(s);
    Eval(Block(z, l, s, q), Pow(StageRoot(v, l, s), k))
  }

  lemma {:induction false} Pow2Add(a: nat, b: nat)
    ensures Pow2(a + b) == Pow2(a) * Pow2(b)
  {
    if a > 0 { Pow2Add(a - 1, b); }
  }

  lemma MulMono(a: int, b: int, c: nat)
    requires a <= b
    ensures a * c <= b * c
  {}

  lemma DivBelow(i: nat, p: nat, r: nat)
    requires p > 0 && i < p * r
    ensures i / p < r
  {
    if r <= i / p {
      MulMono(r, i / p, p);
    }
  }

  lemma BlockIndex(l: nat, s: nat, i: nat)
    requires s <= l && i < Pow2(l)
    ensures 0 <= i / Pow2(s) < Pow2(l - s) && 0 <= i % Pow2(s)
  {
    hide Pow2;
    Pow2Add(s, l - s);
    DivBelow(i, Pow2(s), Pow2(l - s));
  }

  lemma DivModOf(p: nat, q: nat, j: nat)
    requires j < p
    ensures 0 <= q * p + j
    ensures (q * p + j) / p == q && (q * p + j) % p == j
  {
    var i := q * p + j;
    var d := i / p;
    assert i == d * p + i % p;
    if d < q {
      MulMono(d + 1, q, p);
    } else if q < d {
      MulMono(q + 1, d, p);
    }
  }

  lemma Pow2Unfold(s: nat)
    ensures Pow2(s + 1) == 2 * Pow2(s) && Pow2(0) == 1
  {}

  lemma MulSplit(t: nat, b: nat, h: nat)
    ensures (2 * t + b) * h == t * (2 * h) + b * h
  {}

  /** Bit reversal puts the coefficient at the reversed index in every one-element block. */
  lemma {:induction false} BlockAt(z: seq<Complex>, l: nat, s: nat, q: nat, t: nat)
    requires |z| == Pow2(l) && s <= l && q < Pow2(l - s) && t < Pow2(s)
    ensures 0 <= t * Pow2(l - s) + Rev(l - s, q) < |z|
    ensures Block(z, l, s, q)[t] == z[t * Pow2(l - s) + Rev(l - s, q)]
    decreases l - s
  {
    hide Pow2;
    assert Pow2(0) == 1 by { Pow2Unfold(0); }
    Pow2Unfold(s);
    if s < l {
      Pow2Unfold(l - s - 1);
      var h := Pow2(l - s - 1);
      var b := q % 2;
      BlockAt(z, l, s + 1, q / 2, 2 * t + b);
      MulSplit(t, b, h);
      assert b * h == if b == 1 then h else 0;
    } else {
      assert t * Pow2(0) == t;
    }
  }

  /** Before the first stage, position `i` holds the coefficient at the bit-reversed index. */
  lemma StageZero(z: seq<Complex>, v: Complex, l: nat, i: nat)
    requires |z| == Pow2(l) && i < Pow2(l)
    ensures Rev(l, i) < |z|
    ensures StageValue(z, v, l, 0, i) == z[Rev(l, i)]
  {
    hide Mul, Add;
    BlockAt(z, l, 0, i, 0);
    var b := Block(z, l, 0, i);
    assert b == [b[0]] && b[1..] == [];
    assert 0 * Pow2(l) + Rev(l, i) == Rev(l, i);
    assert i / Pow2(0) == i && i % Pow2(0) == 0;
    assert Eval([], Pow(StageRoot(v, l, 0), 0)) == ZERO;
    AddZero(b[0], Pow(StageRoot(v, l, 0), 0));
  }

  lemma AddZero(a: Complex, c: Complex)
    ensures Add(a, Mul(c, ZERO)) == a
  {}

  /** After the last stage, position `k` holds the DFT of the whole sequence at bin `k`. */
  lemma StageLast(z: seq<Complex>, v: Complex, l: nat, k: nat)
    requires |z| == Pow2(l) && k < Pow2(l)
    ensures StageValue(z, v, l, l, k) == Dft(z, Mul(v, v), k)
  {
    hide Mul, Add;
    DivModOf(Pow2(l), 0, k);
    PowTwo(v);
    assert Pow2(1) == 2;
    DftIsEval(z, Mul(v, v), k);
  }

  lemma PowTwo(v: Complex)
    ensures Pow(v, 2) == Mul(v, v)
  {
    hide Mul;
    MulOne(v);
    assert Pow(v, 0) == ONE && Pow(v, 1) == Mul(v, ONE) && Pow(v, 2) == Mul(v, Pow(v, 1));
  }

  lemma RootSquare(v: Complex, l: nat, s: nat)
    requires 1 <= s <= l + 1
    ensures Mul(StageRoot(v, l, s), StageRoot(v, l, s)) == StageRoot(v, l, s - 1)
  {
    hide Mul;
    PowAdd(v, Pow2(l + 1 - s), Pow2(l + 1 - s));
  }

  lemma RootHalf(v: Complex, l: nat, s: nat)
    requires 1 <= s <= l + 1 && Pow(v, Pow2(l)) == MINUS_ONE
    ensures Pow(StageRoot(v, l, s), Pow2(s - 1)) == MINUS_ONE
  {
    hide Mul;
    PowMul(v, Pow2(l + 1 - s), Pow2(s - 1));
    Pow2Add(l + 1 - s, s - 1);
  }

  lemma StageValueAt(z: seq<Complex>, v: Complex, l: nat, s: nat, i: nat, q: nat, k: nat)
    requires |z| == Pow2(l) && s <= l && i < Pow2(l) && i / Pow2(s) == q && i % Pow2(s) == k
    ensures q < Pow2(l - s)
    ensures StageValue(z, v, l, s, i) == Eval(Block(z, l, s, q), Pow(StageRoot(v, l, s), k))
  {
    hide Pow2, Block, Eval, Pow, StageRoot;
    BlockIndex(l, s, i);
  }

  lemma BlockChildren(z: seq<Complex>, l: nat, s: nat, q: nat)
    requires |z| == Pow2(l) && 1 <= s <= l && q < Pow2(l - s)
    ensures 2 * q + 1 < Pow2(l - s + 1) && |Block(z, l, s, q)| % 2 == 0
    ensures Block(z, l, s - 1, 2 * q) == Every2(Block(z, l, s, q), 0)
    ensures Block(z, l, s - 1, 2 * q + 1) == Every2(Block(z, l, s, q), 1)
  {
    hide Every2, Pow2;
    Pow2Unfold(s - 1);
    Pow2Unfold(l - s);
  }

  /** One butterfly takes a pair of stage `s - 1` values to the pair of stage `s` values. */
  lemma ButterflyStep(z: seq<Complex>, v: Complex, l: nat, s: nat, q: nat, lo: nat, j: nat)
    requires |z| == Pow2(l) && 1 <= s <= l && q < Pow2(l - s) && j < Pow2(s - 1)
    requires Pow(v, Pow2(l)) == MINUS_ONE && lo == q * Pow2(s) + j
    ensures lo + Pow2(s - 1) < Pow2(l)
    ensures var hi := lo + Pow2(s - 1);
            var t := Mul(Pow(StageRoot(v, l, s), j), StageValue(z, v, l, s - 1, hi));
            && StageValue(z, v, l, s, lo) == Add(StageValue(z, v, l, s - 1, lo), t)
            && StageValue(z, v, l, s, hi) == Sub(StageValue(z, v, l, s - 1, lo), t)
  {
    hide Mul, Add, Sub, Eval, Pow, Every2, Pow2, StageValue, StageRoot, Block;
    var h, r, r' := Pow2(s - 1), StageRoot(v, l, s), StageRoot(v, l, s - 1);
    ButterflyIndex(l, s, q, j);
    var hi := lo + h;
    StageValueAt(z, v, l, s, lo, q, j);
    StageValueAt(z, v, l, s, hi, q, j + h);
    StageValueAt(z, v, l, s - 1, lo, 2 * q, j);
    StageValueAt(z, v, l, s - 1, hi, 2 * q + 1, j);
    BlockChildren(z, l, s, q);
    ButterflyRoots(v, l, s, j);
    var b, c, d := Block(z, l, s, q), Pow(r, j), Pow(r, j + h);
    Decimate(b, c);
    Decimate(b, d);
    AddNegated(Eval(Every2(b, 0), Pow(r', j)), c, d, Eval(Every2(b, 1), Pow(r', j)));
  }

  /** The twiddles of the two halves are opposite, and share the square that the previous stage used. */
  lemma ButterflyRoots(v: Complex, l: nat, s: nat, j: nat)
    requires 1 <= s <= l && Pow(v, Pow2(l)) == MINUS_ONE
    ensures var c, d := Pow(StageRoot(v, l, s), j), Pow(StageRoot(v, l, s), j + Pow2(s - 1));
            && d == Cx(-c.re, -c.im)
            && Mul(c, c) == Mul(d, d) == Pow(StageRoot(v, l, s - 1), j)
  {
    hide Mul, Pow, Pow2, StageRoot;
    var r := StageRoot(v, l, s);
    RootSquare(v, l, s);
    RootHalf(v, l, s);
    PowAdd(r, j, Pow2(s - 1));
    MulMinusOne(Pow(r, j));
    PowOfProduct(r, r, j);
  }

  lemma ButterflyIndex(l: nat, s: nat, q: nat, j: nat)
    requires 1 <= s <= l && q < Pow2(l - s) && j < Pow2(s - 1)
    ensures 0 <= q * Pow2(s) + j < q * Pow2(s) + j + Pow2(s - 1) < Pow2(l)
    ensures 2 * q + 1 < Pow2(l - s + 1)
    ensures var lo, hi, h := q * Pow2(s) + j, q * Pow2(s) + j + Pow2(s - 1), Pow2(s - 1);
            && lo / Pow2(s) == q && lo % Pow2(s) == j && hi / Pow2(s) == q && hi % Pow2(s) == j + h
            && lo / h == 2 * q && lo % h == j && hi / h == 2 * q + 1 && hi % h == j
  {
    hide Pow2;
    Pow2Add(s, l - s);
    Pow2Unfold(s - 1);
    Pow2Unfold(l - s);
    MulMono(q + 1, Pow2(l - s), Pow2(s));
    MulSucc(q, Pow2(s));
    HalfBlocks(q, Pow2(s - 1), j);
  }

  lemma MulSucc(q: nat, p: nat)
    ensures 0 <= q * p && (q + 1) * p == q * p + p
  {}

  lemma HalfBlocks(q: nat, h: nat, j: nat)
    requires j < h
    ensures 0 <= q * (2 * h)
    ensures var lo, hi, p := q * (2 * h) + j, q * (2 * h) + j + h, 2 * h;
            && lo / p == q && lo % p == j && hi / p == q && hi % p == j + h
            && lo / h == 2 * q && lo % h == j && hi / h == 2 * q + 1 && hi % h == j
  {
    MulSplit(q, 0, h);
    MulSplit(q, 1, h);
    DivModOf(2 * h, q, j);
    DivModOf(2 * h, q, j + h);
    DivModOf(h, 2 * q, j);
    DivModOf(h, 2 * q + 1, j);
  }

  lemma MulMinusOne(c: Complex)
    ensures Mul(c, MINUS_ONE) == Cx(-c.re, -c.im)
    ensures Mul(Mul(c, MINUS_ONE), Mul(c, MINUS_ONE)) == Mul(c, c)
  {}

  lemma AddNegated(e: Complex, c: Complex, d: Complex, o: Complex)
    requires d == Cx(-c.re, -c.im)
    ensures Add(e, Mul(d, o)) == Sub(e, Mul(c, o))
  {}
}
