/**
 Facts about the packed real transform that do not mention the buffer: bit reversal is an involution,
 the conjugate-pair step recovers the spectrum of a real signal, and the DFT with the conjugate root inverts
 the DFT.
 */
module FftTheory {
  import opened Powers
  import opened Complex
  import opened FftSpec

  // ── Bit reversal ──

  lemma {:induction false} RevHigh(l: nat, hi: nat, lo: nat)
    requires l >= 1 && hi < 2 && lo < Pow2(l - 1)
    ensures Rev(l, (if hi == 1 then Pow2(l - 1) else 0) + lo) == 2 * Rev(l - 1, lo) + hi
  {
    if l >= 2 {
      hide Pow2;
      Pow2Unfold(l - 2);
      RevHigh(l - 1, hi, lo / 2);
    }
  }

  lemma {:induction false} RevBound(l: nat, i: nat)
    ensures Rev(l, i) < Pow2(l)
  {
    if l >= 1 {
      RevBound(l - 1, i / 2);
      assert i % 2 == 0 || i % 2 == 1;
    }
  }

  lemma {:induction false} RevInvolution(l: nat, i: nat)
    requires i < Pow2(l)
    ensures Rev(l, i) < Pow2(l) && Rev(l, Rev(l, i)) == i
  {
    RevBound(l, i);
    if l >= 1 {
      RevInvolution(l - 1, i / 2);
      RevHigh(l, i % 2, Rev(l - 1, i / 2));
    }
  }

  // ── Packed buffers ──

  /** A buffer of interleaved re/im pairs as complex values. */
  function Pairs(b: seq<real>): (z: seq<Complex>)
    ensures |z| == |b| / 2
  {
    seq(|b| / 2, t requires 0 <= t < |b| / 2 => Cx(b[2 * t], b[2 * t + 1]))
  }

  function RealSeq(x: seq<real>): (z: seq<Complex>)
    ensures |z| == |x|
  {
    seq(|x|, t requires 0 <= t < |x| => Real(x[t]))
  }

  /** The DFT of a real signal at bin `k`: the sum of x[n] * w^(k n). */
  ghost function RealDft(x: seq<real>, w: Complex, k: nat): Complex {
    Dft(RealSeq(x), w, k)
  }

  /** The packed spectrum: bins 0 and n/2 (both real) in the first pair, bin k in pair k. */
  ghost function PackedBins(x: seq<real>, w: Complex): (p: seq<Complex>)
    ensures |p| == |x| / 2
  {
    var m := |x| / 2;
    seq(m, k requires 0 <= k < m =>
      if k == 0 then Cx(RealDft(x, w, 0).re, RealDft(x, w, m).re) else RealDft(x, w, k))
  }

  /** `b` is the packed DFT of the real signal `x`. */
  ghost predicate IsPackedDft(b: seq<real>, x: seq<real>, w: Complex) {
    |b| == |x| && Pairs(b) == PackedBins(x, w)
  }

  /** The packed slots spelled out. */
  lemma PackedSpelled(b: seq<real>, x: seq<real>, w: Complex)
    requires IsPackedDft(b, x, w) && |b| % 2 == 0 && |b| > 0
    ensures b[0] == RealDft(x, w, 0).re && b[1] == RealDft(x, w, |x| / 2).re
    ensures forall k :: 0 < k < |b| / 2 ==> b[2 * k] == RealDft(x, w, k).re && b[2 * k + 1] == RealDft(x, w, k).im
  {
    hide RealDft;
    var m := |b| / 2;
    assert Pairs(b)[0] == Cx(b[0], b[1]) && PackedBins(x, w)[0] == Cx(RealDft(x, w, 0).re, RealDft(x, w, m).re);
    forall k | 0 < k < m ensures b[2 * k] == RealDft(x, w, k).re && b[2 * k + 1] == RealDft(x, w, k).im {
      assert Pairs(b)[k] == Cx(b[2 * k], b[2 * k + 1]) && PackedBins(x, w)[k] == RealDft(x, w, k);
    }
  }

  /** `w` stands for exp(-2 pi i / 2^(l+1)): it has modulus one and its (2^(l-1))-th power is -i. */
  ghost predicate IsRoot(w: Complex, l: nat) {
    l >= 1 && NormSq(w) == 1.0 && Pow(w, Pow2(l - 1)) == MINUS_I
  }

  const PLUS_I := Cx(0.0, 1.0)

  /** For size 4 the root is -i itself; i has the same half-size power but is no such root. */
  lemma SmallestRoot()
    ensures IsRoot(MINUS_I, 1) && !IsRoot(PLUS_I, 1)
    ensures NormSq(PLUS_I) == 1.0 && Pow(PLUS_I, 2) == MINUS_ONE
  {
    UnitsOfI();
    hide Mul, NormSq;
    PowOneStep(MINUS_I);
    PowOneStep(PLUS_I);
    assert Pow2(0) == 1 && Pow(PLUS_I, 2) == Mul(PLUS_I, Pow(PLUS_I, 1));
  }

  lemma UnitsOfI()
    ensures NormSq(MINUS_I) == 1.0 == NormSq(PLUS_I) && Mul(PLUS_I, PLUS_I) == MINUS_ONE
  {}

  lemma RootPowers(w: Complex, l: nat)
    requires IsRoot(w, l)
    ensures Pow(w, Pow2(l)) == MINUS_ONE && Pow(Conj(w), Pow2(l)) == MINUS_ONE
    ensures Pow(Mul(w, w), Pow2(l - 1)) == MINUS_ONE
    ensures Pow(Mul(Conj(w), Conj(w)), Pow2(l - 1)) == MINUS_ONE
  {
    hide Pow, Mul, NormSq;
    SquareOfI();
    Pow2Unfold(l - 1);
    PowAdd(w, Pow2(l - 1), Pow2(l - 1));
    PowConj(w, Pow2(l));
    PowOfProduct(w, w, Pow2(l - 1));
    PowOfProduct(Conj(w), Conj(w), Pow2(l - 1));
    PowConj(w, Pow2(l - 1));
  }

  lemma SquareOfI()
    ensures Mul(MINUS_I, MINUS_I) == MINUS_ONE == Mul(Conj(MINUS_I), Conj(MINUS_I))
  {
    MulMinusI(MINUS_I);
    ConjMul(MINUS_I, MINUS_I);
  }

  lemma MulMinusI(a: Complex)
    ensures Mul(a, MINUS_I) == Cx(a.im, -a.re)
  {}

  // ── Conjugate-pair post-processing ──

  /** A product, named so that proofs about sums of products stay linear. */
  function Times(a: real, b: real): real { a * b }

  /** The value written at bin `k` from the half-size bins `zk`, `zm` (= bin m-k) and the twiddle w^k. */
  function Post(zk: Complex, zm: Complex, w: Complex): Complex {
    PostOf(zk.re + zm.re, zk.re - zm.re, zk.im + zm.im, zk.im - zm.im, w)
  }

  function PostOf(sumR: real, diffR: real, sumI: real, diffI: real, w: Complex): Complex {
    Cx(sumR * 0.5 + (Times(w.re, sumI) + Times(w.im, diffR)) * 0.5,
       diffI * 0.5 + (Times(w.im, sumI) - Times(w.re, diffR)) * 0.5)
  }

  /** The inverse step: recovers the half-size bin `k` from spectrum bins `xk`, `xm`. */
  function Pre(xk: Complex, xm: Complex, w: Complex): Complex {
    PreOf(xk.re + xm.re, xk.im - xm.im, xk.re - xm.re, xk.im + xm.im, w)
  }

  function PreOf(pr: real, pi: real, qr: real, qi: real, w: Complex): Complex {
    Cx(pr * 0.5 + (Times(w.im, qr) - Times(w.re, qi)) * 0.5,
       pi * 0.5 + (Times(w.re, qr) + Times(w.im, qi)) * 0.5)
  }

  lemma TimesIsProduct(a: real, b: real)
    ensures Times(a, b) == a * b && Times(a, -b) == -Times(a, b)
  {}

  lemma PostOfParts(e: Complex, o: Complex, w: Complex)
    ensures Post(Cx(e.re - o.im, e.im + o.re), Cx(e.re + o.im, o.re - e.im), w) == Add(e, Mul(w, o))
  {}

  /** On a unit twiddle the two steps undo each other, pair by pair. */
  lemma PreUndoesPost(zk: Complex, zm: Complex, wk: Complex, wm: Complex)
    requires NormSq(wk) == 1.0 && wm == Cx(-wk.re, wk.im)
    ensures Pre(Post(zk, zm, wk), Post(zm, zk, wm), wk) == zk
    ensures Post(Pre(zk, zm, wk), Pre(zm, zk, wm), wk) == zk
  {
    var a, b, c, s := wk.re, wk.im, wk.re * wk.im, wk.re * wk.re;
    assert b * b == 1.0 - s;
    var si, dr := zk.im + zm.im, zk.re - zm.re;
    assert b * (a * si + b * dr) - a * (b * si - a * dr) == dr;
    assert a * (a * si + b * dr) + b * (b * si - a * dr) == si;
  }

  /** Half-size bins of a real signal: even part plus i times odd part. */
  lemma {:induction false} PairsEval(x: seq<real>, c: Complex)
    requires |x| % 2 == 0
    ensures var e, o := Eval(Every2(RealSeq(x), 0), c), Eval(Every2(RealSeq(x), 1), c);
            Eval(Pairs(x), c) == Cx(e.re - o.im, e.im + o.re)
    decreases |x|
  {
    if |x| == 0 {
    } else {
      hide Mul;
      var y := x[2..];
      PairsEval(y, c);
      assert Pairs(x)[1..] == Pairs(y);
      assert Every2(RealSeq(x), 0)[1..] == Every2(RealSeq(y), 0);
      assert Every2(RealSeq(x), 1)[1..] == Every2(RealSeq(y), 1);
      MulTimesI(c, Eval(Every2(RealSeq(y), 0), c), Eval(Every2(RealSeq(y), 1), c));
    }
  }

  lemma MulTimesI(c: Complex, e: Complex, o: Complex)
    ensures var p, q := Mul(c, e), Mul(c, o); Mul(c, Cx(e.re - o.im, e.im + o.re)) == Cx(p.re - q.im, p.im + q.re)
  {}

  /** A real polynomial commutes with conjugation. */
  lemma {:induction false} EvalConj(x: seq<Complex>, c: Complex)
    requires forall t :: 0 <= t < |x| ==> x[t].im == 0.0
    ensures Eval(x, Conj(c)) == Conj(Eval(x, c))
  {
    if |x| > 0 {
      hide Mul;
      EvalConj(x[1..], c);
      ConjMul(c, Eval(x[1..], c));
    }
  }

  lemma Cancel(a: Complex, b: Complex, u: Complex)
    requires NormSq(u) == 1.0 && Mul(a, u) == Mul(b, u)
    ensures a == b
  {
    hide Mul, NormSq;
    MulAssoc(a, u, Conj(u));
    MulAssoc(b, u, Conj(u));
    UnitConj(u);
    MulOne(a);
    MulOne(b);
  }

  /** The twiddle at the mirrored bin is minus the conjugate. */
  lemma MirrorTwiddle(w: Complex, m: nat, k: nat)
    requires NormSq(w) == 1.0 && Pow(w, m) == MINUS_ONE && k <= m
    ensures NormSq(Pow(w, k)) == 1.0
    ensures Pow(w, m - k) == Cx(-Pow(w, k).re, Pow(w, k).im)
    ensures Mul(Pow(w, m - k), Pow(w, m - k)) == Conj(Mul(Pow(w, k), Pow(w, k)))
  {
    hide Pow;
    PowUnit(w, k);
    PowAdd(w, m - k, k);
    var u := Pow(w, k);
    assert Mul(Cx(-u.re, u.im), u) == MINUS_ONE;
    Cancel(Pow(w, m - k), Cx(-u.re, u.im), u);
  }

  /** The whole post-processing step on the half-size bins. */
  ghost function PostAll(z: seq<Complex>, w: Complex): (p: seq<Complex>)
    ensures |p| == |z|
  {
    seq(|z|, k requires 0 <= k < |z| =>
      if k == 0 then Cx(z[0].re + z[0].im, z[0].re - z[0].im) else Post(z[k], z[|z| - k], Pow(w, k)))
  }

  /** The whole pre-processing step: the half-size bins recovered from a packed spectrum. */
  ghost function PreAll(p: seq<Complex>, w: Complex): (z: seq<Complex>)
    ensures |z| == |p|
  {
    seq(|p|, k requires 0 <= k < |p| =>
      if k == 0 then Cx((p[0].re + p[0].im) * 0.5, (p[0].re - p[0].im) * 0.5) else Pre(p[k], p[|p| - k], Pow(w, k)))
  }

  /** At the midpoint the twiddle is -i and both steps are conjugation. */
  lemma Midpoint(z: Complex)
    ensures Post(z, z, MINUS_I) == Conj(z) == Pre(z, z, MINUS_I)
  {}

  /** Pre- and post-processing are inverse to each other on whole spectra. */
  lemma PreAllUndoesPostAll(z: seq<Complex>, w: Complex, l: nat)
    requires IsRoot(w, l) && |z| == Pow2(l)
    ensures PreAll(PostAll(z, w), w) == z
    ensures PostAll(PreAll(z, w), w) == z
  {
    hide Pow, Post, Pre, IsRoot, PostAll, PreAll, Pow2;
    forall k | 0 <= k < |z|
      ensures PreAll(PostAll(z, w), w)[k] == z[k]
      ensures PostAll(PreAll(z, w), w)[k] == z[k]
    {
      PrePostAt(z, w, l, k);
    }
  }

  lemma PrePostAt(z: seq<Complex>, w: Complex, l: nat, k: nat)
    requires IsRoot(w, l) && k < |z| == Pow2(l)
    ensures PreAll(PostAll(z, w), w)[k] == z[k]
    ensures PostAll(PreAll(z, w), w)[k] == z[k]
  {
    hide Pow, Post, Pre, NormSq, Mul, Pow2, IsRoot, PostAll, PreAll;
    PostAllAt(z, w, k);
    PostAllAt(PostAll(z, w), w, k);
    PostAllAt(PreAll(z, w), w, k);
    if k > 0 {
      UnitRoot(w, l);
      RootPowers(w, l);
      MirrorTwiddle(w, |z|, k);
      var m := |z| - k;
      PreUndoesPost(z[k], z[m], Pow(w, k), Pow(w, m));
      PostAllAt(z, w, m);
    }
  }

  /** Positions already rewritten once pairs below `k` are done: 0, the midpoint, and [1, k) with its mirror. */
  ghost predicate PairsDone(p: seq<Complex>, was: seq<Complex>, goal: seq<Complex>, k: nat) {
    |p| == |was| == |goal| &&
    forall i :: 0 <= i < |p| ==> p[i] == if i < k || |p| - k < i || i == |p| / 2 then goal[i] else was[i]
  }

  lemma PairsFinished(p: seq<Complex>, was: seq<Complex>, goal: seq<Complex>)
    requires |p| % 2 == 0 && PairsDone(p, was, goal, |p| / 2)
    ensures p == goal
  {}

  lemma PairsStep(p: seq<Complex>, p': seq<Complex>, was: seq<Complex>, goal: seq<Complex>, k: nat)
    requires PairsDone(p, was, goal, k) && 1 <= k < |p| / 2
    requires p' == p[k := goal[k]][|p| - k := goal[|p| - k]]
    ensures PairsDone(p', was, goal, k + 1)
  {}

  lemma PostStep(p: seq<Complex>, p': seq<Complex>, z: seq<Complex>, w: Complex, k: nat)
    requires PairsDone(p, z, PostAll(z, w), k) && 1 <= k < |p| / 2
    requires var m := |p| - k; p' == p[k := Post(p[k], p[m], Pow(w, k))][m := Post(p[m], p[k], Pow(w, m))]
    ensures PairsDone(p', z, PostAll(z, w), k + 1)
  {
    hide Pow, Post;
    PairsStep(p, p', z, PostAll(z, w), k);
  }

  lemma PreStep(p: seq<Complex>, p': seq<Complex>, z: seq<Complex>, w: Complex, k: nat)
    requires PairsDone(p, z, PreAll(z, w), k) && 1 <= k < |p| / 2
    requires var m := |p| - k; p' == p[k := Pre(p[k], p[m], Pow(w, k))][m := Pre(p[m], p[k], Pow(w, m))]
    ensures PairsDone(p', z, PreAll(z, w), k + 1)
  {
    hide Pow, Pre;
    PairsStep(p, p', z, PreAll(z, w), k);
  }

  lemma PairsBegin(z: seq<Complex>, goal: seq<Complex>)
    requires |goal| == |z| > 0
    ensures PairsDone(z[0 := goal[0]][|z| / 2 := goal[|z| / 2]], z, goal, 1)
  {}

  lemma PostAllAt(z: seq<Complex>, w: Complex, k: nat)
    requires k < |z|
    ensures PostAll(z, w)[k]
         == if k == 0 then Cx(z[0].re + z[0].im, z[0].re - z[0].im) else Post(z[k], z[|z| - k], Pow(w, k))
    ensures PreAll(z, w)[k]
         == if k == 0 then Cx((z[0].re + z[0].im) * 0.5, (z[0].re - z[0].im) * 0.5)
            else Pre(z[k], z[|z| - k], Pow(w, k))
  {
    hide Pow, Post, Pre;
  }

  lemma EndsAndMiddle(z: seq<Complex>, w: Complex)
    requires |z| >= 2 && |z| % 2 == 0 && Pow(w, |z| / 2) == MINUS_I
    ensures PostAll(z, w)[0] == Cx(z[0].re + z[0].im, z[0].re - z[0].im)
    ensures PreAll(z, w)[0] == Cx((z[0].re + z[0].im) * 0.5, (z[0].re - z[0].im) * 0.5)
    ensures PostAll(z, w)[|z| / 2] == Conj(z[|z| / 2]) == PreAll(z, w)[|z| / 2]
  {
    hide Pow, Post, Pre, Conj, PostAll, PreAll;
    var m := |z| / 2;
    PostAllAt(z, w, 0);
    PostAllAt(z, w, m);
    assert |z| - m == m;
    Midpoint(z[m]);
  }

  /** The half-size bins of a real signal. */
  ghost function HalfBins(x: seq<real>, w: Complex): (z: seq<Complex>)
    ensures |z| == |x| / 2
  {
    seq(|x| / 2, k requires 0 <= k < |x| / 2 => Dft(Pairs(x), Mul(w, w), k))
  }

  lemma UnitRoot(w: Complex, l: nat)
    requires IsRoot(w, l)
    ensures NormSq(w) == 1.0 && l >= 1
  {
    hide NormSq, Pow, Pow2;
  }

  lemma HalfBinAt(x: seq<real>, w: Complex, k: nat)
    requires |x| % 2 == 0 && k < |x| / 2
    ensures HalfBins(x, w)[k] == Eval(Pairs(x), Mul(Pow(w, k), Pow(w, k)))
  {
    hide Mul, Pow, Eval, Dft, Pairs;
    DftIsEval(Pairs(x), Mul(w, w), k);
    PowOfProduct(w, w, k);
  }

  /** Half-size bins k and m-k, from the even and odd parts of the signal. */
  lemma MirroredBins(x: seq<real>, w: Complex, m: nat, k: nat)
    requires NormSq(w) == 1.0 && Pow(w, m) == MINUS_ONE && 1 <= k < m && |x| == 2 * m
    ensures var c := Mul(Pow(w, k), Pow(w, k));
            var e, o := Eval(Every2(RealSeq(x), 0), c), Eval(Every2(RealSeq(x), 1), c);
            && HalfBins(x, w)[k] == Cx(e.re - o.im, e.im + o.re)
            && HalfBins(x, w)[m - k] == Cx(e.re + o.im, o.re - e.im)
  {
    hide Mul, Pow, Eval, NormSq, HalfBins, Pairs, RealSeq, Every2;
    HalfBinAt(x, w, k);
    HalfBinAt(x, w, m - k);
    MirrorTwiddle(w, m, k);
    var c := Mul(Pow(w, k), Pow(w, k));
    PairsEval(x, c);
    PairsEval(x, Conj(c));
    Every2Real(x);
    EvalConj(Every2(RealSeq(x), 0), c);
    EvalConj(Every2(RealSeq(x), 1), c);
  }

  /** Post-processing turns the half-size bins into the spectrum of the real signal. */
  lemma PostIsRealDft(x: seq<real>, w: Complex, l: nat, k: nat)
    requires IsRoot(w, l) && |x| == 2 * Pow2(l) && 1 <= k < Pow2(l)
    ensures var z := HalfBins(x, w); Post(z[k], z[Pow2(l) - k], Pow(w, k)) == RealDft(x, w, k)
  {
    hide Pow, Mul, Dft, Post, Eval, Pow2, Every2, HalfBins, RealSeq, IsRoot, NormSq, Add;
    UnitRoot(w, l);
    RootPowers(w, l);
    MirroredBins(x, w, Pow2(l), k);
    var c, r := Pow(w, k), RealSeq(x);
    PostOfParts(Eval(Every2(r, 0), Mul(c, c)), Eval(Every2(r, 1), Mul(c, c)), c);
    DftIsEval(r, w, k);
    Decimate(r, c);
  }

  lemma Every2Real(x: seq<real>)
    requires |x| % 2 == 0
    ensures forall b: nat, t :: b < 2 && 0 <= t < |x| / 2 ==> Every2(RealSeq(x), b)[t].im == 0.0
  {}

  /** Bins 0 and n/2 are real, and are the sum and difference of the two parts of half-size bin 0. */
  lemma EndBins(x: seq<real>, w: Complex, l: nat)
    requires IsRoot(w, l) && |x| == 2 * Pow2(l)
    ensures 0 < |HalfBins(x, w)| == Pow2(l)
    ensures RealDft(x, w, 0) == Real(HalfBins(x, w)[0].re + HalfBins(x, w)[0].im)
    ensures RealDft(x, w, Pow2(l)) == Real(HalfBins(x, w)[0].re - HalfBins(x, w)[0].im)
  {
    hide Pow, Mul, Dft, Eval, Pow2, Every2;
    var m := Pow2(l);
    Pow2Unfold(l);
    RootPowers(w, l);
    var z, r := Pairs(x), RealSeq(x);
    PowZero(w);
    PowZero(Mul(w, w));
    MulOne(ONE);
    DftIsEval(z, Mul(w, w), 0);
    DftIsEval(r, w, 0);
    DftIsEval(r, w, m);
    Decimate(r, ONE);
    Decimate(r, MINUS_ONE);
    MulMinusOne(ONE);
    MulMinusOne(MINUS_ONE);
    MulOne(MINUS_ONE);
    PairsEval(x, ONE);
    var e, o := Eval(Every2(r, 0), ONE), Eval(Every2(r, 1), ONE);
    Every2Real(x);
    EvalConj(Every2(r, 0), ONE);
    EvalConj(Every2(r, 1), ONE);
    assert Conj(ONE) == ONE && e.im == 0.0 && o.im == 0.0;
    MulOne(o);
    MulComm(MINUS_ONE, o);
    MulMinusOne(o);
  }

  lemma PowZero(a: Complex)
    ensures Pow(a, 0) == ONE
  {}

  // ── The DFT with the conjugate root inverts the DFT ──

  ghost function Ones(n: nat): seq<Complex> { seq(n, _ => ONE) }

  lemma {:induction false} EvalAdd(a: seq<Complex>, b: seq<Complex>, c: Complex)
    requires |a| == |b|
    ensures Eval(seq(|a|, k requires 0 <= k < |a| => Add(a[k], b[k])), c) == Add(Eval(a, c), Eval(b, c))
  {
    hide Mul;
    var s := seq(|a|, k requires 0 <= k < |a| => Add(a[k], b[k]));
    if |a| > 0 {
      EvalAdd(a[1..], b[1..], c);
      assert s[1..] == seq(|a| - 1, k requires 0 <= k < |a| - 1 => Add(a[1..][k], b[1..][k]));
      MulAdd(c, Eval(a[1..], c), Eval(b[1..], c));
    }
  }

  lemma {:induction false} EvalScale(f: Complex, a: seq<Complex>, c: Complex)
    ensures Eval(seq(|a|, k requires 0 <= k < |a| => Mul(f, a[k])), c) == Mul(f, Eval(a, c))
  {
    hide Mul, Add;
    var s := seq(|a|, k requires 0 <= k < |a| => Mul(f, a[k]));
    if |a| > 0 {
      EvalScale(f, a[1..], c);
      assert s[1..] == seq(|a| - 1, k requires 0 <= k < |a| - 1 => Mul(f, a[1..][k]));
      MulAdd(f, a[0], Mul(c, Eval(a[1..], c)));
      MulAssoc(c, f, Eval(a[1..], c));
      MulAssoc(f, c, Eval(a[1..], c));
      MulComm(c, f);
    } else {
      MulZero(f);
    }
  }

  lemma MulZero(f: Complex)
    ensures Mul(f, ZERO) == ZERO == Mul(ZERO, f)
  {}

  /** Twisting coefficient k by r^k evaluates at r*c. */
  lemma {:induction false} EvalTwist(r: Complex, a: seq<Complex>, c: Complex)
    ensures Eval(seq(|a|, k requires 0 <= k < |a| => Mul(Pow(r, k), a[k])), c) == Eval(a, Mul(r, c))
  {
    hide Mul, Add;
    var s := seq(|a|, k requires 0 <= k < |a| => Mul(Pow(r, k), a[k]));
    if |a| > 0 {
      var t := a[1..];
      EvalTwist(r, t, c);
      var s' := seq(|t|, k requires 0 <= k < |t| => Mul(Pow(r, k), t[k]));
      assert s[1..] == seq(|s'|, k requires 0 <= k < |s'| => Mul(r, s'[k])) by {
        forall k | 0 <= k < |t| ensures s[1..][k] == Mul(r, s'[k]) {
          MulAssoc(r, Pow(r, k), t[k]);
        }
      }
      EvalScale(r, s', c);
      MulOne(a[0]);
      MulAssoc(c, r, Eval(t, Mul(r, c)));
      MulComm(c, r);
    }
  }

  /** A geometric sum over 2^l terms vanishes when some 2^e-th power of the ratio is -1. */
  lemma {:induction false} GeometricZero(l: nat, c: Complex, e: nat)
    requires e < l && Pow(c, Pow2(e)) == MINUS_ONE
    ensures Eval(Ones(Pow2(l)), c) == ZERO
    decreases l
  {
    hide Mul, Add, Eval;
    var h := Ones(Pow2(l - 1));
    assert Every2(Ones(Pow2(l)), 0) == h && Every2(Ones(Pow2(l)), 1) == h;
    Decimate(Ones(Pow2(l)), c);
    if e == 0 {
      assert c == MINUS_ONE by { PowOneStep(c); }
      var v := Eval(h, Mul(c, c));
      MulComm(c, v);
      MulMinusOne(v);
      AddOpposite(v);
    } else {
      PowTwo(c);
      PowMul(c, 2, Pow2(e - 1));
      GeometricZero(l - 1, Mul(c, c), e - 1);
      MulZero(c);
      AddOpposite(ZERO);
    }
  }

  lemma PowOneStep(c: Complex)
    ensures Pow(c, 1) == c
  {
    hide Mul;
    MulOne(c);
    assert Pow(c, 1) == Mul(c, Pow(c, 0));
  }

  lemma AddOpposite(v: Complex)
    ensures Add(v, Cx(-v.re, -v.im)) == ZERO
  {}

  /** Every power of a primitive root, other than a full turn, reaches -1 by repeated squaring. */
  lemma {:induction false} ReachesMinusOne(u: Complex, l: nat, d: nat) returns (e: nat)
    requires l >= 1 && 0 < d < Pow2(l) && Pow(u, Pow2(l - 1)) == MINUS_ONE
    ensures e < l && Pow(Pow(u, d), Pow2(e)) == MINUS_ONE
    decreases l
  {
    hide Mul;
    var h := Pow2(l - 1);
    if d % 2 == 1 {
      e := l - 1;
      PowMul(u, h, d);
      PowMul(u, d, h);
      assert h * d == d * h;
      OddPower(d);
    } else {
      PowTwo(u);
      PowMul(u, 2, d / 2);
      PowMul(u, 2, Pow2(l - 2));
      e := ReachesMinusOne(Mul(u, u), l - 1, d / 2);
    }
  }

  lemma {:induction false} OddPower(d: nat)
    requires d % 2 == 1
    ensures Pow(MINUS_ONE, d) == MINUS_ONE
  {
    hide Mul;
    assert Mul(MINUS_ONE, MINUS_ONE) == ONE && Mul(MINUS_ONE, ONE) == MINUS_ONE by {
      MulMinusOne(MINUS_ONE);
      MulOne(MINUS_ONE);
    }
    if d >= 3 {
      OddPower(d - 2);
      assert Pow(MINUS_ONE, d) == Mul(MINUS_ONE, Mul(MINUS_ONE, Pow(MINUS_ONE, d - 2)));
    } else {
      PowOneStep(MINUS_ONE);
    }
  }

  /** The transform of `z` at all n bins. */
  ghost function Spectrum(z: seq<Complex>, u: Complex, n: nat): (s: seq<Complex>)
    ensures |s| == n
  {
    seq(n, k requires 0 <= k < n => Eval(z, Pow(u, k)))
  }

  lemma SpectrumStep(z: seq<Complex>, u: Complex, n: nat, c: Complex)
    requires |z| > 0
    ensures Eval(Spectrum(z, u, n), c) == Add(Mul(z[0], Eval(Ones(n), c)), Eval(Spectrum(z[1..], u, n), Mul(u, c)))
  {
    hide Mul, Add, Pow;
    var a := seq(n, k requires 0 <= k < n => Mul(z[0], Ones(n)[k]));
    var t := Spectrum(z[1..], u, n);
    var b := seq(n, k requires 0 <= k < n => Mul(Pow(u, k), t[k]));
    MulOne(z[0]);
    assert Spectrum(z, u, n) == seq(n, k requires 0 <= k < n => Add(a[k], b[k]));
    EvalAdd(a, b, c);
    EvalScale(z[0], Ones(n), c);
    EvalTwist(u, t, c);
  }

  /** u^j * conj(u)^t is a power of u or of its conjugate. */
  lemma {:induction false} Phase(u: Complex, j: nat, t: nat)
    requires NormSq(u) == 1.0
    ensures Mul(Pow(u, j), Pow(Conj(u), t)) == if t <= j then Pow(u, j - t) else Pow(Conj(u), t - j)
  {
    hide Mul, NormSq;
    if t <= j {
      PowAdd(u, j - t, t);
      MulAssoc(Pow(u, j - t), Pow(u, t), Pow(Conj(u), t));
    } else {
      PowAdd(Conj(u), j, t - j);
      MulAssoc(Pow(u, j), Pow(Conj(u), j), Pow(Conj(u), t - j));
    }
    var s := if t <= j then t else j;
    PowOfProduct(u, Conj(u), s);
    UnitConj(u);
    PowOne(s);
    MulOne(Pow(u, j - s));
    MulOne(Pow(Conj(u), t - s));
  }

  lemma PhaseSum(u: Complex, l: nat, j: nat, t: nat)
    requires l >= 1 && NormSq(u) == 1.0 && Pow(u, Pow2(l - 1)) == MINUS_ONE && j < Pow2(l) && t < Pow2(l)
    ensures Eval(Ones(Pow2(l)), Mul(Pow(u, j), Pow(Conj(u), t))) == if j == t then Real(Pow2(l) as real) else ZERO
  {
    hide Mul, NormSq, Eval, Pow, Pow2;
    Phase(u, j, t);
    assert Pow(Conj(u), Pow2(l - 1)) == MINUS_ONE by { PowConj(u, Pow2(l - 1)); }
    assert t < Pow2(l);
    if t < j {
      var e := ReachesMinusOne(u, l, j - t);
      GeometricZero(l, Pow(u, j - t), e);
    } else if j < t {
      var e := ReachesMinusOne(Conj(u), l, t - j);
      GeometricZero(l, Pow(Conj(u), t - j), e);
    } else {
      PowZero(u);
      OnesAtOne(Pow2(l));
    }
  }

  lemma {:induction false} OnesAtOne(n: nat)
    ensures Eval(Ones(n), ONE) == Real(n as real)
  {
    hide Mul;
    if n > 0 {
      OnesAtOne(n - 1);
      assert Ones(n)[1..] == Ones(n - 1);
      MulOne(Eval(Ones(n - 1), ONE));
    }
  }

  /** The inversion formula, over the coefficients from `j` on. */
  lemma {:induction false} InversionFrom(z: seq<Complex>, u: Complex, l: nat, j: nat, t: nat)
    requires l >= 1 && NormSq(u) == 1.0 && Pow(u, Pow2(l - 1)) == MINUS_ONE
    requires |z| == Pow2(l) && j <= |z| && t < |z|
    ensures Eval(Spectrum(z[j..], u, |z|), Mul(Pow(u, j), Pow(Conj(u), t)))
         == if j <= t then Scale(|z| as real, z[t]) else ZERO
    decreases |z| - j
  {
    hide Mul, NormSq, Add, Pow2;
    var n := |z|;
    var c := Mul(Pow(u, j), Pow(Conj(u), t));
    if j < n {
      InversionFrom(z, u, l, j + 1, t);
      SpectrumStep(z[j..], u, n, c);
      assert z[j..][1..] == z[j + 1..];
      MulAssoc(u, Pow(u, j), Pow(Conj(u), t));
      PhaseSum(u, l, j, t);
      MulReal(z[j], n as real);
      MulZero(z[j]);
      AddZeros(Scale(n as real, z[j]));
      AddZeros(if j + 1 <= t then Scale(n as real, z[t]) else ZERO);
    } else {
      assert Spectrum(z[j..], u, n) == seq(n, k requires 0 <= k < n => Mul(ZERO, Ones(n)[k])) by {
        MulZero(ONE);
      }
      EvalScale(ZERO, Ones(n), c);
      MulZero(Eval(Ones(n), c));
    }
  }

  lemma MulReal(a: Complex, r: real)
    ensures Mul(a, Real(r)) == Scale(r, a)
  {}

  lemma AddZeros(a: Complex)
    ensures Add(a, ZERO) == a == Add(ZERO, a)
  {}

  /** Transforming with a root and then with its conjugate multiplies every sample by the length. */
  lemma Inversion(z: seq<Complex>, u: Complex, l: nat, t: nat)
    requires l >= 1 && NormSq(u) == 1.0 && Pow(u, Pow2(l - 1)) == MINUS_ONE
    requires |z| == Pow2(l) && t < |z|
    ensures Dft(seq(|z|, k requires 0 <= k < |z| => Dft(z, u, k)), Conj(u), t) == Scale(|z| as real, z[t])
  {
    hide Mul, NormSq, Eval, Pow2, Dft;
    InversionFrom(z, u, l, 0, t);
    assert z[0..] == z;
    MulOne(Pow(Conj(u), t));
    PowZero(u);
    var s := seq(|z|, k requires 0 <= k < |z| => Dft(z, u, k));
    assert s == Spectrum(z, u, |z|) by {
      forall k | 0 <= k < |z| ensures s[k] == Spectrum(z, u, |z|)[k] {
        DftIsEval(z, u, k);
      }
    }
    DftIsEval(s, Conj(u), t);
  }

  // ── Whole transforms ──

  /** `y` is the inverse transform of the packed spectrum `b`. */
  ghost predicate IsInverseDft(y: seq<real>, b: seq<real>, w: Complex) {
    var m := |b| / 2;
    |y| == |b| && forall t :: 0 <= t < m ==>
      Pairs(y)[t] == Scale(1.0 / m as real, Dft(PreAll(Pairs(b), w), Mul(Conj(w), Conj(w)), t))
  }

  lemma PackedAt(x: seq<real>, w: Complex, k: nat)
    requires k < |x| / 2
    ensures PackedBins(x, w)[k]
         == if k == 0 then Cx(RealDft(x, w, 0).re, RealDft(x, w, |x| / 2).re) else RealDft(x, w, k)
  {
    hide RealDft;
  }

  lemma PostAllIsPackedAt(x: seq<real>, w: Complex, l: nat, k: nat)
    requires IsRoot(w, l) && |x| == 2 * Pow2(l) && k < Pow2(l) == |HalfBins(x, w)|
    ensures PackedBins(x, w)[k] == PostAll(HalfBins(x, w), w)[k]
  {
    hide RealDft, Post, IsRoot, Pow2, HalfBins, PostAll, PackedBins, Pow;
    PackedAt(x, w, k);
    PostAllAt(HalfBins(x, w), w, k);
    if k > 0 {
      PostIsRealDft(x, w, l, k);
    } else {
      EndBins(x, w, l);
    }
  }

  /** Post-processing the half-size bins gives the packed spectrum. */
  lemma PostAllIsPacked(x: seq<real>, w: Complex, l: nat)
    requires IsRoot(w, l) && |x| == 2 * Pow2(l)
    ensures PackedBins(x, w) == PostAll(HalfBins(x, w), w)
  {
    hide IsRoot, Pow2, HalfBins, PostAll, PackedBins;
    EndBins(x, w, l);
    forall k | 0 <= k < Pow2(l) ensures PackedBins(x, w)[k] == PostAll(HalfBins(x, w), w)[k] {
      PostAllIsPackedAt(x, w, l, k);
    }
  }

  lemma PairsInjective(x: seq<real>, y: seq<real>)
    requires |x| == |y| && |x| % 2 == 0 && Pairs(x) == Pairs(y)
    ensures x == y
  {
    forall i | 0 <= i < |x| ensures x[i] == y[i] {
      assert Pairs(x)[i / 2] == Pairs(y)[i / 2];
    }
  }

  lemma RootSquared(w: Complex, l: nat)
    requires IsRoot(w, l)
    ensures NormSq(Mul(w, w)) == 1.0 && NormSq(Mul(Conj(w), Conj(w))) == 1.0
    ensures Conj(Mul(w, w)) == Mul(Conj(w), Conj(w)) && Conj(Mul(Conj(w), Conj(w))) == Mul(w, w)
  {
    hide Pow, Mul, NormSq;
    UnitConj(w);
    NormMul(w, w);
    NormMul(Conj(w), Conj(w));
    ConjMul(w, w);
    ConjMul(Conj(w), Conj(w));
  }

  lemma ScaleBack(m: nat, a: Complex)
    requires m > 0
    ensures Scale(1.0 / m as real, Scale(m as real, a)) == a
  {
    var r := m as real;
    assert (1.0 / r) * r == 1.0;
    ScaleScale(1.0 / r, r, a);
  }

  lemma ScaleScale(p: real, q: real, a: Complex)
    requires p * q == 1.0
    ensures Scale(p, Scale(q, a)) == a
  {
    assert p * (q * a.re) == (p * q) * a.re;
    assert p * (q * a.im) == (p * q) * a.im;
  }

  /** In exact arithmetic the inverse transform of the packed DFT of `x` is `x`. */
  lemma InverseOfForward(x: seq<real>, b: seq<real>, y: seq<real>, w: Complex, l: nat)
    requires IsRoot(w, l) && |x| == |b| == |y| == 2 * Pow2(l)
    requires IsPackedDft(b, x, w) && IsInverseDft(y, b, w)
    ensures y == x
  {
    hide PackedBins, IsRoot, IsInverseDft, PreAll, PostAll, HalfBins, Pairs, Pow2;
    PostAllIsPacked(x, w, l);
    PreAllUndoesPostAll(HalfBins(x, w), w, l);
    forall t | 0 <= t < Pow2(l) ensures Pairs(y)[t] == Pairs(x)[t] { InverseSample(x, b, y, w, l, t); }
    assert Pairs(y) == Pairs(x);
    PairsInjective(y, x);
  }

  lemma InverseSample(x: seq<real>, b: seq<real>, y: seq<real>, w: Complex, l: nat, t: nat)
    requires IsRoot(w, l) && |x| == |b| == |y| == 2 * Pow2(l) && t < Pow2(l)
    requires IsInverseDft(y, b, w) && PreAll(Pairs(b), w) == HalfBins(x, w)
    ensures Pairs(y)[t] == Pairs(x)[t]
  {
    hide IsRoot, Pow, Mul, Dft, NormSq, Pow2, Scale, PreAll, Pairs;
    UnitRoot(w, l);
    RootPowers(w, l);
    RootSquared(w, l);
    var z, u := Pairs(x), Mul(w, w);
    Inversion(z, u, l, t);
    assert HalfBins(x, w) == seq(|z|, k requires 0 <= k < |z| => Dft(z, u, k));
    ScaleBack(|z|, z[t]);
  }

  lemma InverseHalfBins(b: seq<real>, y: seq<real>, w: Complex, l: nat, k: nat)
    requires IsRoot(w, l) && |b| == |y| == 2 * Pow2(l) && IsInverseDft(y, b, w) && k < Pow2(l)
    ensures HalfBins(y, w)[k] == PreAll(Pairs(b), w)[k]
  {
    hide IsRoot, Pow, Mul, Dft, NormSq, Pow2, Scale, PreAll;
    UnitRoot(w, l);
    RootPowers(w, l);
    RootSquared(w, l);
    var z, u := PreAll(Pairs(b), w), Mul(Conj(w), Conj(w));
    var s := seq(|z|, i requires 0 <= i < |z| => Dft(z, u, i));
    var f := 1.0 / |z| as real;
    assert Pairs(y) == seq(|s|, t requires 0 <= t < |s| => Scale(f, s[t]));
    Inversion(z, u, l, k);
    DftScale(s, f, Mul(w, w), k);
    ScaleBack(|z|, z[k]);
  }

  /** What the inverse computes is the signal whose packed spectrum it was given. */
  lemma InverseIsSignal(b: seq<real>, y: seq<real>, w: Complex, l: nat)
    requires IsRoot(w, l) && |b| == |y| == 2 * Pow2(l) && IsInverseDft(y, b, w)
    ensures IsPackedDft(b, y, w)
  {
    hide PackedBins, IsRoot, IsInverseDft, PreAll, PostAll, HalfBins, Pairs, Pow2;
    PostAllIsPacked(y, w, l);
    forall k | 0 <= k < Pow2(l) ensures HalfBins(y, w)[k] == PreAll(Pairs(b), w)[k] {
      InverseHalfBins(b, y, w, l, k);
    }
    assert HalfBins(y, w) == PreAll(Pairs(b), w);
    PreAllUndoesPostAll(Pairs(b), w, l);
  }

  /** And the packed DFT of the inverse transform of any packed spectrum `b` is `b`. */
  lemma ForwardOfInverse(b: seq<real>, y: seq<real>, b': seq<real>, w: Complex, l: nat)
    requires IsRoot(w, l) && |b| == |y| == |b'| == 2 * Pow2(l)
    requires IsInverseDft(y, b, w) && IsPackedDft(b', y, w)
    ensures b' == b
  {
    hide PackedBins, IsRoot, IsInverseDft, Pairs, Pow2;
    InverseIsSignal(b, y, w, l);
    PairsInjective(b', b);
  }

  lemma DftScale(s: seq<Complex>, f: real, u: Complex, k: nat)
    ensures Dft(seq(|s|, t requires 0 <= t < |s| => Scale(f, s[t])), u, k) == Scale(f, Dft(s, u, k))
  {
    hide Mul, Scale, Dft, Eval, Pow;
    var a := seq(|s|, t requires 0 <= t < |s| => Scale(f, s[t]));
    DftIsEval(a, u, k);
    DftIsEval(s, u, k);
    EvalScale(Real(f), s, Pow(u, k));
    forall t | 0 <= t < |s| ensures a[t] == Mul(Real(f), s[t]) {
      MulReal(s[t], f);
      MulComm(s[t], Real(f));
    }
    assert a == seq(|s|, t requires 0 <= t < |s| => Mul(Real(f), s[t]));
    MulReal(Eval(s, Pow(u, k)), f);
    MulComm(Eval(s, Pow(u, k)), Real(f));
  }
}
