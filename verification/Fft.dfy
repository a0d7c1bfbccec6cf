/**
 The packed real FFT on an in-place buffer: bit reversal, butterfly stages, and the conjugate-pair step
 between the half-size complex bins and the spectrum of the real signal.

 The trigonometric tables are powers of a root `w`, which stands for exp(-2 pi i / n).
 */
module Fft {
  import opened Powers
  import opened Complex
  import opened FftSpec
  import opened FftTheory

  function Log2(n: nat): nat {
    if n <= 1 then 0 else 1 + Log2(n / 2)
  }

  lemma {:induction false} TrailingZerosOfPow2(l: nat)
    ensures TrailingZeros(Pow2(l)) == l == Log2(Pow2(l))
  {
    if l > 0 {
      TrailingZerosOfPow2(l - 1);
      Halving(Pow2(l - 1));
      assert Pow2(l) == 2 * Pow2(l - 1);
      hide Pow2;
    }
  }

  lemma Halving(p: nat)
    ensures 2 * p / 2 == p && 2 * p % 2 == 0
  {}

  ghost function SizeLog(n: nat): (l: nat)
    requires n >= 4 && n == Pow2(Log2(n))
    ensures l + 1 == Log2(n) && l >= 1 && n / 2 == Pow2(l)
  {
    Log2(n) - 1
  }

  /** cos and sin of -2 pi j / size, for a size that divides n: w to the power j * (n / size). */
  function Twiddle(w: Complex, n: nat, j: nat, size: nat): Complex
    requires size > 0
  {
    assert 0 <= j * (n / size);
    Pow(w, j * (n / size))
  }

  lemma TwiddleIsStagePower(w: Complex, l: nat, j: nat, s: nat)
    requires s <= l + 1
    ensures Twiddle(w, Pow2(l + 1), j, Pow2(s)) == Pow(StageRoot(w, l, s), j)
  {
    hide Pow, Pow2;
    Pow2Add(l + 1 - s, s);
    var p, q := Pow2(s), Pow2(l + 1 - s);
    DivModOf(p, q, 0);
    PowMul(w, q, j);
    assert j * q == q * j;
  }

  /** `p` holds the DFT of `z`, bin by bin. */
  ghost predicate IsDft(p: seq<Complex>, z: seq<Complex>, u: Complex) {
    |p| == |z| && forall k :: 0 <= k < |p| ==> p[k] == Dft(z, u, k)
  }

  class RealPackedFft {
    const n: nat
    const halfN: nat
    const log2HalfN: nat
    const bitRev: seq<nat>
    const fftTw: seq<real>
    const stageTwOffsets: seq<nat>
    const realTw: seq<real>
    ghost const w: Complex

    ghost predicate Valid() {
      var l := log2HalfN;
      && l >= 1 && halfN == Pow2(l) && n == 2 * halfN && IsRoot(w, l)
      && |bitRev| == halfN && (forall i :: 0 <= i < halfN ==> bitRev[i] == Rev(l, i))
      && |stageTwOffsets| == l + 1 && (forall s :: 1 <= s <= l ==> stageTwOffsets[s] == Pow2(s) - 2)
      && (forall s :: 1 <= s <= l ==> HasStage(fftTw, w, l, s))
      && |realTw| == n && (forall k :: 0 <= k < halfN ==> Cx(realTw[2 * k], realTw[2 * k + 1]) == Pow(w, k))
    }

    /** The twiddles of stage `s` lie contiguously from offset 2^s - 2. */
    static ghost predicate HasStage(tw: seq<real>, w: Complex, l: nat, s: nat)
      requires 1 <= s <= l
    {
      var h := Pow2(s - 1);
      |tw| >= 4 * h - 2 &&
      forall j :: 0 <= j < h ==>
        Cx(tw[2 * h - 2 + 2 * j], tw[2 * h - 2 + 2 * j + 1]) == Pow(StageRoot(w, l, s), j)
    }

    constructor (n: nat, w: Complex)
      requires n >= 4 && n == Pow2(Log2(n)) && IsRoot(w, Log2(n) - 1)
      ensures Valid() && this.n == n && this.w == w
    {
      hide IsRoot, Pow, Mul, Pow2, HasStage, Rev, TrailingZeros, Log2;
      var halfN := n / 2;
      var log2HalfN := TrailingZeros(halfN);
      ghost var l := SizeLog(n);
      TrailingZerosOfPow2(l);
      Pow2Unfold(l);

      var bitRev: seq<nat> := seq(halfN, _ => 0);
      for i := 0 to halfN
        invariant |bitRev| == halfN && forall k :: 0 <= k < i ==> bitRev[k] == Rev(l, k)
      {
        var r := ReverseBits(i, log2HalfN);
        bitRev := bitRev[i := r];
      }

      var fftTw: seq<real> := StageTwiddles(n, w, log2HalfN);

      var offsets: seq<nat> := [0];
      for s := 1 to log2HalfN + 1
        invariant |offsets| == s && forall k :: 1 <= k < s ==> offsets[k] == Pow2(k) - 2
      {
        Pow2Unfold(s - 1);
        offsets := offsets + [Pow2(s) - 2];
      }

      var realTw: seq<real> := RealTwiddles(n, w, log2HalfN);

      this.n, this.halfN, this.log2HalfN := n, halfN, log2HalfN;
      this.bitRev, this.fftTw, this.stageTwOffsets, this.realTw := bitRev, fftTw, offsets, realTw;
      this.w := w;
      new;
      Pow2Unfold(l);
    }

    static method ReverseBits(i: nat, bits: nat) returns (rev: nat)
      ensures rev == Rev(bits, i)
    {
      rev := 0;
      var val := i;
      for b := 0 to bits
        invariant rev * Pow2(bits - b) + Rev(bits - b, val) == Rev(bits, i)
      {
        ghost var h := Pow2(bits - b - 1);
        MulSplit(rev, val % 2, h);
        rev, val := rev * 2 + val % 2, val / 2;
      }
    }

    static method StageTwiddles(n: nat, w: Complex, l: nat) returns (tw: seq<real>)
      requires n == Pow2(l + 1)
      ensures forall s :: 1 <= s <= l ==> HasStage(tw, w, l, s)
    {
      hide Pow;
      tw := [];
      for s := 1 to l + 1
        invariant |tw| == Pow2(s) - 2
        invariant forall k :: 1 <= k < s ==> HasStage(tw, w, l, k)
      {
        Pow2Unfold(s - 1);
        Pow2Unfold(s);
        var halfSize := Pow2(s - 1);
        ghost var was, off := tw, |tw|;
        for j := 0 to halfSize
          invariant |tw| == off + 2 * j && was <= tw
          invariant forall i :: 0 <= i < j ==>
            Cx(tw[off + 2 * i], tw[off + 2 * i + 1]) == Pow(StageRoot(w, l, s), i)
        {
          TwiddleIsStagePower(w, l, j, s);
          var t := Twiddle(w, n, j, 2 * halfSize);
          tw := tw + [t.re];
          tw := tw + [t.im];
        }
        forall k | 1 <= k < s ensures HasStage(tw, w, l, k) { assert HasStage(was, w, l, k); }
      }
    }

    static method RealTwiddles(n: nat, w: Complex, l: nat) returns (tw: seq<real>)
      requires n == Pow2(l + 1)
      ensures |tw| == n == 2 * Pow2(l) && forall k :: 0 <= k < Pow2(l) ==> Cx(tw[2 * k], tw[2 * k + 1]) == Pow(w, k)
    {
      hide Pow;
      Pow2Unfold(l);
      tw := seq(n, _ => 0.0);
      for k := 0 to n / 2
        invariant |tw| == n && forall i :: 0 <= i < k ==> Cx(tw[2 * i], tw[2 * i + 1]) == Pow(w, i)
      {
        var t := Twiddle(w, n, k, n);
        assert n / n == 1 && k * 1 == k;
        tw := tw[2 * k := t.re];
        tw := tw[2 * k + 1 := t.im];
      }
    }

    lemma Shape()
      requires Valid()
      ensures log2HalfN >= 1 && halfN == Pow2(log2HalfN) && n == 2 * halfN && IsRoot(w, log2HalfN)
      ensures |bitRev| == halfN && |stageTwOffsets| == log2HalfN + 1 && |realTw| == n
    {}

    /** `p` is `z` with position i holding the element at the bit-reversed index. */
    static ghost predicate IsBitReversed(p: seq<Complex>, z: seq<Complex>, l: nat) {
      |p| == |z| == Pow2(l) && forall i :: 0 <= i < |p| ==> Rev(l, i) < |z| && p[i] == z[Rev(l, i)]
    }

    lemma BitRevTable(i: nat)
      requires Valid() && i < halfN
      ensures |bitRev| == halfN && bitRev[i] == Rev(log2HalfN, i) < halfN
      ensures Rev(log2HalfN, Rev(log2HalfN, i)) == i
    {
      hide Pow, IsRoot, Rev, Pow2, HasStage;
      RevInvolution(log2HalfN, i);
    }

    /** Positions whose index or reversed index is below `i` are final, the others untouched. */
    static ghost predicate SwappedBelow(p: seq<Complex>, z: seq<Complex>, l: nat, i: nat) {
      |p| == |z| && forall k :: 0 <= k < |p| ==>
        Rev(l, k) < |z| && p[k] == if k < i || Rev(l, k) < i then z[Rev(l, k)] else z[k]
    }

    static lemma SwapStep(p: seq<Complex>, p': seq<Complex>, z: seq<Complex>, l: nat, i: nat)
      requires SwappedBelow(p, z, l, i) && i < |p|
      requires forall k :: 0 <= k < |p| ==> Rev(l, k) < |p| && Rev(l, Rev(l, k)) == k
      requires var j := Rev(l, i); p' == if j > i then p[i := p[j]][j := p[i]] else p
      ensures SwappedBelow(p', z, l, i + 1)
    {
      hide Rev;
      var j := Rev(l, i);
      forall k | 0 <= k < |p'|
        ensures p'[k] == if k < i + 1 || Rev(l, k) < i + 1 then z[Rev(l, k)] else z[k]
      {
        if Rev(l, k) == i { assert k == j; }
      }
    }

    method BitReverse(buf: array<real>)
      requires Valid() && buf.Length == n
      modifies buf
      ensures IsBitReversed(Pairs(buf[..]), old(Pairs(buf[..])), log2HalfN)
    {
      hide Valid, Pow2, Rev, IsRoot, SwappedBelow;
      Shape();
      ghost var l, z := log2HalfN, Pairs(buf[..]);
      forall i | 0 <= i < halfN ensures Rev(l, i) < halfN && Rev(l, Rev(l, i)) == i { BitRevTable(i); }
      assert SwappedBelow(Pairs(buf[..]), z, l, 0) by { NothingSwapped(z, l); }
      for i := 0 to halfN
        invariant SwappedBelow(Pairs(buf[..]), z, l, i)
      {
        BitRevTable(i);
        var j := bitRev[i];
        ghost var p := Pairs(buf[..]);
        if j > i {
          buf[2 * i], buf[2 * j] := buf[2 * j], buf[2 * i];
          buf[2 * i + 1], buf[2 * j + 1] := buf[2 * j + 1], buf[2 * i + 1];
          assert Pairs(buf[..]) == p[i := p[j]][j := p[i]];
        }
        SwapStep(p, Pairs(buf[..]), z, l, i);
      }
      AllSwapped(Pairs(buf[..]), z, l);
    }

    static lemma NothingSwapped(z: seq<Complex>, l: nat)
      requires forall k :: 0 <= k < |z| ==> Rev(l, k) < |z|
      ensures SwappedBelow(z, z, l, 0)
    {}

    static lemma AllSwapped(p: seq<Complex>, z: seq<Complex>, l: nat)
      requires |p| == Pow2(l) && SwappedBelow(p, z, l, |p|)
      ensures IsBitReversed(p, z, l)
    {}

    /** One butterfly on the complex positions `lo` and `hi`. */
    method Butterfly(buf: array<real>, lo: nat, hi: nat, wr: real, wi: real)
      requires buf.Length % 2 == 0 && lo < hi < buf.Length / 2
      modifies buf
      ensures var p := old(Pairs(buf[..])); var t := Mul(Cx(wr, wi), p[hi]);
              Pairs(buf[..]) == p[lo := Add(p[lo], t)][hi := Sub(p[lo], t)]
    {
      var ar, ai := buf[2 * lo], buf[2 * lo + 1];
      var br, bi := buf[2 * hi], buf[2 * hi + 1];
      ghost var p := Pairs(buf[..]);
      ghost var t := Mul(Cx(wr, wi), p[hi]);
      var tr := wr * br - wi * bi;
      var ti := wr * bi + wi * br;
      assert t == Cx(tr, ti);
      hide Mul;
      SetPair(buf, lo, ar + tr, ai + ti);
      SetPair(buf, hi, ar - tr, ai - ti);
    }

    /** Groups below `g`, and the first `j` butterflies of group `g`, hold stage `s` values; the rest stage `s - 1`. */
    static ghost predicate Progress(p: seq<Complex>, z: seq<Complex>, v: Complex, l: nat, s: nat, g: nat, j: nat) {
      |p| == |z| == Pow2(l) && 1 <= s <= l && forall i :: 0 <= i < |p| ==>
        p[i] == StageValue(z, v, l, if i < g + j || g + Pow2(s - 1) <= i < g + Pow2(s - 1) + j then s else s - 1, i)
    }

    /** All positions hold stage `s` values. */
    static ghost predicate AtStage(p: seq<Complex>, z: seq<Complex>, v: Complex, l: nat, s: nat) {
      |p| == |z| == Pow2(l) && s <= l && forall i :: 0 <= i < |p| ==> p[i] == StageValue(z, v, l, s, i)
    }

    static lemma ProgressEnds(p: seq<Complex>, z: seq<Complex>, v: Complex, l: nat, s: nat, g: nat)
      requires |p| == |z| == Pow2(l) && 1 <= s <= l
      ensures Progress(p, z, v, l, s, 0, 0) <==> AtStage(p, z, v, l, s - 1)
      ensures g >= |p| ==> (Progress(p, z, v, l, s, g, 0) <==> AtStage(p, z, v, l, s))
      ensures Pow2(s) == 2 * Pow2(s - 1)
      ensures Progress(p, z, v, l, s, g, Pow2(s - 1)) ==> Progress(p, z, v, l, s, g + Pow2(s), 0)
    {
      hide Pow2, StageValue;
      Pow2Unfold(s - 1);
    }

    static lemma ProgressStep(p: seq<Complex>, p': seq<Complex>, z: seq<Complex>, v: Complex,
                              l: nat, s: nat, q: nat, g: nat, j: nat)
      requires 1 <= s <= l && q < Pow2(l - s) && j < Pow2(s - 1)
      requires Pow(v, Pow2(l)) == MINUS_ONE && IsGroup(l, s, q, g)
      requires Progress(p, z, v, l, s, g, j)
      requires g + Pow2(s - 1) + j < |p|
      requires var lo, hi := g + j, g + Pow2(s - 1) + j;
               var t := Mul(Pow(StageRoot(v, l, s), j), p[hi]);
               p' == p[lo := Add(p[lo], t)][hi := Sub(p[lo], t)]
      ensures Progress(p', z, v, l, s, g, j + 1)
    {
      hide Pow2, StageValue, Pow, Mul, Add, Sub, StageRoot;
      ButterflyStep(z, v, l, s, q, g + j, j);
    }

    method ButterflyStage(buf: array<real>, s: nat, inverse: bool, ghost z: seq<Complex>, ghost v: Complex)
      requires Valid() && buf.Length == n && 1 <= s <= log2HalfN && |z| == halfN
      requires v == if inverse then Conj(w) else w
      requires AtStage(Pairs(buf[..]), z, v, log2HalfN, s - 1)
      modifies buf
      ensures AtStage(Pairs(buf[..]), z, v, log2HalfN, s)
    {
      hide Valid, Pairs, Pow2, Pow, Mul, Add, Sub, StageRoot, StageValue, Progress, AtStage, IsRoot, Rev, IsGroup;
      Shape();
      ghost var l := log2HalfN;
      StageTable(s);
      var halfSize := Pow2(s - 1);
      var fullSize := 2 * halfSize;
      var twOff := stageTwOffsets[s];
      RootPowers(w, l);
      var g := 0;
      ghost var q := 0;
      ProgressEnds(Pairs(buf[..]), z, v, l, s, 0);
      FirstGroup(l, s);
      while g < halfN
        invariant IsGroup(l, s, q, g)
        invariant Progress(Pairs(buf[..]), z, v, l, s, g, 0)
        decreases halfN - g
      {
        NextGroup(l, s, q, g);
        for j := 0 to halfSize
          invariant Progress(Pairs(buf[..]), z, v, l, s, g, j)
        {
          var wr := fftTw[twOff + 2 * j];
          var wi := if inverse then -fftTw[twOff + 2 * j + 1] else fftTw[twOff + 2 * j + 1];
          StageTwiddle(j, s, inverse, v);
          ghost var p := Pairs(buf[..]);
          Butterfly(buf, g + j, g + halfSize + j, wr, wi);
          ProgressStep(p, Pairs(buf[..]), z, v, l, s, q, g, j);
        }
        ProgressEnds(Pairs(buf[..]), z, v, l, s, g);
        g := g + fullSize;
        q := q + 1;
      }
      ProgressEnds(Pairs(buf[..]), z, v, l, s, g);
    }

    /** `g` is the start of group `q` of stage `s`, or the end of the buffer. */
    static ghost predicate IsGroup(l: nat, s: nat, q: nat, g: nat) {
      s <= l && g == q * Pow2(s) && q <= Pow2(l - s)
    }

    static lemma FirstGroup(l: nat, s: nat)
      requires 1 <= s <= l
      ensures IsGroup(l, s, 0, 0)
    {}

    static lemma NextGroup(l: nat, s: nat, q: nat, g: nat)
      requires 1 <= s <= l && IsGroup(l, s, q, g) && g < Pow2(l)
      ensures q < Pow2(l - s) && IsGroup(l, s, q + 1, g + 2 * Pow2(s - 1)) && g + 2 * Pow2(s - 1) <= Pow2(l)
    {
      hide Pow2;
      Pow2Add(s, l - s);
      Pow2Unfold(s - 1);
      if q == Pow2(l - s) {
        assert false;
      }
      MulMono(q + 1, Pow2(l - s), Pow2(s));
      MulSucc(q, Pow2(s));
    }

    lemma StageTable(s: nat)
      requires Valid() && 1 <= s <= log2HalfN
      ensures s < |stageTwOffsets| && Pow2(s) == 2 * Pow2(s - 1) && stageTwOffsets[s] == Pow2(s) - 2
      ensures |fftTw| >= 4 * Pow2(s - 1) - 2
    {
      hide Pow2, Pow, IsRoot, Rev;
      Pow2Unfold(s - 1);
      assert HasStage(fftTw, w, log2HalfN, s);
    }

    lemma StageTwiddle(j: nat, s: nat, inverse: bool, v: Complex)
      requires Valid() && 1 <= s <= log2HalfN && j < Pow2(s - 1)
      requires v == if inverse then Conj(w) else w
      requires 0 <= Pow2(s) - 2 + 2 * j + 1 < |fftTw|
      ensures var wr, wi := fftTw[Pow2(s) - 2 + 2 * j], fftTw[Pow2(s) - 2 + 2 * j + 1];
              Pow(StageRoot(v, log2HalfN, s), j) == Cx(wr, if inverse then -wi else wi)
    {
      hide Pow2, Pow, IsRoot, Rev;
      assert HasStage(fftTw, w, log2HalfN, s);
      Pow2Unfold(s - 1);
      PowConj(w, Pow2(log2HalfN + 1 - s));
      PowConj(StageRoot(w, log2HalfN, s), j);
    }

    /** The half-size complex transform: afterwards pair k is the DFT of the original pairs at bin k. */
    method ComplexFft(buf: array<real>, inverse: bool, ghost v: Complex)
      requires Valid() && buf.Length == n
      requires v == if inverse then Conj(w) else w
      modifies buf
      ensures IsDft(Pairs(buf[..]), old(Pairs(buf[..])), Mul(v, v))
    {
      hide Valid, Pairs, Pow2, Pow, Mul, Rev, StageValue, IsRoot, IsDft, AtStage, IsBitReversed;
      Shape();
      ghost var l, z := log2HalfN, Pairs(buf[..]);
      Pow2Unfold(l);
      BitReverse(buf);
      StartsAtStageZero(Pairs(buf[..]), z, v, l);
      for s := 1 to log2HalfN + 1
        invariant AtStage(Pairs(buf[..]), z, v, l, s - 1)
      {
        ButterflyStage(buf, s, inverse, z, v);
      }
      EndsAtDft(Pairs(buf[..]), z, v, l);
    }

    static lemma StartsAtStageZero(p: seq<Complex>, z: seq<Complex>, v: Complex, l: nat)
      requires IsBitReversed(p, z, l)
      ensures AtStage(p, z, v, l, 0)
    {
      hide Pow2, Rev, StageValue;
      forall i | 0 <= i < |p| ensures p[i] == StageValue(z, v, l, 0, i) { StageZero(z, v, l, i); }
    }

    static lemma EndsAtDft(p: seq<Complex>, z: seq<Complex>, v: Complex, l: nat)
      requires |p| == |z| == Pow2(l) && AtStage(p, z, v, l, l)
      ensures IsDft(p, z, Mul(v, v))
    {
      hide Pow2, StageValue, Dft, Mul;
      forall k | 0 <= k < |p| ensures p[k] == Dft(z, Mul(v, v), k) { StageLast(z, v, l, k); }
    }

    /** The new value at bin k of a conjugate pair (k, m), with the twiddle of bin k. */
    static method PostValue(zk: Complex, zm: Complex, w: Complex) returns (re: real, im: real)
      ensures Cx(re, im) == Post(zk, zm, w)
    {
      hide Times;
      var sumR, diffR := zk.re + zm.re, zk.re - zm.re;
      var sumI, diffI := zk.im + zm.im, zk.im - zm.im;
      var twBr := (w.re * sumI + w.im * diffR) * 0.5;
      var twBi := (w.im * sumI - w.re * diffR) * 0.5;
      re, im := sumR * 0.5 + twBr, diffI * 0.5 + twBi;
      TimesIsProduct(w.re, sumI);
      TimesIsProduct(w.im, diffR);
      TimesIsProduct(w.im, sumI);
      TimesIsProduct(w.re, diffR);
    }

    /** The new value at bin m of the pair, with the twiddle of bin m: the roles of the bins are exchanged. */
    static method MirrorPostValue(zk: Complex, zm: Complex, wm: Complex) returns (re: real, im: real)
      ensures Cx(re, im) == Post(zm, zk, wm)
    {
      hide Times;
      var sumR, diffR := zk.re + zm.re, zk.re - zm.re;
      var sumI, diffI := zk.im + zm.im, zk.im - zm.im;
      var twBrM := (wm.re * sumI - wm.im * diffR) * 0.5;
      var twBiM := (wm.im * sumI + wm.re * diffR) * 0.5;
      re, im := sumR * 0.5 + twBrM, -diffI * 0.5 + twBiM;
      TimesIsProduct(wm.re, sumI);
      TimesIsProduct(wm.im, diffR);
      TimesIsProduct(wm.im, sumI);
      TimesIsProduct(wm.re, diffR);
      assert Post(zm, zk, wm) == PostOf(sumR, -diffR, sumI, -diffI, wm);
    }

    static method PreValue(xk: Complex, xm: Complex, w: Complex) returns (re: real, im: real)
      ensures Cx(re, im) == Pre(xk, xm, w)
    {
      hide Times;
      var pr, pi := xk.re + xm.re, xk.im - xm.im;
      var qr, qi := xk.re - xm.re, xk.im + xm.im;
      var jtwQr := (w.im * qr - w.re * qi) * 0.5;
      var jtwQi := (w.re * qr + w.im * qi) * 0.5;
      re, im := pr * 0.5 + jtwQr, pi * 0.5 + jtwQi;
      TimesIsProduct(w.im, qr);
      TimesIsProduct(w.re, qi);
      TimesIsProduct(w.re, qr);
      TimesIsProduct(w.im, qi);
    }

    static method MirrorPreValue(xk: Complex, xm: Complex, wm: Complex) returns (re: real, im: real)
      ensures Cx(re, im) == Pre(xm, xk, wm)
    {
      hide Times;
      var pr, pi := xk.re + xm.re, xk.im - xm.im;
      var qr, qi := xk.re - xm.re, xk.im + xm.im;
      var jtwQrM := (-wm.im * qr - wm.re * qi) * 0.5;
      var jtwQiM := (-wm.re * qr + wm.im * qi) * 0.5;
      re, im := pr * 0.5 + jtwQrM, -pi * 0.5 + jtwQiM;
      TimesIsProduct(wm.im, qr);
      TimesIsProduct(wm.re, qi);
      TimesIsProduct(wm.re, qr);
      TimesIsProduct(wm.im, qi);
      assert Pre(xm, xk, wm) == PreOf(pr, -pi, -qr, qi, wm);
    }

    /** One conjugate pair of the post-processing loop, on complex positions `k` and `m`. */
    method PostPair(buf: array<real>, k: nat, m: nat)
      requires Valid() && buf.Length == n && 0 < k < m < halfN
      modifies buf
      ensures var p := old(Pairs(buf[..]));
              Pairs(buf[..]) == p[k := Post(p[k], p[m], Pow(w, k))][m := Post(p[m], p[k], Pow(w, m))]
    {
      hide Valid, Pow, Post;
      RealTable(k);
      RealTable(m);
      var zk, zm := Cx(buf[2 * k], buf[2 * k + 1]), Cx(buf[2 * m], buf[2 * m + 1]);
      var reK, imK := PostValue(zk, zm, Cx(realTw[2 * k], realTw[2 * k + 1]));
      var reM, imM := MirrorPostValue(zk, zm, Cx(realTw[2 * m], realTw[2 * m + 1]));
      SetPair(buf, k, reK, imK);
      SetPair(buf, m, reM, imM);
    }

    method PrePair(freq: array<real>, k: nat, m: nat)
      requires Valid() && freq.Length == n && 0 < k < m < halfN
      modifies freq
      ensures var p := old(Pairs(freq[..]));
              Pairs(freq[..]) == p[k := Pre(p[k], p[m], Pow(w, k))][m := Pre(p[m], p[k], Pow(w, m))]
    {
      hide Valid, Pow, Pre;
      RealTable(k);
      RealTable(m);
      var xk, xm := Cx(freq[2 * k], freq[2 * k + 1]), Cx(freq[2 * m], freq[2 * m + 1]);
      var reK, imK := PreValue(xk, xm, Cx(realTw[2 * k], realTw[2 * k + 1]));
      var reM, imM := MirrorPreValue(xk, xm, Cx(realTw[2 * m], realTw[2 * m + 1]));
      SetPair(freq, k, reK, imK);
      SetPair(freq, m, reM, imM);
    }

    static method SetPair(buf: array<real>, k: nat, re: real, im: real)
      requires k < buf.Length / 2
      modifies buf
      ensures Pairs(buf[..]) == old(Pairs(buf[..]))[k := Cx(re, im)]
    {
      buf[2 * k] := re;
      buf[2 * k + 1] := im;
    }

    lemma RealTable(k: nat)
      requires Valid() && k < halfN
      ensures halfN == Pow2(log2HalfN) && n == 2 * halfN == |realTw|
      ensures Cx(realTw[2 * k], realTw[2 * k + 1]) == Pow(w, k)
    {
      hide Pow, IsRoot, Rev, Pow2, HasStage;
    }

    method RealPostprocess(buf: array<real>)
      requires Valid() && buf.Length == n
      modifies buf
      ensures Pairs(buf[..]) == PostAll(old(Pairs(buf[..])), w)
    {
      hide Valid, Pow, IsRoot, Rev, Pow2, Post, PostAll, PairsDone, NormSq, Mul;
      Shape();
      MidTwiddle();
      ghost var z := Pairs(buf[..]);
      var zr0, zi0 := buf[0], buf[1];
      assert z[0] == Cx(buf[0], buf[1]);
      SetPair(buf, 0, zr0 + zi0, zr0 - zi0);
      var mid := halfN / 2;
      assert Pairs(buf[..])[mid] == z[mid];
      SetPair(buf, mid, buf[2 * mid], -buf[2 * mid + 1]);
      EndsAndMiddle(z, w);
      PairsBegin(z, PostAll(z, w));
      for k := 1 to mid
        invariant PairsDone(Pairs(buf[..]), z, PostAll(z, w), k)
      {
        ghost var p := Pairs(buf[..]);
        PostPair(buf, k, halfN - k);
        PostStep(p, Pairs(buf[..]), z, w, k);
      }
      PairsFinished(Pairs(buf[..]), z, PostAll(z, w));
    }

    method RealPreprocess(freq: array<real>)
      requires Valid() && freq.Length == n
      modifies freq
      ensures Pairs(freq[..]) == PreAll(old(Pairs(freq[..])), w)
    {
      hide Valid, Pow, IsRoot, Rev, Pow2, Pre, PreAll, PairsDone, NormSq, Mul;
      Shape();
      MidTwiddle();
      ghost var z := Pairs(freq[..]);
      var dc, nyq := freq[0], freq[1];
      assert z[0] == Cx(freq[0], freq[1]);
      SetPair(freq, 0, (dc + nyq) * 0.5, (dc - nyq) * 0.5);
      var mid := halfN / 2;
      assert Pairs(freq[..])[mid] == z[mid];
      SetPair(freq, mid, freq[2 * mid], -freq[2 * mid + 1]);
      EndsAndMiddle(z, w);
      PairsBegin(z, PreAll(z, w));
      for k := 1 to mid
        invariant PairsDone(Pairs(freq[..]), z, PreAll(z, w), k)
      {
        ghost var p := Pairs(freq[..]);
        PrePair(freq, k, halfN - k);
        PreStep(p, Pairs(freq[..]), z, w, k);
      }
      PairsFinished(Pairs(freq[..]), z, PreAll(z, w));
    }

    lemma MidTwiddle()
      requires Valid()
      ensures halfN % 2 == 0 && halfN >= 2 && Pow(w, halfN / 2) == MINUS_I
    {
      hide Pow, Rev, NormSq;
      Pow2Unfold(log2HalfN - 1);
    }

    /** The forward transform leaves the packed DFT of the real samples. */
    method Forward(buf: array<real>)
      requires Valid() && buf.Length == n
      modifies buf
      ensures IsPackedDft(buf[..], old(buf[..]), w)
      ensures var x := old(buf[..]);
              && buf[0] == RealDft(x, w, 0).re && buf[1] == RealDft(x, w, n / 2).re
              && forall k :: 0 < k < n / 2 ==>
                   buf[2 * k] == RealDft(x, w, k).re && buf[2 * k + 1] == RealDft(x, w, k).im
    {
      hide Valid, Pow, IsRoot, Rev, Pow2, Pairs, PostAll, PackedBins, IsDft, HalfBins, Mul, Conj, Dft, RealDft;
      Shape();
      ghost var x := buf[..];
      ComplexFft(buf, false, w);
      DftIsHalfBins(Pairs(buf[..]), x);
      RealPostprocess(buf);
      PostAllIsPacked(x, w, log2HalfN);
      PackedSpelled(buf[..], x, w);
    }

    lemma DftIsHalfBins(p: seq<Complex>, x: seq<real>)
      requires IsDft(p, Pairs(x), Mul(w, w)) && |x| % 2 == 0
      ensures p == HalfBins(x, w)
    {
      hide Dft, Mul, Pairs;
    }

    /** The inverse transform, with its 1/(n/2) normalisation, leaves the samples whose packed DFT the buffer held. */
    method Inverse(freq: array<real>)
      requires Valid() && freq.Length == n
      modifies freq
      ensures IsPackedDft(old(freq[..]), freq[..], w)
      ensures IsInverseDft(freq[..], old(freq[..]), w)
    {
      hide Valid, Pow, IsRoot, Rev, Pow2, Pre, PreAll, Mul, Dft;
      Shape();
      ghost var b := freq[..];
      RealPreprocess(freq);
      ComplexFft(freq, true, Conj(w));
      var scale := 1.0 / halfN as real;
      ScaleAll(freq, scale);
      InverseIsSignal(b, freq[..], w, log2HalfN);
    }

    static method ScaleAll(buf: array<real>, scale: real)
      modifies buf
      ensures |Pairs(buf[..])| == old(|Pairs(buf[..])|)
      ensures forall t :: 0 <= t < |Pairs(buf[..])| ==> Pairs(buf[..])[t] == Scale(scale, old(Pairs(buf[..]))[t])
    {
      ghost var s := buf[..];
      for i := 0 to buf.Length
        invariant forall k :: 0 <= k < buf.Length ==> buf[k] == if k < i then scale * s[k] else s[k]
      {
        buf[i] := buf[i] * scale;
      }
    }

    /** `forward` followed by `inverse` is the identity on every buffer. */
    method ForwardThenInverse(buf: array<real>)
      requires Valid() && buf.Length == n
      modifies buf
      ensures buf[..] == old(buf[..])
    {
      hide Valid, Pow, IsRoot, Rev, Pow2, IsPackedDft, IsInverseDft;
      Shape();
      ghost var x := buf[..];
      Forward(buf);
      ghost var b := buf[..];
      Inverse(buf);
      InverseOfForward(x, b, buf[..], w, log2HalfN);
    }

    /** `inverse` followed by `forward` is the identity on every packed spectrum. */
    method InverseThenForward(freq: array<real>)
      requires Valid() && freq.Length == n
      modifies freq
      ensures freq[..] == old(freq[..])
    {
      hide Valid, Pow, IsRoot, Rev, Pow2, IsPackedDft, IsInverseDft;
      Shape();
      ghost var b := freq[..];
      Inverse(freq);
      ghost var y := freq[..];
      Forward(freq);
      ForwardOfInverse(b, y, freq[..], w, log2HalfN);
    }
  }
}
