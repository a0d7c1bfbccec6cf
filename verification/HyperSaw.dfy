/** Fixed-point detuned saws: 32-bit phase arithmetic, and an output bound for the corrected saw. */
module HyperSaw {
  import opened Reals

  const N_COPIES: nat := 9
  const N_VOICES: nat := 16
  const TURN: nat := 0x1_0000_0000
  const HALF: nat := 0x8000_0000

  type U32 = x: int | 0 <= x < 0x1_0000_0000

  function WrappingAdd(a: U32, b: U32): U32 { (a + b) % TURN }

  function WrappingSub(a: U32, b: U32): U32 { (a - b) % TURN }

  function WrappingNeg(a: U32): U32 { (-(a as int)) % TURN }

  /** The same 32 bits read as a signed number. */
  function AsSigned(a: U32): int { if a >= HALF then a - TURN else a }

  // ── One saw ──

  function Naive(p: U32): real {
    AsSigned(WrappingSub(p, HALF)) as real / HALF as real
  }

  /** The phase has just wrapped. */
  predicate After(p: U32, inc: U32) { p < inc }

  /** The phase is about to wrap. */
  predicate Before(p: U32, inc: U32) { !After(p, inc) && WrappingNeg(p) < inc }

  function Times(a: real, b: real): real { a * b }

  /** The distance to the wrap as a fraction of the increment. */
  function Fraction(p: U32, inc: U32, invInc: real): real {
    var local: U32 := if After(p, inc) then p else WrappingNeg(p);
    Times(local as real, invInc)
  }

  function Saw(p: U32, inc: U32, invInc: real): real {
    var oneMinus := 1.0 - Fraction(p, inc, invInc);
    var sign := (if Before(p, inc) then 1.0 else 0.0) - (if After(p, inc) then 1.0 else 0.0);
    Naive(p) - Times(sign, Times(oneMinus, oneMinus))
  }

  /** The reciprocal of the increment, zero for zero. */
  predicate IsReciprocal(inc: U32, invInc: real) {
    if inc == 0 then invInc == 0.0 else Times(invInc, inc as real) == 1.0
  }

  lemma NaiveIs(p: U32)
    ensures Naive(p) * HALF as real == (p - HALF) as real && -1.0 <= Naive(p) < 1.0
  {
    assert AsSigned(WrappingSub(p, HALF)) == p - HALF;
  }

  /** The corrected value just after a wrap, `y` being at most the fraction `x`: within one. */
  lemma AfterBound(naive: real, x: real, y: real)
    requires naive == -1.0 + 2.0 * y && 0.0 <= x < 1.0 && 0.0 <= y <= x
    ensures -1.0 <= naive + Times(1.0 - x, 1.0 - x) <= 1.0
  {
    assert Times(1.0 - x, 1.0 - x) == 1.0 - 2.0 * x + x * x;
    Shrink(x, x);
    assert 0.0 <= Times(1.0 - x, 1.0 - x) && x * x <= x;
  }

  /** `y` is `x` scaled by `s`. */
  lemma Shrink(x: real, s: real)
    requires 0.0 <= x < 1.0 && 0.0 <= s <= 1.0
    ensures 0.0 <= Times(x, s) <= x
  {}

  lemma Assoc(x: real, s: real, t: real)
    ensures Times(Times(x, s), t) == Times(x, Times(s, t))
  {}

  lemma Below(x: real, i: real, l: real)
    requires Times(x, i) == l && 0.0 <= l < i
    ensures 0.0 <= x < 1.0
  {}

  /** A distance of `local` to the wrap, as a fraction of the increment and of the turn. */
  lemma Distance(local: U32, inc: U32, invInc: real) returns (x: real, y: real)
    requires Times(invInc, inc as real) == 1.0 && local < inc
    ensures x == Times(local as real, invInc) && 0.0 <= x < 1.0 && 0.0 <= y <= x && y * TURN as real == local as real
  {
    var i, l, t := inc as real, local as real, TURN as real;
    x := Times(l, invInc);
    Assoc(l, invInc, i);
    assert Times(l, 1.0) == l;
    Below(x, i, l);
    var s := i / t;
    assert Times(s, t) == i;
    Assoc(x, s, t);
    Shrink(x, s);
    y := Times(x, s);
    assert Times(y, t) == y * t;
  }

  /** Disjoint zones, so at most one correction; and the corrected saw stays within one. */
  lemma SawBounded(p: U32, inc: U32, invInc: real)
    requires IsReciprocal(inc, invInc)
    ensures !(After(p, inc) && Before(p, inc))
    ensures -1.0 <= Saw(p, inc, invInc) <= 1.0
  {
    NaiveIs(p);
    Signs(Times(1.0 - Fraction(p, inc, invInc), 1.0 - Fraction(p, inc, invInc)));
    hide Times, Naive;
    if After(p, inc) {
      var x, y := Distance(p, inc, invInc);
      AfterBound(Naive(p), x, y);
    } else if Before(p, inc) {
      assert WrappingNeg(p) == TURN - p;
      var x, y := Distance(WrappingNeg(p), inc, invInc);
      AfterBound(-Naive(p), x, y);
    }
  }

  lemma Signs(sq: real)
    ensures Times(1.0, sq) == sq && Times(-1.0, sq) == -sq && Times(0.0, sq) == 0.0
  {}

  /** What the correction adds at a distance `d` from the wrap: one at the wrap, falling to nothing at the increment. */
  function Bump(d: nat, inc: U32): (r: real)
    requires inc > 0
    ensures d >= inc ==> r == 0.0
    ensures d < inc ==> r == (1.0 - d as real / inc as real) * (1.0 - d as real / inc as real)
  {
    if d < inc then (1.0 - d as real / inc as real) * (1.0 - d as real / inc as real) else 0.0
  }

  /** The saw spelled out: the straight one, raised just after the wrap and lowered just before it. */
  lemma SawSpelled(p: U32, inc: U32, invInc: real)
    requires IsReciprocal(inc, invInc) && 0 < inc <= HALF
    ensures Saw(p, inc, invInc) == (p - HALF) as real / HALF as real + Bump(p, inc) - Bump(TURN - p, inc)
  {
    NaiveIs(p);
    Signs(Times(1.0 - Fraction(p, inc, invInc), 1.0 - Fraction(p, inc, invInc)));
    NaiveQuotient(p);
    hide Times, Naive;
    if After(p, inc) {
      Quotient(p, inc, invInc);
    } else if Before(p, inc) {
      assert WrappingNeg(p) == TURN - p;
      Quotient(TURN - p, inc, invInc);
    }
  }

  lemma NaiveQuotient(p: U32)
    ensures Naive(p) == (p - HALF) as real / HALF as real
  {
    assert AsSigned(WrappingSub(p, HALF)) == p - HALF;
  }

  lemma Quotient(d: U32, inc: U32, invInc: real)
    requires 0 < inc && d < inc && Times(invInc, inc as real) == 1.0
    ensures var x := 1.0 - Times(d as real, invInc); Times(x, x) == Bump(d, inc)
  {
    assert invInc == 1.0 / inc as real;
    assert d as real * invInc == d as real / inc as real;
  }

  /** Without a correction there is no saw across the wrap: with it, the saw goes through zero there and is odd. */
  lemma SawOdd(p: U32, inc: U32, invInc: real)
    requires IsReciprocal(inc, invInc) && 0 < inc <= HALF
    ensures Saw(0, inc, invInc) == 0.0
    ensures p > 0 ==> Saw(TURN - p, inc, invInc) == -Saw(p, inc, invInc)
  {
    SawSpelled(0, inc, invInc);
    SawSpelled(p, inc, invInc);
    assert Bump(0, inc) == 1.0 && Bump(TURN, inc) == 0.0;
    if p > 0 {
      SawSpelled(TURN - p, inc, invInc);
      assert (TURN - p - HALF) as real / HALF as real == -((p - HALF) as real / HALF as real);
    }
  }

  lemma BumpFalls(d: nat, inc: U32)
    requires inc > 0
    ensures 0.0 <= Bump(d, inc) - Bump(d + 1, inc) <= 2.0 / inc as real
    ensures 0.0 <= Bump(d, inc) <= 1.0
  {
    var i := inc as real;
    Fractions(i);
    if d < inc {
      var u, x := 1.0 / i, d as real / i;
      Steps(d as real, i);
      SquareStep(1.0 - x, u);
      SquareUpTo(1.0 - x);
      BumpSquares(d, inc, u, x);
    }
  }

  lemma BumpSquares(d: nat, inc: U32, u: real, x: real)
    requires d < inc && u == 1.0 / inc as real && x == d as real / inc as real
    ensures Bump(d, inc) == (1.0 - x) * (1.0 - x) && Bump(d + 1, inc) == (1.0 - x - u) * (1.0 - x - u)
  {
    var x' := (d + 1) as real / inc as real;
    Steps(d as real, inc as real);
    assert x' == x + u;
    if d + 1 == inc { assert x' == 1.0; }
  }

  lemma Steps(d: real, i: real)
    requires 0.0 <= d && d + 1.0 <= i
    ensures (d + 1.0) / i == d / i + 1.0 / i && 0.0 <= d / i && d / i + 1.0 / i <= 1.0 && 0.0 <= 1.0 / i
  {
    var u := 1.0 / i;
    assert d / i == d * u && i * u == 1.0 && (d + 1.0) * u == d * u + u;
    UpTo(d + 1.0, i, u);
    UpTo(0.0, d, u);
  }

  lemma UpTo(a: real, i: real, u: real)
    requires 0.0 <= a <= i && u > 0.0
    ensures a * u <= i * u
  {}

  lemma SquareStep(y: real, u: real)
    requires 0.0 <= u <= y <= 1.0
    ensures 0.0 <= y * y - (y - u) * (y - u) <= 2.0 * u
  {
    assert y * y - (y - u) * (y - u) == u * (2.0 * y - u);
    MulUp(u, 2.0 * y - u, 2.0);
  }

  lemma SquareUpTo(y: real)
    requires 0.0 <= y <= 1.0
    ensures 0.0 <= y * y <= 1.0
  {
    MulUp(y, 1.0 - y, 1.0);
    assert y * (1.0 - y) == y - y * y;
  }

  lemma MulUp(a: real, b: real, c: real)
    requires 0.0 <= a && 0.0 <= b <= c
    ensures 0.0 <= a * b <= a * c
  {}

  /** From one phase to the next the saw moves a little, at the wrap as everywhere: the jump of two is gone. */
  lemma SawSmooth(p: U32, inc: U32, invInc: real)
    requires IsReciprocal(inc, invInc) && 0 < inc <= HALF
    ensures Abs(Saw(WrappingAdd(p, 1), inc, invInc) - Saw(p, inc, invInc)) <= 4.0 / inc as real + 1.0 / HALF as real
  {
    hide Saw, Bump, Abs;
    SawSpelled(p, inc, invInc);
    SawSpelled(WrappingAdd(p, 1), inc, invInc);
    BumpFalls(p, inc);
    BumpFalls(TURN - p - 1, inc);
    BumpFalls(0, inc);
    BumpEnds(inc);
    var i := 1.0 / inc as real;
    Fractions(inc as real);
    Ramp(p);
    if p == TURN - 1 {
      assert WrappingAdd(p, 1) == 0;
    } else {
      assert WrappingAdd(p, 1) == p + 1;
    }
  }

  lemma BumpEnds(inc: U32)
    requires 0 < inc <= HALF
    ensures Bump(0, inc) == 1.0 && Bump(TURN, inc) == 0.0 && Bump(TURN - 1, inc) == 0.0
  {}

  lemma Fractions(i: real)
    requires i > 0.0
    ensures 2.0 / i == 2.0 * (1.0 / i) && 4.0 / i == 4.0 * (1.0 / i) && 1.0 / i > 0.0
  {}

  lemma Ramp(p: U32)
    ensures (p + 1 - HALF) as real / HALF as real == (p - HALF) as real / HALF as real + 1.0 / HALF as real
    ensures (0 - HALF) as real / HALF as real == -1.0
    ensures p == TURN - 1 ==> (p - HALF) as real / HALF as real == 1.0 - 1.0 / HALF as real
  {}

  // ── Many samples ──

  function PhaseAfter(p: U32, inc: U32, n: nat): U32 {
    if n == 0 then p else WrappingAdd(PhaseAfter(p, inc, n - 1), inc)
  }

  /** How often the `after` zone has fired. */
  function Wraps(p: U32, inc: U32, n: nat): nat {
    if n == 0 then 0 else Wraps(p, inc, n - 1) + if After(PhaseAfter(p, inc, n), inc) then 1 else 0
  }

  /** The phase is exact modulo 2^32, and the `after` zone fires exactly once per wrap. */
  lemma {:induction false} ExactPhase(p: U32, inc: U32, n: nat)
    ensures PhaseAfter(p, inc, n) + TURN * Wraps(p, inc, n) == p + n * inc
    ensures PhaseAfter(p, inc, n) == (p + n * inc) % TURN && Wraps(p, inc, n) == (p + n * inc) / TURN
  {
    hide WrappingAdd, After;
    if n > 0 {
      ExactPhase(p, inc, n - 1);
      OneAdd(PhaseAfter(p, inc, n - 1), inc);
      MulStep(n, inc);
    }
    WrapParts(PhaseAfter(p, inc, n), Wraps(p, inc, n), p + n * inc);
  }

  lemma MulStep(n: nat, inc: nat)
    requires n > 0
    ensures n * inc == (n - 1) * inc + inc
  {}

  lemma WrapParts(phase: U32, wraps: nat, total: nat)
    requires phase + TURN * wraps == total
    ensures phase == total % TURN && wraps == total / TURN
  {}

  /** An addition wraps exactly when the sum comes out below the increment. */
  lemma OneAdd(q: U32, inc: U32)
    ensures q + inc == WrappingAdd(q, inc) + if After(WrappingAdd(q, inc), inc) then TURN else 0
  {}

  // ── The ensemble ──

  class HyperSawCore {
    const phase: array2<U32>
    const inc: array2<U32>
    const invInc: array2<real>
    const gain: array2<real>

    ghost predicate Valid() {
      && phase.Length0 == inc.Length0 == invInc.Length0 == gain.Length0 == N_COPIES
      && phase.Length1 == inc.Length1 == invInc.Length1 == gain.Length1 == N_VOICES
      && phase != inc && invInc != gain
    }

    /** The seed only chooses the starting phases, given here. */
    constructor (start: (nat, nat) -> U32)
      ensures Valid() && fresh(phase) && fresh(inc) && fresh(invInc) && fresh(gain)
      ensures forall k, v :: 0 <= k < N_COPIES && 0 <= v < N_VOICES ==>
                phase[k, v] == start(k, v) && inc[k, v] == 0 && invInc[k, v] == 0.0 && gain[k, v] == 0.0
    {
      phase := new U32[N_COPIES, N_VOICES]((k, v) requires k >= 0 && v >= 0 => start(k, v));
      inc := new U32[N_COPIES, N_VOICES]((_, _) => 0);
      invInc := new real[N_COPIES, N_VOICES]((_, _) => 0.0);
      gain := new real[N_COPIES, N_VOICES]((_, _) => 0.0);
    }

    /** Takes over the caller's increments, reciprocals and gains; the phases run on. */
    method Update(inc': array2<U32>, invInc': array2<real>, gain': array2<real>)
      requires Valid() && inc'.Length0 == invInc'.Length0 == gain'.Length0 == N_COPIES
      requires inc'.Length1 == invInc'.Length1 == gain'.Length1 == N_VOICES
      requires phase != inc' && invInc' != gain && invInc != gain'
      modifies inc, invInc, gain
      ensures forall k, v :: 0 <= k < N_COPIES && 0 <= v < N_VOICES ==>
                inc[k, v] == old(inc'[k, v]) && invInc[k, v] == old(invInc'[k, v]) && gain[k, v] == old(gain'[k, v])
    {
      forall k, v | 0 <= k < N_COPIES && 0 <= v < N_VOICES {
        inc[k, v] := inc'[k, v];
      }
      forall k, v | 0 <= k < N_COPIES && 0 <= v < N_VOICES {
        invInc[k, v] := invInc'[k, v];
      }
      forall k, v | 0 <= k < N_COPIES && 0 <= v < N_VOICES {
        gain[k, v] := gain'[k, v];
      }
    }

    /** What the first `n` copies add to voice `v` on the next sample. */
    ghost function Mix(v: nat, n: nat): real
      requires Valid() && v < N_VOICES && n <= N_COPIES
      reads phase, inc, invInc, gain
    {
      if n == 0 then 0.0
      else
        Mix(v, n - 1)
        + gain[n - 1, v] * Saw(WrappingAdd(phase[n - 1, v], inc[n - 1, v]), inc[n - 1, v], invInc[n - 1, v])
    }

    /** What copy `k` of voice `v` puts out on the next sample. */
    ghost function Copy(k: nat, v: nat): (r: real)
      requires Valid() && k < N_COPIES && v < N_VOICES
      reads phase, inc, invInc, gain
      ensures r == gain[k, v] * Saw((phase[k, v] + inc[k, v]) % TURN, inc[k, v], invInc[k, v])
    {
      gain[k, v] * Saw(WrappingAdd(phase[k, v], inc[k, v]), inc[k, v], invInc[k, v])
    }

    /** A voice is all nine copies. */
    lemma MixSpelled(v: nat)
      requires Valid() && v < N_VOICES
      ensures Mix(v, N_COPIES) == Copy(0, v) + Copy(1, v) + Copy(2, v) + Copy(3, v) + Copy(4, v) + Copy(5, v)
                                  + Copy(6, v) + Copy(7, v) + Copy(8, v)
    {
      hide Saw, WrappingAdd;
      assert Mix(v, 1) == Copy(0, v) && Mix(v, 2) == Mix(v, 1) + Copy(1, v) && Mix(v, 3) == Mix(v, 2) + Copy(2, v);
      assert Mix(v, 4) == Mix(v, 3) + Copy(3, v) && Mix(v, 5) == Mix(v, 4) + Copy(4, v);
      assert Mix(v, 6) == Mix(v, 5) + Copy(5, v) && Mix(v, 7) == Mix(v, 6) + Copy(6, v);
      assert Mix(v, 8) == Mix(v, 7) + Copy(7, v) && Mix(v, 9) == Mix(v, 8) + Copy(8, v);
    }

    ghost function GainSum(v: nat, n: nat): real
      requires Valid() && v < N_VOICES && n <= N_COPIES
      reads gain
    {
      if n == 0 then 0.0 else GainSum(v, n - 1) + Abs(gain[n - 1, v])
    }

    ghost predicate Reciprocals()
      requires Valid()
      reads inc, invInc
    {
      forall k, v :: 0 <= k < N_COPIES && 0 <= v < N_VOICES ==> IsReciprocal(inc[k, v], invInc[k, v])
    }

    lemma {:induction false} MixBounded(v: nat, n: nat)
      requires Valid() && v < N_VOICES && n <= N_COPIES && Reciprocals()
      ensures -GainSum(v, n) <= Mix(v, n) <= GainSum(v, n)
    {
      hide Saw;
      if n > 0 {
        MixBounded(v, n - 1);
        var p := WrappingAdd(phase[n - 1, v], inc[n - 1, v]);
        SawBounded(p, inc[n - 1, v], invInc[n - 1, v]);
        Scaled(gain[n - 1, v], Saw(p, inc[n - 1, v], invInc[n - 1, v]));
      }
    }

    /** One sample: every phase steps by its increment, and each voice sums its copies, within the sum of its gains. */
    method Process(out: array<real>)
      requires Valid() && out.Length == N_VOICES
      modifies phase, out
      ensures forall k, v :: 0 <= k < N_COPIES && 0 <= v < N_VOICES ==>
                phase[k, v] == (old(phase[k, v]) + inc[k, v]) % 0x1_0000_0000
      ensures forall v :: 0 <= v < N_VOICES ==> out[v] == old(Mix(v, N_COPIES))
      ensures old(Reciprocals()) ==>
                forall v :: 0 <= v < N_VOICES ==> -GainSum(v, N_COPIES) <= out[v] <= GainSum(v, N_COPIES)
    {
      hide Saw, WrappingAdd;
      if Reciprocals() {
        forall v | 0 <= v < N_VOICES ensures -GainSum(v, N_COPIES) <= Mix(v, N_COPIES) <= GainSum(v, N_COPIES) {
          MixBounded(v, N_COPIES);
        }
      }
      for v := 0 to N_VOICES
        invariant forall w :: 0 <= w < v ==> out[w] == 0.0
        modifies out
      {
        out[v] := 0.0;
      }
      for k := 0 to N_COPIES
        invariant forall i, v :: 0 <= i < N_COPIES && 0 <= v < N_VOICES ==>
                    phase[i, v] == if i < k then WrappingAdd(old(phase[i, v]), inc[i, v]) else old(phase[i, v])
        invariant forall v :: 0 <= v < N_VOICES ==> out[v] == old(Mix(v, k))
      {
        for v := 0 to N_VOICES
          invariant forall i, w :: 0 <= i < N_COPIES && 0 <= w < N_VOICES ==>
                      phase[i, w] == if i < k || (i == k && w < v) then WrappingAdd(old(phase[i, w]), inc[i, w])
                                     else old(phase[i, w])
          invariant forall w :: 0 <= w < N_VOICES ==> out[w] == old(Mix(w, if w < v then k + 1 else k))
        {
          var p := WrappingAdd(phase[k, v], inc[k, v]);
          phase[k, v] := p;
          out[v] := out[v] + gain[k, v] * Saw(p, inc[k, v], invInc[k, v]);
        }
      }
      WrappingSums();
    }
  }

  lemma WrappingSums()
    ensures forall a: U32, b: U32 :: WrappingAdd(a, b) == (a + b) % 0x1_0000_0000
  {}

  lemma Scaled(g: real, s: real)
    requires -1.0 <= s <= 1.0
    ensures -Abs(g) <= g * s <= Abs(g)
  {
    if g < 0.0 {
      Shrunk(-g, s);
    } else {
      Shrunk(g, s);
    }
  }

  lemma Shrunk(g: real, s: real)
    requires g >= 0.0 && -1.0 <= s <= 1.0
    ensures -g <= g * s <= g && (-g) * s == -(g * s)
  {}
}
