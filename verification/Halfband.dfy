/**
 The halfband FIR on a ring-buffered delay line, proved against one direct convolution over the whole history.

 Sample times count from 0; before the first sample the input was zero.
 */
module Halfband {
  import opened Powers
  import opened Ring

  // ── Direct convolution ──

  function At(h: seq<real>, t: int): real {
    if 0 <= t < |h| then h[t] else 0.0
  }

  /**
     The impulse response at lag `k`: the centre tap at lag `2n`, tap `t` at odd distance `2(n - t) - 1` either side of
     it, zero elsewhere.
     */
  function Kernel(taps: seq<real>, centre: real, k: int): real {
    var n := |taps|;
    var d := if k < 2 * n then 2 * n - k else k - 2 * n;
    if d == 0 then centre
    else if d % 2 == 1 && d < 2 * n then taps[n - (d + 1) / 2]
    else 0.0
  }

  function Term(taps: seq<real>, centre: real, h: seq<real>, m: int, s: int): real {
    Kernel(taps, centre, m - s) * At(h, s)
  }

  function SumTerms(taps: seq<real>, centre: real, h: seq<real>, m: int, lo: int, hi: int): real
    decreases hi - lo
  {
    if hi <= lo then 0.0 else SumTerms(taps, centre, h, m, lo, hi - 1) + Term(taps, centre, h, m, hi - 1)
  }

  /** The filter's output at time `m`: the whole history against the impulse response. */
  function Response(taps: seq<real>, centre: real, h: seq<real>, m: int): real {
    SumTerms(taps, centre, h, m, 0, |h|)
  }

  lemma {:induction false} SumSplit(taps: seq<real>, centre: real, h: seq<real>, m: int, lo: int, mid: int, hi: int)
    requires lo <= mid <= hi
    ensures SumTerms(taps, centre, h, m, lo, hi)
            == SumTerms(taps, centre, h, m, lo, mid) + SumTerms(taps, centre, h, m, mid, hi)
    decreases hi - mid
  {
    hide Term;
    if mid < hi {
      SumSplit(taps, centre, h, m, lo, mid, hi - 1);
    }
  }

  lemma {:induction false} SumZero(taps: seq<real>, centre: real, h: seq<real>, m: int, lo: int, hi: int)
    requires forall s :: lo <= s < hi ==> Term(taps, centre, h, m, s) == 0.0
    ensures SumTerms(taps, centre, h, m, lo, hi) == 0.0
    decreases hi - lo
  {
    hide Term;
    if lo < hi {
      SumZero(taps, centre, h, m, lo, hi - 1);
    }
  }

  /** A term is zero before the start, after the end of the history, and outside the kernel. */
  lemma TermZero(taps: seq<real>, centre: real, h: seq<real>, m: int, s: int)
    requires s < 0 || s >= |h| || m - s < 0 || m - s > 4 * |taps|
    ensures Term(taps, centre, h, m, s) == 0.0
  {
    assert s < 0 || s >= |h| ==> At(h, s) == 0.0;
    assert m - s < 0 || m - s > 4 * |taps| ==> Kernel(taps, centre, m - s) == 0.0;
  }

  /** Only the terms within the kernel matter. */
  lemma ResponseWindow(taps: seq<real>, centre: real, h: seq<real>, m: int, lo: int, hi: int)
    requires lo <= m - 4 * |taps| && m < hi && lo <= hi
    ensures Response(taps, centre, h, m) == SumTerms(taps, centre, h, m, lo, hi)
  {
    hide Term, SumTerms;
    var first, last := if lo < 0 then lo else 0, if hi > |h| then hi else |h|;
    forall s | first <= s < last && (s < 0 || s >= |h| || s < lo || s >= hi)
      ensures Term(taps, centre, h, m, s) == 0.0
    {
      TermZero(taps, centre, h, m, s);
    }
    SumSplit(taps, centre, h, m, first, 0, last);
    SumSplit(taps, centre, h, m, 0, |h|, last);
    SumZero(taps, centre, h, m, first, 0);
    SumZero(taps, centre, h, m, |h|, last);
    SumSplit(taps, centre, h, m, first, lo, last);
    SumSplit(taps, centre, h, m, lo, hi, last);
    SumZero(taps, centre, h, m, first, lo);
    SumZero(taps, centre, h, m, hi, last);
  }

  /** Later samples do not change an output. */
  lemma Causal(taps: seq<real>, centre: real, h: seq<real>, v: real, m: int)
    requires m < |h|
    ensures Response(taps, centre, h + [v], m) == Response(taps, centre, h, m)
  {
    hide SumTerms;
    SameTerms(taps, centre, h, v, m, 0, |h|);
    SumSplit(taps, centre, h + [v], m, 0, |h|, |h| + 1);
    TermZero(taps, centre, h + [v], m, |h|);
    SumZero(taps, centre, h + [v], m, |h|, |h| + 1);
  }

  lemma {:induction false} SameTerms(taps: seq<real>, centre: real, h: seq<real>, v: real, m: int, lo: int, hi: int)
    requires hi <= |h|
    ensures SumTerms(taps, centre, h + [v], m, lo, hi) == SumTerms(taps, centre, h, m, lo, hi)
    decreases hi - lo
  {
    hide Kernel;
    if lo < hi {
      SameTerms(taps, centre, h, v, m, lo, hi - 1);
    }
  }

  // ── The response is the convolution with the kernel: linear, and the kernel itself on an impulse ──

  /** `x` times one history plus another, sample by sample. */
  function Mixed(x: real, g: seq<real>, h: seq<real>): (r: seq<real>)
    requires |g| == |h|
    ensures |r| == |g| && forall i :: 0 <= i < |g| ==> r[i] == x * g[i] + h[i]
  {
    seq(|g|, i requires 0 <= i < |g| => x * g[i] + h[i])
  }

  lemma {:induction false} ResponseLinear(taps: seq<real>, centre: real, x: real, g: seq<real>, h: seq<real>, m: int)
    requires |g| == |h|
    ensures Response(taps, centre, Mixed(x, g, h), m)
            == x * Response(taps, centre, g, m) + Response(taps, centre, h, m)
  {
    hide SumTerms, Mixed;
    SumLinear(taps, centre, x, g, h, m, 0, |g|);
  }

  lemma {:induction false} SumLinear(taps: seq<real>, centre: real, x: real, g: seq<real>, h: seq<real>, m: int,
                                     lo: int, hi: int)
    requires |g| == |h|
    ensures SumTerms(taps, centre, Mixed(x, g, h), m, lo, hi)
            == x * SumTerms(taps, centre, g, m, lo, hi) + SumTerms(taps, centre, h, m, lo, hi)
    decreases hi - lo
  {
    hide Term, Mixed;
    if lo < hi {
      SumLinear(taps, centre, x, g, h, m, lo, hi - 1);
      TermLinear(taps, centre, x, g, h, m, hi - 1);
      Distribute(x, SumTerms(taps, centre, g, m, lo, hi - 1), Term(taps, centre, g, m, hi - 1));
    } else {
      assert x * 0.0 == 0.0;
    }
  }

  lemma Distribute(x: real, a: real, b: real)
    ensures x * (a + b) == x * a + x * b
  {}

  lemma TermLinear(taps: seq<real>, centre: real, x: real, g: seq<real>, h: seq<real>, m: int, s: int)
    requires |g| == |h|
    ensures Term(taps, centre, Mixed(x, g, h), m, s) == x * Term(taps, centre, g, m, s) + Term(taps, centre, h, m, s)
  {
    hide Kernel;
    var k, a, b := Kernel(taps, centre, m - s), At(g, s), At(h, s);
    assert At(Mixed(x, g, h), s) == x * a + b by { assert x * 0.0 == 0.0; }
    assert k * (x * a + b) == x * (k * a) + k * b;
  }

  function Impulse(n: nat, at: nat): (h: seq<real>)
    requires at < n
    ensures |h| == n && h[at] == 1.0 && forall i :: 0 <= i < n && i != at ==> h[i] == 0.0
  {
    seq(n, i requires 0 <= i < n => if i == at then 1.0 else 0.0)
  }

  /** An impulse at `at` gives the centre tap `2n` samples later, the taps either side of it in turn, and silence. */
  lemma ImpulseResponse(taps: seq<real>, centre: real, n: nat, at: nat, i: nat)
    requires at < n
    ensures var mid := at + 2 * |taps|;
            var h := Impulse(n, at);
            && Response(taps, centre, h, mid) == centre
            && (0 < i <= |taps| ==>
                  && Response(taps, centre, h, mid - (2 * i - 1)) == taps[|taps| - i]
                  && Response(taps, centre, h, mid + (2 * i - 1)) == taps[|taps| - i])
            && (i > 0 ==> Response(taps, centre, h, mid - 2 * i) == 0.0 == Response(taps, centre, h, mid + 2 * i))
            && (i > |taps| ==>
                  && Response(taps, centre, h, mid - (2 * i - 1)) == 0.0
                  && Response(taps, centre, h, mid + (2 * i - 1)) == 0.0)
  {
    var mid := at + 2 * |taps|;
    ImpulseAt(taps, centre, n, at, mid);
    ImpulseAt(taps, centre, n, at, mid - (2 * i - 1));
    ImpulseAt(taps, centre, n, at, mid + (2 * i - 1));
    ImpulseAt(taps, centre, n, at, mid - 2 * i);
    ImpulseAt(taps, centre, n, at, mid + 2 * i);
    KernelSpelled(taps, centre, i);
    hide Response, Kernel;
  }

  lemma KernelSpelled(taps: seq<real>, centre: real, i: nat)
    ensures var mid := 2 * |taps|;
            && Kernel(taps, centre, mid) == centre
            && (0 < i <= |taps| ==>
                  && Kernel(taps, centre, mid - (2 * i - 1)) == taps[|taps| - i]
                  && Kernel(taps, centre, mid + (2 * i - 1)) == taps[|taps| - i])
            && (i > 0 ==> Kernel(taps, centre, mid - 2 * i) == 0.0 == Kernel(taps, centre, mid + 2 * i))
            && (i > |taps| ==>
                  Kernel(taps, centre, mid - (2 * i - 1)) == 0.0 == Kernel(taps, centre, mid + (2 * i - 1)))
  {}

  lemma ImpulseAt(taps: seq<real>, centre: real, n: nat, at: nat, m: int)
    requires at < n
    ensures Response(taps, centre, Impulse(n, at), m) == Kernel(taps, centre, m - at)
  {
    hide Kernel, SumTerms, Impulse;
    var h := Impulse(n, at);
    SumSplit(taps, centre, h, m, 0, at, n);
    SumSplit(taps, centre, h, m, at, at + 1, n);
    forall s | (0 <= s < at || at < s < n) ensures Term(taps, centre, h, m, s) == 0.0 {}
    SumZero(taps, centre, h, m, 0, at);
    SumZero(taps, centre, h, m, at + 1, n);
    SumOne(taps, centre, h, m, at);
  }

  lemma SumOne(taps: seq<real>, centre: real, h: seq<real>, m: int, s: int)
    ensures SumTerms(taps, centre, h, m, s, s + 1) == Term(taps, centre, h, m, s)
  {
    assert SumTerms(taps, centre, h, m, s, s) == 0.0;
  }

  // ── The folded form ──

  /** Centre tap plus the `i` innermost tap pairs around time `c`. */
  function Folded(taps: seq<real>, centre: real, h: seq<real>, c: int, i: nat): real
    requires i <= |taps|
  {
    if i == 0 then centre * At(h, c)
    else Folded(taps, centre, h, c, i - 1) + taps[|taps| - i] * (At(h, c - (2 * i - 1)) + At(h, c + (2 * i - 1)))
  }

  lemma {:induction false} FoldedIsSum(taps: seq<real>, centre: real, h: seq<real>, m: int, i: nat)
    requires i <= |taps|
    ensures var c := m - 2 * |taps|;
            Folded(taps, centre, h, c, i) == SumTerms(taps, centre, h, m, c - 2 * i, c + 2 * i + 1)
  {
    var c := m - 2 * |taps|;
    if i == 0 {
      SumOne(taps, centre, h, m, c);
      KernelCentre(taps, centre);
      hide Kernel;
    } else {
      hide Term, SumTerms, Kernel, At;
      FoldedIsSum(taps, centre, h, m, i - 1);
      PairTerms(taps, centre, h, m, i);
      SumWiden(taps, centre, h, m, c - 2 * i, c + 2 * i + 1);
    }
  }

  lemma KernelCentre(taps: seq<real>, centre: real)
    ensures Kernel(taps, centre, 2 * |taps|) == centre
  {}

  /** Two terms at either end of a sum, taken out. */
  lemma SumWiden(taps: seq<real>, centre: real, h: seq<real>, m: int, lo: int, hi: int)
    requires lo + 5 <= hi
    ensures SumTerms(taps, centre, h, m, lo, hi)
         == Term(taps, centre, h, m, lo) + Term(taps, centre, h, m, lo + 1)
          + SumTerms(taps, centre, h, m, lo + 2, hi - 2)
          + Term(taps, centre, h, m, hi - 2) + Term(taps, centre, h, m, hi - 1)
  {
    hide Term, Kernel, At;
    assert SumTerms(taps, centre, h, m, lo, hi)
        == SumTerms(taps, centre, h, m, lo, hi - 2)
         + Term(taps, centre, h, m, hi - 2) + Term(taps, centre, h, m, hi - 1);
    hide SumTerms;
    SumSplit(taps, centre, h, m, lo, lo + 1, hi - 2);
    SumSplit(taps, centre, h, m, lo + 1, lo + 2, hi - 2);
    SumOne(taps, centre, h, m, lo);
    SumOne(taps, centre, h, m, lo + 1);
  }

  /** The two terms at distance `2i - 1` carry tap `n - i`; those at distance `2i` carry nothing. */
  lemma PairTerms(taps: seq<real>, centre: real, h: seq<real>, m: int, i: nat)
    requires 0 < i <= |taps|
    ensures var c := m - 2 * |taps|;
            && Term(taps, centre, h, m, c - 2 * i) == 0.0 && Term(taps, centre, h, m, c + 2 * i) == 0.0
            && Term(taps, centre, h, m, c - (2 * i - 1)) == taps[|taps| - i] * At(h, c - (2 * i - 1))
            && Term(taps, centre, h, m, c + (2 * i - 1)) == taps[|taps| - i] * At(h, c + (2 * i - 1))
  {
    hide At;
    var c := m - 2 * |taps|;
    KernelPair(taps, centre, i);
    assert m - (c - 2 * i) == 2 * |taps| + 2 * i && m - (c + 2 * i) == 2 * |taps| - 2 * i;
    assert m - (c - (2 * i - 1)) == 2 * |taps| + (2 * i - 1) && m - (c + (2 * i - 1)) == 2 * |taps| - (2 * i - 1);
  }

  lemma KernelPair(taps: seq<real>, centre: real, i: nat)
    requires 0 < i <= |taps|
    ensures Kernel(taps, centre, 2 * |taps| + 2 * i) == 0.0 && Kernel(taps, centre, 2 * |taps| - 2 * i) == 0.0
    ensures Kernel(taps, centre, 2 * |taps| + (2 * i - 1)) == taps[|taps| - i]
    ensures Kernel(taps, centre, 2 * |taps| - (2 * i - 1)) == taps[|taps| - i]
  {}

  /** Folding the symmetric taps computes the direct convolution. */
  lemma FoldedIsResponse(taps: seq<real>, centre: real, h: seq<real>, m: int)
    ensures Folded(taps, centre, h, m - 2 * |taps|, |taps|) == Response(taps, centre, h, m)
  {
    hide Term, SumTerms, Folded;
    FoldedIsSum(taps, centre, h, m, |taps|);
    ResponseWindow(taps, centre, h, m, m - 4 * |taps|, m + 1);
  }

  // ── The delay line ──

  /** Ring `delay` holds the last `|delay|` samples. */
  ghost predicate DelayOk(delay: seq<real>, h: seq<real>) {
    |delay| > 0 && forall t :: |h| - |delay| <= t < |h| ==> delay[Slot(t, |delay|)] == At(h, t)
  }

  lemma DelayPush(delay: seq<real>, h: seq<real>, v: real)
    requires DelayOk(delay, h)
    ensures DelayOk(delay[Slot(|h|, |delay|) := v], h + [v])
  {
    hide Slot;
    forall t | |h| + 1 - |delay| <= t < |h| + 1
      ensures delay[Slot(|h|, |delay|) := v][Slot(t, |delay|)] == At(h + [v], t)
    {
      if Slot(t, |delay|) == Slot(|h|, |delay|) {
        SlotUnique(t, |h|, |delay|);
      }
    }
  }

  lemma DelayAt(delay: seq<real>, h: seq<real>, t: int)
    requires DelayOk(delay, h) && |h| - |delay| <= t < |h|
    ensures |delay| > 0 && delay[Slot(t, |delay|)] == At(h, t)
  {
    hide Slot;
  }

  class HalfbandFir {
    const taps: seq<real>
    const centre: real
    const delay: array<real>
    var pos: nat

    /** Every sample pushed so far. */
    ghost var history: seq<real>

    ghost predicate Valid()
      reads this, delay
    {
      && delay.Length >= 4 * |taps| + 2
      && pos == Slot(|history|, delay.Length)
      && DelayOk(delay[..], history)
    }

    constructor (taps: seq<real>, centre: real)
      ensures Valid() && history == [] && fresh(delay) && this.taps == taps && this.centre == centre
      ensures IsPowerOfTwo(delay.Length)
    {
      this.taps, this.centre := taps, centre;
      var len := NextPowerOfTwo(4 * |taps| + 2);
      delay := new real[len](_ => 0.0);
      pos := 0;
      history := [];
    }

    /** Pushes one sample; returns the slot just written. */
    method PushSample(x: real) returns (idx: nat)
      requires Valid()
      modifies this, delay
      ensures Valid() && history == old(history) + [x] && idx == Slot(|old(history)|, delay.Length)
    {
      hide Slot, DelayOk;
      DelayPush(delay[..], history, x);
      SlotAdd(|history|, 1, delay.Length);
      idx := pos;
      delay[idx] := x;
      pos := Slot(pos + 1, delay.Length);
      history := history + [x];
    }

    /** The folded convolution centred `2n` samples before `newest`, the slot of time `m`. */
    method Evaluate(newest: nat, ghost m: nat) returns (acc: real)
      requires Valid() && m < |history| && |history| - 2 <= m && newest == Slot(m, delay.Length)
      ensures acc == Response(taps, centre, history, m)
    {
      hide Slot, DelayOk, At, Folded, Response, Around;
      var n, len := |taps|, delay.Length;
      ghost var c := m - 2 * n;
      var midpointOffset := len - 2 * n;
      CentreSlot(m, n, len, newest);
      var centerIdx := Slot(newest + midpointOffset, len);
      DelayAt(delay[..], history, c);
      acc := centre * delay[centerIdx];
      FoldedStart(taps, centre, history, c);

      AroundStart(c, len, centerIdx);
      var offsetR: nat := Slot(centerIdx + 1, len);
      var offsetL: nat := Slot(centerIdx + (len - 1), len);
      var t := n;
      while t > 0
        invariant 0 <= t <= n && acc == Folded(taps, centre, history, c, n - t)
        invariant Around(c, n - t, len, offsetL, offsetR)
      {
        t := t - 1;
        PairAt(delay[..], history, c, n - t, offsetL, offsetR);
        FoldedStep(taps, centre, history, c, n - t);
        acc := acc + taps[t] * (delay[offsetL] + delay[offsetR]);
        AroundStep(c, n - t - 1, len, offsetL, offsetR);
        offsetR := Slot(offsetR + 2, len);
        offsetL := Slot(offsetL + (len - 1) - 1, len);
      }
      FoldedIsResponse(taps, centre, history, m);
    }

    /** Decimates two samples into one: the response at the time of the first. */
    method Process(first: real, second: real) returns (acc: real)
      requires Valid()
      modifies this, delay
      ensures Valid() && history == old(history) + [first, second]
      ensures acc == Response(taps, centre, history, |old(history)|)
    {
      hide Slot, DelayOk, Response;
      var newest := PushSample(first);
      var _ := PushSample(second);
      acc := Evaluate(newest, |old(history)|);
    }

    /** One sample in, one sample out. */
    method PushAndEval(x: real) returns (acc: real)
      requires Valid()
      modifies this, delay
      ensures Valid() && history == old(history) + [x]
      ensures acc == Response(taps, centre, history, |old(history)|)
    {
      hide Slot, DelayOk, Response;
      var newest := PushSample(x);
      acc := Evaluate(newest, |old(history)|);
    }
  }

  /** The two cursors sit at distance `2i + 1` either side of the slot of time `c`. */
  ghost predicate Around(c: int, i: nat, len: nat, offsetL: nat, offsetR: nat) {
    len > 0 && offsetR == Slot(c + (2 * i + 1), len) && offsetL == Slot(c - (2 * i + 1), len)
  }

  lemma CentreSlot(m: nat, n: nat, len: nat, newest: nat)
    requires len >= 2 * n && len > 0 && newest == Slot(m, len)
    ensures Slot(newest + (len - 2 * n), len) == Slot(m - 2 * n, len)
  {
    hide Slot;
    SlotAdd(m, len - 2 * n, len);
    SlotTurn(m - 2 * n, len);
    assert m + (len - 2 * n) == m - 2 * n + len;
  }

  lemma AroundStart(c: int, len: nat, centerIdx: nat)
    requires len > 0 && centerIdx == Slot(c, len)
    ensures Around(c, 0, len, Slot(centerIdx + (len - 1), len), Slot(centerIdx + 1, len))
  {
    hide Slot;
    SlotAdd(c, 1, len);
    SlotAdd(c, len - 1, len);
    SlotTurn(c - 1, len);
    assert c + (len - 1) == c - 1 + len;
  }

  lemma AroundStep(c: int, i: nat, len: nat, offsetL: nat, offsetR: nat)
    requires len >= 2 && Around(c, i, len, offsetL, offsetR)
    ensures Around(c, i + 1, len, Slot(offsetL + (len - 1) - 1, len), Slot(offsetR + 2, len))
  {
    hide Slot;
    SlotAdd(c + (2 * i + 1), 2, len);
    SlotAdd(c - (2 * i + 1), len - 2, len);
    SlotTurn(c - (2 * i + 3), len);
    assert c - (2 * i + 1) + (len - 2) == c - (2 * i + 3) + len;
    assert offsetL + (len - 1) - 1 == offsetL + (len - 2) && c + (2 * i + 1) + 2 == c + (2 * (i + 1) + 1);
  }

  lemma PairAt(delay: seq<real>, h: seq<real>, c: int, i: nat, offsetL: nat, offsetR: nat)
    requires DelayOk(delay, h) && 0 < i && Around(c, i - 1, |delay|, offsetL, offsetR)
    requires |h| - |delay| <= c - (2 * i - 1) && c + (2 * i - 1) < |h|
    ensures offsetL < |delay| && offsetR < |delay|
    ensures delay[offsetL] == At(h, c - (2 * i - 1)) && delay[offsetR] == At(h, c + (2 * i - 1))
  {
    hide Slot, DelayOk, At;
    DelayAt(delay, h, c - (2 * i - 1));
    DelayAt(delay, h, c + (2 * i - 1));
  }

  lemma FoldedStart(taps: seq<real>, centre: real, h: seq<real>, c: int)
    ensures Folded(taps, centre, h, c, 0) == centre * At(h, c)
  {}

  lemma FoldedStep(taps: seq<real>, centre: real, h: seq<real>, c: int, i: nat)
    requires 0 < i <= |taps|
    ensures Folded(taps, centre, h, c, i)
            == Folded(taps, centre, h, c, i - 1) + taps[|taps| - i] * (At(h, c - (2 * i - 1)) + At(h, c + (2 * i - 1)))
  {}
}
