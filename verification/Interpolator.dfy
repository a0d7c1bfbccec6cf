/** The two-branch interpolator, proved equal to twice the halfband FIR run on the zero-inserted stream. */
module Interpolator {
  import opened Ring
  import opened Halfband

  const GROUP_DELAY_BASE_RATE: nat := 8
  const N_TAPS: nat := 8
  const RING_LEN: nat := 16

  /** Each sample followed by a zero. */
  function ZeroInserted(xs: seq<real>): (u: seq<real>)
    ensures |u| == 2 * |xs|
  {
    seq(2 * |xs|, i requires 0 <= i < 2 * |xs| => if i % 2 == 0 then xs[i / 2] else 0.0)
  }

  lemma InsertedEven(xs: seq<real>, t: int)
    ensures At(ZeroInserted(xs), 2 * t) == At(xs, t)
  {
    assert 0 <= t < |xs| ==> 2 * t % 2 == 0 && 2 * t / 2 == t;
  }

  lemma InsertedOdd(xs: seq<real>, t: int)
    ensures At(ZeroInserted(xs), 2 * t + 1) == 0.0
  {
    assert 0 <= t < |xs| ==> (2 * t + 1) % 2 == 1;
  }

  /** Centred on a real sample, every tap pair falls on inserted zeros. */
  lemma {:induction false} FoldedOnEven(taps: seq<real>, centre: real, xs: seq<real>, t: int, i: nat)
    requires i <= |taps|
    ensures Folded(taps, centre, ZeroInserted(xs), 2 * t, i) == centre * At(xs, t)
  {
    hide At, ZeroInserted;
    if i == 0 {
      InsertedEven(xs, t);
    } else {
      FoldedOnEven(taps, centre, xs, t, i - 1);
      InsertedOdd(xs, t - i);
      InsertedOdd(xs, t + i - 1);
      assert 2 * (t - i) + 1 == 2 * t - (2 * i - 1) && 2 * (t + i - 1) + 1 == 2 * t + (2 * i - 1);
    }
  }

  /** Centred on an inserted zero, pair `i` meets the `i`-th real samples on either side. */
  lemma FoldedOnOdd(taps: seq<real>, centre: real, xs: seq<real>, t: int, i: nat)
    requires 0 < i <= |taps|
    ensures Folded(taps, centre, ZeroInserted(xs), 2 * t + 1, i)
            == Folded(taps, centre, ZeroInserted(xs), 2 * t + 1, i - 1)
               + taps[|taps| - i] * (At(xs, t + 1 - i) + At(xs, t + i))
  {
    hide At, ZeroInserted, Folded;
    FoldedStep(taps, centre, ZeroInserted(xs), 2 * t + 1, i);
    InsertedEven(xs, t + 1 - i);
    InsertedEven(xs, t + i);
    assert 2 * (t + 1 - i) == 2 * t + 1 - (2 * i - 1) && 2 * (t + i) == 2 * t + 1 + (2 * i - 1);
  }

  lemma FoldedOddStart(taps: seq<real>, centre: real, xs: seq<real>, t: int)
    ensures Folded(taps, centre, ZeroInserted(xs), 2 * t + 1, 0) == 0.0
  {
    hide At, ZeroInserted;
    InsertedOdd(xs, t);
  }

  function Doubled(taps: seq<real>): (r: seq<real>)
    ensures |r| == |taps|
  {
    seq(|taps|, i requires 0 <= i < |taps| => taps[i] * 2.0)
  }

  class HalfbandInterpolator {
    const tapsScaled: array<real>
    const centreScaled: real
    const ring: array<real>
    var pos: nat

    /** The coefficients the interpolator was built from, and every sample fed to it. */
    ghost const taps: seq<real>
    ghost const centre: real
    ghost var history: seq<real>

    ghost predicate Valid()
      reads this, tapsScaled, ring
    {
      && |taps| == N_TAPS && tapsScaled[..] == Doubled(taps) && centreScaled == centre * 2.0
      && ring.Length == RING_LEN && tapsScaled != ring
      && pos == Slot(|history|, RING_LEN)
      && RingOk(ring[..], history)
    }

    constructor (taps: seq<real>, centre: real)
      requires |taps| == N_TAPS
      ensures Valid() && history == [] && fresh(ring) && fresh(tapsScaled) && this.taps == taps && this.centre == centre
    {
      var scaled := new real[N_TAPS](_ => 0.0);
      for i := 0 to N_TAPS
        invariant forall j :: 0 <= j < i ==> scaled[j] == taps[j] * 2.0
      {
        scaled[i] := taps[i] * 2.0;
      }
      tapsScaled := scaled;
      centreScaled := centre * 2.0;
      ring := new real[RING_LEN](_ => 0.0);
      pos := 0;
      this.taps, this.centre, history := taps, centre, [];
    }

    /** Two output samples, each twice the FIR's response to the zero-inserted stream. */
    method Process(x: real) returns (a: real, b: real)
      requires Valid()
      modifies this, ring
      ensures Valid() && history == old(history) + [x]
      ensures a == 2.0 * Response(taps, centre, ZeroInserted(history), 2 * |old(history)|)
      ensures b == 2.0 * Response(taps, centre, ZeroInserted(history), 2 * |old(history)| + 1)
    {
      hide Slot, RingOk, Response, Folded, At, ZeroInserted;
      RingPush(ring[..], history, x);
      SlotAdd(|history|, 1, RING_LEN);
      pos := Slot(pos + 1, RING_LEN);
      ring[pos] := x;
      history := history + [x];
      ghost var n := |history| - 1;
      ghost var u := ZeroInserted(history);

      var centreIdx := Slot(pos - GROUP_DELAY_BASE_RATE, RING_LEN);
      RingAt(ring[..], history, pos, GROUP_DELAY_BASE_RATE);
      a := centreScaled * ring[centreIdx];
      FoldedOnEven(taps, centre, history, n - 8, N_TAPS);
      FoldedIsResponse(taps, centre, u, 2 * n);
      assert 2 * (n - 8) == 2 * n - 2 * |taps|;

      b := 0.0;
      ghost var c := n - 8;
      FoldedIsResponse(taps, centre, u, 2 * n + 1);
      assert 2 * c + 1 == 2 * n + 1 - 2 * |taps|;
      for t := 0 to N_TAPS
        invariant b == 2.0 * (Folded(taps, centre, u, 2 * c + 1, N_TAPS)
                              - Folded(taps, centre, u, 2 * c + 1, N_TAPS - t))
        invariant RingOk(ring[..], history) && pos == Slot(|history|, RING_LEN) && tapsScaled[..] == Doubled(taps)
        modifies {}
      {
        RingAt(ring[..], history, pos, t);
        RingAt(ring[..], history, pos, 15 - t);
        var near := ring[Slot(pos - t, RING_LEN)];
        var far := ring[Slot(pos - (15 - t), RING_LEN)];
        FoldedOnOdd(taps, centre, history, c, N_TAPS - t);
        assert tapsScaled[t] == Doubled(taps)[t];
        Scale(taps[t], near + far, tapsScaled[t]);
        b := b + tapsScaled[t] * (near + far);
      }
      FoldedOddStart(taps, centre, history, c);
    }
  }

  lemma Scale(a: real, b: real, d: real)
    requires d == a * 2.0
    ensures d * b == 2.0 * (a * b)
  {}

  /** The newest sample, number `n` from 1, sits in slot `n`; the ring holds the last sixteen. */
  ghost predicate RingOk(ring: seq<real>, h: seq<real>) {
    |ring| == RING_LEN && forall t :: |h| - RING_LEN < t <= |h| ==> ring[Slot(t, RING_LEN)] == At(h, t - 1)
  }

  lemma RingPush(ring: seq<real>, h: seq<real>, x: real)
    requires RingOk(ring, h)
    ensures RingOk(ring[Slot(|h| + 1, RING_LEN) := x], h + [x])
  {
    hide Slot;
    var n := |h|;
    forall t | n + 1 - RING_LEN < t <= n + 1
      ensures ring[Slot(n + 1, RING_LEN) := x][Slot(t, RING_LEN)] == At(h + [x], t - 1)
    {
      if Slot(t, RING_LEN) == Slot(n + 1, RING_LEN) {
        SlotUnique(t, n + 1, RING_LEN);
      }
    }
  }

  lemma RingAt(ring: seq<real>, h: seq<real>, pos: nat, back: nat)
    requires RingOk(ring, h) && pos == Slot(|h|, RING_LEN) && back < RING_LEN
    ensures |ring| == RING_LEN && ring[Slot(pos - back, RING_LEN)] == At(h, |h| - 1 - back)
  {
    hide Slot;
    SlotAdd(|h|, -(back as int), RING_LEN);
    assert |h| - back - 1 == |h| - 1 - back;
  }
}
