/** What a run does to the processor, event by event: which inputs it feeds, in which order, and what it takes out. */
module PlaybackTrace {
  import opened Wrappers
  import opened Powers
  import opened Decimator
  import opened Playback

  /** The inputs fed, in order. */
  function Inputs(trace: seq<Event>): seq<Frame> {
    if trace == [] then []
    else
      var last := trace[|trace| - 1];
      Inputs(trace[..|trace| - 1]) + if last.WriteInput? then [last.frame] else []
  }

  /** The input heard after `i` more pops of the queue: an empty queue repeats the frame before. */
  function Heard(env: Env, s: Playback, i: nat): Frame {
    if i == 0 then s.prev
    else
      var popped := env.input(s.popped + i - 1);
      if popped.Some? then popped.value else Heard(env, s, i - 1)
  }

  /** From `at` on, `f` inputs in equal steps from `prev`, the last of them `current`. */
  ghost predicate OnLine(ins: seq<Frame>, at: nat, f: nat, prev: Frame, current: Frame) {
    && f > 0 && at + f <= |ins|
    && ins[at].l - prev.l == (current.l - prev.l) / f as real && ins[at].r - prev.r == (current.r - prev.r) / f as real
    && (forall j :: at < j < at + f ==>
          && ins[j].l - ins[j - 1].l == (current.l - prev.l) / f as real
          && ins[j].r - ins[j - 1].r == (current.r - prev.r) / f as real)
    && ins[at + f - 1] == current
  }

  /** Between `s` and `s'`, `n` frames later, each frame fed its inputs on the line to what it popped. */
  ghost predicate Fed(env: Env, s: Playback, s': Playback, n: nat) {
    var before, after, f := Inputs(s.trace), Inputs(s'.trace), env.Factor();
    if !env.hasInput then after == before && s'.prev == s.prev && s'.popped == s.popped
    else
      && before <= after && |after| == |before| + n * f
      && s'.prev == Heard(env, s, n) && s'.popped == s.popped + n
      && forall i :: 0 <= i < n ==> OnLine(after, |before| + i * f, f, Heard(env, s, i), Heard(env, s, i + 1))
  }

  lemma InputsSnoc(trace: seq<Event>, e: Event)
    ensures Inputs(trace + [e]) == Inputs(trace) + if e.WriteInput? then [e.frame] else []
  {
    assert (trace + [e])[..|trace|] == trace;
  }

  /** The first `j` inner ticks feed the first `j` points between two frames. */
  lemma {:induction false} TicksFeed(env: Env, s: Playback, current: Frame, j: nat)
    ensures var s' := Ticks(env, s, current, j);
            && s'.prev == s.prev && s'.popped == s.popped
            && (!env.hasInput ==> Inputs(s'.trace) == Inputs(s.trace))
            && (env.hasInput ==>
                  && Inputs(s.trace) <= Inputs(s'.trace) && |Inputs(s'.trace)| == |Inputs(s.trace)| + j
                  && forall m :: 0 <= m < j ==>
                       Inputs(s'.trace)[|Inputs(s.trace)| + m] == Interpolate(s.prev, current, m, env.Factor()))
    decreases j
  {
    hide Interpolate, Pow2, Inputs;
    if j > 0 {
      TicksFeed(env, s, current, j - 1);
      var p := Ticks(env, s, current, j - 1);
      var input := WriteInput(Interpolate(p.prev, current, j - 1, env.Factor()));
      InputsSnoc(p.trace, input);
      InputsSnoc(p.trace, Tick);
      InputsSnoc(p.trace + [input], Tick);
      assert p.trace + [] == p.trace && Inputs(p.trace) + [] == Inputs(p.trace);
      assert Inputs(p.trace + [input]) + [] == Inputs(p.trace + [input]);
    }
  }

  /** The point at the fraction `t` of the way. */
  function Point(a: real, b: real, t: real): real {
    a + t * (b - a)
  }

  lemma PointStep(a: real, b: real, t: real, u: real)
    ensures Point(a, b, t + u) - Point(a, b, t) == u * (b - a)
    ensures Point(a, b, 0.0) == a && Point(a, b, 1.0) == b
  {}

  lemma Fractions(m: nat, f: nat, d: real)
    requires f > 0
    ensures (m as real + 1.0) / f as real == m as real / f as real + 1.0 / f as real
    ensures 1.0 / f as real * d == d / f as real
    ensures m == f - 1 ==> (m as real + 1.0) / f as real == 1.0
    ensures 0.0 / f as real == 0.0
  {}

  lemma PointsAt(prev: Frame, current: Frame, m: nat, f: nat)
    requires f > 0
    ensures m == 0 ==>
              && Interpolate(prev, current, m, f).l - prev.l == (current.l - prev.l) / f as real
              && Interpolate(prev, current, m, f).r - prev.r == (current.r - prev.r) / f as real
    ensures m > 0 ==>
              var p, q := Interpolate(prev, current, m - 1, f), Interpolate(prev, current, m, f);
              q.l - p.l == (current.l - prev.l) / f as real && q.r - p.r == (current.r - prev.r) / f as real
    ensures m == f - 1 ==> Interpolate(prev, current, m, f) == current
  {
    InterpolateIs(prev, current, m, f);
    if m > 0 { InterpolateIs(prev, current, m - 1, f); }
    hide Interpolate, Point;
    Fractions(m, f, current.l - prev.l);
    Fractions(m, f, current.r - prev.r);
    PointStep(prev.l, current.l, m as real / f as real, 1.0 / f as real);
    PointStep(prev.r, current.r, m as real / f as real, 1.0 / f as real);
  }

  lemma InterpolateIs(prev: Frame, current: Frame, m: nat, f: nat)
    requires f > 0
    ensures var t := (m as real + 1.0) / f as real;
            Interpolate(prev, current, m, f) == Frame(Point(prev.l, current.l, t), Point(prev.r, current.r, t))
  {}

  lemma LineIsStraight(ins: seq<Frame>, at: nat, f: nat, prev: Frame, current: Frame)
    requires f > 0 && at + f <= |ins|
    requires forall m :: 0 <= m < f ==> ins[at + m] == Interpolate(prev, current, m, f)
    ensures OnLine(ins, at, f, prev, current)
  {
    hide Interpolate;
    PointsAt(prev, current, 0, f);
    PointsAt(prev, current, f - 1, f);
    assert ins[at + 0] == Interpolate(prev, current, 0, f);
    assert ins[at + (f - 1)] == Interpolate(prev, current, f - 1, f);
    forall j | at < j < at + f
      ensures ins[j].l - ins[j - 1].l == (current.l - prev.l) / f as real
      ensures ins[j].r - ins[j - 1].r == (current.r - prev.r) / f as real
    {
      PointsAt(prev, current, j - at, f);
      assert ins[at + (j - at)] == Interpolate(prev, current, j - at, f);
      assert ins[at + (j - at - 1)] == Interpolate(prev, current, j - at - 1, f);
    }
  }

  lemma PrepareFeedsNothing(env: Env, s: Playback)
    ensures Inputs(Prepare(env, s).trace) == Inputs(s.trace)
    ensures Prepare(env, s).prev == s.prev && Prepare(env, s).popped == s.popped
  {
    hide Inputs;
    InputsSnoc(s.trace, PrepareMidi(env.period));
    InputsSnoc(s.trace + [PrepareMidi(env.period)], MidiWindow(s.counter, env.period));
    assert s.trace + [PrepareMidi(env.period)] + [] == s.trace + [PrepareMidi(env.period)];
    assert Inputs(s.trace) + [] == Inputs(s.trace);
  }

  lemma BodyFed(env: Env, s: Playback)
    ensures Fed(env, s, FrameBody(env, s), 1)
  {
    hide Ticks, Inputs, NewestOut, Interpolate, OnLine, Pow2;
    var f, current := env.Factor(), CurrentInput(env, s);
    TicksFeed(env, Pop(env, s), current, f);
    HeardOnce(env, s);
    if env.hasInput {
      LineIsStraight(Inputs(FrameBody(env, s).trace), |Inputs(s.trace)|, f, s.prev, current);
    }
  }

  lemma OneFrameFed(env: Env, s: Playback)
    ensures Fed(env, s, FrameStep(env, s), 1)
  {
    hide Inputs, Prepare, FrameBody, OnLine, Pow2;
    var p := Prepare(env, s);
    PrepareFeedsNothing(env, s);
    BodyFed(env, p);
    HeardOnce(env, s);
    HeardOnce(env, p);
  }

  lemma HeardOnce(env: Env, s: Playback)
    ensures Heard(env, s, 0) == s.prev
    ensures Heard(env, s, 1) == if env.input(s.popped).Some? then env.input(s.popped).value else s.prev
  {}

  lemma {:induction false} HeardLater(env: Env, s: Playback, s': Playback, n: nat, i: nat)
    requires s'.prev == Heard(env, s, n) && s'.popped == s.popped + n
    ensures Heard(env, s', i) == Heard(env, s, n + i)
  {
    if i > 0 {
      HeardLater(env, s, s', n, i - 1);
    }
  }

  /** A line already fed stays fed. */
  lemma LineStays(ins: seq<Frame>, ins': seq<Frame>, at: nat, f: nat, prev: Frame, current: Frame)
    requires OnLine(ins, at, f, prev, current) && ins <= ins'
    ensures OnLine(ins', at, f, prev, current)
  {}

  lemma FedMore(env: Env, s: Playback, s': Playback, s'': Playback, n: nat)
    requires Fed(env, s, s', n) && Fed(env, s', s'', 1)
    ensures Fed(env, s, s'', n + 1)
  {
    hide OnLine, Heard, Inputs, Pow2;
    if env.hasInput {
      var f := env.Factor();
      var before, middle, after := Inputs(s.trace), Inputs(s'.trace), Inputs(s''.trace);
      HeardLater(env, s, s', n, 0);
      HeardLater(env, s, s', n, 1);
      TickStep(n, f);
      assert 1 * f == f && 0 * f == 0;
      assert OnLine(after, |middle| + 0 * f, f, Heard(env, s', 0), Heard(env, s', 0 + 1));
      forall i | 0 <= i < n + 1
        ensures OnLine(after, |before| + i * f, f, Heard(env, s, i), Heard(env, s, i + 1))
      {
        if i < n {
          LineStays(middle, after, |before| + i * f, f, Heard(env, s, i), Heard(env, s, i + 1));
        }
      }
    }
  }

  /**
     Every run feeds each frame exactly `factor` inputs, in equal steps from the frame before to the frame popped, which
     the last one is; and nothing if there is no input.
     */
  lemma {:induction false} RunFed(env: Env, s: Playback, n: nat)
    ensures Fed(env, s, Run(env, s, n), n)
  {
    hide FrameStep, Inputs, Heard, Pow2;
    if n > 0 {
      RunFed(env, s, n - 1);
      OneFrameFed(env, Run(env, s, n - 1));
      FedMore(env, s, Run(env, s, n - 1), Run(env, s, n), n - 1);
    } else {
      HeardNothing(env, s);
    }
  }

  lemma {:induction false} BodiesFed(env: Env, s: Playback, n: nat)
    ensures Fed(env, s, Bodies(env, s, n), n)
  {
    hide FrameBody, Inputs, Heard, Pow2;
    if n > 0 {
      BodiesFed(env, s, n - 1);
      BodyFed(env, Bodies(env, s, n - 1));
      FedMore(env, s, Bodies(env, s, n - 1), Bodies(env, s, n), n - 1);
    } else {
      HeardNothing(env, s);
    }
  }

  /** The inner ticks of one frame. */
  lemma TicksOnLine(env: Env, s: Playback, current: Frame)
    ensures var ins, ins' := Inputs(s.trace), Inputs(Ticks(env, s, current, env.Factor()).trace);
            if env.hasInput then ins <= ins' && |ins'| == |ins| + env.Factor()
                                 && OnLine(ins', |ins|, env.Factor(), s.prev, current)
            else ins' == ins
  {
    hide Ticks, Inputs, Interpolate, OnLine, Pow2;
    TicksFeed(env, s, current, env.Factor());
    if env.hasInput {
      var fed := Inputs(Ticks(env, s, current, env.Factor()).trace);
      LineIsStraight(fed, |Inputs(s.trace)|, env.Factor(), s.prev, current);
    }
  }

  lemma HeardNothing(env: Env, s: Playback)
    ensures Heard(env, s, 0) == s.prev
  {}

  // ── The order of events ──

  /** An input is followed by its tick and a tick has its input; windows and preparations go together. */
  ghost predicate InPlace(env: Env, trace: seq<Event>, k: nat)
    requires k < |trace|
  {
    match trace[k]
    case Tick => env.hasInput ==> k > 0 && trace[k - 1].WriteInput?
    case WriteInput(_) => env.hasInput && k + 1 < |trace| && trace[k + 1].Tick?
    case PrepareMidi(rows) => rows == env.period && (env.hasQueue ==> k + 1 < |trace| && trace[k + 1].MidiWindow?)
    case MidiWindow(_, _) => env.hasQueue && k > 0 && trace[k - 1].PrepareMidi?
  }

  ghost predicate InOrder(env: Env, trace: seq<Event>) {
    forall k :: 0 <= k < |trace| ==> InPlace(env, trace, k)
  }

  lemma InOrderConcat(env: Env, a: seq<Event>, b: seq<Event>)
    requires InOrder(env, a) && InOrder(env, b)
    ensures InOrder(env, a + b)
  {
    var t := a + b;
    forall k | 0 <= k < |t| ensures InPlace(env, t, k) {
      if k < |a| {
        assert InPlace(env, a, k);
      } else {
        assert InPlace(env, b, k - |a|) && t[k] == b[k - |a|];
        assert k > |a| ==> t[k - 1] == b[k - |a| - 1];
        assert k + 1 < |t| ==> t[k + 1] == b[k + 1 - |a|];
      }
    }
  }

  lemma {:induction false} TicksInOrder(env: Env, s: Playback, current: Frame, j: nat)
    requires InOrder(env, s.trace)
    ensures InOrder(env, Ticks(env, s, current, j).trace)
    decreases j
  {
    hide Interpolate, Pow2, InOrder;
    if j > 0 {
      TicksInOrder(env, s, current, j - 1);
      var p := Ticks(env, s, current, j - 1);
      var fed := if env.hasInput then [WriteInput(Interpolate(p.prev, current, j - 1, env.Factor()))] else [];
      TickBlock(env, fed);
      InOrderConcat(env, p.trace, fed + [Tick]);
      assert p.trace + fed + [Tick] == p.trace + (fed + [Tick]);
    }
  }

  lemma TickBlock(env: Env, fed: seq<Event>)
    requires if env.hasInput then |fed| == 1 && fed[0].WriteInput? else fed == []
    ensures InOrder(env, fed + [Tick])
  {}

  lemma {:induction false} RunInOrder(env: Env, s: Playback, n: nat)
    requires InOrder(env, s.trace)
    ensures InOrder(env, Run(env, s, n).trace)
  {
    hide InOrder, Ticks, NewestOut, Pow2;
    if n > 0 {
      RunInOrder(env, s, n - 1);
      var r := Run(env, s, n - 1);
      var p := Prepare(env, r);
      PrepareInOrder(env, r);
      TicksInOrder(env, Pop(env, p), CurrentInput(env, p), env.Factor());
    }
  }

  lemma PrepareInOrder(env: Env, s: Playback)
    requires InOrder(env, s.trace)
    ensures InOrder(env, Prepare(env, s).trace)
  {
    var block := [PrepareMidi(env.period)] + if env.hasQueue then [MidiWindow(s.counter, env.period)] else [];
    assert InOrder(env, block);
    InOrderConcat(env, s.trace, block);
    assert s.trace + block
           == s.trace + [PrepareMidi(env.period)] + if env.hasQueue then [MidiWindow(s.counter, env.period)] else [];
  }

  // ── What comes out ──

  /** Tick `i` puts out what the processor makes of everything done to it before that tick, left to left. */
  ghost predicate TakenOut(env: Env, trace: seq<Event>, lefts: seq<real>, rights: seq<real>) {
    && |lefts| == |rights| == TickCount(trace)
    && forall k :: 0 <= k < |trace| && trace[k].Tick? ==>
         var i := TickCount(trace[..k]);
         i < |lefts| && lefts[i] == env.output(trace[..k]).l && i < |rights| && rights[i] == env.output(trace[..k]).r
  }

  lemma TakenOutMore(env: Env, trace: seq<Event>, lefts: seq<real>, rights: seq<real>, e: Event)
    requires TakenOut(env, trace, lefts, rights)
    ensures !e.Tick? ==> TakenOut(env, trace + [e], lefts, rights)
    ensures e.Tick? ==>
              TakenOut(env, trace + [e], lefts + [env.output(trace).l], rights + [env.output(trace).r])
  {
    hide TickCount;
    var more := trace + [e];
    TraceSnoc(trace, e);
    assert more[..|trace|] == trace;
    forall k | 0 <= k < |trace| ensures more[..k] == trace[..k] && more[k] == trace[k] {}
  }

  lemma {:induction false} TicksTakenOut(env: Env, s: Playback, current: Frame, j: nat)
    requires TakenOut(env, s.trace, s.lefts, s.rights)
    ensures var r := Ticks(env, s, current, j); TakenOut(env, r.trace, r.lefts, r.rights)
    decreases j
  {
    hide Interpolate, Pow2, TakenOut;
    if j > 0 {
      TicksTakenOut(env, s, current, j - 1);
      var p := Ticks(env, s, current, j - 1);
      var fed := if env.hasInput then [WriteInput(Interpolate(p.prev, current, j - 1, env.Factor()))] else [];
      if env.hasInput { TakenOutMore(env, p.trace, p.lefts, p.rights, fed[0]); }
      assert p.trace + [] == p.trace;
      TakenOutMore(env, p.trace + fed, p.lefts, p.rights, Tick);
    }
  }

  /** So it is after every run: no tick is skipped, and no channel exchanged. */
  lemma {:induction false} RunTakenOut(env: Env, s: Playback, n: nat)
    requires TakenOut(env, s.trace, s.lefts, s.rights)
    ensures var r := Run(env, s, n); TakenOut(env, r.trace, r.lefts, r.rights)
  {
    hide TakenOut, Ticks, NewestOut, Pow2;
    if n > 0 {
      RunTakenOut(env, s, n - 1);
      var r := Run(env, s, n - 1);
      var p := Prepare(env, r);
      PrepareTakenOut(env, r);
      TicksTakenOut(env, Pop(env, p), CurrentInput(env, p), env.Factor());
    }
  }

  lemma PrepareTakenOut(env: Env, s: Playback)
    requires TakenOut(env, s.trace, s.lefts, s.rights)
    ensures var p := Prepare(env, s); TakenOut(env, p.trace, p.lefts, p.rights)
  {
    hide TakenOut;
    TakenOutMore(env, s.trace, s.lefts, s.rights, PrepareMidi(env.period));
    TakenOutMore(env, s.trace + [PrepareMidi(env.period)], s.lefts, s.rights, MidiWindow(s.counter, env.period));
    assert s.trace + [PrepareMidi(env.period)] + [] == s.trace + [PrepareMidi(env.period)];
  }

  /** Every run from the start: inputs and ticks in order, and every output taken. */
  lemma EveryRun(env: Env, n: nat)
    ensures var r := Run(env, START, n);
            InOrder(env, r.trace) && TakenOut(env, r.trace, r.lefts, r.rights)
  {
    hide Run;
    RunInOrder(env, START, n);
    RunTakenOut(env, START, n);
  }
}
