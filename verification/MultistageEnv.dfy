/** Multi-stage envelope: the state machine on its own fields, and how soon it comes to rest. */
module MultistageEnv {
  import opened Reals

  const MAX_STAGES: nat := 8
  const EXP_N_TAU: real := 5.0
  const INSTANT_EPS: real := 0.000000001

  datatype Shape = Linear | Exponential

  datatype Stage = Stage(target: real, time: real, curve: Shape)

  const DEFAULT_STAGE := Stage(0.0, 0.0, Linear)

  datatype EnvPhase = Idle | Active | Sustain

  /** The exponential function stands outside the model: any function from reals to reals. */
  type Exp = real -> real

  // ── The machine on values ──

  datatype Env = Env(stages: seq<Stage>, len: nat, sustain: nat, rate: real, state: EnvPhase, current: nat, phase: real,
                     segStart: real, level: real, scale: real, latched: real)

  predicate WellFormed(e: Env) {
    |e.stages| == MAX_STAGES && e.len <= MAX_STAGES && e.sustain < MAX_STAGES && e.current < MAX_STAGES
  }

  function Target(e: Env, i: nat): real
    requires i < |e.stages|
  {
    Scaled(e.stages[i], e.latched)
  }

  function Scaled(s: Stage, scale: real): real {
    s.target * scale
  }

  function Length(s: Stage, timeScale: real, rate: real): real {
    s.time * timeScale * rate
  }

  /** How many samples stage `i` lasts. */
  function Samples(e: Env, i: nat, timeScale: real): real
    requires i < |e.stages|
  {
    Length(e.stages[i], timeScale, e.rate)
  }

  function Interp(start: real, target: real, phase: real, curve: Shape, exp: Exp): real {
    match curve
    case Linear => start + (target - start) * phase
    case Exponential => start + (target - start) * (1.0 - exp(-EXP_N_TAU * phase))
  }

  function Started(e: Env): Env {
    if e.len == 0 then e.(state := Idle)
    else e.(latched := e.scale, current := 0, phase := 0.0, segStart := e.level, state := Active)
  }

  function Released(e: Env): Env {
    if e.sustain + 1 >= e.len then e.(state := Idle)
    else e.(current := e.sustain + 1, phase := 0.0, segStart := e.level, state := Active)
  }

  /** The stage is over: hold at the sustain stage, rest after the last one, or move to the next. */
  function Completed(e: Env, gateHigh: bool): Env {
    if e.current == e.sustain && gateHigh then e.(state := Sustain)
    else if e.current + 1 >= e.len then e.(state := Idle)
    else e.(current := e.current + 1, phase := 0.0, segStart := e.level)
  }

  predicate MovesOn(e: Env, gateHigh: bool) {
    !(e.current == e.sustain && gateHigh) && e.current + 1 < e.len
  }

  function Advanced(e: Env, timeScale: real, gateHigh: bool, exp: Exp): (r: Env)
    requires WellFormed(e)
    ensures WellFormed(r)
    decreases MAX_STAGES - e.current
  {
    var samples := Samples(e, e.current, timeScale);
    var target := Target(e, e.current);
    if samples <= INSTANT_EPS then
      var jumped := e.(level := target);
      if MovesOn(jumped, gateHigh) then Advanced(Completed(jumped, gateHigh), timeScale, gateHigh, exp)
      else Completed(jumped, gateHigh)
    else
      var phase := e.phase + 1.0 / samples;
      if phase >= 1.0 then Completed(e.(phase := phase, level := target), gateHigh)
      else e.(phase := phase, level := Interp(e.segStart, target, phase, e.stages[e.current].curve, exp))
  }

  function Gated(e: Env, gateHigh: bool): Env {
    if (e.state.Sustain? || (e.state.Active? && e.current <= e.sustain)) && !gateHigh then Released(e) else e
  }

  function Ticked(e: Env, triggered: bool, gateHigh: bool, timeScale: real, exp: Exp): (r: Env)
    requires WellFormed(e)
    ensures WellFormed(r)
  {
    var g := Gated(if triggered then Started(e) else e, gateHigh);
    var a := match g.state
      case Active => Advanced(g, timeScale, gateHigh, exp)
      case Sustain => g.(level := Target(g, g.sustain))
      case Idle => g;
    a.(level := Clamp(a.level, 0.0, 1.0))
  }

  // ── Coming to rest ──

  function Ceil(x: real): int {
    if x.Floor as real == x then x.Floor else x.Floor + 1
  }

  /** Samples from progress `phase` to the end of a stage of `samples` samples. */
  function Distance(phase: real, samples: real): real {
    (1.0 - phase) * samples
  }

  /** Ticks a stage still takes: none when it is instant. */
  function Count(phase: real, samples: real): nat {
    if samples <= INSTANT_EPS || phase >= 1.0 then 0
    else
      Positive(phase, samples);
      Ceil(Distance(phase, samples))
  }

  /** Ticks still to spend in stage `i` from progress `phase`. */
  function TicksLeft(e: Env, i: nat, phase: real, timeScale: real): nat
    requires i < |e.stages|
  {
    Count(phase, Samples(e, i, timeScale))
  }

  lemma Positive(phase: real, samples: real)
    requires samples > 0.0 && phase < 1.0
    ensures Ceil(Distance(phase, samples)) > 0
  {
    MulPositive(1.0 - phase, samples);
  }

  lemma MulPositive(a: real, b: real)
    requires a > 0.0 && b > 0.0
    ensures a * b > 0.0
  {}

  /** Ticks of the stages from `i` to the last. */
  function TicksFrom(e: Env, i: nat, timeScale: real): nat
    requires WellFormed(e)
    decreases MAX_STAGES - i
  {
    if i >= e.len then 0 else TicksLeft(e, i, 0.0, timeScale) + TicksFrom(e, i + 1, timeScale)
  }

  /** What the release tail lasts. */
  function ReleaseTicks(e: Env, timeScale: real): nat
    requires WellFormed(e)
  {
    TicksFrom(e, e.sustain + 1, timeScale)
  }

  /** Ticks still to spend in the release. */
  function Work(e: Env, timeScale: real): nat
    requires WellFormed(e)
  {
    if !e.state.Active? then 0
    else TicksLeft(e, e.current, e.phase, timeScale) + TicksFrom(e, e.current + 1, timeScale)
  }

  /** In the release, or at rest. */
  predicate Releasing(e: Env) {
    WellFormed(e) && (e.state.Idle? || (e.state.Active? && e.sustain < e.current < e.len && 0.0 <= e.phase < 1.0))
  }

  predicate SameStages(e: Env, e': Env) {
    e.stages == e'.stages && e.len == e'.len && e.sustain == e'.sustain && e.rate == e'.rate
  }

  lemma {:induction false} SameTicks(e: Env, e': Env, i: nat, timeScale: real)
    requires WellFormed(e) && WellFormed(e') && SameStages(e, e')
    ensures TicksFrom(e, i, timeScale) == TicksFrom(e', i, timeScale)
    decreases MAX_STAGES - i
  {
    hide TicksLeft;
    if i < e.len {
      SameLeft(e, e', i, timeScale);
      SameTicks(e, e', i + 1, timeScale);
    }
  }

  lemma DistanceStep(phase: real, samples: real)
    requires samples > 0.0
    ensures Distance(phase + 1.0 / samples, samples) == Distance(phase, samples) - 1.0
  {
    var r := 1.0 / samples;
    assert r * samples == 1.0;
    assert (1.0 - (phase + r)) * samples == (1.0 - phase) * samples - r * samples;
  }

  /** One more sample of a stage leaves one tick fewer, and the stage ends exactly when none is left. */
  lemma CountStep(phase: real, samples: real)
    requires samples > INSTANT_EPS && phase < 1.0
    ensures var phase' := phase + 1.0 / samples;
            && Count(phase, samples) > 0 && phase' > phase
            && (phase' >= 1.0 ==> Count(phase, samples) == 1)
            && (phase' < 1.0 ==> Count(phase', samples) == Count(phase, samples) - 1)
  {
    hide Distance, Ceil;
    var phase' := phase + 1.0 / samples;
    DistanceStep(phase, samples);
    CeilMinusOne(Distance(phase, samples));
    Positive(phase, samples);
    if phase' >= 1.0 {
      NotPositive(phase', samples);
    }
  }

  lemma NotPositive(phase: real, samples: real)
    requires phase >= 1.0 && samples > 0.0
    ensures Distance(phase, samples) <= 0.0
  {}

  lemma CeilMinusOne(d: real)
    ensures Ceil(d - 1.0) == Ceil(d) - 1 && (d - 1.0 <= 0.0 <==> Ceil(d) <= 1)
  {
    assert (d - 1.0).Floor == d.Floor - 1;
  }

  /** The next stage holds the rest of the work. */
  lemma WorkNext(e: Env, next: Env, timeScale: real)
    requires WellFormed(e) && WellFormed(next) && SameStages(e, next) && e.current + 1 < e.len
    requires next.state.Active? && next.current == e.current + 1 && next.phase == 0.0
    ensures Work(next, timeScale) == TicksFrom(e, e.current + 1, timeScale)
  {
    hide TicksLeft;
    SameLeft(e, next, next.current, timeScale);
    SameTicks(e, next, next.current + 1, timeScale);
  }

  /** A timed stage spends one tick. */
  lemma TimedStep(e: Env, timeScale: real, exp: Exp)
    requires Releasing(e) && e.state.Active? && Samples(e, e.current, timeScale) > INSTANT_EPS
    ensures var r := Advanced(e, timeScale, false, exp);
            && Releasing(r) && SameStages(e, r) && Work(e, timeScale) > 0
            && (r.state.Active? ==> Work(r, timeScale) == Work(e, timeScale) - 1)
            && (r.state.Idle? ==> Work(e, timeScale) <= 1)
  {
    hide Interp, Count, Samples, TicksFrom, Work;
    var samples := Samples(e, e.current, timeScale);
    var phase := e.phase + 1.0 / samples;
    var r := Advanced(e, timeScale, false, exp);
    CountStep(e.phase, samples);
    WorkParts(e, timeScale);
    if phase >= 1.0 {
      if e.current + 1 < e.len {
        WorkNext(e, r, timeScale);
      } else {
        TicksFromEnd(e, e.current + 1, timeScale);
      }
    } else {
      WorkParts(r, timeScale);
      SameLeft(e, r, e.current, timeScale);
      SameTicks(e, r, e.current + 1, timeScale);
    }
  }

  lemma WorkParts(e: Env, timeScale: real)
    requires WellFormed(e) && e.state.Active?
    ensures Work(e, timeScale) == TicksLeft(e, e.current, e.phase, timeScale) + TicksFrom(e, e.current + 1, timeScale)
  {}

  lemma TicksFromEnd(e: Env, i: nat, timeScale: real)
    requires WellFormed(e) && i >= e.len
    ensures TicksFrom(e, i, timeScale) == 0
  {}

  /** An instant stage spends nothing and passes its work on. */
  lemma InstantStep(e: Env, timeScale: real)
    requires Releasing(e) && e.state.Active? && Samples(e, e.current, timeScale) <= INSTANT_EPS
    ensures Work(e, timeScale) == TicksFrom(e, e.current + 1, timeScale)
  {
    hide Samples;
  }

  /** With the gate low, an active release spends one tick of its work, or comes to rest when none is left. */
  lemma {:induction false} AdvanceWorks(e: Env, timeScale: real, exp: Exp)
    requires Releasing(e) && e.state.Active?
    ensures var r := Advanced(e, timeScale, false, exp);
            && Releasing(r) && SameStages(e, r)
            && (Work(e, timeScale) == 0 ==> r.state.Idle?)
            && (r.state.Active? ==> Work(r, timeScale) == Work(e, timeScale) - 1)
            && (r.state.Idle? ==> Work(e, timeScale) <= 1)
    decreases MAX_STAGES - e.current
  {
    hide Interp, Ceil, Samples, TicksFrom, Work, TicksLeft, Target;
    if Samples(e, e.current, timeScale) <= INSTANT_EPS {
      InstantStep(e, timeScale);
      var jumped := e.(level := Target(e, e.current));
      if MovesOn(jumped, false) {
        var next := Completed(jumped, false);
        WorkNext(e, next, timeScale);
        AdvanceWorks(next, timeScale, exp);
      } else {
        TicksFromEnd(e, e.current + 1, timeScale);
      }
    } else {
      TimedStep(e, timeScale, exp);
    }
  }

  lemma SameLeft(e: Env, e': Env, i: nat, timeScale: real)
    requires WellFormed(e) && WellFormed(e') && SameStages(e, e') && i < MAX_STAGES
    ensures forall phase :: TicksLeft(e, i, phase, timeScale) == TicksLeft(e', i, phase, timeScale)
    ensures Samples(e, i, timeScale) == Samples(e', i, timeScale)
  {
    hide Count;
    forall phase: real ensures TicksLeft(e, i, phase, timeScale) == TicksLeft(e', i, phase, timeScale) {
      assert Samples(e, i, timeScale) == Samples(e', i, timeScale);
    }
  }

  /** `n` ticks with the gate low and no trigger. */
  function Quiet(e: Env, n: nat, timeScale: real, exp: Exp): (r: Env)
    requires WellFormed(e)
    ensures WellFormed(r)
  {
    if n == 0 then e else Ticked(Quiet(e, n - 1, timeScale, exp), false, false, timeScale, exp)
  }

  lemma ReleaseTick(e: Env, timeScale: real, exp: Exp)
    requires Releasing(e)
    ensures var r := Ticked(e, false, false, timeScale, exp);
            && Releasing(r) && SameStages(e, r)
            && (e.state.Idle? ==> r.state.Idle?)
            && (e.state.Active? && Work(e, timeScale) == 0 ==> r.state.Idle?)
            && (r.state.Active? ==> Work(r, timeScale) == Work(e, timeScale) - 1)
            && (e.state.Active? && r.state.Idle? ==> Work(e, timeScale) <= 1)
  {
    hide Advanced, TicksLeft, TicksFrom, Clamp;
    if e.state.Active? {
      AdvanceWorks(e, timeScale, exp);
      var a := Advanced(e, timeScale, false, exp);
      var r := a.(level := Clamp(a.level, 0.0, 1.0));
      if a.state.Active? {
        SameTicks(a, r, a.current + 1, timeScale);
        SameLeft(a, r, a.current, timeScale);
      }
    }
  }

  lemma {:induction false} ReleaseRuns(e: Env, n: nat, timeScale: real, exp: Exp)
    requires Releasing(e) && e.state.Active?
    ensures var r := Quiet(e, n, timeScale, exp);
            && Releasing(r)
            && (r.state.Active? ==> n <= Work(e, timeScale) && Work(r, timeScale) == Work(e, timeScale) - n)
            && (n < Work(e, timeScale) ==> r.state.Active?)
    decreases n
  {
    hide Ticked, TicksLeft, TicksFrom, Work;
    if n > 0 {
      ReleaseRuns(e, n - 1, timeScale, exp);
      ReleaseTick(Quiet(e, n - 1, timeScale, exp), timeScale, exp);
    }
  }

  // ── Every reachable state ──

  /** What every tick keeps, with the stages fixed. */
  predicate Reachable(e: Env) {
    && WellFormed(e) && (e.len == 0 || e.sustain < e.len)
    && (e.state.Active? ==> e.current < e.len && 0.0 <= e.phase < 1.0)
    && (e.state.Sustain? ==> e.len > 0)
  }

  lemma {:induction false} AdvanceReachable(e: Env, timeScale: real, gateHigh: bool, exp: Exp)
    requires Reachable(e) && e.state.Active?
    ensures Reachable(Advanced(e, timeScale, gateHigh, exp)) && SameStages(e, Advanced(e, timeScale, gateHigh, exp))
    decreases MAX_STAGES - e.current
  {
    hide Interp, Samples, Target;
    var samples := Samples(e, e.current, timeScale);
    if samples <= INSTANT_EPS {
      var jumped := e.(level := Target(e, e.current));
      if MovesOn(jumped, gateHigh) {
        AdvanceReachable(Completed(jumped, gateHigh), timeScale, gateHigh, exp);
      }
    } else {
      Reciprocal(samples);
    }
  }

  lemma Reciprocal(x: real)
    requires x > 0.0
    ensures 1.0 / x > 0.0
  {}

  lemma TickReachable(e: Env, triggered: bool, gateHigh: bool, timeScale: real, exp: Exp)
    requires Reachable(e)
    ensures Reachable(Ticked(e, triggered, gateHigh, timeScale, exp))
    ensures SameStages(e, Ticked(e, triggered, gateHigh, timeScale, exp))
  {
    hide Advanced, Clamp, Target;
    var g := Gated(if triggered then Started(e) else e, gateHigh);
    if g.state.Active? {
      AdvanceReachable(g, timeScale, gateHigh, exp);
    }
  }

  lemma {:induction false} TicksFromMonotone(e: Env, i: nat, j: nat, timeScale: real)
    requires WellFormed(e) && i <= j
    ensures TicksFrom(e, i, timeScale) >= TicksFrom(e, j, timeScale)
    ensures i < j && i < e.len ==>
              TicksFrom(e, i, timeScale) >= TicksLeft(e, i, 0.0, timeScale) + TicksFrom(e, j, timeScale)
    decreases j - i
  {
    hide TicksLeft;
    if i < j {
      TicksFromMonotone(e, i + 1, j, timeScale);
      if i >= e.len {
        TicksFromEnd(e, i, timeScale);
        TicksFromEnd(e, j, timeScale);
      }
    }
  }

  lemma CountMonotone(phase: real, samples: real)
    requires phase >= 0.0
    ensures Count(phase, samples) <= Count(0.0, samples)
  {
    if samples > INSTANT_EPS && phase < 1.0 {
      assert phase * samples >= 0.0;
      assert Distance(phase, samples) == samples - phase * samples;
      CeilMonotone(Distance(phase, samples), Distance(0.0, samples));
    }
  }

  lemma CeilMonotone(a: real, b: real)
    requires a <= b
    ensures Ceil(a) <= Ceil(b)
  {}

  /** A release already under way has no more to do than the whole tail. */
  lemma WorkBounded(e: Env, timeScale: real)
    requires Releasing(e)
    ensures Work(e, timeScale) <= ReleaseTicks(e, timeScale)
  {
    hide Count, Samples, TicksFrom;
    if e.state.Active? {
      CountMonotone(e.phase, Samples(e, e.current, timeScale));
      TicksFromMonotone(e, e.sustain + 1, e.current, timeScale);
      TicksFromMonotone(e, e.current, e.current + 1, timeScale);
    }
  }

  /** The first quiet tick enters the release and already spends a tick of it. */
  lemma {:induction false} QuietFromRelease(e: Env, n: nat, timeScale: real, exp: Exp)
    requires WellFormed(e) && (e.state.Sustain? || (e.state.Active? && e.current <= e.sustain)) && n > 0
    ensures Quiet(e, n, timeScale, exp) == Quiet(Released(e), n, timeScale, exp)
    decreases n
  {
    hide Advanced, Clamp;
    if n > 1 {
      QuietFromRelease(e, n - 1, timeScale, exp);
    } else {
      assert Quiet(e, 0, timeScale, exp) == e && Quiet(Released(e), 0, timeScale, exp) == Released(e);
      assert Gated(Released(e), false) == Released(e);
    }
  }

  lemma {:induction false} IdleStays(e: Env, n: nat, timeScale: real, exp: Exp)
    requires Releasing(e) && e.state.Idle?
    ensures Quiet(e, n, timeScale, exp).state.Idle?
    decreases n
  {
    hide Advanced;
    if n > 0 {
      IdleStays(e, n - 1, timeScale, exp);
    }
  }

  /**
     From every reachable state, with the gate low and no trigger, the envelope is idle after one tick more than the
     release stages last; entered from the sustain side, it is not idle before they have run.
     */
  lemma ComesToRest(e: Env, n: nat, timeScale: real, exp: Exp)
    requires Reachable(e)
    ensures n >= 1 + ReleaseTicks(e, timeScale) ==> Quiet(e, n, timeScale, exp).state.Idle?
    ensures (e.state.Sustain? || (e.state.Active? && e.current <= e.sustain)) && 0 < n < ReleaseTicks(e, timeScale) ==>
              Quiet(e, n, timeScale, exp).state.Active?
  {
    hide Quiet, TicksLeft, TicksFrom;
    if e.state.Idle? {
      IdleStays(e, n, timeScale, exp);
    } else if n > 0 {
      var r := if e.state.Sustain? || e.current <= e.sustain then Released(e) else e;
      if e.state.Sustain? || e.current <= e.sustain {
        QuietFromRelease(e, n, timeScale, exp);
        ReleasedWork(e, timeScale);
      }
      if r.state.Active? {
        WorkBounded(r, timeScale);
        SameTicks(e, r, e.sustain + 1, timeScale);
        ReleaseRuns(r, n, timeScale, exp);
      } else {
        IdleStays(r, n, timeScale, exp);
      }
    }
  }

  lemma ReleasedWork(e: Env, timeScale: real)
    requires Reachable(e) && e.len > 0
    ensures Releasing(Released(e)) && SameStages(e, Released(e))
    ensures Released(e).state.Active? ==> Work(Released(e), timeScale) == ReleaseTicks(e, timeScale)
    ensures Released(e).state.Idle? ==> ReleaseTicks(e, timeScale) == 0
  {
    hide TicksLeft;
    var r := Released(e);
    SameTicks(e, r, e.sustain + 1, timeScale);
  }

  // ── The shape of a stage ──

  /** `n` ticks without a trigger, the gate held as it is. */
  function Steady(e: Env, n: nat, gateHigh: bool, timeScale: real, exp: Exp): (r: Env)
    requires WellFormed(e)
    ensures WellFormed(r)
  {
    if n == 0 then e else Ticked(Steady(e, n - 1, gateHigh, timeScale, exp), false, gateHigh, timeScale, exp)
  }

  /** Within the stage `e` has begun, `n` of its `samples` samples on. */
  ghost predicate Within(e: Env, r: Env, n: nat, samples: real) {
    && SameStages(e, r) && r.state.Active? && r.current == e.current && r.segStart == e.segStart
    && r.latched == e.latched && samples > 0.0 && r.phase == n as real / samples
  }

  lemma Progress(n: nat, samples: real)
    requires samples > 0.0 && n > 0
    ensures (n - 1) as real / samples + 1.0 / samples == n as real / samples
    ensures n as real / samples >= 1.0 <==> n as real >= samples
  {
    DivAdd((n - 1) as real, 1.0, samples);
    DivAtLeastOne(n as real, samples);
  }

  lemma DivAdd(a: real, b: real, c: real)
    requires c > 0.0
    ensures a / c + b / c == (a + b) / c
  {}

  lemma DivAtLeastOne(a: real, c: real)
    requires c > 0.0
    ensures a / c >= 1.0 <==> a >= c
  {
    var q := a / c;
    assert q * c == a;
    if q >= 1.0 {
      AtLeast(q, 1.0, c);
    } else {
      Less(q, 1.0, c);
    }
  }

  lemma AtLeast(a: real, b: real, c: real)
    requires a >= b && c > 0.0
    ensures a * c >= b * c
  {}

  lemma Less(a: real, b: real, c: real)
    requires a < b && c > 0.0
    ensures a * c < b * c
  {}

  /** One tick within a stage. */
  lemma WithinStep(e: Env, r: Env, n: nat, gateHigh: bool, timeScale: real, exp: Exp)
    requires WellFormed(e) && WellFormed(r) && n > 0 && (gateHigh || e.current > e.sustain)
    requires Samples(e, e.current, timeScale) > INSTANT_EPS
    requires Within(e, r, n - 1, Samples(e, e.current, timeScale))
    ensures var samples, target := Samples(e, e.current, timeScale), Target(e, e.current);
            var phase, r' := n as real / samples, Ticked(r, false, gateHigh, timeScale, exp);
            if n as real < samples
            then Within(e, r', n, samples)
                 && r'.level == Clamp(Interp(e.segStart, target, phase, e.stages[e.current].curve, exp), 0.0, 1.0)
            else r' == var c := Completed(r.(phase := phase, level := target), gateHigh);
                       c.(level := Clamp(target, 0.0, 1.0))
  {
    hide Samples, Target, Interp, Clamp;
    SameLeft(e, r, e.current, timeScale);
    SameTarget(e, r, e.current);
    Progress(n, Samples(e, e.current, timeScale));
    AdvancedOnce(r, timeScale, gateHigh, exp);
  }

  lemma SameTarget(e: Env, e': Env, i: nat)
    requires SameStages(e, e') && i < |e.stages| && e.latched == e'.latched
    ensures Target(e, i) == Target(e', i)
  {}

  lemma {:induction false} StaysWithin(e: Env, n: nat, gateHigh: bool, timeScale: real, exp: Exp)
    requires WellFormed(e) && e.state.Active? && e.phase == 0.0 && (gateHigh || e.current > e.sustain)
    requires Samples(e, e.current, timeScale) > INSTANT_EPS && n as real < Samples(e, e.current, timeScale)
    ensures Within(e, Steady(e, n, gateHigh, timeScale, exp), n, Samples(e, e.current, timeScale))
  {
    hide Samples, Ticked;
    if n > 0 {
      StaysWithin(e, n - 1, gateHigh, timeScale, exp);
      WithinStep(e, Steady(e, n - 1, gateHigh, timeScale, exp), n, gateHigh, timeScale, exp);
    }
  }

  function Line(from: real, to: real, part: real): real {
    from + (to - from) * part
  }

  /** Where `left` of the way is left. */
  function Approach(from: real, to: real, left: real): real {
    to + (from - to) * left
  }

  /**
     A stage that is not instant runs from the level it started at to its target, in as many ticks as its length in
     samples, rounded up: on a straight line, or approaching the target exponentially with a fifth of the stage as time
     constant. Every level is the nearest one in [0, 1].
     */
  lemma StageShape(e: Env, n: nat, gateHigh: bool, timeScale: real, exp: Exp, samples: real, target: real, part: real)
    requires WellFormed(e) && e.state.Active? && e.phase == 0.0 && (gateHigh || e.current > e.sustain) && n > 0
    requires samples == e.stages[e.current].time * timeScale * e.rate
    requires target == e.stages[e.current].target * e.latched
    requires samples > INSTANT_EPS && (n - 1) as real < samples && part == n as real / samples
    ensures var r := Steady(e, n, gateHigh, timeScale, exp);
            if n as real >= samples then r.level == Clamp(target, 0.0, 1.0)
            else
              && r.state.Active? && r.current == e.current
              && (e.stages[e.current].curve == Linear ==>
                    r.level == Clamp(Line(e.segStart, target, part), 0.0, 1.0))
              && (e.stages[e.current].curve == Exponential ==>
                    r.level == Clamp(Approach(e.segStart, target, exp(-(5.0 * part))), 0.0, 1.0))
  {
    hide Ticked, Clamp, Samples, Target, Steady, Interp, Line, Approach;
    SamplesSpelled(e, timeScale, samples, target);
    LevelWithin(e, n, gateHigh, timeScale, exp, samples, target, part);
    Shapes(e.segStart, target, part, exp);
  }

  lemma LevelWithin(e: Env, n: nat, gateHigh: bool, timeScale: real, exp: Exp, samples: real, target: real, part: real)
    requires WellFormed(e) && e.state.Active? && e.phase == 0.0 && (gateHigh || e.current > e.sustain) && n > 0
    requires samples == Samples(e, e.current, timeScale) && target == Target(e, e.current)
    requires samples > INSTANT_EPS && (n - 1) as real < samples && part == n as real / samples
    ensures var r := Steady(e, n, gateHigh, timeScale, exp);
            if n as real >= samples then r.level == Clamp(target, 0.0, 1.0)
            else
              && r.state.Active? && r.current == e.current
              && r.level == Clamp(Interp(e.segStart, target, part, e.stages[e.current].curve, exp), 0.0, 1.0)
  {
    hide Ticked, Clamp, Samples, Target, Steady, Interp, Within, Completed;
    StaysWithin(e, n - 1, gateHigh, timeScale, exp);
    WithinStep(e, Steady(e, n - 1, gateHigh, timeScale, exp), n, gateHigh, timeScale, exp);
    SteadyStep(e, n, gateHigh, timeScale, exp);
    if n as real < samples { WithinParts(e, Steady(e, n, gateHigh, timeScale, exp), n, samples); }
  }

  lemma SamplesSpelled(e: Env, timeScale: real, samples: real, target: real)
    requires WellFormed(e)
    ensures samples == e.stages[e.current].time * timeScale * e.rate ==> samples == Samples(e, e.current, timeScale)
    ensures target == e.stages[e.current].target * e.latched ==> target == Target(e, e.current)
  {}

  lemma SteadyStep(e: Env, n: nat, gateHigh: bool, timeScale: real, exp: Exp)
    requires WellFormed(e) && n > 0
    ensures Steady(e, n, gateHigh, timeScale, exp)
            == Ticked(Steady(e, n - 1, gateHigh, timeScale, exp), false, gateHigh, timeScale, exp)
  {
    hide Ticked;
  }

  lemma WithinParts(e: Env, r: Env, n: nat, samples: real)
    requires Within(e, r, n, samples)
    ensures r.state.Active? && r.current == e.current
  {}

  lemma Shapes(start: real, target: real, part: real, exp: Exp)
    ensures Interp(start, target, part, Linear, exp) == Line(start, target, part)
    ensures Interp(start, target, part, Exponential, exp) == Approach(start, target, exp(-(5.0 * part)))
  {
    var x := exp(-(5.0 * part));
    assert -EXP_N_TAU * part == -(5.0 * part);
    assert (target - start) * (1.0 - x) == (target - start) - (target - start) * x;
    assert (start - target) * x == -((target - start) * x);
  }

  /** After the stage: hold at the sustain stage while the gate is high, rest after the last, or go on. */
  lemma StageEnds(e: Env, n: nat, gateHigh: bool, timeScale: real, exp: Exp, samples: real, target: real)
    requires WellFormed(e) && e.state.Active? && e.phase == 0.0 && (gateHigh || e.current > e.sustain) && n > 0
    requires samples == e.stages[e.current].time * timeScale * e.rate
    requires target == e.stages[e.current].target * e.latched
    requires samples > INSTANT_EPS && (n - 1) as real < samples <= n as real
    ensures var r := Steady(e, n, gateHigh, timeScale, exp);
            if e.current == e.sustain && gateHigh then r.state.Sustain?
            else if e.current + 1 >= e.len then r.state.Idle?
            else r.state.Active? && r.current == e.current + 1 && r.phase == 0.0 && r.segStart == target
  {
    hide Ticked, Clamp, Samples, Target, Steady, Interp;
    SamplesSpelled(e, timeScale, samples, target);
    StaysWithin(e, n - 1, gateHigh, timeScale, exp);
    WithinStep(e, Steady(e, n - 1, gateHigh, timeScale, exp), n, gateHigh, timeScale, exp);
    SteadyStep(e, n, gateHigh, timeScale, exp);
  }

  /** A trigger restarts before anything else; a falling gate releases before the tick; a held one holds its target. */
  lemma TickCases(e: Env, triggered: bool, gateHigh: bool, timeScale: real, exp: Exp)
    requires WellFormed(e)
    ensures Ticked(e, true, gateHigh, timeScale, exp) == Ticked(Started(e), false, gateHigh, timeScale, exp)
    ensures e.state.Sustain? || (e.state.Active? && e.current <= e.sustain) ==>
              Ticked(e, false, false, timeScale, exp) == Ticked(Released(e), false, false, timeScale, exp)
    ensures e.state.Sustain? ==>
              Ticked(e, false, true, timeScale, exp)
              == e.(level := Clamp(e.stages[e.sustain].target * e.latched, 0.0, 1.0))
    ensures e.state.Idle? ==> Ticked(e, false, gateHigh, timeScale, exp) == e.(level := Clamp(e.level, 0.0, 1.0))
  {
    hide Advanced, Clamp;
  }

  lemma AdvancedOnce(e: Env, timeScale: real, gateHigh: bool, exp: Exp)
    requires WellFormed(e)
    ensures var samples, target := Samples(e, e.current, timeScale), Target(e, e.current);
            Advanced(e, timeScale, gateHigh, exp)
            == if samples <= INSTANT_EPS then
                 (if MovesOn(e.(level := target), gateHigh)
                  then Advanced(Completed(e.(level := target), gateHigh), timeScale, gateHigh, exp)
                  else Completed(e.(level := target), gateHigh))
               else
                 var phase := e.phase + 1.0 / samples;
                 if phase >= 1.0 then Completed(e.(phase := phase, level := target), gateHigh)
                 else e.(phase := phase, level := Interp(e.segStart, target, phase, e.stages[e.current].curve, exp))
  {
    hide Samples, Target, Interp;
  }

  // ── The machine on its fields ──

  class EnvCore {
    const stages: array<Stage>
    const exp: Exp
    const sampleRate: real
    var len: nat
    var sustainStage: nat
    var phaseState: EnvPhase
    var currentStage: nat
    var phase: real
    var segStart: real
    var level: real
    var levelScale: real
    var latchedLevelScale: real

    ghost function State(): Env
      reads this, stages
    {
      Env(stages[..], len, sustainStage, sampleRate, phaseState, currentStage, phase, segStart, level, levelScale,
          latchedLevelScale)
    }

    ghost predicate Valid()
      reads this, stages
    {
      WellFormed(State())
    }

    constructor (sampleRate: real, exp: Exp)
      ensures Valid() && Reachable(State()) && State().state.Idle? && fresh(stages)
    {
      stages := new Stage[MAX_STAGES](_ => DEFAULT_STAGE);
      this.sampleRate, this.exp := sampleRate, exp;
      len, sustainStage, phaseState, currentStage := 0, 0, Idle, 0;
      phase, segStart, level, levelScale, latchedLevelScale := 0.0, 0.0, 0.0, 1.0, 1.0;
    }

    /** Copies up to eight stages; the sustain stage stays in range, and an idle machine stays reachable. */
    method SetStages(list: seq<Stage>)
      requires Valid()
      modifies this, stages
      ensures Valid() && len == (if |list| < MAX_STAGES then |list| else MAX_STAGES)
      ensures stages[..len] == list[..len] && stages[len..] == old(stages[..])[len..]
      ensures sustainStage == if len == 0 then 0 else if old(sustainStage) >= len then len - 1 else old(sustainStage)
      ensures phaseState == old(phaseState) && level == old(level)
      ensures phaseState.Idle? ==> Reachable(State())
    {
      len := if |list| < MAX_STAGES then |list| else MAX_STAGES;
      for i := 0 to len
        invariant stages[..i] == list[..i] && stages[i..] == old(stages[..])[i..]
        modifies stages
      {
        stages[i] := list[i];
      }
      ClampSustainStage();
    }

    method SetSustainStage(index: nat)
      requires Valid()
      modifies this`sustainStage
      ensures Valid() && sustainStage == if len == 0 then 0 else if index >= len then len - 1 else index
    {
      sustainStage := index;
      ClampSustainStage();
    }

    method ClampSustainStage()
      modifies this`sustainStage
      ensures sustainStage == if len == 0 then 0 else if old(sustainStage) >= len then len - 1 else old(sustainStage)
    {
      var max := if len == 0 then 0 else len - 1;
      if sustainStage > max {
        sustainStage := max;
      }
    }

    method SetLevelScale(scale: real)
      modifies this`levelScale
      ensures levelScale == if scale < 0.0 then 0.0 else scale
    {
      levelScale := if scale < 0.0 then 0.0 else scale;
    }

    method Start()
      requires Valid()
      modifies this
      ensures Valid() && State() == Started(old(State()))
      ensures len > 0 ==>
                && phaseState == Active && currentStage == 0 && phase == 0.0 && segStart == level == old(level)
                && latchedLevelScale == levelScale == old(levelScale)
      ensures len == 0 ==> phaseState == Idle && level == old(level) && latchedLevelScale == old(latchedLevelScale)
    {
      if len == 0 {
        phaseState := Idle;
        return;
      }
      latchedLevelScale := levelScale;
      currentStage := 0;
      phase := 0.0;
      segStart := level;
      phaseState := Active;
    }

    method EnterRelease()
      requires Valid()
      modifies this
      ensures Valid() && State() == Released(old(State()))
      ensures level == old(level) && sustainStage == old(sustainStage) && len == old(len)
      ensures if sustainStage + 1 >= len then phaseState == Idle
              else phaseState == Active && currentStage == sustainStage + 1 && phase == 0.0 && segStart == level
    {
      var next := sustainStage + 1;
      if next >= len {
        phaseState := Idle;
      } else {
        currentStage := next;
        phase := 0.0;
        segStart := level;
        phaseState := Active;
      }
    }

    method Tick(triggered: bool, gateHigh: bool, timeScale: real) returns (r: real)
      requires Valid()
      modifies this
      ensures Valid() && State() == Ticked(old(State()), triggered, gateHigh, timeScale, exp)
      ensures r == level && 0.0 <= r <= 1.0
    {
      hide Started, Released, Advanced;
      if triggered {
        Start();
      }
      match phaseState {
        case Sustain =>
          if !gateHigh {
            EnterRelease();
          }
        case Active =>
          if currentStage <= sustainStage && !gateHigh {
            EnterRelease();
          }
        case Idle =>
      }
      match phaseState {
        case Active => Advance(timeScale, gateHigh);
        case Sustain => level := Scaled(stages[sustainStage], latchedLevelScale);
        case Idle =>
      }
      level := Clamp(level, 0.0, 1.0);
      r := level;
    }

    /**
       One sample of the active stage. Instant stages chain within the tick, and the loop always leaves by a return:
       its bound is never used up.
       */
    method Advance(timeScale: real, gateHigh: bool)
      requires Valid()
      modifies this
      ensures Valid() && State() == Advanced(old(State()), timeScale, gateHigh, exp)
    {
      hide Interp, Advanced, Scaled, Length;
      for n := 0 to len + 1
        invariant Valid() && len == old(len) && n <= currentStage + 1
        invariant n > 0 ==> n <= currentStage < len
        invariant Advanced(State(), timeScale, gateHigh, exp) == Advanced(old(State()), timeScale, gateHigh, exp)
      {
        AdvancedOnce(State(), timeScale, gateHigh, exp);
        var stage := stages[currentStage];
        var target := Scaled(stage, latchedLevelScale);
        var samples := Length(stage, timeScale, sampleRate);
        if samples <= INSTANT_EPS {
          level := target;
          var more := CompleteStage(gateHigh);
          if !more {
            return;
          }
          continue;
        }
        phase := phase + 1.0 / samples;
        if phase >= 1.0 {
          level := target;
          var _ := CompleteStage(gateHigh);
        } else {
          level := Interp(segStart, target, phase, stage.curve, exp);
        }
        return;
      }
      assert false;
    }

    /** Whether another active stage follows. */
    method CompleteStage(gateHigh: bool) returns (more: bool)
      requires Valid()
      modifies this
      ensures Valid() && State() == Completed(old(State()), gateHigh) && more == MovesOn(old(State()), gateHigh)
      ensures level == old(level) && sustainStage == old(sustainStage) && len == old(len)
      ensures if old(currentStage) == sustainStage && gateHigh then phaseState == Sustain && !more
              else if old(currentStage) + 1 >= len then phaseState == Idle && !more
              else more && currentStage == old(currentStage) + 1 && phase == 0.0 && segStart == level
    {
      if currentStage == sustainStage && gateHigh {
        phaseState := Sustain;
        return false;
      }
      var next := currentStage + 1;
      if next >= len {
        phaseState := Idle;
        return false;
      }
      currentStage := next;
      phase := 0.0;
      segStart := level;
      return true;
    }
  }
}
