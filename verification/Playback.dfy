/**
 The audio callback frame by frame, on values: MIDI windows, inner ticks, decimation. The processor is abstract: it
 records what is done to it, and each tick's output is some function of that record.
 */
module Playback {
  import opened Powers
  import opened Wrappers
  import opened Halfband
  import opened Decimator

  const SUB_BLOCK_SIZE: nat := 16

  datatype Frame = Frame(l: real, r: real)

  datatype Event = PrepareMidi(rows: nat) | MidiWindow(start: nat, length: nat) | WriteInput(frame: Frame) | Tick

  /** The fixed surroundings: `input(i)` is what the `i`-th pop of the input queue gives. */
  datatype Env = Env(fir: Fir, levels: nat, period: nat, hasQueue: bool, hasInput: bool, input: nat -> Option<Frame>,
                     output: seq<Event> -> Frame)
  {
    function Factor(): nat { Pow2(levels) }
  }

  datatype Playback = Playback(untilMidi: nat, counter: nat, trace: seq<Event>, prev: Frame, popped: nat,
                               lefts: seq<real>, rights: seq<real>, frames: seq<Frame>)

  const START := Playback(SUB_BLOCK_SIZE, 0, [], Frame(0.0, 0.0), 0, [], [], [])

  // ── One frame ──

  function CurrentInput(env: Env, s: Playback): Frame {
    if !env.hasInput then Frame(0.0, 0.0)
    else
      var popped := env.input(s.popped);
      if popped.Some? then popped.value else s.prev
  }

  /** The input at inner tick `j` of `factor`, on the line from the previous frame to the current one. */
  function Interpolate(prev: Frame, current: Frame, j: nat, factor: nat): Frame
    requires factor > 0
  {
    var t := (j as real + 1.0) / factor as real;
    Frame(prev.l + t * (current.l - prev.l), prev.r + t * (current.r - prev.r))
  }

  function TickOnce(env: Env, s: Playback, current: Frame, j: nat): Playback {
    var trace := s.trace + if env.hasInput then [WriteInput(Interpolate(s.prev, current, j, env.Factor()))] else [];
    var o := env.output(trace);
    s.(trace := trace + [Tick], lefts := s.lefts + [o.l], rights := s.rights + [o.r])
  }

  function Ticks(env: Env, s: Playback, current: Frame, j: nat): Playback {
    if j == 0 then s else TickOnce(env, Ticks(env, s, current, j - 1), current, j - 1)
  }

  function Last(xs: seq<real>): real {
    if xs == [] then 0.0 else xs[|xs| - 1]
  }

  /** The newest decimator outputs. */
  function NewestOut(env: Env, s: Playback): Frame {
    Frame(Last(DecimatedTimes(env.fir, env.levels, s.lefts)), Last(DecimatedTimes(env.fir, env.levels, s.rights)))
  }

  function Emit(env: Env, s: Playback, current: Frame): Playback {
    s.(prev := if env.hasInput then current else s.prev, frames := s.frames + [NewestOut(env, s)])
  }

  function Pop(env: Env, s: Playback): Playback {
    if env.hasInput then s.(popped := s.popped + 1) else s
  }

  function FrameBody(env: Env, s: Playback): Playback {
    Emit(env, Ticks(env, Pop(env, s), CurrentInput(env, s), env.Factor()), CurrentInput(env, s))
  }

  /** At the start of a sub-block: prepare it, and drain the events of the next `period` inner ticks. */
  function Prepare(env: Env, s: Playback): Playback {
    if s.untilMidi != SUB_BLOCK_SIZE then s
    else s.(trace := s.trace + [PrepareMidi(env.period)]
                     + if env.hasQueue then [MidiWindow(s.counter, env.period)] else [])
  }

  /** `c` frames have been played. */
  function Settle(env: Env, s: Playback, c: nat): Playback {
    if c < s.untilMidi then s.(untilMidi := s.untilMidi - c)
    else s.(untilMidi := SUB_BLOCK_SIZE, counter := s.counter + env.period)
  }

  function FrameStep(env: Env, s: Playback): Playback {
    Settle(env, FrameBody(env, Prepare(env, s)), 1)
  }

  function Run(env: Env, s: Playback, n: nat): Playback {
    if n == 0 then s else FrameStep(env, Run(env, s, n - 1))
  }

  // ── Host buffers ──

  function RunBuffers(env: Env, s: Playback, sizes: seq<nat>): Playback
    decreases |sizes|
  {
    if sizes == [] then s else RunBuffers(env, Run(env, s, sizes[0]), sizes[1..])
  }

  function Sum(sizes: seq<nat>): nat {
    if sizes == [] then 0 else sizes[0] + Sum(sizes[1..])
  }

  lemma {:induction false} RunSplit(env: Env, s: Playback, a: nat, b: nat)
    ensures Run(env, s, a + b) == Run(env, Run(env, s, a), b)
    decreases b
  {
    hide FrameStep;
    if b > 0 {
      RunSplit(env, s, a, b - 1);
    }
  }

  /** However the host cuts the frames into buffers, the same frames are played, with the same trace. */
  lemma {:induction false} BufferSizesDoNotMatter(env: Env, s: Playback, sizes: seq<nat>)
    ensures RunBuffers(env, s, sizes) == Run(env, s, Sum(sizes))
    decreases |sizes|
  {
    hide FrameStep;
    if sizes != [] {
      BufferSizesDoNotMatter(env, Run(env, s, sizes[0]), sizes[1..]);
      RunSplit(env, s, sizes[0], Sum(sizes[1..]));
    }
  }

  // ── Chunks: several frame bodies between two looks at the countdown ──

  function Bodies(env: Env, s: Playback, n: nat): Playback {
    if n == 0 then s else FrameBody(env, Bodies(env, s, n - 1))
  }

  lemma {:induction false} TicksIgnoreCountdown(env: Env, s: Playback, current: Frame, j: nat, u: nat)
    ensures Ticks(env, s.(untilMidi := u), current, j) == Ticks(env, s, current, j).(untilMidi := u)
    ensures Ticks(env, s, current, j).untilMidi == s.untilMidi && Ticks(env, s, current, j).counter == s.counter
  {
    hide Interpolate;
    if j > 0 {
      TicksIgnoreCountdown(env, s, current, j - 1, u);
    }
  }

  lemma BodyIgnoresCountdown(env: Env, s: Playback, u: nat)
    ensures FrameBody(env, s.(untilMidi := u)) == FrameBody(env, s).(untilMidi := u)
    ensures FrameBody(env, s).untilMidi == s.untilMidi && FrameBody(env, s).counter == s.counter
  {
    hide Ticks, Last;
    TicksIgnoreCountdown(env, Pop(env, s), CurrentInput(env, s), env.Factor(), u);
  }

  /** A chunk that does not run past the sub-block, prepared before and settled after, is that many frames. */
  lemma {:induction false} ChunkIsRun(env: Env, s: Playback, c: nat)
    requires 0 < c <= s.untilMidi <= SUB_BLOCK_SIZE
    ensures Run(env, s, c) == Settle(env, Bodies(env, Prepare(env, s), c), c)
    ensures Bodies(env, Prepare(env, s), c).untilMidi == s.untilMidi
    decreases c
  {
    hide FrameBody;
    var p := Prepare(env, s);
    BodyIgnoresCountdown(env, Bodies(env, p, c - 1), s.untilMidi);
    if c == 1 {
      assert Run(env, s, 0) == s && Bodies(env, p, 0) == p;
    } else {
      ChunkIsRun(env, s, c - 1);
      var before := Bodies(env, p, c - 1);
      assert Run(env, s, c - 1) == before.(untilMidi := s.untilMidi - (c - 1));
      BodyIgnoresCountdown(env, before, s.untilMidi - (c - 1));
      assert Run(env, s, c) == FrameStep(env, Run(env, s, c - 1));
    }
  }

  // ── The clock and the windows ──

  function TickCount(trace: seq<Event>): nat {
    if trace == [] then 0 else TickCount(trace[..|trace| - 1]) + if trace[|trace| - 1].Tick? then 1 else 0
  }

  datatype Opened = Opened(window: Event, ticks: nat)

  /** The drain windows of a trace, each with the number of ticks before it. */
  function Windows(trace: seq<Event>): seq<Opened> {
    if trace == [] then []
    else
      var front, last := trace[..|trace| - 1], trace[|trace| - 1];
      Windows(front) + if last.MidiWindow? then [Opened(last, TickCount(front))] else []
  }

  /** The preparations of a trace, each with the number of ticks before it. */
  function Prepares(trace: seq<Event>): seq<Opened> {
    if trace == [] then []
    else
      var front, last := trace[..|trace| - 1], trace[|trace| - 1];
      Prepares(front) + if last.PrepareMidi? then [Opened(last, TickCount(front))] else []
  }

  function ExpectedPrepares(env: Env, n: nat): (ps: seq<Opened>)
    ensures |ps| == n
  {
    seq(n, j requires 0 <= j < n => Opened(PrepareMidi(env.period), j * (SUB_BLOCK_SIZE * env.Factor())))
  }

  function ExpectedWindows(env: Env, n: nat): (ws: seq<Opened>)
    ensures |ws| == n
  {
    seq(n, j requires 0 <= j < n => Opened(MidiWindow(j * env.period, env.period), j * (SUB_BLOCK_SIZE * env.Factor())))
  }

  lemma TraceSnoc(trace: seq<Event>, e: Event)
    ensures TickCount(trace + [e]) == TickCount(trace) + if e.Tick? then 1 else 0
    ensures Windows(trace + [e]) == Windows(trace) + if e.MidiWindow? then [Opened(e, TickCount(trace))] else []
    ensures Prepares(trace + [e]) == Prepares(trace) + if e.PrepareMidi? then [Opened(e, TickCount(trace))] else []
  {
    assert (trace + [e])[..|trace|] == trace;
  }

  lemma {:induction false} TicksTrace(env: Env, s: Playback, current: Frame, j: nat)
    ensures var s' := Ticks(env, s, current, j);
            && TickCount(s'.trace) == TickCount(s.trace) + j && Windows(s'.trace) == Windows(s.trace)
            && Prepares(s'.trace) == Prepares(s.trace)
            && |s'.lefts| == |s.lefts| + j && |s'.rights| == |s.rights| + j
            && s.lefts <= s'.lefts && s.rights <= s'.rights
            && s'.frames == s.frames && s'.untilMidi == s.untilMidi && s'.counter == s.counter
    decreases j
  {
    hide Interpolate, TickCount, Windows, Prepares;
    if j > 0 {
      TicksTrace(env, s, current, j - 1);
      var p := Ticks(env, s, current, j - 1);
      var input := WriteInput(Interpolate(p.prev, current, j - 1, env.Factor()));
      TraceSnoc(p.trace, input);
      TraceSnoc(p.trace, Tick);
      TraceSnoc(p.trace + [input], Tick);
      assert p.trace + [] == p.trace;
      assert Windows(p.trace) + [] == Windows(p.trace) && Prepares(p.trace) + [] == Prepares(p.trace);
    }
  }

  /** The clock after `n` frames. */
  ghost predicate OnClock(env: Env, s: Playback, n: nat) {
    && s.untilMidi == SUB_BLOCK_SIZE - n % SUB_BLOCK_SIZE
    && s.counter == n / SUB_BLOCK_SIZE * env.period
    && TickCount(s.trace) == n * env.Factor()
    && Prepares(s.trace) == ExpectedPrepares(env, (n + SUB_BLOCK_SIZE - 1) / SUB_BLOCK_SIZE)
    && (env.hasQueue ==> Windows(s.trace) == ExpectedWindows(env, (n + SUB_BLOCK_SIZE - 1) / SUB_BLOCK_SIZE))
  }

  lemma ClockStep(env: Env, s: Playback, n: nat)
    requires OnClock(env, s, n)
    ensures OnClock(env, FrameStep(env, s), n + 1)
  {
    hide Ticks, TickCount, Windows, Prepares, NewestOut, Pow2;
    var p := Prepare(env, s);
    PrepareWindows(env, s, n);
    TicksTrace(env, Pop(env, p), CurrentInput(env, p), env.Factor());
    CountdownStep(n, env.period);
    TickStep(n, env.Factor());
  }

  lemma TickStep(n: nat, f: nat)
    ensures (n + 1) * f == n * f + f
  {}

  lemma CountdownStep(n: nat, period: nat)
    ensures (n + 1) % SUB_BLOCK_SIZE == if n % SUB_BLOCK_SIZE == SUB_BLOCK_SIZE - 1 then 0 else n % SUB_BLOCK_SIZE + 1
    ensures (n + 1) / SUB_BLOCK_SIZE * period
            == n / SUB_BLOCK_SIZE * period + if n % SUB_BLOCK_SIZE == SUB_BLOCK_SIZE - 1 then period else 0
  {
    TickStep(n / SUB_BLOCK_SIZE, period);
  }

  /** A window opens exactly at the sub-block boundaries, where the clock and the tick count agree. */
  lemma PrepareWindows(env: Env, s: Playback, n: nat)
    requires OnClock(env, s, n)
    ensures var p := Prepare(env, s);
            && TickCount(p.trace) == n * env.Factor()
            && Prepares(p.trace) == ExpectedPrepares(env, (n + 1 + SUB_BLOCK_SIZE - 1) / SUB_BLOCK_SIZE)
            && (env.hasQueue ==>
                  Windows(p.trace) == ExpectedWindows(env, (n + 1 + SUB_BLOCK_SIZE - 1) / SUB_BLOCK_SIZE))
  {
    hide TickCount, Windows, Prepares, Pow2, ExpectedWindows, ExpectedPrepares;
    if n % SUB_BLOCK_SIZE == 0 {
      var j := n / SUB_BLOCK_SIZE;
      assert n == j * SUB_BLOCK_SIZE && (n + 1 + SUB_BLOCK_SIZE - 1) / SUB_BLOCK_SIZE == j + 1;
      var prepared := s.trace + [PrepareMidi(env.period)];
      TraceSnoc(s.trace, PrepareMidi(env.period));
      TraceSnoc(prepared, MidiWindow(s.counter, env.period));
      assert prepared + [] == prepared;
      Reassociate(j, env.Factor());
      WindowsGrow(env, j, s.counter, TickCount(prepared));
      assert Windows(s.trace) + [] == Windows(s.trace) && Prepares(prepared) + [] == Prepares(prepared);
    } else {
      assert (n + 1 + SUB_BLOCK_SIZE - 1) / SUB_BLOCK_SIZE == (n + SUB_BLOCK_SIZE - 1) / SUB_BLOCK_SIZE;
    }
  }

  lemma WindowsGrow(env: Env, j: nat, start: nat, ticks: nat)
    requires start == j * env.period && ticks == j * (SUB_BLOCK_SIZE * env.Factor())
    ensures ExpectedWindows(env, j + 1) == ExpectedWindows(env, j) + [Opened(MidiWindow(start, env.period), ticks)]
    ensures ExpectedPrepares(env, j + 1) == ExpectedPrepares(env, j) + [Opened(PrepareMidi(env.period), ticks)]
  {
    hide Pow2;
  }

  lemma Reassociate(j: nat, f: nat)
    ensures j * SUB_BLOCK_SIZE * f == j * (SUB_BLOCK_SIZE * f)
  {}

  /**
     The clock of every run: a preparation at every sub-block, and with a queue a window. Window `j` is
     `[jP, (j + 1)P)`, and it opens when `16 j` frames' worth of inner ticks have run.
     */
  lemma {:induction false} Clock(env: Env, n: nat)
    ensures OnClock(env, Run(env, START, n), n)
  {
    hide FrameStep;
    if n > 0 {
      Clock(env, n - 1);
      ClockStep(env, Run(env, START, n - 1), n - 1);
    } else {
      assert ExpectedWindows(env, 0) == [] && ExpectedPrepares(env, 0) == [];
    }
  }

  /** At the default period every window starts at the tick it opens at, so each tick falls in one window. */
  lemma WindowsMatchTicks(env: Env, n: nat, j: nat)
    requires env.hasQueue && env.period == SUB_BLOCK_SIZE * env.Factor()
    requires j < (n + SUB_BLOCK_SIZE - 1) / SUB_BLOCK_SIZE
    ensures var ws := Windows(Run(env, START, n).trace);
            j < |ws| && ws[j] == Opened(MidiWindow(j * env.period, env.period), j * env.period)
  {
    hide Run, Windows, Prepares, TickCount, Pow2;
    Clock(env, n);
  }

  // ── The output frames ──

  /** Later samples only extend the decimated stream. */
  lemma {:induction false} DecimatedExtends(k: Fir, levels: nat, xs: seq<real>, x: real)
    ensures DecimatedTimes(k, levels, xs) <= DecimatedTimes(k, levels, xs + [x])
    ensures |DecimatedTimes(k, levels, xs + [x])| <= |DecimatedTimes(k, levels, xs)| + 1
  {
    hide Decimated;
    if levels > 0 {
      DecimatedExtends(k, levels - 1, xs, x);
      var ys, zs := DecimatedTimes(k, levels - 1, xs), DecimatedTimes(k, levels - 1, xs + [x]);
      if |zs| > |ys| {
        assert zs == ys + [zs[|ys|]];
        DecimatedPush(k, ys, zs[|ys|]);
      } else {
        assert zs == ys;
      }
    }
  }

  lemma {:induction false} DecimatedPrefix(k: Fir, levels: nat, xs: seq<real>, more: seq<real>)
    ensures DecimatedTimes(k, levels, xs) <= DecimatedTimes(k, levels, xs + more)
    decreases |more|
  {
    hide DecimatedTimes;
    if more == [] {
      assert xs + more == xs;
    } else {
      var n := |more| - 1;
      DecimatedPrefix(k, levels, xs, more[..n]);
      DecimatedExtends(k, levels, xs + more[..n], more[n]);
      assert xs + more[..n] + [more[n]] == xs + more;
    }
  }

  /** Frame `i` carries output `i` of each decimated tick stream, and every frame used exactly `factor` ticks. */
  ghost predicate FramesDecimated(env: Env, s: Playback, n: nat) {
    var ls, rs := DecimatedTimes(env.fir, env.levels, s.lefts), DecimatedTimes(env.fir, env.levels, s.rights);
    && |s.lefts| == n * env.Factor() && |s.rights| == n * env.Factor()
    && |s.frames| == |ls| == |rs| == n
    && forall i :: 0 <= i < n ==> s.frames[i] == Frame(ls[i], rs[i])
  }

  lemma FramesStep(env: Env, s: Playback, n: nat)
    requires FramesDecimated(env, s, n)
    ensures FramesDecimated(env, FrameStep(env, s), n + 1)
  {
    hide Ticks, DecimatedTimes, Pow2;
    var p := Prepare(env, s);
    TicksTrace(env, Pop(env, p), CurrentInput(env, p), env.Factor());
    var t := Ticks(env, Pop(env, p), CurrentInput(env, p), env.Factor());
    TickStep(n, env.Factor());
    StreamStep(env, s.lefts, t.lefts, n);
    StreamStep(env, s.rights, t.rights, n);
  }

  lemma StreamStep(env: Env, xs: seq<real>, xs': seq<real>, n: nat)
    requires xs <= xs' && |xs| == n * env.Factor() && |xs'| == (n + 1) * env.Factor()
    ensures DecimatedTimes(env.fir, env.levels, xs) <= DecimatedTimes(env.fir, env.levels, xs')
    ensures |DecimatedTimes(env.fir, env.levels, xs')| == n + 1
  {
    hide DecimatedTimes, Pow2;
    assert xs' == xs + xs'[|xs|..];
    DecimatedPrefix(env.fir, env.levels, xs, xs'[|xs|..]);
    DecimatedLength(env.fir, env.levels, xs');
    DivModUnique((n + 1) * env.Factor(), env.Factor(), n + 1, 0);
  }

  lemma {:induction false} EveryFrameDecimated(env: Env, n: nat)
    ensures FramesDecimated(env, Run(env, START, n), n)
  {
    hide FrameStep;
    if n > 0 {
      EveryFrameDecimated(env, n - 1);
      FramesStep(env, Run(env, START, n - 1), n - 1);
    } else {
      DecimatedLength(env.fir, env.levels, []);
    }
  }
}
