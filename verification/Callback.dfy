/** The audio callback's buffer loop, on its own state, proved to play the frames of `Playback`. */
module Callback {
  import opened Powers
  import opened Wrappers
  import opened Halfband
  import opened Decimator
  import opened Playback
  import opened PlaybackTrace

  // ── Channels ──

  /** The source shifts the buffer length right by the number of trailing zeros of the channel count. */
  function FrameCount(len: nat, channels: nat): nat {
    if channels > 0 then len / Pow2(TrailingZeros(channels)) else 0
  }

  lemma {:induction false} PowerDivides(n: nat)
    requires n > 0
    ensures exists odd: nat :: odd % 2 == 1 && n == Pow2(TrailingZeros(n)) * odd
    decreases n
  {
    if n % 2 == 1 {
      assert n == 1 * n;
    } else {
      PowerDivides(n / 2);
      var odd: nat :| odd % 2 == 1 && n / 2 == Pow2(TrailingZeros(n / 2)) * odd;
      assert n == Pow2(TrailingZeros(n)) * odd;
    }
  }

  /** A power of two is its own power-of-two part; any other count exceeds its own. */
  lemma PartOf(channels: nat)
    requires channels > 0
    ensures IsPowerOfTwo(channels) ==> channels == Pow2(TrailingZeros(channels))
    ensures !IsPowerOfTwo(channels) ==> channels >= 3 * Pow2(TrailingZeros(channels))
  {
    PowerDivides(channels);
    PowerOfTwoIff(channels);
    var p := Pow2(TrailingZeros(channels));
    var odd: nat :| odd % 2 == 1 && channels == p * odd;
    if odd != 1 {
      Thrice(p, odd);
    }
  }

  lemma Thrice(p: nat, odd: nat)
    requires odd >= 3
    ensures p * odd >= 3 * p
  {}

  /** A buffer holds the frames counted in it: what the callback needs in order not to write past its end. */
  predicate FramesIn(len: nat, channels: nat) {
    Samples(len, channels) <= len
  }

  /** For a channel count that is not a power of two, every buffer of at least one frame overflows. */
  lemma Overflows(k: nat, channels: nat)
    requires channels > 0 && !IsPowerOfTwo(channels) && k > 0
    ensures !FramesIn(k * channels, channels) && FrameCount(k * channels, channels) >= 3 * k
  {
    hide Pow2, TrailingZeros, IsPowerOfTwo;
    PartOf(channels);
    var p := Pow2(TrailingZeros(channels));
    assert k * channels >= k * (3 * p) == (3 * k) * p;
    Quotient(k * channels, p, 3 * k);
    Thricefold(FrameCount(k * channels, channels), k, channels);
  }

  lemma Quotient(n: nat, p: nat, q: nat)
    requires p > 0 && n >= q * p
    ensures n / p >= q
  {
    var m := n / p;
    assert n == m * p + n % p && (m + 1) * p == m * p + p;
    TimesMonotone(m + 1, q, p);
  }

  lemma TimesMonotone(a: nat, b: nat, p: nat)
    ensures a <= b ==> a * p <= b * p
  {}

  lemma Thricefold(count: nat, k: nat, channels: nat)
    requires count >= 3 * k && k > 0 && channels > 0
    ensures count * channels > k * channels
  {
    assert count * channels >= (3 * k) * channels;
  }

  /**
     Every buffer of whole frames holds the frames the callback counts in it exactly when the channel count is a power
     of two; and then the count is the number of frames.
     */
  lemma FramesFit(channels: nat)
    requires channels > 0
    ensures (forall k: nat :: FramesIn(k * channels, channels)) <==> IsPowerOfTwo(channels)
    ensures IsPowerOfTwo(channels) ==>
              forall len: nat :: FramesIn(len, channels) && FrameCount(len, channels) == len / channels
  {
    hide Pow2, TrailingZeros, IsPowerOfTwo;
    PartOf(channels);
    if IsPowerOfTwo(channels) {
      forall len: nat ensures FramesIn(len, channels) && FrameCount(len, channels) == len / channels {
        assert len == channels * (len / channels) + len % channels;
      }
    } else {
      Overflows(1, channels);
      assert !FramesIn(1 * channels, channels);
    }
  }

  /** One frame of six channels is counted as three. */
  lemma SixChannels()
    ensures FrameCount(6, 6) == 3 && Samples(6, 6) == 18 && !FramesIn(6, 6)
  {
    assert Pow2(1) == 2 && TrailingZeros(3) == 0 && TrailingZeros(6) == 1;
  }

  /** The samples the counted frames would take. */
  function Samples(len: nat, channels: nat): nat {
    FrameCount(len, channels) * channels
  }

  // ── Samples in the buffer ──

  function Flat(i: nat, c: nat, channels: nat): nat {
    i * channels + c
  }

  /** Channel `c` of a frame: both halves in mono, left and right first otherwise, then silence. */
  function Sample(f: Frame, c: nat, channels: nat): real {
    if channels == 1 then (f.l + f.r) * 0.5 else if c == 0 then f.l else if c == 1 then f.r else 0.0
  }

  ghost predicate Holds(data: seq<real>, channels: nat, frames: seq<Frame>) {
    forall i, c :: 0 <= i < |frames| && 0 <= c < channels ==>
      Flat(i, c, channels) < |data| && data[Flat(i, c, channels)] == Sample(frames[i], c, channels)
  }

  /** Frame `i` in the buffer: the mean of both sides in mono, left and right first otherwise, then silence. */
  ghost predicate FrameAt(data: seq<real>, channels: nat, i: nat, f: Frame) {
    && (i + 1) * channels <= |data|
    && (channels == 1 ==> data[i] == (f.l + f.r) / 2.0)
    && (channels >= 2 ==> data[i * channels] == f.l && data[i * channels + 1] == f.r)
    && forall c :: i * channels + 2 <= c < (i + 1) * channels ==> data[c] == 0.0
  }

  ghost predicate FramesAt(data: seq<real>, channels: nat, frames: seq<Frame>) {
    forall i :: 0 <= i < |frames| ==> FrameAt(data, channels, i, frames[i])
  }

  lemma HeldFrames(data: seq<real>, channels: nat, frames: seq<Frame>)
    requires Holds(data, channels, frames) && (|frames| > 0 ==> channels > 0)
    ensures FramesAt(data, channels, frames)
  {
    hide Holds, FrameAt;
    forall i | 0 <= i < |frames| ensures FrameAt(data, channels, i, frames[i]) {
      HeldFrame(data, channels, frames, i);
    }
  }

  lemma HeldFrame(data: seq<real>, channels: nat, frames: seq<Frame>, i: nat)
    requires Holds(data, channels, frames) && i < |frames| && channels > 0
    ensures FrameAt(data, channels, i, frames[i])
  {
    assert (i + 1) * channels == i * channels + channels;
    assert Flat(i, 0, channels) == i * channels && Flat(i, channels - 1, channels) == (i + 1) * channels - 1;
    assert channels >= 2 ==> Flat(i, 1, channels) == i * channels + 1;
    forall c | i * channels + 2 <= c < (i + 1) * channels ensures c < |data| && data[c] == 0.0 {
      assert Flat(i, c - i * channels, channels) == c;
    }
  }

  lemma FlatOrder(i: nat, c: nat, i': nat, channels: nat)
    requires i < i' && c < channels
    ensures Flat(i, c, channels) < i' * channels
  {
    assert (i + 1) * channels <= i' * channels;
  }

  /** Writing one more frame behind the others leaves them alone. */
  lemma HoldsMore(data: seq<real>, data': seq<real>, channels: nat, frames: seq<Frame>, f: Frame)
    requires Holds(data, channels, frames) && |data'| == |data| && (|frames| + 1) * channels <= |data|
    requires forall c :: 0 <= c < channels ==> WrittenAt(data', Flat(|frames|, c, channels), Sample(f, c, channels))
    requires forall x :: 0 <= x < |frames| * channels && x < |data| ==> data'[x] == data[x]
    ensures Holds(data', channels, frames + [f])
  {
    hide Flat, Sample;
    var frames' := frames + [f];
    forall i, c | 0 <= i < |frames'| && 0 <= c < channels
      ensures Flat(i, c, channels) < |data| && data'[Flat(i, c, channels)] == Sample(frames'[i], c, channels)
    {
      if i < |frames| {
        FlatOrder(i, c, |frames|, channels);
      } else {
        assert WrittenAt(data', Flat(|frames|, c, channels), Sample(f, c, channels));
      }
    }
  }

  ghost predicate WrittenAt(data: seq<real>, x: nat, v: real) {
    x < |data| && data[x] == v
  }

  method WriteFrame(data: array<real>, i: nat, channels: nat, f: Frame)
    requires channels > 0 && (i + 1) * channels <= data.Length
    modifies data
    ensures forall c :: 0 <= c < channels ==> WrittenAt(data[..], Flat(i, c, channels), Sample(f, c, channels))
    ensures forall x :: 0 <= x < i * channels && x < data.Length ==> data[x] == old(data[x])
  {
    var at := i * channels;
    assert (i + 1) * channels == at + channels;
    if channels == 1 {
      data[at] := (f.l + f.r) * 0.5;
    } else {
      data[at] := f.l;
      data[at + 1] := f.r;
      for c := 2 to channels
        invariant data[at] == f.l && data[at + 1] == f.r
        invariant forall x :: at + 2 <= x < at + c ==> data[x] == 0.0
        invariant forall x :: 0 <= x < at ==> data[x] == old(data[x])
      {
        data[at + c] := 0.0;
      }
    }
    forall c | 0 <= c < channels ensures WrittenAt(data[..], Flat(i, c, channels), Sample(f, c, channels)) {
      assert Flat(i, c, channels) == at + c;
    }
  }

  // ── The callback ──

  /** Records everything done to it. */
  class Processor {
    var trace: seq<Event>
    const output: seq<Event> -> Frame

    constructor (output: seq<Event> -> Frame)
      ensures trace == [] && this.output == output
    {
      trace, this.output := [], output;
    }

    method PrepareMidiBlock(rows: nat)
      modifies this
      ensures trace == old(trace) + [PrepareMidi(rows)]
    {
      trace := trace + [PrepareMidi(rows)];
    }

    /** The events that the queue yields for a window, written in one go. */
    method WriteMidiWindow(start: nat, length: nat)
      modifies this
      ensures trace == old(trace) + [MidiWindow(start, length)]
    {
      trace := trace + [MidiWindow(start, length)];
    }

    method Feed(f: Frame)
      modifies this
      ensures trace == old(trace) + [WriteInput(f)]
    {
      trace := trace + [WriteInput(f)];
    }

    method DoTick() returns (f: Frame)
      modifies this
      ensures f == output(old(trace)) && trace == old(trace) + [Tick]
    {
      f := output(trace);
      trace := trace + [Tick];
    }
  }

  lemma LevelsOf(levels: nat)
    requires levels <= 3
    ensures Pow2(levels) == if levels == 0 then 1 else if levels == 1 then 2 else if levels == 2 then 4 else 8
  {
    assert Pow2(2) == 4 && Pow2(3) == 2 * Pow2(2);
  }

  /** Within a group of `2^levels` ticks, the decimator answers on the last one only. */
  lemma GroupEnds(n: nat, levels: nat, j: nat)
    requires 0 < j <= Pow2(levels)
    ensures WholeGroups(n * Pow2(levels) + j, levels) <==> j == Pow2(levels)
  {
    var p := Pow2(levels);
    if j == p {
      assert n * p + j == p * (n + 1);
      ModOf(p, n + 1, 0);
    } else {
      ModOf(p, n, j);
    }
  }

  lemma ModOf(p: nat, q: nat, r: nat)
    requires r < p
    ensures (p * q + r) % p == r
  {
    DivModUnique(p * q + r, p, q, r);
  }

  class AudioCallback {
    const env: Env
    const channels: nat
    const channelShift: nat
    const oversamplingFactor: nat
    const controlPeriod: nat
    const processor: Processor
    const decimatorL: Decimator
    const decimatorR: Decimator
    var samplesUntilNextMidi: nat
    var sampleCounter: nat
    var prevInputFrame: Frame
    var popped: nat

    ghost var frames: seq<Frame>

    ghost function State(): Playback
      reads this, processor, decimatorL, decimatorR
    {
      Playback(samplesUntilNextMidi, sampleCounter, processor.trace, prevInputFrame, popped, decimatorL.inputs,
               decimatorR.inputs, frames)
    }

    ghost function Repr(): set<object> {
      {this, processor} + decimatorL.Repr + decimatorR.Repr
    }

    /** The parts do not overlap. */
    ghost predicate Apart() {
      && this as object !in decimatorL.Repr && processor as object !in decimatorL.Repr
      && this as object !in decimatorR.Repr && processor as object !in decimatorR.Repr
      && this as object != processor && decimatorL.Repr !! decimatorR.Repr
      && decimatorL in decimatorL.Repr && decimatorR in decimatorR.Repr
    }

    ghost predicate Configured() {
      && processor.output == env.output && oversamplingFactor == env.Factor() && controlPeriod == env.period
      && channelShift == TrailingZeros(channels)
      && decimatorL.stages.Levels() == env.levels && decimatorR.stages.Levels() == env.levels
      && decimatorL.k == decimatorR.k == env.fir
    }

    /** What holds at every inner tick. */
    ghost predicate Wired()
      reads Repr()
    {
      Apart() && Configured() && decimatorL.Valid() && decimatorR.Valid()
    }

    /** What holds between frames. */
    ghost predicate Valid()
      reads Repr()
    {
      && Wired() && 0 < samplesUntilNextMidi <= SUB_BLOCK_SIZE
      && Aligned(env, |frames|, 0, decimatorL.inputs, decimatorR.inputs)
    }

    constructor (env: Env, channels: nat)
      requires env.levels <= 3
      ensures Valid() && fresh(Repr()) && State() == START && this.env == env && this.channels == channels
    {
      hide Decimator.Valid, Pow2, TrailingZeros;
      var factor := env.Factor();
      LevelsOf(env.levels);
      var l := new Decimator(factor, env.fir);
      var r := new Decimator(factor, env.fir);
      var p := new Processor(env.output);
      this.env, this.channels, channelShift := env, channels, TrailingZeros(channels);
      oversamplingFactor, controlPeriod := factor, env.period;
      processor, decimatorL, decimatorR := p, l, r;
      samplesUntilNextMidi, sampleCounter := SUB_BLOCK_SIZE, 0;
      prevInputFrame, popped, frames := Frame(0.0, 0.0), 0, [];
    }

    /** One inner tick, from the input write to both decimators. */
    method InnerTick(current: Frame, j: nat) returns (l: Option<real>, r: Option<real>)
      requires Wired()
      modifies processor, decimatorL.Repr, decimatorR.Repr
      ensures Wired() && State() == TickOnce(env, old(State()), current, j)
      ensures Answers(env, l, decimatorL.inputs) && Answers(env, r, decimatorR.inputs)
      ensures |decimatorL.inputs| == |old(decimatorL.inputs)| + 1 && |decimatorR.inputs| == |old(decimatorR.inputs)| + 1
    {
      hide Decimator.Valid, Response, Decimated, DecimatedTimes, WholeGroups, Pow2, Interpolate;
      if env.hasInput {
        processor.Feed(Interpolate(prevInputFrame, current, j, oversamplingFactor));
      }
      ghost var was := old(processor.trace);
      assert was + [] == was;
      var inner := processor.DoTick();
      l := decimatorL.Push(inner.l);
      r := decimatorR.Push(inner.r);
    }

    /** The inner ticks of one frame; the decimators answer once each, on the last tick. */
    method InnerTicks(current: Frame) returns (out: Frame)
      requires Wired() && Aligned(env, |frames|, 0, decimatorL.inputs, decimatorR.inputs)
      modifies processor, decimatorL.Repr, decimatorR.Repr
      ensures Wired() && State() == Ticks(env, old(State()), current, env.Factor())
      ensures Aligned(env, |frames|, env.Factor(), decimatorL.inputs, decimatorR.inputs)
      ensures out == NewestOut(env, State())
      ensures var ins, ins' := Inputs(old(State()).trace), Inputs(State().trace);
              if env.hasInput then ins <= ins' && |ins'| == |ins| + env.Factor()
                                   && OnLine(ins', |ins|, env.Factor(), prevInputFrame, current)
              else ins' == ins
    {
      TicksOnLine(env, State(), current);
      hide Decimator.Valid, TickOnce, DecimatedTimes, WholeGroups, Pow2, Aligned, Answers, NewestOut;
      out := Frame(0.0, 0.0);
      ghost var n, was := |frames|, State();
      var j := 0;
      while j < oversamplingFactor
        invariant 0 <= j <= oversamplingFactor
        invariant Wired() && State() == Ticks(env, was, current, j)
        invariant Aligned(env, n, j, decimatorL.inputs, decimatorR.inputs)
        invariant j == oversamplingFactor && j > 0 ==> out == NewestOut(env, State())
      {
        ghost var before := State();
        var l, r := InnerTick(current, j);
        AlignedStep(env, n, j, before, State());
        LastTick(env, State(), n, j + 1, l, r);
        if l.Some? {
          out := out.(l := l.value);
        }
        if r.Some? {
          out := out.(r := r.value);
        }
        j := j + 1;
      }
    }

    /** One frame: pops its input, ticks, and hands out what the decimators gave on the last tick. */
    method PlayFrame() returns (out: Frame)
      requires Wired() && Aligned(env, |frames|, 0, decimatorL.inputs, decimatorR.inputs)
      modifies this, Repr()
      ensures Wired() && State() == FrameBody(env, old(State()))
      ensures Aligned(env, |frames|, 0, decimatorL.inputs, decimatorR.inputs)
      ensures frames == old(frames) + [out]
      ensures Fed(env, old(State()), State(), 1)
    {
      hide Decimator.Valid, Ticks, DecimatedTimes, Pow2, Aligned, NewestOut, Fed, OnLine, Inputs;
      var current := Frame(0.0, 0.0);
      if env.hasInput {
        var frame := env.input(popped);
        current := if frame.Some? then frame.value else prevInputFrame;
        popped := popped + 1;
      }
      ghost var was := old(State());
      out := InnerTicks(current);
      AlignedFrame(env, |frames|, decimatorL.inputs, decimatorR.inputs);
      if env.hasInput {
        prevInputFrame := current;
      }
      frames := frames + [out];
      BodyFed(env, was);
    }

    /** `chunk` frames, each written to the buffer as it is played; `start` frames were played before the buffer. */
    method ProcessChunk(data: array<real>, outI: nat, chunk: nat, ghost start: nat) returns (outI': nat)
      requires Wired() && Aligned(env, |frames|, 0, decimatorL.inputs, decimatorR.inputs)
      requires data !in Repr() && channels > 0 && (outI + chunk) * channels <= data.Length
      requires start + outI == |frames| && Holds(data[..], channels, frames[start..])
      modifies this, Repr(), data
      ensures Wired() && Aligned(env, |frames|, 0, decimatorL.inputs, decimatorR.inputs)
      ensures State() == Bodies(env, old(State()), chunk)
      ensures outI' == outI + chunk && start + outI' == |frames| && old(frames) <= frames
      ensures Holds(data[..], channels, frames[start..])
      ensures Fed(env, old(State()), State(), chunk)
    {
      hide Decimator.Valid, FrameBody, Pow2, Aligned, Holds, Sample, Flat, Fed;
      outI' := outI;
      ghost var was := State();
      for i := 0 to chunk
        invariant Wired() && Aligned(env, |frames|, 0, decimatorL.inputs, decimatorR.inputs)
        invariant State() == Bodies(env, was, i)
        invariant outI' == outI + i && start + outI' == |frames| && old(frames) <= frames
        invariant Holds(data[..], channels, frames[start..])
      {
        ghost var played, before := frames[start..], data[..];
        var out := PlayFrame();
        RoomFor(outI', outI + chunk, channels);
        WriteFrame(data, outI', channels, out);
        HoldsMore(before, data[..], channels, played, out);
        assert frames[start..] == played + [out];
        outI' := outI' + 1;
      }
      BodiesFed(env, was, chunk);
    }

    /** The midi block if a sub-block begins, then frames up to the end of the sub-block or of the buffer. */
    method PlayChunk(data: array<real>, outI: nat, remaining: nat, ghost start: nat) returns (outI': nat)
      requires Valid() && data !in Repr()
      requires channels > 0 && remaining > 0 && (outI + remaining) * channels <= data.Length
      requires start + outI == |frames| && Holds(data[..], channels, frames[start..])
      modifies this, Repr(), data
      ensures Valid() && outI < outI' <= outI + remaining && start + outI' == |frames| && old(frames) <= frames
      ensures State() == Run(env, old(State()), outI' - outI)
      ensures Holds(data[..], channels, frames[start..])
    {
      hide Decimator.Valid, FrameStep, Pow2, Aligned, Holds, Sample, Flat, Bodies, Settle, Run, Fed;
      ghost var s := State();
      if samplesUntilNextMidi == SUB_BLOCK_SIZE {
        processor.PrepareMidiBlock(controlPeriod);
        if env.hasQueue {
          processor.WriteMidiWindow(sampleCounter, controlPeriod);
        }
      }
      assert s.trace + [PrepareMidi(env.period)] + [] == s.trace + [PrepareMidi(env.period)];
      var chunk := if samplesUntilNextMidi < remaining then samplesUntilNextMidi else remaining;
      RoomFor(outI + chunk - 1, outI + remaining, channels);
      outI' := ProcessChunk(data, outI, chunk, start);
      ChunkIsRun(env, s, chunk);
      SettleBoth(env, State(), chunk);
      samplesUntilNextMidi := samplesUntilNextMidi - chunk;
      if samplesUntilNextMidi == 0 {
        sampleCounter := sampleCounter + controlPeriod;
        samplesUntilNextMidi := SUB_BLOCK_SIZE;
      }
    }

    method CountFrames(len: nat) returns (count: nat)
      requires Configured()
      ensures count == FrameCount(len, channels) && (count > 0 ==> channels > 0)
    {
      hide Pow2;
      count := if channels > 0 then len / Pow2(channelShift) else 0;
    }

    /** Plays exactly the frames counted in the buffer, whatever was left of the current sub-block. */
    method FillBuffer(data: array<real>)
      requires Valid() && data !in Repr() && FramesIn(data.Length, channels)
      modifies this, Repr(), data
      ensures Valid() && old(frames) <= frames
      ensures State() == Run(env, old(State()), FrameCount(data.Length, channels))
      ensures Holds(data[..], channels, frames[|old(frames)|..])
      ensures |frames| == |old(frames)| + FrameCount(data.Length, channels)
      ensures FramesAt(data[..], channels, frames[|old(frames)|..])
      ensures Fed(env, old(State()), State(), FrameCount(data.Length, channels))
    {
      hide Decimator.Valid, State, Run, FrameCount, Holds, Aligned, Pow2, TrailingZeros, Fed, FramesAt;
      ghost var was, start := State(), |frames|;
      var count := CountFrames(data.Length);
      var remaining := count;
      var outI := 0;
      NothingHeld(data[..], channels);
      assert frames[start..] == [];
      RunNothing(env, was);
      while remaining > 0
        invariant Valid() && 0 <= remaining <= count && outI == count - remaining
        invariant old(frames) <= frames && start + outI == |frames|
        invariant State() == Run(env, was, outI)
        invariant Holds(data[..], channels, frames[start..])
        decreases remaining
      {
        ghost var played := outI;
        outI := PlayChunk(data, outI, remaining, start);
        RunSplit(env, was, played, outI - played);
        remaining := count - outI;
      }
      RunFed(env, was, count);
      HeldFrames(data[..], channels, frames[start..]);
    }
  }

  lemma RunNothing(env: Env, s: Playback)
    ensures Run(env, s, 0) == s
  {}

  lemma RoomFor(i: nat, n: nat, channels: nat)
    requires i < n
    ensures (i + 1) * channels <= n * channels
  {}

  lemma NothingHeld(data: seq<real>, channels: nat)
    ensures Holds(data, channels, [])
  {}

  /** The countdown after a chunk, step by step and in one go. */
  lemma SettleBoth(env: Env, s: Playback, c: nat)
    requires 0 < c <= s.untilMidi
    ensures Settle(env, s, c)
            == var left := s.untilMidi - c;
               if left == 0 then s.(untilMidi := SUB_BLOCK_SIZE, counter := s.counter + env.period)
               else s.(untilMidi := left)
  {}

  /** Only after the last tick of a frame do the decimators answer, and then with their newest outputs. */
  lemma LastTick(env: Env, s: Playback, n: nat, j: nat, l: Option<real>, r: Option<real>)
    requires 0 < j <= env.Factor() && Answers(env, l, s.lefts) && Answers(env, r, s.rights)
    requires Aligned(env, n, j, s.lefts, s.rights)
    ensures l.Some? <==> j == env.Factor()
    ensures r.Some? <==> j == env.Factor()
    ensures j == env.Factor() ==> Frame(l.value, r.value) == NewestOut(env, s)
  {
    hide WholeGroups, DecimatedTimes, Pow2;
    GroupEnds(n, env.levels, j);
  }

  /** After the samples `xs`, the decimator answered with its newest output, if a group has just ended. */
  ghost predicate Answers(env: Env, o: Option<real>, xs: seq<real>) {
    && (o.Some? <==> WholeGroups(|xs|, env.levels))
    && (o.Some? ==> o.value == Last(DecimatedTimes(env.fir, env.levels, xs)))
  }

  /** Inside frame `n`, after `j` inner ticks. */
  ghost predicate Aligned(env: Env, n: nat, j: nat, lefts: seq<real>, rights: seq<real>) {
    |lefts| == n * env.Factor() + j && |rights| == n * env.Factor() + j
  }

  lemma AlignedStep(env: Env, n: nat, j: nat, s: Playback, s': Playback)
    requires Aligned(env, n, j, s.lefts, s.rights) && |s'.lefts| == |s.lefts| + 1 && |s'.rights| == |s.rights| + 1
    ensures Aligned(env, n, j + 1, s'.lefts, s'.rights)
  {
    hide Pow2;
  }

  lemma AlignedFrame(env: Env, n: nat, lefts: seq<real>, rights: seq<real>)
    requires Aligned(env, n, env.Factor(), lefts, rights)
    ensures Aligned(env, n + 1, 0, lefts, rights)
  {
    hide Pow2;
    TickStep(n, env.Factor());
  }
}
