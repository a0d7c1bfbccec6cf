/** Burst transport of MIDI events over a cable of five per sample: a buffering writer and a debouncing reader. */
module MidiIo {
  import opened Wrappers

  const MAX_STASH: nat := 32
  const MAX_EVENTS: nat := 5

  datatype MidiEvent = MidiEvent(status: int, data1: int, data2: int)

  const ZERO := MidiEvent(0, 0, 0)

  /** What a frame carries: the writer's total, and the events packed into this frame. */
  datatype MidiFrame = MidiFrame(count: nat, packed: seq<MidiEvent>)

  function PackedCount(f: MidiFrame): nat {
    if f.count < MAX_EVENTS then f.count else MAX_EVENTS
  }

  predicate HasMore(f: MidiFrame) {
    f.count > MAX_EVENTS
  }

  function Take(xs: seq<MidiEvent>, n: nat): (r: seq<MidiEvent>)
    ensures |r| == if |xs| < n then |xs| else n
  {
    if |xs| <= n then xs else xs[..n]
  }

  // ── The link, on values ──

  /** Writer buffer, reader stash, and every event that has crossed the cable since the last delivery. */
  datatype Link = Link(buffer: seq<MidiEvent>, stash: seq<MidiEvent>, passed: seq<MidiEvent>)
  {
    /** The events accepted since the last delivery. */
    function Since(): seq<MidiEvent> { passed + buffer }
  }

  /** A batch handed to the reader, with the events that had been accepted since the batch before. */
  datatype Delivery = Delivery(batch: seq<MidiEvent>, since: seq<MidiEvent>)

  /** Of the events written, those the full buffer does not drop. */
  function Accepted(buffer: seq<MidiEvent>, writes: seq<MidiEvent>): seq<MidiEvent> {
    if |buffer| <= MAX_STASH then Take(writes, MAX_STASH - |buffer|) else []
  }

  function Flushed(buffer: seq<MidiEvent>): MidiFrame {
    MidiFrame(|buffer|, Take(buffer, MAX_EVENTS))
  }

  function Remaining(buffer: seq<MidiEvent>): seq<MidiEvent> {
    buffer[|Take(buffer, MAX_EVENTS)|..]
  }

  /** One sample: the writes, one flush, one read of the flushed frame. */
  function Step(k: Link, writes: seq<MidiEvent>): (Link, Option<Delivery>) {
    var buffer := k.buffer + Accepted(k.buffer, writes);
    var frame := Flushed(buffer);
    var stash, passed := Take(k.stash + frame.packed, MAX_STASH), k.passed + frame.packed;
    if HasMore(frame) then (Link(Remaining(buffer), stash, passed), None)
    else (Link(Remaining(buffer), [], []), Some(Delivery(stash, passed)))
  }

  datatype History = History(link: Link, log: seq<Delivery>, accepted: seq<MidiEvent>)

  const START := History(Link([], [], []), [], [])

  function Run(schedule: seq<seq<MidiEvent>>): History {
    if schedule == [] then START
    else
      var n := |schedule| - 1;
      var h := Run(schedule[..n]);
      var (link, delivery) := Step(h.link, schedule[n]);
      History(link, if delivery.Some? then h.log + [delivery.value] else h.log,
              h.accepted + Accepted(h.link.buffer, schedule[n]))
  }

  /** The stash holds the first 32 of what has passed. */
  ghost predicate Consistent(k: Link) {
    |k.buffer| <= MAX_STASH && k.stash == Take(k.passed, MAX_STASH)
  }

  /** A delivery empties the buffer and hands over the first 32 events accepted since the last one. */
  lemma StepDelivers(k: Link, writes: seq<MidiEvent>)
    requires Consistent(k)
    ensures var (k', d) := Step(k, writes);
            && Consistent(k')
            && (d.Some? ==> k'.Since() == [] && d.value.since == k.Since() + Accepted(k.buffer, writes)
                            && d.value.batch == Take(d.value.since, MAX_STASH))
            && (d.None? ==> k'.Since() == k.Since() + Accepted(k.buffer, writes))
  {
    var buffer := k.buffer + Accepted(k.buffer, writes);
    var frame := Flushed(buffer);
    SplitBuffer(buffer);
    TakeTake(k.passed, frame.packed);
    TakeNothing();
    assert k.Since() + Accepted(k.buffer, writes) == k.passed + buffer;
    assert k.passed + frame.packed + Remaining(buffer) == k.passed + buffer;
    AcceptedFits(k.buffer, writes);
    hide Take, Remaining, Accepted;
  }

  lemma SplitBuffer(buffer: seq<MidiEvent>)
    ensures Flushed(buffer).packed + Remaining(buffer) == buffer && |Remaining(buffer)| <= |buffer|
    ensures !HasMore(Flushed(buffer)) ==> Remaining(buffer) == []
  {}

  lemma AcceptedFits(buffer: seq<MidiEvent>, writes: seq<MidiEvent>)
    requires |buffer| <= MAX_STASH
    ensures |buffer + Accepted(buffer, writes)| <= MAX_STASH
  {}

  lemma TakeTake(a: seq<MidiEvent>, b: seq<MidiEvent>)
    ensures Take(Take(a, MAX_STASH) + b, MAX_STASH) == Take(a + b, MAX_STASH)
  {}

  function Delivered(log: seq<Delivery>): seq<MidiEvent> {
    if log == [] then [] else Delivered(log[..|log| - 1]) + log[|log| - 1].since
  }

  /**
     Every schedule: each batch is the first 32 of the events accepted since the batch before, and those runs of
     accepted events, with what is still in flight, are all the events accepted, in order.
     */
  lemma {:induction false} EveryBatch(schedule: seq<seq<MidiEvent>>)
    ensures var h := Run(schedule);
            && Consistent(h.link)
            && (forall d :: d in h.log ==> d.batch == Take(d.since, MAX_STASH))
            && h.accepted == Delivered(h.log) + h.link.Since()
    decreases |schedule|
  {
    hide Take, Step, Accepted;
    if schedule != [] {
      var n := |schedule| - 1;
      var h, h' := Run(schedule[..n]), Run(schedule);
      EveryBatch(schedule[..n]);
      StepDelivers(h.link, schedule[n]);
      var (link, d) := Step(h.link, schedule[n]);
      if d.Some? {
        assert h'.log[..|h'.log| - 1] == h.log;
        assert Delivered(h'.log) == Delivered(h.log) + d.value.since;
      }
    } else {
      assert Take([], MAX_STASH) == [] by {
        TakeNothing();
      }
    }
  }

  lemma TakeNothing()
    ensures Take([], MAX_STASH) == []
  {}

  /** Nothing accepted is lost while no more than 32 events are accepted between deliveries. */
  lemma NothingLost(schedule: seq<seq<MidiEvent>>, d: Delivery)
    requires d in Run(schedule).log && |d.since| <= MAX_STASH
    ensures d.batch == d.since
  {
    hide Run;
    EveryBatch(schedule);
  }

  /** A batch spelled out: the first 32 of the events accepted since the batch before. */
  lemma BatchSpelled(schedule: seq<seq<MidiEvent>>, d: Delivery)
    requires d in Run(schedule).log
    ensures d.batch == if |d.since| <= 32 then d.since else d.since[..32]
  {
    hide Run;
    EveryBatch(schedule);
  }

  function Quiet(n: nat): seq<seq<MidiEvent>> {
    seq(n, i => [])
  }

  /** How many samples without writes it takes to deliver. */
  function DrainTime(buffered: nat): (n: nat)
    ensures n >= 1 && buffered <= 5 * n && (n > 1 ==> 5 * (n - 1) < buffered)
  {
    if buffered <= MAX_EVENTS then 1 else (buffered + MAX_EVENTS - 1) / MAX_EVENTS
  }

  function StepQuietly(k: Link, n: nat): (Link, Option<Delivery>)
    decreases n
  {
    if n == 0 then (k, None) else if n == 1 then Step(k, []) else StepQuietly(Step(k, []).0, n - 1)
  }

  /** With no further writes, a delivery comes after exactly the drain time, and no sooner; that is at most seven. */
  lemma {:induction false} DrainsInTime(k: Link)
    requires |k.buffer| <= MAX_STASH
    ensures DrainTime(|k.buffer|) <= 7
    ensures StepQuietly(k, DrainTime(|k.buffer|)).1.Some? && StepQuietly(k, DrainTime(|k.buffer|)).0.buffer == []
    ensures forall n :: 0 < n < DrainTime(|k.buffer|) ==> StepQuietly(k, n).1.None?
    decreases |k.buffer|
  {
    assert k.buffer + Accepted(k.buffer, []) == k.buffer;
    if |k.buffer| > MAX_EVENTS {
      var k' := Step(k, []).0;
      assert |k'.buffer| == |k.buffer| - MAX_EVENTS;
      assert DrainTime(|k.buffer|) == DrainTime(|k'.buffer|) + 1;
      DrainsInTime(k');
      forall n | 0 < n < DrainTime(|k.buffer|) ensures StepQuietly(k, n).1.None? {
        if n > 1 {
          assert StepQuietly(k, n) == StepQuietly(k', n - 1);
        }
      }
    }
  }

  // ── The writer and the reader ──

  class MidiOutput {
    const buffer: array<MidiEvent>
    var bufferCount: nat

    ghost predicate Valid()
      reads this
    {
      buffer.Length == MAX_STASH && bufferCount <= MAX_STASH
    }

    ghost function Contents(): seq<MidiEvent>
      requires Valid()
      reads this, buffer
    {
      buffer[..bufferCount]
    }

    constructor ()
      ensures Valid() && Contents() == [] && fresh(buffer)
    {
      buffer := new MidiEvent[MAX_STASH](_ => ZERO);
      bufferCount := 0;
    }

    /** Queues an event; a full buffer drops it. */
    method Write(event: MidiEvent)
      requires Valid()
      modifies this, buffer
      ensures Valid() && Contents() == old(Contents()) + Accepted(old(Contents()), [event])
      ensures Contents() == if |old(Contents())| < 32 then old(Contents()) + [event] else old(Contents())
    {
      if bufferCount < MAX_STASH {
        buffer[bufferCount] := event;
        bufferCount := bufferCount + 1;
      }
    }

    /** Sends up to five events with the total still buffered, and shifts the rest to the front. */
    method Flush() returns (frame: MidiFrame)
      requires Valid()
      modifies this, buffer
      ensures Valid() && frame == Flushed(old(Contents())) && Contents() == Remaining(old(Contents()))
      ensures var was := old(Contents());
              var sent := if |was| < 5 then |was| else 5;
              frame.count == |was| && frame.packed == was[..sent] && Contents() == was[sent..]
    {
      ghost var was := Contents();
      var drain := if bufferCount < MAX_EVENTS then bufferCount else MAX_EVENTS;
      var packed: seq<MidiEvent> := [];
      for i := 0 to drain
        invariant packed == buffer[..i]
        modifies {}
      {
        packed := packed + [buffer[i]];
      }
      frame := MidiFrame(bufferCount, packed);
      for i := drain to bufferCount
        invariant buffer[..i - drain] == was[drain..i]
        invariant buffer[i..] == old(buffer[i..])
        modifies buffer
      {
        buffer[i - drain] := buffer[i];
      }
      bufferCount := bufferCount - drain;
    }
  }

  class MidiInput {
    const stash: array<MidiEvent>
    var stashCount: nat

    ghost predicate Valid()
      reads this
    {
      stash.Length == MAX_STASH && stashCount <= MAX_STASH
    }

    ghost function Contents(): seq<MidiEvent>
      requires Valid()
      reads this, stash
    {
      stash[..stashCount]
    }

    constructor ()
      ensures Valid() && Contents() == [] && fresh(stash)
    {
      stash := new MidiEvent[MAX_STASH](_ => ZERO);
      stashCount := 0;
    }

    /** Stashes the frame's events while more are announced, then delivers the whole stash. */
    method Read(frame: MidiFrame) returns (batch: seq<MidiEvent>)
      requires Valid() && |frame.packed| == PackedCount(frame)
      modifies this, stash
      ensures Valid()
      ensures var all := Take(old(Contents()) + frame.packed, MAX_STASH);
              if HasMore(frame) then batch == [] && Contents() == all else batch == all && Contents() == []
      ensures var seen := old(Contents()) + frame.packed;
              var kept := if |seen| <= 32 then seen else seen[..32];
              if frame.count > 5 then batch == [] && Contents() == kept else batch == kept && Contents() == []
    {
      ghost var was := Contents();
      var packed := PackedCount(frame);
      for i := 0 to packed
        invariant Valid() && Contents() == Take(was + frame.packed[..i], MAX_STASH)
      {
        if stashCount < MAX_STASH {
          stash[stashCount] := frame.packed[i];
          stashCount := stashCount + 1;
        }
      }
      assert frame.packed[..packed] == frame.packed;
      if HasMore(frame) {
        return [];
      }
      batch := stash[..stashCount];
      stashCount := 0;
    }
  }

  /** One sample of a writer and a reader joined by a cable is one step of the link. */
  method PlaySample(output: MidiOutput, input: MidiInput, writes: seq<MidiEvent>, ghost passed: seq<MidiEvent>)
    returns (batch: seq<MidiEvent>, ghost passed': seq<MidiEvent>)
    requires output.Valid() && input.Valid() && output.buffer != input.stash
    modifies output, output.buffer, input, input.stash
    ensures output.Valid() && input.Valid()
    ensures var (k, d) := Step(Link(old(output.Contents()), old(input.Contents()), passed), writes);
            && Link(output.Contents(), input.Contents(), passed') == k
            && batch == if d.Some? then d.value.batch else []
  {
    hide Accepted, Remaining, Take;
    ghost var was, stashed := output.Contents(), input.Contents();
    AcceptNothing(was);
    for i := 0 to |writes|
      invariant output.Valid() && input.Valid() && input.Contents() == stashed
      invariant output.Contents() == was + Accepted(was, writes[..i])
    {
      output.Write(writes[i]);
      AcceptOne(was, writes, i);
    }
    assert writes[..|writes|] == writes;
    ghost var buffer := output.Contents();
    var frame := output.Flush();
    FlushedShape(buffer);
    batch := input.Read(frame);
    passed' := if HasMore(frame) then passed + frame.packed else [];
  }

  lemma FlushedShape(buffer: seq<MidiEvent>)
    ensures |Flushed(buffer).packed| == PackedCount(Flushed(buffer))
  {}

  lemma AcceptNothing(buffer: seq<MidiEvent>)
    ensures buffer + Accepted(buffer, []) == buffer
  {}

  lemma AcceptOne(buffer: seq<MidiEvent>, writes: seq<MidiEvent>, i: nat)
    requires |buffer| <= MAX_STASH && i < |writes|
    ensures var now := buffer + Accepted(buffer, writes[..i]);
            now + Accepted(now, [writes[i]]) == buffer + Accepted(buffer, writes[..i + 1])
  {}
}
