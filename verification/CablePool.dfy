/** The cable pool as two in-place buffers, its typed accessors, and the tick loop over it. */
module CablePool {
  import opened Powers
  import opened Wrappers
  import opened Ticks
  import CableMaps
  import Reals

  /** A cycle slot's ping-pong pair. */
  datatype Pair = Pair(zero: CableValue, one: CableValue)

  /** A typed input: where to read, and the map applied to each lane. */
  datatype Port = Port(input: Input, cable: CableMaps.CableMap, broadcastFromMono: bool)

  /** A mono value: lane 0, the others silent. */
  function Lane0(v: real): (c: CableValue)
    ensures c[0] == v && forall ch :: 1 <= ch < 16 ==> c[ch] == 0.0
  {
    [v, 0.0, 0.0, 0.0, 0.0, 0.0, 0.0, 0.0, 0.0, 0.0, 0.0, 0.0, 0.0, 0.0, 0.0, 0.0]
  }

  class CablePool {
    const scratch: array<CableValue>
    const cycle: array<Pair>
    const wi: nat

    constructor (scratch: array<CableValue>, cycle: array<Pair>, wi: nat)
      requires wi < 2 && scratch.Length <= SCRATCH_CAPACITY
      ensures Valid() && this.scratch == scratch && this.cycle == cycle && this.wi == wi
    {
      this.scratch, this.cycle, this.wi := scratch, cycle, wi;
    }

    predicate Valid() {
      wi < 2 && scratch.Length <= SCRATCH_CAPACITY
    }

    /** The slot exists in its region. */
    predicate Has(idx: nat) {
      if idx < SCRATCH_CAPACITY then idx < scratch.Length else idx - SCRATCH_CAPACITY < cycle.Length
    }

    ghost function Cells(): set<Cell> {
      (set i | 0 <= i < scratch.Length :: Cell(i, 0)) +
      (set i, h | SCRATCH_CAPACITY <= i < SCRATCH_CAPACITY + cycle.Length && 0 <= h < 2 :: Cell(i, h))
    }

    ghost function Stored(c: Cell): CableValue
      requires Valid() && c in Cells()
      reads scratch, cycle
    {
      if c.idx < SCRATCH_CAPACITY then scratch[c.idx]
      else if c.half == 0 then cycle[c.idx - SCRATCH_CAPACITY].zero
      else cycle[c.idx - SCRATCH_CAPACITY].one
    }

    /** The contents of both regions as one map from cells. */
    ghost function View(): Pool
      requires Valid()
      reads scratch, cycle
    {
      map c | c in Cells() :: Stored(c)
    }

    function ReadRaw(input: Input): (v: CableValue)
      requires Valid() && Has(input.idx)
      reads scratch, cycle
      ensures v == At(View(), ReadCell(input, wi))
      ensures input.idx < SCRATCH_CAPACITY ==> v == scratch[input.idx]
      ensures input.idx >= SCRATCH_CAPACITY ==>
                var pair := cycle[input.idx - SCRATCH_CAPACITY];
                v == if (wi == 0) == input.fused then pair.zero else pair.one
    {
      if input.idx < SCRATCH_CAPACITY then scratch[input.idx]
      else
        var si := if input.fused then wi else 1 - wi;
        var pair := cycle[input.idx - SCRATCH_CAPACITY];
        assert ReadCell(input, wi) == Cell(input.idx, si) && ReadCell(input, wi) in Cells();
        if si == 0 then pair.zero else pair.one
    }

    method WriteRaw(idx: nat, value: CableValue)
      requires Valid() && Has(idx)
      modifies scratch, cycle
      ensures View() == old(View())[WriteCell(idx, wi) := value]
      ensures idx < SCRATCH_CAPACITY ==> scratch[idx] == value
      ensures idx >= SCRATCH_CAPACITY ==>
                var pair := cycle[idx - SCRATCH_CAPACITY];
                value == if wi == 0 then pair.zero else pair.one
    {
      if idx < SCRATCH_CAPACITY {
        scratch[idx] := value;
      } else {
        var i := idx - SCRATCH_CAPACITY;
        assert WriteCell(idx, wi) in Cells();
        cycle[i] := if wi == 0 then cycle[i].(zero := value) else cycle[i].(one := value);
      }
    }

    /** The value a mono read returns: lane 0 through the input's cable map. */
    function ReadMono(port: Port): (y: real)
      requires Valid() && Has(port.input.idx) && CableMaps.Valid(port.cable)
      reads scratch, cycle
      ensures CableMaps.Apply(port.cable, At(View(), ReadCell(port.input, wi))[0]) == Some(y)
    {
      Through(port.cable, ReadRaw(port.input)[0])
    }

    static function Through(m: CableMaps.CableMap, v: real): (y: real)
      requires CableMaps.Valid(m)
      ensures CableMaps.Apply(m, v) == Some(y)
    {
      ThroughIsApply(m, v);
      var y := v * m.scale + m.offset;
      match m.clip
      case Some((lo, hi)) => Reals.Clamp(y, lo, hi)
      case None => y
    }

    static lemma ThroughIsApply(m: CableMaps.CableMap, v: real)
      ensures CableMaps.Affine(m.scale, m.offset, v) == v * m.scale + m.offset
    {}

    /** A poly read maps every lane; the fast path for an identity map returns the lanes unchanged. */
    function ReadPoly(port: Port): (ys: CableValue)
      requires Valid() && Has(port.input.idx) && CableMaps.Valid(port.cable)
      reads scratch, cycle
      ensures forall ch :: 0 <= ch < 16 ==>
        CableMaps.Apply(port.cable, At(View(), ReadCell(port.input, wi))[ch]) == Some(ys[ch])
    {
      var channels := ReadRaw(port.input);
      var m := port.cable;
      if m.scale == 1.0 && m.offset == 0.0 && m.clip.None? then
        UnitMap(m);
        channels
      else
        seq(16, ch requires 0 <= ch < 16 => Through(m, channels[ch]))
    }

    static lemma UnitMap(m: CableMaps.CableMap)
      requires m.scale == 1.0 && m.offset == 0.0 && m.clip.None?
      ensures forall x :: CableMaps.Apply(m, x) == Some(x)
    {}

    /** A stereo read: lanes 0 and 1, or lane 0 twice when a mono cable feeds a stereo input. */
    function ReadStereo(port: Port): (lr: (real, real))
      requires Valid() && Has(port.input.idx) && CableMaps.Valid(port.cable)
      reads scratch, cycle
      ensures var slot := At(View(), ReadCell(port.input, wi));
              && CableMaps.Apply(port.cable, slot[0]) == Some(lr.0)
              && CableMaps.Apply(port.cable, slot[if port.broadcastFromMono then 0 else 1]) == Some(lr.1)
    {
      var slot := ReadRaw(port.input);
      if port.broadcastFromMono then
        var s := Through(port.cable, slot[0]);
        (s, s)
      else
        (Through(port.cable, slot[0]), Through(port.cable, slot[1]))
    }

    method WriteMono(idx: nat, value: real)
      requires Valid() && Has(idx)
      modifies scratch, cycle
      ensures View() == old(View())[WriteCell(idx, wi) := Lane0(value)]
    {
      WriteRaw(idx, Lane0(value));
    }

    method WritePoly(idx: nat, value: CableValue)
      requires Valid() && Has(idx)
      modifies scratch, cycle
      ensures View() == old(View())[WriteCell(idx, wi) := value]
    {
      WriteRaw(idx, value);
    }

    method WriteStereo(idx: nat, left: real, right: real)
      requires Valid() && Has(idx)
      modifies scratch, cycle
      ensures View() == old(View())[WriteCell(idx, wi) := Lane0(left)[1 := right]]
    {
      WriteRaw(idx, Lane0(left)[1 := right]);
    }

    /** One module: reads its inputs, computes, and writes its outputs in place. */
    method RunModule<S>(mods: seq<Module<S>>, states: array<S>, i: nat)
      requires Valid() && i < |mods| == states.Length && states as object != scratch && states as object != cycle
      requires forall input :: input in mods[i].ins ==> Has(input.idx)
      requires forall idx :: idx in mods[i].outs ==> Has(idx)
      modifies scratch, cycle, states
      ensures states.Length == |mods|
      ensures Machine(View(), states[..]) == Step(mods, wi, old(Machine(View(), states[..])), i)
    {
      hide View;
      ghost var m := Machine(View(), states[..]);
      var ins, outs := mods[i].ins, mods[i].outs;
      var read: seq<CableValue> := [];
      for k := 0 to |ins|
        invariant |read| == k && forall j :: 0 <= j < k ==> read[j] == At(m.pool, ReadCell(ins[j], wi))
      {
        read := read + [ReadRaw(ins[k])];
      }
      assert read == Reads(m.pool, ins, wi);
      var (s, vals) := mods[i].step(states[i], read);
      states[i] := s;
      for k := 0 to |outs|
        invariant View() == WriteAll(m.pool, outs[..k], vals, wi) && states[..] == m.states[i := s]
      {
        assert outs[..k + 1][..k] == outs[..k];
        if k < |vals| && vals[k].Some? {
          WriteRaw(outs[k], vals[k].value);
        }
      }
      assert outs[..|outs|] == outs;
    }

    /** A periodic update: reads the module's inputs and changes its state, not the pool. */
    method UpdateModule<S>(mods: seq<Module<S>>, states: array<S>, i: nat)
      requires Valid() && i < |mods| == states.Length && states as object != scratch && states as object != cycle
      requires forall input :: input in mods[i].ins ==> Has(input.idx)
      modifies states
      ensures View() == old(View())
      ensures states[..] == old(states[..])[i := mods[i].update(old(states[i]), Reads(View(), mods[i].ins, wi))]
    {
      hide View;
      var ins := mods[i].ins;
      var read: seq<CableValue> := [];
      for k := 0 to |ins|
        invariant |read| == k && forall j :: 0 <= j < k ==> read[j] == At(View(), ReadCell(ins[j], wi))
      {
        read := read + [ReadRaw(ins[k])];
      }
      assert read == Reads(View(), ins, wi);
      states[i] := mods[i].update(states[i], read);
    }

    /**
     A tick over the buffers is `TickOf`: the periodic updates if the counter is at zero, and then every module in
     order. The counter then counts on, around the interval.
     */
    method Tick<S(!new)>(mods: seq<Module<S>>, states: array<S>, list: seq<nat>, order: seq<nat>, counter: nat,
                         interval: nat)
      returns (counter': nat)
      requires Valid() && |mods| == states.Length && InRange(list, |mods|) && InRange(order, |mods|) && interval > 0
      requires states as object != scratch && states as object != cycle
      requires forall m :: m in mods ==>
                 (forall input :: input in m.ins ==> Has(input.idx)) && (forall idx :: idx in m.outs ==> Has(idx))
      modifies scratch, cycle, states
      ensures Machine(View(), states[..])
              == TickOf(mods, wi, old(Machine(View(), states[..])), counter == 0, list, order)
      ensures SingleWriter(mods) && ValidOrder(mods, order) && NoRepeats(list) ==>
                exists m :: UpdatedOnce(mods, wi, old(Machine(View(), states[..])), counter == 0, list, m)
                            && IsTick(mods, wi, m, Machine(View(), states[..]))
      ensures counter' == (counter + 1) % interval
    {
      hide View, Step, IsTick, UpdatedOnce, SingleWriter, ValidOrder;
      ghost var start := Machine(View(), states[..]);
      if counter == 0 {
        for k := 0 to |list|
          invariant Machine(View(), states[..]) == Refresh(mods, wi, start, list[..k])
        {
          assert list[..k + 1][..k] == list[..k];
          assert mods[list[k]] in mods;
          UpdateModule(mods, states, list[k]);
        }
        assert list[..|list|] == list;
      }
      counter' := (counter + 1) % interval;
      ghost var m := Machine(View(), states[..]);
      for k := 0 to |order|
        invariant Machine(View(), states[..]) == Run(mods, wi, m, order[..k])
      {
        assert order[..k + 1][..k] == order[..k];
        assert mods[order[k]] in mods;
        RunModule(mods, states, order[k]);
      }
      assert order[..|order|] == order;
      if SingleWriter(mods) && ValidOrder(mods, order) && NoRepeats(list) {
        TickPhases(mods, wi, start, counter == 0, list, order);
      }
    }
  }

  /** From zero, the counter after `t` ticks is `t` around the interval: updates are due at its multiples. */
  lemma CounterIsTick(t: nat, interval: nat)
    requires interval > 0
    ensures (t % interval + 1) % interval == (t + 1) % interval
  {
    if t % interval + 1 == interval {
      DivModUnique(t + 1, interval, t / interval + 1, 0);
    } else {
      DivModUnique(t + 1, interval, t / interval, t % interval + 1);
    }
  }
}
