/**
 The two-region cable pool and a tick over it.

 A tick may first update some modules from the pool as it stands; then it runs every module once, in some order.
 The tick theorem: any two orders that put each producer before its fused consumers leave the same module states and
 the same pool, apart from the write sinks that nothing reads.
 */
module Ticks {
  import opened Wrappers

  /** Sixteen lanes; a mono cable uses lane 0, a stereo cable lanes 0 and 1. */
  type CableValue = s: seq<real> | |s| == 16
    witness [0.0, 0.0, 0.0, 0.0, 0.0, 0.0, 0.0, 0.0, 0.0, 0.0, 0.0, 0.0, 0.0, 0.0, 0.0, 0.0]

  const ZERO: CableValue := [0.0, 0.0, 0.0, 0.0, 0.0, 0.0, 0.0, 0.0, 0.0, 0.0, 0.0, 0.0, 0.0, 0.0, 0.0, 0.0]
  const SCRATCH_CAPACITY := 2048
  const MONO_WRITE_SINK := 30
  const POLY_WRITE_SINK := 31

  /** A storage place: half 0 of a scratch slot, or one half of a cycle slot's ping-pong pair. */
  datatype Cell = Cell(idx: nat, half: nat)

  type Pool = map<Cell, CableValue>

  function At(p: Pool, c: Cell): CableValue {
    if c in p then p[c] else ZERO
  }

  datatype Input = Input(idx: nat, fused: bool)

  function ReadCell(input: Input, wi: nat): Cell
    requires wi < 2
  {
    if input.idx < SCRATCH_CAPACITY then Cell(input.idx, 0)
    else Cell(input.idx, if input.fused then wi else 1 - wi)
  }

  function WriteCell(idx: nat, wi: nat): Cell {
    if idx < SCRATCH_CAPACITY then Cell(idx, 0) else Cell(idx, wi)
  }

  predicate IsWriteSink(idx: nat) {
    idx == MONO_WRITE_SINK || idx == POLY_WRITE_SINK
  }

  // ── Modules and ticks on values ──

  /**
     A module: the slots it reads and writes, and its behaviour as a function of its state and the values read. A
     `None` among the results is an output it leaves unwritten this tick. A periodic update changes the state only.
     */
  datatype Module<!S> = Module(ins: seq<Input>, outs: seq<nat>,
                              step: (S, seq<CableValue>) -> (S, seq<Option<CableValue>>),
                              update: (S, seq<CableValue>) -> S)

  datatype Machine<S> = Machine(pool: Pool, states: seq<S>)

  function Reads(p: Pool, ins: seq<Input>, wi: nat): (vs: seq<CableValue>)
    requires wi < 2
    ensures |vs| == |ins|
  {
    seq(|ins|, k requires 0 <= k < |ins| => At(p, ReadCell(ins[k], wi)))
  }

  function WriteAll(p: Pool, outs: seq<nat>, vals: seq<Option<CableValue>>, wi: nat): Pool {
    if |outs| == 0 then p
    else
      var n := |outs| - 1;
      var q := WriteAll(p, outs[..n], vals, wi);
      if n < |vals| && vals[n].Some? then q[WriteCell(outs[n], wi) := vals[n].value] else q
  }

  /** The value a module's writes leave in a cell, if it wrote there. */
  function LastWrite(outs: seq<nat>, vals: seq<Option<CableValue>>, wi: nat, c: Cell): Option<CableValue> {
    if |outs| == 0 then None
    else
      var n := |outs| - 1;
      if n < |vals| && vals[n].Some? && WriteCell(outs[n], wi) == c then vals[n]
      else LastWrite(outs[..n], vals, wi, c)
  }

  /** Of several writes to a cell the last one stays. */
  lemma {:induction false} LastWriteStays(outs: seq<nat>, vals: seq<Option<CableValue>>, wi: nat, c: Cell, k: nat)
    requires k < |outs| && k < |vals| && vals[k].Some? && WriteCell(outs[k], wi) == c
    requires forall j :: k < j < |outs| && j < |vals| && vals[j].Some? ==> WriteCell(outs[j], wi) != c
    ensures LastWrite(outs, vals, wi, c) == vals[k]
  {
    if k < |outs| - 1 {
      LastWriteStays(outs[..|outs| - 1], vals, wi, c, k);
    }
  }

  function Or(w: Option<CableValue>, kept: CableValue): CableValue {
    if w.Some? then w.value else kept
  }

  lemma {:induction false} WriteAllAt(p: Pool, outs: seq<nat>, vals: seq<Option<CableValue>>, wi: nat, c: Cell)
    ensures At(WriteAll(p, outs, vals, wi), c)
         == Or(LastWrite(outs, vals, wi, c), At(p, c))
    ensures (forall idx :: idx in outs ==> WriteCell(idx, wi) != c) ==> LastWrite(outs, vals, wi, c).None?
    ensures WriteAll(p, outs, vals, wi).Keys == p.Keys + WriteAll(map[], outs, vals, wi).Keys
  {
    if |outs| > 0 {
      WriteAllAt(p, outs[..|outs| - 1], vals, wi, c);
      assert outs[|outs| - 1] in outs;
    }
  }

  function Step<S>(mods: seq<Module<S>>, wi: nat, m: Machine<S>, i: nat): (r: Machine<S>)
    requires wi < 2 && i < |mods| == |m.states|
    ensures |r.states| == |mods|
  {
    Machine(WriteAll(m.pool, mods[i].outs, Outcome(mods, wi, m, m, i).1, wi),
            m.states[i := Outcome(mods, wi, m, m, i).0])
  }

  predicate InRange(order: seq<nat>, n: nat) {
    forall k :: 0 <= k < |order| ==> order[k] < n
  }

  function Run<S>(mods: seq<Module<S>>, wi: nat, m: Machine<S>, order: seq<nat>): (r: Machine<S>)
    requires wi < 2 && |m.states| == |mods| && InRange(order, |mods|)
    ensures |r.states| == |mods|
  {
    if |order| == 0 then m
    else Step(mods, wi, Run(mods, wi, m, order[..|order| - 1]), order[|order| - 1])
  }

  /** A read that sees this tick's value: every scratch read, and a fused cycle read. */
  predicate SameTick(input: Input) {
    input.idx < SCRATCH_CAPACITY || input.fused
  }

  /** At most one module writes each slot, except the write sinks, which no module reads. */
  ghost predicate SingleWriter<S(!new)>(mods: seq<Module<S>>) {
    && (forall i, j, idx :: 0 <= i < |mods| && 0 <= j < |mods| && idx in mods[i].outs && idx in mods[j].outs ==>
          i == j || IsWriteSink(idx))
    && (forall i, input :: 0 <= i < |mods| && input in mods[i].ins ==> !IsWriteSink(input.idx))
  }

  /** Module `i` needs a value that module `j` writes in the same tick. */
  ghost predicate FusedEdge<S(!new)>(mods: seq<Module<S>>, j: nat, i: nat)
    requires i < |mods| && j < |mods|
  {
    exists input :: input in mods[i].ins && SameTick(input) && input.idx in mods[j].outs
  }

  /** Each module exactly once, and each producer strictly before its fused consumers. */
  ghost predicate ValidOrder<S(!new)>(mods: seq<Module<S>>, order: seq<nat>) {
    && |order| == |mods| && InRange(order, |mods|)
    && (forall i :: 0 <= i < |mods| ==> i in order)
    && (forall a, b :: 0 <= a < b < |order| ==> order[a] != order[b])
    && (forall a, b :: 0 <= a < |order| && 0 <= b < |order| && FusedEdge(mods, order[a], order[b]) ==> a < b)
  }

  /** Equal on every cell but the write sinks. */
  ghost predicate Agree(p: Pool, q: Pool) {
    forall c: Cell :: !IsWriteSink(c.idx) ==> At(p, c) == At(q, c)
  }

  ghost predicate Writes<S(!new)>(mods: seq<Module<S>>, i: nat, wi: nat, c: Cell)
    requires i < |mods|
  {
    exists idx :: idx in mods[i].outs && WriteCell(idx, wi) == c
  }

  // ── What a tick leaves behind: a fixed point that does not mention the order ──

  /** What module `i` computes from its starting state and the values in the pool of `m`. */
  function Outcome<S>(mods: seq<Module<S>>, wi: nat, start: Machine<S>, m: Machine<S>, i: nat): (S,
                      seq<Option<CableValue>>)
    requires wi < 2 && i < |mods| == |start.states|
  {
    mods[i].step(start.states[i], Reads(m.pool, mods[i].ins, wi))
  }

  /** Module `i` has run: its new state and outputs are what it computes from the values in `pool`. */
  ghost predicate HasRun<S(!new)>(mods: seq<Module<S>>, wi: nat, start: Machine<S>, m: Machine<S>, i: nat)
    requires wi < 2 && i < |mods| == |start.states| == |m.states|
  {
    && m.states[i] == Outcome(mods, wi, start, m, i).0
    && forall c :: Writes(mods, i, wi, c) && !IsWriteSink(c.idx) ==>
         At(m.pool, c) == Or(LastWrite(mods[i].outs, Outcome(mods, wi, start, m, i).1, wi, c), At(start.pool, c))
  }

  ghost predicate WrittenBy<S(!new)>(mods: seq<Module<S>>, wi: nat, ran: seq<nat>, c: Cell)
    requires InRange(ran, |mods|)
  {
    exists k :: 0 <= k < |ran| && Writes(mods, ran[k], wi, c)
  }

  ghost predicate Untouched<S(!new)>(mods: seq<Module<S>>, wi: nat, start: Machine<S>, m: Machine<S>, ran: seq<nat>)
    requires InRange(ran, |mods|)
  {
    forall c :: !WrittenBy(mods, wi, ran, c) ==> At(m.pool, c) == At(start.pool, c)
  }

  /** Running one more module in order does not disturb what an earlier one read or wrote. */
  lemma StepKeepsRun<S(!new)>(mods: seq<Module<S>>, wi: nat, start: Machine<S>, m: Machine<S>, order: seq<nat>,
                       a: nat, k: nat)
    requires wi < 2 && |mods| == |start.states| == |m.states| && SingleWriter(mods) && ValidOrder(mods, order)
    requires a < k < |order| && HasRun(mods, wi, start, m, order[a])
    ensures HasRun(mods, wi, start, Step(mods, wi, m, order[k]), order[a])
  {
    var i, j := order[a], order[k];
    var next := Step(mods, wi, m, j);
    var vals := mods[j].step(m.states[j], Reads(m.pool, mods[j].ins, wi)).1;
    forall input | input in mods[i].ins
      ensures At(next.pool, ReadCell(input, wi)) == At(m.pool, ReadCell(input, wi))
    {
      var c := ReadCell(input, wi);
      WriteAllAt(m.pool, mods[j].outs, vals, wi, c);
      assert !FusedEdge(mods, order[k], order[a]);
    }
    assert Reads(next.pool, mods[i].ins, wi) == Reads(m.pool, mods[i].ins, wi);
    forall c | Writes(mods, i, wi, c) && !IsWriteSink(c.idx) ensures At(next.pool, c) == At(m.pool, c) {
      WriteAllAt(m.pool, mods[j].outs, vals, wi, c);
      var idx :| idx in mods[i].outs && WriteCell(idx, wi) == c;
      if idx' :| idx' in mods[j].outs && WriteCell(idx', wi) == c {
        assert idx == idx';
      }
    }
  }

  /** The module just run has run: nothing it reads in this tick is written by itself. */
  lemma StepRuns<S(!new)>(mods: seq<Module<S>>, wi: nat, start: Machine<S>, m: Machine<S>, order: seq<nat>, k: nat)
    requires wi < 2 && |mods| == |start.states| == |m.states| && SingleWriter(mods) && ValidOrder(mods, order)
    requires k < |order| && m.states[order[k]] == start.states[order[k]]
    requires Untouched(mods, wi, start, m, order[..k])
    ensures HasRun(mods, wi, start, Step(mods, wi, m, order[k]), order[k])
  {
    var j := order[k];
    var next := Step(mods, wi, m, j);
    var vals := mods[j].step(m.states[j], Reads(m.pool, mods[j].ins, wi)).1;
    forall input | input in mods[j].ins
      ensures At(next.pool, ReadCell(input, wi)) == At(m.pool, ReadCell(input, wi))
    {
      var c := ReadCell(input, wi);
      WriteAllAt(m.pool, mods[j].outs, vals, wi, c);
      assert !FusedEdge(mods, order[k], order[k]);
    }
    assert Reads(next.pool, mods[j].ins, wi) == Reads(m.pool, mods[j].ins, wi);
    forall c | Writes(mods, j, wi, c) && !IsWriteSink(c.idx)
      ensures At(next.pool, c) == Or(LastWrite(mods[j].outs, vals, wi, c), At(start.pool, c))
    {
      WriteAllAt(m.pool, mods[j].outs, vals, wi, c);
      var idx :| idx in mods[j].outs && WriteCell(idx, wi) == c;
      forall a | 0 <= a < k ensures !Writes(mods, order[..k][a], wi, c) {
        assert order[a] != order[k];
      }
    }
  }

  /** After any prefix of a valid order, the modules run so far satisfy the fixed point, the others are untouched. */
  lemma {:induction false} RunReaches<S(!new)>(mods: seq<Module<S>>, wi: nat, start: Machine<S>, order: seq<nat>,
                                        k: nat)
    requires wi < 2 && |mods| == |start.states| && SingleWriter(mods) && ValidOrder(mods, order) && k <= |order|
    ensures var m := Run(mods, wi, start, order[..k]);
            && (forall a :: 0 <= a < k ==> HasRun(mods, wi, start, m, order[a]))
            && (forall a :: k <= a < |order| ==> m.states[order[a]] == start.states[order[a]])
            && Untouched(mods, wi, start, m, order[..k])
  {
    if k > 0 {
      RunReaches(mods, wi, start, order, k - 1);
      assert order[..k][..k - 1] == order[..k - 1];
      var m := Run(mods, wi, start, order[..k - 1]);
      var j := order[k - 1];
      var next := Step(mods, wi, m, j);
      forall a | 0 <= a < k ensures HasRun(mods, wi, start, next, order[a]) {
        if a < k - 1 {
          StepKeepsRun(mods, wi, start, m, order, a, k - 1);
        } else {
          StepRuns(mods, wi, start, m, order, a);
        }
      }
      StepUntouched(mods, wi, start, m, order, k - 1);
    }
  }

  lemma StepUntouched<S(!new)>(mods: seq<Module<S>>, wi: nat, start: Machine<S>, m: Machine<S>, order: seq<nat>, k: nat)
    requires wi < 2 && |mods| == |start.states| == |m.states| && InRange(order, |mods|) && k < |order|
    requires Untouched(mods, wi, start, m, order[..k])
    ensures Untouched(mods, wi, start, Step(mods, wi, m, order[k]), order[..k + 1])
  {
    var j := order[k];
    var vals := mods[j].step(m.states[j], Reads(m.pool, mods[j].ins, wi)).1;
    forall c | !WrittenBy(mods, wi, order[..k + 1], c)
      ensures At(Step(mods, wi, m, j).pool, c) == At(start.pool, c)
    {
      WriteAllAt(m.pool, mods[j].outs, vals, wi, c);
      assert order[..k + 1][k] == j;
      forall a | 0 <= a < k ensures !Writes(mods, order[..k][a], wi, c) {
        assert order[..k][a] == order[..k + 1][a];
      }
    }
  }

  /** A machine that satisfies the fixed point for every module, and is untouched where nothing writes. */
  ghost predicate IsTick<S(!new)>(mods: seq<Module<S>>, wi: nat, start: Machine<S>, m: Machine<S>)
    requires wi < 2 && |mods| == |start.states|
  {
    && |m.states| == |mods|
    && (forall i :: 0 <= i < |mods| ==> HasRun(mods, wi, start, m, i))
    && (forall c :: (forall i :: 0 <= i < |mods| ==> !Writes(mods, i, wi, c)) ==> At(m.pool, c) == At(start.pool, c))
  }

  lemma RunIsTick<S(!new)>(mods: seq<Module<S>>, wi: nat, start: Machine<S>, order: seq<nat>)
    requires wi < 2 && |mods| == |start.states| && SingleWriter(mods) && ValidOrder(mods, order)
    ensures IsTick(mods, wi, start, Run(mods, wi, start, order))
  {
    hide HasRun;
    RunReaches(mods, wi, start, order, |order|);
    assert order[..|order|] == order;
    var m := Run(mods, wi, start, order);
    forall i | 0 <= i < |mods| ensures HasRun(mods, wi, start, m, i) {
      assert i in order;
      var a :| 0 <= a < |order| && order[a] == i;
    }
  }

  /** The fixed point has one solution: along a valid order each module reads the same values in both. */
  lemma {:induction false} TickUniqueUpTo<S(!new)>(mods: seq<Module<S>>, wi: nat, start: Machine<S>, start': Machine<S>,
                                                  m: Machine<S>, m': Machine<S>, order: seq<nat>, k: nat)
    requires wi < 2 && |mods| == |start.states| && SingleWriter(mods) && ValidOrder(mods, order) && k <= |order|
    requires start.states == start'.states && Agree(start.pool, start'.pool)
    requires IsTick(mods, wi, start, m) && IsTick(mods, wi, start', m')
    ensures forall a :: 0 <= a < k ==> m.states[order[a]] == m'.states[order[a]]
    ensures forall a, c :: 0 <= a < k && Writes(mods, order[a], wi, c) && !IsWriteSink(c.idx) ==>
              At(m.pool, c) == At(m'.pool, c)
  {
    if k > 0 {
      TickUniqueUpTo(mods, wi, start, start', m, m', order, k - 1);
      var i := order[k - 1];
      forall input | input in mods[i].ins
        ensures At(m.pool, ReadCell(input, wi)) == At(m'.pool, ReadCell(input, wi))
      {
        SameRead(mods, wi, start, start', m, m', order, k - 1, input);
      }
      assert Reads(m.pool, mods[i].ins, wi) == Reads(m'.pool, mods[i].ins, wi);
      assert HasRun(mods, wi, start, m, i) && HasRun(mods, wi, start', m', i);
    }
  }

  lemma SameRead<S(!new)>(mods: seq<Module<S>>, wi: nat, start: Machine<S>, start': Machine<S>,
                          m: Machine<S>, m': Machine<S>, order: seq<nat>, k: nat, input: Input)
    requires wi < 2 && |mods| == |start.states| && SingleWriter(mods) && ValidOrder(mods, order) && k < |order|
    requires start.states == start'.states && Agree(start.pool, start'.pool)
    requires IsTick(mods, wi, start, m) && IsTick(mods, wi, start', m')
    requires forall a, c :: 0 <= a < k && Writes(mods, order[a], wi, c) && !IsWriteSink(c.idx) ==>
               At(m.pool, c) == At(m'.pool, c)
    requires input in mods[order[k]].ins
    ensures At(m.pool, ReadCell(input, wi)) == At(m'.pool, ReadCell(input, wi))
  {
    hide HasRun;
    var c := ReadCell(input, wi);
    if j :| 0 <= j < |mods| && Writes(mods, j, wi, c) {
      assert j in order;
      var b :| 0 <= b < |order| && order[b] == j;
      var idx :| idx in mods[j].outs && WriteCell(idx, wi) == c;
      assert FusedEdge(mods, order[b], order[k]);
    }
  }

  /** Schedule independence of one tick. */
  lemma TickOrderIrrelevant<S(!new)>(mods: seq<Module<S>>, wi: nat, start: Machine<S>, start': Machine<S>,
                                     order: seq<nat>, order': seq<nat>)
    requires wi < 2 && |mods| == |start.states| && SingleWriter(mods)
    requires ValidOrder(mods, order) && ValidOrder(mods, order')
    requires start.states == start'.states && Agree(start.pool, start'.pool)
    ensures var m, m' := Run(mods, wi, start, order), Run(mods, wi, start', order');
            m.states == m'.states && Agree(m.pool, m'.pool)
  {
    hide HasRun, Run, FusedEdge;
    var m, m' := Run(mods, wi, start, order), Run(mods, wi, start', order');
    RunIsTick(mods, wi, start, order);
    RunIsTick(mods, wi, start', order');
    TickUniqueUpTo(mods, wi, start, start', m, m', order, |order|);
    forall i | 0 <= i < |mods| ensures m.states[i] == m'.states[i] {
      assert i in order;
      var a :| 0 <= a < |order| && order[a] == i;
    }
    forall c: Cell | !IsWriteSink(c.idx) ensures At(m.pool, c) == At(m'.pool, c) {
      if i :| 0 <= i < |mods| && Writes(mods, i, wi, c) {
        assert i in order;
      var a :| 0 <= a < |order| && order[a] == i;
      }
    }
  }

  // ── Periodic updates ──

  predicate NoRepeats(list: seq<nat>) {
    forall a, b :: 0 <= a < b < |list| ==> list[a] != list[b]
  }

  /** Updates the listed modules from the pool, which no update writes. */
  function Refresh<S>(mods: seq<Module<S>>, wi: nat, m: Machine<S>, list: seq<nat>): (r: Machine<S>)
    requires wi < 2 && |m.states| == |mods| && InRange(list, |mods|)
    ensures |r.states| == |mods| && r.pool == m.pool
  {
    if |list| == 0 then m
    else
      var r, i := Refresh(mods, wi, m, list[..|list| - 1]), list[|list| - 1];
      Machine(m.pool, r.states[i := mods[i].update(r.states[i], Reads(m.pool, mods[i].ins, wi))])
  }

  /** Each listed module is updated once, from its own state before; the others are left alone. */
  lemma {:induction false} RefreshAt<S>(mods: seq<Module<S>>, wi: nat, m: Machine<S>, list: seq<nat>, i: nat)
    requires wi < 2 && i < |mods| == |m.states| && InRange(list, |mods|) && NoRepeats(list)
    ensures Refresh(mods, wi, m, list).states[i]
            == if i in list then mods[i].update(m.states[i], Reads(m.pool, mods[i].ins, wi)) else m.states[i]
  {
    if |list| > 0 {
      var front, last := list[..|list| - 1], list[|list| - 1];
      RefreshAt(mods, wi, m, front, i);
      assert list == front + [last];
    }
  }

  /** The order of the periodic updates does not matter. */
  lemma RefreshOrderIrrelevant<S(!new)>(mods: seq<Module<S>>, wi: nat, m: Machine<S>, m': Machine<S>, list: seq<nat>,
                                        list': seq<nat>)
    requires wi < 2 && |mods| == |m.states| && SingleWriter(mods) && m.states == m'.states && Agree(m.pool, m'.pool)
    requires InRange(list, |mods|) && NoRepeats(list) && InRange(list', |mods|) && NoRepeats(list')
    requires forall i :: i in list <==> i in list'
    ensures Refresh(mods, wi, m, list).states == Refresh(mods, wi, m', list').states
  {
    forall i | 0 <= i < |mods| ensures Refresh(mods, wi, m, list).states[i] == Refresh(mods, wi, m', list').states[i] {
      RefreshAt(mods, wi, m, list, i);
      RefreshAt(mods, wi, m', list', i);
      SameReads(mods, wi, m.pool, m'.pool, i);
    }
  }

  lemma SameReads<S(!new)>(mods: seq<Module<S>>, wi: nat, p: Pool, q: Pool, i: nat)
    requires wi < 2 && i < |mods| && SingleWriter(mods) && Agree(p, q)
    ensures Reads(p, mods[i].ins, wi) == Reads(q, mods[i].ins, wi)
  {
    var ins := mods[i].ins;
    forall k | 0 <= k < |ins| ensures At(p, ReadCell(ins[k], wi)) == At(q, ReadCell(ins[k], wi)) {
      assert ins[k] in ins;
      assert !IsWriteSink(ReadCell(ins[k], wi).idx);
    }
  }

  /** One tick: the periodic updates if they are due, and then every module in order. */
  function TickOf<S>(mods: seq<Module<S>>, wi: nat, m: Machine<S>, due: bool, list: seq<nat>, order: seq<nat>):
    (r: Machine<S>)
    requires wi < 2 && |m.states| == |mods| && InRange(list, |mods|) && InRange(order, |mods|)
    ensures |r.states| == |mods|
  {
    Run(mods, wi, if due then Refresh(mods, wi, m, list) else m, order)
  }

  /** Before the modules run: the listed ones updated once, from the pool as it stands, if updates are due. */
  ghost predicate UpdatedOnce<S>(mods: seq<Module<S>>, wi: nat, start: Machine<S>, due: bool, list: seq<nat>,
                                 m: Machine<S>)
    requires wi < 2 && |mods| == |start.states|
  {
    && m.pool == start.pool && |m.states| == |mods|
    && forall i :: 0 <= i < |mods| ==>
         m.states[i] == if due && i in list then mods[i].update(start.states[i], Reads(start.pool, mods[i].ins, wi))
                        else start.states[i]
  }

  /** A tick is the updates and then, from the states they leave, the one solution of the tick equations. */
  lemma TickPhases<S(!new)>(mods: seq<Module<S>>, wi: nat, start: Machine<S>, due: bool, list: seq<nat>,
                            order: seq<nat>)
    requires wi < 2 && |mods| == |start.states| && SingleWriter(mods) && ValidOrder(mods, order)
    requires InRange(list, |mods|) && NoRepeats(list)
    ensures exists m :: UpdatedOnce(mods, wi, start, due, list, m)
                        && IsTick(mods, wi, m, TickOf(mods, wi, start, due, list, order))
  {
    hide Run, IsTick, SingleWriter, ValidOrder;
    var m := if due then Refresh(mods, wi, start, list) else start;
    forall i | 0 <= i < |mods|
      ensures m.states[i] == if due && i in list
                             then mods[i].update(start.states[i], Reads(start.pool, mods[i].ins, wi))
                             else start.states[i]
    {
      RefreshAt(mods, wi, start, list, i);
    }
    ValidInRange(mods, order);
    RunIsTick(mods, wi, m, order);
    assert UpdatedOnce(mods, wi, start, due, list, m);
  }

  lemma ValidInRange<S(!new)>(mods: seq<Module<S>>, order: seq<nat>)
    requires ValidOrder(mods, order)
    ensures InRange(order, |mods|)
  {}

  // ── Runs of many ticks, with the write index alternating and updates at every interval ──

  /** The order of the periodic updates and the order of the modules. */
  datatype Schedule = Schedule(list: seq<nat>, order: seq<nat>)

  ghost predicate ValidSchedule<S(!new)>(mods: seq<Module<S>>, periodic: set<nat>, s: Schedule) {
    && ValidOrder(mods, s.order) && InRange(s.list, |mods|) && NoRepeats(s.list)
    && forall i :: i in s.list <==> i in periodic
  }

  ghost predicate ValidSchedules<S(!new)>(mods: seq<Module<S>>, periodic: set<nat>, schedules: seq<Schedule>) {
    forall t :: 0 <= t < |schedules| ==> ValidSchedule(mods, periodic, schedules[t])
  }

  /** Tick `t` writes half `t % 2`; updates are due in every tick that is a multiple of the interval. */
  ghost function RunTicks<S(!new)>(mods: seq<Module<S>>, periodic: set<nat>, interval: nat, start: Machine<S>,
                                   schedules: seq<Schedule>): (r: Machine<S>)
    requires interval > 0 && |start.states| == |mods| && ValidSchedules(mods, periodic, schedules)
    ensures |r.states| == |mods|
  {
    if |schedules| == 0 then start
    else
      var t := |schedules| - 1;
      TickOf(mods, t % 2, RunTicks(mods, periodic, interval, start, schedules[..t]), t % interval == 0,
             schedules[t].list, schedules[t].order)
  }

  /** Schedule independence of whole runs: each tick of each run may use its own orders. */
  lemma {:induction false} RunsOrderIrrelevant<S(!new)>(mods: seq<Module<S>>, periodic: set<nat>, interval: nat,
                                                       start: Machine<S>, schedules: seq<Schedule>,
                                                       schedules': seq<Schedule>)
    requires interval > 0 && |start.states| == |mods| && SingleWriter(mods) && |schedules| == |schedules'|
    requires ValidSchedules(mods, periodic, schedules) && ValidSchedules(mods, periodic, schedules')
    ensures var m := RunTicks(mods, periodic, interval, start, schedules);
            var m' := RunTicks(mods, periodic, interval, start, schedules');
            m.states == m'.states && Agree(m.pool, m'.pool)
  {
    if |schedules| > 0 {
      hide ValidOrder, Run, Refresh, SingleWriter;
      var t := |schedules| - 1;
      RunsOrderIrrelevant(mods, periodic, interval, start, schedules[..t], schedules'[..t]);
      var m := RunTicks(mods, periodic, interval, start, schedules[..t]);
      var m' := RunTicks(mods, periodic, interval, start, schedules'[..t]);
      var s, s' := schedules[t], schedules'[t];
      RefreshOrderIrrelevant(mods, t % 2, m, m', s.list, s'.list);
      var due := t % interval == 0;
      TickOrderIrrelevant(mods, t % 2, if due then Refresh(mods, t % 2, m, s.list) else m,
                          if due then Refresh(mods, t % 2, m', s'.list) else m', s.order, s'.order);
    }
  }

  /** No module of a tick writes the other half of a cycle slot. */
  lemma {:induction false} OtherHalfKept<S(!new)>(mods: seq<Module<S>>, wi: nat, m: Machine<S>, order: seq<nat>,
                                           idx: nat)
    requires wi < 2 && |m.states| == |mods| && InRange(order, |mods|) && idx >= SCRATCH_CAPACITY
    ensures At(Run(mods, wi, m, order).pool, Cell(idx, 1 - wi)) == At(m.pool, Cell(idx, 1 - wi))
  {
    if |order| > 0 {
      var before := Run(mods, wi, m, order[..|order| - 1]);
      OtherHalfKept(mods, wi, m, order[..|order| - 1], idx);
      var i := order[|order| - 1];
      var r := mods[i].step(before.states[i], Reads(before.pool, mods[i].ins, wi));
      WriteAllAt(before.pool, mods[i].outs, r.1, wi, Cell(idx, 1 - wi));
    }
  }

  /**
     A delayed read anywhere in tick t+1 returns what the producer wrote in tick t, if it wrote; otherwise the slot
     still holds what that half held before tick t, which is two ticks old or older.
     */
  lemma DelayedReadIsPreviousWrite<S(!new)>(mods: seq<Module<S>>, start: Machine<S>, order: seq<nat>, next: seq<nat>,
                                            wi: nat, j: nat, idx: nat)
    requires wi < 2 && |start.states| == |mods| && SingleWriter(mods) && ValidOrder(mods, order)
    requires j < |mods| && idx in mods[j].outs && idx >= SCRATCH_CAPACITY && InRange(next, |mods|)
    ensures var m := Run(mods, wi, start, order);
            At(Run(mods, 1 - wi, m, next).pool, ReadCell(Input(idx, false), 1 - wi))
            == Or(LastWrite(mods[j].outs, Outcome(mods, wi, start, m, j).1, wi, Cell(idx, wi)),
                  At(start.pool, Cell(idx, wi)))
  {
    var m := Run(mods, wi, start, order);
    RunIsTick(mods, wi, start, order);
    assert HasRun(mods, wi, start, m, j);
    OtherHalfKept(mods, 1 - wi, m, next, idx);
    assert Writes(mods, j, wi, Cell(idx, wi));
  }

  /**
     What a periodic update sees, two ticks after `start`: through a scratch slot or a delayed cable what the producer
     wrote in the tick before, but through a fused cable on a cycle slot what it wrote in the tick before that, since
     the half it will read later in this tick has not been written yet.
     */
  lemma UpdateReads<S(!new)>(mods: seq<Module<S>>, start: Machine<S>, middle: Machine<S>, first: seq<nat>,
                             second: seq<nat>, wi: nat, j: nat, idx: nat)
    requires wi < 2 && |start.states| == |mods| == |middle.states| && SingleWriter(mods)
    requires ValidOrder(mods, first) && ValidOrder(mods, second) && j < |mods| && idx in mods[j].outs
    requires middle.pool == Run(mods, wi, start, first).pool && !IsWriteSink(idx)
    ensures var m, m' := Run(mods, wi, start, first), Run(mods, 1 - wi, middle, second);
            var earlier := LastWrite(mods[j].outs, Outcome(mods, wi, start, m, j).1, wi, Cell(idx, wi));
            var vals := Outcome(mods, 1 - wi, middle, m', j).1;
            var later := LastWrite(mods[j].outs, vals, 1 - wi, WriteCell(idx, 1 - wi));
            && At(m'.pool, ReadCell(Input(idx, false), wi)) == Or(later, At(middle.pool, WriteCell(idx, 1 - wi)))
            && (idx < SCRATCH_CAPACITY ==>
                  At(m'.pool, ReadCell(Input(idx, true), wi)) == Or(later, At(middle.pool, WriteCell(idx, 1 - wi))))
            && (idx >= SCRATCH_CAPACITY ==>
                  At(m'.pool, ReadCell(Input(idx, true), wi)) == Or(earlier, At(start.pool, Cell(idx, wi))))
  {
    var m, m' := Run(mods, wi, start, first), Run(mods, 1 - wi, middle, second);
    RunIsTick(mods, wi, start, first);
    RunIsTick(mods, 1 - wi, middle, second);
    assert HasRun(mods, wi, start, m, j) && HasRun(mods, 1 - wi, middle, m', j);
    assert Writes(mods, j, wi, WriteCell(idx, wi)) && Writes(mods, j, 1 - wi, WriteCell(idx, 1 - wi));
    if idx >= SCRATCH_CAPACITY {
      OtherHalfKept(mods, 1 - wi, middle, second, idx);
    }
  }
}
