/**
 Row build for a tracker channel: one left-to-right pass that back-patches the cells opening slides and rolls, proved
 against a specification that looks ahead from each cell instead.
 */
module Tracker {
  import opened Wrappers

  type U8 = x: int | 0 <= x < 256

  datatype StepKind =
    | Rest
    | Tie
    | Note(repeat_: U8)
    | SlideSugar(cv1End: real, cv2End: Option<real>)
    | SlideStart
    | StepTo(toCv2: Option<real>)
    | StepToSlide(rampTo: real, slideCv2: Option<real>)
    | TieFlow
    | CloseInTick(closeCv2: Option<real>)

  datatype SlideOpen = SlideOpen(closeCv1: real, closeCv2: Option<real>, span: U8, closesAtBoundary: bool)

  datatype RollSpec = RollSpec(count: U8, span: U8)

  datatype StepEffect =
    | Silent
    | StartNote(cv1: real, cv2: real, slide: Option<SlideOpen>, roll: Option<RollSpec>)
    | StepCv(toCv1: real, toCv2: Option<real>)
    | StepCvSlide(fromCv1: real, endCv1: real, atCv2: Option<real>)
    | Hold
    | SlideFlow
    | OpenSlide(open: SlideOpen)
    | SlideCloseInTick(inTickCv1: real, inTickCv2: Option<real>)
    | AbsorbedRoll

  /** What the row build reads of a step. */
  datatype Cell = Cell(cv1: real, cv2: real, kind: StepKind)

  datatype Step = Step(cell: Cell, trigger: bool, gate: bool, effect: StepEffect)

  datatype RowBuildError = UnmatchedClose(cell: nat) | NeverClosed(cell: nat)

  datatype ChannelState = Idle | Sliding(head: nat) | Rolling(head: nat)

  function Saturate(n: nat): U8 {
    if n > 255 then 255 else n
  }

  function SaturatingIncrement(n: U8): U8 {
    if n == 255 then 255 else n + 1
  }

  // ── Specification: looking around from a cell ──

  predicate Continues(k: StepKind) {
    k.Tie? || k.TieFlow?
  }

  /** The first cell after `h` that is neither `_` nor `>_`; the length of the run when there is none. */
  function NextStop(cells: seq<Cell>, h: nat): (c: nat)
    requires h < |cells|
    ensures h < c <= |cells|
    decreases |cells| - h
  {
    if h + 1 == |cells| || !Continues(cells[h + 1].kind) then h + 1 else NextStop(cells, h + 1)
  }

  /** The first cell after `h` that is not `_`; the length of the run when there is none. */
  function NextNonTie(cells: seq<Cell>, h: nat): (c: nat)
    requires h < |cells|
    ensures h < c <= |cells|
    decreases |cells| - h
  {
    if h + 1 == |cells| || !cells[h + 1].kind.Tie? then h + 1 else NextNonTie(cells, h + 1)
  }

  /** The last cell that is neither `_` nor `>_`. */
  function LastEvent(cells: seq<Cell>): (p: Option<nat>)
    ensures p.Some? ==> p.value < |cells|
  {
    if cells == [] then None
    else if Continues(cells[|cells| - 1].kind) then LastEvent(cells[..|cells| - 1])
    else Some(|cells| - 1)
  }

  /** The first `>_` at or after `from`. */
  function FirstFlow(cells: seq<Cell>, from: nat): (f: nat)
    requires from <= |cells|
    ensures from <= f <= |cells| && (f < |cells| ==> cells[f].kind.TieFlow?)
    decreases |cells| - from
  {
    if from == |cells| || cells[from].kind.TieFlow? then from else FirstFlow(cells, from + 1)
  }

  predicate IsRollNote(c: Cell) {
    c.kind.Note? && c.kind.repeat_ > 1
  }

  /** The modifier open at the end of a run: what the last event started, or the first `>_` after it. */
  function OpenAtEnd(cells: seq<Cell>): ChannelState {
    var p := LastEvent(cells);
    if p.Some? && cells[p.value].kind.SlideStart? then Sliding(p.value)
    else
      var flow := FirstFlow(cells, if p.Some? then p.value + 1 else 0);
      if flow < |cells| then Sliding(flow)
      else if p.Some? && IsRollNote(cells[p.value]) then Rolling(p.value)
      else Idle
  }

  /** Cell `h` starts a slide that later cells close: `value>`, or a `>_` while no slide is open. */
  predicate IsSlideHead(cells: seq<Cell>, h: nat) {
    h < |cells| && (cells[h].kind.SlideStart? || (cells[h].kind.TieFlow? && !OpenAtEnd(cells[..h]).Sliding?))
  }

  /** The slide from head `h`: it runs to the next stop, which gives its close values. */
  function SlideFrom(cells: seq<Cell>, h: nat): SlideOpen
    requires h < |cells|
  {
    var c := NextStop(cells, h);
    if c == |cells| then SlideOpen(0.0, None, Saturate(c - h), true)
    else match cells[c].kind
      case CloseInTick(cv2) => SlideOpen(cells[c].cv1, cv2, Saturate(c - h + 1), false)
      case StepTo(cv2) => SlideOpen(cells[c].cv1, cv2, Saturate(c - h), true)
      case StepToSlide(_, cv2) => SlideOpen(cells[c].cv1, cv2, Saturate(c - h), true)
      case Rest => SlideOpen(0.0, None, Saturate(c - h), true)
      case _ => SlideOpen(cells[c].cv1, None, Saturate(c - h), true)
  }

  /** The effect of cell `i`, the end of the run closing nothing. */
  function EffectOf(cells: seq<Cell>, i: nat): StepEffect
    requires i < |cells|
  {
    var c, before := cells[i], OpenAtEnd(cells[..i]);
    match c.kind
    case Rest => Silent
    case Tie => if before.Rolling? then AbsorbedRoll else if before.Sliding? then SlideFlow else Hold
    case TieFlow => if before.Sliding? then SlideFlow else OpenSlide(SlideFrom(cells, i))
    case Note(n) =>
      StartNote(c.cv1, c.cv2, None, if n > 1 then Some(RollSpec(n, Saturate(NextNonTie(cells, i) - i))) else None)
    case SlideSugar(end, end2) => StartNote(c.cv1, c.cv2, Some(SlideOpen(end, end2, 1, true)), None)
    case SlideStart => StartNote(c.cv1, c.cv2, Some(SlideFrom(cells, i)), None)
    case StepTo(cv2) => StepCv(c.cv1, cv2)
    case StepToSlide(end, cv2) => StepCvSlide(c.cv1, end, cv2)
    case CloseInTick(cv2) => SlideCloseInTick(c.cv1, cv2)
  }

  /** A slide head that no stop follows ramps to its own value. */
  function FinalEffect(cells: seq<Cell>, i: nat): StepEffect
    requires i < |cells|
  {
    if IsSlideHead(cells, i) && NextStop(cells, i) == |cells|
    then PatchSlideClose(EffectOf(cells, i), cells[i].cv1, None, true)
    else EffectOf(cells, i)
  }

  predicate Unmatched(cells: seq<Cell>, i: nat) {
    i < |cells| && cells[i].kind.CloseInTick? && !OpenAtEnd(cells[..i]).Sliding?
  }

  /** The in-tick closes among the first `n` cells that no open slide precedes, in order. */
  function UnmatchedCloses(cells: seq<Cell>, n: nat): seq<RowBuildError>
    requires n <= |cells|
  {
    if n == 0 then []
    else UnmatchedCloses(cells, n - 1) + (if Unmatched(cells, n - 1) then [UnmatchedClose(n - 1)] else [])
  }

  function ErrorsOf(cells: seq<Cell>): seq<RowBuildError> {
    UnmatchedCloses(cells, |cells|)
    + (if OpenAtEnd(cells).Sliding? then [NeverClosed(OpenAtEnd(cells).head)] else [])
  }

  function CellsOf(steps: seq<Step>): (cells: seq<Cell>)
    ensures |cells| == |steps| && forall i :: 0 <= i < |steps| ==> cells[i] == steps[i].cell
  {
    seq(|steps|, i requires 0 <= i < |steps| => steps[i].cell)
  }

  function Resolved(steps: seq<Step>): (r: seq<Step>)
    ensures |r| == |steps|
  {
    seq(|steps|, i requires 0 <= i < |steps| => steps[i].(effect := FinalEffect(CellsOf(steps), i)))
  }

  // ── What the specification says ──

  /** The open modifier, read backwards, agrees with looking ahead: an open slide is a head that nothing stops. */
  lemma {:induction false} OpenSlideIff(cells: seq<Cell>, h: nat)
    ensures OpenAtEnd(cells) == Sliding(h) <==> IsSlideHead(cells, h) && NextStop(cells, h) == |cells|
  {
    if cells == [] {
    } else {
      var n := |cells| - 1;
      var front, c := cells[..n], cells[n];
      assert cells == front + [c];
      OpenAfter(front, c);
      OpenSlideIff(front, h);
      if h < n {
        assert cells[..h] == front[..h];
        StopAfter(front, c, h);
      } else if h == n {
        assert cells[..h] == front;
      }
    }
  }

  lemma {:induction false} OpenRollIff(cells: seq<Cell>, h: nat)
    ensures OpenAtEnd(cells) == Rolling(h) <==> h < |cells| && IsRollNote(cells[h]) && NextNonTie(cells, h) == |cells|
  {
    if cells == [] {
    } else {
      var n := |cells| - 1;
      var front, c := cells[..n], cells[n];
      assert cells == front + [c];
      OpenAfter(front, c);
      OpenRollIff(front, h);
      if h < n {
        NonTieAfter(front, c, h);
      }
    }
  }

  /** An in-tick close is an error exactly when no slide head before it runs up to it. */
  lemma UnmatchedIff(cells: seq<Cell>, i: nat)
    requires i < |cells| && cells[i].kind.CloseInTick?
    ensures Unmatched(cells, i) <==> !exists h: nat :: IsSlideHead(cells, h) && h < i && NextStop(cells, h) == i
  {
    var before := OpenAtEnd(cells[..i]);
    assert cells[..i + 1] == cells[..i] + [cells[i]];
    if before.Sliding? {
      var h := before.head;
      OpenSlideIff(cells[..i], h);
      assert cells[..h] == cells[..i][..h];
      StopInPrefix(cells, i, h);
      assert IsSlideHead(cells, h) && h < i && NextStop(cells, h) == i;
    } else {
      forall h: nat | IsSlideHead(cells, h) && h < i ensures NextStop(cells, h) != i {
        OpenSlideIff(cells[..i], h);
        assert cells[..h] == cells[..i][..h];
        StopInPrefix(cells, i, h);
      }
    }
  }

  /** Up to a stop at `i`, the prefix before `i` sees no stop. */
  lemma {:induction false} StopInPrefix(cells: seq<Cell>, i: nat, h: nat)
    requires h < i < |cells| && !Continues(cells[i].kind)
    ensures NextStop(cells, h) == i <==> NextStop(cells[..i], h) == i
    decreases i - h
  {
    if h + 1 < i && Continues(cells[h + 1].kind) {
      StopInPrefix(cells, i, h + 1);
    }
  }

  /** The reported errors: each unmatched in-tick close once, in order, then the open head if there is one. */
  lemma {:induction false} UnmatchedClosesExactly(cells: seq<Cell>, n: nat)
    requires n <= |cells|
    ensures forall e :: e in UnmatchedCloses(cells, n) <==> e.UnmatchedClose? && e.cell < n && Unmatched(cells, e.cell)
    ensures forall a, b :: 0 <= a < b < |UnmatchedCloses(cells, n)| ==>
              UnmatchedCloses(cells, n)[a].cell < UnmatchedCloses(cells, n)[b].cell
  {
    if n > 0 {
      UnmatchedClosesExactly(cells, n - 1);
      var rest := UnmatchedCloses(cells, n - 1);
      assert forall k :: 0 <= k < |rest| ==> rest[k] in rest;
    }
  }

  /** Resolving twice changes nothing, whatever effects the cells held before. */
  lemma Idempotent(steps: seq<Step>)
    ensures Resolved(Resolved(steps)) == Resolved(steps)
    ensures ErrorsOf(CellsOf(Resolved(steps))) == ErrorsOf(CellsOf(steps))
  {
    assert CellsOf(Resolved(steps)) == CellsOf(steps);
  }

  // ── One more cell ──

  function OpenNext(state: ChannelState, c: Cell, i: nat): ChannelState {
    match c.kind
    case Tie => state
    case TieFlow => if state.Sliding? then state else Sliding(i)
    case SlideStart => Sliding(i)
    case Note(_) => if IsRollNote(c) then Rolling(i) else Idle
    case _ => Idle
  }

  lemma OpenAfter(cells: seq<Cell>, c: Cell)
    ensures OpenAtEnd(cells + [c]) == OpenNext(OpenAtEnd(cells), c, |cells|)
  {
    var cells' := cells + [c];
    assert cells'[..|cells|] == cells;
    if Continues(c.kind) {
      var p := LastEvent(cells);
      FlowAfter(cells, c, if p.Some? then p.value + 1 else 0);
    }
  }

  lemma {:induction false} FlowAfter(cells: seq<Cell>, c: Cell, from: nat)
    requires from <= |cells|
    ensures FirstFlow(cells + [c], from)
            == if FirstFlow(cells, from) == |cells| && !c.kind.TieFlow? then |cells| + 1 else FirstFlow(cells, from)
    decreases |cells| - from
  {
    if from < |cells| {
      FlowAfter(cells, c, from + 1);
    }
  }

  lemma {:induction false} StopAfter(cells: seq<Cell>, c: Cell, h: nat)
    requires h < |cells|
    ensures NextStop(cells + [c], h)
            == if NextStop(cells, h) == |cells| && Continues(c.kind) then |cells| + 1 else NextStop(cells, h)
    decreases |cells| - h
  {
    if h + 1 < |cells| {
      StopAfter(cells, c, h + 1);
    }
  }

  lemma {:induction false} NonTieAfter(cells: seq<Cell>, c: Cell, h: nat)
    requires h < |cells|
    ensures NextNonTie(cells + [c], h)
            == if NextNonTie(cells, h) == |cells| && c.kind.Tie? then |cells| + 1 else NextNonTie(cells, h)
    decreases |cells| - h
  {
    if h + 1 < |cells| {
      NonTieAfter(cells, c, h + 1);
    }
  }

  // ── The specification spelled out, from the cells alone ──

  /** A slide is open when cell `i` is reached: it was opened before, and only `_` and `>_` have come since. */
  ghost predicate SlideOver(cells: seq<Cell>, i: nat) {
    exists k :: 0 <= k < i && k < |cells| && (cells[k].kind.SlideStart? || cells[k].kind.TieFlow?)
                && forall m :: k < m < i && m < |cells| ==> cells[m].kind.Tie? || cells[m].kind.TieFlow?
  }

  /** A roll is open: a note with a repeat came before, and only `_` since. */
  ghost predicate RollOver(cells: seq<Cell>, i: nat) {
    exists k :: 0 <= k < i && k < |cells| && cells[k].kind.Note? && cells[k].kind.repeat_ > 1
                && forall m :: k < m < i && m < |cells| ==> cells[m].kind.Tie?
  }

  lemma SlideOverMore(cells: seq<Cell>, c: Cell)
    ensures SlideOver(cells + [c], |cells| + 1)
       <==> c.kind.SlideStart? || c.kind.TieFlow? || (c.kind.Tie? && SlideOver(cells, |cells|))
  {
    var n, all := |cells|, cells + [c];
    if c.kind.SlideStart? || c.kind.TieFlow? {
      assert all[n] == c;
    }
    if SlideOver(cells, n) && c.kind.Tie? {
      var k :| 0 <= k < n && (cells[k].kind.SlideStart? || cells[k].kind.TieFlow?)
               && forall m :: k < m < n ==> cells[m].kind.Tie? || cells[m].kind.TieFlow?;
      assert all[k] == cells[k] && forall m :: k < m < n ==> all[m] == cells[m];
    }
    if SlideOver(all, n + 1) && !c.kind.SlideStart? && !c.kind.TieFlow? {
      var k :| 0 <= k < n + 1 && (all[k].kind.SlideStart? || all[k].kind.TieFlow?)
               && forall m :: k < m < n + 1 ==> all[m].kind.Tie? || all[m].kind.TieFlow?;
      assert k < n && all[n] == c && all[k] == cells[k];
      assert forall m :: k < m < n ==> cells[m] == all[m];
    }
  }

  lemma RollOverMore(cells: seq<Cell>, c: Cell)
    ensures RollOver(cells + [c], |cells| + 1) <==> IsRollNote(c) || (c.kind.Tie? && RollOver(cells, |cells|))
  {
    var n, all := |cells|, cells + [c];
    if IsRollNote(c) {
      assert all[n] == c;
    }
    if RollOver(cells, n) && c.kind.Tie? {
      var k :| 0 <= k < n && cells[k].kind.Note? && cells[k].kind.repeat_ > 1
               && forall m :: k < m < n ==> cells[m].kind.Tie?;
      assert all[k] == cells[k] && forall m :: k < m < n ==> all[m] == cells[m];
    }
    if RollOver(all, n + 1) && !IsRollNote(c) {
      var k :| 0 <= k < n + 1 && all[k].kind.Note? && all[k].kind.repeat_ > 1
               && forall m :: k < m < n + 1 ==> all[m].kind.Tie?;
      assert k < n && all[n] == c && all[k] == cells[k];
      assert forall m :: k < m < n ==> cells[m] == all[m];
    }
  }

  lemma {:induction false} OpenSpelled(cells: seq<Cell>)
    ensures OpenAtEnd(cells).Sliding? <==> SlideOver(cells, |cells|)
    ensures OpenAtEnd(cells).Rolling? <==> RollOver(cells, |cells|)
    decreases |cells|
  {
    if cells != [] {
      hide OpenAtEnd, SlideOver, RollOver;
      var n := |cells| - 1;
      assert cells == cells[..n] + [cells[n]];
      OpenSpelled(cells[..n]);
      OpenAfter(cells[..n], cells[n]);
      SlideOverMore(cells[..n], cells[n]);
      RollOverMore(cells[..n], cells[n]);
    }
  }

  lemma OpenSpelledAt(cells: seq<Cell>, i: nat)
    requires i <= |cells|
    ensures OpenAtEnd(cells[..i]).Sliding? <==> SlideOver(cells, i)
    ensures OpenAtEnd(cells[..i]).Rolling? <==> RollOver(cells, i)
  {
    hide OpenAtEnd;
    OpenSpelled(cells[..i]);
    assert forall m :: 0 <= m < i ==> cells[..i][m] == cells[m];
  }

  /** Every cell but the openers of slides and rolls: its effect is its own, and for `_` also what is open. */
  lemma PlainEffects(cells: seq<Cell>, i: nat)
    requires i < |cells|
    ensures var Cell(cv1, cv2, kind), effect := cells[i], FinalEffect(cells, i);
            && (kind == Rest ==> effect == Silent)
            && (kind == Tie ==> effect == if SlideOver(cells, i) then SlideFlow
                                          else if RollOver(cells, i) then AbsorbedRoll else Hold)
            && (kind == TieFlow && SlideOver(cells, i) ==> effect == SlideFlow)
            && (kind.Note? && kind.repeat_ <= 1 ==> effect == StartNote(cv1, cv2, None, None))
            && (kind.SlideSugar? ==>
                  effect == StartNote(cv1, cv2, Some(SlideOpen(kind.cv1End, kind.cv2End, 1, true)), None))
            && (kind.StepTo? ==> effect == StepCv(cv1, kind.toCv2))
            && (kind.StepToSlide? ==> effect == StepCvSlide(cv1, kind.rampTo, kind.slideCv2))
            && (kind.CloseInTick? ==> effect == SlideCloseInTick(cv1, kind.closeCv2))
  {
    hide OpenAtEnd, SlideOver, RollOver, NextStop, NextNonTie, SlideFrom;
    OpenSpelledAt(cells, i);
  }

  lemma {:induction false} StopIs(cells: seq<Cell>, h: nat, c: nat)
    requires h < c <= |cells| && forall m :: h < m < c ==> cells[m].kind.Tie? || cells[m].kind.TieFlow?
    requires c == |cells| || !(cells[c].kind.Tie? || cells[c].kind.TieFlow?)
    ensures NextStop(cells, h) == c
    decreases c - h
  {
    if h + 1 < c { StopIs(cells, h + 1, c); }
  }

  lemma {:induction false} NonTieIs(cells: seq<Cell>, h: nat, c: nat)
    requires h < c <= |cells| && forall m :: h < m < c ==> cells[m].kind.Tie?
    requires c == |cells| || !cells[c].kind.Tie?
    ensures NextNonTie(cells, h) == c
    decreases c - h
  {
    if h + 1 < c { NonTieIs(cells, h + 1, c); }
  }

  /** A note with a repeat rolls over the ties after it, however many there are. */
  lemma RollEffect(cells: seq<Cell>, h: nat, c: nat)
    requires h < c <= |cells| && cells[h].kind.Note? && cells[h].kind.repeat_ > 1
    requires forall m :: h < m < c ==> cells[m].kind.Tie?
    requires c == |cells| || !cells[c].kind.Tie?
    ensures FinalEffect(cells, h)
            == StartNote(cells[h].cv1, cells[h].cv2, None,
                         Some(RollSpec(cells[h].kind.repeat_, if c - h > 255 then 255 else c - h)))
  {
    NonTieIs(cells, h, c);
    hide OpenAtEnd, NextStop, NextNonTie;
  }

  /** How a slide opened at `h` closes at the stop `c`: on its value, in its tick or before it; on nothing at a rest. */
  lemma SlideEffect(cells: seq<Cell>, h: nat, c: nat)
    requires h < c <= |cells| && (cells[h].kind.SlideStart? || (cells[h].kind.TieFlow? && !SlideOver(cells, h)))
    requires forall m :: h < m < c ==> cells[m].kind.Tie? || cells[m].kind.TieFlow?
    requires c == |cells| || !(cells[c].kind.Tie? || cells[c].kind.TieFlow?)
    ensures var span, longer := if c - h > 255 then 255 else c - h, if c - h + 1 > 255 then 255 else c - h + 1;
            var slide := if c == |cells| then SlideOpen(cells[h].cv1, None, span, true)
                         else if cells[c].kind == Rest then SlideOpen(0.0, None, span, true)
                         else if cells[c].kind.CloseInTick?
                         then SlideOpen(cells[c].cv1, cells[c].kind.closeCv2, longer, false)
                         else if cells[c].kind.StepTo? then SlideOpen(cells[c].cv1, cells[c].kind.toCv2, span, true)
                         else if cells[c].kind.StepToSlide?
                         then SlideOpen(cells[c].cv1, cells[c].kind.slideCv2, span, true)
                         else SlideOpen(cells[c].cv1, None, span, true);
            FinalEffect(cells, h) == if cells[h].kind.TieFlow? then OpenSlide(slide)
                                     else StartNote(cells[h].cv1, cells[h].cv2, Some(slide), None)
  {
    hide OpenAtEnd, SlideOver, NextStop;
    StopIs(cells, h, c);
    OpenSpelledAt(cells, h);
  }

  /** The errors: each in-tick close with no slide open, in order, and then the slide left open, by its opener. */
  lemma ErrorsSpelled(cells: seq<Cell>, e: RowBuildError)
    ensures e in ErrorsOf(cells) <==>
              match e
              case UnmatchedClose(i) => i < |cells| && cells[i].kind.CloseInTick? && !SlideOver(cells, i)
              case NeverClosed(h) =>
                && h < |cells| && (cells[h].kind.SlideStart? || (cells[h].kind.TieFlow? && !SlideOver(cells, h)))
                && forall m :: h < m < |cells| ==> cells[m].kind.Tie? || cells[m].kind.TieFlow?
  {
    hide OpenAtEnd, SlideOver, UnmatchedCloses;
    UnmatchedClosesExactly(cells, |cells|);
    match e
    case UnmatchedClose(i) =>
      if i < |cells| { OpenSpelledAt(cells, i); }
    case NeverClosed(h) =>
      OpenSlideIff(cells, h);
      if h < |cells| {
        OpenSpelledAt(cells, h);
        StopAtEnd(cells, h);
      }
  }

  lemma {:induction false} StopAtEnd(cells: seq<Cell>, h: nat)
    requires h < |cells|
    ensures NextStop(cells, h) == |cells| <==>
              forall m :: h < m < |cells| ==> cells[m].kind.Tie? || cells[m].kind.TieFlow?
    decreases |cells| - h
  {
    if h + 1 < |cells| { StopAtEnd(cells, h + 1); }
  }

  // ── Back-patching ──

  function ExtendSlideSpan(e: StepEffect): StepEffect {
    match e
    case StartNote(_, _, Some(s), _) => e.(slide := Some(s.(span := SaturatingIncrement(s.span))))
    case OpenSlide(s) => OpenSlide(s.(span := SaturatingIncrement(s.span)))
    case _ => e
  }

  function ExtendRollSpan(e: StepEffect): StepEffect {
    match e
    case StartNote(_, _, _, Some(r)) => e.(roll := Some(r.(span := SaturatingIncrement(r.span))))
    case _ => e
  }

  function Close(s: SlideOpen, cv1: real, cv2: Option<real>, atBoundary: bool): SlideOpen {
    SlideOpen(cv1, if cv2.Some? then cv2 else s.closeCv2, s.span, atBoundary)
  }

  function PatchSlideClose(e: StepEffect, cv1: real, cv2: Option<real>, atBoundary: bool): StepEffect {
    match e
    case StartNote(_, _, Some(s), _) => e.(slide := Some(Close(s, cv1, cv2, atBoundary)))
    case OpenSlide(s) => OpenSlide(Close(s, cv1, cv2, atBoundary))
    case _ => e
  }

  /** How cell `c`, coming next, changes the effect of the head of the open modifier. */
  function Patched(state: ChannelState, c: Cell, e: StepEffect): StepEffect {
    if state.Sliding? then
      match c.kind
      case Rest => e
      case Tie => ExtendSlideSpan(e)
      case TieFlow => ExtendSlideSpan(e)
      case StepTo(cv2) => PatchSlideClose(e, c.cv1, cv2, true)
      case StepToSlide(_, cv2) => PatchSlideClose(e, c.cv1, cv2, true)
      case CloseInTick(cv2) => PatchSlideClose(ExtendSlideSpan(e), c.cv1, cv2, false)
      case _ => PatchSlideClose(e, c.cv1, None, true)
    else if state.Rolling? && c.kind.Tie? then ExtendRollSpan(e)
    else e
  }

  lemma SlideAfter(cells: seq<Cell>, c: Cell, h: nat)
    requires h < |cells|
    ensures OpenSlide(SlideFrom(cells + [c], h))
            == if NextStop(cells, h) == |cells| then Patched(Sliding(h), c, OpenSlide(SlideFrom(cells, h)))
               else OpenSlide(SlideFrom(cells, h))
  {
    StopAfter(cells, c, h);
    hide NextStop;
  }

  /** One more cell changes the effect of the open head, by one patch, and of no other earlier cell. */
  lemma EffectAfter(cells: seq<Cell>, c: Cell, j: nat)
    requires j < |cells|
    ensures EffectOf(cells + [c], j)
            == if OpenAtEnd(cells) != Idle && OpenAtEnd(cells).head == j
               then Patched(OpenAtEnd(cells), c, EffectOf(cells, j))
               else EffectOf(cells, j)
  {
    hide OpenAtEnd, NextStop, NextNonTie, SlideFrom;
    var cells' := cells + [c];
    assert cells'[..j] == cells[..j] && cells'[j] == cells[j];
    SlideAfter(cells, c, j);
    NonTieAfter(cells, c, j);
    OpenSlideIff(cells, j);
    OpenRollIff(cells, j);
  }

  /** Row build of the cells seen so far. */
  ghost predicate Built(steps: seq<Step>, was: seq<Step>, n: nat, state: ChannelState, errors: seq<RowBuildError>) {
    && n <= |steps| == |was| && state == OpenAtEnd(CellsOf(was)[..n])
    && (state != Idle ==> state.head < n)
    && (forall j :: 0 <= j < n ==> steps[j] == was[j].(effect := EffectOf(CellsOf(was)[..n], j)))
    && (forall j :: n <= j < |steps| ==> steps[j] == was[j].(effect := Silent))
    && errors == UnmatchedCloses(CellsOf(was), n)
  }

  /** The effect of a cell that has just been reached. */
  function OwnEffect(state: ChannelState, c: Cell): StepEffect {
    match c.kind
    case Rest => Silent
    case Tie => if state.Rolling? then AbsorbedRoll else if state.Sliding? then SlideFlow else Hold
    case TieFlow => if state.Sliding? then SlideFlow else OpenSlide(SlideOpen(0.0, None, 1, true))
    case Note(n) => StartNote(c.cv1, c.cv2, None, if n > 1 then Some(RollSpec(n, 1)) else None)
    case SlideSugar(end, end2) => StartNote(c.cv1, c.cv2, Some(SlideOpen(end, end2, 1, true)), None)
    case SlideStart => StartNote(c.cv1, c.cv2, Some(SlideOpen(0.0, None, 1, true)), None)
    case StepTo(cv2) => StepCv(c.cv1, cv2)
    case StepToSlide(end, cv2) => StepCvSlide(c.cv1, end, cv2)
    case CloseInTick(cv2) => SlideCloseInTick(c.cv1, cv2)
  }

  /** One step of the pass: own effect for cell `i`, a patch for the open head. */
  lemma BuildStep(steps: seq<Step>, was: seq<Step>, i: nat, state: ChannelState, errors: seq<RowBuildError>,
                  steps': seq<Step>,
                  errors': seq<RowBuildError>)
    requires Built(steps, was, i, state, errors) && i < |was| == |steps'|
    requires forall j :: 0 <= j < |was| ==>
               steps'[j] == if j == i then steps[j].(effect := OwnEffect(state, was[i].cell))
                            else if state != Idle && j == state.head
                            then steps[j].(effect := Patched(state, was[i].cell, steps[j].effect))
                            else steps[j]
    requires errors' == errors + if was[i].cell.kind.CloseInTick? && !state.Sliding? then [UnmatchedClose(i)] else []
    ensures Built(steps', was, i + 1, OpenNext(state, was[i].cell, i), errors')
  {
    hide OpenAtEnd, EffectOf, Patched, OwnEffect, OpenNext;
    var cells := CellsOf(was);
    var c := cells[i];
    assert cells[..i + 1] == cells[..i] + [c];
    OpenAfter(cells[..i], c);
    OpenBound(cells[..i], c);
    forall j | 0 <= j < i + 1 ensures steps'[j] == was[j].(effect := EffectOf(cells[..i + 1], j)) {
      if j < i {
        EffectAfter(cells[..i], c, j);
      } else {
        EffectAtEnd(cells[..i], c);
      }
    }
  }

  lemma OpenBound(cells: seq<Cell>, c: Cell)
    ensures OpenAtEnd(cells + [c]) != Idle ==> OpenAtEnd(cells + [c]).head < |cells| + 1
  {}

  lemma EffectAtEnd(cells: seq<Cell>, c: Cell)
    ensures EffectOf(cells + [c], |cells|) == OwnEffect(OpenAtEnd(cells), c)
  {
    hide OpenAtEnd;
    assert (cells + [c])[..|cells|] == cells;
  }

  lemma BuildStart(steps: seq<Step>, was: seq<Step>)
    requires |steps| == |was| && forall j :: 0 <= j < |was| ==> steps[j] == was[j].(effect := Silent)
    ensures Built(steps, was, 0, Idle, [])
  {
    assert CellsOf(was)[..0] == [];
  }

  /** The end of the run: an open slide is closed on its own value and reported. */
  lemma BuildEnd(steps: seq<Step>, was: seq<Step>, state: ChannelState, errors: seq<RowBuildError>, steps': seq<Step>)
    requires Built(steps, was, |was|, state, errors) && |steps'| == |was|
    requires forall j :: 0 <= j < |was| ==>
               steps'[j] == if state.Sliding? && j == state.head
                            then steps[j].(effect := PatchSlideClose(steps[j].effect, steps[j].cell.cv1, None, true))
                            else steps[j]
    ensures steps' == Resolved(was)
    ensures ErrorsOf(CellsOf(was)) == errors + if state.Sliding? then [NeverClosed(state.head)] else []
  {
    hide OpenAtEnd, EffectOf, PatchSlideClose, NextStop, IsSlideHead;
    var cells := CellsOf(was);
    assert cells[..|was|] == cells;
    forall j | 0 <= j < |was| ensures steps'[j] == was[j].(effect := FinalEffect(cells, j)) {
      OpenSlideIff(cells, j);
    }
  }

  /** The pass computes the look-ahead specification, whatever effects the cells held before. */
  method ResolveStepEffects(steps: array<Step>) returns (errors: seq<RowBuildError>)
    modifies steps
    ensures steps[..] == Resolved(old(steps[..]))
    ensures errors == ErrorsOf(CellsOf(old(steps[..])))
  {
    hide Built, Resolved, ErrorsOf;
    ghost var was := steps[..];
    for k := 0 to steps.Length
      invariant forall j :: 0 <= j < k ==> steps[j] == was[j].(effect := Silent)
      invariant forall j :: k <= j < steps.Length ==> steps[j] == was[j]
    {
      steps[k] := steps[k].(effect := Silent);
    }
    errors := [];
    var state := Idle;
    BuildStart(steps[..], was);
    for i := 0 to steps.Length
      invariant Built(steps[..], was, i, state, errors)
    {
      ghost var before, state0, errors0 := steps[..], state, errors;
      BuiltFrame(before, was, i, state, errors);
      state, errors := BuildCell(steps, i, state, errors);
      BuildStep(before, was, i, state0, errors0, steps[..], errors);
    }
    ghost var before, errors0 := steps[..], errors;
    BuiltFrame(before, was, steps.Length, state, errors);
    if state.Sliding? {
      errors := errors + [NeverClosed(state.head)];
      var openCv1 := steps[state.head].cell.cv1;
      steps[state.head] := steps[state.head].(effect := PatchSlideClose(steps[state.head].effect, openCv1, None, true));
    }
    BuildEnd(before, was, state, errors0, steps[..]);
  }

  lemma BuiltFrame(steps: seq<Step>, was: seq<Step>, n: nat, state: ChannelState, errors: seq<RowBuildError>)
    requires Built(steps, was, n, state, errors)
    ensures |steps| == |was| && (state != Idle ==> state.head < n)
    ensures forall j :: 0 <= j < |was| ==> steps[j].cell == was[j].cell
  {}

  /** One iteration: reads cell `i`, patches the open head in place, and writes the cell's own effect. */
  method BuildCell(steps: array<Step>, i: nat, state: ChannelState, errors: seq<RowBuildError>)
    returns (state': ChannelState, errors': seq<RowBuildError>)
    requires i < steps.Length && (state != Idle ==> state.head < i)
    modifies steps
    ensures forall j :: 0 <= j < steps.Length ==>
              steps[j] == if j == i then old(steps[j]).(effect := OwnEffect(state, old(steps[i]).cell))
                          else if state != Idle && j == state.head
                          then old(steps[j]).(effect := Patched(state, old(steps[i]).cell, old(steps[j]).effect))
                          else old(steps[j])
    ensures state' == OpenNext(state, old(steps[i]).cell, i)
    ensures errors'
            == errors + if old(steps[i]).cell.kind.CloseInTick? && !state.Sliding? then [UnmatchedClose(i)] else []
  {
    state', errors' := state, errors;
    var kind, cv1, cv2 := steps[i].cell.kind, steps[i].cell.cv1, steps[i].cell.cv2;
    var effect;
    match kind {
      case Rest =>
        state' := Idle;
        effect := Silent;
      case Tie =>
        match state {
          case Rolling(h) =>
            steps[h] := steps[h].(effect := ExtendRollSpan(steps[h].effect));
            effect := AbsorbedRoll;
          case Sliding(h) =>
            steps[h] := steps[h].(effect := ExtendSlideSpan(steps[h].effect));
            effect := SlideFlow;
          case Idle =>
            effect := Hold;
        }
      case TieFlow =>
        if state.Sliding? {
          steps[state.head] := steps[state.head].(effect := ExtendSlideSpan(steps[state.head].effect));
          effect := SlideFlow;
        } else {
          state' := Sliding(i);
          effect := OpenSlide(SlideOpen(0.0, None, 1, true));
        }
      case Note(repeat_) =>
        PatchOpenSlide(steps, state, cv1, None, true);
        var roll := if repeat_ > 1 then Some(RollSpec(repeat_, 1)) else None;
        state' := if roll.Some? then Rolling(i) else Idle;
        effect := StartNote(cv1, cv2, None, roll);
      case SlideSugar(cv1End, cv2End) =>
        PatchOpenSlide(steps, state, cv1, None, true);
        state' := Idle;
        effect := StartNote(cv1, cv2, Some(SlideOpen(cv1End, cv2End, 1, true)), None);
      case SlideStart =>
        PatchOpenSlide(steps, state, cv1, None, true);
        state' := Sliding(i);
        effect := StartNote(cv1, cv2, Some(SlideOpen(0.0, None, 1, true)), None);
      case StepTo(toCv2) =>
        PatchOpenSlide(steps, state, cv1, toCv2, true);
        state' := Idle;
        effect := StepCv(cv1, toCv2);
      case StepToSlide(cv1End, toCv2) =>
        PatchOpenSlide(steps, state, cv1, toCv2, true);
        state' := Idle;
        effect := StepCvSlide(cv1, cv1End, toCv2);
      case CloseInTick(toCv2) =>
        if state.Sliding? {
          steps[state.head] := steps[state.head].(effect := ExtendSlideSpan(steps[state.head].effect));
          PatchOpenSlide(steps, state, cv1, toCv2, false);
        } else {
          errors' := errors' + [UnmatchedClose(i)];
        }
        state' := Idle;
        effect := SlideCloseInTick(cv1, toCv2);
    }
    steps[i] := steps[i].(effect := effect);
  }

  method PatchOpenSlide(steps: array<Step>, state: ChannelState, cv1: real, cv2: Option<real>, atBoundary: bool)
    requires state != Idle ==> state.head < steps.Length
    modifies steps
    ensures forall j :: 0 <= j < steps.Length ==>
              steps[j] == if state.Sliding? && j == state.head
                          then old(steps[j]).(effect := PatchSlideClose(old(steps[j]).effect, cv1, cv2, atBoundary))
                          else old(steps[j])
  {
    if state.Sliding? {
      var patched := PatchSlideClose(steps[state.head].effect, cv1, cv2, atBoundary);
      steps[state.head] := steps[state.head].(effect := patched);
    }
  }
}
