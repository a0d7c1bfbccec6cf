/** Cascaded decimation: pushed one sample at a time, against whole-stream filtering that keeps every other output. */
module Decimator {
  import opened Powers
  import opened Wrappers
  import opened Halfband

  datatype Fir = Fir(taps: seq<real>, centre: real)

  /** Filter a whole stream and keep the outputs at even times that a complete pair has reached. */
  function Decimated(k: Fir, xs: seq<real>): (ys: seq<real>)
    ensures |ys| == |xs| / 2
  {
    seq(|xs| / 2, j requires 0 <= j < |xs| / 2 => Response(k.taps, k.centre, xs, 2 * j))
  }

  function DecimatedTimes(k: Fir, levels: nat, xs: seq<real>): seq<real> {
    if levels == 0 then xs else Decimated(k, DecimatedTimes(k, levels - 1, xs))
  }

  /** `n` samples are a whole number of groups of `2^levels`. */
  predicate WholeGroups(n: nat, levels: nat) {
    n % Pow2(levels) == 0
  }

  /** One more sample gives one more output exactly when it completes a pair, and leaves the earlier ones alone. */
  lemma DecimatedPush(k: Fir, xs: seq<real>, x: real)
    ensures Decimated(k, xs + [x])
            == if |xs| % 2 == 0 then Decimated(k, xs)
               else Decimated(k, xs) + [Response(k.taps, k.centre, xs + [x], |xs| - 1)]
  {
    hide Response;
    forall j | 0 <= j < |xs| / 2 ensures Decimated(k, xs + [x])[j] == Decimated(k, xs)[j] {
      Causal(k.taps, k.centre, xs, x, 2 * j);
    }
  }

  /** After `levels` stages one output remains of every `2^levels` samples. */
  lemma {:induction false} DecimatedLength(k: Fir, levels: nat, xs: seq<real>)
    ensures |DecimatedTimes(k, levels, xs)| == |xs| / Pow2(levels)
  {
    if levels > 0 {
      DecimatedLength(k, levels - 1, xs);
      DivTwice(|xs|, Pow2(levels - 1));
    }
  }

  lemma DivTwice(n: nat, p: nat)
    requires p > 0
    ensures n / p / 2 == n / (2 * p)
  {
    var q := n / p / 2;
    assert n == p * (n / p) + n % p && n / p == 2 * q + n / p % 2;
    var r := p * (n / p % 2) + n % p;
    assert n == 2 * p * q + r;
    assert 0 <= r < 2 * p;
    DivModUnique(n, 2 * p, q, r);
  }

  /** A stage that takes one sample at a time. */
  class X2Stage {
    const filter: HalfbandFir
    var pending: Option<real>

    /** Every sample pushed so far. */
    ghost var inputs: seq<real>

    ghost function Repr(): set<object> {
      {this, filter, filter.delay}
    }

    ghost function Coefficients(): Fir {
      Fir(filter.taps, filter.centre)
    }

    /** Fed exactly the samples `xs`, with coefficients `k`. */
    ghost predicate Fed(k: Fir, xs: seq<real>)
      reads this, filter, filter.delay
    {
      Valid() && Coefficients() == k && inputs == xs
    }

    ghost predicate Valid()
      reads this, filter, filter.delay
    {
      && filter.Valid()
      && (|inputs| % 2 == 0 <==> pending.None?)
      && inputs == filter.history + if pending.Some? then [pending.value] else []
    }

    constructor (taps: seq<real>, centre: real)
      ensures Valid() && inputs == [] && fresh(Repr()) && Coefficients() == Fir(taps, centre)
    {
      filter := new HalfbandFir(taps, centre);
      pending := None;
      inputs := [];
    }

    method Push(x: real) returns (r: Option<real>)
      requires Valid()
      modifies this, filter, filter.delay
      ensures Valid() && inputs == old(inputs) + [x]
      ensures Decimated(Coefficients(), inputs)
              == Decimated(Coefficients(), old(inputs)) + if r.Some? then [r.value] else []
    {
      hide Response, Decimated;
      DecimatedPush(Coefficients(), inputs, x);
      assert Decimated(Coefficients(), inputs) + [] == Decimated(Coefficients(), inputs);
      inputs := inputs + [x];
      match pending {
        case None =>
          pending := Some(x);
          return None;
        case Some(first) =>
          pending := None;
          var y := filter.Process(first, x);
          assert filter.history == inputs;
          return Some(y);
      }
    }
  }

  /** The next outputs of one stage, and of two stages in a row. */
  ghost predicate Grows(k: Fir, levels: nat, xs: seq<real>, x: real, r: Option<real>) {
    DecimatedTimes(k, levels, xs + [x]) == DecimatedTimes(k, levels, xs) + if r.Some? then [r.value] else []
  }

  /** Pushes through `first`, and whatever comes out through `second`. */
  method PushThrough(first: X2Stage, second: X2Stage, x: real, ghost k: Fir, ghost xs: seq<real>)
    returns (r: Option<real>)
    requires first.Repr() !! second.Repr() && first.Fed(k, xs) && second.Fed(k, Decimated(k, xs))
    modifies first.Repr(), second.Repr()
    ensures first.Fed(k, xs + [x]) && second.Fed(k, Decimated(k, xs + [x]))
    ensures Grows(k, 2, xs, x, r)
  {
    hide Decimated, Response, DecimatedTimes;
    Levelled(k, xs);
    Levelled(k, xs + [x]);
    r := first.Push(x);
    if r.Some? {
      r := second.Push(r.value);
    }
  }

  /** A cascade of stages; the same coefficients throughout. */
  datatype Stages =
    | Passthrough
    | X2(s1: X2Stage)
    | X4(s1: X2Stage, s2: X2Stage)
    | X8(s1: X2Stage, s2: X2Stage, s3: X2Stage)
  {
    function Levels(): nat {
      match this
      case Passthrough => 0
      case X2(_) => 1
      case X4(_, _) => 2
      case X8(_, _, _) => 3
    }

    ghost function Repr(): set<object> {
      match this
      case Passthrough => {}
      case X2(s1) => s1.Repr()
      case X4(s1, s2) => s1.Repr() + s2.Repr()
      case X8(s1, s2, s3) => s1.Repr() + s2.Repr() + s3.Repr()
    }

    /** The state after the samples `xs`: each stage has been fed what the one before it put out. */
    ghost predicate Valid(k: Fir, xs: seq<real>)
      reads Repr()
    {
      match this
      case Passthrough => true
      case X2(s1) => s1.Fed(k, xs)
      case X4(s1, s2) => s1.Repr() !! s2.Repr() && s1.Fed(k, xs) && s2.Fed(k, Decimated(k, xs))
      case X8(s1, s2, s3) =>
        && s1.Repr() !! s2.Repr() && s1.Repr() !! s3.Repr() && s2.Repr() !! s3.Repr()
        && s1.Fed(k, xs) && s2.Fed(k, Decimated(k, xs)) && s3.Fed(k, DecimatedTimes(k, 2, xs))
    }

    /** One sample in; a sample out exactly when a group of `2^levels` is complete: the next of the decimated stream. */
    method Push(x: real, ghost k: Fir, ghost xs: seq<real>) returns (r: Option<real>)
      requires Valid(k, xs)
      modifies Repr()
      ensures Valid(k, xs + [x])
      ensures Grows(k, Levels(), xs, x, r)
      ensures r.Some? <==> WholeGroups(|xs| + 1, Levels())
    {
      hide Decimated, Response, DecimatedTimes, WholeGroups, Pow2;
      Levelled(k, xs);
      Levelled(k, xs + [x]);
      match this {
        case Passthrough =>
          r := Some(x);
        case X2(s1) =>
          r := s1.Push(x);
        case X4(s1, s2) =>
          r := PushThrough(s1, s2, x, k, xs);
        case X8(s1, s2, s3) =>
          r := PushThrough(s1, s2, x, k, xs);
          if r.Some? {
            r := s3.Push(r.value);
          }
      }
      GroupComplete(k, Levels(), xs, x, r);
    }
  }

  method NewStages(factor: nat, k: Fir) returns (d: Stages)
    ensures d.Valid(k, []) && fresh(d.Repr())
    ensures d.Levels() == if factor == 2 then 1 else if factor == 4 then 2 else if factor == 8 then 3 else 0
  {
    assert Decimated(k, []) == [];
    Levelled(k, []);
    if factor == 2 {
      var s1 := new X2Stage(k.taps, k.centre);
      d := X2(s1);
    } else if factor == 4 {
      var s1 := new X2Stage(k.taps, k.centre);
      var s2 := new X2Stage(k.taps, k.centre);
      d := X4(s1, s2);
    } else if factor == 8 {
      var s1 := new X2Stage(k.taps, k.centre);
      var s2 := new X2Stage(k.taps, k.centre);
      var s3 := new X2Stage(k.taps, k.centre);
      d := X8(s1, s2, s3);
    } else {
      d := Passthrough;
    }
  }

  /** A decimator for an oversampling factor; any factor but 2, 4 and 8 passes samples through. */
  class Decimator {
    const stages: Stages
    ghost const k: Fir
    ghost const Repr: set<object>

    /** Every sample pushed so far. */
    ghost var inputs: seq<real>

    ghost predicate Valid()
      reads this, Repr
    {
      && this in Repr && stages.Repr() <= Repr && this !in stages.Repr()
      && stages.Valid(k, inputs)
    }

    constructor (factor: nat, k: Fir)
      ensures Valid() && fresh(Repr) && inputs == [] && this.k == k
      ensures stages.Levels() == if factor == 2 then 1 else if factor == 4 then 2 else if factor == 8 then 3 else 0
    {
      var d := NewStages(factor, k);
      stages, inputs := d, [];
      this.k := k;
      Repr := {this} + d.Repr();
    }

    method Push(x: real) returns (r: Option<real>)
      requires Valid()
      modifies Repr
      ensures Valid() && inputs == old(inputs) + [x]
      ensures Grows(k, stages.Levels(), old(inputs), x, r)
      ensures r.Some? <==> WholeGroups(|inputs|, stages.Levels())
    {
      hide Decimated, Response, DecimatedTimes, WholeGroups, Pow2;
      r := stages.Push(x, k, inputs);
      inputs := inputs + [x];
    }
  }

  lemma Levelled(k: Fir, xs: seq<real>)
    ensures DecimatedTimes(k, 0, xs) == xs && DecimatedTimes(k, 1, xs) == Decimated(k, xs)
    ensures DecimatedTimes(k, 2, xs) == Decimated(k, Decimated(k, xs))
    ensures DecimatedTimes(k, 3, xs) == Decimated(k, DecimatedTimes(k, 2, xs))
    ensures forall ys: seq<real> :: ys + [] == ys
  {
    hide Decimated;
    assert DecimatedTimes(k, 1, xs) == Decimated(k, xs);
    assert DecimatedTimes(k, 2, xs) == Decimated(k, Decimated(k, xs));
  }

  /** The decimated stream grows exactly when the sample count reaches a multiple of the factor. */
  lemma GroupComplete(k: Fir, levels: nat, xs: seq<real>, x: real, r: Option<real>)
    requires Grows(k, levels, xs, x, r)
    ensures r.Some? <==> WholeGroups(|xs| + 1, levels)
  {
    DecimatedLength(k, levels, xs);
    DecimatedLength(k, levels, xs + [x]);
    DivStep(|xs|, Pow2(levels));
  }

  lemma DivStep(n: nat, p: nat)
    requires p > 0
    ensures (n + 1) / p == n / p + if (n + 1) % p == 0 then 1 else 0
  {
    var q, r := n / p, n % p;
    if r + 1 == p {
      DivModUnique(n + 1, p, q + 1, 0);
    } else {
      DivModUnique(n + 1, p, q, r + 1);
    }
  }
}
