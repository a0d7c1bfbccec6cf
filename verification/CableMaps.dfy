/** The cable algebra: a gain and offset followed by an optional hard clip, and how segments compose. */
module CableMaps {
  import opened Reals
  import opened Wrappers

  datatype CableMap = CableMap(scale: real, offset: real, clip: Option<(real, real)>)

  function Scalar(k: real): CableMap { CableMap(k, 0.0, None) }

  const IDENTITY := Scalar(1.0)

  /** The clip has no crossed bounds; clamping to crossed bounds panics. */
  predicate Valid(m: CableMap) {
    m.clip.Some? ==> m.clip.value.0 <= m.clip.value.1
  }

  function Clipped(y: real, clip: Option<(real, real)>): real {
    match clip
    case None => y
    case Some((lo, hi)) => Clamp(y, lo, hi)
  }

  function Gain(k2: real, k1: real): real { k2 * k1 }

  function Affine(k: real, o: real, x: real): real { Gain(k, x) + o }

  /** Reading a value through a cable: `None` stands for the panic of an empty clip range. */
  function Apply(m: CableMap, x: real): Option<real> {
    if Valid(m) then Some(Clipped(Affine(m.scale, m.offset, x), m.clip)) else None
  }

  /** Intervals map to intervals, bounds put back in order. */
  function MapClip(clip: Option<(real, real)>, s: CableMap): Option<(real, real)> {
    match clip
    case None => None
    case Some((a, b)) =>
      var a2, b2 := Affine(s.scale, s.offset, a), Affine(s.scale, s.offset, b);
      if a2 <= b2 then Some((a2, b2)) else Some((b2, a2))
  }

  function Intersect(c: Option<(real, real)>, d: Option<(real, real)>): Option<(real, real)> {
    match (c, d)
    case (None, None) => None
    case (Some(p), None) => c
    case (None, Some(p)) => d
    case (Some((a1, b1)), Some((a2, b2))) => Some((Max(a1, a2), Min(b1, b2)))
  }

  /** `s1` is applied first, `s2` second. */
  function Compose(s1: CableMap, s2: CableMap): CableMap {
    CableMap(Gain(s2.scale, s1.scale), Affine(s2.scale, s2.offset, s1.offset), Intersect(MapClip(s1.clip, s2), s2.clip))
  }

  /** The identity cable is a left unit always, and a right unit exactly if the clip is not crossed: it re-sorts it. */
  lemma IdentityUnit(m: CableMap)
    ensures Compose(IDENTITY, m) == m
    ensures Compose(m, IDENTITY) == m <==> Valid(m)
  {
    UnitGain(m.scale);
    UnitGain(m.offset);
    if m.clip.Some? {
      UnitGain(m.clip.value.0);
      UnitGain(m.clip.value.1);
    }
    hide Gain;
  }

  lemma UnitGain(x: real)
    ensures Gain(1.0, x) == x == Gain(x, 1.0) && Gain(x, 0.0) == 0.0
  {}

  lemma AffineMono(k: real, o: real, x: real, y: real)
    requires x <= y
    ensures k >= 0.0 ==> Affine(k, o, x) <= Affine(k, o, y)
    ensures k <= 0.0 ==> Affine(k, o, y) <= Affine(k, o, x)
    ensures k != 0.0 && x < y ==> Affine(k, o, x) != Affine(k, o, y)
  {
    var d := y - x;
    assert k * y == k * x + k * d;
    assert k >= 0.0 ==> k * d >= 0.0;
    assert k <= 0.0 ==> k * d <= 0.0;
    assert k != 0.0 && d > 0.0 ==> k * d != 0.0;
  }

  /** A gain of either sign takes a clamp to the clamp of the mapped bounds. */
  lemma ClampMapped(y: real, lo: real, hi: real, s: CableMap)
    requires lo <= hi
    ensures MapClip(Some((lo, hi)), s).Some?
    ensures var c := MapClip(Some((lo, hi)), s).value;
            c.0 <= c.1 && Affine(s.scale, s.offset, Clamp(y, lo, hi)) == Clamp(Affine(s.scale, s.offset, y), c.0, c.1)
  {
    hide Affine, Gain;
    AffineMono(s.scale, s.offset, lo, hi);
    if y < lo { AffineMono(s.scale, s.offset, y, lo); }
    else if y > hi { AffineMono(s.scale, s.offset, hi, y); }
    else {
      AffineMono(s.scale, s.offset, lo, y);
      AffineMono(s.scale, s.offset, y, hi);
    }
  }

  lemma AffineCompose(k1: real, o1: real, k2: real, o2: real, x: real)
    ensures Affine(Gain(k2, k1), Affine(k2, o2, o1), x) == Affine(k2, o2, Affine(k1, o1, x))
  {
    assert (k2 * k1) * x == k2 * (k1 * x);
    assert k2 * (k1 * x + o1) == k2 * (k1 * x) + k2 * o1;
  }

  /** What two segments in a row do to a value. */
  function ApplyBoth(s1: CableMap, s2: CableMap, x: real): Option<real> {
    var y := Apply(s1, x);
    if y.None? then None else Apply(s2, y.value)
  }

  /**
     Composing two well-formed segments denotes applying one after the other exactly when the composed clip range is
     not empty; an empty intersection is where reading through the composed cable panics.
     */
  lemma ComposeDenotes(s1: CableMap, s2: CableMap, x: real)
    requires Valid(s1) && Valid(s2)
    ensures Apply(Compose(s1, s2), x) == ApplyBoth(s1, s2, x) <==> Valid(Compose(s1, s2))
  {
    hide Affine, Gain;
    AffineCompose(s1.scale, s1.offset, s2.scale, s2.offset, x);
    if s1.clip.Some? {
      ClampMapped(Affine(s1.scale, s1.offset, x), s1.clip.value.0, s1.clip.value.1, s2);
    }
  }

  // ── Chains ──

  /** The composed map of a chain of segments, source side first. */
  function Fold(segments: seq<CableMap>): CableMap {
    if |segments| == 0 then IDENTITY
    else Compose(Fold(segments[..|segments| - 1]), segments[|segments| - 1])
  }

  function ApplyAll(segments: seq<CableMap>, x: real): Option<real> {
    if |segments| == 0 then Some(x)
    else
      var y := ApplyAll(segments[..|segments| - 1], x);
      if y.None? then None else Apply(segments[|segments| - 1], y.value)
  }

  predicate AllValid(segments: seq<CableMap>) {
    forall s :: s in segments ==> Valid(s)
  }

  predicate Ordered(clip: Option<(real, real)>) {
    clip.Some? ==> clip.value.0 <= clip.value.1
  }

  /** The values that a range `c` still takes once clamped into `d`. */
  function Narrow(c: Option<(real, real)>, d: Option<(real, real)>): Option<(real, real)> {
    match (c, d)
    case (None, _) => d
    case (_, None) => c
    case (Some((a, b)), Some((lo, hi))) => Some((Clamp(a, lo, hi), Clamp(b, lo, hi)))
  }

  /** The values a chain can take, `None` for all: each segment maps them and clamps them into its own range. */
  function Range(segments: seq<CableMap>): Option<(real, real)> {
    if |segments| == 0 then None
    else
      var s := segments[|segments| - 1];
      Narrow(MapClip(Range(segments[..|segments| - 1]), s), s.clip)
  }

  lemma {:induction false} RangeOrdered(segments: seq<CableMap>)
    requires AllValid(segments)
    ensures Ordered(Range(segments))
  {
    if |segments| > 0 {
      hide Affine, Gain;
      assert segments[|segments| - 1] in segments;
      RangeOrdered(segments[..|segments| - 1]);
    }
  }

  /** Clipping to a range and then to another is clipping once, to what the second leaves of the first. */
  lemma ClippedTwice(y: real, c: Option<(real, real)>, d: Option<(real, real)>)
    requires Ordered(c) && Ordered(d)
    ensures Clipped(Clipped(y, c), d) == Clipped(y, Narrow(c, d))
  {}

  lemma AffineClipped(y: real, clip: Option<(real, real)>, s: CableMap)
    requires Ordered(clip)
    ensures Ordered(MapClip(clip, s))
    ensures Affine(s.scale, s.offset, Clipped(y, clip)) == Clipped(Affine(s.scale, s.offset, y), MapClip(clip, s))
  {
    if clip.Some? {
      ClampMapped(y, clip.value.0, clip.value.1, s);
    }
  }

  /** A chain of well-formed segments is the folded gain and offset, clipped once, to the range of the chain. */
  lemma {:induction false} ChainIsOneClip(segments: seq<CableMap>, x: real)
    requires AllValid(segments)
    ensures ApplyAll(segments, x)
            == Some(Clipped(Affine(Fold(segments).scale, Fold(segments).offset, x), Range(segments)))
  {
    hide Clipped, MapClip, Narrow, Affine, Gain;
    if |segments| == 0 {
      IdentityAffine(x);
      NoClip(x);
    } else {
      var rest, s := segments[..|segments| - 1], segments[|segments| - 1];
      assert s in segments;
      ChainIsOneClip(rest, x);
      RangeOrdered(rest);
      var y := Affine(Fold(rest).scale, Fold(rest).offset, x);
      AffineClipped(y, Range(rest), s);
      ClippedTwice(Affine(s.scale, s.offset, y), MapClip(Range(rest), s), s.clip);
      AffineCompose(Fold(rest).scale, Fold(rest).offset, s.scale, s.offset, x);
    }
  }

  lemma IdentityAffine(x: real)
    ensures Affine(IDENTITY.scale, IDENTITY.offset, x) == x
  {}

  lemma NoClip(y: real)
    ensures Clipped(y, None) == y
  {}

  // ── When a composed map stands for its chain ──

  /** Clipping to the map's own range and to `range` come to the same, for every value or for the only one there is. */
  predicate SameReading(m: CableMap, range: Option<(real, real)>) {
    m.clip == range || (m.scale == 0.0 && Clipped(m.offset, m.clip) == Clipped(m.offset, range))
  }

  lemma Preimage(k: real, o: real, y: real)
    requires k != 0.0
    ensures Affine(k, o, (y - o) / k) == y
  {}

  lemma ZeroGain(o: real, x: real)
    ensures Affine(0.0, o, x) == o
  {}

  /** Two different ranges are told apart by a value beyond one of their ends. */
  lemma RangesApart(c: Option<(real, real)>, d: Option<(real, real)>) returns (y: real)
    requires Ordered(c) && Ordered(d) && c != d
    ensures Clipped(y, c) != Clipped(y, d)
  {
    match (c, d)
    case (None, Some(p)) => y := p.1 + 1.0;
    case (Some(p), None) => y := p.1 + 1.0;
    case (Some(p), Some(q)) => y := if p.0 != q.0 then Min(p.0, q.0) - 1.0 else Max(p.1, q.1) + 1.0;
  }

  /** Any map with the gain and offset of a chain reads as the chain does exactly when its range does. */
  lemma ReadsAsChain(m: CableMap, segments: seq<CableMap>)
    requires AllValid(segments) && m.scale == Fold(segments).scale && m.offset == Fold(segments).offset
    ensures (forall x :: Apply(m, x) == ApplyAll(segments, x)) <==> Valid(m) && SameReading(m, Range(segments))
  {
    hide Affine, Gain, Range, Fold, ApplyAll, Clipped;
    var range := Range(segments);
    RangeOrdered(segments);
    forall x ensures ApplyAll(segments, x) == Some(Clipped(Affine(m.scale, m.offset, x), range)) {
      ChainIsOneClip(segments, x);
    }
    if m.scale == 0.0 {
      forall x ensures Affine(m.scale, m.offset, x) == m.offset { ZeroGain(m.offset, x); }
      assert Apply(m, 0.0) == ApplyAll(segments, 0.0) ==> Valid(m) && SameReading(m, range);
    } else if Valid(m) && m.clip != range {
      var y := RangesApart(m.clip, range);
      Preimage(m.scale, m.offset, y);
      assert Apply(m, (y - m.offset) / m.scale) != ApplyAll(segments, (y - m.offset) / m.scale);
    } else {
      assert Apply(m, 0.0) == ApplyAll(segments, 0.0) ==> Valid(m);
    }
  }

  /**
     Folding a chain of well-formed segments denotes applying them one after the other exactly when the folded range is
     not crossed and is the range of the chain, or the whole chain is constant and both ranges keep the constant.
     */
  lemma FoldDenotes(segments: seq<CableMap>)
    requires AllValid(segments)
    ensures (forall x :: Apply(Fold(segments), x) == ApplyAll(segments, x))
       <==> Valid(Fold(segments)) && SameReading(Fold(segments), Range(segments))
  {
    ReadsAsChain(Fold(segments), segments);
  }

  predicate Meet(c: Option<(real, real)>, d: Option<(real, real)>) {
    c.Some? && d.Some? ==> Max(c.value.0, d.value.0) <= Min(c.value.1, d.value.1)
  }

  /** Every segment's clip meets the values that reach it, so no segment pins them all to one of its ends. */
  predicate AllMeet(segments: seq<CableMap>) {
    forall n :: 0 <= n < |segments| ==> Meet(MapClip(Range(segments[..n]), segments[n]), segments[n].clip)
  }

  /** Every running clip intersection is non-empty. */
  predicate RunningValid(segments: seq<CableMap>) {
    forall n :: 0 <= n <= |segments| ==> Valid(Fold(segments[..n]))
  }

  lemma NarrowIsIntersect(c: Option<(real, real)>, d: Option<(real, real)>)
    requires Ordered(c) && Ordered(d)
    ensures Ordered(Intersect(c, d)) <==> Meet(c, d)
    ensures Meet(c, d) ==> Intersect(c, d) == Narrow(c, d)
  {}

  lemma AllMeetSnoc(segments: seq<CableMap>, s: CableMap)
    ensures AllMeet(segments + [s]) <==> AllMeet(segments) && Meet(MapClip(Range(segments), s), s.clip)
  {
    hide Meet, MapClip, Range;
    var all := segments + [s];
    assert all[..|segments|] == segments && all[|segments|] == s;
    assert forall n :: 0 <= n < |segments| ==> all[..n] == segments[..n] && all[n] == segments[n];
  }

  lemma RunningValidSnoc(segments: seq<CableMap>, s: CableMap)
    ensures RunningValid(segments + [s]) <==> RunningValid(segments) && Valid(Fold(segments + [s]))
  {
    hide Valid, Fold;
    var all := segments + [s];
    assert all[..|all|] == all;
    assert forall n :: 0 <= n <= |segments| ==> all[..n] == segments[..n];
    if RunningValid(all) {
      forall n | 0 <= n <= |segments| ensures Valid(Fold(segments[..n])) { assert Valid(Fold(all[..n])); }
    }
  }

  /** The clips all meet exactly when no running intersection is empty; then the fold has the chain's range. */
  lemma {:induction false} MeetIsRunningValid(segments: seq<CableMap>)
    requires AllValid(segments)
    ensures AllMeet(segments) <==> RunningValid(segments)
    ensures AllMeet(segments) ==> Fold(segments).clip == Range(segments)
  {
    hide Affine, Gain, MapClip, Narrow, Intersect, Meet, AllMeet, RunningValid;
    var n := |segments|;
    if n == 0 {
      NothingMeets();
    } else {
      var rest, s := segments[..n - 1], segments[n - 1];
      assert s in segments && segments == rest + [s];
      MeetIsRunningValid(rest);
      RangeOrdered(rest);
      MapClipOrdered(Range(rest), s);
      NarrowIsIntersect(MapClip(Range(rest), s), s.clip);
      AllMeetSnoc(rest, s);
      RunningValidSnoc(rest, s);
      RunningLast(rest);
    }
  }

  lemma NothingMeets()
    ensures AllMeet([]) && RunningValid([]) && Fold([]).clip == Range([])
  {}

  lemma RunningLast(segments: seq<CableMap>)
    ensures RunningValid(segments) ==> Valid(Fold(segments))
  {
    assert segments[..|segments|] == segments;
  }

  /** What a patch author can check along the chain: if every clip meets what reaches it, folding is exact. */
  lemma MeetingChainDenotes(segments: seq<CableMap>)
    requires AllValid(segments) && AllMeet(segments)
    ensures forall x :: Apply(Fold(segments), x) == ApplyAll(segments, x)
  {
    hide Apply, ApplyAll, Fold, Range, AllMeet, RunningValid;
    MeetIsRunningValid(segments);
    RunningLast(segments);
    FoldDenotes(segments);
  }

  // ── Any bracketing ──

  /** The order in which template expansion composes a chain: from the target at in-ports, from the source elsewhere. */
  datatype Bracketing = Leaf(segment: CableMap) | Node(first: Bracketing, second: Bracketing)

  function Composed(t: Bracketing): CableMap {
    match t
    case Leaf(m) => m
    case Node(a, b) => Compose(Composed(a), Composed(b))
  }

  function Segments(t: Bracketing): seq<CableMap> {
    match t
    case Leaf(m) => [m]
    case Node(a, b) => Segments(a) + Segments(b)
  }

  predicate EveryNodeValid(t: Bracketing) {
    Valid(Composed(t)) && (t.Node? ==> EveryNodeValid(t.first) && EveryNodeValid(t.second))
  }

  lemma {:induction false} FoldGainConcat(a: seq<CableMap>, b: seq<CableMap>)
    ensures Fold(a + b).scale == Compose(Fold(a), Fold(b)).scale
    ensures Fold(a + b).offset == Compose(Fold(a), Fold(b)).offset
    decreases |b|
  {
    if |b| == 0 {
      assert a + b == a;
      UnitGain(Fold(a).scale);
      UnitGain(Fold(a).offset);
    } else {
      hide Affine, Gain, Intersect, MapClip;
      var rest, s := b[..|b| - 1], b[|b| - 1];
      FoldGainConcat(a, rest);
      assert (a + b)[..|a + b| - 1] == a + rest && (a + b)[|a + b| - 1] == s;
      ScaleAssoc(Fold(a), Fold(rest), s);
    }
  }

  lemma {:induction false} ComposedGain(t: Bracketing)
    ensures Composed(t).scale == Fold(Segments(t)).scale && Composed(t).offset == Fold(Segments(t)).offset
  {
    match t
    case Leaf(m) =>
      assert [m][..0] == [];
      UnitGain(m.scale);
      UnitGain(m.offset);
    case Node(a, b) =>
      hide Affine, Gain, Intersect, MapClip, Fold;
      ComposedGain(a);
      ComposedGain(b);
      FoldGainConcat(Segments(a), Segments(b));
  }

  lemma {:induction false} ApplyAllConcat(a: seq<CableMap>, b: seq<CableMap>, x: real)
    ensures ApplyAll(a + b, x)
            == if ApplyAll(a, x).None? then None else ApplyAll(b, ApplyAll(a, x).value)
    decreases |b|
  {
    if |b| == 0 {
      assert a + b == a;
    } else {
      hide Apply;
      ApplyAllConcat(a, b[..|b| - 1], x);
      assert (a + b)[..|a + b| - 1] == a + b[..|b| - 1];
    }
  }

  lemma {:induction false} ValidNodesDenote(t: Bracketing, x: real)
    requires EveryNodeValid(t)
    ensures Apply(Composed(t), x) == ApplyAll(Segments(t), x)
  {
    match t
    case Leaf(m) => assert [m][..0] == [];
    case Node(a, b) =>
      hide Compose, Valid;
      var y := Apply(Composed(a), x);
      ValidNodesDenote(a, x);
      if y.Some? { ValidNodesDenote(b, y.value); }
      ApplyAllConcat(Segments(a), Segments(b), x);
      ComposeDenotes(Composed(a), Composed(b), x);
  }

  /**
     However a chain of well-formed segments is bracketed, the composed map denotes the chain exactly when its range is
     the chain's, or the chain is constant and both ranges keep the constant; in particular when no node is crossed.
     */
  lemma BracketingDenotes(t: Bracketing)
    requires AllValid(Segments(t))
    ensures (forall x :: Apply(Composed(t), x) == ApplyAll(Segments(t), x))
       <==> Valid(Composed(t)) && SameReading(Composed(t), Range(Segments(t)))
    ensures EveryNodeValid(t) ==> forall x :: Apply(Composed(t), x) == ApplyAll(Segments(t), x)
  {
    hide Apply, ApplyAll, Composed, Segments, Fold, Range, EveryNodeValid;
    ComposedGain(t);
    ReadsAsChain(Composed(t), Segments(t));
    if EveryNodeValid(t) {
      forall x ensures Apply(Composed(t), x) == ApplyAll(Segments(t), x) { ValidNodesDenote(t, x); }
    }
  }

  /** The order of two mapped bounds follows the sign of the gain. */
  lemma AffineOrder(s: CableMap, x: real, y: real)
    ensures var p, q := Affine(s.scale, s.offset, x), Affine(s.scale, s.offset, y);
            && (s.scale > 0.0 ==> (p <= q <==> x <= y) && (q <= p <==> y <= x))
            && (s.scale < 0.0 ==> (p <= q <==> y <= x) && (q <= p <==> x <= y))
            && (s.scale == 0.0 ==> p == q)
  {
    hide Affine, Gain;
    if x <= y { AffineMono(s.scale, s.offset, x, y); } else { AffineMono(s.scale, s.offset, y, x); }
  }

  function At(s: CableMap, x: real): real { Affine(s.scale, s.offset, x) }

  /** Mapped bounds of two intervals and of their intersection, for a gain of either sign. */
  lemma AffineOrders(s: CableMap, c: (real, real), d: (real, real))
    ensures s.scale > 0.0 ==> (At(s, c.0) <= At(s, c.1) <==> c.0 <= c.1) && (At(s, d.0) <= At(s, d.1) <==> d.0 <= d.1)
    ensures s.scale > 0.0 ==> At(s, Max(c.0, d.0)) == Max(At(s, c.0), At(s, d.0))
    ensures s.scale > 0.0 ==> At(s, Min(c.1, d.1)) == Min(At(s, c.1), At(s, d.1))
    ensures s.scale < 0.0 ==> (At(s, c.1) <= At(s, c.0) <==> c.0 <= c.1) && (At(s, d.1) <= At(s, d.0) <==> d.0 <= d.1)
    ensures s.scale < 0.0 ==> At(s, Max(c.0, d.0)) == Min(At(s, c.0), At(s, d.0))
    ensures s.scale < 0.0 ==> At(s, Min(c.1, d.1)) == Max(At(s, c.1), At(s, d.1))
    ensures s.scale == 0.0 ==> At(s, c.0) == At(s, c.1) == At(s, d.0) == At(s, d.1)
    ensures s.scale == 0.0 ==> At(s, Max(c.0, d.0)) == At(s, Min(c.1, d.1)) == At(s, c.0)
  {
    hide Affine, Gain;
    AffineOrder(s, c.0, c.1);
    AffineOrder(s, d.0, d.1);
    AffineOrder(s, c.0, d.0);
    AffineOrder(s, c.1, d.1);
    AffineOrder(s, c.0, d.1);
    AffineOrder(s, c.1, d.0);
  }

  /** Mapping an intersection through a further segment: exact when it is not empty, or when the gain is zero. */
  lemma MapIntersect(c: (real, real), d: (real, real), s: CableMap)
    requires c.0 <= c.1 && d.0 <= d.1
    requires Max(c.0, d.0) <= Min(c.1, d.1) || s.scale == 0.0
    ensures MapClip(Some((Max(c.0, d.0), Min(c.1, d.1))), s) == Intersect(MapClip(Some(c), s), MapClip(Some(d), s))
  {
    hide Affine, Gain;
    AffineOrders(s, c, d);
    AffineOrder(s, Max(c.0, d.0), Min(c.1, d.1));
  }

  /** Mapping crossed bounds uncrosses them; mapping the two intervals first leaves them crossed. */
  lemma CrossedMap(c: (real, real), d: (real, real), s: CableMap)
    requires c.0 <= c.1 && d.0 <= d.1 && s.scale != 0.0
    requires Max(c.0, d.0) > Min(c.1, d.1)
    ensures MapClip(Some((Max(c.0, d.0), Min(c.1, d.1))), s).Some?
    ensures Intersect(MapClip(Some(c), s), MapClip(Some(d), s)).Some?
    ensures var p := MapClip(Some((Max(c.0, d.0), Min(c.1, d.1))), s).value;
            var q := Intersect(MapClip(Some(c), s), MapClip(Some(d), s)).value;
            p.0 < p.1 && q == (p.1, p.0)
  {
    hide Affine, Gain;
    AffineOrders(s, c, d);
    AffineOrder(s, Max(c.0, d.0), Min(c.1, d.1));
  }

  lemma MapClipCompose(clip: Option<(real, real)>, b: CableMap, c: CableMap)
    ensures MapClip(clip, Compose(b, c)) == MapClip(MapClip(clip, b), c)
  {
    hide Affine, Gain;
    if clip.Some? {
      AffineCompose(b.scale, b.offset, c.scale, c.offset, clip.value.0);
      AffineCompose(b.scale, b.offset, c.scale, c.offset, clip.value.1);
      var p, q := Affine(b.scale, b.offset, clip.value.0), Affine(b.scale, b.offset, clip.value.1);
      assert MapClip(clip, b) == Some(if p <= q then (p, q) else (q, p));
    }
  }

  lemma GainAssoc(x: real, y: real, z: real)
    ensures Gain(z, Gain(y, x)) == Gain(Gain(z, y), x)
  {}

  lemma ScaleAssoc(a: CableMap, b: CableMap, c: CableMap)
    ensures Compose(Compose(a, b), c).scale == Compose(a, Compose(b, c)).scale
    ensures Compose(Compose(a, b), c).offset == Compose(a, Compose(b, c)).offset
  {
    hide Affine, Gain;
    GainAssoc(a.scale, b.scale, c.scale);
    AffineCompose(b.scale, b.offset, c.scale, c.offset, a.offset);
  }

  lemma IntersectAssoc(c: Option<(real, real)>, d: Option<(real, real)>, e: Option<(real, real)>)
    ensures Intersect(Intersect(c, d), e) == Intersect(c, Intersect(d, e))
  {}

  lemma MapClipOrdered(clip: Option<(real, real)>, s: CableMap)
    ensures MapClip(clip, s).Some? <==> clip.Some?
    ensures clip.Some? ==> MapClip(clip, s).value.0 <= MapClip(clip, s).value.1
  {}

  /** An interval and the same interval with its bounds crossed never agree after clipping to a valid range. */
  lemma CrossedDiffers(p: (real, real), q: (real, real), clip: Option<(real, real)>)
    requires p.0 < p.1 && q == (p.1, p.0)
    requires clip.Some? ==> clip.value.0 <= clip.value.1
    ensures Intersect(Some(p), clip) != Intersect(Some(q), clip)
  {}

  /**
     Composition of well-formed segments is associative exactly when the first two ranges meet or the last gain is
     zero: otherwise composing again puts the crossed bounds of the empty range back in order.
     */
  lemma ComposeAssociative(a: CableMap, b: CableMap, c: CableMap)
    requires Valid(a) && Valid(b) && Valid(c)
    ensures Compose(Compose(a, b), c) == Compose(a, Compose(b, c)) <==> Valid(Compose(a, b)) || c.scale == 0.0
  {
    hide MapClip, Affine, Gain;
    ScaleAssoc(a, b, c);
    MapClipCompose(a.clip, b, c);
    MapClipOrdered(a.clip, b);
    var m := MapClip(a.clip, b);
    assert Compose(a, b).clip == Intersect(m, b.clip) && Compose(b, c).clip == Intersect(MapClip(b.clip, c), c.clip);
    MapClipOrdered(m, c);
    MapClipOrdered(b.clip, c);
    IntersectAssoc(MapClip(m, c), MapClip(b.clip, c), c.clip);
    if m.Some? && b.clip.Some? {
      var i := (Max(m.value.0, b.clip.value.0), Min(m.value.1, b.clip.value.1));
      if i.0 <= i.1 || c.scale == 0.0 {
        MapIntersect(m.value, b.clip.value, c);
      } else {
        CrossedMap(m.value, b.clip.value, c);
        CrossedDiffers(MapClip(Some(i), c).value, Intersect(MapClip(m, c), MapClip(b.clip, c)).value, c.clip);
      }
    }
  }

  // ── The ranges the language writes ──

  /** `uni(lo, hi)`: 0 to 1 becomes `lo` to `hi`. */
  function Uni(lo: real, hi: real): CableMap {
    CableMap(hi - lo, lo, Some((Min(lo, hi), Max(lo, hi))))
  }

  /** `bi(lo, hi)`: -1 to 1 becomes `lo` to `hi`. */
  function Bi(lo: real, hi: real): CableMap {
    CableMap((hi - lo) / 2.0, (hi + lo) / 2.0, Some((Min(lo, hi), Max(lo, hi))))
  }

  /** A scaled cable multiplies, an unscaled one passes every value on. */
  lemma ScalarReads(k: real, x: real)
    ensures Valid(Scalar(k)) && Apply(Scalar(k), x) == Some(k * x) && Apply(IDENTITY, x) == Some(x)
  {
    GainIs(k, x);
    IdentityAffine(x);
    hide Gain;
  }

  lemma GainIs(k: real, x: real)
    ensures Affine(k, 0.0, x) == k * x
  {}

  /** A range is well formed, takes the ends of its domain to its own ends, and never leaves them. */
  lemma RangeEnds(lo: real, hi: real, x: real)
    ensures Valid(Uni(lo, hi)) && Apply(Uni(lo, hi), 0.0) == Some(lo) && Apply(Uni(lo, hi), 1.0) == Some(hi)
    ensures Valid(Bi(lo, hi)) && Apply(Bi(lo, hi), -1.0) == Some(lo) && Apply(Bi(lo, hi), 1.0) == Some(hi)
    ensures Min(lo, hi) <= Apply(Uni(lo, hi), x).value <= Max(lo, hi)
    ensures Min(lo, hi) <= Apply(Bi(lo, hi), x).value <= Max(lo, hi)
  {
    assert Affine(hi - lo, lo, 0.0) == lo && Affine(hi - lo, lo, 1.0) == hi;
    assert Affine((hi - lo) / 2.0, (hi + lo) / 2.0, -1.0) == lo && Affine((hi - lo) / 2.0, (hi + lo) / 2.0, 1.0) == hi;
    hide Affine;
  }

  /** A chain and one segment more. */
  lemma Snoc(segments: seq<CableMap>, s: CableMap, x: real)
    ensures Fold(segments + [s]) == Compose(Fold(segments), s)
    ensures Range(segments + [s]) == Narrow(MapClip(Range(segments), s), s.clip)
    ensures ApplyAll(segments + [s], x)
            == var y := ApplyAll(segments, x); if y.None? then None else Apply(s, y.value)
  {
    assert (segments + [s])[..|segments|] == segments;
  }

  lemma PinnedCompose()
    ensures Compose(Uni(2.0, 3.0), Uni(0.0, 1.0)) == CableMap(1.0, 2.0, Some((2.0, 1.0)))
    ensures MapClip(Some((2.0, 3.0)), Uni(0.0, 1.0)) == Some((2.0, 3.0))
    ensures Compose(CableMap(1.0, 2.0, Some((2.0, 1.0))), IDENTITY) == CableMap(1.0, 2.0, Some((1.0, 2.0)))
    ensures Apply(Uni(2.0, 3.0), 0.0) == Some(2.0) && Apply(Uni(0.0, 1.0), 2.0) == Some(1.0)
    ensures Apply(CableMap(1.0, 2.0, Some((1.0, 2.0))), 0.0) == Some(2.0) && Apply(IDENTITY, 1.0) == Some(1.0)
    ensures Uni(2.0, 3.0) == CableMap(1.0, 2.0, Some((2.0, 3.0))) && Valid(Uni(2.0, 3.0))
    ensures Uni(0.0, 1.0) == CableMap(1.0, 0.0, Some((0.0, 1.0)))
  {}

  /** `uni(2, 3)` and then `uni(0, 1)`: everything is pinned to 1, and the folded range has crossed bounds. */
  lemma PinnedChain()
    ensures var pinned := [Uni(2.0, 3.0), Uni(0.0, 1.0)];
            && Fold(pinned) == CableMap(1.0, 2.0, Some((2.0, 1.0))) && Range(pinned) == Some((1.0, 1.0))
            && ApplyAll(pinned, 0.0) == Some(1.0) && !AllMeet(pinned)
  {
    hide Fold, Range, ApplyAll, AllMeet, Compose, MapClip, Apply, Affine, Gain, Uni;
    var a, b := Uni(2.0, 3.0), Uni(0.0, 1.0);
    PinnedCompose();
    EmptyChain(0.0);
    Snoc([], a, 0.0);
    Snoc([a], b, 0.0);
    AllMeetSnoc([a], b);
    IdentityUnit(a);
    MapClipOrdered(None, a);
    assert [] + [a] == [a] && [a] + [b] == [a, b];
  }

  lemma EmptyChain(x: real)
    ensures Fold([]) == IDENTITY && Range([]) == None && ApplyAll([], x) == Some(x)
  {}

  /**
     A chain that folds to another function: an unscaled cable after `uni(2, 3)` and `uni(0, 1)` puts the crossed
     bounds (2, 1) back in order, to a range that lets 2 through. So composition is not associative either.
     */
  lemma UncrossedRange()
    ensures var chain := [Uni(2.0, 3.0), Uni(0.0, 1.0), IDENTITY];
            Apply(Fold(chain), 0.0) == Some(2.0) && ApplyAll(chain, 0.0) == Some(1.0)
    ensures Compose(Compose(Uni(2.0, 3.0), Uni(0.0, 1.0)), IDENTITY)
            != Compose(Uni(2.0, 3.0), Compose(Uni(0.0, 1.0), IDENTITY))
  {
    hide Fold, Range, ApplyAll, AllMeet, Compose, MapClip, Apply, Affine, Gain, Uni;
    var pinned := [Uni(2.0, 3.0), Uni(0.0, 1.0)];
    PinnedCompose();
    PinnedChain();
    Snoc(pinned, IDENTITY, 0.0);
    assert pinned + [IDENTITY] == [Uni(2.0, 3.0), Uni(0.0, 1.0), IDENTITY];
    IdentityUnit(Uni(0.0, 1.0));
  }

  /** Meeting clips are enough and not needed: a gain of 0 after the same two ranges folds to the right constant. */
  lemma MeetingNotNeeded()
    ensures var chain := [Uni(2.0, 3.0), Uni(0.0, 1.0), Scalar(0.0)];
            !AllMeet(chain) && forall x :: Apply(Fold(chain), x) == ApplyAll(chain, x)
  {
    hide Fold, Range, ApplyAll, AllMeet, Apply;
    var pinned := [Uni(2.0, 3.0), Uni(0.0, 1.0)];
    var chain := [Uni(2.0, 3.0), Uni(0.0, 1.0), Scalar(0.0)];
    PinnedChain();
    Snoc(pinned, Scalar(0.0), 0.0);
    AllMeetSnoc(pinned, Scalar(0.0));
    assert pinned + [Scalar(0.0)] == chain;
    assert Fold(chain) == CableMap(0.0, 0.0, Some((0.0, 0.0)));
    FoldDenotes(chain);
  }
}
