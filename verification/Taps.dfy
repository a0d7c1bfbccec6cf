/**
 Tap targets: which channel a tap lands on, how channels are numbered, and what the observer's manifest says, as
 functions of the taps written in the patch.
 */
module Taps {
  import opened Wrappers
  import opened Ast

  const SYNTH_TAP := "~tap"
  const TYPE_TAP := "Tap"

  datatype Kind = Mono | Stereo | Trigger

  function KindName(k: Kind): string {
    match k
    case Mono => "mono"
    case Stereo => "stereo"
    case Trigger => "trigger"
  }

  function PortName(k: Kind): string {
    match k
    case Mono => "mono_in"
    case Stereo => "stereo_in"
    case Trigger => "trigger_in"
  }

  /** Slots claimed by a channel: stereo takes two. */
  function Width(k: Kind): nat {
    if k.Stereo? then 2 else 1
  }

  function Classify(t: TapTarget): Kind {
    if "trigger_led" in t.components then Kind.Trigger
    else if "stereo_meter" in t.components then Stereo
    else Mono
  }

  /** Taps of one kind and name share a channel. */
  datatype Key = Key(kind: Kind, name: string)

  function KeyOf(t: TapTarget): Key {
    Key(Classify(t), t.name)
  }

  function Alias(k: Key): string {
    KindName(k.kind) + "_" + k.name
  }

  /** The input port of a channel. */
  function ChannelPort(k: Key): PortRef {
    PortRef(SYNTH_TAP, Literal(PortName(k.kind)), Some(NameIndex(Alias(k), false)))
  }

  lemma AliasDistinct(a: Key, b: Key)
    requires Alias(a) == Alias(b)
    ensures a == b
  {
    assert Alias(a)[0] == KindName(a.kind)[0] && Alias(b)[0] == KindName(b.kind)[0];
    var n := |KindName(a.kind)| + 1;
    assert Alias(a)[n..] == a.name && Alias(b)[n..] == b.name;
  }

  // ── Collecting and coalescing ──

  function TapsOfEndpoint(e: Endpoint): seq<TapTarget> {
    if e.Tap? then [e.tap] else []
  }

  /** Every tap written in a body, in source order. */
  function Occurrences(body: seq<Statement>): seq<TapTarget> {
    if body == [] then []
    else
      var last := body[|body| - 1];
      Occurrences(body[..|body| - 1])
      + if last.Cable? then TapsOfEndpoint(last.connection.lhs) + TapsOfEndpoint(last.connection.rhs) else []
  }

  /** Taps are taken statement by statement, and in a cable from left to right. */
  lemma OccurrencesOfCable(body: seq<Statement>, l: Endpoint, arrow: Arrow, r: Endpoint)
    ensures Occurrences(body + [Cable(Connection(l, arrow, r))])
            == Occurrences(body) + (if l.Tap? then [l.tap] else []) + (if r.Tap? then [r.tap] else [])
    ensures Occurrences([]) == []
  {
    assert (body + [Cable(Connection(l, arrow, r))])[..|body|] == body;
  }

  /** The components of `a`, then those of `b` that are new. */
  function Union(a: seq<string>, b: seq<string>): (r: seq<string>)
    ensures a <= r && forall c :: c in r <==> c in a || c in b
  {
    if b == [] then a
    else
      assert b == b[..|b| - 1] + [b[|b| - 1]];
      var front := Union(a, b[..|b| - 1]);
      if b[|b| - 1] in front then front else front + [b[|b| - 1]]
  }

  function Merged(t: TapTarget, u: TapTarget): TapTarget {
    TapTarget(Union(t.components, u.components), t.name)
  }

  lemma MergedKey(t: TapTarget, u: TapTarget)
    requires KeyOf(t) == KeyOf(u)
    ensures KeyOf(Merged(t, u)) == KeyOf(t)
  {}

  /** The channel of a key, if it has one. */
  function Find(unique: seq<TapTarget>, k: Key): (i: Option<nat>)
    ensures i.Some? ==> i.value < |unique| && KeyOf(unique[i.value]) == k
    ensures i.None? ==> forall j :: 0 <= j < |unique| ==> KeyOf(unique[j]) != k
  {
    if unique == [] then None
    else if KeyOf(unique[|unique| - 1]) == k then Some(|unique| - 1)
    else Find(unique[..|unique| - 1], k)
  }

  function Folded(unique: seq<TapTarget>, t: TapTarget): seq<TapTarget> {
    var i := Find(unique, KeyOf(t));
    if i.Some? then unique[i.value := Merged(unique[i.value], t)] else unique + [t]
  }

  /** One channel per key, in order of first occurrence. */
  function Coalesced(occurrences: seq<TapTarget>): seq<TapTarget> {
    if occurrences == [] then []
    else Folded(Coalesced(occurrences[..|occurrences| - 1]), occurrences[|occurrences| - 1])
  }

  ghost predicate DistinctKeys(unique: seq<TapTarget>) {
    forall i, j :: 0 <= i < j < |unique| ==> KeyOf(unique[i]) != KeyOf(unique[j])
  }

  ghost predicate Mentions(occurrences: seq<TapTarget>, k: Key, c: string) {
    exists o :: o in occurrences && KeyOf(o) == k && c in o.components
  }

  ghost predicate Written(occurrences: seq<TapTarget>, k: Key) {
    exists o :: o in occurrences && KeyOf(o) == k
  }

  ghost predicate HasChannel(unique: seq<TapTarget>, k: Key) {
    exists i :: 0 <= i < |unique| && KeyOf(unique[i]) == k
  }

  /** One channel for each key written; a channel's components are exactly those written for its key. */
  ghost predicate IsCoalesced(occurrences: seq<TapTarget>, unique: seq<TapTarget>) {
    && DistinctKeys(unique)
    && (forall k :: Written(occurrences, k) <==> HasChannel(unique, k))
    && (forall i, c :: 0 <= i < |unique| ==>
          (c in unique[i].components <==> Mentions(occurrences, KeyOf(unique[i]), c)))
  }

  lemma WrittenMore(occurrences: seq<TapTarget>, t: TapTarget)
    ensures forall k :: Written(occurrences + [t], k) <==> Written(occurrences, k) || KeyOf(t) == k
    ensures forall k, c :: Mentions(occurrences + [t], k, c)
              <==> Mentions(occurrences, k, c) || (KeyOf(t) == k && c in t.components)
  {
    hide KeyOf;
    forall o ensures o in occurrences + [t] <==> o in occurrences || o == t {
      assert (occurrences + [t])[|occurrences|] == t;
    }
  }

  /** Folding a tap in keeps every other channel, and leaves its own key with the components of both. */
  lemma FoldedAt(unique: seq<TapTarget>, t: TapTarget)
    requires DistinctKeys(unique)
    ensures var unique' := Folded(unique, t);
            && DistinctKeys(unique') && |unique| <= |unique'|
            && (forall k :: HasChannel(unique', k) <==> HasChannel(unique, k) || k == KeyOf(t))
            && (forall i :: 0 <= i < |unique'| && KeyOf(unique'[i]) != KeyOf(t) ==>
                  i < |unique| && unique'[i] == unique[i])
            && (forall i, c :: 0 <= i < |unique'| && KeyOf(unique'[i]) == KeyOf(t) ==>
                  (c in unique'[i].components <==> c in t.components || (i < |unique| && c in unique[i].components)))
            && (forall i :: 0 <= i < |unique| ==> KeyOf(unique'[i]) == KeyOf(unique[i]))
  {
    var found, unique' := Find(unique, KeyOf(t)), Folded(unique, t);
    if found.Some? {
      MergedKey(unique[found.value], t);
      UnionHas(unique[found.value].components, t.components);
    }
    hide KeyOf, Union;
    forall k ensures HasChannel(unique', k) <==> HasChannel(unique, k) || k == KeyOf(t) {
      if HasChannel(unique, k) {
        var i :| 0 <= i < |unique| && KeyOf(unique[i]) == k;
        assert KeyOf(unique'[i]) == k;
      } else if k == KeyOf(t) {
        assert KeyOf(unique'[|unique|]) == k;
      }
    }
  }

  lemma UnionHas(a: seq<string>, b: seq<string>)
    ensures forall c :: c in Union(a, b) <==> c in a || c in b
  {}

  lemma FoldStep(occurrences: seq<TapTarget>, unique: seq<TapTarget>, t: TapTarget)
    requires IsCoalesced(occurrences, unique)
    ensures IsCoalesced(occurrences + [t], Folded(unique, t))
  {
    hide KeyOf, Folded, DistinctKeys, Mentions, Written;
    var unique', all := Folded(unique, t), occurrences + [t];
    FoldedAt(unique, t);
    WrittenMore(occurrences, t);
    forall i, c | 0 <= i < |unique'| ensures c in unique'[i].components <==> Mentions(all, KeyOf(unique'[i]), c) {
      if i >= |unique| && Mentions(occurrences, KeyOf(t), c) {
        MentionedIsWritten(occurrences, KeyOf(t), c);
        var j :| 0 <= j < |unique| && KeyOf(unique[j]) == KeyOf(t);
        assert KeyOf(unique'[j]) == KeyOf(unique'[i]);
        NotTwice(unique', j, i);
      }
    }
  }

  lemma NotTwice(unique: seq<TapTarget>, i: nat, j: nat)
    requires DistinctKeys(unique) && i < |unique| && j < |unique| && KeyOf(unique[i]) == KeyOf(unique[j])
    ensures i == j
  {}

  lemma MentionedIsWritten(occurrences: seq<TapTarget>, k: Key, c: string)
    requires Mentions(occurrences, k, c)
    ensures Written(occurrences, k)
  {}

  lemma {:induction false} CoalescedIs(occurrences: seq<TapTarget>)
    ensures IsCoalesced(occurrences, Coalesced(occurrences))
  {
    hide Folded;
    if occurrences != [] {
      var n := |occurrences| - 1;
      CoalescedIs(occurrences[..n]);
      FoldStep(occurrences[..n], Coalesced(occurrences[..n]), occurrences[n]);
      assert occurrences == occurrences[..n] + [occurrences[n]];
    }
  }

  /** The first tap with a key. */
  function FirstWith(occurrences: seq<TapTarget>, k: Key): (n: nat)
    ensures n <= |occurrences|
    ensures n < |occurrences| ==> KeyOf(occurrences[n]) == k
    ensures forall m :: 0 <= m < n ==> KeyOf(occurrences[m]) != k
    decreases |occurrences|
  {
    if occurrences == [] then 0
    else
      var n := FirstWith(occurrences[..|occurrences| - 1], k);
      if n < |occurrences| - 1 || KeyOf(occurrences[|occurrences| - 1]) == k then n else |occurrences|
  }

  /** Channels come in the order in which their keys are first written. */
  lemma {:induction false} ChannelsInOrder(occurrences: seq<TapTarget>)
    ensures var unique := Coalesced(occurrences);
            && (forall i :: 0 <= i < |unique| ==> FirstWith(occurrences, KeyOf(unique[i])) < |occurrences|)
            && (forall i, j :: 0 <= i < j < |unique| ==>
                  FirstWith(occurrences, KeyOf(unique[i])) < FirstWith(occurrences, KeyOf(unique[j])))
  {
    hide KeyOf, Folded;
    if occurrences != [] {
      var n := |occurrences| - 1;
      var front, t := occurrences[..n], occurrences[n];
      ChannelsInOrder(front);
      CoalescedIs(front);
      FoldedOrder(Coalesced(front), t);
      FirstMore(front, t);
      assert occurrences == front + [t];
    }
  }

  /** One more tap: a channel of its own, or its components behind those of its key's channel. */
  lemma OneMoreTap(occurrences: seq<TapTarget>, t: TapTarget)
    ensures var unique := Coalesced(occurrences);
            && (!HasChannel(unique, KeyOf(t)) ==> Coalesced(occurrences + [t]) == unique + [t])
            && (forall i :: 0 <= i < |unique| && KeyOf(unique[i]) == KeyOf(t) ==>
                  Coalesced(occurrences + [t])
                  == unique[i := TapTarget(Union(unique[i].components, t.components), unique[i].name)])
  {
    hide Classify, Union;
    assert (occurrences + [t])[..|occurrences|] == occurrences;
    CoalescedIs(occurrences);
  }

  /** The components of `a`, and then each of the others that is not there yet, in order. */
  lemma UnionInOrder(a: seq<string>, b: seq<string>, c: string)
    ensures Union(a, []) == a
    ensures Union(a, b + [c]) == Union(a, b) + if c in a || c in b then [] else [c]
  {
    assert (b + [c])[..|b|] == b && Union(a, b) + [] == Union(a, b);
  }

  lemma FirstMore(front: seq<TapTarget>, t: TapTarget)
    ensures forall k :: FirstWith(front, k) < |front| ==> FirstWith(front + [t], k) == FirstWith(front, k)
    ensures FirstWith(front, KeyOf(t)) == |front| ==> FirstWith(front + [t], KeyOf(t)) == |front|
  {
    hide KeyOf;
    assert (front + [t])[..|front|] == front;
  }

  /** A tap of a new key goes behind the others. */
  lemma FoldedOrder(unique: seq<TapTarget>, t: TapTarget)
    requires DistinctKeys(unique)
    ensures var unique' := Folded(unique, t);
            && |unique| <= |unique'| <= |unique| + 1
            && (forall i :: 0 <= i < |unique| ==> KeyOf(unique'[i]) == KeyOf(unique[i]))
            && (|unique'| > |unique| ==> KeyOf(unique'[|unique|]) == KeyOf(t) && !HasChannel(unique, KeyOf(t)))
  {
    hide KeyOf;
    FoldedAt(unique, t);
  }

  // ── Slots and the manifest ──

  /** The first slot of channel `i`. */
  function SlotOf(unique: seq<TapTarget>, i: nat): nat
    requires i <= |unique|
  {
    if i == 0 then 0 else SlotOf(unique, i - 1) + Width(Classify(unique[i - 1]))
  }

  datatype TapDescriptor = TapDescriptor(slot: nat, width: nat, name: string, components: seq<string>)

  /** A stereo channel publishes its two sides, one per slot. */
  function Entries(t: TapTarget, slot: nat): (r: seq<TapDescriptor>)
    ensures |r| == Width(Classify(t))
  {
    if Classify(t).Stereo?
    then [TapDescriptor(slot, 1, t.name + "/left", t.components),
          TapDescriptor(slot + 1, 1, t.name + "/right", t.components)]
    else [TapDescriptor(slot, 1, t.name, t.components)]
  }

  /** The manifest of the first `n` channels. */
  function ManifestOf(unique: seq<TapTarget>, n: nat): seq<TapDescriptor>
    requires n <= |unique|
  {
    if n == 0 then [] else ManifestOf(unique, n - 1) + Entries(unique[n - 1], SlotOf(unique, n - 1))
  }

  /** The entries of channel `i` sit at its slots. */
  ghost predicate EntriesAt(manifest: seq<TapDescriptor>, t: TapTarget, slot: nat) {
    slot + |Entries(t, slot)| <= |manifest| && manifest[slot..slot + |Entries(t, slot)|] == Entries(t, slot)
  }

  lemma EntriesStay(manifest: seq<TapDescriptor>, more: seq<TapDescriptor>, t: TapTarget, slot: nat)
    requires EntriesAt(manifest, t, slot)
    ensures EntriesAt(manifest + more, t, slot)
  {
    hide Entries;
    var n := |Entries(t, slot)|;
    assert (manifest + more)[slot..slot + n] == manifest[slot..slot + n];
  }

  lemma EntriesAdded(manifest: seq<TapDescriptor>, t: TapTarget)
    ensures EntriesAt(manifest + Entries(t, |manifest|), t, |manifest|)
    ensures forall i :: 0 <= i < |Entries(t, |manifest|)| ==> Entries(t, |manifest|)[i].slot == |manifest| + i
  {}

  /** Manifest entry `i` has slot `i`, and each channel's entries sit at its slots. */
  lemma {:induction false} ManifestSlots(unique: seq<TapTarget>, n: nat)
    requires n <= |unique|
    ensures |ManifestOf(unique, n)| == SlotOf(unique, n)
    ensures forall i :: 0 <= i < |ManifestOf(unique, n)| ==> ManifestOf(unique, n)[i].slot == i
    ensures forall i :: 0 <= i < n ==> EntriesAt(ManifestOf(unique, n), unique[i], SlotOf(unique, i))
  {
    hide Classify, Entries, EntriesAt;
    if n > 0 {
      ManifestSlots(unique, n - 1);
      var before := ManifestOf(unique, n - 1);
      EntriesAdded(before, unique[n - 1]);
      forall i | 0 <= i < n ensures EntriesAt(ManifestOf(unique, n), unique[i], SlotOf(unique, i)) {
        if i < n - 1 {
          EntriesStay(before, Entries(unique[n - 1], SlotOf(unique, n - 1)), unique[i], SlotOf(unique, i));
        }
      }
    }
  }

  // ── The synthesised module ──

  function Aliases(unique: seq<TapTarget>): (r: seq<string>)
    ensures |r| == |unique|
  {
    seq(|unique|, i requires 0 <= i < |unique| => Alias(KeyOf(unique[i])))
  }

  function ChannelParams(unique: seq<TapTarget>): (r: seq<ParamEntry>)
    ensures |r| == |unique|
  {
    seq(|unique|, i requires 0 <= i < |unique| =>
      AtBlock(AtAlias(Alias(KeyOf(unique[i]))),
              [("slot_offset", ScalarValue(IntLit(SlotOf(unique, i)))),
               ("kind", ScalarValue(StrLit(KindName(Classify(unique[i])))))]))
  }

  function SynthTap(unique: seq<TapTarget>): ModuleDecl {
    ModuleDecl(SYNTH_TAP, TYPE_TAP, Some([Bare(AliasList(Aliases(unique)))]), ChannelParams(unique), false)
  }

  lemma AliasesDistinct(unique: seq<TapTarget>)
    requires DistinctKeys(unique)
    ensures forall i, j :: 0 <= i < j < |unique| ==> Aliases(unique)[i] != Aliases(unique)[j]
  {
    hide Alias, KeyOf;
    forall i, j | 0 <= i < j < |unique| ensures Aliases(unique)[i] != Aliases(unique)[j] {
      if Aliases(unique)[i] == Aliases(unique)[j] {
        AliasDistinct(KeyOf(unique[i]), KeyOf(unique[j]));
      }
    }
  }
}
