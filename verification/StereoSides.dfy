/** What the two mono instances of a stereo declaration are given, entry by entry, in the declaration's own terms. */
module StereoSides {
  import opened Wrappers
  import opened Ast
  import opened StereoDesugar

  /** A place in a parameter list: an entry, and for a block the setting inside it. */
  type Place = (nat, nat)

  /** The setting `key: value` for `side` stands at the place: as `key[side]: value`, or inside an `@side` block. */
  predicate Says(params: seq<ParamEntry>, at: Place, side: string, key: string, value: Value) {
    at.0 < |params| &&
    match params[at.0]
    case KeyValue(name, index, v) => at.1 == 0 && name == key && v == value && index == Some(NameIndex(side, false))
    case AtBlock(to, entries) => to == AtAlias(side) && at.1 < |entries| && entries[at.1] == (key, value)
    case Shorthand(_) => false
  }

  ghost predicate SaidAt(params: seq<ParamEntry>, at: Place, side: string) {
    exists key, value :: Says(params, at, side, key, value)
  }

  ghost predicate SetFor(params: seq<ParamEntry>, side: string, key: string) {
    exists at, value :: Says(params, at, side, key, value)
  }

  /** The plain entry `e` is the setting at the place. */
  predicate IsSaid(params: seq<ParamEntry>, at: Place, side: string, e: ParamEntry) {
    e.KeyValue? && e.index == None && Says(params, at, side, e.name, e.value)
  }

  /** The entry at `i` is addressed to neither side, and `side` does not set its key. */
  ghost predicate IsShared(params: seq<ParamEntry>, i: nat, side: string) {
    && i < |params| && !ToSide(params[i], "l") && !ToSide(params[i], "r")
    && (params[i].KeyValue? ==> !SetFor(params, side, params[i].name))
  }

  predicate Before(a: Place, b: Place) {
    a.0 < b.0 || (a.0 == b.0 && a.1 < b.1)
  }

  /** `out` is the shared entries at `kept`, and then the settings at `over` as plain entries: all of them, in order. */
  ghost predicate SideFrom(params: seq<ParamEntry>, out: seq<ParamEntry>, side: string, kept: seq<nat>,
                           over: seq<Place>) {
    && |out| == |kept| + |over|
    && (forall a, b :: 0 <= a < b < |kept| ==> kept[a] < kept[b])
    && (forall a, b :: 0 <= a < b < |over| ==> Before(over[a], over[b]))
    && (forall i: nat :: i in kept <==> IsShared(params, i, side))
    && (forall at: Place :: at in over <==> SaidAt(params, at, side))
    && (forall m :: 0 <= m < |kept| ==> kept[m] < |params| && out[m] == params[kept[m]])
    && (forall m :: 0 <= m < |over| ==> IsSaid(params, over[m], side, out[|kept| + m]))
  }

  /** `out` is what `params` gives one side. */
  ghost predicate IsSide(params: seq<ParamEntry>, out: seq<ParamEntry>, side: string) {
    exists kept, over :: SideFrom(params, out, side, kept, over)
  }

  // ── The places the pass collects ──

  ghost function PlacesIn(entry: ParamEntry, i: nat, side: string): (r: seq<Place>)
    ensures |r| == |OverridesIn(entry, side)|
  {
    seq(|OverridesIn(entry, side)|, j requires 0 <= j < |OverridesIn(entry, side)| => (i, j))
  }

  ghost function Places(params: seq<ParamEntry>, side: string): (r: seq<Place>)
    ensures |r| == |Overrides(params, side)|
  {
    if |params| == 0 then []
    else
      var n := |params| - 1;
      Places(params[..n], side) + PlacesIn(params[n], n, side)
  }

  lemma PlacesInAre(params: seq<ParamEntry>, n: nat, side: string)
    requires n < |params|
    ensures var es := OverridesIn(params[n], side);
            && (forall j :: 0 <= j < |es| ==>
                  es[j].KeyValue? && es[j].index == None && Says(params, (n, j), side, es[j].name, es[j].value))
            && (forall j: nat :: SaidAt(params, (n, j), side) ==> j < |es|)
  {}

  /** Places in a prefix say in the whole list what they say in the prefix. */
  lemma SaysInPrefix(params: seq<ParamEntry>, n: nat, at: Place, side: string)
    requires n <= |params| && at.0 < n
    ensures forall key, value :: Says(params[..n], at, side, key, value) <==> Says(params, at, side, key, value)
    ensures SaidAt(params[..n], at, side) <==> SaidAt(params, at, side)
  {
    forall key, value ensures Says(params[..n], at, side, key, value) <==> Says(params, at, side, key, value) {}
    if SaidAt(params, at, side) {
      var key, value :| Says(params, at, side, key, value);
      assert Says(params[..n], at, side, key, value);
    }
  }

  /** What is known of the first `n` entries' places. */
  ghost predicate PlacesOf(params: seq<ParamEntry>, n: nat, side: string, over: seq<Place>, es: seq<ParamEntry>) {
    && |over| == |es|
    && (forall a, b :: 0 <= a < b < |over| ==> Before(over[a], over[b]))
    && (forall m :: 0 <= m < |over| ==> over[m].0 < n && IsSaid(params, over[m], side, es[m]))
    && (forall at: Place :: at.0 < n && SaidAt(params, at, side) ==> at in over)
  }

  lemma {:induction false} PlacesAre(params: seq<ParamEntry>, n: nat, side: string)
    requires n <= |params|
    ensures PlacesOf(params, n, side, Places(params[..n], side), Overrides(params[..n], side))
  {
    hide Says, SaidAt, OverridesIn;
    if n > 0 {
      PlacesAre(params, n - 1, side);
      PlacesInAre(params, n - 1, side);
      assert params[..n][..n - 1] == params[..n - 1] && params[..n][n - 1] == params[n - 1];
      PlacesMore(params, n - 1, side, Places(params[..n - 1], side), Overrides(params[..n - 1], side));
    }
  }

  lemma PlacesMore(params: seq<ParamEntry>, n: nat, side: string, over: seq<Place>, es: seq<ParamEntry>)
    requires n < |params| && PlacesOf(params, n, side, over, es)
    ensures PlacesOf(params, n + 1, side, over + PlacesIn(params[n], n, side), es + OverridesIn(params[n], side))
  {
    hide Says, SaidAt, OverridesIn;
    PlacesInAre(params, n, side);
    var more := over + PlacesIn(params[n], n, side);
    forall at: Place | at.0 < n + 1 && SaidAt(params, at, side) ensures at in more {
      if at.0 == n {
        assert at == (n, at.1) && more[|over| + at.1] == at;
      }
    }
  }

  // ── The shared entries ──

  predicate Survives(e: ParamEntry, keys: set<string>) {
    !IsSided(e) && !(e.KeyValue? && e.name in keys)
  }

  ghost function KeptAt(params: seq<ParamEntry>, keys: set<string>): seq<nat> {
    if |params| == 0 then []
    else
      var n := |params| - 1;
      KeptAt(params[..n], keys) + (if Survives(params[n], keys) then [n] else [])
  }

  /** What is known of the first `n` entries' shared ones. */
  ghost predicate KeptOf(params: seq<ParamEntry>, n: nat, keys: set<string>, kept: seq<nat>, out: seq<ParamEntry>) {
    && |out| == |kept|
    && (forall m :: 0 <= m < |kept| ==>
          kept[m] < n && kept[m] < |params| && out[m] == params[kept[m]] && Survives(out[m], keys))
    && (forall a, b :: 0 <= a < b < |kept| ==> kept[a] < kept[b])
    && (forall i: nat :: i < n && i < |params| && Survives(params[i], keys) ==> i in kept)
  }

  lemma {:induction false} KeptAre(params: seq<ParamEntry>, n: nat, keys: set<string>)
    requires n <= |params|
    ensures KeptOf(params, n, keys, KeptAt(params[..n], keys), Without(Shared(params[..n]), keys))
  {
    hide Survives, KeptOf, KeptAt, Without, Shared;
    KeptStep(params, n, keys);
    if n > 0 {
      KeptAre(params, n - 1, keys);
      KeptMore(params, n - 1, keys, KeptAt(params[..n - 1], keys), Without(Shared(params[..n - 1]), keys));
    } else {
      KeptNone(params, keys);
    }
  }

  lemma KeptStep(params: seq<ParamEntry>, n: nat, keys: set<string>)
    requires n <= |params|
    ensures n == 0 ==> KeptAt(params[..n], keys) == [] && Without(Shared(params[..n]), keys) == []
    ensures n > 0 ==>
              var kept, out := KeptAt(params[..n - 1], keys), Without(Shared(params[..n - 1]), keys);
              && KeptAt(params[..n], keys) == (if Survives(params[n - 1], keys) then kept + [n - 1] else kept)
              && Without(Shared(params[..n]), keys)
                 == (if Survives(params[n - 1], keys) then out + [params[n - 1]] else out)
  {
    hide ToSide, Without;
    if n > 0 {
      var kept, out := KeptAt(params[..n - 1], keys), Without(Shared(params[..n - 1]), keys);
      assert params[..n][..n - 1] == params[..n - 1] && params[..n][n - 1] == params[n - 1];
      WithoutSnoc(Shared(params[..n - 1]), params[n - 1], keys);
      assert kept + [] == kept && out + [] == out;
    } else {
      WithoutNone(keys);
    }
  }

  lemma WithoutNone(keys: set<string>)
    ensures Without([], keys) == []
  {}

  lemma KeptNone(params: seq<ParamEntry>, keys: set<string>)
    ensures KeptOf(params, 0, keys, [], [])
  {}

  lemma KeptMore(params: seq<ParamEntry>, n: nat, keys: set<string>, kept: seq<nat>, out: seq<ParamEntry>)
    requires n < |params| && KeptOf(params, n, keys, kept, out)
    ensures if Survives(params[n], keys) then KeptOf(params, n + 1, keys, kept + [n], out + [params[n]])
            else KeptOf(params, n + 1, keys, kept, out)
  {
    hide Survives;
    assert (kept + [n])[|kept|] == n;
    forall i | i in kept ensures i in kept + [n] {}
  }

  lemma WithoutSnoc(entries: seq<ParamEntry>, e: ParamEntry, keys: set<string>)
    ensures Without(entries + [e], keys) == Without(entries, keys) + (if e.KeyValue? && e.name in keys then [] else [e])
    ensures Without(entries + [], keys) == Without(entries, keys)
  {
    assert (entries + [e])[..|entries|] == entries && entries + [] == entries;
  }

  /** The keys overridden on a side are the keys set for it. */
  lemma KeysAreSet(params: seq<ParamEntry>, side: string, key: string)
    ensures key in Keys(Overrides(params, side)) <==> SetFor(params, side, key)
  {
    hide Says, Overrides, OverridesIn;
    PlacesAre(params, |params|, side);
    assert params[..|params|] == params;
    var over, es := Places(params, side), Overrides(params, side);
    if key in Keys(es) {
      var m :| 0 <= m < |es| && es[m].name == key;
      assert Says(params, over[m], side, key, es[m].value);
    }
    if SetFor(params, side, key) {
      var at, value :| Says(params, at, side, key, value);
      SaysOnce(params, at, side, key, value);
      var m :| 0 <= m < |over| && over[m] == at;
      SameSetting(params, at, side, key, value, es[m].name, es[m].value);
    }
  }

  lemma SaysOnce(params: seq<ParamEntry>, at: Place, side: string, key: string, value: Value)
    requires Says(params, at, side, key, value)
    ensures SaidAt(params, at, side) && at.0 < |params|
  {}

  lemma SameSetting(params: seq<ParamEntry>, at: Place, side: string, k: string, v: Value, k': string, v': Value)
    requires Says(params, at, side, k, v) && Says(params, at, side, k', v')
    ensures k == k' && v == v'
  {}

  /** The lists of the pass are the two sides. */
  lemma SideParamsIs(params: seq<ParamEntry>)
    ensures IsSide(params, SideParams(params, L), "l") && IsSide(params, SideParams(params, R), "r")
  {
    hide SideParams;
    SideIs(params, L, "l");
    SideIs(params, R, "r");
  }

  lemma SideIs(params: seq<ParamEntry>, ch: Channel, side: string)
    requires side == if ch == L then "l" else "r"
    ensures IsSide(params, SideParams(params, ch), side)
  {
    hide Overrides, Keys, Without, Shared, KeptAt, Places, KeptOf, PlacesOf, IsShared, SaidAt, SideFrom;
    var es := Overrides(params, side);
    var kept, over, shared := KeptAt(params, Keys(es)), Places(params, side), Without(Shared(params), Keys(es));
    assert params[..|params|] == params;
    KeptAre(params, |params|, Keys(es));
    PlacesAre(params, |params|, side);
    forall i: nat ensures i in kept <==> IsShared(params, i, side) {
      KeptIsShared(params, side, kept, shared, i);
    }
    forall at: Place ensures at in over <==> SaidAt(params, at, side) {
      PlacesAreSaid(params, side, over, es, at);
    }
    SideFromParts(params, Keys(es), side, kept, shared, over, es);
  }

  lemma KeptIsShared(params: seq<ParamEntry>, side: string, kept: seq<nat>, out: seq<ParamEntry>, i: nat)
    requires KeptOf(params, |params|, Keys(Overrides(params, side)), kept, out)
    ensures i in kept <==> IsShared(params, i, side)
  {
    hide Overrides, Keys, SetFor, ToSide;
    if i < |params| && params[i].KeyValue? { KeysAreSet(params, side, params[i].name); }
  }

  lemma PlacesAreSaid(params: seq<ParamEntry>, side: string, over: seq<Place>, es: seq<ParamEntry>, at: Place)
    requires PlacesOf(params, |params|, side, over, es)
    ensures at in over <==> SaidAt(params, at, side)
  {
    hide Says;
    if SaidAt(params, at, side) {
      var key, value :| Says(params, at, side, key, value);
      SaysOnce(params, at, side, key, value);
    }
  }

  lemma SideFromParts(params: seq<ParamEntry>, keys: set<string>, side: string, kept: seq<nat>,
                      shared: seq<ParamEntry>, over: seq<Place>, es: seq<ParamEntry>)
    requires KeptOf(params, |params|, keys, kept, shared) && PlacesOf(params, |params|, side, over, es)
    requires forall i: nat :: i in kept <==> IsShared(params, i, side)
    requires forall at: Place :: at in over <==> SaidAt(params, at, side)
    ensures SideFrom(params, shared + es, side, kept, over)
  {
    hide IsSaid, Survives, IsShared, SaidAt, Before;
    var out := shared + es;
    forall m | 0 <= m < |kept| ensures kept[m] < |params| && out[m] == params[kept[m]] {
      assert out[m] == shared[m];
    }
    forall m | 0 <= m < |over| ensures IsSaid(params, over[m], side, out[|kept| + m]) {
      assert out[|kept| + m] == es[m];
    }
  }

  // ── The declarations ──

  lemma SplitNone()
    ensures Keys([]) == {} && Shared([]) == [] && Overrides([], "l") == [] == Overrides([], "r")
  {}

  lemma SplitMore(params: seq<ParamEntry>, i: nat, side: string)
    requires i < |params|
    ensures Overrides(params[..i + 1], side) == Overrides(params[..i], side) + OverridesIn(params[i], side)
    ensures Keys(Overrides(params[..i + 1], side))
            == Keys(Overrides(params[..i], side)) + Keys(OverridesIn(params[i], side))
    ensures Shared(params[..i + 1]) == Shared(params[..i]) + (if IsSided(params[i]) then [] else [params[i]])
    ensures forall name, value :: Keys([KeyValue(name, None, value)]) == {name}
    ensures Keys([]) == {}
  {
    hide Keys, OverridesIn, ToSide;
    assert params[..i + 1][..i] == params[..i] && params[..i + 1][i] == params[i];
    KeysConcat(Overrides(params[..i], side), OverridesIn(params[i], side));
    forall name, value ensures Keys([KeyValue(name, None, value)]) == {name} {
      KeysConcat([], [KeyValue(name, None, value)]);
    }
  }

  method SplitParams(params: seq<ParamEntry>) returns (l: seq<ParamEntry>, r: seq<ParamEntry>)
    ensures l == SideParams(params, L) && r == SideParams(params, R)
    ensures IsSide(params, l, "l") && IsSide(params, r, "r")
  {
    hide Keys, IsSide, Overrides, Shared, PlainEntries, Without;
    SideParamsIs(params);
    SplitNone();
    var lOverrides: seq<ParamEntry>, rOverrides: seq<ParamEntry> := [], [];
    var lKeys: set<string>, rKeys: set<string> := {}, {};
    var shared: seq<ParamEntry> := [];
    for i := 0 to |params|
      invariant lOverrides == Overrides(params[..i], "l") && rOverrides == Overrides(params[..i], "r")
      invariant lKeys == Keys(lOverrides) && rKeys == Keys(rOverrides)
      invariant shared == Shared(params[..i])
    {
      SplitMore(params, i, "l");
      SplitMore(params, i, "r");
      match params[i] {
        case AtBlock(AtAlias(alias), entries) =>
          if alias == "l" {
            lKeys := lKeys + Keys(PlainEntries(entries));
            lOverrides := lOverrides + PlainEntries(entries);
          } else if alias == "r" {
            rKeys := rKeys + Keys(PlainEntries(entries));
            rOverrides := rOverrides + PlainEntries(entries);
          } else {
            shared := shared + [params[i]];
          }
        case KeyValue(name, Some(NameIndex(index, false)), value) =>
          if index == "l" {
            lKeys := lKeys + {name};
            lOverrides := lOverrides + [KeyValue(name, None, value)];
          } else if index == "r" {
            rKeys := rKeys + {name};
            rOverrides := rOverrides + [KeyValue(name, None, value)];
          } else {
            shared := shared + [params[i]];
          }
        case _ =>
          shared := shared + [params[i]];
      }
    }
    assert params[..|params|] == params;
    l := Without(shared, lKeys) + lOverrides;
    r := Without(shared, rKeys) + rOverrides;
  }

  /** How many stereo declarations there are among the first `i`. */
  function StereoBefore(decls: seq<ModuleDecl>, i: nat): nat
    requires i <= |decls|
  {
    if i == 0 then 0 else StereoBefore(decls, i - 1) + if decls[i - 1].isStereo then 1 else 0
  }

  /** `m` is the mono instance of `d` for one side. */
  ghost predicate IsInstance(d: ModuleDecl, m: ModuleDecl, suffix: string, side: string) {
    && m.name == d.name + suffix && m.typeName == d.typeName && m.callBlock == d.callBlock && !m.isStereo
    && IsSide(d.params, m.params, side)
  }

  method SplitStereoDecl(d: ModuleDecl) returns (l: ModuleDecl, r: ModuleDecl)
    ensures l == SideDecl(d, L) && r == SideDecl(d, R)
    ensures IsInstance(d, l, "__l", "l") && IsInstance(d, r, "__r", "r")
  {
    hide IsSide, SideParams;
    var lParams, rParams := SplitParams(d.params);
    l := ModuleDecl(d.name + "__l", d.typeName, d.callBlock, lParams, false);
    r := ModuleDecl(d.name + "__r", d.typeName, d.callBlock, rParams, false);
  }

  /** What has become of `d`, from position `at` on. */
  ghost predicate SplitAt(d: ModuleDecl, out: seq<ModuleDecl>, at: nat) {
    if d.isStereo
    then at + 1 < |out| && IsInstance(d, out[at], "__l", "l") && IsInstance(d, out[at + 1], "__r", "r")
    else at < |out| && out[at] == d
  }

  /**
     Each stereo declaration has become the instances `__l` and `__r`, in its place and in this order, each with the
     settings of its side; every other declaration is as it was.
     */
  ghost predicate DeclsSplit(decls: seq<ModuleDecl>, out: seq<ModuleDecl>) {
    && |decls| + StereoBefore(decls, |decls|) <= |out|
    && forall i :: 0 <= i < |decls| ==> SplitAt(decls[i], out, i + StereoBefore(decls, i))
  }

  lemma InstancesOf(d: ModuleDecl)
    ensures IsInstance(d, SideDecl(d, L), "__l", "l") && IsInstance(d, SideDecl(d, R), "__r", "r")
  {
    hide SideParams, IsSide;
    SideParamsIs(d.params);
  }

  lemma {:induction false} StereoBeforePrefix(decls: seq<ModuleDecl>, n: nat, i: nat)
    requires i <= n <= |decls|
    ensures StereoBefore(decls[..n], i) == StereoBefore(decls, i)
  {
    if i > 0 { StereoBeforePrefix(decls, n, i - 1); }
  }

  lemma {:induction false} SplitDeclsSplit(decls: seq<ModuleDecl>)
    ensures |SplitDecls(decls)| == |decls| + StereoBefore(decls, |decls|)
    ensures DeclsSplit(decls, SplitDecls(decls))
    decreases |decls|
  {
    hide IsInstance, SideDecl, DeclsSplit, SideParams;
    if |decls| > 0 {
      var n := |decls| - 1;
      assert decls == decls[..n] + [decls[n]];
      SplitDeclsSplit(decls[..n]);
      StereoBeforePrefix(decls, n, n);
      DeclsSplitMore(decls[..n], SplitDecls(decls[..n]), decls[n]);
    } else {
      DeclsSplitNone();
    }
  }

  lemma DeclsSplitNone()
    ensures DeclsSplit([], [])
  {}

  lemma SplitStays(d: ModuleDecl, out: seq<ModuleDecl>, more: seq<ModuleDecl>, at: nat)
    requires SplitAt(d, out, at)
    ensures SplitAt(d, out + more, at)
  {
    hide IsInstance;
  }

  lemma SplitHere(d: ModuleDecl, out: seq<ModuleDecl>)
    ensures SplitAt(d, out + (if d.isStereo then [SideDecl(d, L), SideDecl(d, R)] else [d]), |out|)
  {
    hide IsInstance, SideDecl;
    InstancesOf(d);
  }

  lemma DeclsSplitMore(decls: seq<ModuleDecl>, out: seq<ModuleDecl>, d: ModuleDecl)
    requires DeclsSplit(decls, out) && |out| == |decls| + StereoBefore(decls, |decls|)
    ensures DeclsSplit(decls + [d], out + (if d.isStereo then [SideDecl(d, L), SideDecl(d, R)] else [d]))
  {
    hide SplitAt, SideDecl, StereoBefore;
    var all, n, added := decls + [d], |decls|, if d.isStereo then [SideDecl(d, L), SideDecl(d, R)] else [d];
    StereoBeforeMore(decls, d);
    SplitHere(d, out);
    forall i | 0 <= i < n ensures SplitAt(all[i], out + added, i + StereoBefore(all, i)) {
      SplitStays(decls[i], out, added, i + StereoBefore(decls, i));
    }
  }

  lemma StereoBeforeMore(decls: seq<ModuleDecl>, d: ModuleDecl)
    ensures forall i: nat :: i <= |decls| ==> StereoBefore(decls + [d], i) == StereoBefore(decls, i)
    ensures StereoBefore(decls + [d], |decls| + 1) == StereoBefore(decls, |decls|) + if d.isStereo then 1 else 0
  {
    var all := decls + [d];
    assert all[..|decls|] == decls;
    forall i: nat | i <= |decls| ensures StereoBefore(all, i) == StereoBefore(decls, i) {
      StereoBeforePrefix(all, |decls|, i);
    }
  }

  /** Declarations appended afterwards change nothing of it. */
  lemma DeclsSplitPrefix(decls: seq<ModuleDecl>, part: seq<ModuleDecl>, out: seq<ModuleDecl>)
    requires DeclsSplit(decls, part) && part <= out
    ensures DeclsSplit(decls, out)
  {
    hide SplitAt, StereoBefore;
    assert out == part + out[|part|..];
    forall i | 0 <= i < |decls| ensures SplitAt(decls[i], out, i + StereoBefore(decls, i)) {
      SplitStays(decls[i], part, out[|part|..], i + StereoBefore(decls, i));
    }
  }
}
