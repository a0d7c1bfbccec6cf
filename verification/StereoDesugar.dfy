/**
 Stereo-module desugaring: every `stereo module` becomes two mono modules, and every cable that touches one is
 rewired, through synthesised splitters and joiners where a whole stereo cable meets a pair of mono ports.

 The meaning of a patch is its list of per-channel edges. `Denote` gives it for the stereo source; `Collapse`, in
 `StereoNodes`, reads it back from a desugared body by looking through the splitters and joiners it declares.
 */
module StereoDesugar {
  import opened Wrappers
  import opened Ast

  datatype Channel = L | R

  datatype Error = StereoInTemplate | StereoIdentClash | StereoMultiChannelType | StereoBusToSide

  function Suffix(ch: Channel): string {
    if ch == L then "__l" else "__r"
  }

  function SuffixName(name: string, ch: Channel): string {
    name + Suffix(ch)
  }

  // ── Meaning of a body ──

  /**
   What an edge carries: a port's own cable, one channel of it, two mono ports joined into a stereo cable, or, from a
   node that is not declared or not fed as it should be, nothing that makes sense.
   */
  datatype Signal =
    | Whole(ep: Endpoint)
    | ChannelOf(port: PortRef, ch: Channel)
    | Joined(left: PortRef, right: PortRef)
    | Dangling(ep: Endpoint)

  datatype Edge = Edge(signal: Signal, arrow: Arrow, target: Endpoint)

  datatype EndpointKind = Plain | Bus(ref: PortRef) | Side(ref: PortRef, ch: Channel)

  function Classify(stereo: set<string>, ep: Endpoint): EndpointKind {
    match ep
    case Port(p) =>
      if p.moduleName !in stereo then Plain
      else if p.index == Some(NameIndex("l", false)) then Side(p, L)
      else if p.index == Some(NameIndex("r", false)) then Side(p, R)
      else Bus(p)
    case Tap(_) => Plain
    case HostControlRef(_) => Plain
  }

  /** The port on one channel's mono instance that stands for a stereo module's port. */
  function OnChannel(p: PortRef, ch: Channel): PortRef {
    PortRef(SuffixName(p.moduleName, ch), p.port, p.index)
  }

  function SidePort(p: PortRef, ch: Channel): PortRef {
    PortRef(SuffixName(p.moduleName, ch), p.port, None)
  }

  /** The signal that an endpoint, as a source, contributes to channel `ch` of a stereo input. */
  function SourceOn(stereo: set<string>, src: Endpoint, ch: Channel): Signal {
    match Classify(stereo, src)
    case Bus(p) => Whole(Port(OnChannel(p, ch)))
    case Side(p, side) => ChannelOf(SidePort(p, side), ch)
    case Plain => if src.Port? then ChannelOf(src.ref, ch) else Whole(src)
  }

  /** The signal that an endpoint, as a source, puts on a single cable. */
  function SourceWhole(stereo: set<string>, src: Endpoint): Signal {
    match Classify(stereo, src)
    case Bus(p) => Joined(OnChannel(p, L), OnChannel(p, R))
    case Side(p, side) => Whole(Port(SidePort(p, side)))
    case Plain => Whole(src)
  }

  /** The edges a cable of the stereo source denotes. */
  function DenoteCable(stereo: set<string>, c: Connection): (edges: seq<Edge>) {
    var src, tgt := Source(c), Target(c);
    match Classify(stereo, tgt)
    case Bus(p) =>
      [Edge(SourceOn(stereo, src, L), c.arrow, Port(OnChannel(p, L))),
       Edge(SourceOn(stereo, src, R), c.arrow, Port(OnChannel(p, R)))]
    case Side(p, side) => [Edge(SourceWhole(stereo, src), c.arrow, Port(SidePort(p, side)))]
    case Plain => [Edge(SourceWhole(stereo, src), c.arrow, tgt)]
  }

  function Denote(stereo: set<string>, cables: seq<Connection>): seq<Edge> {
    if |cables| == 0 then []
    else Denote(stereo, cables[..|cables| - 1]) + DenoteCable(stereo, cables[|cables| - 1])
  }

  /** A cable that carries `p` to `q`, written in either direction. */
  function CableFrom(p: PortRef, q: PortRef, arrow: Arrow): Connection {
    if arrow.direction == Forward then Connection(Port(p), arrow, Port(q)) else Connection(Port(q), arrow, Port(p))
  }

  predicate OnWhole(stereo: set<string>, p: PortRef) {
    p.moduleName in stereo && p.index != Some(NameIndex("l", false)) && p.index != Some(NameIndex("r", false))
  }

  predicate OnOneSide(stereo: set<string>, p: PortRef, side: string) {
    (side == "l" || side == "r") && p.moduleName in stereo && p.index == Some(NameIndex(side, false))
  }

  /** The forms a cable into a whole stereo input can take, spelled out. */
  lemma BusForms(stereo: set<string>, p: PortRef, q: PortRef, arrow: Arrow, side: string)
    requires OnWhole(stereo, q)
    ensures var l := Port(PortRef(q.moduleName + "__l", q.port, q.index));
            var r := Port(PortRef(q.moduleName + "__r", q.port, q.index));
            var edges := DenoteCable(stereo, CableFrom(p, q, arrow));
            && (p.moduleName !in stereo ==> edges == [Edge(ChannelOf(p, L), arrow, l), Edge(ChannelOf(p, R), arrow, r)])
            && (OnWhole(stereo, p) ==>
                  edges == [Edge(Whole(Port(PortRef(p.moduleName + "__l", p.port, p.index))), arrow, l),
                            Edge(Whole(Port(PortRef(p.moduleName + "__r", p.port, p.index))), arrow, r)])
            && (OnOneSide(stereo, p, side) ==>
                  var one := PortRef(p.moduleName + "__" + side, p.port, None);
                  edges == [Edge(ChannelOf(one, L), arrow, l), Edge(ChannelOf(one, R), arrow, r)])
  {
    SideSuffix(p.moduleName, side);
  }

  /** The forms of every other cable: one edge, to the port or to the instance of its side. */
  lemma SingleForms(stereo: set<string>, p: PortRef, q: PortRef, arrow: Arrow, from: string, to: string)
    requires q.moduleName !in stereo || OnOneSide(stereo, q, to)
    ensures var target := if q.moduleName !in stereo then q else PortRef(q.moduleName + "__" + to, q.port, None);
            var edges := DenoteCable(stereo, CableFrom(p, q, arrow));
            && (p.moduleName !in stereo ==> edges == [Edge(Whole(Port(p)), arrow, Port(target))])
            && (OnWhole(stereo, p) ==>
                  edges == [Edge(Joined(PortRef(p.moduleName + "__l", p.port, p.index),
                                        PortRef(p.moduleName + "__r", p.port, p.index)), arrow, Port(target))])
            && (OnOneSide(stereo, p, from) ==>
                  edges == [Edge(Whole(Port(PortRef(p.moduleName + "__" + from, p.port, None))), arrow, Port(target))])
  {
    SideSuffix(p.moduleName, from);
    SideSuffix(q.moduleName, to);
  }

  lemma SideSuffix(name: string, side: string)
    ensures side == "l" ==> name + "__" + side == SuffixName(name, L)
    ensures side == "r" ==> name + "__" + side == SuffixName(name, R)
  {
    assert name + "__" + "l" == name + "__l" && name + "__" + "r" == name + "__r";
  }

  /** The rule that makes a cable ill-formed: a whole stereo bus into one side. */
  predicate BusToSide(stereo: set<string>, c: Connection) {
    Classify(stereo, Source(c)).Bus? && Classify(stereo, Target(c)).Side?
  }

  // ── Generated names ──

  predicate HasPrefix(s: string, p: string) {
    p <= s
  }

  const SPLIT := "~split_"
  const JOIN := "~join_"

  predicate IsSynthName(name: string) {
    HasPrefix(name, SPLIT) || HasPrefix(name, JOIN)
  }

  function Mono(name: string, port: string): PortRef {
    PortRef(name, Literal(port), None)
  }

  // ── What the pass keeps of a port: its label as text, and no index ──

  function Erased(p: PortRef): PortRef {
    Mono(p.moduleName, LabelString(p.port))
  }

  /** The edges of a cable with labels and indices erased wherever the pass rebuilds a port from its name. */
  function ErasedSource(stereo: set<string>, src: Endpoint, ch: Channel): Signal {
    match SourceOn(stereo, src, ch)
    case Whole(ep) => if Classify(stereo, src).Bus? && ep.Port? then Whole(Port(Erased(ep.ref))) else Whole(ep)
    case ChannelOf(p, c) => ChannelOf(Erased(p), c)
    case other => other
  }

  function ErasedWhole(stereo: set<string>, src: Endpoint): Signal {
    match SourceWhole(stereo, src)
    case Joined(l, r) => Joined(Erased(l), Erased(r))
    case other => other
  }

  function ErasedCable(stereo: set<string>, c: Connection): (edges: seq<Edge>) {
    var src, tgt := Source(c), Target(c);
    match Classify(stereo, tgt)
    case Bus(p) =>
      [Edge(ErasedSource(stereo, src, L), c.arrow, Port(Erased(OnChannel(p, L)))),
       Edge(ErasedSource(stereo, src, R), c.arrow, Port(Erased(OnChannel(p, R))))]
    case Side(p, side) => [Edge(ErasedWhole(stereo, src), c.arrow, Port(SidePort(p, side)))]
    case Plain => [Edge(ErasedWhole(stereo, src), c.arrow, tgt)]
  }

  function DenoteErased(stereo: set<string>, cables: seq<Connection>): seq<Edge> {
    if |cables| == 0 then []
    else DenoteErased(stereo, cables[..|cables| - 1]) + ErasedCable(stereo, cables[|cables| - 1])
  }

  /** A port whose label is plain text and that has no index. */
  predicate IsMono(p: PortRef) {
    p.port.Literal? && p.index == None
  }

  /** The cable's ports survive being rebuilt by name: the guard a patch author can check before desugaring. */
  predicate Unindexed(stereo: set<string>, c: Connection) {
    var src, tgt := Source(c), Target(c);
    match Classify(stereo, tgt)
    case Bus(p) =>
      && IsMono(p)
      && (match Classify(stereo, src)
          case Bus(q) => IsMono(q)
          case Side(q, _) => q.port.Literal?
          case Plain => src.Port? ==> IsMono(src.ref))
    case _ => Classify(stereo, src).Bus? ==> IsMono(Classify(stereo, src).ref)
  }

  lemma ErasedCableIsExact(stereo: set<string>, c: Connection)
    ensures |ErasedCable(stereo, c)| == |DenoteCable(stereo, c)|
    ensures ErasedCable(stereo, c) == DenoteCable(stereo, c) <==> Unindexed(stereo, c)
  {
    var src, tgt := Source(c), Target(c);
    assert forall p: PortRef :: Erased(p) == p <==> IsMono(p);
    if Classify(stereo, tgt).Bus? {
      var d, e := DenoteCable(stereo, c), ErasedCable(stereo, c);
      assert e == d <==> e[0] == d[0] && e[1] == d[1];
    } else {
      var d, e := DenoteCable(stereo, c), ErasedCable(stereo, c);
      assert e == d <==> e[0] == d[0];
    }
  }

  lemma AppendEqual(a: seq<Edge>, x: seq<Edge>, b: seq<Edge>, y: seq<Edge>)
    requires |a| == |b|
    ensures a + x == b + y <==> a == b && x == y
  {
    if a + x == b + y {
      assert a == (a + x)[..|a|] && b == (b + y)[..|b|] && x == (a + x)[|a|..] && y == (b + y)[|b|..];
    }
  }

  /** Erasing changes nothing exactly when no cable loses an index or a label. */
  lemma {:induction false} ErasedIsExact(stereo: set<string>, cables: seq<Connection>)
    ensures |DenoteErased(stereo, cables)| == |Denote(stereo, cables)|
    ensures DenoteErased(stereo, cables) == Denote(stereo, cables)
       <==> forall c :: c in cables ==> Unindexed(stereo, c)
  {
    hide ErasedCable, DenoteCable, Unindexed;
    if |cables| > 0 {
      var rest, c := cables[..|cables| - 1], cables[|cables| - 1];
      ErasedIsExact(stereo, rest);
      ErasedCableIsExact(stereo, c);
      AppendEqual(DenoteErased(stereo, rest), ErasedCable(stereo, c), Denote(stereo, rest), DenoteCable(stereo, c));
      assert cables == rest + [c];
    }
  }

  // ── Which nodes a cable needs ──

  /** A module name and a port label. */
  type NodeKey = (string, string)

  /** A stereo input fed by anything but a stereo bus takes a splitter of the source port. */
  function SplitKey(stereo: set<string>, c: Connection): set<NodeKey> {
    if !Classify(stereo, Target(c)).Bus? then {}
    else
      match Classify(stereo, Source(c))
      case Bus(_) => {}
      case Side(p, ch) => {(SuffixName(p.moduleName, ch), LabelString(p.port))}
      case Plain =>
        if Source(c).Port? then {(Source(c).ref.moduleName, LabelString(Source(c).ref.port))} else {}
  }

  /** A stereo output on a plain cable takes a joiner of that output. */
  function JoinKey(stereo: set<string>, c: Connection): set<NodeKey> {
    var k := Classify(stereo, Source(c));
    if k.Bus? && Classify(stereo, Target(c)).Plain? then {(k.ref.moduleName, LabelString(k.ref.port))} else {}
  }

  function SplitKeys(stereo: set<string>, cables: seq<Connection>): set<NodeKey> {
    if |cables| == 0 then {}
    else SplitKeys(stereo, cables[..|cables| - 1]) + SplitKey(stereo, cables[|cables| - 1])
  }

  function JoinKeys(stereo: set<string>, cables: seq<Connection>): set<NodeKey> {
    if |cables| == 0 then {}
    else JoinKeys(stereo, cables[..|cables| - 1]) + JoinKey(stereo, cables[|cables| - 1])
  }

  // ── Declarations ──

  /** The overrides for one side, as plain entries, in order. */
  function Overrides(params: seq<ParamEntry>, side: string): seq<ParamEntry> {
    if |params| == 0 then []
    else Overrides(params[..|params| - 1], side) + OverridesIn(params[|params| - 1], side)
  }

  function OverridesIn(entry: ParamEntry, side: string): seq<ParamEntry> {
    match entry
    case AtBlock(AtAlias(alias), entries) => if alias == side then PlainEntries(entries) else []
    case KeyValue(name, Some(NameIndex(index, false)), value) =>
      if index == side then [KeyValue(name, None, value)] else []
    case _ => []
  }

  function PlainEntries(entries: seq<(string, Value)>): seq<ParamEntry> {
    seq(|entries|, i requires 0 <= i < |entries| => KeyValue(entries[i].0, None, entries[i].1))
  }

  /** Whether an entry is addressed to the side. */
  predicate ToSide(entry: ParamEntry, side: string) {
    match entry
    case AtBlock(AtAlias(alias), _) => alias == side
    case KeyValue(_, Some(NameIndex(index, false)), _) => index == side
    case _ => false
  }

  predicate IsSided(entry: ParamEntry) {
    ToSide(entry, "l") || ToSide(entry, "r")
  }

  function Shared(params: seq<ParamEntry>): seq<ParamEntry> {
    if |params| == 0 then []
    else
      Shared(params[..|params| - 1]) + (if IsSided(params[|params| - 1]) then [] else [params[|params| - 1]])
  }

  function Keys(entries: seq<ParamEntry>): set<string> {
    set e | e in entries && e.KeyValue? :: e.name
  }

  /** Entries that survive when `keys` are overridden. */
  function Without(entries: seq<ParamEntry>, keys: set<string>): seq<ParamEntry> {
    if |entries| == 0 then []
    else
      var e := entries[|entries| - 1];
      Without(entries[..|entries| - 1], keys) + (if e.KeyValue? && e.name in keys then [] else [e])
  }

  /** The entries that set parameter `key`, in order. */
  function Setting(entries: seq<ParamEntry>, key: string): seq<ParamEntry> {
    if |entries| == 0 then []
    else
      var e := entries[|entries| - 1];
      Setting(entries[..|entries| - 1], key) + (if e.KeyValue? && e.name == key then [e] else [])
  }

  function SideName(ch: Channel): string {
    if ch == L then "l" else "r"
  }

  /** The parameter block of one channel's mono instance. */
  function SideParams(params: seq<ParamEntry>, ch: Channel): seq<ParamEntry> {
    var over := Overrides(params, SideName(ch));
    Without(Shared(params), Keys(over)) + over
  }

  lemma {:induction false} SettingConcat(a: seq<ParamEntry>, b: seq<ParamEntry>, key: string)
    ensures Setting(a + b, key) == Setting(a, key) + Setting(b, key)
    decreases |b|
  {
    if |b| == 0 {
      assert a + b == a;
    } else {
      SettingConcat(a, b[..|b| - 1], key);
      assert (a + b)[..|a + b| - 1] == a + b[..|b| - 1];
    }
  }

  lemma {:induction false} SettingWithout(entries: seq<ParamEntry>, keys: set<string>, key: string)
    ensures Setting(Without(entries, keys), key) == if key in keys then [] else Setting(entries, key)
  {
    if |entries| > 0 {
      var rest, e := entries[..|entries| - 1], entries[|entries| - 1];
      SettingWithout(rest, keys, key);
      SettingConcat(Without(rest, keys), [e], key);
      assert Setting([e], key) == Setting([e][..0], key) + (if e.KeyValue? && e.name == key then [e] else []);
      assert Without(rest, keys) + [] == Without(rest, keys);
    }
  }

  lemma {:induction false} SettingEmpty(entries: seq<ParamEntry>, key: string)
    ensures Setting(entries, key) == [] <==> key !in Keys(entries)
  {
    if |entries| > 0 {
      var rest, e := entries[..|entries| - 1], entries[|entries| - 1];
      SettingEmpty(rest, key);
      assert entries == rest + [e];
    }
  }

  /** On each side an override wins over every shared setting of the same key, and only on that side. */
  lemma SideParamsMeaning(params: seq<ParamEntry>, key: string)
    ensures var over := Setting(Overrides(params, "l"), key);
            Setting(SideParams(params, L), key) == if over != [] then over else Setting(Shared(params), key)
    ensures var over := Setting(Overrides(params, "r"), key);
            Setting(SideParams(params, R), key) == if over != [] then over else Setting(Shared(params), key)
  {
    SideMeaning(params, L, key);
    SideMeaning(params, R, key);
  }

  lemma SideMeaning(params: seq<ParamEntry>, ch: Channel, key: string)
    ensures var over := Setting(Overrides(params, SideName(ch)), key);
            Setting(SideParams(params, ch), key) == if over != [] then over else Setting(Shared(params), key)
  {
    var over := Overrides(params, SideName(ch));
    SettingConcat(Without(Shared(params), Keys(over)), over, key);
    SettingWithout(Shared(params), Keys(over), key);
    SettingEmpty(over, key);
  }

  lemma KeysConcat(a: seq<ParamEntry>, b: seq<ParamEntry>)
    ensures Keys(a + b) == Keys(a) + Keys(b)
    ensures b == [] ==> Keys(a + b) == Keys(a)
    ensures Keys([]) == {}
    ensures |b| == 1 && b[0].KeyValue? ==> Keys(b) == {b[0].name}
  {
    assert b == [] ==> a + b == a;
  }

  /** One channel's mono instance of a stereo declaration. */
  function SideDecl(d: ModuleDecl, ch: Channel): ModuleDecl {
    ModuleDecl(SuffixName(d.name, ch), d.typeName, d.callBlock, SideParams(d.params, ch), false)
  }

  function SplitDecl(d: ModuleDecl): seq<ModuleDecl> {
    if d.isStereo then [SideDecl(d, L), SideDecl(d, R)] else [d]
  }

  /** Declarations after the pass: each stereo one replaced by its two mono instances. */
  function SplitDecls(decls: seq<ModuleDecl>): seq<ModuleDecl> {
    if |decls| == 0 then [] else SplitDecls(decls[..|decls| - 1]) + SplitDecl(decls[|decls| - 1])
  }

  // ── Names ──

  /** The grammar reserves `~` for generated names. */
  predicate IsUserName(name: string) {
    '~' !in name
  }

  predicate UserEndpoint(ep: Endpoint) {
    ep.Port? ==> IsUserName(ep.ref.moduleName)
  }

  predicate UserCable(c: Connection) {
    UserEndpoint(c.lhs) && UserEndpoint(c.rhs)
  }

  predicate UserBody(body: seq<Statement>) {
    && (forall c :: c in Cables(body) ==> UserCable(c))
    && (forall d :: d in Decls(body) ==> IsUserName(d.name))
  }

  function SplitName(i: nat): string { SPLIT + Decimal(i) }

  function JoinName(i: nat): string { JOIN + Decimal(i) }

  /** Names handed out so far, given the two counters. */
  ghost predicate IsGenerated(name: string, splits: nat, joins: nat) {
    (exists i: nat :: i < splits && name == SplitName(i)) || (exists i: nat :: i < joins && name == JoinName(i))
  }

  lemma NextNamesFresh(splits: nat, joins: nat)
    ensures !IsGenerated(SplitName(splits), splits, joins) && !IsGenerated(JoinName(joins), splits, joins)
    ensures HasPrefix(SplitName(splits), SPLIT) && HasPrefix(JoinName(joins), JOIN)
    ensures !HasPrefix(JoinName(joins), SPLIT)
  {
    forall i: nat | i < splits ensures SplitName(splits) != SplitName(i) {
      if SplitName(splits) == SplitName(i) {
        assert SplitName(splits)[|SPLIT|..] == Decimal(splits) && SplitName(i)[|SPLIT|..] == Decimal(i);
        DecimalInjective(splits, i);
      }
    }
    forall i: nat | i < joins ensures JoinName(joins) != JoinName(i) {
      if JoinName(joins) == JoinName(i) {
        assert JoinName(joins)[|JOIN|..] == Decimal(joins) && JoinName(i)[|JOIN|..] == Decimal(i);
        DecimalInjective(joins, i);
      }
    }
    forall i: nat, j: nat ensures SplitName(i) != JoinName(j) {
      assert SplitName(i)[1] == 's' && JoinName(j)[1] == 'j';
    }
    assert JoinName(joins)[1] == 'j' && SPLIT[1] == 's';
  }

  lemma UserNotSynth(name: string)
    requires IsUserName(name)
    ensures !IsSynthName(name) && forall ch :: IsUserName(SuffixName(name, ch)) && !IsSynthName(SuffixName(name, ch))
  {
    forall n: string | IsUserName(n) ensures !IsSynthName(n) {
      assert SPLIT[0] == '~' == JOIN[0];
    }
    forall ch ensures IsUserName(SuffixName(name, ch)) {}
  }
}
