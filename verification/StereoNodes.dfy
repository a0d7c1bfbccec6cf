/**
 Splitters and joiners as a desugared body declares and feeds them, and what the body means once they are looked
 through.
 */
module StereoNodes {
  import opened Wrappers
  import opened Ast
  import opened StereoDesugar

  const SPLITTER := "StereoSplitter"
  const JOINER := "StereoJoiner"

  /** The declarations and the cables of a body. */
  datatype Net = Net(decls: seq<ModuleDecl>, cables: seq<Connection>)

  function SynthCable(src: PortRef, tgt: PortRef): Connection {
    Connection(Port(src), Arrow(Forward, None), Port(tgt))
  }

  function SynthModule(name: string, typeName: string): ModuleDecl {
    ModuleDecl(name, typeName, None, [], false)
  }

  /** A generated name declared as a node of the type. */
  predicate IsNode(decls: seq<ModuleDecl>, name: string, typeName: string) {
    IsSynthName(name) && SynthModule(name, typeName) in decls
  }

  predicate OnNode(decls: seq<ModuleDecl>, ep: Endpoint) {
    ep.Port? && (IsNode(decls, ep.ref.moduleName, SPLITTER) || IsNode(decls, ep.ref.moduleName, JOINER))
  }

  predicate OnSynth(ep: Endpoint) {
    ep.Port? && IsSynthName(ep.ref.moduleName)
  }

  /** Every generated name the cable uses is a declared node. */
  predicate Declared(decls: seq<ModuleDecl>, c: Connection) {
    (OnSynth(c.lhs) ==> OnNode(decls, c.lhs)) && (OnSynth(c.rhs) ==> OnNode(decls, c.rhs))
  }

  /** Every cable into a port, in order. */
  function Feeds(cables: seq<Connection>, port: PortRef): seq<Connection> {
    if |cables| == 0 then []
    else
      var c := cables[|cables| - 1];
      Feeds(cables[..|cables| - 1], port) + (if Target(c) == Port(port) then [c] else [])
  }

  /** Every cable into any port of a module, in order. */
  function Into(cables: seq<Connection>, name: string): seq<Connection> {
    if |cables| == 0 then []
    else
      var c := cables[|cables| - 1];
      Into(cables[..|cables| - 1], name)
      + (if Target(c).Port? && Target(c).ref.moduleName == name then [c] else [])
  }

  /** One cable, unscaled, from a port. */
  predicate Clean(feeds: seq<Connection>) {
    |feeds| == 1 && feeds[0].arrow.scale == None && Source(feeds[0]).Port?
  }

  /** What a cable source carries once declared splitters and joiners are looked through. */
  function Resolve(net: Net, ep: Endpoint): Signal {
    if !OnSynth(ep) then Whole(ep)
    else
      var name, port := ep.ref.moduleName, ep.ref;
      if IsNode(net.decls, name, SPLITTER) then
        var feeds := Feeds(net.cables, Mono(name, "in"));
        if !Clean(feeds) then Dangling(ep)
        else if port == Mono(name, "out_left") then ChannelOf(Source(feeds[0]).ref, L)
        else if port == Mono(name, "out_right") then ChannelOf(Source(feeds[0]).ref, R)
        else Dangling(ep)
      else if IsNode(net.decls, name, JOINER) then
        var left, right := Feeds(net.cables, Mono(name, "in_left")), Feeds(net.cables, Mono(name, "in_right"));
        if Clean(left) && Clean(right) && port == Mono(name, "out")
        then Joined(Source(left[0]).ref, Source(right[0]).ref) else Dangling(ep)
      else Dangling(ep)
  }

  /** The edges of `cables` within a net; cables into declared nodes are looked through and are no edges themselves. */
  function CollapseCables(cables: seq<Connection>, net: Net): seq<Edge> {
    if |cables| == 0 then []
    else
      var c := cables[|cables| - 1];
      CollapseCables(cables[..|cables| - 1], net)
      + (if OnNode(net.decls, Target(c)) then [] else [Edge(Resolve(net, Source(c)), c.arrow, Target(c))])
  }

  /** The per-channel edges of a body, with its splitters and joiners looked through. */
  function Collapse(body: seq<Statement>): seq<Edge> {
    CollapseCables(Cables(body), Net(Decls(body), Cables(body)))
  }

  lemma {:induction false} FeedsConcat(a: seq<Connection>, b: seq<Connection>, port: PortRef)
    ensures Feeds(a + b, port) == Feeds(a, port) + Feeds(b, port)
    decreases |b|
  {
    if |b| == 0 {
      assert a + b == a;
    } else {
      FeedsConcat(a, b[..|b| - 1], port);
      assert (a + b)[..|a + b| - 1] == a + b[..|b| - 1];
    }
  }

  lemma {:induction false} IntoConcat(a: seq<Connection>, b: seq<Connection>, name: string)
    ensures Into(a + b, name) == Into(a, name) + Into(b, name)
    decreases |b|
  {
    if |b| == 0 {
      assert a + b == a;
    } else {
      IntoConcat(a, b[..|b| - 1], name);
      assert (a + b)[..|a + b| - 1] == a + b[..|b| - 1];
    }
  }

  lemma {:induction false} CollapseConcat(a: seq<Connection>, b: seq<Connection>, net: Net)
    ensures CollapseCables(a + b, net) == CollapseCables(a, net) + CollapseCables(b, net)
    decreases |b|
  {
    hide Resolve, OnNode;
    if |b| == 0 {
      assert a + b == a;
    } else {
      CollapseConcat(a, b[..|b| - 1], net);
      assert (a + b)[..|a + b| - 1] == a + b[..|b| - 1];
    }
  }

  /** The cables into a port are among those into its module. */
  lemma {:induction false} FeedsOfInto(cables: seq<Connection>, port: PortRef)
    ensures Feeds(cables, port) == Feeds(Into(cables, port.moduleName), port)
  {
    if |cables| > 0 {
      var rest, c := cables[..|cables| - 1], cables[|cables| - 1];
      FeedsOfInto(rest, port);
      var into := Into(rest, port.moduleName);
      assert (into + [c])[..|into|] == into;
      assert into + [] == into;
    }
  }

  lemma {:induction false} IntoNone(cables: seq<Connection>, name: string)
    requires forall c :: c in cables ==> !(Target(c).Port? && Target(c).ref.moduleName == name)
    ensures Into(cables, name) == []
  {
    if |cables| > 0 {
      assert cables[|cables| - 1] in cables;
      IntoNone(cables[..|cables| - 1], name);
    }
  }

  lemma {:induction false} IntoAll(cables: seq<Connection>, name: string)
    requires forall c :: c in cables ==> Target(c).Port? && Target(c).ref.moduleName == name
    ensures Into(cables, name) == cables
  {
    if |cables| > 0 {
      assert cables[|cables| - 1] in cables;
      IntoAll(cables[..|cables| - 1], name);
      assert cables == cables[..|cables| - 1] + [cables[|cables| - 1]];
    }
  }

  /** What a source resolves to depends on its node's type and on the cables into that node. */
  lemma ResolveLocal(net: Net, net': Net, ep: Endpoint)
    requires OnSynth(ep) ==>
               && (IsNode(net.decls, ep.ref.moduleName, SPLITTER) <==> IsNode(net'.decls, ep.ref.moduleName, SPLITTER))
               && (IsNode(net.decls, ep.ref.moduleName, JOINER) <==> IsNode(net'.decls, ep.ref.moduleName, JOINER))
               && Into(net.cables, ep.ref.moduleName) == Into(net'.cables, ep.ref.moduleName)
    ensures Resolve(net, ep) == Resolve(net', ep)
  {
    hide Feeds, IsNode, Into;
    if OnSynth(ep) {
      var name := ep.ref.moduleName;
      FeedsOfInto(net.cables, Mono(name, "in"));
      FeedsOfInto(net'.cables, Mono(name, "in"));
      FeedsOfInto(net.cables, Mono(name, "in_left"));
      FeedsOfInto(net'.cables, Mono(name, "in_left"));
      FeedsOfInto(net.cables, Mono(name, "in_right"));
      FeedsOfInto(net'.cables, Mono(name, "in_right"));
    }
  }

  // ── Nodes wired as the pass wires them ──

  function SplitterFeeds(key: NodeKey, name: string): seq<Connection> {
    [SynthCable(Mono(key.0, key.1), Mono(name, "in"))]
  }

  function JoinerFeeds(key: NodeKey, name: string): seq<Connection> {
    [SynthCable(Mono(SuffixName(key.0, L), key.1), Mono(name, "in_left")),
     SynthCable(Mono(SuffixName(key.0, R), key.1), Mono(name, "in_right"))]
  }

  /** Node `name` is declared a splitter, and the one cable into it comes from the port `key`. */
  predicate IsSplitterOf(net: Net, name: string, key: NodeKey) {
    IsNode(net.decls, name, SPLITTER) && Into(net.cables, name) == SplitterFeeds(key, name)
  }

  /** Node `name` is declared a joiner, and the two cables into it come from the channel instances of `key`. */
  predicate IsJoinerOf(net: Net, name: string, key: NodeKey) {
    IsNode(net.decls, name, JOINER) && Into(net.cables, name) == JoinerFeeds(key, name)
  }

  function Plug(name: string, port: string): Endpoint {
    Port(PortRef(name, Literal(port), None))
  }

  /** The nodes spelled out: their declarations, and the cables into them. */
  lemma NodesSpelled(net: Net, name: string, key: NodeKey)
    ensures IsSplitterOf(net, name, key) ==>
              && ModuleDecl(name, "StereoSplitter", None, [], false) in net.decls
              && Into(net.cables, name) == [Connection(Plug(key.0, key.1), Arrow(Forward, None), Plug(name, "in"))]
    ensures IsJoinerOf(net, name, key) ==>
              && ModuleDecl(name, "StereoJoiner", None, [], false) in net.decls
              && Into(net.cables, name)
                 == [Connection(Plug(key.0 + "__l", key.1), Arrow(Forward, None), Plug(name, "in_left")),
                     Connection(Plug(key.0 + "__r", key.1), Arrow(Forward, None), Plug(name, "in_right"))]
  {}

  /** No two declarations share a name. */
  predicate Distinct(decls: seq<ModuleDecl>) {
    forall i, j :: 0 <= i < j < |decls| ==> decls[i].name != decls[j].name
  }

  lemma SplitterResolves(net: Net, name: string, key: NodeKey)
    requires IsSplitterOf(net, name, key)
    ensures Resolve(net, Port(Mono(name, "out_left"))) == ChannelOf(Mono(key.0, key.1), L)
    ensures Resolve(net, Port(Mono(name, "out_right"))) == ChannelOf(Mono(key.0, key.1), R)
  {
    FeedsOfInto(net.cables, Mono(name, "in"));
    var c := SynthCable(Mono(key.0, key.1), Mono(name, "in"));
    assert [c][..0] == [];
    assert Feeds([c], Mono(name, "in")) == [c];
    hide IsSynthName, Feeds, Into;
  }

  lemma JoinerResolves(net: Net, name: string, key: NodeKey)
    requires IsJoinerOf(net, name, key) && Distinct(net.decls)
    ensures Resolve(net, Port(Mono(name, "out")))
            == Joined(Mono(SuffixName(key.0, L), key.1), Mono(SuffixName(key.0, R), key.1))
  {
    OneType(net.decls, name);
    FeedsOfInto(net.cables, Mono(name, "in_left"));
    FeedsOfInto(net.cables, Mono(name, "in_right"));
    JoinerFeedsApart(key, name);
    hide IsSynthName, Feeds, Into, JoinerFeeds, SuffixName;
  }

  lemma JoinerFeedsApart(key: NodeKey, name: string)
    ensures var left := SynthCable(Mono(SuffixName(key.0, L), key.1), Mono(name, "in_left"));
            Feeds(JoinerFeeds(key, name), Mono(name, "in_left")) == [left] && Source(left) == left.lhs
    ensures var right := SynthCable(Mono(SuffixName(key.0, R), key.1), Mono(name, "in_right"));
            Feeds(JoinerFeeds(key, name), Mono(name, "in_right")) == [right] && Source(right) == right.lhs
  {
    hide SuffixName;
    var fs := JoinerFeeds(key, name);
    assert fs[..1] == [fs[0]] && fs[..1][..0] == [];
    assert Feeds(fs[..1], Mono(name, "in_left")) == [fs[0]] && Feeds(fs[..1], Mono(name, "in_right")) == [];
  }

  /** A name is declared once, so as one type. */
  lemma OneType(decls: seq<ModuleDecl>, name: string)
    requires Distinct(decls) && IsNode(decls, name, JOINER)
    ensures !IsNode(decls, name, SPLITTER)
  {
    hide IsSynthName;
  }

  /**
     The nodes of a net are exactly the splitters of the keys of one map and the joiners of the keys of another: each
     key has one node, declared with its type and fed by its feeds and nothing else, and there is no other node.
     */
  ghost predicate NodesFor(net: Net, splitterFor: map<NodeKey, string>, joinerFor: map<NodeKey, string>) {
    && (forall key :: key in splitterFor ==> IsSplitterOf(net, splitterFor[key], key))
    && (forall key :: key in joinerFor ==> IsJoinerOf(net, joinerFor[key], key))
    && (forall name :: IsNode(net.decls, name, SPLITTER) ==> name in splitterFor.Values)
    && (forall name :: IsNode(net.decls, name, JOINER) ==> name in joinerFor.Values)
  }

  // ── A node more ──

  /** The name is neither declared nor wired to. */
  ghost predicate Fresh(net: Net, name: string) {
    && (forall d :: d in net.decls ==> d.name != name)
    && Into(net.cables, name) == []
  }

  function Grow(net: Net, name: string, typeName: string, feeds: seq<Connection>): Net {
    Net(net.decls + [SynthModule(name, typeName)], net.cables + feeds)
  }

  ghost predicate FeedsOf(feeds: seq<Connection>, name: string) {
    forall c :: c in feeds ==> Target(c).Port? && Target(c).ref.moduleName == name
  }

  /** Adding a fresh node with its feeds leaves every other node as it was. */
  lemma GrowAt(net: Net, name: string, typeName: string, feeds: seq<Connection>, n: string)
    requires Fresh(net, name) && FeedsOf(feeds, name) && IsSynthName(name)
    ensures var net' := Grow(net, name, typeName, feeds);
            && (n != name ==> forall t :: IsNode(net'.decls, n, t) <==> IsNode(net.decls, n, t))
            && (n != name ==> Into(net'.cables, n) == Into(net.cables, n))
            && (n == name ==> Into(net'.cables, n) == feeds)
            && (n == name ==> forall t :: IsNode(net'.decls, n, t) <==> t == typeName)
            && (forall t :: !IsNode(net.decls, name, t))
  {
    hide IsSynthName;
    IntoConcat(net.cables, feeds, n);
    if n == name {
      IntoAll(feeds, n);
      assert [] + feeds == feeds;
    } else {
      IntoNone(feeds, n);
      assert Into(net.cables, n) + [] == Into(net.cables, n);
    }
    assert (net.decls + [SynthModule(name, typeName)])[|net.decls|] == SynthModule(name, typeName);
  }

  /** The net only gains nodes: what was resolved stays resolved the same way, what was declared stays declared. */
  ghost predicate Extends(net: Net, net': Net) {
    && (forall ep :: !Resolve(net, ep).Dangling? ==> Resolve(net', ep) == Resolve(net, ep))
    && (forall d :: d in net.decls ==> d in net'.decls)
  }

  lemma ExtendFresh(net: Net, name: string, typeName: string, feeds: seq<Connection>)
    requires Fresh(net, name) && FeedsOf(feeds, name) && IsSynthName(name)
    ensures Extends(net, Grow(net, name, typeName, feeds))
  {
    hide Fresh, FeedsOf, Into, IsNode, IsSynthName;
    var net' := Grow(net, name, typeName, feeds);
    forall ep | !Resolve(net, ep).Dangling? ensures Resolve(net', ep) == Resolve(net, ep) {
      if OnSynth(ep) {
        GrowAt(net, name, typeName, feeds, ep.ref.moduleName);
        ResolveNode(net, ep);
        ResolveLocal(net, net', ep);
      } else {
        ResolveUser(net, ep);
        ResolveUser(net', ep);
      }
    }
  }

  lemma ResolveNode(net: Net, ep: Endpoint)
    requires OnSynth(ep) && !Resolve(net, ep).Dangling?
    ensures OnNode(net.decls, ep)
  {}

  lemma ResolveUser(net: Net, ep: Endpoint)
    requires !OnSynth(ep)
    ensures Resolve(net, ep) == Whole(ep)
  {}

  lemma ExtendsSelf(net: Net)
    ensures Extends(net, net)
  {}

  /** `GrowAt`, as one fact about each name. */
  ghost predicate GrownAt(net: Net, name: string, typeName: string, feeds: seq<Connection>, n: string) {
    var net' := Grow(net, name, typeName, feeds);
    if n == name then
      Into(net'.cables, n) == feeds && (forall t :: IsNode(net'.decls, n, t) <==> t == typeName)
      && (forall t :: !IsNode(net.decls, name, t))
    else
      Into(net'.cables, n) == Into(net.cables, n) && (forall t :: IsNode(net'.decls, n, t) <==> IsNode(net.decls, n, t))
  }

  lemma AddSplitter(net: Net, splitterFor: map<NodeKey, string>, joinerFor: map<NodeKey, string>, name: string,
                    key: NodeKey)
    requires NodesFor(net, splitterFor, joinerFor) && key !in splitterFor && Fresh(net, name) && IsSynthName(name)
    ensures NodesFor(Grow(net, name, SPLITTER, SplitterFeeds(key, name)), splitterFor[key := name], joinerFor)
  {
    hide Fresh, Into, IsNode, Grow, IsSynthName, SplitterFeeds;
    var feeds := SplitterFeeds(key, name);
    SplitterFeedsOf(key, name);
    var net' := Grow(net, name, SPLITTER, feeds);
    forall n ensures GrownAt(net, name, SPLITTER, feeds, n) { GrowAt(net, name, SPLITTER, feeds, n); }
    assert GrownAt(net, name, SPLITTER, feeds, name);
    var splitterFor' := splitterFor[key := name];
    forall k | k in splitterFor ensures splitterFor[k] != name && IsSplitterOf(net', splitterFor[k], k) {
      assert IsSplitterOf(net, splitterFor[k], k) && GrownAt(net, name, SPLITTER, feeds, splitterFor[k]);
    }
    forall k | k in joinerFor ensures joinerFor[k] != name && IsJoinerOf(net', joinerFor[k], k) {
      assert IsJoinerOf(net, joinerFor[k], k) && GrownAt(net, name, SPLITTER, feeds, joinerFor[k]);
    }
    assert splitterFor'[key] == name && IsSplitterOf(net', name, key);
    forall n, t | IsNode(net'.decls, n, t) ensures IsNode(net.decls, n, t) || (n == name && t == SPLITTER) {
      assert GrownAt(net, name, SPLITTER, feeds, n);
    }
    forall n | n in splitterFor.Values ensures n in splitterFor'.Values {
      var k :| k in splitterFor && splitterFor[k] == n;
      assert splitterFor'[k] == n;
    }
  }

  lemma SplitterFeedsOf(key: NodeKey, name: string)
    ensures FeedsOf(SplitterFeeds(key, name), name)
  {}

  lemma AddJoiner(net: Net, splitterFor: map<NodeKey, string>, joinerFor: map<NodeKey, string>, name: string,
                    key: NodeKey)
    requires NodesFor(net, splitterFor, joinerFor) && key !in joinerFor && Fresh(net, name) && IsSynthName(name)
    ensures NodesFor(Grow(net, name, JOINER, JoinerFeeds(key, name)), splitterFor, joinerFor[key := name])
  {
    hide Fresh, Into, IsNode, Grow, IsSynthName, JoinerFeeds;
    var feeds := JoinerFeeds(key, name);
    JoinerFeedsOf(key, name);
    var net' := Grow(net, name, JOINER, feeds);
    forall n ensures GrownAt(net, name, JOINER, feeds, n) { GrowAt(net, name, JOINER, feeds, n); }
    assert GrownAt(net, name, JOINER, feeds, name);
    var joinerFor' := joinerFor[key := name];
    forall k | k in splitterFor ensures splitterFor[k] != name && IsSplitterOf(net', splitterFor[k], k) {
      assert IsSplitterOf(net, splitterFor[k], k) && GrownAt(net, name, JOINER, feeds, splitterFor[k]);
    }
    forall k | k in joinerFor ensures joinerFor[k] != name && IsJoinerOf(net', joinerFor[k], k) {
      assert IsJoinerOf(net, joinerFor[k], k) && GrownAt(net, name, JOINER, feeds, joinerFor[k]);
    }
    assert joinerFor'[key] == name && IsJoinerOf(net', name, key);
    forall n, t | IsNode(net'.decls, n, t) ensures IsNode(net.decls, n, t) || (n == name && t == JOINER) {
      assert GrownAt(net, name, JOINER, feeds, n);
    }
    forall n | n in joinerFor.Values ensures n in joinerFor'.Values {
      var k :| k in joinerFor && joinerFor[k] == n;
      assert joinerFor'[k] == n;
    }
  }

  lemma JoinerFeedsOf(key: NodeKey, name: string)
    ensures FeedsOf(JoinerFeeds(key, name), name)
  {}

  // ── Growing nets do not change what is already resolved ──

  predicate AllResolved(edges: seq<Edge>) {
    forall e :: e in edges ==> !e.signal.Dangling?
  }

  lemma {:induction false} CollapseStable(cables: seq<Connection>, net: Net, net': Net)
    requires AllResolved(CollapseCables(cables, net)) && Extends(net, net')
    requires forall c :: c in cables ==> !OnSynth(Target(c))
    ensures CollapseCables(cables, net') == CollapseCables(cables, net)
  {
    hide Resolve;
    if |cables| > 0 {
      var rest, c := cables[..|cables| - 1], cables[|cables| - 1];
      var e := Edge(Resolve(net, Source(c)), c.arrow, Target(c));
      assert c in cables;
      assert e in CollapseCables(cables, net);
      assert forall x :: x in CollapseCables(rest, net) ==> x in CollapseCables(cables, net);
      CollapseStable(rest, net, net');
    }
  }

  /** A body around a net of nodes: user declarations first, and cables that do not run into generated names. */
  function Around(decls: seq<ModuleDecl>, cables: seq<Connection>, net: Net): Net {
    Net(decls + net.decls, cables + net.cables)
  }

  /** The user's part of a body does not disturb its nodes. */
  lemma AroundNode(decls: seq<ModuleDecl>, cables: seq<Connection>, net: Net, name: string)
    requires (forall d :: d in decls ==> !IsSynthName(d.name)) && (forall c :: c in cables ==> !OnSynth(Target(c)))
    ensures forall t :: IsNode(Around(decls, cables, net).decls, name, t) <==> IsNode(net.decls, name, t)
    ensures IsSynthName(name) ==> Into(Around(decls, cables, net).cables, name) == Into(net.cables, name)
  {
    hide IsSynthName;
    if IsSynthName(name) {
      IntoConcat(cables, net.cables, name);
      IntoNone(cables, name);
      assert [] + Into(net.cables, name) == Into(net.cables, name);
    }
    forall t
      ensures SynthModule(name, t) in decls + net.decls && IsSynthName(name) ==> SynthModule(name, t) in net.decls
    {
      if SynthModule(name, t) in decls {
        assert SynthModule(name, t).name == name;
      }
    }
  }

  lemma AroundResolves(decls: seq<ModuleDecl>, cables: seq<Connection>, net: Net, ep: Endpoint)
    requires (forall d :: d in decls ==> !IsSynthName(d.name)) && (forall c :: c in cables ==> !OnSynth(Target(c)))
    ensures Resolve(Around(decls, cables, net), ep) == Resolve(net, ep)
  {
    hide Resolve, Into, IsNode, Around, IsSynthName;
    if OnSynth(ep) {
      AroundNode(decls, cables, net, ep.ref.moduleName);
    }
    ResolveLocal(Around(decls, cables, net), net, ep);
  }

  lemma {:induction false} CollapseSame(cables: seq<Connection>, net: Net, net': Net)
    requires forall ep :: Resolve(net, ep) == Resolve(net', ep)
    requires forall c :: c in cables ==> !OnSynth(Target(c))
    ensures CollapseCables(cables, net) == CollapseCables(cables, net')
  {
    hide Resolve;
    if |cables| > 0 {
      assert cables[|cables| - 1] in cables;
      CollapseSame(cables[..|cables| - 1], net, net');
    }
  }

  lemma {:induction false} NothingIntoNodes(cables: seq<Connection>, net: Net)
    requires forall c :: c in cables ==> OnNode(net.decls, Target(c))
    ensures CollapseCables(cables, net) == []
  {
    hide Resolve, OnNode;
    if |cables| > 0 {
      assert cables[|cables| - 1] in cables;
      NothingIntoNodes(cables[..|cables| - 1], net);
    }
  }

  /** A body around its nodes means what its own cables mean over those nodes. */
  lemma CollapseAround(decls: seq<ModuleDecl>, cables: seq<Connection>, net: Net)
    requires (forall d :: d in decls ==> !IsSynthName(d.name)) && (forall c :: c in cables ==> !OnSynth(Target(c)))
    requires forall c :: c in net.cables ==> OnNode(net.decls, Target(c))
    ensures CollapseCables(cables + net.cables, Around(decls, cables, net)) == CollapseCables(cables, net)
  {
    hide Resolve, IsNode, IsSynthName;
    var all := Around(decls, cables, net);
    CollapseConcat(cables, net.cables, all);
    forall ep ensures Resolve(all, ep) == Resolve(net, ep) { AroundResolves(decls, cables, net, ep); }
    CollapseSame(cables, all, net);
    forall c | c in net.cables ensures OnNode(all.decls, Target(c)) {
      AroundNode(decls, cables, net, Target(c).ref.moduleName);
    }
    NothingIntoNodes(net.cables, all);
  }

  lemma NodesForAround(decls: seq<ModuleDecl>, cables: seq<Connection>, net: Net, splitterFor: map<NodeKey, string>,
                       joinerFor: map<NodeKey, string>)
    requires (forall d :: d in decls ==> !IsSynthName(d.name)) && (forall c :: c in cables ==> !OnSynth(Target(c)))
    requires NodesFor(net, splitterFor, joinerFor)
    ensures NodesFor(Around(decls, cables, net), splitterFor, joinerFor)
  {
    hide Into, Around;
    forall name ensures (forall t :: IsNode(Around(decls, cables, net).decls, name, t) <==> IsNode(net.decls, name, t))
      && (IsSynthName(name) ==> Into(Around(decls, cables, net).cables, name) == Into(net.cables, name))
    {
      AroundNode(decls, cables, net, name);
    }
  }
}
