/** The rewriting pass itself: splitter and joiner emission, and the rewriting of cables and bodies. */
module StereoRewrite {
  import opened Wrappers
  import opened Ast
  import opened StereoDesugar
  import opened StereoNodes
  import opened StereoSides

  function Directed(template: Connection, src: Endpoint, tgt: Endpoint): (c: Connection)
    ensures Source(c) == src && Target(c) == tgt && c.arrow == template.arrow
  {
    if template.arrow.direction == Forward then Connection(src, template.arrow, tgt)
    else Connection(tgt, template.arrow, src)
  }

  function AsStatements(cables: seq<Connection>): seq<Statement> {
    seq(|cables|, i requires 0 <= i < |cables| => Cable(cables[i]))
  }

  /** No generated instance name is itself the name of a stereo module. */
  predicate SuffixesFree(stereo: set<string>) {
    forall name, ch :: name in stereo ==> SuffixName(name, ch) !in stereo
  }

  /** Neither end of the cable is on a stereo module. */
  predicate OffStereo(stereo: set<string>, c: Connection) {
    && (c.lhs.Port? ==> c.lhs.ref.moduleName !in stereo)
    && (c.rhs.Port? ==> c.rhs.ref.moduleName !in stereo)
  }

  lemma EndpointsUser(c: Connection)
    requires UserCable(c)
    ensures UserSource(Source(c)) && UserSource(Target(c))
  {
    if c.lhs.Port? { UserNotSynth(c.lhs.ref.moduleName); }
    if c.rhs.Port? { UserNotSynth(c.rhs.ref.moduleName); }
  }

  /** An endpoint whose module name, and that name's channel instances, are not generated names. */
  ghost predicate UserSource(ep: Endpoint) {
    ep.Port? ==> !IsSynthName(ep.ref.moduleName) && forall ch :: !IsSynthName(SuffixName(ep.ref.moduleName, ch))
  }

  /** `cables` mean exactly what `c` denotes, stay clear of stereo modules and use only declared nodes, as sources. */
  ghost predicate Rewritten(stereo: set<string>, net: Net, c: Connection, cables: seq<Connection>) {
    && CollapseCables(cables, net) == ErasedCable(stereo, c)
    && forall e :: e in cables ==> !OnSynth(Target(e)) && OffStereo(stereo, e) && Declared(net.decls, e)
  }

  predicate NotOn(stereo: set<string>, ep: Endpoint) {
    ep.Port? ==> ep.ref.moduleName !in stereo
  }

  lemma CollapseTwo(net: Net, d: Connection, e: Connection)
    ensures CollapseCables([d, e], net) == CollapseCables([d], net) + CollapseCables([e], net)
  {
    hide Resolve, OnNode;
    assert [d, e][..1] == [d] && [d][..0] == [] && [e][..0] == [];
  }

  /** A source that resolves is on no undeclared generated name. */
  lemma ResolvedDeclared(net: Net, ep: Endpoint)
    requires !Resolve(net, ep).Dangling? && OnSynth(ep)
    ensures OnNode(net.decls, ep)
  {}

  lemma OneEdge(net: Net, c: Connection, src: Endpoint, tgt: Endpoint)
    requires !OnSynth(tgt) && !Resolve(net, src).Dangling?
    ensures var d := Directed(c, src, tgt);
            && CollapseCables([d], net) == [Edge(Resolve(net, src), c.arrow, tgt)]
            && !OnSynth(Target(d)) && Declared(net.decls, d)
  {
    hide Resolve, IsSynthName;
    var d := Directed(c, src, tgt);
    assert [d][..0] == [];
    if OnSynth(src) {
      ResolvedDeclared(net, src);
    }
  }

  /** One channel's cable to the channel instance of the target. */
  lemma SideCable(stereo: set<string>, net: Net, c: Connection, ep: Endpoint, ch: Channel)
    requires SuffixesFree(stereo) && UserSource(Target(c)) && Classify(stereo, Target(c)).Bus?
    requires Resolve(net, ep) == ErasedSource(stereo, Source(c), ch) && NotOn(stereo, ep)
    ensures var tgt := Port(Erased(OnChannel(Classify(stereo, Target(c)).ref, ch)));
            var d := Directed(c, ep, tgt);
            && CollapseCables([d], net) == [Edge(ErasedSource(stereo, Source(c), ch), c.arrow, tgt)]
            && !OnSynth(Target(d)) && OffStereo(stereo, d) && Declared(net.decls, d)
  {
    hide Resolve, IsNode, Declared, CollapseCables;
    OneEdge(net, c, ep, Port(Erased(OnChannel(Classify(stereo, Target(c)).ref, ch))));
  }

  lemma TwoCables(stereo: set<string>, net: Net, c: Connection, l: Endpoint, r: Endpoint)
    requires SuffixesFree(stereo) && UserSource(Target(c)) && Classify(stereo, Target(c)).Bus?
    requires Resolve(net, l) == ErasedSource(stereo, Source(c), L) && NotOn(stereo, l)
    requires Resolve(net, r) == ErasedSource(stereo, Source(c), R) && NotOn(stereo, r)
    ensures var t := Classify(stereo, Target(c)).ref;
            Rewritten(stereo, net, c, [Directed(c, l, Port(Erased(OnChannel(t, L)))),
                                       Directed(c, r, Port(Erased(OnChannel(t, R))))])
  {
    hide Resolve, ErasedSource, CollapseCables, OnSynth, OffStereo, Declared, Directed, SuffixesFree, UserSource;
    var t := Classify(stereo, Target(c)).ref;
    SideCable(stereo, net, c, l, L);
    SideCable(stereo, net, c, r, R);
    CollapseTwo(net, Directed(c, l, Port(Erased(OnChannel(t, L)))), Directed(c, r, Port(Erased(OnChannel(t, R)))));
  }

  lemma OneCable(stereo: set<string>, net: Net, c: Connection, src: Endpoint, tgt: Endpoint, d: Connection)
    requires !Classify(stereo, Target(c)).Bus? && d == Directed(c, src, tgt)
    requires Resolve(net, src) == ErasedWhole(stereo, Source(c)) && NotOn(stereo, src) && NotOn(stereo, tgt)
    requires !OnSynth(tgt)
    requires var k := Classify(stereo, Target(c)); tgt == if k.Side? then Port(SidePort(k.ref, k.ch)) else Target(c)
    ensures Rewritten(stereo, net, c, [d])
  {
    hide Resolve, IsNode, IsSynthName, CollapseCables, Declared;
    OneEdge(net, c, src, tgt);
  }

  predicate UserNames(names: set<string>) {
    forall name :: name in names ==> IsUserName(name)
  }

  lemma SynthNotStereo(stereo: set<string>, name: string)
    requires IsSynthName(name) && UserNames(stereo)
    ensures name !in stereo
  {
    if name in stereo { UserNotSynth(name); }
  }

  function AsModules(decls: seq<ModuleDecl>): seq<Statement> {
    seq(|decls|, i requires 0 <= i < |decls| => Module(decls[i]))
  }

  lemma {:induction false} AsStatementsParts(cables: seq<Connection>)
    ensures Cables(AsStatements(cables)) == cables
    ensures Decls(AsStatements(cables)) == [] && Others(AsStatements(cables)) == []
  {
    if |cables| > 0 {
      var s, n := AsStatements(cables), |cables| - 1;
      AsStatementsParts(cables[..n]);
      assert s[..n] == AsStatements(cables[..n]) && s[n] == Cable(cables[n]);
      assert Cables(s) == Cables(s[..n]) + [cables[n]];
      assert cables == cables[..n] + [cables[n]];
    }
  }

  lemma OneModuleParts(d: ModuleDecl)
    ensures Decls([Module(d)]) == [d] && Cables([Module(d)]) == [] && Others([Module(d)]) == []
  {
    assert [Module(d)][..0] == [];
  }

  lemma {:induction false} AsModulesParts(decls: seq<ModuleDecl>)
    ensures Decls(AsModules(decls)) == decls
    ensures Cables(AsModules(decls)) == [] && Others(AsModules(decls)) == []
  {
    hide Cables, Decls, Others;
    if |decls| > 0 {
      var front, d := decls[..|decls| - 1], decls[|decls| - 1];
      AsModulesParts(front);
      OneModuleParts(d);
      PartsConcat(AsModules(front), [Module(d)]);
      assert AsModules(decls) == AsModules(front) + [Module(d)] && decls == front + [d];
    } else {
      PartsNone();
      assert AsModules(decls) == [];
    }
  }

  lemma PartsNone()
    ensures Decls([]) == [] && Cables([]) == [] && Others([]) == []
  {}

  lemma PartsConcat(a: seq<Statement>, b: seq<Statement>)
    ensures Cables(b) == [] ==> Cables(a + b) == Cables(a)
    ensures Decls(b) == [] ==> Decls(a + b) == Decls(a)
    ensures Others(b) == [] ==> Others(a + b) == Others(a)
    ensures Cables(a + b) == Cables(a) + Cables(b)
    ensures Decls(a + b) == Decls(a) + Decls(b)
    ensures Others(a + b) == Others(a) + Others(b)
  {
    CablesConcat(a, b);
    DeclsConcat(a, b);
    OthersConcat(a, b);
  }

  /** One statement more. */
  lemma PartsSnoc(body: seq<Statement>, i: nat)
    requires i < |body|
    ensures Cables(body[..i + 1]) == Cables(body[..i]) + (if body[i].Cable? then [body[i].connection] else [])
    ensures Decls(body[..i + 1]) == Decls(body[..i]) + (if body[i].Module? then [body[i].decl] else [])
    ensures Others(body[..i + 1]) == Others(body[..i]) + (if body[i].Module? || body[i].Cable? then [] else [body[i]])
    ensures !body[i].Cable? ==> Cables(body[..i + 1]) == Cables(body[..i])
    ensures !body[i].Module? ==> Decls(body[..i + 1]) == Decls(body[..i])
    ensures body[i].Module? || body[i].Cable? ==> Others(body[..i + 1]) == Others(body[..i])
  {
    assert body[..i + 1][..i] == body[..i];
  }

  lemma {:induction false} ErasedResolved(stereo: set<string>, cables: seq<Connection>)
    ensures AllResolved(DenoteErased(stereo, cables))
  {
    if |cables| > 0 {
      ErasedResolved(stereo, cables[..|cables| - 1]);
      assert AllResolved(ErasedCable(stereo, cables[|cables| - 1]));
    }
  }

  lemma DenoteErasedSnoc(stereo: set<string>, cables: seq<Connection>, c: Connection)
    ensures DenoteErased(stereo, cables + [c]) == DenoteErased(stereo, cables) + ErasedCable(stereo, c)
  {
    assert (cables + [c])[..|cables|] == cables;
  }

  // ── A body in progress ──

  /** `out` rewrites the statements of `body`, given the nodes `net` still to be appended. */
  ghost predicate Progress(stereo: set<string>, net: Net, body: seq<Statement>, out: seq<Statement>) {
    && CollapseCables(Cables(out), net) == DenoteErased(stereo, Cables(body))
    && (forall e :: e in Cables(out) ==> !OnSynth(Target(e)) && OffStereo(stereo, e) && Declared(net.decls, e))
    && Decls(out) == SplitDecls(Decls(body))
    && Others(out) == Others(body)
  }

  /** A cable step: the rewritten cables are appended, over nodes that have only been added to. */
  lemma ProgressCable(stereo: set<string>, net: Net, net': Net, body: seq<Statement>, i: nat, out: seq<Statement>,
                      emitted: seq<Connection>)
    requires i < |body| && body[i].Cable? && Progress(stereo, net, body[..i], out)
    requires Extends(net, net') && Rewritten(stereo, net', body[i].connection, emitted)
    ensures Progress(stereo, net', body[..i + 1], out + AsStatements(emitted))
  {
    hide CollapseCables, DenoteErased, ErasedCable, OffStereo, OnSynth, Declared, SplitDecls, AllResolved;
    PartsSnoc(body, i);
    PartsConcat(out, AsStatements(emitted));
    AsStatementsParts(emitted);
    ErasedResolved(stereo, Cables(body[..i]));
    CollapseStable(Cables(out), net, net');
    CollapseConcat(Cables(out), emitted, net');
    DenoteErasedSnoc(stereo, Cables(body[..i]), body[i].connection);
    forall e | e in Cables(out) ensures Declared(net'.decls, e) { DeclaredMore(net.decls, net'.decls, e); }
  }

  lemma DeclaredMore(decls: seq<ModuleDecl>, decls': seq<ModuleDecl>, c: Connection)
    requires Declared(decls, c) && forall d :: d in decls ==> d in decls'
    ensures Declared(decls', c)
  {
    hide IsSynthName;
  }

  lemma ProgressOther(stereo: set<string>, net: Net, body: seq<Statement>, i: nat, out: seq<Statement>,
                      added: seq<Statement>)
    requires i < |body| && !body[i].Cable? && Progress(stereo, net, body[..i], out)
    requires added == if body[i].Module? && body[i].decl.isStereo
                      then [Module(SideDecl(body[i].decl, L)), Module(SideDecl(body[i].decl, R))] else [body[i]]
    ensures Progress(stereo, net, body[..i + 1], out + added)
  {
    hide CollapseCables, DenoteErased, SplitDecls, Declared, OnSynth, OffStereo, Cables, Decls, Others, SideDecl;
    PartsSnoc(body, i);
    PartsConcat(out, added);
    AddedParts(body[i], added);
    if body[i].Module? { SplitDeclsSnoc(Decls(body[..i]), body[i].decl); }
  }

  lemma AddedParts(statement: Statement, added: seq<Statement>)
    requires !statement.Cable?
    requires added == if statement.Module? && statement.decl.isStereo
                      then [Module(SideDecl(statement.decl, L)), Module(SideDecl(statement.decl, R))]
                      else [statement]
    ensures Cables(added) == [] && Others(added) == if statement.Module? then [] else [statement]
    ensures statement.Module? ==> Decls(added) == SplitDecl(statement.decl)
    ensures !statement.Module? ==> Decls(added) == []
  {
    hide SideDecl;
    if statement.Module? && statement.decl.isStereo {
      AsModulesParts(SplitDecl(statement.decl));
      assert added == AsModules(SplitDecl(statement.decl));
    } else {
      assert [statement][..0] == [];
    }
  }

  lemma SplitDeclsSnoc(decls: seq<ModuleDecl>, d: ModuleDecl)
    ensures SplitDecls(decls + [d]) == SplitDecls(decls) + SplitDecl(d)
  {
    hide SideDecl;
    assert (decls + [d])[..|decls|] == decls;
  }

  /** Module declarations that the pass may add: splitters and joiners, with generated names, all different. */
  ghost predicate SynthDecls(decls: seq<ModuleDecl>) {
    && (forall d :: d in decls ==> IsNode(decls, d.name, SPLITTER) || IsNode(decls, d.name, JOINER))
    && Distinct(decls)
  }

  /** One node for each key: `NodesFor` some maps with exactly these keys. */
  ghost predicate OneNodeEach(net: Net, splitKeys: set<NodeKey>, joinKeys: set<NodeKey>) {
    exists splitterFor: map<NodeKey, string>, joinerFor: map<NodeKey, string> ::
      splitterFor.Keys == splitKeys && joinerFor.Keys == joinKeys && NodesFor(net, splitterFor, joinerFor)
  }

  /** The splitter of a port is the one the map gives. */
  lemma SplitterIsMapped(net: Net, splitterFor: map<NodeKey, string>, joinerFor: map<NodeKey, string>, n: string,
                         key: NodeKey)
    requires NodesFor(net, splitterFor, joinerFor) && IsSplitterOf(net, n, key)
    ensures key in splitterFor && n == splitterFor[key]
  {
    hide Into, IsNode;
    var k :| k in splitterFor && splitterFor[k] == n;
    assert SplitterFeeds(k, n)[0] == SplitterFeeds(key, n)[0];
  }

  lemma JoinerIsMapped(net: Net, splitterFor: map<NodeKey, string>, joinerFor: map<NodeKey, string>, n: string,
                       key: NodeKey)
    requires NodesFor(net, splitterFor, joinerFor) && IsJoinerOf(net, n, key)
    ensures key in joinerFor && n == joinerFor[key]
  {
    hide Into, IsNode;
    var k :| k in joinerFor && joinerFor[k] == n;
    assert JoinerFeeds(k, n)[0] == JoinerFeeds(key, n)[0];
    SuffixSame(k.0, key.0, L);
  }

  /** A port has a splitter exactly if it needs one, and never two; likewise joiners. */
  lemma OneNodePerKey(net: Net, splitKeys: set<NodeKey>, joinKeys: set<NodeKey>, key: NodeKey)
    requires OneNodeEach(net, splitKeys, joinKeys)
    ensures key in splitKeys <==> exists name :: IsSplitterOf(net, name, key)
    ensures key in joinKeys <==> exists name :: IsJoinerOf(net, name, key)
    ensures forall a, b :: IsSplitterOf(net, a, key) && IsSplitterOf(net, b, key) ==> a == b
    ensures forall a, b :: IsJoinerOf(net, a, key) && IsJoinerOf(net, b, key) ==> a == b
  {
    hide IsSplitterOf, IsJoinerOf, IsNode;
    var splitterFor: map<NodeKey, string>, joinerFor: map<NodeKey, string> :|
      splitterFor.Keys == splitKeys && joinerFor.Keys == joinKeys && NodesFor(net, splitterFor, joinerFor);
    forall n | IsSplitterOf(net, n, key) ensures key in splitterFor && n == splitterFor[key] {
      SplitterIsMapped(net, splitterFor, joinerFor, n, key);
    }
    forall n | IsJoinerOf(net, n, key) ensures key in joinerFor && n == joinerFor[key] {
      JoinerIsMapped(net, splitterFor, joinerFor, n, key);
    }
    if key in splitKeys { assert IsSplitterOf(net, splitterFor[key], key); }
    if key in joinKeys { assert IsJoinerOf(net, joinerFor[key], key); }
  }

  lemma SuffixSame(a: string, b: string, ch: Channel)
    requires SuffixName(a, ch) == SuffixName(b, ch)
    ensures a == b
  {
    assert SuffixName(a, ch)[..|a|] == a && SuffixName(b, ch)[..|b|] == b;
  }

  /**
     `out` is `body` without its stereo sugar: the same per-channel edges once its declared nodes are looked through;
     declarations split in place, each side with its own settings, and only nodes after them; for each port that needs
     a splitter or a joiner exactly one, declared with its type and fed by its own feeds and nothing else, and no other
     node; every generated name that a cable uses declared; other statements untouched; and no cable left on a stereo
     module.
     */
  ghost predicate Desugared(stereo: set<string>, body: seq<Statement>, out: seq<Statement>) {
    && Collapse(out) == DenoteErased(stereo, Cables(body))
    && (forall e :: e in Cables(out) ==> OffStereo(stereo, e) && Declared(Decls(out), e))
    && OneNodeEach(Net(Decls(out), Cables(out)), SplitKeys(stereo, Cables(body)), JoinKeys(stereo, Cables(body)))
    && |SplitDecls(Decls(body))| <= |Decls(out)|
    && Decls(out)[..|SplitDecls(Decls(body))|] == SplitDecls(Decls(body))
    && SynthDecls(Decls(out)[|SplitDecls(Decls(body))|..])
    && DeclsSplit(Decls(body), Decls(out))
    && Others(out) == Others(body)
  }

  lemma {:induction false} SplitDeclsUser(decls: seq<ModuleDecl>)
    requires forall d :: d in decls ==> IsUserName(d.name)
    ensures forall d :: d in SplitDecls(decls) ==> !IsSynthName(d.name)
  {
    hide IsSynthName, IsUserName, SideParams;
    if |decls| > 0 {
      assert decls[|decls| - 1] in decls;
      UserNotSynth(decls[|decls| - 1].name);
      SplitDeclsUser(decls[..|decls| - 1]);
    }
  }

  lemma ProgressDone(stereo: set<string>, net: Net, body: seq<Statement>, out: seq<Statement>,
                     splitterFor: map<NodeKey, string>, joinerFor: map<NodeKey, string>)
    requires Progress(stereo, net, body, out) && SynthDecls(net.decls) && UserBody(body)
    requires forall c :: c in net.cables ==> OnNode(net.decls, Target(c)) && !OnSynth(Source(c)) && OffStereo(stereo, c)
    requires NodesFor(net, splitterFor, joinerFor)
    requires splitterFor.Keys == SplitKeys(stereo, Cables(body)) && joinerFor.Keys == JoinKeys(stereo, Cables(body))
    ensures Desugared(stereo, body, out + AsModules(net.decls) + AsStatements(net.cables))
  {
    hide CollapseCables, DenoteErased, SplitDecls, Resolve, NodesFor, Declared, OnNode, OnSynth, OffStereo, SynthDecls,
         SplitKeys, JoinKeys, DeclsSplit;
    var whole := out + AsModules(net.decls) + AsStatements(net.cables);
    PartsConcat(out, AsModules(net.decls));
    PartsConcat(out + AsModules(net.decls), AsStatements(net.cables));
    AsModulesParts(net.decls);
    AsStatementsParts(net.cables);
    SplitDeclsUser(Decls(body));
    SplitDeclsSplit(Decls(body));
    DeclsSplitPrefix(Decls(body), SplitDecls(Decls(body)), Decls(whole));
    CollapseAround(Decls(out), Cables(out), net);
    NodesForAround(Decls(out), Cables(out), net, splitterFor, joinerFor);
    assert Net(Decls(whole), Cables(whole)) == Around(Decls(out), Cables(out), net);
    forall e | e in Cables(whole) ensures OffStereo(stereo, e) && Declared(Decls(whole), e) {
      if e in Cables(out) {
        DeclaredMore(net.decls, Decls(whole), e);
      } else {
        FeedDeclared(net.decls, e);
        DeclaredMore(net.decls, Decls(whole), e);
      }
    }
  }

  lemma FeedDeclared(decls: seq<ModuleDecl>, c: Connection)
    requires OnNode(decls, Target(c)) && !OnSynth(Source(c))
    ensures Declared(decls, c)
  {}

  // ── What the rewriting context keeps true of its fields ──

  /** Every synthesised cable feeds a declared node, whose name is generated. */
  ghost predicate FeedsGenerated(net: Net, splits: nat, joins: nat) {
    forall c :: c in net.cables ==>
      OnNode(net.decls, Target(c)) && IsGenerated(Target(c).ref.moduleName, splits, joins)
  }

  /** Synthesised cables start at ports that are neither on a stereo module nor on a node. */
  ghost predicate FeedsMono(cables: seq<Connection>, stereo: set<string>) {
    forall c :: c in cables ==>
      Source(c).Port? && Source(c).ref.moduleName !in stereo && !IsSynthName(Source(c).ref.moduleName)
  }

  /** Synthesised modules have generated names. */
  ghost predicate ModulesNamed(decls: seq<ModuleDecl>, splits: nat, joins: nat) {
    SynthDecls(decls) && forall d :: d in decls ==> IsGenerated(d.name, splits, joins)
  }

  lemma FreshUnused(net: Net, name: string, splits: nat, joins: nat)
    requires FeedsGenerated(net, splits, joins) && ModulesNamed(net.decls, splits, joins)
    requires !IsGenerated(name, splits, joins)
    ensures Fresh(net, name)
  {
    hide OnNode, IsGenerated;
    IntoNone(net.cables, name);
  }

  lemma MoreGenerated(splits: nat, joins: nat)
    ensures forall name :: IsGenerated(name, splits, joins) ==>
              IsGenerated(name, splits + 1, joins) && IsGenerated(name, splits, joins + 1)
    ensures IsGenerated(SplitName(splits), splits + 1, joins) && IsGenerated(JoinName(joins), splits, joins + 1)
  {}

  /** A fresh node keeps all of it. */
  lemma AddNode(net: Net, name: string, typeName: string, feeds: seq<Connection>, stereo: set<string>, splits: nat,
                joins: nat, splits': nat, joins': nat)
    requires FeedsGenerated(net, splits, joins) && FeedsMono(net.cables, stereo)
    requires ModulesNamed(net.decls, splits, joins)
    requires Fresh(net, name) && FeedsOf(feeds, name) && FeedsMono(feeds, stereo) && IsSynthName(name)
    requires (typeName == SPLITTER || typeName == JOINER) && IsGenerated(name, splits', joins')
    requires forall n :: IsGenerated(n, splits, joins) ==> IsGenerated(n, splits', joins')
    ensures var net' := Grow(net, name, typeName, feeds);
            && FeedsGenerated(net', splits', joins') && FeedsMono(net'.cables, stereo)
            && ModulesNamed(net'.decls, splits', joins')
  {
    hide IsSynthName, IsGenerated, Into;
    var net' := Grow(net, name, typeName, feeds);
    assert net'.decls[|net.decls|] == SynthModule(name, typeName);
    forall n, t | IsNode(net.decls, n, t) ensures IsNode(net'.decls, n, t) {}
    assert IsNode(net'.decls, name, typeName);
  }

  class RewriteCtx {
    const stereo: set<string>
    var joinerFor: map<NodeKey, string>
    var splitterFor: map<NodeKey, string>
    var synthModules: seq<ModuleDecl>
    var synthConnections: seq<Connection>
    var splitterCount: nat
    var joinerCount: nat

    /** The nodes synthesised so far. */
    ghost function Nodes(): Net
      reads this
    {
      Net(synthModules, synthConnections)
    }

    ghost predicate Valid()
      reads this
    {
      && FeedsGenerated(Nodes(), splitterCount, joinerCount)
      && FeedsMono(synthConnections, stereo)
      && ModulesNamed(synthModules, splitterCount, joinerCount)
      && NodesFor(Nodes(), splitterFor, joinerFor)
    }

    constructor (stereo: set<string>)
      ensures Valid() && this.stereo == stereo && synthModules == [] && synthConnections == []
      ensures splitterFor == map[] && joinerFor == map[]
    {
      this.stereo := stereo;
      joinerFor, splitterFor := map[], map[];
      synthModules, synthConnections := [], [];
      splitterCount, joinerCount := 0, 0;
    }

    /** The splitter of a port: the one it has, or a fresh one, declared and fed. */
    method EnsureSplitter(src: string, port: string) returns (name: string)
      requires Valid() && src !in stereo && !IsSynthName(src)
      modifies this
      ensures Valid() && Extends(old(Nodes()), Nodes())
      ensures (src, port) in splitterFor && name == splitterFor[(src, port)]
      ensures IsSplitterOf(Nodes(), name, (src, port))
      ensures joinerFor == old(joinerFor)
      ensures (src, port) in old(splitterFor) ==> splitterFor == old(splitterFor) && Nodes() == old(Nodes())
      ensures (src, port) !in old(splitterFor) ==>
                && splitterFor == old(splitterFor)[(src, port) := name] && Fresh(old(Nodes()), name)
                && Nodes() == Grow(old(Nodes()), name, SPLITTER, SplitterFeeds((src, port), name))
    {
      hide Resolve, Feeds, Into, FeedsGenerated, FeedsMono, ModulesNamed, Extends, IsGenerated, NodesFor, Fresh;
      ExtendsSelf(Nodes());
      var key := (src, port);
      if key in splitterFor {
        name := splitterFor[key];
        NodeOfSplitter(Nodes(), splitterFor, joinerFor, key);
        return;
      }
      name := SPLIT + Decimal(splitterCount);
      ghost var net, feeds := Nodes(), SplitterFeeds(key, name);
      NextNamesFresh(splitterCount, joinerCount);
      FreshUnused(net, name, splitterCount, joinerCount);
      MoreGenerated(splitterCount, joinerCount);
      SplitterFeedsOf(key, name);
      FeedsStart(key, name, stereo);
      AddNode(net, name, SPLITTER, feeds, stereo, splitterCount, joinerCount, splitterCount + 1, joinerCount);
      ExtendFresh(net, name, SPLITTER, feeds);
      AddSplitter(net, splitterFor, joinerFor, name, key);
      splitterCount := splitterCount + 1;
      synthModules := synthModules + [SynthModule(name, SPLITTER)];
      synthConnections := synthConnections + [SynthCable(Mono(src, port), Mono(name, "in"))];
      splitterFor := splitterFor[key := name];
      assert Nodes() == Grow(net, name, SPLITTER, feeds);
      NodeOfSplitter(Nodes(), splitterFor, joinerFor, key);
    }

    /** The joiner of a stereo output: the one it has, or a fresh one, declared and fed from both channels. */
    method EnsureJoiner(name: string, port: string) returns (join: string)
      requires Valid() && forall ch :: SuffixName(name, ch) !in stereo && !IsSynthName(SuffixName(name, ch))
      modifies this
      ensures Valid() && Extends(old(Nodes()), Nodes())
      ensures (name, port) in joinerFor && join == joinerFor[(name, port)]
      ensures IsJoinerOf(Nodes(), join, (name, port))
      ensures splitterFor == old(splitterFor)
      ensures (name, port) in old(joinerFor) ==> joinerFor == old(joinerFor) && Nodes() == old(Nodes())
      ensures (name, port) !in old(joinerFor) ==>
                && joinerFor == old(joinerFor)[(name, port) := join] && Fresh(old(Nodes()), join)
                && Nodes() == Grow(old(Nodes()), join, JOINER, JoinerFeeds((name, port), join))
    {
      hide Resolve, Feeds, Into, FeedsGenerated, FeedsMono, ModulesNamed, Extends, IsGenerated, NodesFor, Fresh;
      ExtendsSelf(Nodes());
      var key := (name, port);
      if key in joinerFor {
        join := joinerFor[key];
        NodeOfJoiner(Nodes(), splitterFor, joinerFor, key);
        return;
      }
      join := JOIN + Decimal(joinerCount);
      ghost var net, feeds := Nodes(), JoinerFeeds(key, join);
      NextNamesFresh(splitterCount, joinerCount);
      FreshUnused(net, join, splitterCount, joinerCount);
      MoreGenerated(splitterCount, joinerCount);
      JoinerFeedsOf(key, join);
      FeedsStartBoth(key, join, stereo);
      AddNode(net, join, JOINER, feeds, stereo, splitterCount, joinerCount, splitterCount, joinerCount + 1);
      ExtendFresh(net, join, JOINER, feeds);
      AddJoiner(net, splitterFor, joinerFor, join, key);
      joinerCount := joinerCount + 1;
      synthModules := synthModules + [SynthModule(join, JOINER)];
      synthConnections := synthConnections + [SynthCable(Mono(SuffixName(name, L), port), Mono(join, "in_left"))];
      synthConnections := synthConnections + [SynthCable(Mono(SuffixName(name, R), port), Mono(join, "in_right"))];
      joinerFor := joinerFor[key := join];
      assert Nodes() == Grow(net, join, JOINER, feeds);
      NodeOfJoiner(Nodes(), splitterFor, joinerFor, key);
    }

    /** Rewrite a side selector to its mono instance; any other endpoint is unchanged. */
    function RewriteSelector(ep: Endpoint): Endpoint {
      if !ep.Port? || ep.ref.moduleName !in stereo then ep
      else
        match ep.ref.index
        case Some(NameIndex("l", false)) => Port(PortRef(SuffixName(ep.ref.moduleName, L), ep.ref.port, None))
        case Some(NameIndex("r", false)) => Port(PortRef(SuffixName(ep.ref.moduleName, R), ep.ref.port, None))
        case _ => ep
    }

    /**
     Rewrites one cable, appending what it becomes to `out`. The appended cables denote exactly the cable's
     per-channel edges, and the nodes it needs exist; a whole bus into one side is the only rejected form.
     */
    method TransformConnection(c: Connection, out: seq<Statement>)
      returns (r: Result<seq<Statement>, Error>, ghost emitted: seq<Connection>)
      requires Valid() && UserCable(c) && SuffixesFree(stereo) && UserNames(stereo)
      modifies this
      ensures Valid() && Extends(old(Nodes()), Nodes())
      ensures BusToSide(stereo, c) ==> r == Failure(StereoBusToSide)
      ensures !BusToSide(stereo, c) ==> r == Success(out + AsStatements(emitted))
      ensures !BusToSide(stereo, c) ==> Rewritten(stereo, Nodes(), c, emitted)
      ensures !BusToSide(stereo, c) ==> splitterFor.Keys == old(splitterFor).Keys + SplitKey(stereo, c)
      ensures !BusToSide(stereo, c) ==> joinerFor.Keys == old(joinerFor).Keys + JoinKey(stereo, c)
    {
      hide Resolve, Rewritten, Valid, Extends, IsSplitterOf, IsJoinerOf, Fresh, IsSynthName;
      ExtendsSelf(Nodes());
      EndpointsUser(c);
      var cables: seq<Connection> := [];
      var src, tgt := Source(c), Target(c);
      match (Classify(stereo, src), Classify(stereo, tgt)) {
      case (Bus(s), Bus(t)) =>
        var l, rr := OnSide(s, L), OnSide(s, R);
        cables := [Directed(c, Port(l), Port(OnSide(t, L))), Directed(c, Port(rr), Port(OnSide(t, R)))];
        ResolveUser(Nodes(), Port(l));
        ResolveUser(Nodes(), Port(rr));
        TwoCables(stereo, Nodes(), c, Port(l), Port(rr));
      case (Bus(_), Side(_, _)) =>
        return Failure(StereoBusToSide), [];
      case (_, Bus(t)) =>
        var lt, rt := OnSide(t, L), OnSide(t, R);
        var resolved := RewriteSelector(src);
        if resolved.Port? {
          var split := EnsureSplitter(resolved.ref.moduleName, LabelString(resolved.ref.port));
          ghost var key := (resolved.ref.moduleName, LabelString(resolved.ref.port));
          var l, rr := Port(Mono(split, "out_left")), Port(Mono(split, "out_right"));
          cables := [Directed(c, l, Port(lt)), Directed(c, rr, Port(rt))];
          SplitterResolves(Nodes(), split, key);
          SplitterNotStereo(stereo, Nodes(), split, key);
          TwoCables(stereo, Nodes(), c, l, rr);
        } else {
          cables := [Directed(c, resolved, Port(lt)), Directed(c, resolved, Port(rt))];
          ResolveUser(Nodes(), resolved);
          TwoCables(stereo, Nodes(), c, resolved, resolved);
        }
      case (Bus(s), Plain) =>
        var join := EnsureJoiner(s.moduleName, LabelString(s.port));
        cables := [Directed(c, Port(Mono(join, "out")), RewriteSelector(tgt))];
        NodesDistinct();
        JoinerResolves(Nodes(), join, (s.moduleName, LabelString(s.port)));
        JoinerNotStereo(stereo, Nodes(), join, (s.moduleName, LabelString(s.port)));
        OneCable(stereo, Nodes(), c, Port(Mono(join, "out")), RewriteSelector(tgt), cables[0]);
      case (Plain, Plain) =>
        cables := [c];
        ResolveUser(Nodes(), src);
        OneCable(stereo, Nodes(), c, src, tgt, cables[0]);
      case (Side(_, _), Side(_, _)) =>
        cables := [Connection(RewriteSelector(c.lhs), c.arrow, RewriteSelector(c.rhs))];
        ResolveUser(Nodes(), RewriteSelector(src));
        OneCable(stereo, Nodes(), c, RewriteSelector(src), RewriteSelector(tgt), cables[0]);
      case (Plain, Side(_, _)) =>
        cables := [Directed(c, src, RewriteSelector(tgt))];
        ResolveUser(Nodes(), src);
        OneCable(stereo, Nodes(), c, src, RewriteSelector(tgt), cables[0]);
      case (Side(_, _), Plain) =>
        cables := [Directed(c, RewriteSelector(src), tgt)];
        ResolveUser(Nodes(), RewriteSelector(src));
        OneCable(stereo, Nodes(), c, RewriteSelector(src), tgt, cables[0]);
      }
      r := Success(out + AsStatements(cables));
      emitted := cables;
    }

    lemma NodesDistinct()
      requires Valid()
      ensures Distinct(synthModules)
    {}

    lemma NodeParts()
      requires Valid() && UserNames(stereo)
      ensures SynthDecls(synthModules) && NodesFor(Nodes(), splitterFor, joinerFor)
      ensures forall c :: c in synthConnections ==>
                OnNode(synthModules, Target(c)) && !OnSynth(Source(c)) && OffStereo(stereo, c)
    {
      hide IsSynthName, NodesFor, SynthDecls;
      forall c | c in synthConnections ensures OffStereo(stereo, c) {
        SynthNotStereo(stereo, Target(c).ref.moduleName);
      }
    }

    /** Rewrites a whole body; fails exactly when some cable runs a whole stereo bus into one side. */
    method TransformBody(body: seq<Statement>) returns (r: Result<seq<Statement>, Error>)
      requires Valid() && synthModules == [] && synthConnections == [] && splitterFor == map[] && joinerFor == map[]
      requires UserBody(body) && SuffixesFree(stereo) && UserNames(stereo)
      modifies this
      ensures r.Failure? <==> exists c :: c in Cables(body) && BusToSide(stereo, c)
      ensures r.Failure? ==> r.error == StereoBusToSide
      ensures r.Success? ==> Desugared(stereo, body, r.value)
    {
      hide Resolve, Rewritten, Extends, Progress, Valid, Desugared, Cables, BusToSide, SplitKey, JoinKey, NodesFor,
           SynthDecls, OnNode, OnSynth;
      var out: seq<Statement> := [];
      ProgressStart(stereo, Nodes());
      assert body[..0] == [];
      for i := 0 to |body|
        invariant Valid() && Progress(stereo, Nodes(), body[..i], out)
        invariant forall c :: c in Cables(body[..i]) ==> !BusToSide(stereo, c)
        invariant splitterFor.Keys == SplitKeys(stereo, Cables(body[..i]))
        invariant joinerFor.Keys == JoinKeys(stereo, Cables(body[..i]))
      {
        PartsSnoc(body, i);
        CablesPrefix(body, i);
        match body[i] {
          case Module(m) =>
            if m.isStereo {
              var l, rr := SplitStereoDecl(m);
              ProgressOther(stereo, Nodes(), body, i, out, [Module(l), Module(rr)]);
              out := out + [Module(l), Module(rr)];
            } else {
              ProgressOther(stereo, Nodes(), body, i, out, [body[i]]);
              out := out + [body[i]];
            }
          case Cable(c) =>
            ghost var net := Nodes();
            KeysSnoc(stereo, Cables(body[..i]), c);
            var step, emitted := TransformConnection(c, out);
            if step.Failure? {
              return step;
            }
            ProgressCable(stereo, net, Nodes(), body, i, out, emitted);
            out := step.value;
          case other =>
            ProgressOther(stereo, Nodes(), body, i, out, [body[i]]);
            out := out + [body[i]];
        }
      }
      assert body[..|body|] == body;
      NodeParts();
      ProgressDone(stereo, Nodes(), body, out, splitterFor, joinerFor);
      return Success(out + AsModules(synthModules) + AsStatements(synthConnections));
    }

    static lemma ProgressStart(stereo: set<string>, net: Net)
      ensures Progress(stereo, net, [], [])
      ensures Cables([]) == [] && SplitKeys(stereo, []) == {} && JoinKeys(stereo, []) == {}
    {}

    static lemma CablesPrefix(body: seq<Statement>, i: nat)
      requires i < |body|
      ensures forall c :: c in Cables(body[..i + 1]) ==> c in Cables(body)
    {
      CablesConcat(body[..i + 1], body[i + 1..]);
      assert body[..i + 1] + body[i + 1..] == body;
    }
  }

  function OnSide(p: PortRef, ch: Channel): PortRef {
    Mono(SuffixName(p.moduleName, ch), LabelString(p.port))
  }

  lemma KeysSnoc(stereo: set<string>, cables: seq<Connection>, c: Connection)
    ensures SplitKeys(stereo, cables + [c]) == SplitKeys(stereo, cables) + SplitKey(stereo, c)
    ensures JoinKeys(stereo, cables + [c]) == JoinKeys(stereo, cables) + JoinKey(stereo, c)
  {
    assert (cables + [c])[..|cables|] == cables;
  }

  lemma NodeOfSplitter(net: Net, splitterFor: map<NodeKey, string>, joinerFor: map<NodeKey, string>, key: NodeKey)
    requires NodesFor(net, splitterFor, joinerFor) && key in splitterFor
    ensures IsSplitterOf(net, splitterFor[key], key)
  {}

  lemma NodeOfJoiner(net: Net, splitterFor: map<NodeKey, string>, joinerFor: map<NodeKey, string>, key: NodeKey)
    requires NodesFor(net, splitterFor, joinerFor) && key in joinerFor
    ensures IsJoinerOf(net, joinerFor[key], key)
  {}

  lemma FeedsStart(key: NodeKey, name: string, stereo: set<string>)
    requires key.0 !in stereo && !IsSynthName(key.0)
    ensures FeedsMono(SplitterFeeds(key, name), stereo)
  {
    hide IsSynthName;
  }

  lemma FeedsStartBoth(key: NodeKey, name: string, stereo: set<string>)
    requires forall ch :: SuffixName(key.0, ch) !in stereo && !IsSynthName(SuffixName(key.0, ch))
    ensures FeedsMono(JoinerFeeds(key, name), stereo)
  {
    hide IsSynthName, SuffixName;
  }

  lemma SplitterNotStereo(stereo: set<string>, net: Net, name: string, key: NodeKey)
    requires IsSplitterOf(net, name, key) && UserNames(stereo)
    ensures name !in stereo
  {
    SynthNotStereo(stereo, name);
  }

  lemma JoinerNotStereo(stereo: set<string>, net: Net, name: string, key: NodeKey)
    requires IsJoinerOf(net, name, key) && UserNames(stereo)
    ensures name !in stereo
  {
    SynthNotStereo(stereo, name);
  }
}
