/** The tap desugaring pass: one synthetic module, every tap cable landed on it, and the observer's manifest. */
module TapDesugar {
  import opened Wrappers
  import opened Ast
  import opened Taps

  // ── Rewriting cables ──

  function RewriteEndpoint(e: Endpoint): (r: Endpoint)
    ensures !e.Tap? ==> r == e
  {
    if e.Tap? then Port(ChannelPort(KeyOf(e.tap))) else e
  }

  function RewriteConnection(c: Connection): Connection {
    Connection(RewriteEndpoint(c.lhs), c.arrow, RewriteEndpoint(c.rhs))
  }

  // ── Edge keys ──

  function IndexText(i: Option<Index>): string {
    match i
    case None => ""
    case Some(LiteralIndex(n)) => "[" + Decimal(n) + "]"
    case Some(NameIndex(name, star)) => "[" + (if star then "*" else "") + name + "]"
  }

  function Canonical(p: PortRef): string {
    p.moduleName + "." + LabelString(p.port) + IndexText(p.index)
  }

  datatype EdgeKey = EdgeKey(from: string, to: string)

  /** The key of a cable between two ports that ends on the tap module. */
  function TapEdgeKey(c: Connection): Option<EdgeKey> {
    var from, to := Source(c), Target(c);
    if from.Port? && to.Port? && to.ref.moduleName == SYNTH_TAP
    then Some(EdgeKey(Canonical(from.ref), Canonical(to.ref))) else None
  }

  // ── The body ──

  datatype Emitted = Emitted(body: seq<Statement>, keys: set<EdgeKey>)

  function EmitOne(e: Emitted, s: Statement): Emitted {
    match s
    case Cable(c) =>
      var r := RewriteConnection(c);
      var key := TapEdgeKey(r);
      if key.Some? && key.value in e.keys then e
      else Emitted(e.body + [Cable(r)], if key.Some? then e.keys + {key.value} else e.keys)
    case _ => Emitted(e.body + [s], e.keys)
  }

  function Emit(body: seq<Statement>): Emitted {
    if body == [] then Emitted([], {}) else EmitOne(Emit(body[..|body| - 1]), body[|body| - 1])
  }

  function Desugared(body: seq<Statement>): seq<Statement> {
    if Occurrences(body) == [] then body
    else [Module(SynthTap(Coalesced(Occurrences(body))))] + Emit(body).body
  }

  function Manifest(body: seq<Statement>): seq<TapDescriptor> {
    var unique := Coalesced(Occurrences(body));
    ManifestOf(unique, |unique|)
  }

  // ── Canonical text is unambiguous ──

  /** What the grammar allows in a name, as far as the canonical text needs it. */
  predicate IsName(s: string) {
    |s| > 0 && !('0' <= s[0] <= '9') && PlainText(s)
  }

  predicate PlainText(s: string) {
    forall i :: 0 <= i < |s| ==> s[i] !in ['.', '[', ']', '<', '>', '*']
  }

  predicate NamedIndex(i: Option<Index>) {
    i.Some? && i.value.NameIndex? ==> IsName(i.value.name)
  }

  predicate NamedPort(p: PortRef) {
    IsName(p.moduleName) && IsName(if p.port.Literal? then p.port.text else p.port.param) && NamedIndex(p.index)
  }

  predicate NamedEndpoint(e: Endpoint) {
    match e
    case Port(p) => NamedPort(p)
    case Tap(t) => IsName(t.name)
    case HostControlRef(_) => true
  }

  predicate NamedCables(body: seq<Statement>) {
    forall c :: c in Cables(body) ==> NamedEndpoint(c.lhs) && NamedEndpoint(c.rhs)
  }

  /** A separator that `a` does not contain first appears right after it. */
  lemma FirstSeparator(a: string, sep: char, b: string)
    requires sep !in a
    ensures var x := a + [sep] + b;
            x[|a|] == sep && x[..|a|] == a && x[|a| + 1..] == b && forall k :: 0 <= k < |a| ==> x[k] != sep
  {
    forall k | 0 <= k < |a| ensures (a + [sep] + b)[k] != sep {
      assert (a + [sep] + b)[k] == a[k] && a[k] in a;
    }
  }

  /** Text before a separator that neither side contains is the same on both. */
  lemma SplitAt(a: string, b: string, c: string, d: string, sep: char)
    requires a + [sep] + b == c + [sep] + d && sep !in a && sep !in c
    ensures a == c && b == d
  {
    FirstSeparator(a, sep, b);
    FirstSeparator(c, sep, d);
  }

  lemma LabelDistinct(p: PortLabel, q: PortLabel)
    requires IsName(if p.Literal? then p.text else p.param) && IsName(if q.Literal? then q.text else q.param)
    requires LabelString(p) == LabelString(q)
    ensures p == q
  {
    if p.Param? && q.Param? {
      var s, t := LabelString(p), LabelString(q);
      assert s[1..|s| - 1] == p.param && t[1..|t| - 1] == q.param;
    }
    LabelHead(p);
    LabelHead(q);
  }

  lemma LabelHead(p: PortLabel)
    requires IsName(if p.Literal? then p.text else p.param)
    ensures |LabelString(p)| > 0 && (LabelString(p)[0] == '<' <==> p.Param?)
  {}

  lemma DecimalDigit(n: nat)
    ensures '0' <= Decimal(n)[0] <= '9'
  {
    if n >= 10 {
      DecimalDigit(n / 10);
      assert Decimal(n)[0] == Decimal(n / 10)[0];
    }
  }

  lemma IndexDistinct(i: Option<Index>, j: Option<Index>)
    requires NamedIndex(i) && NamedIndex(j) && IndexText(i) == IndexText(j)
    ensures i == j
  {
    if i.Some? && j.Some? {
      var s, t := IndexText(i), IndexText(j);
      match (i.value, j.value) {
        case (LiteralIndex(m), LiteralIndex(n)) =>
          LiteralText(m, s);
          LiteralText(n, t);
          DecimalInjective(m, n);
        case (NameIndex(a, star), NameIndex(b, star')) =>
          StarredName(a, star, s);
          StarredName(b, star', t);
        case (LiteralIndex(m), NameIndex(b, star)) =>
          LiteralText(m, s);
          StarredName(b, star, t);
        case (NameIndex(a, star), LiteralIndex(n)) =>
          LiteralText(n, t);
          StarredName(a, star, s);
      }
    }
  }

  lemma LiteralText(n: nat, text: string)
    requires text == "[" + Decimal(n) + "]"
    ensures |text| >= 3 && '0' <= text[1] <= '9' && text[1..|text| - 1] == Decimal(n)
  {
    DecimalDigit(n);
  }

  lemma StarredName(name: string, star: bool, text: string)
    requires IsName(name) && text == "[" + (if star then "*" else "") + name + "]"
    ensures |text| >= 3
    ensures star ==> text[1] == '*' && text[2..|text| - 1] == name
    ensures !star ==> text[1] == name[0] && text[1] != '*' && text[1..|text| - 1] == name
    ensures !('0' <= text[1] <= '9')
  {
    assert name[0] !in ['.', '[', ']', '<', '>', '*'];
  }

  lemma CanonicalDistinct(p: PortRef, q: PortRef)
    requires NamedPort(p) && NamedPort(q) && Canonical(p) == Canonical(q)
    ensures p == q
  {
    hide IndexText, LabelString;
    var a, b := LabelString(p.port) + IndexText(p.index), LabelString(q.port) + IndexText(q.index);
    assert p.moduleName + "." + a == Canonical(p) && q.moduleName + "." + b == Canonical(q);
    SplitAt(p.moduleName, a, q.moduleName, b, '.');
    BracketFree(p.port);
    BracketFree(q.port);
    IndexShape(p.index);
    IndexShape(q.index);
    LabelBeforeIndex(LabelString(p.port), IndexText(p.index), LabelString(q.port), IndexText(q.index));
    LabelDistinct(p.port, q.port);
    IndexDistinct(p.index, q.index);
  }

  lemma BracketFree(l: PortLabel)
    requires IsName(if l.Literal? then l.text else l.param)
    ensures '[' !in LabelString(l)
  {}

  lemma IndexShape(i: Option<Index>)
    ensures IndexText(i) == [] || IndexText(i)[0] == '['
  {}

  lemma LabelBeforeIndex(a: string, x: string, b: string, y: string)
    requires a + x == b + y && '[' !in a && '[' !in b && (x == [] || x[0] == '[') && (y == [] || y[0] == '[')
    ensures a == b && x == y
  {
    FirstBracket(a, x);
    FirstBracket(b, y);
  }

  lemma FirstBracket(a: string, x: string)
    requires '[' !in a && (x == [] || x[0] == '[')
    ensures (a + x)[..|a|] == a && (a + x)[|a|..] == x && (|a| < |a + x| ==> (a + x)[|a|] == '[')
    ensures forall k :: 0 <= k < |a| ==> (a + x)[k] != '['
  {
    forall k | 0 <= k < |a| ensures (a + x)[k] != '[' {
      assert (a + x)[k] == a[k] && a[k] in a;
    }
  }

  // ── The wiring is kept ──

  datatype Edge = Edge(from: Endpoint, to: Endpoint)

  function EdgeOf(c: Connection): Edge {
    Edge(Source(c), Target(c))
  }

  ghost predicate Carries(cables: seq<Connection>, e: Edge) {
    exists c :: c in cables && EdgeOf(c) == e
  }

  ghost predicate CarriesKey(cables: seq<Connection>, k: EdgeKey) {
    exists c :: c in cables && TapEdgeKey(c) == Some(k)
  }

  function Rewritten(cables: seq<Connection>): (r: seq<Connection>)
    ensures |r| == |cables|
    ensures forall i :: 0 <= i < |cables| ==>
              r[i] == Connection(RewriteEndpoint(cables[i].lhs), cables[i].arrow, RewriteEndpoint(cables[i].rhs))
  {
    seq(|cables|, i requires 0 <= i < |cables| => RewriteConnection(cables[i]))
  }

  /** The cables that no tap edge stands for, in order. */
  function Untapped(cables: seq<Connection>): seq<Connection> {
    if cables == [] then []
    else Untapped(cables[..|cables| - 1])
         + if TapEdgeKey(cables[|cables| - 1]).None? then [cables[|cables| - 1]] else []
  }

  /** The cables in order, without those that repeat a tap edge of an earlier cable. */
  ghost function Firsts(cables: seq<Connection>): seq<Connection> {
    if cables == [] then []
    else
      var front, c := cables[..|cables| - 1], cables[|cables| - 1];
      Firsts(front) + if IsTapEdge(EdgeOf(c)) && Carries(front, EdgeOf(c)) then [] else [c]
  }

  predicate IsTapEdge(e: Edge) {
    e.from.Port? && e.to.Port? && e.to.ref.moduleName == SYNTH_TAP
  }

  predicate Named(c: Connection) {
    NamedEndpoint(c.lhs) && NamedEndpoint(c.rhs)
  }

  lemma RewriteNamed(c: Connection)
    requires Named(c)
    ensures Named(RewriteConnection(c))
  {
    if c.lhs.Tap? {
      AliasNamed(KeyOf(c.lhs.tap));
    }
    if c.rhs.Tap? {
      AliasNamed(KeyOf(c.rhs.tap));
    }
  }

  lemma AliasNamed(k: Key)
    requires IsName(k.name)
    ensures NamedPort(ChannelPort(k))
  {
    KindNamed(k.kind);
    Joined(KindName(k.kind), "_");
    Joined(KindName(k.kind) + "_", k.name);
    hide PlainText;
    assert Alias(k)[0] == KindName(k.kind)[0];
    SynthNamed();
  }

  lemma SynthNamed()
    ensures IsName(SYNTH_TAP)
  {}

  lemma KindNamed(k: Kind)
    ensures IsName(KindName(k)) && IsName(PortName(k))
  {}

  lemma Joined(a: string, b: string)
    requires PlainText(a) && PlainText(b)
    ensures PlainText(a + b)
  {}

  /** Two cables with one key run between the same two ports. */
  lemma SameKeySameEdge(c: Connection, d: Connection)
    requires Named(c) && Named(d) && TapEdgeKey(c).Some? && TapEdgeKey(c) == TapEdgeKey(d)
    ensures EdgeOf(c) == EdgeOf(d)
  {
    hide Canonical, NamedPort;
    CanonicalDistinct(Source(c).ref, Source(d).ref);
    CanonicalDistinct(Target(c).ref, Target(d).ref);
  }

  /** What the emission of some cables `done` (already rewritten) has produced. */
  ghost predicate Keeps(done: seq<Connection>, out: seq<Connection>, keys: set<EdgeKey>) {
    && (forall c :: c in out ==> Named(c))
    && (forall e :: Carries(out, e) <==> Carries(done, e))
    && (forall k :: k in keys <==> CarriesKey(out, k))
    && (forall i, j :: 0 <= i < j < |out| && TapEdgeKey(out[i]).Some? ==> TapEdgeKey(out[i]) != TapEdgeKey(out[j]))
    && Untapped(out) == Untapped(done)
    && out == Firsts(done)
  }

  lemma SameEdgeSameKey(c: Connection, d: Connection)
    ensures TapEdgeKey(c).Some? <==> IsTapEdge(EdgeOf(c))
    ensures EdgeOf(c) == EdgeOf(d) ==> TapEdgeKey(c) == TapEdgeKey(d)
  {}

  /** A key has been emitted exactly when an earlier cable has the edge. */
  lemma EmittedIsCarried(done: seq<Connection>, out: seq<Connection>, keys: set<EdgeKey>, r: Connection)
    requires Keeps(done, out, keys) && Named(r) && TapEdgeKey(r).Some?
    ensures TapEdgeKey(r).value in keys <==> Carries(done, EdgeOf(r))
  {
    hide EdgeOf, TapEdgeKey, Untapped, Named, Firsts;
    if TapEdgeKey(r).value in keys {
      var c :| c in out && TapEdgeKey(c) == TapEdgeKey(r);
      SameKeySameEdge(c, r);
      assert Carries(out, EdgeOf(c));
    }
    if Carries(out, EdgeOf(r)) {
      var c :| c in out && EdgeOf(c) == EdgeOf(r);
      SameEdgeSameKey(c, r);
      assert CarriesKey(out, TapEdgeKey(r).value);
    }
  }

  lemma FirstsMore(cables: seq<Connection>, c: Connection)
    ensures Firsts(cables + [c])
            == Firsts(cables) + if IsTapEdge(EdgeOf(c)) && Carries(cables, EdgeOf(c)) then [] else [c]
  {
    hide EdgeOf, IsTapEdge, Carries;
    assert (cables + [c])[..|cables|] == cables;
  }

  lemma CarriesMore(cables: seq<Connection>, c: Connection)
    ensures forall e :: Carries(cables + [c], e) <==> Carries(cables, e) || EdgeOf(c) == e
    ensures forall k :: CarriesKey(cables + [c], k) <==> CarriesKey(cables, k) || TapEdgeKey(c) == Some(k)
    ensures Untapped(cables + [c]) == Untapped(cables) + if TapEdgeKey(c).None? then [c] else []
  {
    hide EdgeOf, TapEdgeKey;
    assert (cables + [c])[..|cables|] == cables;
    forall d ensures d in cables + [c] <==> d in cables || d == c {
      assert (cables + [c])[|cables|] == c;
    }
  }

  lemma NotCarried(out: seq<Connection>, key: Option<EdgeKey>, i: nat)
    requires i < |out| && (key.Some? ==> !CarriesKey(out, key.value)) && TapEdgeKey(out[i]).Some?
    ensures TapEdgeKey(out[i]) != key
  {
    hide TapEdgeKey;
  }

  lemma KeepsMore(done: seq<Connection>, out: seq<Connection>, keys: set<EdgeKey>, r: Connection)
    requires Keeps(done, out, keys) && Named(r)
    ensures var key := TapEdgeKey(r);
            if key.Some? && key.value in keys then Keeps(done + [r], out, keys)
            else Keeps(done + [r], out + [r], if key.Some? then keys + {key.value} else keys)
  {
    hide EdgeOf, TapEdgeKey, Untapped, Named, Firsts, IsTapEdge;
    var key := TapEdgeKey(r);
    FirstsMore(done, r);
    SameEdgeSameKey(r, r);
    if key.Some? { EmittedIsCarried(done, out, keys, r); }
    assert out + [] == out;
    CarriesMore(done, r);
    CarriesMore(out, r);
    assert Untapped(done) + [] == Untapped(done);
    if key.Some? && key.value in keys {
      var c :| c in out && TapEdgeKey(c) == Some(key.value);
      SameKeySameEdge(c, r);
      assert Carries(out, EdgeOf(c));
    } else {
      forall i | 0 <= i < |out| && TapEdgeKey(out[i]).Some? ensures TapEdgeKey(out[i]) != key {
        NotCarried(out, key, i);
      }
    }
  }

  /** One cable more. */
  lemma EmitCable(e: Emitted, c: Connection, done: seq<Connection>)
    requires Keeps(done, Cables(e.body), e.keys) && Named(c)
    ensures var e' := EmitOne(e, Cable(c));
            Keeps(done + [RewriteConnection(c)], Cables(e'.body), e'.keys) && Decls(e'.body) == Decls(e.body)
  {
    hide Keeps, RewriteConnection, TapEdgeKey, Named;
    var r := RewriteConnection(c);
    RewriteNamed(c);
    KeepsMore(done, Cables(e.body), e.keys, r);
    StatementAdded(e.body, Cable(r));
  }

  lemma RewrittenMore(cables: seq<Connection>, c: Connection)
    ensures Rewritten(cables + [c]) == Rewritten(cables) + [RewriteConnection(c)]
  {
    hide RewriteConnection;
  }

  lemma {:induction false} EmitKeeps(body: seq<Statement>)
    requires NamedCables(body)
    ensures Keeps(Rewritten(Cables(body)), Cables(Emit(body).body), Emit(body).keys)
    ensures Decls(Emit(body).body) == Decls(body)
    decreases |body|
  {
    hide Keeps, RewriteConnection, TapEdgeKey, Named, Rewritten;
    if body == [] {
      KeepsNothing();
    } else {
      var n := |body| - 1;
      var front, last := body[..n], body[n];
      assert body == front + [last];
      StatementAdded(front, last);
      CablesNamed(front, last);
      EmitKeeps(front);
      if last.Cable? {
        RewrittenMore(Cables(front), last.connection);
        EmitCable(Emit(front), last.connection, Rewritten(Cables(front)));
      } else {
        StatementAdded(Emit(front).body, last);
        assert Cables(front) + [] == Cables(front);
        assert Cables(Emit(front).body) + [] == Cables(Emit(front).body);
        assert Decls(Emit(front).body + [last]) == Decls(body);
      }
    }
  }

  lemma CablesNamed(front: seq<Statement>, last: Statement)
    requires NamedCables(front + [last])
    ensures NamedCables(front) && (last.Cable? ==> Named(last.connection))
  {
    hide NamedEndpoint;
    StatementAdded(front, last);
    if last.Cable? {
      assert Cables(front + [last])[|Cables(front)|] == last.connection;
    }
    forall c | c in Cables(front) ensures c in Cables(front + [last]) {
    }
  }

  lemma KeepsNothing()
    ensures Firsts([]) == []
    ensures Keeps(Rewritten([]), [], {})
  {}

  lemma StatementAdded(body: seq<Statement>, s: Statement)
    ensures Cables(body + [s]) == Cables(body) + if s.Cable? then [s.connection] else []
    ensures Decls(body + [s]) == Decls(body) + if s.Module? then [s.decl] else []
  {
    assert (body + [s])[..|body|] == body;
  }

  /**
     The pass keeps the wiring: its cables are the rewritten ones in order, arrows and all, without those that repeat
     the tap edge of an earlier cable. So the tap edges of the output are exactly the rewritten edges of the source,
     each once, and the other cables are all there. Every declaration is kept, after the synthetic one, and every other
     statement.
     */
  lemma WiringKept(body: seq<Statement>)
    requires NamedCables(body) && Occurrences(body) != []
    ensures Cables(Desugared(body)) == Firsts(Rewritten(Cables(body)))
    ensures var out := Cables(Desugared(body));
            && (forall e :: Carries(out, e) <==> Carries(Rewritten(Cables(body)), e))
            && (forall i, j :: 0 <= i < j < |out| && TapEdgeKey(out[i]).Some? ==>
                  TapEdgeKey(out[i]) != TapEdgeKey(out[j]))
            && Untapped(out) == Untapped(Rewritten(Cables(body)))
    ensures Decls(Desugared(body)) == [SynthTap(Coalesced(Occurrences(body)))] + Decls(body)
    ensures Others(Desugared(body)) == Others(body)
  {
    OthersKept(body);
    hide Rewritten, TapEdgeKey, Untapped, Emit, SynthTap, Coalesced, Named, Carries, CarriesKey, Firsts;
    EmitKeeps(body);
    var synth := [Module(SynthTap(Coalesced(Occurrences(body))))];
    CablesConcat(synth, Emit(body).body);
    DeclsConcat(synth, Emit(body).body);
    OneModule(SynthTap(Coalesced(Occurrences(body))));
    assert [] + Cables(Emit(body).body) == Cables(Emit(body).body);
  }

  lemma {:induction false} FirstsAre(cables: seq<Connection>)
    ensures forall c :: c in Firsts(cables) ==> c in cables
    ensures forall c :: c in cables ==> Carries(Firsts(cables), EdgeOf(c))
    ensures forall c :: c in cables && !IsTapEdge(EdgeOf(c)) ==> c in Firsts(cables)
    ensures forall c, d :: c in Firsts(cables) && d in Firsts(cables) && IsTapEdge(EdgeOf(c)) && EdgeOf(c) == EdgeOf(d)
                           ==> c == d
    decreases |cables|
  {
    hide EdgeOf, IsTapEdge;
    if cables != [] {
      var front, last := cables[..|cables| - 1], cables[|cables| - 1];
      FirstsAre(front);
      assert cables == front + [last];
      if !(IsTapEdge(EdgeOf(last)) && Carries(front, EdgeOf(last))) {
        assert Firsts(cables)[|Firsts(front)|] == last;
        forall c | c in Firsts(front) && IsTapEdge(EdgeOf(last)) ensures EdgeOf(c) != EdgeOf(last) {
          assert c in front;
        }
      }
      forall c | c in front ensures Carries(Firsts(cables), EdgeOf(c)) {
        var d :| d in Firsts(front) && EdgeOf(d) == EdgeOf(c);
        assert d in Firsts(cables);
      }
    }
  }

  /** A cable on the edge of `c`, with its scale. */
  ghost predicate ScaleKept(cables: seq<Connection>, c: Connection) {
    exists d :: d in cables && EdgeOf(d) == EdgeOf(c) && d.arrow.scale == c.arrow.scale
  }

  /** No two cables on one tap edge have different scales. */
  ghost predicate ScalesAgree(cables: seq<Connection>) {
    forall c, d :: c in cables && d in cables && IsTapEdge(EdgeOf(c)) && EdgeOf(c) == EdgeOf(d)
                   ==> c.arrow.scale == d.arrow.scale
  }

  lemma KeptScale(cables: seq<Connection>, c: Connection, d: Connection)
    requires ScaleKept(Firsts(cables), c) && ScaleKept(Firsts(cables), d)
    requires IsTapEdge(EdgeOf(c)) && EdgeOf(c) == EdgeOf(d)
    ensures c.arrow.scale == d.arrow.scale
  {
    hide EdgeOf, IsTapEdge, Firsts, Carries;
    FirstsAre(cables);
    var c' :| c' in Firsts(cables) && EdgeOf(c') == EdgeOf(c) && c'.arrow.scale == c.arrow.scale;
    var d' :| d' in Firsts(cables) && EdgeOf(d') == EdgeOf(d) && d'.arrow.scale == d.arrow.scale;
    assert c' == d';
  }

  lemma KeptScalesAgree(cables: seq<Connection>)
    requires forall c :: c in cables ==> ScaleKept(Firsts(cables), c)
    ensures ScalesAgree(cables)
  {
    hide EdgeOf, IsTapEdge, Firsts, ScaleKept;
    forall c, d | c in cables && d in cables && IsTapEdge(EdgeOf(c)) && EdgeOf(c) == EdgeOf(d)
      ensures c.arrow.scale == d.arrow.scale
    {
      KeptScale(cables, c, d);
    }
  }

  lemma AgreeingScalesKept(cables: seq<Connection>)
    requires ScalesAgree(cables)
    ensures forall c :: c in cables ==> ScaleKept(Firsts(cables), c)
  {
    hide EdgeOf, IsTapEdge, Firsts;
    FirstsAre(cables);
    forall c | c in cables ensures ScaleKept(Firsts(cables), c) {
      if IsTapEdge(EdgeOf(c)) {
        var d :| d in Firsts(cables) && EdgeOf(d) == EdgeOf(c);
        assert d in cables;
      }
    }
  }

  /** Every scale survives exactly when no two cables on one tap edge have different scales. */
  lemma ScalesSurvive(body: seq<Statement>)
    requires NamedCables(body) && Occurrences(body) != []
    ensures var cables := Rewritten(Cables(body));
            (forall c :: c in cables ==> ScaleKept(Cables(Desugared(body)), c)) <==> ScalesAgree(cables)
  {
    hide Firsts, Rewritten, ScaleKept, ScalesAgree, Desugared, Occurrences, Untapped, TapEdgeKey;
    var cables := Rewritten(Cables(body));
    WiringKept(body);
    if forall c :: c in cables ==> ScaleKept(Firsts(cables), c) { KeptScalesAgree(cables); }
    if ScalesAgree(cables) { AgreeingScalesKept(cables); }
  }

  /** The second of two cables from one port to one tap is dropped, and its scale with it. */
  lemma SecondScaleLost(port: PortRef, tap: TapTarget, scale: ScaleSpec)
    ensures var first := Connection(Port(port), Arrow(Forward, None), Tap(tap));
            var second := Connection(Port(port), Arrow(Forward, Some(scale)), Tap(tap));
            && Firsts(Rewritten([first, second])) == [RewriteConnection(first)]
            && !ScalesAgree(Rewritten([first, second]))
  {
    hide ChannelPort;
    ChannelOnTap(KeyOf(tap));
    var first := Connection(Port(port), Arrow(Forward, None), Tap(tap));
    var second := Connection(Port(port), Arrow(Forward, Some(scale)), Tap(tap));
    var r := Rewritten([first, second]);
    assert r == [RewriteConnection(first), RewriteConnection(second)];
    assert r[..1] == [r[0]] && [r[0]][..0] == [];
    assert Firsts([r[0]]) == [r[0]];
    assert EdgeOf(r[0]) == EdgeOf(r[1]) && r[0] in r && r[1] in r;
    assert Carries([r[0]], EdgeOf(r[1])) by { assert r[0] in [r[0]]; }
  }

  lemma ChannelOnTap(k: Key)
    ensures ChannelPort(k).moduleName == SYNTH_TAP
  {}

  lemma {:induction false} EmitOthers(body: seq<Statement>)
    ensures Others(Emit(body).body) == Others(body)
    decreases |body|
  {
    hide RewriteConnection, TapEdgeKey;
    if body != [] {
      var n := |body| - 1;
      EmitOthers(body[..n]);
      var e := Emit(body[..n]);
      OthersSnoc(e.body, body[n]);
      if body[n].Cable? {
        OthersSnoc(e.body, Cable(RewriteConnection(body[n].connection)));
      }
      assert Others(body[..n]) + [] == Others(body[..n]);
    }
  }

  lemma OthersSnoc(body: seq<Statement>, s: Statement)
    ensures Others(body + [s]) == Others(body) + (if s.Module? || s.Cable? then [] else [s])
  {
    assert (body + [s])[..|body|] == body;
  }

  lemma OthersKept(body: seq<Statement>)
    ensures Others(Desugared(body)) == Others(body)
  {
    hide Emit, SynthTap, Coalesced;
    EmitOthers(body);
    if Occurrences(body) != [] {
      var synth := [Module(SynthTap(Coalesced(Occurrences(body))))];
      OthersConcat(synth, Emit(body).body);
      assert Others(synth) == [] by { assert synth[..0] == []; }
      assert [] + Others(body) == Others(body);
    }
  }

  lemma OneModule(d: ModuleDecl)
    ensures Cables([Module(d)]) == [] && Decls([Module(d)]) == [d]
  {}

  // ── Both sides agree ──

  /** Channel `i` as the synthesised module declares it. */
  ghost predicate Declares(m: ModuleDecl, i: nat, alias: string, slot: nat, kind: Kind) {
    && m.callBlock.Some? && |m.callBlock.value| == 1 && m.callBlock.value[0].Bare?
    && m.callBlock.value[0].value.AliasList?
    && i < |m.callBlock.value[0].value.aliases| && m.callBlock.value[0].value.aliases[i] == alias
    && i < |m.params|
    && m.params[i] == AtBlock(AtAlias(alias), [("slot_offset", ScalarValue(IntLit(slot))),
                                               ("kind", ScalarValue(StrLit(KindName(kind))))])
  }

  /**
     Every tap in the source lands on one channel, and there the audio side and the observer side say the same: the
     alias and port it is wired to, the slot and kind declared for that alias, and the manifest entries at that slot,
     whose components are exactly those written for the tap's kind and name.
     */
  lemma TapLands(body: seq<Statement>, t: TapTarget) returns (i: nat)
    requires t in Occurrences(body)
    ensures var unique := Coalesced(Occurrences(body));
            && i < |unique| && KeyOf(unique[i]) == KeyOf(t)
            && RewriteEndpoint(Tap(t)) == Port(PortRef(SYNTH_TAP, Literal(PortName(Classify(t))),
                                                       Some(NameIndex(Aliases(unique)[i], false))))
            && Declares(SynthTap(unique), i, Aliases(unique)[i], SlotOf(unique, i), Classify(t))
            && EntriesAt(Manifest(body), unique[i], SlotOf(unique, i))
            && (forall c :: c in unique[i].components <==> Mentions(Occurrences(body), KeyOf(t), c))
  {
    hide EntriesAt, Coalesced, Mentions, Alias, SlotOf;
    var unique := Coalesced(Occurrences(body));
    CoalescedIs(Occurrences(body));
    assert Written(Occurrences(body), KeyOf(t));
    i :| 0 <= i < |unique| && KeyOf(unique[i]) == KeyOf(t);
    ManifestSlots(unique, |unique|);
  }

  /** A tap's kind by its components: a trigger light before a stereo meter before anything else. */
  function KindText(t: TapTarget): (kind: string)
    ensures "trigger_led" in t.components ==> kind == "trigger"
    ensures "trigger_led" !in t.components && "stereo_meter" in t.components ==> kind == "stereo"
    ensures "trigger_led" !in t.components && "stereo_meter" !in t.components ==> kind == "mono"
  {
    if "trigger_led" in t.components then "trigger"
    else if "stereo_meter" in t.components then "stereo"
    else "mono"
  }

  lemma KindSpelled(t: TapTarget)
    ensures KindName(Classify(t)) == KindText(t) && PortName(Classify(t)) == KindText(t) + "_in"
    ensures Alias(KeyOf(t)) == KindText(t) + "_" + t.name
    ensures Width(Classify(t)) == if KindText(t) == "stereo" then 2 else 1
    ensures Entries(t, 0) == if KindText(t) == "stereo"
                             then [TapDescriptor(0, 1, t.name + "/left", t.components),
                                   TapDescriptor(1, 1, t.name + "/right", t.components)]
                             else [TapDescriptor(0, 1, t.name, t.components)]
  {
    assert "mono" + "_in" == "mono_in" && "stereo" + "_in" == "stereo_in" && "trigger" + "_in" == "trigger_in";
  }

  lemma SameKeySameKind(t: TapTarget, u: TapTarget)
    requires KeyOf(t) == KeyOf(u)
    ensures KindText(t) == KindText(u) && t.name == u.name
  {}

  lemma EntriesSpelled(manifest: seq<TapDescriptor>, t: TapTarget, slot: nat)
    requires EntriesAt(manifest, t, slot)
    ensures if KindText(t) == "stereo"
            then && slot + 2 <= |manifest|
                 && manifest[slot] == TapDescriptor(slot, 1, t.name + "/left", t.components)
                 && manifest[slot + 1] == TapDescriptor(slot + 1, 1, t.name + "/right", t.components)
            else slot < |manifest| && manifest[slot] == TapDescriptor(slot, 1, t.name, t.components)
  {
    var es := Entries(t, slot);
    assert manifest[slot..slot + |es|][0] == manifest[slot];
    if |es| == 2 {
      assert manifest[slot..slot + 2][1] == manifest[slot + 1];
    }
  }

  /** Where a tap lands, spelled out: its port and alias, its declaration, and its entries in the manifest. */
  lemma TapLandsSpelled(body: seq<Statement>, t: TapTarget) returns (i: nat, slot: nat)
    requires t in Occurrences(body)
    ensures var unique, kind := Coalesced(Occurrences(body)), KindText(t);
            && i < |unique| && unique[i].name == t.name && KindText(unique[i]) == kind
            && RewriteEndpoint(Tap(t)) == Port(PortRef("~tap", Literal(kind + "_in"),
                                                       Some(NameIndex(kind + "_" + t.name, false))))
            && SynthTap(unique).name == "~tap" && SynthTap(unique).typeName == "Tap" && !SynthTap(unique).isStereo
            && SynthTap(unique).callBlock == Some([Bare(AliasList(Aliases(unique)))])
            && |Aliases(unique)| == |unique| && Aliases(unique)[i] == kind + "_" + t.name
            && i < |SynthTap(unique).params|
            && SynthTap(unique).params[i] == AtBlock(AtAlias(kind + "_" + t.name),
                                                     [("slot_offset", ScalarValue(IntLit(slot))),
                                                      ("kind", ScalarValue(StrLit(kind)))])
            && (if kind == "stereo"
                then && slot + 2 <= |Manifest(body)|
                     && Manifest(body)[slot] == TapDescriptor(slot, 1, t.name + "/left", unique[i].components)
                     && Manifest(body)[slot + 1] == TapDescriptor(slot + 1, 1, t.name + "/right", unique[i].components)
                else && slot < |Manifest(body)|
                     && Manifest(body)[slot] == TapDescriptor(slot, 1, t.name, unique[i].components))
  {
    hide EntriesAt, Coalesced, Mentions, SlotOf, Alias, KindText, Classify;
    i := TapLands(body, t);
    var unique := Coalesced(Occurrences(body));
    slot := SlotOf(unique, i);
    KindSpelled(t);
    KindSpelled(unique[i]);
    SameKeySameKind(t, unique[i]);
    EntriesSpelled(Manifest(body), unique[i], slot);
  }

  /** Slots are manifest positions, and no two channels share an alias. */
  lemma ChannelsDistinct(body: seq<Statement>)
    ensures forall i :: 0 <= i < |Manifest(body)| ==> Manifest(body)[i].slot == i && Manifest(body)[i].width == 1
    ensures var unique := Coalesced(Occurrences(body));
            forall i, j :: 0 <= i < j < |unique| ==> Aliases(unique)[i] != Aliases(unique)[j]
  {
    hide Coalesced, Aliases, Occurrences;
    var unique := Coalesced(Occurrences(body));
    CoalescedIs(Occurrences(body));
    AliasesDistinct(unique);
    ManifestSlots(unique, |unique|);
    UnitWidths(unique, |unique|);
  }

  lemma {:induction false} UnitWidths(unique: seq<TapTarget>, n: nat)
    requires n <= |unique|
    ensures forall i :: 0 <= i < |ManifestOf(unique, n)| ==> ManifestOf(unique, n)[i].width == 1
  {
    if n > 0 {
      UnitWidths(unique, n - 1);
    }
  }

  // ── The pass ──

  /** One channel for each kind and name, in order of first occurrence, same-key taps folding their components in. */
  method Coalesce(occurrences: seq<TapTarget>) returns (unique: seq<TapTarget>)
    ensures unique == Coalesced(occurrences)
  {
    unique := [];
    var indexOf: map<Key, nat> := map[];
    for n := 0 to |occurrences|
      invariant unique == Coalesced(occurrences[..n]) && DistinctKeys(unique)
      invariant forall k :: k in indexOf <==> HasChannel(unique, k)
      invariant forall k :: k in indexOf ==> indexOf[k] < |unique| && KeyOf(unique[indexOf[k]]) == k
    {
      hide KeyOf, DistinctKeys, Union;
      var t := occurrences[n];
      var key := KeyOf(t);
      ghost var before := unique;
      assert occurrences[..n + 1][..n] == occurrences[..n];
      FoldedAt(unique, t);
      if key in indexOf {
        var i := indexOf[key];
        FindUnique(unique, key, i);
        var components := unique[i].components;
        for j := 0 to |t.components|
          invariant components == Union(unique[i].components, t.components[..j])
        {
          UnionMore(unique[i].components, t.components, j);
          if t.components[j] !in components {
            components := components + [t.components[j]];
          }
        }
        assert t.components[..|t.components|] == t.components;
        unique := unique[i := TapTarget(components, unique[i].name)];
      } else {
        NoChannel(unique, key);
        indexOf := indexOf[key := |unique|];
        unique := unique + [t];
      }
      assert unique == Folded(before, t);
    }
    assert occurrences[..|occurrences|] == occurrences;
  }

  lemma FindUnique(unique: seq<TapTarget>, k: Key, i: nat)
    requires DistinctKeys(unique) && i < |unique| && KeyOf(unique[i]) == k
    ensures Find(unique, k) == Some(i)
  {
    if Find(unique, k).Some? {
      NotTwice(unique, Find(unique, k).value, i);
    }
  }

  lemma NoChannel(unique: seq<TapTarget>, k: Key)
    requires !HasChannel(unique, k)
    ensures Find(unique, k) == None
  {}

  lemma UnionMore(a: seq<string>, b: seq<string>, j: nat)
    requires j < |b|
    ensures Union(a, b[..j + 1]) == if b[j] in Union(a, b[..j]) then Union(a, b[..j]) else Union(a, b[..j]) + [b[j]]
  {
    assert b[..j + 1][..j] == b[..j];
  }

  /** The endpoint table: every key's port and alias. */
  ghost predicate IsTable(targetFor: map<Key, (string, string)>, unique: seq<TapTarget>) {
    && (forall k :: k in targetFor <==> HasChannel(unique, k))
    && (forall k :: k in targetFor ==> targetFor[k] == (PortName(k.kind), Alias(k)))
  }

  /** Looks a tap up in the table, which has every tap of the patch. */
  method RewriteTap(e: Endpoint, targetFor: map<Key, (string, string)>, ghost unique: seq<TapTarget>)
    returns (r: Endpoint)
    requires IsTable(targetFor, unique) && (e.Tap? ==> HasChannel(unique, KeyOf(e.tap)))
    ensures r == RewriteEndpoint(e)
  {
    hide Alias, KeyOf;
    match e
    case Tap(t) =>
      var target := targetFor[KeyOf(t)];
      r := Port(PortRef(SYNTH_TAP, Literal(target.0), Some(NameIndex(target.1, false))));
    case _ =>
      r := e;
  }

  method CollectTaps(body: seq<Statement>) returns (occurrences: seq<TapTarget>)
    ensures occurrences == Occurrences(body)
  {
    occurrences := [];
    for n := 0 to |body|
      invariant occurrences == Occurrences(body[..n])
    {
      assert body[..n + 1][..n] == body[..n];
      ghost var before := occurrences;
      if body[n].Cable? {
        var c := body[n].connection;
        if c.lhs.Tap? {
          occurrences := occurrences + [c.lhs.tap];
        }
        if c.rhs.Tap? {
          occurrences := occurrences + [c.rhs.tap];
        }
        assert occurrences == before + (TapsOfEndpoint(c.lhs) + TapsOfEndpoint(c.rhs));
      } else {
        assert occurrences == before + [];
      }
    }
    assert body[..|body|] == body;
  }

  method DesugarTaps(file: File) returns (out: File, manifest: seq<TapDescriptor>)
    ensures out == File(file.templates, Desugared(file.body)) && manifest == Manifest(file.body)
  {
    hide Occurrences, Coalesced, KeyOf, Classify, Emit, EmitOne, Entries, SlotOf, Alias, SynthTap;
    var occurrences := CollectTaps(file.body);
    if occurrences == [] {
      NoTaps();
      return file, [];
    }
    var unique := Coalesce(occurrences);
    var slotOf := AssignSlots(unique);
    var synth := SynthTapModule(unique, slotOf);
    var targetFor := BuildTable(unique);
    var body := RewriteBody(file.body, targetFor, unique);
    manifest := BuildManifest(unique, slotOf);
    out := File(file.templates, [Module(synth)] + body);
  }

  lemma NoTaps()
    ensures ManifestOf(Coalesced([]), |Coalesced([])|) == []
  {}

  ghost predicate IsSlots(slotOf: seq<nat>, unique: seq<TapTarget>) {
    |slotOf| == |unique| && forall i :: 0 <= i < |unique| ==> slotOf[i] == SlotOf(unique, i)
  }

  /** Slots in source order, each channel taking its width. */
  method AssignSlots(unique: seq<TapTarget>) returns (slotOf: seq<nat>)
    ensures IsSlots(slotOf, unique)
  {
    hide Classify;
    slotOf := [];
    var nextSlot := 0;
    for i := 0 to |unique|
      invariant |slotOf| == i && nextSlot == SlotOf(unique, i)
      invariant forall j :: 0 <= j < i ==> slotOf[j] == SlotOf(unique, j)
    {
      slotOf := slotOf + [nextSlot];
      nextSlot := nextSlot + Width(Classify(unique[i]));
    }
  }

  method SynthTapModule(unique: seq<TapTarget>, slotOf: seq<nat>) returns (m: ModuleDecl)
    requires IsSlots(slotOf, unique)
    ensures m == SynthTap(unique)
  {
    hide Classify, SlotOf, Alias;
    var aliases := seq(|unique|, i requires 0 <= i < |unique| => Alias(KeyOf(unique[i])));
    var params := seq(|unique|, i requires 0 <= i < |unique| =>
      AtBlock(AtAlias(aliases[i]), [("slot_offset", ScalarValue(IntLit(if i < |slotOf| then slotOf[i] else 0))),
                                    ("kind", ScalarValue(StrLit(KindName(Classify(unique[i])))))]));
    assert params == ChannelParams(unique);
    m := ModuleDecl(SYNTH_TAP, TYPE_TAP, Some([Bare(AliasList(aliases))]), params, false);
  }

  method BuildTable(unique: seq<TapTarget>) returns (targetFor: map<Key, (string, string)>)
    ensures IsTable(targetFor, unique)
  {
    hide KeyOf, Alias;
    targetFor := map[];
    for i := 0 to |unique|
      invariant IsTable(targetFor, unique[..i])
    {
      var k := KeyOf(unique[i]);
      ChannelAdded(unique, i);
      targetFor := targetFor[k := (PortName(k.kind), Alias(k))];
    }
    assert unique[..|unique|] == unique;
  }

  lemma ChannelAdded(unique: seq<TapTarget>, i: nat)
    requires i < |unique|
    ensures forall k :: HasChannel(unique[..i + 1], k) <==> HasChannel(unique[..i], k) || k == KeyOf(unique[i])
  {
    hide KeyOf;
    forall k | HasChannel(unique[..i], k) || k == KeyOf(unique[i]) ensures HasChannel(unique[..i + 1], k) {
      if HasChannel(unique[..i], k) {
        var j :| 0 <= j < i && KeyOf(unique[..i][j]) == k;
        assert KeyOf(unique[..i + 1][j]) == k;
      } else {
        assert KeyOf(unique[..i + 1][i]) == k;
      }
    }
    forall k | HasChannel(unique[..i + 1], k) ensures HasChannel(unique[..i], k) || k == KeyOf(unique[i]) {
      var j :| 0 <= j < i + 1 && KeyOf(unique[..i + 1][j]) == k;
      assert j < i ==> KeyOf(unique[..i][j]) == k;
    }
  }

  /** Rewrites the cables in order, dropping a tap edge already emitted. */
  method RewriteBody(body: seq<Statement>, targetFor: map<Key, (string, string)>, ghost unique: seq<TapTarget>)
    returns (out: seq<Statement>)
    requires IsTable(targetFor, unique) && unique == Coalesced(Occurrences(body))
    ensures out == Emit(body).body
  {
    hide IsTable, KeyOf, Coalesced, RewriteEndpoint, TapEdgeKey;
    out := [];
    var emitted: set<EdgeKey> := {};
    for n := 0 to |body|
      invariant Emit(body[..n]) == Emitted(out, emitted)
    {
      assert body[..n + 1][..n] == body[..n];
      match body[n]
      case Cable(c) =>
        TapsHaveChannels(body, n);
        var lhs := RewriteTap(c.lhs, targetFor, unique);
        var rhs := RewriteTap(c.rhs, targetFor, unique);
        var rewritten := Connection(lhs, c.arrow, rhs);
        var key := TapEdgeKey(rewritten);
        if key.Some? {
          if key.value in emitted {
            continue;
          }
          emitted := emitted + {key.value};
        }
        out := out + [Cable(rewritten)];
      case _ =>
        out := out + [body[n]];
    }
    assert body[..|body|] == body;
  }

  lemma TapsHaveChannels(body: seq<Statement>, n: nat)
    requires n < |body| && body[n].Cable?
    ensures var c, unique := body[n].connection, Coalesced(Occurrences(body));
            && (c.lhs.Tap? ==> HasChannel(unique, KeyOf(c.lhs.tap)))
            && (c.rhs.Tap? ==> HasChannel(unique, KeyOf(c.rhs.tap)))
  {
    hide Coalesced, KeyOf;
    CoalescedIs(Occurrences(body));
    TapsOccur(body, n);
    var c := body[n].connection;
    if c.lhs.Tap? {
      assert Written(Occurrences(body), KeyOf(c.lhs.tap));
    }
    if c.rhs.Tap? {
      assert Written(Occurrences(body), KeyOf(c.rhs.tap));
    }
  }

  lemma {:induction false} TapsOccur(body: seq<Statement>, n: nat)
    requires n < |body| && body[n].Cable?
    ensures body[n].connection.lhs.Tap? ==> body[n].connection.lhs.tap in Occurrences(body)
    ensures body[n].connection.rhs.Tap? ==> body[n].connection.rhs.tap in Occurrences(body)
    decreases |body|
  {
    if n < |body| - 1 {
      TapsOccur(body[..|body| - 1], n);
    } else {
      var l, r := TapsOfEndpoint(body[n].connection.lhs), TapsOfEndpoint(body[n].connection.rhs);
      assert body[n].connection.lhs.Tap? ==> (l + r)[0] == body[n].connection.lhs.tap;
      assert body[n].connection.rhs.Tap? ==> (l + r)[|l|] == body[n].connection.rhs.tap;
    }
  }

  /** Manifest entries in slot order, a stereo channel publishing two. */
  method BuildManifest(unique: seq<TapTarget>, slotOf: seq<nat>) returns (manifest: seq<TapDescriptor>)
    requires IsSlots(slotOf, unique)
    ensures manifest == ManifestOf(unique, |unique|)
  {
    hide Classify, SlotOf;
    manifest := [];
    for i := 0 to |unique|
      invariant manifest == ManifestOf(unique, i)
    {
      var t := unique[i];
      match Classify(t)
      case Stereo =>
        manifest := manifest + [TapDescriptor(slotOf[i], 1, t.name + "/left", t.components),
                                TapDescriptor(slotOf[i] + 1, 1, t.name + "/right", t.components)];
      case _ =>
        manifest := manifest + [TapDescriptor(slotOf[i], 1, t.name, t.components)];
    }
  }
}
