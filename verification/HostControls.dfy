/**
 Host-control desugaring: declarations, explicit and implied, become the channels of one synthetic module, in
 alphabetical order.
 */
module HostControls {
  import opened Wrappers
  import opened Ast

  const SYNTH_HOST_CONTROL := "~host_control"
  const TYPE_HOST_CONTROL := "HostControl"

  function OutPort(k: HostControlKind): string {
    if k.Trigger? then "trigger_out" else "audio_out"
  }

  function KindName(k: HostControlKind): string {
    match k
    case Knob => "knob"
    case Slider => "slider"
    case Toggle => "toggle"
    case Trigger => "trigger"
  }

  // ── Alphabetical order ──

  /** Strictly before, comparing characters from the left. */
  predicate Less(a: string, b: string) {
    if b == [] then false
    else if a == [] then true
    else a[0] < b[0] || (a[0] == b[0] && Less(a[1..], b[1..]))
  }

  lemma {:induction false} LessTotal(a: string, b: string)
    ensures Less(a, b) || Less(b, a) || a == b
    ensures !(Less(a, b) && Less(b, a)) && !Less(a, a)
    decreases |a|
  {
    if a != [] {
      if b != [] {
        LessTotal(a[1..], b[1..]);
        assert a == [a[0]] + a[1..] && b == [b[0]] + b[1..];
      }
      LessTotal(a[1..], a[1..]);
    }
  }

  lemma {:induction false} LessTransitive(a: string, b: string, c: string)
    requires Less(a, b) && Less(b, c)
    ensures Less(a, c)
    decreases |a|
  {
    if a != [] && a[0] == b[0] == c[0] {
      LessTransitive(a[1..], b[1..], c[1..]);
    }
  }

  /** The order of a dictionary: at the first difference the smaller character, or the shorter text if there is none. */
  lemma {:induction false} LessIff(a: string, b: string)
    ensures Less(a, b) <==> exists k: nat :: ComesFirst(a, b, k)
    decreases |a|
  {
    if b != [] {
      if a != [] && a[0] == b[0] {
        LessIff(a[1..], b[1..]);
        if Less(a[1..], b[1..]) {
          var k: nat :| ComesFirst(a[1..], b[1..], k);
          assert a == [a[0]] + a[1..] && b == [b[0]] + b[1..];
          assert ComesFirst(a, b, k + 1);
        }
        if k: nat :| ComesFirst(a, b, k) {
          assert k > 0;
          assert a[..k][1..] == a[1..][..k - 1] && b[..k][1..] == b[1..][..k - 1];
          assert ComesFirst(a[1..], b[1..], k - 1);
        }
      } else {
        if Less(a, b) { assert ComesFirst(a, b, 0); }
        forall k: nat ensures ComesFirst(a, b, k) ==> k == 0 { SameStart(a, b, k); }
      }
    }
  }

  lemma SameStart(a: string, b: string, k: nat)
    ensures ComesFirst(a, b, k) && k > 0 ==> a != [] && b != [] && a[0] == b[0]
  {
    if ComesFirst(a, b, k) && k > 0 {
      assert a[..k][0] == a[0] && b[..k][0] == b[0];
    }
  }

  /** The texts agree before `k`, and there `a` ends or has the smaller character. */
  predicate ComesFirst(a: string, b: string, k: nat) {
    k <= |a| && k < |b| && a[..k] == b[..k] && (k == |a| || a[k] < b[k])
  }

  // ── Declarations ──

  function Explicit(body: seq<Statement>): seq<HostControlBlock> {
    if body == [] then []
    else Explicit(body[..|body| - 1]) + if body[|body| - 1].HostControl? then [body[|body| - 1].block] else []
  }

  function RefsOfEndpoint(e: Endpoint): seq<string> {
    if e.HostControlRef? then [e.control] else []
  }

  function RefsOf(s: Statement): seq<string> {
    if s.Cable? then RefsOfEndpoint(s.connection.lhs) + RefsOfEndpoint(s.connection.rhs) else []
  }

  /** The control names that cables refer to, in source order. */
  function References(body: seq<Statement>): seq<string> {
    if body == [] then [] else References(body[..|body| - 1]) + RefsOf(body[|body| - 1])
  }

  function NamesOf(decls: seq<HostControlBlock>): set<string> {
    set d | d in decls :: d.name
  }

  /** The referred names that are not declared, each once, in order of first reference. */
  function Implied(declared: set<string>, refs: seq<string>): seq<string> {
    if refs == [] then []
    else
      var front, last := Implied(declared, refs[..|refs| - 1]), refs[|refs| - 1];
      if last in declared || last in front then front else front + [last]
  }

  function EmptyKnob(name: string): HostControlBlock {
    HostControlBlock(Knob, name, [])
  }

  function EmptyKnobs(names: seq<string>): (r: seq<HostControlBlock>)
    ensures |r| == |names|
  {
    seq(|names|, i requires 0 <= i < |names| => EmptyKnob(names[i]))
  }

  /** Every control of the patch: those declared, then an empty knob for each name only referred to. */
  function AllDecls(body: seq<Statement>): seq<HostControlBlock> {
    Explicit(body) + EmptyKnobs(Implied(NamesOf(Explicit(body)), References(body)))
  }

  /** No two declarations share a name. */
  predicate DistinctNames(decls: seq<HostControlBlock>) {
    forall i, j :: 0 <= i < j < |decls| ==> decls[i].name != decls[j].name
  }

  ghost predicate NoRepeats(names: seq<string>) {
    forall i, j :: 0 <= i < j < |names| ==> names[i] != names[j]
  }

  lemma NoRepeatsMore(names: seq<string>, n: string)
    requires NoRepeats(names) && n !in names
    ensures NoRepeats(names + [n])
  {
    forall i, j | 0 <= i < j < |names + [n]| ensures (names + [n])[i] != (names + [n])[j] {
      assert names[i] in names;
    }
  }

  lemma KnobsDistinct(names: seq<string>)
    requires NoRepeats(names)
    ensures DistinctNames(EmptyKnobs(names))
  {
    forall i, j | 0 <= i < j < |names| ensures EmptyKnobs(names)[i].name != EmptyKnobs(names)[j].name {
      assert EmptyKnobs(names)[i].name == names[i] && EmptyKnobs(names)[j].name == names[j];
    }
  }

  lemma {:induction false} ImpliedMembers(declared: set<string>, refs: seq<string>)
    ensures forall n :: n in Implied(declared, refs) <==> n in refs && n !in declared
    ensures NoRepeats(Implied(declared, refs))
    decreases |refs|
  {
    if refs != [] {
      var n := |refs| - 1;
      ImpliedMembers(declared, refs[..n]);
      assert refs == refs[..n] + [refs[n]];
      if refs[n] !in Implied(declared, refs[..n]) {
        NoRepeatsMore(Implied(declared, refs[..n]), refs[n]);
      }
    }
  }

  lemma DeclaredNames(decls: seq<HostControlBlock>)
    ensures forall i :: 0 <= i < |decls| ==> decls[i].name in NamesOf(decls)
  {
    forall i | 0 <= i < |decls| ensures decls[i].name in NamesOf(decls) {
      assert decls[i] in decls;
    }
  }

  /** Implied controls never clash: names are distinct as soon as the declared ones are. */
  lemma AllDistinct(body: seq<Statement>)
    requires DistinctNames(Explicit(body))
    ensures DistinctNames(AllDecls(body))
  {
    var explicit, implied := Explicit(body), Implied(NamesOf(Explicit(body)), References(body));
    ImpliedMembers(NamesOf(explicit), References(body));
    DeclaredNames(explicit);
    hide Explicit, Implied, References, NamesOf;
    assert forall i :: 0 <= i < |implied| ==> implied[i] in implied;
    KnobsDistinct(implied);
    JoinedDistinct(explicit, EmptyKnobs(implied));
  }

  lemma JoinedDistinct(a: seq<HostControlBlock>, b: seq<HostControlBlock>)
    requires DistinctNames(a) && DistinctNames(b)
    requires forall i, j :: 0 <= i < |a| && 0 <= j < |b| ==> a[i].name != b[j].name
    ensures DistinctNames(a + b)
  {}

  /** The controls of a patch: the declared ones, and an empty knob for every other name referred to. */
  lemma AllDeclsMembers(body: seq<Statement>)
    ensures forall d :: d in AllDecls(body) <==>
              d in Explicit(body)
              || (d == EmptyKnob(d.name) && d.name in References(body) && d.name !in NamesOf(Explicit(body)))
  {
    var implied := Implied(NamesOf(Explicit(body)), References(body));
    ImpliedMembers(NamesOf(Explicit(body)), References(body));
    hide Explicit, Implied, References, NamesOf;
    forall d ensures d in EmptyKnobs(implied) <==> d == EmptyKnob(d.name) && d.name in implied {
      if d == EmptyKnob(d.name) && d.name in implied {
        var i :| 0 <= i < |implied| && implied[i] == d.name;
        assert EmptyKnobs(implied)[i] == d;
      }
    }
  }

  // ── Sorting ──

  predicate Alphabetical(decls: seq<HostControlBlock>) {
    forall i, j :: 0 <= i < j < |decls| ==> Less(decls[i].name, decls[j].name)
  }

  /** Into place behind every name that is not later. */
  function Insert(sorted: seq<HostControlBlock>, d: HostControlBlock): (r: seq<HostControlBlock>)
    ensures multiset(r) == multiset(sorted) + multiset{d}
  {
    if sorted == [] then [d]
    else
      var n := |sorted| - 1;
      assert sorted == sorted[..n] + [sorted[n]];
      if Less(d.name, sorted[n].name) then Insert(sorted[..n], d) + [sorted[n]] else sorted + [d]
  }

  function Sorted(decls: seq<HostControlBlock>): (r: seq<HostControlBlock>)
    ensures multiset(r) == multiset(decls)
  {
    if decls == [] then []
    else
      var n := |decls| - 1;
      assert decls == decls[..n] + [decls[n]];
      Insert(Sorted(decls[..n]), decls[n])
  }

  lemma {:induction false} InsertAlphabetical(sorted: seq<HostControlBlock>, d: HostControlBlock)
    requires Alphabetical(sorted) && forall e :: e in sorted ==> e.name != d.name
    ensures Alphabetical(Insert(sorted, d))
    decreases |sorted|
  {
    hide Less;
    if sorted != [] {
      var n := |sorted| - 1;
      var last := sorted[n];
      LessTotal(d.name, last.name);
      assert last in sorted;
      if Less(d.name, last.name) {
        InsertAlphabetical(sorted[..n], d);
        var r := Insert(sorted[..n], d);
        InsertMembers(sorted[..n], d);
        forall e | e in r ensures Less(e.name, last.name) {}
        AlphabeticalMore(r, last);
      } else {
        forall i | 0 <= i < n ensures Less(sorted[i].name, d.name) {
          LessTransitive(sorted[i].name, last.name, d.name);
        }
      }
    }
  }

  lemma InsertMembers(sorted: seq<HostControlBlock>, d: HostControlBlock)
    ensures forall e :: e in Insert(sorted, d) ==> e == d || e in sorted
  {
    forall e | e in Insert(sorted, d) ensures e == d || e in sorted {
      assert e in multiset(Insert(sorted, d));
      assert e in multiset(sorted) <==> e in sorted;
    }
  }

  lemma AlphabeticalMore(front: seq<HostControlBlock>, last: HostControlBlock)
    requires Alphabetical(front) && forall e :: e in front ==> Less(e.name, last.name)
    ensures Alphabetical(front + [last])
  {
    hide Less;
    assert forall i :: 0 <= i < |front| ==> front[i] in front;
  }

  lemma {:induction false} SortedAlphabetical(decls: seq<HostControlBlock>)
    requires DistinctNames(decls)
    ensures Alphabetical(Sorted(decls))
    decreases |decls|
  {
    hide Less, Insert;
    if decls != [] {
      var n := |decls| - 1;
      SortedAlphabetical(decls[..n]);
      forall e | e in Sorted(decls[..n]) ensures e.name != decls[n].name {
        assert e in multiset(Sorted(decls[..n]));
        assert e in multiset(decls[..n]);
      }
      InsertAlphabetical(Sorted(decls[..n]), decls[n]);
    }
  }

  /** An alphabetical list is determined by its members. */
  lemma {:induction false} AlphabeticalUnique(a: seq<HostControlBlock>, b: seq<HostControlBlock>)
    requires Alphabetical(a) && Alphabetical(b) && (forall d :: d in a <==> d in b)
    ensures a == b
    decreases |a|
  {
    hide Less;
    HasFirst(a);
    HasFirst(b);
    if a != [] {
      var m, n := |a| - 1, |b| - 1;
      var x, y := a[m], b[n];
      assert x in a && y in b;
      LessTotal(x.name, y.name);
      if x != y {
        LastIsGreatest(a, y);
        LastIsGreatest(b, x);
      }
      assert x == y;
      FrontMembers(a);
      FrontMembers(b);
      forall d ensures d in a[..m] <==> d in b[..n] {
        assert d in a[..|a| - 1] <==> d in a && d != x;
        assert d in b[..|b| - 1] <==> d in b && d != y;
      }
      AlphabeticalUnique(a[..m], b[..n]);
      assert a == a[..m] + [x] && b == b[..n] + [y];
    }
  }

  lemma HasFirst(a: seq<HostControlBlock>)
    ensures a != [] ==> a[0] in a
  {}

  lemma LastIsGreatest(a: seq<HostControlBlock>, d: HostControlBlock)
    requires Alphabetical(a) && d in a
    ensures d == a[|a| - 1] || Less(d.name, a[|a| - 1].name)
  {
    hide Less;
  }

  lemma FrontMembers(a: seq<HostControlBlock>)
    requires Alphabetical(a) && a != []
    ensures forall d :: d in a[..|a| - 1] <==> d in a && d != a[|a| - 1]
  {
    hide Less;
    var m := |a| - 1;
    LessTotal(a[m].name, a[m].name);
    assert a == a[..m] + [a[m]];
  }

  // ── The output ──

  /** The kind of a declared control. */
  function KindIn(decls: seq<HostControlBlock>, name: string): (k: Option<HostControlKind>)
    ensures k.None? ==> forall d :: d in decls ==> d.name != name
    ensures k.Some? ==> exists d :: d in decls && d.name == name && d.kind == k.value
  {
    if decls == [] then None
    else
      assert decls == decls[..|decls| - 1] + [decls[|decls| - 1]];
      if decls[|decls| - 1].name == name then Some(decls[|decls| - 1].kind) else KindIn(decls[..|decls| - 1], name)
  }

  function ControlPort(kind: HostControlKind, name: string): Endpoint {
    Port(PortRef(SYNTH_HOST_CONTROL, Literal(OutPort(kind)), Some(NameIndex(name, false))))
  }

  /** A reference becomes the output port of its channel, by declared kind. */
  function RewriteEndpoint(e: Endpoint, decls: seq<HostControlBlock>): (r: Endpoint)
    ensures !e.HostControlRef? ==> r == e
  {
    match e
    case HostControlRef(name) =>
      var kind := KindIn(decls, name);
      if kind.Some? then ControlPort(kind.value, name) else e
    case _ => e
  }

  function RewriteStatement(s: Statement, decls: seq<HostControlBlock>): Statement {
    match s
    case Cable(c) => Cable(Connection(RewriteEndpoint(c.lhs, decls), c.arrow, RewriteEndpoint(c.rhs, decls)))
    case _ => s
  }

  /** The body without its declarations. */
  function Rest(body: seq<Statement>): seq<Statement> {
    if body == [] then []
    else Rest(body[..|body| - 1]) + if body[|body| - 1].HostControl? then [] else [body[|body| - 1]]
  }

  function RewriteAll(body: seq<Statement>, decls: seq<HostControlBlock>): seq<Statement> {
    seq(|body|, i requires 0 <= i < |body| => RewriteStatement(body[i], decls))
  }

  function SynthModule(decls: seq<HostControlBlock>): ModuleDecl {
    ModuleDecl(SYNTH_HOST_CONTROL, TYPE_HOST_CONTROL,
               Some([Bare(AliasList(seq(|decls|, i requires 0 <= i < |decls| => decls[i].name)))]),
               seq(|decls|, i requires 0 <= i < |decls| =>
                 AtBlock(AtAlias(decls[i].name), [("slot_offset", ScalarValue(IntLit(i))),
                                                  ("kind", ScalarValue(StrLit(KindName(decls[i].kind))))])),
               false)
  }

  datatype HostControlDescriptor = HostControlDescriptor(slot: nat, name: string, kind: HostControlKind,
                                                         params: map<string, Value>)

  /** Later fields win. */
  function ParamsOf(fields: seq<(string, Value)>): map<string, Value> {
    if fields == [] then map[] else ParamsOf(fields[..|fields| - 1])[fields[|fields| - 1].0 := fields[|fields| - 1].1]
  }

  /** A control has the parameters that its fields name, and no others. */
  lemma {:induction false} ParamsNamed(fields: seq<(string, Value)>, k: string)
    ensures k in ParamsOf(fields) <==> exists i :: 0 <= i < |fields| && fields[i].0 == k
    decreases |fields|
  {
    if fields != [] {
      var n := |fields| - 1;
      ParamsNamed(fields[..n], k);
      assert forall i :: 0 <= i < n ==> fields[..n][i] == fields[i];
    }
  }

  /** The last value given for a field is its parameter. */
  lemma {:induction false} ParamsLast(fields: seq<(string, Value)>, i: nat)
    requires i < |fields| && forall j :: i < j < |fields| ==> fields[j].0 != fields[i].0
    ensures fields[i].0 in ParamsOf(fields) && ParamsOf(fields)[fields[i].0] == fields[i].1
    decreases |fields|
  {
    var n := |fields| - 1;
    if i < n {
      ParamsLast(fields[..n], i);
    }
  }

  function ManifestOf(decls: seq<HostControlBlock>): (m: seq<HostControlDescriptor>)
    ensures |m| == |decls|
  {
    seq(|decls|, i requires 0 <= i < |decls| =>
      HostControlDescriptor(i, decls[i].name, decls[i].kind, ParamsOf(decls[i].fields)))
  }

  datatype Output = Output(body: seq<Statement>, manifest: seq<HostControlDescriptor>)

  function Desugared(body: seq<Statement>): Output {
    var decls := Sorted(AllDecls(body));
    if decls == [] then Output(body, [])
    else Output([Module(SynthModule(decls))] + RewriteAll(Rest(body), decls), ManifestOf(decls))
  }

  // ── What the output depends on ──

  /**
     The output depends only on which controls there are and on the statements that are not declarations: neither the
     order of the declarations nor their place in the body matters.
     */
  lemma OrderIrrelevant(a: seq<Statement>, b: seq<Statement>)
    requires DistinctNames(Explicit(a)) && DistinctNames(Explicit(b)) && Rest(a) == Rest(b)
    requires forall d :: d in AllDecls(a) <==> d in AllDecls(b)
    ensures Desugared(a) == Desugared(b)
  {
    hide AllDecls, SynthModule, RewriteAll, ManifestOf, Alphabetical;
    AllDistinct(a);
    AllDistinct(b);
    SortedAlphabetical(AllDecls(a));
    SortedAlphabetical(AllDecls(b));
    SortedMembers(AllDecls(a));
    SortedMembers(AllDecls(b));
    AlphabeticalUnique(Sorted(AllDecls(a)), Sorted(AllDecls(b)));
    if Sorted(AllDecls(a)) == [] {
      NoDeclsRest(a);
      NoDeclsRest(b);
    }
  }

  lemma SortedMembers(decls: seq<HostControlBlock>)
    ensures forall d :: d in Sorted(decls) <==> d in decls
    ensures Sorted(decls) == [] <==> decls == []
  {
    forall d ensures d in Sorted(decls) <==> d in decls {
      assert d in Sorted(decls) <==> d in multiset(Sorted(decls));
      assert d in decls <==> d in multiset(decls);
    }
    assert |Sorted(decls)| == |multiset(Sorted(decls))| == |multiset(decls)| == |decls|;
  }

  lemma {:induction false} NoDeclsRest(body: seq<Statement>)
    requires Sorted(AllDecls(body)) == []
    ensures Rest(body) == body
  {
    SortedMembers(AllDecls(body));
    NoExplicit(body);
  }

  lemma {:induction false} NoExplicit(body: seq<Statement>)
    requires Explicit(body) == []
    ensures Rest(body) == body
    decreases |body|
  {
    if body != [] {
      NoExplicit(body[..|body| - 1]);
    }
  }

  /** Slots are alphabetical ranks: the slot of a control is the number of controls whose names come before its own. */
  lemma SlotIsRank(body: seq<Statement>, i: nat)
    requires DistinctNames(Explicit(body)) && i < |Desugared(body).manifest|
    ensures var entry := Desugared(body).manifest[i];
            entry.slot == i && i == |NamesBefore(AllDecls(body), entry.name)|
  {
    AllDistinct(body);
    SortedAlphabetical(AllDecls(body));
    SortedMembers(AllDecls(body));
    RankInSorted(AllDecls(body), Sorted(AllDecls(body)), i);
  }

  function NamesBefore(decls: seq<HostControlBlock>, name: string): set<string> {
    set d | d in decls && Less(d.name, name) :: d.name
  }

  lemma RankInSorted(all: seq<HostControlBlock>, decls: seq<HostControlBlock>, i: nat)
    requires Alphabetical(decls) && (forall d :: d in decls <==> d in all) && i < |decls|
    ensures |NamesBefore(all, decls[i].name)| == i
  {
    hide Less;
    var before := NamesBefore(all, decls[i].name);
    forall n ensures n in before <==> exists j :: 0 <= j < i && decls[..i][j].name == n {
      if n in before {
        var d :| d in all && Less(d.name, decls[i].name) && d.name == n;
        var j :| 0 <= j < |decls| && decls[j] == d;
        LessTotal(d.name, decls[i].name);
        assert decls[..i][j].name == n;
      }
      if j :| 0 <= j < i && decls[..i][j].name == n {
        assert decls[j] in all && Less(decls[j].name, decls[i].name);
      }
    }
    AlphabeticalDistinct(decls);
    CountNames(decls[..i], before);
  }

  lemma AlphabeticalDistinct(decls: seq<HostControlBlock>)
    requires Alphabetical(decls)
    ensures DistinctNames(decls)
  {
    hide Less;
    forall i, j | 0 <= i < j < |decls| ensures decls[i].name != decls[j].name {
      LessTotal(decls[i].name, decls[j].name);
    }
  }

  lemma {:induction false} CountNames(decls: seq<HostControlBlock>, names: set<string>)
    requires DistinctNames(decls) && forall n :: n in names <==> exists j :: 0 <= j < |decls| && decls[j].name == n
    ensures |names| == |decls|
    decreases |decls|
  {
    if decls == [] {
      assert names == {};
    } else {
      var n := |decls| - 1;
      assert decls[n].name in names;
      forall m ensures m in names - {decls[n].name} <==> exists j :: 0 <= j < n && decls[..n][j].name == m {
        if m in names && m != decls[n].name {
          var j :| 0 <= j < |decls| && decls[j].name == m;
          assert decls[..n][j].name == m;
        }
      }
      CountNames(decls[..n], names - {decls[n].name});
    }
  }

  lemma {:induction false} ExplicitConcat(a: seq<Statement>, b: seq<Statement>)
    ensures Explicit(a + b) == Explicit(a) + Explicit(b)
    decreases |b|
  {
    if b == [] {
      assert a + b == a;
    } else {
      ExplicitConcat(a, b[..|b| - 1]);
      assert (a + b)[..|a + b| - 1] == a + b[..|b| - 1];
    }
  }

  lemma {:induction false} ReferencesConcat(a: seq<Statement>, b: seq<Statement>)
    ensures References(a + b) == References(a) + References(b)
    decreases |b|
  {
    hide RefsOf;
    if b == [] {
      assert a + b == a;
    } else {
      ReferencesConcat(a, b[..|b| - 1]);
      assert (a + b)[..|a + b| - 1] == a + b[..|b| - 1];
    }
  }

  lemma {:induction false} RestConcat(a: seq<Statement>, b: seq<Statement>)
    ensures Rest(a + b) == Rest(a) + Rest(b)
    decreases |b|
  {
    if b == [] {
      assert a + b == a;
    } else {
      RestConcat(a, b[..|b| - 1]);
      assert (a + b)[..|a + b| - 1] == a + b[..|b| - 1];
    }
  }

  /** The body with a declaration added at position `p`. */
  function WithDecl(body: seq<Statement>, p: nat, d: HostControlBlock): seq<Statement>
    requires p <= |body|
  {
    body[..p] + [HostControl(d)] + body[p..]
  }

  lemma WithDeclParts(body: seq<Statement>, p: nat, d: HostControlBlock)
    requires p <= |body|
    ensures Explicit(WithDecl(body, p, d)) == Explicit(body[..p]) + [d] + Explicit(body[p..])
    ensures Explicit(body) == Explicit(body[..p]) + Explicit(body[p..])
    ensures References(WithDecl(body, p, d)) == References(body) && Rest(WithDecl(body, p, d)) == Rest(body)
  {
    OneDecl(d);
    hide Explicit, References, Rest;
    var front, back, one := body[..p], body[p..], [HostControl(d)];
    assert body == front + back;
    ExplicitConcat(front, back);
    ExplicitConcat(front, one);
    ExplicitConcat(front + one, back);
    ReferencesConcat(front, back);
    ReferencesConcat(front, one);
    ReferencesConcat(front + one, back);
    RestConcat(front, back);
    RestConcat(front, one);
    RestConcat(front + one, back);
    assert References(front) + [] == References(front) && Rest(front) + [] == Rest(front);
  }

  lemma OneDecl(d: HostControlBlock)
    ensures Explicit([HostControl(d)]) == [d] && References([HostControl(d)]) == [] && Rest([HostControl(d)]) == []
  {}

  /** A name that is only referred to gives the output that an explicit empty knob, anywhere in the body, would give. */
  lemma ImplicitIsEmptyKnob(body: seq<Statement>, p: nat, name: string)
    requires DistinctNames(Explicit(body)) && p <= |body|
    requires name in References(body) && name !in NamesOf(Explicit(body))
    ensures DistinctNames(Explicit(WithDecl(body, p, EmptyKnob(name))))
    ensures Desugared(WithDecl(body, p, EmptyKnob(name))) == Desugared(body)
  {
    hide Explicit, References, Rest, AllDecls, Desugared;
    var d := EmptyKnob(name);
    var body' := WithDecl(body, p, d);
    var front, back := Explicit(body[..p]), Explicit(body[p..]);
    WithDeclParts(body, p, d);
    DeclaredNames(Explicit(body));
    AddedDistinct(front, d, back);
    AllDeclsMembers(body);
    AllDeclsMembers(body');
    AddedNames(front, d, back);
    OrderIrrelevant(body', body);
  }

  lemma AddedDistinct(front: seq<HostControlBlock>, d: HostControlBlock, back: seq<HostControlBlock>)
    requires DistinctNames(front + back)
    requires forall i :: 0 <= i < |front + back| ==> (front + back)[i].name != d.name
    ensures DistinctNames(front + [d] + back)
  {
    var all, n := front + [d] + back, |front|;
    forall i, j | 0 <= i < j < |all| ensures all[i].name != all[j].name {
      var i', j' := if i < n then i else i - 1, if j < n then j else j - 1;
      assert i != n ==> all[i] == (front + back)[i'];
      assert j != n ==> all[j] == (front + back)[j'];
    }
  }

  lemma AddedNames(front: seq<HostControlBlock>, d: HostControlBlock, back: seq<HostControlBlock>)
    ensures forall e :: e in front + [d] + back <==> e in front + back || e == d
    ensures NamesOf(front + [d] + back) == NamesOf(front + back) + {d.name}
  {
    assert (front + [d] + back)[|front|] == d;
  }

  // ── Both sides agree ──

  /** Channel `i` as the synthesised module declares it. */
  ghost predicate Declares(m: ModuleDecl, i: nat, name: string, slot: nat, kind: HostControlKind) {
    && m.name == "~host_control" && m.typeName == "HostControl" && !m.isStereo
    && m.callBlock.Some? && |m.callBlock.value| == 1 && m.callBlock.value[0].Bare?
    && m.callBlock.value[0].value.AliasList?
    && i < |m.callBlock.value[0].value.aliases| && m.callBlock.value[0].value.aliases[i] == name
    && i < |m.params|
    && m.params[i] == AtBlock(AtAlias(name), [("slot_offset", ScalarValue(IntLit(slot))),
                                              ("kind", ScalarValue(StrLit(KindName(kind))))])
  }

  /** How a control was written: its declaration's kind and fields, or a knob without fields if it has none. */
  predicate Written(body: seq<Statement>, name: string, kind: HostControlKind, params: map<string, Value>) {
    if name in NamesOf(Explicit(body))
    then exists d :: d in Explicit(body) && d.name == name && d.kind == kind && params == ParamsOf(d.fields)
    else kind == Knob && params == map[]
  }

  lemma KindSpelled(kind: HostControlKind)
    ensures KindName(kind) == if kind == Knob then "knob" else if kind == Slider then "slider"
                              else if kind == Toggle then "toggle" else "trigger"
  {}

  /**
     Every control referred to lands on one channel, and there the audio side and the manifest say the same: the alias
     and port its references are wired to, the slot and kind declared for that alias, and the manifest entry of that
     slot, with the control's name and the kind and fields it was written with.
     */
  lemma ControlLands(body: seq<Statement>, name: string) returns (i: nat)
    requires DistinctNames(Explicit(body)) && name in References(body)
    ensures var out := Desugared(body);
            && i < |out.manifest| && out.body != [] && out.body[0].Module?
            && out.manifest[i].slot == i && out.manifest[i].name == name
            && Written(body, name, out.manifest[i].kind, out.manifest[i].params)
            && Declares(out.body[0].decl, i, name, out.manifest[i].slot, out.manifest[i].kind)
            && RewriteEndpoint(HostControlRef(name), Sorted(AllDecls(body)))
               == Port(PortRef("~host_control",
                               Literal(if out.manifest[i].kind == Trigger then "trigger_out" else "audio_out"),
                               Some(NameIndex(name, false))))
  {
    hide AllDecls, Explicit, References, Sorted, RewriteAll, Rest;
    var decls := Sorted(AllDecls(body));
    SortedMembers(AllDecls(body));
    ReferencesDeclared(body, decls);
    var kind := KindIn(decls, name).value;
    var d :| d in decls && d.name == name && d.kind == kind;
    i :| 0 <= i < |decls| && decls[i] == d;
    AllDeclsMembers(body);
    assert Written(body, name, kind, ParamsOf(d.fields));
  }

  function RewriteCable(c: Connection, decls: seq<HostControlBlock>): (r: Connection)
    ensures r.arrow == c.arrow && r.lhs == RewriteEndpoint(c.lhs, decls) && r.rhs == RewriteEndpoint(c.rhs, decls)
  {
    Connection(RewriteEndpoint(c.lhs, decls), c.arrow, RewriteEndpoint(c.rhs, decls))
  }

  lemma {:induction false} CablesOfRest(body: seq<Statement>, decls: seq<HostControlBlock>)
    ensures var out := Cables(RewriteAll(Rest(body), decls));
            && |out| == |Cables(body)|
            && forall k :: 0 <= k < |out| ==> out[k] == RewriteCable(Cables(body)[k], decls)
    decreases |body|
  {
    hide RewriteEndpoint;
    if body != [] {
      var n := |body| - 1;
      CablesOfRest(body[..n], decls);
      var rest := RewriteAll(Rest(body[..n]), decls);
      if body[n].HostControl? {
        assert Rest(body) == Rest(body[..n]);
      } else {
        assert RewriteAll(Rest(body), decls)[..|rest|] == rest;
        assert RewriteAll(Rest(body), decls) == rest + [RewriteStatement(body[n], decls)];
      }
    }
  }

  /** The wiring is kept: every cable stays in place with its arrow; its references are landed, and none is left. */
  lemma ReferencesLanded(body: seq<Statement>)
    requires References(body) != []
    ensures var out, decls := Cables(Desugared(body).body), Sorted(AllDecls(body));
            && |out| == |Cables(body)|
            && forall k :: 0 <= k < |out| ==> out[k] == RewriteCable(Cables(body)[k], decls)
                                              && !out[k].lhs.HostControlRef? && !out[k].rhs.HostControlRef?
  {
    hide AllDecls, Explicit, References, Sorted, RewriteAll, Rest, SynthModule, RefsOf;
    var decls := Sorted(AllDecls(body));
    SortedMembers(AllDecls(body));
    ReferencesDeclared(body, decls);
    assert References(body)[0] in References(body);
    assert decls != [];
    var rest := RewriteAll(Rest(body), decls);
    CablesOfRest(body, decls);
    OneModuleFirst(SynthModule(decls), rest);
    forall k | 0 <= k < |Cables(body)|
      ensures !RewriteCable(Cables(body)[k], decls).lhs.HostControlRef?
      ensures !RewriteCable(Cables(body)[k], decls).rhs.HostControlRef?
    {
      RefsOfCable(body, Cables(body)[k]);
      RefsHere(Cables(body)[k]);
    }
  }

  /** Of the statements that are neither declarations nor cables, those that declare no control. */
  function Copied(body: seq<Statement>): seq<Statement> {
    if body == [] then []
    else
      var s := body[|body| - 1];
      Copied(body[..|body| - 1]) + if s.Module? || s.Cable? || s.HostControl? then [] else [s]
  }

  lemma {:induction false} RestKeeps(body: seq<Statement>, decls: seq<HostControlBlock>)
    ensures var out := RewriteAll(Rest(body), decls);
            Decls(out) == Decls(body) && Others(out) == Copied(body)
    decreases |body|
  {
    hide RewriteEndpoint;
    if body != [] {
      var n := |body| - 1;
      RestKeeps(body[..n], decls);
      var rest := RewriteAll(Rest(body[..n]), decls);
      if body[n].HostControl? {
        assert Rest(body) == Rest(body[..n]);
        assert Decls(body[..n]) + [] == Decls(body[..n]) && Copied(body[..n]) + [] == Copied(body[..n]);
      } else {
        assert RewriteAll(Rest(body), decls) == rest + [RewriteStatement(body[n], decls)];
        assert (rest + [RewriteStatement(body[n], decls)])[..|rest|] == rest;
      }
    }
  }

  /** Every declaration is kept, after the synthetic one, and every other statement that declares no control. */
  lemma StatementsKept(body: seq<Statement>)
    ensures var out, decls := Desugared(body).body, Sorted(AllDecls(body));
            if decls == [] then out == body
            else Decls(out) == [SynthModule(decls)] + Decls(body) && Others(out) == Copied(body)
  {
    hide AllDecls, Sorted, RewriteAll, Rest, SynthModule;
    var decls := Sorted(AllDecls(body));
    var rest := RewriteAll(Rest(body), decls);
    RestKeeps(body, decls);
    DeclsConcat([Module(SynthModule(decls))], rest);
    OthersConcat([Module(SynthModule(decls))], rest);
    assert Decls([Module(SynthModule(decls))]) == [SynthModule(decls)]
        && Others([Module(SynthModule(decls))]) == [] by {
      assert [Module(SynthModule(decls))][..0] == [];
    }
    assert [] + Others(rest) == Others(rest);
  }

  lemma OneModuleFirst(m: ModuleDecl, rest: seq<Statement>)
    ensures Cables([Module(m)] + rest) == Cables(rest)
  {
    CablesConcat([Module(m)], rest);
    assert Cables([Module(m)]) == [];
    assert [] + Cables(rest) == Cables(rest);
  }

  lemma {:induction false} RefsOfCable(body: seq<Statement>, c: Connection)
    requires c in Cables(body)
    ensures forall name :: name in RefsOf(Cable(c)) ==> name in References(body)
    decreases |body|
  {
    hide RefsOf;
    var n := |body| - 1;
    if c in Cables(body[..n]) {
      RefsOfCable(body[..n], c);
    }
  }

  // ── The pass ──

  method CollectDecls(body: seq<Statement>) returns (decls: seq<HostControlBlock>)
    ensures decls == Explicit(body)
  {
    decls := [];
    for n := 0 to |body|
      invariant decls == Explicit(body[..n])
    {
      assert body[..n + 1][..n] == body[..n];
      if body[n].HostControl? {
        decls := decls + [body[n].block];
      }
    }
    assert body[..|body|] == body;
  }

  lemma NoneImplied(declared: set<string>)
    ensures Implied(declared, []) == []
  {}

  lemma ImpliedMore(declared: set<string>, before: seq<string>, refs: seq<string>, j: nat)
    requires j < |refs|
    ensures var front := Implied(declared, before + refs[..j]);
            Implied(declared, before + refs[..j + 1])
            == if refs[j] in declared || refs[j] in front then front else front + [refs[j]]
  {
    var all := before + refs[..j + 1];
    assert all[..|all| - 1] == before + refs[..j] && all[|all| - 1] == refs[j];
  }

  /** Every referred name that is neither declared nor seen before. */
  method CollectImplied(body: seq<Statement>, declared: set<string>) returns (names: seq<string>)
    ensures names == Implied(declared, References(body))
  {
    hide RefsOf, Implied;
    names := [];
    NoneImplied(declared);
    var seen: set<string> := {};
    for n := 0 to |body|
      invariant names == Implied(declared, References(body[..n]))
      invariant forall name :: name in seen <==> name in names
    {
      assert body[..n + 1][..n] == body[..n];
      var refs := RefsOf(body[n]);
      ghost var before := References(body[..n]);
      assert before + [] == before;
      for j := 0 to |refs|
        invariant names == Implied(declared, before + refs[..j])
        invariant forall name :: name in seen <==> name in names
      {
        ImpliedMore(declared, before, refs, j);
        if refs[j] !in declared && refs[j] !in seen {
          seen := seen + {refs[j]};
          names := names + [refs[j]];
        }
      }
      assert refs[..|refs|] == refs;
    }
    assert body[..|body|] == body;
  }

  /** Sorting is the library's; here it is the function `Sorted`. */
  method DesugarHostControls(file: File) returns (out: File, manifest: seq<HostControlDescriptor>)
    requires DistinctNames(Explicit(file.body))
    ensures out == File(file.templates, Desugared(file.body).body) && manifest == Desugared(file.body).manifest
  {
    hide Explicit, References, Implied, SynthModule, ManifestOf, Insert, RewriteStatement, KindIn;
    var decls := CollectDecls(file.body);
    var declared := set d | d in decls :: d.name;
    var implied := CollectImplied(file.body, declared);
    decls := decls + EmptyKnobs(implied);
    if decls == [] {
      return file, [];
    }
    SortedMembers(decls);
    decls := Sorted(decls);
    var lookup := BuildLookup(decls);
    ReferencesDeclared(file.body, decls);
    var body := RewriteRest(file.body, lookup, decls);
    manifest := ManifestOf(decls);
    out := File(file.templates, [Module(SynthModule(decls))] + body);
  }

  method BuildLookup(decls: seq<HostControlBlock>) returns (lookup: map<string, HostControlKind>)
    ensures forall name :: name in lookup <==> KindIn(decls, name).Some?
    ensures forall name :: name in lookup ==> KindIn(decls, name) == Some(lookup[name])
  {
    lookup := map[];
    for n := 0 to |decls|
      invariant forall name :: name in lookup <==> KindIn(decls[..n], name).Some?
      invariant forall name :: name in lookup ==> KindIn(decls[..n], name) == Some(lookup[name])
    {
      assert decls[..n + 1][..n] == decls[..n];
      lookup := lookup[decls[n].name := decls[n].kind];
    }
    assert decls[..|decls|] == decls;
  }

  /** Every reference has a declaration, explicit or implied, so the lookup never fails. */
  lemma ReferencesDeclared(body: seq<Statement>, decls: seq<HostControlBlock>)
    requires forall d :: d in AllDecls(body) ==> d in decls
    ensures forall name :: name in References(body) ==> KindIn(decls, name).Some?
  {
    AllDeclsMembers(body);
    hide AllDecls, References, Explicit;
    forall name | name in References(body) ensures KindIn(decls, name).Some? {
      if name in NamesOf(Explicit(body)) {
        var d :| d in Explicit(body) && d.name == name;
        assert d in decls;
      } else {
        assert EmptyKnob(name) in decls;
      }
    }
  }

  lemma {:induction false} RefsIn(body: seq<Statement>, n: nat)
    requires n < |body|
    ensures forall name :: name in RefsOf(body[n]) ==> name in References(body)
    decreases |body|
  {
    hide RefsOf;
    if n < |body| - 1 {
      RefsIn(body[..|body| - 1], n);
    }
  }

  method RewriteEnd(e: Endpoint, lookup: map<string, HostControlKind>, ghost decls: seq<HostControlBlock>)
    returns (r: Endpoint)
    requires forall name :: name in lookup ==> KindIn(decls, name) == Some(lookup[name])
    requires e.HostControlRef? ==> e.control in lookup
    ensures r == RewriteEndpoint(e, decls)
  {
    match e
    case HostControlRef(name) => r := ControlPort(lookup[name], name);
    case _ => r := e;
  }

  /** The body without its declarations, references rewritten. */
  method RewriteRest(body: seq<Statement>, lookup: map<string, HostControlKind>, ghost decls: seq<HostControlBlock>)
    returns (out: seq<Statement>)
    requires forall name :: name in lookup <==> KindIn(decls, name).Some?
    requires forall name :: name in lookup ==> KindIn(decls, name) == Some(lookup[name])
    requires forall name :: name in References(body) ==> KindIn(decls, name).Some?
    ensures out == RewriteAll(Rest(body), decls)
  {
    hide KindIn, References, RewriteEndpoint;
    out := [];
    for n := 0 to |body|
      invariant out == RewriteAll(Rest(body[..n]), decls)
    {
      assert body[..n + 1][..n] == body[..n];
      RefsIn(body, n);
      match body[n]
      case HostControl(_) =>
      case Cable(c) =>
        RefsHere(c);
        var lhs := RewriteEnd(c.lhs, lookup, decls);
        var rhs := RewriteEnd(c.rhs, lookup, decls);
        out := out + [Cable(Connection(lhs, c.arrow, rhs))];
      case _ =>
        out := out + [body[n]];
    }
    assert body[..|body|] == body;
  }

  lemma RefsHere(c: Connection)
    ensures c.lhs.HostControlRef? ==> c.lhs.control in RefsOf(Cable(c))
    ensures c.rhs.HostControlRef? ==> c.rhs.control in RefsOf(Cable(c))
  {
    var l, r := RefsOfEndpoint(c.lhs), RefsOfEndpoint(c.rhs);
    assert c.lhs.HostControlRef? ==> (l + r)[0] == c.lhs.control;
    assert c.rhs.HostControlRef? ==> (l + r)[|l|] == c.rhs.control;
  }
}
