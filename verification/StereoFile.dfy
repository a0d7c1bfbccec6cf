/** The stereo pass on a whole file: the checks that reject it, and what an accepted file becomes. */
module StereoFile {
  import opened Wrappers
  import opened Ast
  import opened StereoDesugar
  import opened StereoNodes
  import opened StereoSides
  import opened StereoRewrite

  predicate IsStereoDecl(s: Statement) {
    s.Module? && s.decl.isStereo
  }

  predicate StereoInTemplates(file: File) {
    exists t, i :: 0 <= t < |file.templates| && 0 <= i < |file.templates[t]| && IsStereoDecl(file.templates[t][i])
  }

  /** The stereo declarations by name; a later declaration of the same name replaces an earlier one. */
  function StereoDecls(body: seq<Statement>): map<string, ModuleDecl> {
    if |body| == 0 then map[]
    else
      var s := body[|body| - 1];
      var rest := StereoDecls(body[..|body| - 1]);
      if IsStereoDecl(s) then rest[s.decl.name := s.decl] else rest
  }

  function ModuleNames(body: seq<Statement>): set<string> {
    set d | d in Decls(body) :: d.name
  }

  /** Some synthesised instance name is already a module of the patch. */
  predicate Clash(body: seq<Statement>) {
    exists name :: name in StereoDecls(body) && SuffixClash(name, ModuleNames(body))
  }

  predicate SuffixClash(name: string, names: set<string>) {
    SuffixName(name, L) in names || SuffixName(name, R) in names
  }

  predicate IsMultiChannelArg(arg: CallArg) {
    arg.Named? && arg.name == "channels" && arg.value.ScalarShape? && arg.value.scalar.IntLit? && arg.value.scalar.i > 1
  }

  predicate MultiChannel(d: ModuleDecl) {
    d.callBlock.Some? && exists arg :: arg in d.callBlock.value && IsMultiChannelArg(arg)
  }

  predicate AnyMultiChannel(body: seq<Statement>) {
    exists name :: name in StereoDecls(body) && MultiChannel(StereoDecls(body)[name])
  }

  predicate AnyBusToSide(body: seq<Statement>) {
    exists c :: c in Cables(body) && BusToSide(StereoDecls(body).Keys, c)
  }

  lemma {:induction false} StereoDeclsNames(body: seq<Statement>)
    ensures forall d :: d in Decls(body) && d.isStereo ==> d.name in StereoDecls(body)
    ensures forall name :: name in StereoDecls(body) ==> name in ModuleNames(body)
    ensures forall name :: name in StereoDecls(body) ==>
      exists d :: d in Decls(body) && d.isStereo && d.name == name
  {
    if |body| > 0 {
      var s, rest := body[|body| - 1], body[..|body| - 1];
      StereoDeclsNames(rest);
      assert forall d :: d in Decls(body) <==> d in Decls(rest) || (s.Module? && d == s.decl);
    }
  }

  method CheckSingleChannel(d: ModuleDecl) returns (multi: bool)
    ensures multi <==> MultiChannel(d)
  {
    if d.callBlock.None? {
      return false;
    }
    var args := d.callBlock.value;
    for i := 0 to |args|
      invariant forall k :: 0 <= k < i ==> !IsMultiChannelArg(args[k])
    {
      if IsMultiChannelArg(args[i]) {
        return true;
      }
    }
    return false;
  }

  /** Of several stereo declarations of one name the last counts. */
  lemma {:induction false} LastDeclCounts(body: seq<Statement>, i: nat)
    requires i < |body| && IsStereoDecl(body[i])
    requires forall j :: i < j < |body| && IsStereoDecl(body[j]) ==> body[j].decl.name != body[i].decl.name
    ensures body[i].decl.name in StereoDecls(body) && StereoDecls(body)[body[i].decl.name] == body[i].decl
    decreases |body|
  {
    if i < |body| - 1 {
      LastDeclCounts(body[..|body| - 1], i);
    }
  }

  // ── The conditions that reject a file, spelled out on its declarations and cables ──

  ghost predicate NamesClash(body: seq<Statement>) {
    exists a, b :: a in Decls(body) && a.isStereo && b in Decls(body)
                   && (b.name == a.name + "__l" || b.name == a.name + "__r")
  }

  lemma ClashSpelled(body: seq<Statement>)
    ensures Clash(body) <==> NamesClash(body)
  {
    hide StereoDecls, Decls;
    StereoDeclsNames(body);
    if Clash(body) {
      var name :| name in StereoDecls(body) && SuffixClash(name, ModuleNames(body));
      ClashNames(body, name);
    }
    if NamesClash(body) {
      var a, b :| a in Decls(body) && a.isStereo && b in Decls(body)
                  && (b.name == a.name + "__l" || b.name == a.name + "__r");
      assert b.name in ModuleNames(body) && SuffixClash(a.name, ModuleNames(body));
    }
  }

  lemma ClashNames(body: seq<Statement>, name: string)
    requires SuffixClash(name, ModuleNames(body)) && exists a :: a in Decls(body) && a.isStereo && a.name == name
    ensures NamesClash(body)
  {
    hide Decls;
    var a :| a in Decls(body) && a.isStereo && a.name == name;
    if SuffixName(name, L) in ModuleNames(body) {
      var b :| b in Decls(body) && b.name == SuffixName(name, L);
    } else {
      var b :| b in Decls(body) && b.name == SuffixName(name, R);
    }
  }

  lemma BusToSideSpelled(body: seq<Statement>)
    ensures AnyBusToSide(body) <==>
              exists c :: c in Cables(body) && Source(c).Port? && Target(c).Port?
                          && OnWhole(StereoDecls(body).Keys, Source(c).ref)
                          && (OnOneSide(StereoDecls(body).Keys, Target(c).ref, "l")
                              || OnOneSide(StereoDecls(body).Keys, Target(c).ref, "r"))
  {
    hide StereoDecls, Cables;
  }

  lemma MultiChannelSpelled(d: ModuleDecl)
    ensures MultiChannel(d) <==>
              d.callBlock.Some?
              && exists n: int :: n > 1 && Named("channels", ScalarShape(IntLit(n))) in d.callBlock.value
  {
    if MultiChannel(d) {
      var arg :| arg in d.callBlock.value && IsMultiChannelArg(arg);
      assert arg == Named("channels", ScalarShape(IntLit(arg.value.scalar.i)));
    }
    if d.callBlock.Some? && exists n: int :: n > 1 && Named("channels", ScalarShape(IntLit(n))) in d.callBlock.value {
      var n: int :| n > 1 && Named("channels", ScalarShape(IntLit(n))) in d.callBlock.value;
      assert IsMultiChannelArg(Named("channels", ScalarShape(IntLit(n))));
    }
  }

  method HasStereoInTemplates(file: File) returns (found: bool)
    ensures found <==> StereoInTemplates(file)
  {
    for t := 0 to |file.templates|
      invariant forall u, i :: 0 <= u < t && 0 <= i < |file.templates[u]| ==> !IsStereoDecl(file.templates[u][i])
    {
      for i := 0 to |file.templates[t]|
        invariant forall k :: 0 <= k < i ==> !IsStereoDecl(file.templates[t][k])
      {
        if IsStereoDecl(file.templates[t][i]) {
          return true;
        }
      }
    }
    return false;
  }

  method CollectDecls(body: seq<Statement>) returns (stereoDecls: map<string, ModuleDecl>, allNames: set<string>)
    ensures stereoDecls == StereoDecls(body) && allNames == ModuleNames(body)
  {
    stereoDecls, allNames := map[], {};
    for i := 0 to |body|
      invariant stereoDecls == StereoDecls(body[..i]) && allNames == ModuleNames(body[..i])
    {
      PartsSnoc(body, i);
      assert body[..i + 1][..i] == body[..i];
      if body[i].Module? {
        allNames := allNames + {body[i].decl.name};
        if body[i].decl.isStereo {
          stereoDecls := stereoDecls[body[i].decl.name := body[i].decl];
        }
      }
    }
    assert body[..|body|] == body;
  }

  method HasClash(stereoDecls: map<string, ModuleDecl>, allNames: set<string>) returns (found: bool)
    ensures found <==> exists name :: name in stereoDecls && SuffixClash(name, allNames)
  {
    var names := stereoDecls.Keys;
    while names != {}
      invariant names <= stereoDecls.Keys
      invariant forall name :: name in stereoDecls && name !in names ==> !SuffixClash(name, allNames)
      decreases names
    {
      var name :| name in names;
      if SuffixName(name, L) in allNames || SuffixName(name, R) in allNames {
        return true;
      }
      names := names - {name};
    }
    return false;
  }

  method HasMultiChannel(stereoDecls: map<string, ModuleDecl>) returns (found: bool)
    ensures found <==> exists name :: name in stereoDecls && MultiChannel(stereoDecls[name])
  {
    var names := stereoDecls.Keys;
    while names != {}
      invariant names <= stereoDecls.Keys
      invariant forall name :: name in stereoDecls && name !in names ==> !MultiChannel(stereoDecls[name])
      decreases names
    {
      var name :| name in names;
      var multi := CheckSingleChannel(stereoDecls[name]);
      if multi {
        return true;
      }
      names := names - {name};
    }
    return false;
  }

  /**
     Which files are rejected and why, in order of the checks; an accepted file with stereo modules becomes one with
     the same per-channel edges and no stereo sugar.
     */
  method DesugarStereo(file: File) returns (r: Result<File, Error>)
    requires UserBody(file.body)
    ensures StereoInTemplates(file) ==> r == Failure(StereoInTemplate)
    ensures !StereoInTemplates(file) && StereoDecls(file.body) == map[] ==> r == Success(file)
    ensures !StereoInTemplates(file) && StereoDecls(file.body) != map[] ==>
      && (Clash(file.body) ==> r == Failure(StereoIdentClash))
      && (!Clash(file.body) && AnyMultiChannel(file.body) ==> r == Failure(StereoMultiChannelType))
      && (!Clash(file.body) && !AnyMultiChannel(file.body) ==>
            && (r.Failure? <==> AnyBusToSide(file.body))
            && (r.Failure? ==> r.error == StereoBusToSide)
            && (r.Success? ==> r.value.templates == file.templates
                               && Desugared(StereoDecls(file.body).Keys, file.body, r.value.body)))
  {
    hide Desugared, BusToSide, StereoDecls, ModuleNames, SuffixClash, MultiChannel, StereoInTemplates;
    var inTemplate := HasStereoInTemplates(file);
    if inTemplate {
      return Failure(StereoInTemplate);
    }
    var stereoDecls, allNames := CollectDecls(file.body);
    if stereoDecls == map[] {
      return Success(file);
    }
    var clash := HasClash(stereoDecls, allNames);
    if clash {
      return Failure(StereoIdentClash);
    }
    var multi := HasMultiChannel(stereoDecls);
    if multi {
      return Failure(StereoMultiChannelType);
    }
    AcceptedNames(file.body);
    var ctx := new RewriteCtx(stereoDecls.Keys);
    var body := ctx.TransformBody(file.body);
    if body.Failure? {
      return Failure(body.error);
    }
    return Success(file.(body := body.value));
  }

  lemma AcceptedNames(body: seq<Statement>)
    requires UserBody(body) && !Clash(body)
    ensures SuffixesFree(StereoDecls(body).Keys) && UserNames(StereoDecls(body).Keys)
  {
    StereoDeclsNames(body);
    forall name, ch | name in StereoDecls(body).Keys ensures SuffixName(name, ch) !in StereoDecls(body).Keys {
      assert !SuffixClash(name, ModuleNames(body));
    }
  }

  // ── Consequences for an accepted file ──

  lemma SuffixInjective(a: string, b: string, c: Channel, d: Channel)
    requires SuffixName(a, c) == SuffixName(b, d)
    ensures a == b && c == d
  {
    var s, t := SuffixName(a, c), SuffixName(b, d);
    assert s[|s| - 1] == t[|t| - 1];
    assert c == d;
    assert s[..|s| - 3] == a && t[..|t| - 3] == b;
  }

  /** `name` is an old mono name, or a new instance name of an old stereo declaration. */
  ghost predicate ComesFrom(name: string, decls: seq<ModuleDecl>) {
    || (exists d :: d in decls && !d.isStereo && name == d.name)
    || (exists d, ch :: d in decls && d.isStereo && name == SuffixName(d.name, ch))
  }

  /** A further declaration's names do not meet the names that come from the declarations before it. */
  lemma SplitApart(rest: seq<ModuleDecl>, d: ModuleDecl, names: set<string>, name: string)
    requires forall e :: e in rest ==> e.name != d.name && e.name in names
    requires d.name in names && forall e :: (e in rest || e == d) && e.isStereo ==> !SuffixClash(e.name, names)
    requires ComesFrom(name, rest)
    ensures !ComesFrom(name, [d])
  {
    if ComesFrom(name, [d]) && d.isStereo {
      var ch :| name == SuffixName(d.name, ch);
      if exists e :: e in rest && !e.isStereo && name == e.name {
      } else {
        var e, ch' :| e in rest && e.isStereo && name == SuffixName(e.name, ch');
        SuffixInjective(e.name, d.name, ch', ch);
      }
    }
  }

  /** Splitting keeps declaration names distinct and leaves no stereo declaration. */
  lemma {:induction false} SplitDistinct(decls: seq<ModuleDecl>, names: set<string>)
    requires Distinct(decls) && forall d :: d in decls ==> d.name in names
    requires forall d :: d in decls && d.isStereo ==> !SuffixClash(d.name, names)
    ensures Distinct(SplitDecls(decls))
    ensures forall x :: x in SplitDecls(decls) ==> !x.isStereo && ComesFrom(x.name, decls)
  {
    hide SuffixName, SuffixClash, SideParams, SplitDecl;
    if |decls| > 0 {
      var rest, d := decls[..|decls| - 1], decls[|decls| - 1];
      assert decls == rest + [d];
      SplitDistinct(rest, names);
      var before, added := SplitDecls(rest), SplitDecl(d);
      assert SplitDecls(decls) == before + added;
      SplitOne(d);
      forall x, y | x in before && y in added ensures x.name != y.name {
        SplitApart(rest, d, names, x.name);
      }
      DistinctConcat(before, added);
    }
  }

  lemma SplitOne(d: ModuleDecl)
    ensures Distinct(SplitDecl(d)) && forall x :: x in SplitDecl(d) ==> !x.isStereo && ComesFrom(x.name, [d])
  {
    if d.isStereo && SuffixName(d.name, L) == SuffixName(d.name, R) { SuffixInjective(d.name, d.name, L, R); }
    assert d in [d];
  }

  lemma DistinctConcat(a: seq<ModuleDecl>, b: seq<ModuleDecl>)
    requires Distinct(a) && Distinct(b) && forall x, y :: x in a && y in b ==> x.name != y.name
    ensures Distinct(a + b)
  {
    var s := a + b;
    forall i, j | 0 <= i < j < |s| ensures s[i].name != s[j].name {
      if i < |a| <= j { assert s[i] in a && s[j] in b; }
    }
  }

  /** All generated names are fresh: distinct module names stay distinct, and no stereo declaration remains. */
  lemma NamesStayDistinct(body: seq<Statement>, out: seq<Statement>)
    requires UserBody(body) && Distinct(Decls(body)) && !Clash(body)
    requires Desugared(StereoDecls(body).Keys, body, out)
    ensures Distinct(Decls(out))
    ensures forall d :: d in Decls(out) ==> !d.isStereo
  {
    hide Collapse, DenoteErased, Cables, Others, SplitDecls, SuffixClash, OneNodeEach, Declared, OffStereo, IsSynthName,
         DeclsSplit;
    StereoDeclsNames(body);
    SplitDistinct(Decls(body), ModuleNames(body));
    var split := SplitDecls(Decls(body));
    var synth := Decls(out)[|split|..];
    assert Decls(out) == split + synth;
    forall x, y | x in split && y in synth ensures x.name != y.name {
      GeneratedApart(Decls(body), x.name);
    }
    DistinctConcat(split, synth);
  }

  lemma GeneratedApart(decls: seq<ModuleDecl>, name: string)
    requires (forall d :: d in decls ==> IsUserName(d.name)) && ComesFrom(name, decls)
    ensures !IsSynthName(name)
  {
    hide SuffixName, IsUserName;
    if d :| d in decls && !d.isStereo && name == d.name {
      UserNotSynth(d.name);
    } else {
      var d, ch :| d in decls && d.isStereo && name == SuffixName(d.name, ch);
      UserNotSynth(d.name);
    }
  }

  /**
     The desugared body has exactly the per-channel edges the stereo source denotes if and only if no cable loses a
     label or an index, that is, if every bus-form port and every source of a bus is plain.
     */
  lemma MeaningPreserved(body: seq<Statement>, out: seq<Statement>)
    requires Desugared(StereoDecls(body).Keys, body, out)
    ensures Collapse(out) == Denote(StereoDecls(body).Keys, Cables(body))
       <==> forall c :: c in Cables(body) ==> Unindexed(StereoDecls(body).Keys, c)
  {
    hide Collapse, Denote, DenoteErased, Cables, Unindexed;
    ErasedIsExact(StereoDecls(body).Keys, Cables(body));
  }

  /** A concrete index that is lost: `osc.out[1] -> wide.in` reads the splitter of `osc.out` instead. */
  lemma IndexIsLost()
    ensures var c := Connection(Port(PortRef("osc", Literal("out"), Some(LiteralIndex(1)))), Arrow(Forward, None),
                                Port(PortRef("wide", Literal("in"), None)));
            && !Unindexed({"wide"}, c)
            && ErasedCable({"wide"}, c)[0].signal == ChannelOf(Mono("osc", "out"), L)
            && DenoteCable({"wide"}, c)[0].signal == ChannelOf(PortRef("osc", Literal("out"), Some(LiteralIndex(1))), L)
  {}
}
