/** The include loader: a depth-first walk that merges every reachable file once, or reports why it cannot. */
module Loader {
  import opened Wrappers
  import opened Paths
  import opened Includes

  datatype ErrorKind =
    | Io(path: Path)
    | Parse(path: Path)
    | IncludeCycle(parent: Path, target: Path)
    | NameCollision(kind: string, name: string, existing: Path, new_: Path)

  /** `chain` lists the including files from the failing directive outwards: innermost first. */
  datatype LoadError = LoadError(kind: ErrorKind, chain: seq<Path>)

  datatype LoadResult = LoadResult(file: SourceFile, dependencies: seq<Path>)

  function KeyOf(e: ErrorKind): string
    requires e.NameCollision?
  {
    e.kind + ":" + e.name
  }

  // ── Invariants of the walk, on values ──

  ghost predicate WalkState(fs: Files, master: Path, visited: set<Path>, stack: seq<Path>, finished: seq<Path>,
                            allPaths: seq<Path>) {
    && |stack| > 0 && stack[0] == master
    && (forall p :: p in visited <==> p in stack || p in finished)
    && (forall p :: p in stack ==> p !in finished)
    && (forall p :: p in visited ==> IsParsed(fs, p) && Reachable(fs, master, p))
    && (forall i :: 0 <= i < |stack| - 1 ==> Edge(fs, stack[i], stack[i + 1]))
    && PostOrder(fs, finished)
    && |allPaths| > 0 && allPaths[0] == master
    && (forall i, j :: 0 <= i < j < |allPaths| ==> allPaths[i] != allPaths[j])
    && (forall p :: p in allPaths <==> p in visited)
  }

  /** The first `n` of `keys` belong to `p`. */
  ghost predicate KeysTo(keys: seq<string>, p: Path, n: nat, defined: map<string, Path>) {
    forall i :: 0 <= i < n && i < |keys| ==> keys[i] in defined && defined[keys[i]] == p
  }

  /** Every key of a visited file is registered to that file, and no key belongs to two definitions. */
  ghost predicate Registered(fs: Files, visited: set<Path>, defined: map<string, Path>) {
    && (forall p :: p in visited ==> KeysTo(KeysAt(fs, p), p, |KeysAt(fs, p)|, defined))
    && (forall key :: key in defined ==> defined[key] in visited && key in KeysAt(fs, defined[key]))
    && (forall p, q :: p in visited && q in visited ==> !KeyClash(fs, p, q))
  }

  // ── Name registration ──

  /** Registration of `keys` for `p` has reached key `n`: the keys before it are new and distinct. */
  ghost predicate Registering(keys: seq<string>, before: map<string, Path>, p: Path, n: nat, defined: map<string,
                              Path>) {
    && n <= |keys| && KeysTo(keys, p, n, defined)
    && (forall key :: key in before ==> key in defined && defined[key] == before[key])
    && (forall key :: key in defined ==> key in before || (defined[key] == p && key in keys[..n]))
    && (forall i :: 0 <= i < n ==> keys[i] !in before)
    && (forall i, j :: 0 <= i < j < n ==> keys[i] != keys[j])
  }

  method CheckCollision(kind: string, name: string, p: Path, defined: map<string, Path>)
    returns (r: Option<ErrorKind>, defined': map<string, Path>)
    ensures var key := kind + ":" + name;
            && (key in defined ==> r == Some(NameCollision(kind, name, defined[key], p)))
            && (key !in defined ==> r.None? && defined' == defined[key := p])
  {
    var key := kind + ":" + name;
    if key in defined {
      return Some(NameCollision(kind, name, defined[key], p)), defined;
    }
    return None, defined[key := p];
  }

  /** Registering key `n`, when it is free, reaches key `n + 1`. */
  lemma RegisterOne(keys: seq<string>, before: map<string, Path>, p: Path, n: nat, defined: map<string, Path>)
    requires Registering(keys, before, p, n, defined) && n < |keys| && keys[n] !in defined
    ensures Registering(keys, before, p, n + 1, defined[keys[n] := p])
  {
    assert keys[..n + 1] == keys[..n] + [keys[n]];
  }

  /** `key`, one of `keys`, is already held: by an earlier file, or by an earlier key of the same file. */
  ghost predicate Taken(keys: seq<string>, before: map<string, Path>, p: Path, owner: Path, key: string) {
    exists n :: 0 <= n < |keys| && keys[n] == key && (if keys[n] in before then before[keys[n]] == owner
                                    else owner == p && keys[n] in keys[..n])
  }

  lemma CollisionIsTaken(keys: seq<string>, before: map<string, Path>, p: Path, n: nat, defined: map<string, Path>)
    requires Registering(keys, before, p, n, defined) && n < |keys| && keys[n] in defined
    ensures Taken(keys, before, p, defined[keys[n]], keys[n])
  {}

  method RegisterKind(kind: string, defs: seq<Def>, p: Path, start: map<string, Path>,
                      ghost keys: seq<string>, ghost before: map<string, Path>, ghost n: nat)
    returns (r: Option<ErrorKind>, defined: map<string, Path>)
    requires Registering(keys, before, p, n, start)
    requires n + |defs| <= |keys| && keys[n..n + |defs|] == KeysOf(kind, defs)
    ensures r.Some? ==> r.value.NameCollision? && r.value.new_ == p
                        && Taken(keys, before, p, r.value.existing, KeyOf(r.value))
    ensures r.None? ==> Registering(keys, before, p, n + |defs|, defined)
  {
    hide Registering, Taken;
    defined := start;
    for i := 0 to |defs|
      invariant Registering(keys, before, p, n + i, defined)
    {
      ghost var was := defined;
      assert keys[n + i] == keys[n..n + |defs|][i] == kind + ":" + defs[i].name;
      r, defined := CheckCollision(kind, defs[i].name, p, defined);
      if r.Some? {
        CollisionIsTaken(keys, before, p, n + i, was);
        return r, defined;
      }
      RegisterOne(keys, before, p, n + i, was);
    }
    r := None;
  }

  method RegisterNames(p: Path, file: SourceFile, start: map<string, Path>)
    returns (r: Option<ErrorKind>, defined: map<string, Path>)
    ensures r.Some? ==> r.value.NameCollision? && r.value.new_ == p
                        && Taken(Keys(file), start, p, r.value.existing, KeyOf(r.value))
    ensures r.None? ==> Registering(Keys(file), start, p, |Keys(file)|, defined)
  {
    ghost var keys, t, q := Keys(file), |file.templates|, |file.patterns|;
    KeySections(file);
    RegisterNothing(keys, start, p);
    hide Registering, Taken, Keys;
    defined := start;
    r, defined := RegisterKind("template", file.templates, p, defined, keys, start, 0);
    if r.Some? { return r, defined; }
    r, defined := RegisterKind("pattern", file.patterns, p, defined, keys, start, t);
    if r.Some? { return r, defined; }
    r, defined := RegisterKind("song", file.songs, p, defined, keys, start, t + q);
  }

  lemma KeySections(file: SourceFile)
    ensures var t, q, s := |file.templates|, |file.patterns|, |file.songs|;
            && |Keys(file)| == t + q + s && Keys(file)[0..t] == KeysOf("template", file.templates)
            && Keys(file)[t..t + q] == KeysOf("pattern", file.patterns)
            && Keys(file)[t + q..t + q + s] == KeysOf("song", file.songs)
  {}

  lemma RegisterNothing(keys: seq<string>, before: map<string, Path>, p: Path)
    ensures Registering(keys, before, p, 0, before)
  {}

  lemma AllRegistered(fs: Files, visited: set<Path>, before: map<string, Path>, p: Path, defined: map<string, Path>)
    requires Registered(fs, visited, before) && p !in visited
    requires Registering(KeysAt(fs, p), before, p, |KeysAt(fs, p)|, defined)
    ensures Registered(fs, visited + {p}, defined)
  {
    hide KeysAt;
    var keys := KeysAt(fs, p);
    assert keys[..|keys|] == keys;
    forall q, q' | q in visited + {p} && q' in visited + {p} ensures !KeyClash(fs, q, q') {
      if q in visited && q' in visited {
      } else if q == p && q' == p {
      } else if q == p {
        ApartFrom(fs, visited, before, p, defined, q');
      } else {
        ApartFrom(fs, visited, before, p, defined, q);
      }
    }
  }

  lemma ApartFrom(fs: Files, visited: set<Path>, before: map<string, Path>, p: Path, defined: map<string, Path>,
                  q: Path)
    requires Registered(fs, visited, before) && q in visited
    requires Registering(KeysAt(fs, p), before, p, |KeysAt(fs, p)|, defined)
    ensures !KeyClash(fs, p, q) && !KeyClash(fs, q, p)
  {
    hide KeysAt;
    assert KeysTo(KeysAt(fs, q), q, |KeysAt(fs, q)|, before);
  }

  /** A taken key is a clash of two definitions. */
  lemma TakenIsClash(fs: Files, visited: set<Path>, before: map<string, Path>, p: Path, owner: Path, key: string)
    requires Registered(fs, visited, before) && p !in visited && Taken(KeysAt(fs, p), before, p, owner, key)
    ensures (owner in visited || owner == p) && KeyClash(fs, owner, p)
    ensures key in KeysAt(fs, owner) && key in KeysAt(fs, p)
  {
    hide KeysAt;
    var keys := KeysAt(fs, p);
    var n :| 0 <= n < |keys| && keys[n] == key && (if keys[n] in before then before[keys[n]] == owner
                                                   else owner == p && keys[n] in keys[..n]);
    if keys[n] in before {
      var i :| 0 <= i < |KeysAt(fs, owner)| && KeysAt(fs, owner)[i] == keys[n];
    } else {
      var i :| 0 <= i < n && keys[..n][i] == keys[n];
      assert keys[i] == keys[n] && i != n;
    }
  }

  // ── The walk ──

  /** A snapshot of the walk; `finished` lists the files left so far, in the order they were left. */
  datatype Walk = Walk(visited: set<Path>, stack: seq<Path>, finished: seq<Path>, allPaths: seq<Path>,
                       defined: map<string, Path>, templates: seq<Def>, patterns: seq<Def>, songs: seq<Def>)

  ghost predicate Ready(fs: Files, master: Path, w: Walk) {
    && WalkState(fs, master, w.visited, w.stack, w.finished, w.allPaths)
    && Registered(fs, w.visited, w.defined)
    && IsParsed(fs, master)
    && w.templates == fs[master].file.templates + Gather(fs, w.finished, Template)
    && w.patterns == fs[master].file.patterns + Gather(fs, w.finished, Pattern)
    && w.songs == fs[master].file.songs + Gather(fs, w.finished, Song)
  }

  class ResolveContext {
    const frontier: IncludeFrontier
    var allPaths: seq<Path>
    var definedNames: map<string, Path>
    var templates: seq<Def>
    var patterns: seq<Def>
    var songs: seq<Def>
    ghost var finished: seq<Path>

    ghost function State(): Walk
      reads this, frontier
    {
      Walk(frontier.visited, frontier.stack, finished, allPaths, definedNames, templates, patterns, songs)
    }

    ghost predicate Valid(fs: Files, master: Path)
      reads this, frontier
    {
      frontier.Valid() && Ready(fs, master, State())
    }

    constructor (master: Path, file: SourceFile, names: map<string, Path>)
      ensures frontier.Valid() && fresh(frontier)
      ensures State() == Walk({master}, [master], [], [master], names, file.templates, file.patterns, file.songs)
    {
      frontier := new IncludeFrontier.WithRoot(master);
      allPaths := [master];
      definedNames := names;
      templates, patterns, songs := file.templates, file.patterns, file.songs;
      finished := [];
    }
  }

  /** The error names a real defect of the files reachable from the master. */
  ghost predicate Justified(fs: Files, master: Path, e: ErrorKind) {
    match e
    case Io(p) => Reachable(fs, master, p) && p !in fs
    case Parse(p) => Reachable(fs, master, p) && p in fs && fs[p].Malformed?
    case IncludeCycle(p, q) => Reachable(fs, master, p) && Edge(fs, p, q) && Reachable(fs, q, p) && HasCycle(fs, master)
    case NameCollision(_, _, p, q) =>
      Reachable(fs, master, p) && Reachable(fs, master, q) && KeyClash(fs, p, q)
      && KeyOf(e) in KeysAt(fs, p) && KeyOf(e) in KeysAt(fs, q)
  }

  /** The file a failing directive was about. */
  function Failing(e: ErrorKind): Path {
    match e
    case Io(p) => p
    case Parse(p) => p
    case IncludeCycle(_, q) => q
    case NameCollision(_, _, _, q) => q
  }

  /** The chain runs from the file with the failing directive out to `outer`, each file included by the next. */
  ghost predicate IsChain(fs: Files, outer: Path, e: LoadError) {
    && |e.chain| > 0 && e.chain[|e.chain| - 1] == outer
    && (forall i :: 0 <= i < |e.chain| - 1 ==> Edge(fs, e.chain[i + 1], e.chain[i]))
    && Edge(fs, e.chain[0], Failing(e.kind))
  }

  lemma ChainStarts(fs: Files, parent: Path, kind: ErrorKind)
    requires Edge(fs, parent, Failing(kind))
    ensures IsChain(fs, parent, LoadError(kind, [parent]))
  {}

  lemma ChainGrows(fs: Files, parent: Path, child: Path, e: LoadError)
    requires IsChain(fs, child, e) && Edge(fs, parent, child)
    ensures IsChain(fs, parent, LoadError(e.kind, e.chain + [parent]))
  {
    hide Edge;
  }

  /** An include of a file on the stack closes a cycle. */
  lemma StackCycle(fs: Files, master: Path, w: Walk, target: Path)
    requires Ready(fs, master, w) && target in w.stack && Edge(fs, w.stack[|w.stack| - 1], target)
    ensures Justified(fs, master, IncludeCycle(w.stack[|w.stack| - 1], target))
  {
    hide Edge, IsParsed, PostOrder, Reachable, Registered, Gather;
    var i :| 0 <= i < |w.stack| && w.stack[i] == target;
    var top := w.stack[|w.stack| - 1];
    assert target in w.visited && top in w.visited;
    BackEdge(fs, master, w.stack[i..], target);
  }

  lemma BackEdge(fs: Files, master: Path, w: seq<Path>, target: Path)
    requires |w| > 0 && w[0] == target && (forall i :: 0 <= i < |w| - 1 ==> Edge(fs, w[i], w[i + 1]))
    requires Edge(fs, w[|w| - 1], target) && Reachable(fs, master, target)
    ensures Reachable(fs, target, w[|w| - 1]) && HasCycle(fs, master)
  {
    hide Edge;
    assert IsWalk(fs, w);
    var loop := w + [target];
    assert IsWalk(fs, loop) && loop[0] == loop[|loop| - 1];
  }

  /** A parsed, registered child goes on the stack and on the list of paths. */
  lemma EnterChild(fs: Files, master: Path, w: Walk, child: Path, names: map<string, Path>)
    requires Ready(fs, master, w) && child !in w.visited && IsParsed(fs, child)
    requires Edge(fs, w.stack[|w.stack| - 1], child)
    requires Registering(KeysAt(fs, child), w.defined, child, |KeysAt(fs, child)|, names)
    ensures Ready(fs, master, w.(visited := w.visited + {child}, stack := w.stack + [child],
                                 allPaths := w.allPaths + [child], defined := names))
  {
    hide Edge, PostOrder, IsParsed, Gather, Registering, Registered, Reachable;
    assert w.stack[|w.stack| - 1] in w.visited;
    ReachStep(fs, master, w.stack[|w.stack| - 1], child);
    AllRegistered(fs, w.visited, w.defined, child, names);
  }

  /** A child whose includes are all finished leaves the stack and is finished itself. */
  lemma LeaveChild(fs: Files, master: Path, w: Walk, child: Path)
    requires Ready(fs, master, w) && |w.stack| > 1 && w.stack[|w.stack| - 1] == child && IsParsed(fs, child)
    requires forall i, j :: 0 <= i < j < |w.stack| ==> w.stack[i] != w.stack[j]
    requires forall q :: Edge(fs, child, q) ==> q in w.finished
    ensures Ready(fs, master, w.(stack := w.stack[..|w.stack| - 1], finished := w.finished + [child],
                                 templates := w.templates + fs[child].file.templates,
                                 patterns := w.patterns + fs[child].file.patterns,
                                 songs := w.songs + fs[child].file.songs))
  {
    hide Edge, IsParsed, Reachable, PostOrder, Registered, Gather;
    var n := |w.stack| - 1;
    var finished := w.finished + [child];
    assert child in w.stack && child !in w.finished;
    forall p | p in w.stack[..n] ensures p !in finished {
      var i :| 0 <= i < n && w.stack[i] == p;
    }
    forall p ensures p in w.visited <==> p in w.stack[..n] || p in finished {
      assert p in w.stack <==> p in w.stack[..n] || p == child;
    }
    FinishOne(fs, w.finished, child);
    GatherSnoc(fs, w.finished, child);
  }

  lemma FinishOne(fs: Files, finished: seq<Path>, p: Path)
    requires PostOrder(fs, finished) && p !in finished
    requires forall q :: Edge(fs, p, q) ==> q in finished
    ensures PostOrder(fs, finished + [p])
  {
    hide Edge;
    var finished' := finished + [p];
    forall i, q | 0 <= i < |finished'| && Edge(fs, finished'[i], q) ensures q in finished'[..i] {
      if i < |finished| {
        assert q in finished[..i] && finished'[..i] == finished[..i];
      } else {
        assert finished'[..i] == finished;
      }
    }
  }

  lemma GatherSnoc(fs: Files, files: seq<Path>, p: Path)
    requires IsParsed(fs, p)
    ensures Gather(fs, files + [p], Template) == Gather(fs, files, Template) + fs[p].file.templates
    ensures Gather(fs, files + [p], Pattern) == Gather(fs, files, Pattern) + fs[p].file.patterns
    ensures Gather(fs, files + [p], Song) == Gather(fs, files, Song) + fs[p].file.songs
  {
    hide IsParsed;
    assert (files + [p])[..|files|] == files;
  }

  lemma VisitedIsFinished(fs: Files, master: Path, w: Walk, p: Path)
    requires Ready(fs, master, w) && p in w.visited && p !in w.stack
    ensures p in w.finished
  {}

  lemma ChildReachable(fs: Files, master: Path, w: Walk, child: Path)
    requires Ready(fs, master, w) && Edge(fs, w.stack[|w.stack| - 1], child)
    ensures Reachable(fs, master, child)
  {
    hide Edge, Reachable, Registered, PostOrder, Gather;
    assert w.stack[|w.stack| - 1] in w.visited;
    ReachStep(fs, master, w.stack[|w.stack| - 1], child);
  }

  lemma JustifiedRead(fs: Files, master: Path, p: Path)
    requires Reachable(fs, master, p)
    ensures p !in fs ==> Justified(fs, master, Io(p))
    ensures p in fs && fs[p].Malformed? ==> Justified(fs, master, Parse(p))
  {
    hide Reachable;
  }

  lemma JustifiedCollision(fs: Files, master: Path, visited: set<Path>, defined: map<string, Path>, p: Path,
                           e: ErrorKind)
    requires Registered(fs, visited, defined) && p !in visited && Reachable(fs, master, p)
    requires forall q :: q in visited ==> Reachable(fs, master, q)
    requires e.NameCollision? && e.new_ == p && Taken(KeysAt(fs, p), defined, p, e.existing, KeyOf(e))
    ensures Justified(fs, master, e)
  {
    hide Reachable, KeyClash, Registered, Taken, KeysAt;
    TakenIsClash(fs, visited, defined, p, e.existing, KeyOf(e));
  }

  lemma VisitedReachable(fs: Files, master: Path, w: Walk)
    requires Ready(fs, master, w)
    ensures forall q :: q in w.visited ==> Reachable(fs, master, q)
    ensures w.visited <= fs.Keys && |w.stack| > 0 && Registered(fs, w.visited, w.defined)
  {
    hide Reachable, Registered, PostOrder, Gather;
  }

  /** Resolves the includes of `parent`, the file on top of the stack. */
  method ResolveIncludes(parent: Path, includes: seq<Path>, fs: Files, ctx: ResolveContext, ghost master: Path)
    returns (r: Option<LoadError>)
    requires ctx.Valid(fs, master) && IsParsed(fs, parent) && includes == fs[parent].file.includes
    requires |ctx.frontier.stack| > 0 && ctx.frontier.stack[|ctx.frontier.stack| - 1] == parent
    modifies ctx, ctx.frontier
    ensures r.Some? ==> Justified(fs, master, r.value.kind) && IsChain(fs, parent, r.value)
    ensures r.None? ==> ctx.Valid(fs, master) && ctx.frontier.stack == old(ctx.frontier.stack)
    ensures r.None? ==> old(ctx.finished) <= ctx.finished && forall q :: Edge(fs, parent, q) ==> q in ctx.finished
    ensures old(ctx.frontier.visited) <= ctx.frontier.visited
    decreases fs.Keys - ctx.frontier.visited, 1
  {
    hide Ready, WalkState, Registered, Registering, Taken, Justified, IsChain, Reachable, HasCycle, KeyClash, PostOrder,
         Gather, Keys, Edge, Resolve;
    for i := 0 to |includes|
      invariant ctx.Valid(fs, master) && ctx.frontier.stack == old(ctx.frontier.stack)
      invariant old(ctx.frontier.visited) <= ctx.frontier.visited && old(ctx.finished) <= ctx.finished
      invariant forall k :: 0 <= k < i ==> Resolve(parent, includes[k]) in ctx.finished
    {
      var resolved := Resolve(parent, includes[i]);
      EdgeOf(fs, parent, i);
      ghost var w := ctx.State();
      var entered := ctx.frontier.Enter(resolved);
      if entered.Cycle? {
        StackCycle(fs, master, w, resolved);
        ChainStarts(fs, parent, IncludeCycle(parent, resolved));
        return Some(LoadError(IncludeCycle(parent, resolved), [parent]));
      }
      if entered.AlreadyVisited? {
        VisitedIsFinished(fs, master, w, resolved);
        continue;
      }
      r := ResolveFresh(parent, resolved, fs, ctx, master, w);
      if r.Some? {
        return r;
      }
    }
    r := None;
    EdgesOf(fs, parent, ctx.finished);
  }

  /** One file seen for the first time, already pushed: read it, register its names, walk its includes, merge it. */
  method ResolveFresh(parent: Path, resolved: Path, fs: Files, ctx: ResolveContext, ghost master: Path, ghost w: Walk)
    returns (r: Option<LoadError>)
    requires Ready(fs, master, w) && |w.stack| > 0 && w.stack[|w.stack| - 1] == parent && Edge(fs, parent, resolved)
    requires ctx.frontier.Valid() && resolved !in w.visited
    requires ctx.State() == w.(visited := w.visited + {resolved}, stack := w.stack + [resolved])
    modifies ctx, ctx.frontier
    ensures r.Some? ==> Justified(fs, master, r.value.kind) && IsChain(fs, parent, r.value)
    ensures r.None? ==> ctx.Valid(fs, master) && ctx.frontier.stack == w.stack
    ensures r.None? ==> w.finished <= ctx.finished && resolved in ctx.finished
    ensures w.visited <= ctx.frontier.visited
    decreases fs.Keys - w.visited, 0
  {
    hide Ready, WalkState, Registered, Registering, Taken, Justified, IsChain, Reachable, HasCycle, KeyClash, PostOrder,
         Gather, Keys, Edge;
    ChildReachable(fs, master, w, resolved);
    VisitedReachable(fs, master, w);
    if resolved !in fs {
      JustifiedRead(fs, master, resolved);
      ChainStarts(fs, parent, Io(resolved));
      return Some(LoadError(Io(resolved), [parent]));
    }
    if fs[resolved].Malformed? {
      JustifiedRead(fs, master, resolved);
      ChainStarts(fs, parent, Parse(resolved));
      return Some(LoadError(Parse(resolved), [parent]));
    }
    var file := fs[resolved].file;
    ctx.allPaths := ctx.allPaths + [resolved];
    var collision, names := RegisterNames(resolved, file, ctx.definedNames);
    ctx.definedNames := names;
    if collision.Some? {
      JustifiedCollision(fs, master, w.visited, w.defined, resolved, collision.value);
      ChainStarts(fs, parent, collision.value);
      return Some(LoadError(collision.value, [parent]));
    }
    EnterChild(fs, master, w, resolved, names);
    var nested := ResolveIncludes(resolved, file.includes, fs, ctx, master);
    if nested.Some? {
      ChainGrows(fs, parent, resolved, nested.value);
      return Some(LoadError(nested.value.kind, nested.value.chain + [parent]));
    }
    LeaveChild(fs, master, ctx.State(), resolved);
    ctx.frontier.Leave(resolved);
    ctx.templates := ctx.templates + file.templates;
    ctx.patterns := ctx.patterns + file.patterns;
    ctx.songs := ctx.songs + file.songs;
    ctx.finished := ctx.finished + [resolved];
    r := None;
  }

  lemma EdgeOf(fs: Files, parent: Path, i: nat)
    requires IsParsed(fs, parent) && i < |fs[parent].file.includes|
    ensures Edge(fs, parent, Resolve(parent, fs[parent].file.includes[i]))
  {
    hide Resolve;
  }

  lemma EdgesOf(fs: Files, parent: Path, finished: seq<Path>)
    requires IsParsed(fs, parent)
    requires forall k :: 0 <= k < |fs[parent].file.includes| ==>
               Resolve(parent, fs[parent].file.includes[k]) in finished
    ensures forall q :: Edge(fs, parent, q) ==> q in finished
  {
    hide Resolve;
  }

  // ── The whole load ──

  /** Nothing but a cycle can go wrong: every reachable file is there, parses, and no two names collide. */
  ghost predicate Clean(fs: Files, master: Path) {
    && (forall p :: Reachable(fs, master, p) ==> IsParsed(fs, p))
    && (forall p, q :: Reachable(fs, master, p) && Reachable(fs, master, q) ==> !KeyClash(fs, p, q))
  }

  /**
     What a successful load returns: the dependencies are exactly the reachable paths, each once, the master first;
     and the definitions are the master's followed by those of every other reachable file, in an order `order` where
     each file comes once and after every file it includes.
     */
  ghost predicate IsLoadOf(fs: Files, master: Path, r: LoadResult, order: seq<Path>) {
    && IsParsed(fs, master)
    && |r.dependencies| > 0 && r.dependencies[0] == master
    && (forall i, j :: 0 <= i < j < |r.dependencies| ==> r.dependencies[i] != r.dependencies[j])
    && (forall p :: p in r.dependencies <==> Reachable(fs, master, p))
    && PostOrder(fs, order + [master])
    && (forall p :: p in order + [master] <==> Reachable(fs, master, p))
    && r.file == SourceFile([], fs[master].file.templates + Gather(fs, order, Template),
                            fs[master].file.patterns + Gather(fs, order, Pattern),
                            fs[master].file.songs + Gather(fs, order, Song))
  }

  /**
     A load succeeds only on a clean, acyclic include graph, and every failure names a real defect. So on clean files
     it fails exactly when the reachable graph has a cycle, and then with a cycle error.
     */
  method LoadWith(masterPath: Path, fs: Files) returns (r: Result<LoadResult, LoadError>, ghost order: seq<Path>)
    ensures r.Failure? ==> Justified(fs, Normalize(masterPath), r.error.kind)
    ensures r.Failure? ==> if r.error.chain == [] then Failing(r.error.kind) == Normalize(masterPath)
                           else IsChain(fs, Normalize(masterPath), r.error)
    ensures r.Success? ==> Clean(fs, Normalize(masterPath)) && !HasCycle(fs, Normalize(masterPath))
    ensures r.Success? ==> IsLoadOf(fs, Normalize(masterPath), r.value, order)
    ensures Clean(fs, Normalize(masterPath)) ==>
              (r.Failure? <==> HasCycle(fs, Normalize(masterPath))) && (r.Failure? ==> r.error.kind.IncludeCycle?)
  {
    hide Ready, WalkState, Registered, Registering, Taken, Justified, Reachable, HasCycle, KeyClash, PostOrder,
         Gather, Keys, Edge, Clean, IsLoadOf, Normalize;
    order := [];
    var master := NormalizePath(masterPath);
    ReachSelf(fs, master);
    if master !in fs {
      JustifiedRead(fs, master, master);
      CleanFailure(fs, master, Io(master));
      return Failure(LoadError(Io(master), [])), [];
    }
    if fs[master].Malformed? {
      JustifiedRead(fs, master, master);
      CleanFailure(fs, master, Parse(master));
      return Failure(LoadError(Parse(master), [])), [];
    }
    var file := fs[master].file;
    NothingRegistered(fs);
    var collision, names := RegisterNames(master, file, map[]);
    if collision.Some? {
      JustifiedCollision(fs, master, {}, map[], master, collision.value);
      CleanFailure(fs, master, collision.value);
      return Failure(LoadError(collision.value, [])), [];
    }
    var ctx := new ResolveContext(master, file, names);
    StartWalk(fs, master, names);
    var failed := ResolveIncludes(master, file.includes, fs, ctx, master);
    if failed.Some? {
      CleanFailure(fs, master, failed.value.kind);
      return Failure(failed.value), [];
    }
    order := ctx.finished;
    r := Success(LoadResult(SourceFile([], ctx.templates, ctx.patterns, ctx.songs), ctx.allPaths));
    WalkDone(fs, master, ctx.State(), r.value);
  }

  lemma NothingRegistered(fs: Files)
    ensures Registered(fs, {}, map[])
  {}

  lemma StartWalk(fs: Files, master: Path, names: map<string, Path>)
    requires IsParsed(fs, master)
    requires Registering(KeysAt(fs, master), map[], master, |KeysAt(fs, master)|, names)
    ensures Ready(fs, master, Walk({master}, [master], [], [master], names, fs[master].file.templates,
                                   fs[master].file.patterns, fs[master].file.songs))
  {
    hide KeysAt, Registering, Registered, Edge, IsParsed;
    NothingRegistered(fs);
    AllRegistered(fs, {}, map[], master, names);
    assert {} + {master} == {master};
    ReachSelf(fs, master);
    hide Reachable;
  }

  lemma CleanFailure(fs: Files, master: Path, e: ErrorKind)
    requires Justified(fs, master, e)
    ensures Clean(fs, master) ==> e.IncludeCycle? && HasCycle(fs, master)
  {
    hide HasCycle, Reachable, KeyClash, Edge;
  }

  lemma WalkDone(fs: Files, master: Path, w: Walk, r: LoadResult)
    requires Ready(fs, master, w) && w.stack == [master]
    requires forall q :: Edge(fs, master, q) ==> q in w.finished
    requires r == LoadResult(SourceFile([], w.templates, w.patterns, w.songs), w.allPaths)
    ensures Clean(fs, master) && !HasCycle(fs, master) && IsLoadOf(fs, master, r, w.finished)
  {
    hide Edge, KeyClash, HasCycle, Gather, KeysTo, Reachable, PostOrder, IsParsed;
    var order := w.finished + [master];
    assert master in [master] && master !in w.finished;
    FinishOne(fs, w.finished, master);
    assert order[|w.finished|] == master;
    PostOrderAcyclic(fs, order, master);
    forall p ensures p in order <==> p in w.visited {
      assert p in order <==> p in w.finished || p in [master];
    }
  }
}
