/**
 The include graph of a finite file map, and the frontier that an include walk keeps.
 */
module Includes {
  import opened Paths

  datatype Def = Def(name: string, id: nat)

  datatype SourceFile = SourceFile(includes: seq<Path>, templates: seq<Def>, patterns: seq<Def>, songs: seq<Def>)

  /** What reading and parsing a file gives; a path outside the map cannot be read. */
  datatype Entry = Parsed(file: SourceFile) | Malformed

  type Files = map<Path, Entry>

  function Resolve(parent: Path, inc: Path): Path {
    Normalize(Join(Directory(parent), inc))
  }

  /**
     Where an include is looked for: an absolute path is itself; any other is taken from the directory of the including
     file, or from the working directory if that file is a bare name.
     */
  lemma ResolveSpelled(dir: Path, f: string, inc: Path)
    ensures inc != [] && inc[0] == RootDir ==> Resolve(dir + [Normal(f)], inc) == Normalize(inc)
    ensures inc == [] || inc[0] != RootDir ==> Resolve(dir + [Normal(f)], inc) == Normalize(dir + inc)
    ensures inc == [] || inc[0] != RootDir ==> Resolve([Normal(f)], inc) == Normalize([CurDir] + inc)
  {
    hide Normalize;
    assert (dir + [Normal(f)])[..|dir|] == dir && [Normal(f)][..0] == [];
    NormalizeComponents([], f, inc);
    assert [] + inc == inc && [] + [CurDir] + inc == [CurDir] + inc;
  }

  /** A leading `..` leaves the directory of the including file. */
  lemma ResolveUp(dir: Path, sub: string, f: string, inc: Path)
    ensures Resolve(dir + [Normal(sub), Normal(f)], [ParentDir] + inc) == Normalize(dir + inc)
  {
    hide Normalize, Resolve;
    var deep := dir + [Normal(sub)];
    ResolveSpelled(deep, f, [ParentDir] + inc);
    NormalizeComponents(dir, sub, inc);
    assert dir + [Normal(sub), Normal(f)] == deep + [Normal(f)];
    assert deep + ([ParentDir] + inc) == dir + [Normal(sub), ParentDir] + inc;
  }

  predicate IsParsed(fs: Files, p: Path) {
    p in fs && fs[p].Parsed?
  }

  /** `p` includes `q`. */
  predicate Edge(fs: Files, p: Path, q: Path) {
    IsParsed(fs, p) && exists inc :: inc in fs[p].file.includes && Resolve(p, inc) == q
  }

  /** A walk along include directives. */
  predicate IsWalk(fs: Files, w: seq<Path>) {
    |w| > 0 && forall i :: 0 <= i < |w| - 1 ==> Edge(fs, w[i], w[i + 1])
  }

  ghost predicate Reachable(fs: Files, p: Path, q: Path) {
    exists w :: IsWalk(fs, w) && w[0] == p && w[|w| - 1] == q
  }

  /** The graph reachable from `p` contains a cycle. */
  ghost predicate HasCycle(fs: Files, p: Path) {
    exists w :: IsWalk(fs, w) && |w| >= 2 && w[0] == w[|w| - 1] && Reachable(fs, p, w[0])
  }

  lemma ReachSelf(fs: Files, p: Path)
    ensures Reachable(fs, p, p)
  {
    assert IsWalk(fs, [p]);
  }

  lemma ReachStep(fs: Files, p: Path, q: Path, r: Path)
    requires Reachable(fs, p, q) && Edge(fs, q, r)
    ensures Reachable(fs, p, r)
  {
    var w :| IsWalk(fs, w) && w[0] == p && w[|w| - 1] == q;
    var w' := w + [r];
    assert IsWalk(fs, w') && w'[0] == p && w'[|w'| - 1] == r;
  }

  /** The keys a file's names are registered under: kind, colon, name. */
  function Keys(file: SourceFile): seq<string> {
    KeysOf("template", file.templates) + KeysOf("pattern", file.patterns) + KeysOf("song", file.songs)
  }

  function KeysOf(kind: string, defs: seq<Def>): (keys: seq<string>)
    ensures |keys| == |defs| && forall i :: 0 <= i < |defs| ==> keys[i] == kind + ":" + defs[i].name
  {
    seq(|defs|, i requires 0 <= i < |defs| => kind + ":" + defs[i].name)
  }

  /** The keys of the file at `p`; none when it does not parse. */
  function KeysAt(fs: Files, p: Path): seq<string> {
    if IsParsed(fs, p) then Keys(fs[p].file) else []
  }

  /** Two different definitions, in files `p` and `q`, share a key. */
  ghost predicate KeyClash(fs: Files, p: Path, q: Path) {
    exists i, j :: 0 <= i < |KeysAt(fs, p)| && 0 <= j < |KeysAt(fs, q)| && (p != q || i != j)
                   && KeysAt(fs, p)[i] == KeysAt(fs, q)[j]
  }

  datatype Kind = Template | Pattern | Song

  function DefsOf(file: SourceFile, kind: Kind): seq<Def> {
    match kind
    case Template => file.templates
    case Pattern => file.patterns
    case Song => file.songs
  }

  // ── What a clash of keys is ──

  function KindText(kind: Kind): string {
    match kind
    case Template => "template"
    case Pattern => "pattern"
    case Song => "song"
  }

  function KeyFor(kind: Kind, name: string): string {
    KindText(kind) + ":" + name
  }

  lemma KeyInjective(kind: Kind, name: string, kind': Kind, name': string)
    requires KeyFor(kind, name) == KeyFor(kind', name')
    ensures kind == kind' && name == name'
  {
    var k, k' := KeyFor(kind, name), KeyFor(kind', name');
    assert k[0] == KindText(kind)[0] && k'[0] == KindText(kind')[0];
    assert kind == kind';
    assert k[|KindText(kind)| + 1..] == name && k'[|KindText(kind)| + 1..] == name';
  }

  /** Where the keys of a kind begin. */
  function Offset(file: SourceFile, kind: Kind): nat {
    match kind
    case Template => 0
    case Pattern => |file.templates|
    case Song => |file.templates| + |file.patterns|
  }

  lemma KeyOfDef(file: SourceFile, kind: Kind, i: nat)
    requires i < |DefsOf(file, kind)|
    ensures Offset(file, kind) + i < |Keys(file)|
    ensures Keys(file)[Offset(file, kind) + i] == KeyFor(kind, DefsOf(file, kind)[i].name)
  {}

  lemma DefOfKey(file: SourceFile, n: nat) returns (kind: Kind, i: nat)
    requires n < |Keys(file)|
    ensures i < |DefsOf(file, kind)| && n == Offset(file, kind) + i
  {
    var t, q := |file.templates|, |file.patterns|;
    if n < t {
      kind, i := Template, n;
    } else if n < t + q {
      kind, i := Pattern, n - t;
    } else {
      kind, i := Song, n - t - q;
    }
  }

  /** Two different definitions, of one kind and with one name. */
  ghost predicate SameName(file: SourceFile, other: SourceFile, same: bool) {
    exists kind, i, j ::
      && 0 <= i < |DefsOf(file, kind)| && 0 <= j < |DefsOf(other, kind)| && (same ==> i != j)
      && DefsOf(file, kind)[i].name == DefsOf(other, kind)[j].name
  }

  lemma KeyIsName(file: SourceFile, other: SourceFile, same: bool, m: nat, n: nat)
    requires m < |Keys(file)| && n < |Keys(other)| && Keys(file)[m] == Keys(other)[n]
    requires same ==> file == other && m != n
    ensures SameName(file, other, same)
  {
    hide Keys, KeyFor, Offset;
    var kind, i := DefOfKey(file, m);
    var kind', j := DefOfKey(other, n);
    KeyOfDef(file, kind, i);
    KeyOfDef(other, kind', j);
    KeyInjective(kind, DefsOf(file, kind)[i].name, kind', DefsOf(other, kind')[j].name);
    assert same ==> i != j;
  }

  lemma NameIsKey(file: SourceFile, other: SourceFile, same: bool) returns (m: nat, n: nat)
    requires SameName(file, other, same) && (same ==> file == other)
    ensures m < |Keys(file)| && n < |Keys(other)| && Keys(file)[m] == Keys(other)[n] && (same ==> m != n)
  {
    hide Keys, KeyFor, Offset;
    var kind, i, j :| 0 <= i < |DefsOf(file, kind)| && 0 <= j < |DefsOf(other, kind)| && (same ==> i != j)
                      && DefsOf(file, kind)[i].name == DefsOf(other, kind)[j].name;
    KeyOfDef(file, kind, i);
    KeyOfDef(other, kind, j);
    m, n := Offset(file, kind) + i, Offset(other, kind) + j;
  }

  /** A key clash is two different definitions of one kind with one name; other kinds do not matter. */
  lemma ClashIsSameName(fs: Files, p: Path, q: Path)
    ensures KeyClash(fs, p, q) <==>
              IsParsed(fs, p) && IsParsed(fs, q) && SameName(fs[p].file, fs[q].file, p == q)
  {
    hide Keys, SameName;
    if KeyClash(fs, p, q) {
      var m, n :| 0 <= m < |KeysAt(fs, p)| && 0 <= n < |KeysAt(fs, q)| && (p != q || m != n)
                  && KeysAt(fs, p)[m] == KeysAt(fs, q)[n];
      KeyIsName(fs[p].file, fs[q].file, p == q, m, n);
    }
    if IsParsed(fs, p) && IsParsed(fs, q) && SameName(fs[p].file, fs[q].file, p == q) {
      var m, n := NameIsKey(fs[p].file, fs[q].file, p == q);
      assert KeysAt(fs, p)[m] == KeysAt(fs, q)[n];
    }
  }

  /** The definitions of a list of files, concatenated in list order. */
  function Gather(fs: Files, files: seq<Path>, kind: Kind): seq<Def> {
    if |files| == 0 then []
    else
      var p := files[|files| - 1];
      Gather(fs, files[..|files| - 1], kind) + (if IsParsed(fs, p) then DefsOf(fs[p].file, kind) else [])
  }

  /** Each file appears once, and after every file it includes. */
  ghost predicate PostOrder(fs: Files, files: seq<Path>) {
    && (forall i, j :: 0 <= i < j < |files| ==> files[i] != files[j])
    && (forall i, q :: 0 <= i < |files| && Edge(fs, files[i], q) ==> q in files[..i])
  }

  /** Along any walk from a file of a post-order list, positions go down; so no walk returns to its start. */
  lemma {:induction false} WalkDescends(fs: Files, files: seq<Path>, w: seq<Path>, k: nat)
    requires PostOrder(fs, files) && IsWalk(fs, w) && k < |w| && w[0] in files
    ensures exists i, j :: 0 <= j <= i < |files| && files[i] == w[0] && files[j] == w[k] && (k > 0 ==> j < i)
    decreases k
  {
    if k == 0 {
      var i :| 0 <= i < |files| && files[i] == w[0];
      assert 0 <= i <= i;
    } else {
      WalkDescends(fs, files, w, k - 1);
      var i, j :| 0 <= j <= i < |files| && files[i] == w[0] && files[j] == w[k - 1] && (k - 1 > 0 ==> j < i);
      assert Edge(fs, w[k - 1], w[k]);
      assert w[k] in files[..j];
      var j' :| 0 <= j' < j && files[..j][j'] == w[k];
      assert files[j'] == w[k] && j' < i;
    }
  }

  lemma PostOrderAcyclic(fs: Files, files: seq<Path>, p: Path)
    requires PostOrder(fs, files) && p in files
    ensures !HasCycle(fs, p)
    ensures forall q :: Reachable(fs, p, q) ==> q in files
  {
    forall q | Reachable(fs, p, q) ensures q in files {
      var w :| IsWalk(fs, w) && w[0] == p && w[|w| - 1] == q;
      WalkDescends(fs, files, w, |w| - 1);
    }
    if HasCycle(fs, p) {
      var w :| IsWalk(fs, w) && |w| >= 2 && w[0] == w[|w| - 1] && Reachable(fs, p, w[0]);
      assert w[0] in files;
      WalkDescends(fs, files, w, |w| - 1);
      assert false;
    }
  }

  // ── The walk frontier ──

  datatype EnterResult = Fresh | AlreadyVisited | Cycle

  class IncludeFrontier {
    var visited: set<Path>
    var stack: seq<Path>
    var onStack: set<Path>

    ghost predicate Valid()
      reads this
    {
      && (forall p :: p in onStack <==> p in stack)
      && onStack <= visited
      && (forall i, j :: 0 <= i < j < |stack| ==> stack[i] != stack[j])
    }

    constructor WithRoot(root: Path)
      ensures Valid() && visited == {root} && stack == [root]
    {
      visited := {root};
      onStack := {root};
      stack := [root];
    }

    method Enter(key: Path) returns (r: EnterResult)
      requires Valid()
      modifies this
      ensures Valid()
      ensures r == if key in old(stack) then Cycle else if key in old(visited) then AlreadyVisited else Fresh
      ensures r.Fresh? ==> visited == old(visited) + {key} && stack == old(stack) + [key]
      ensures !r.Fresh? ==> visited == old(visited) && stack == old(stack)
    {
      if key in onStack {
        return Cycle;
      }
      if key in visited {
        return AlreadyVisited;
      }
      visited := visited + {key};
      onStack := onStack + {key};
      stack := stack + [key];
      return Fresh;
    }

    /** Pops the top; paired with the `Enter` that pushed it. */
    method Leave(key: Path)
      requires Valid() && |stack| > 0 && stack[|stack| - 1] == key
      modifies this
      ensures Valid() && visited == old(visited) && stack == old(stack)[..|old(stack)| - 1]
    {
      onStack := onStack - {stack[|stack| - 1]};
      stack := stack[..|stack| - 1];
    }
  }
}
