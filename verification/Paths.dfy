/** Lexical path normalisation: resolves `.` and `..` without touching the file system. */
module Paths {
  datatype Component = RootDir | CurDir | ParentDir | Normal(name: string)

  type Path = seq<Component>

  /** What one component does to the components kept so far. */
  function Push(kept: Path, c: Component): Path {
    match c
    case CurDir => kept
    case ParentDir => if |kept| > 0 && kept[|kept| - 1].Normal? then kept[..|kept| - 1] else kept + [ParentDir]
    case _ => kept + [c]
  }

  function PushAll(kept: Path, p: Path): Path {
    if |p| == 0 then kept else Push(PushAll(kept, p[..|p| - 1]), p[|p| - 1])
  }

  function Normalize(p: Path): Path {
    var kept := PushAll([], p);
    if kept == [] then [CurDir] else kept
  }

  method NormalizePath(p: Path) returns (r: Path)
    ensures r == Normalize(p)
  {
    var components: Path := [];
    for i := 0 to |p|
      invariant components == PushAll([], p[..i])
    {
      assert p[..i + 1][..i] == p[..i];
      match p[i] {
        case CurDir =>
        case ParentDir =>
          if |components| > 0 && components[|components| - 1].Normal? {
            components := components[..|components| - 1];
          } else {
            components := components + [ParentDir];
          }
        case c =>
          components := components + [c];
      }
    }
    assert p[..|p|] == p;
    if |components| == 0 {
      r := [CurDir];
    } else {
      r := components;
    }
  }

  /** Kept components: no `.`, and no `..` straight after a name. */
  predicate IsNormal(p: Path) {
    && (forall i :: 0 <= i < |p| ==> !p[i].CurDir?)
    && (forall i :: 0 < i < |p| ==> !(p[i].ParentDir? && p[i - 1].Normal?))
  }

  lemma {:induction false} PushAllIsNormal(kept: Path, p: Path)
    requires IsNormal(kept)
    ensures IsNormal(PushAll(kept, p))
  {
    if |p| > 0 {
      PushAllIsNormal(kept, p[..|p| - 1]);
    }
  }

  lemma {:induction false} NormalIsFixed(p: Path)
    requires IsNormal(p)
    ensures PushAll([], p) == p
  {
    if |p| > 0 {
      NormalIsFixed(p[..|p| - 1]);
      assert p == p[..|p| - 1] + [p[|p| - 1]];
    }
  }

  lemma {:induction false} PushAllConcat(kept: Path, p: Path, q: Path)
    ensures PushAll(kept, p + q) == PushAll(PushAll(kept, p), q)
    decreases |q|
  {
    if |q| == 0 {
      assert p + q == p;
    } else {
      PushAllConcat(kept, p, q[..|q| - 1]);
      assert (p + q)[..|p + q| - 1] == p + q[..|q| - 1];
    }
  }

  /** Normalising twice is normalising once, and the result has no redundant component left. */
  lemma NormalizeIdempotent(p: Path)
    ensures Normalize(Normalize(p)) == Normalize(p)
    ensures Normalize(p) == [CurDir] || IsNormal(Normalize(p))
  {
    PushAllIsNormal([], p);
    NormalIsFixed(PushAll([], p));
    assert PushAll([], [CurDir]) == Push(PushAll([], [CurDir][..0]), CurDir);
  }

  /** Appending to a path and normalising gives the same key whether or not the path was normalised first. */
  lemma NormalizeJoined(p: Path, q: Path)
    ensures Normalize(Normalize(p) + q) == Normalize(p + q)
  {
    PushAllIsNormal([], p);
    NormalIsFixed(PushAll([], p));
    PushAllConcat([], p, q);
    PushAllConcat([], Normalize(p), q);
    assert PushAll([], [CurDir]) == Push(PushAll([], [CurDir][..0]), CurDir);
  }

  /** Joining onto a directory: an absolute path replaces it. */
  function Join(dir: Path, p: Path): Path {
    if |p| > 0 && p[0].RootDir? then p else dir + p
  }

  /** The directory of a path, `.` when it has none. */
  function Directory(p: Path): Path {
    if |p| > 0 && !p[|p| - 1].RootDir? then p[..|p| - 1] else [CurDir]
  }

  lemma PushAllNames(kept: Path, a: string)
    ensures PushAll(kept, [Normal(a), ParentDir]) == kept
    ensures PushAll(kept, [CurDir]) == kept && PushAll(kept, [Normal(a)]) == kept + [Normal(a)]
  {
    assert [Normal(a), ParentDir][..1] == [Normal(a)] && [Normal(a)][..0] == [] && [CurDir][..0] == [];
    assert PushAll(kept, []) == kept;
    assert (kept + [Normal(a)])[..|kept|] == kept;
  }

  /** What the components do: `..` takes back the name before it, `.` nothing, and a name stays unless taken back. */
  lemma NormalizeComponents(p: Path, a: string, q: Path)
    ensures Normalize(p + [Normal(a), ParentDir] + q) == Normalize(p + q)
    ensures Normalize(p + [CurDir] + q) == Normalize(p + q)
    ensures Normalize(p + [Normal(a)]) == (if Normalize(p) == [CurDir] then [] else Normalize(p)) + [Normal(a)]
  {
    var kept := PushAll([], p);
    PushAllNames(kept, a);
    PushAllConcat([], p, [Normal(a), ParentDir]);
    PushAllConcat([], p + [Normal(a), ParentDir], q);
    PushAllConcat([], p, [CurDir]);
    PushAllConcat([], p + [CurDir], q);
    PushAllConcat([], p, q);
    PushAllConcat([], p, [Normal(a)]);
    PushAllIsNormal([], p);
  }

  lemma PushAllParents(n: nat)
    ensures PushAll([], seq(n, i => ParentDir)) == seq(n, i => ParentDir)
  {
    NormalIsFixed(seq(n, i => ParentDir));
  }

  /** A `..` that has nothing to take back stays: at the start, after another one, and after the root. */
  lemma ParentStays(n: nat)
    ensures Normalize(seq(n + 1, i => ParentDir)) == seq(n + 1, i => ParentDir)
    ensures Normalize([RootDir, ParentDir]) == [RootDir, ParentDir]
  {
    PushAllParents(n + 1);
    NormalIsFixed([RootDir, ParentDir]);
  }
}
