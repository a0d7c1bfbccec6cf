/** The parts of the patch syntax tree that the desugaring passes read and write. Source spans are dropped. */
module Ast {
  import opened Wrappers

  datatype Scalar = IntLit(i: int) | FloatLit(f: real) | BoolLit(b: bool) | StrLit(s: string) | ParamRef(name: string)

  datatype Value = ScalarValue(scalar: Scalar) | FileRef(path: string)

  datatype ShapeValue = ScalarShape(scalar: Scalar) | AliasList(aliases: seq<string>)

  datatype CallArg = Bare(value: ShapeValue) | Named(name: string, value: ShapeValue) | ShorthandArg(name: string)

  /** `[N]`, `[name]` (arityMarker = false) or `[*name]` (arityMarker = true). */
  datatype Index = LiteralIndex(n: nat) | NameIndex(name: string, arityMarker: bool)

  datatype AtIndex = AtLiteral(n: nat) | AtAlias(alias: string)

  datatype ParamEntry =
    | KeyValue(name: string, index: Option<Index>, value: Value)
    | Shorthand(param: string)
    | AtBlock(at: AtIndex, entries: seq<(string, Value)>)

  datatype ModuleDecl = ModuleDecl(
    name: string, typeName: string, callBlock: Option<seq<CallArg>>, params: seq<ParamEntry>, isStereo: bool)

  datatype PortLabel = Literal(text: string) | Param(param: string)

  datatype PortRef = PortRef(moduleName: string, port: PortLabel, index: Option<Index>)

  datatype TapTarget = TapTarget(components: seq<string>, name: string)

  datatype Endpoint = Port(ref: PortRef) | Tap(tap: TapTarget) | HostControlRef(control: string)

  datatype Direction = Forward | Backward

  datatype ScaleSpec = ScalarScale(value: Scalar) | RangeScale(bipolar: bool, lo: Scalar, hi: Scalar)

  datatype Arrow = Arrow(direction: Direction, scale: Option<ScaleSpec>)

  datatype Connection = Connection(lhs: Endpoint, arrow: Arrow, rhs: Endpoint)

  datatype HostControlKind = Knob | Slider | Toggle | Trigger

  datatype HostControlBlock = HostControlBlock(kind: HostControlKind, name: string, fields: seq<(string, Value)>)

  /** `Opaque` stands for song and pattern statements, which the passes copy. */
  datatype Statement =
    | Module(decl: ModuleDecl)
    | Cable(connection: Connection)
    | HostControl(block: HostControlBlock)
    | Opaque(id: nat)

  /** A file: the statement lists of its templates and of its patch body. */
  datatype File = File(templates: seq<seq<Statement>>, body: seq<Statement>)

  function Source(c: Connection): Endpoint {
    if c.arrow.direction == Forward then c.lhs else c.rhs
  }

  function Target(c: Connection): Endpoint {
    if c.arrow.direction == Forward then c.rhs else c.lhs
  }

  function LabelString(port: PortLabel): string {
    match port
    case Literal(s) => s
    case Param(s) => "<" + s + ">"
  }

  /** All cables of a body, in order. */
  function Cables(body: seq<Statement>): seq<Connection> {
    if |body| == 0 then []
    else Cables(body[..|body| - 1]) + (if body[|body| - 1].Cable? then [body[|body| - 1].connection] else [])
  }

  /** All module declarations of a body, in order. */
  function Decls(body: seq<Statement>): seq<ModuleDecl> {
    if |body| == 0 then []
    else Decls(body[..|body| - 1]) + (if body[|body| - 1].Module? then [body[|body| - 1].decl] else [])
  }

  lemma {:induction false} CablesConcat(a: seq<Statement>, b: seq<Statement>)
    ensures Cables(a + b) == Cables(a) + Cables(b)
    decreases |b|
  {
    if |b| == 0 {
      assert a + b == a;
    } else {
      CablesConcat(a, b[..|b| - 1]);
      assert (a + b)[..|a + b| - 1] == a + b[..|b| - 1];
    }
  }

  lemma {:induction false} DeclsConcat(a: seq<Statement>, b: seq<Statement>)
    ensures Decls(a + b) == Decls(a) + Decls(b)
    decreases |b|
  {
    if |b| == 0 {
      assert a + b == a;
    } else {
      DeclsConcat(a, b[..|b| - 1]);
      assert (a + b)[..|a + b| - 1] == a + b[..|b| - 1];
    }
  }

  /** Statements that are neither declarations nor cables. */
  function Others(body: seq<Statement>): seq<Statement> {
    if |body| == 0 then []
    else
      var s := body[|body| - 1];
      Others(body[..|body| - 1]) + (if s.Module? || s.Cable? then [] else [s])
  }

  lemma {:induction false} OthersConcat(a: seq<Statement>, b: seq<Statement>)
    ensures Others(a + b) == Others(a) + Others(b)
    decreases |b|
  {
    if |b| == 0 {
      assert a + b == a;
    } else {
      OthersConcat(a, b[..|b| - 1]);
      assert (a + b)[..|a + b| - 1] == a + b[..|b| - 1];
    }
  }

  // ── Decimal numerals, used in generated names ──

  function Digit(d: nat): char
    requires d < 10
  {
    "0123456789"[d]
  }

  function Decimal(n: nat): (s: string)
    ensures |s| > 0
  {
    if n < 10 then [Digit(n)] else Decimal(n / 10) + [Digit(n % 10)]
  }

  lemma {:induction false} DecimalInjective(m: nat, n: nat)
    requires Decimal(m) == Decimal(n)
    ensures m == n
  {
    var s, t := Decimal(m), Decimal(n);
    assert s[|s| - 1] == Digit(m % 10) && t[|t| - 1] == Digit(n % 10);
    if m >= 10 && n >= 10 {
      assert s[..|s| - 1] == Decimal(m / 10) && t[..|t| - 1] == Decimal(n / 10);
      DecimalInjective(m / 10, n / 10);
    }
  }
}
