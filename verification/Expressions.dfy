/** Bundle expressions and their evaluation: an abstraction of the HCL expressions that internal/bundle evaluates. */
module Expressions {
  import opened Wrappers
  import opened Sequences

  datatype Value = Str(text: string) | Bool(truth: bool) | Object(fields: map<string, Value>)

  datatype Expr =
    | Literal(value: Value)
    | Local(name: string)       // local.name or local["name"]
    | WholeLocal                // local on its own: the object of all locals in scope
    | SysArch                   // sys.arch
    | Field(base: Expr, field: string) // base.field
    | File(path: Expr)          // file(path)
    | Concat(left: Expr, right: Expr)
    | Conditional(cond: Expr, ifTrue: Expr, ifFalse: Expr)

  datatype EvalError =
    | UnknownLocal(name: string)
    | UnknownField(name: string)
    | FunctionUnavailable
    | UnreadableFile(path: string)
    | TypeMismatch

  /** The scope of an evaluation; files is None where the file function is not offered. */
  datatype Context = Context(locals: map<string, Value>, arch: string, files: Option<map<string, string>>)

  function ToText(v: Value): Option<string> {
    match v
    case Str(s) => Some(s)
    case Bool(b) => Some(if b then "true" else "false")
    case Object(_) => None
  }

  /** Evaluation; of the two branches of a conditional only the chosen one can fail. */
  function Eval(e: Expr, ctx: Context): Result<Value, EvalError> {
    match e
    case Literal(v) => Ok(v)
    case Local(n) => if n in ctx.locals then Ok(ctx.locals[n]) else Err(UnknownLocal(n))
    case WholeLocal => Ok(Object(ctx.locals))
    case SysArch => Ok(Str(ctx.arch))
    case Field(o, n) => SelectField(Eval(o, ctx), n)
    case File(p) => ReadFile(Eval(p, ctx), ctx.files)
    case Concat(l, r) => Join(Eval(l, ctx), Eval(r, ctx))
    case Conditional(c, t, f) =>
      match Eval(c, ctx)
      case Err(error) => Err(error)
      case Ok(Bool(b)) => if b then Eval(t, ctx) else Eval(f, ctx)
      case Ok(_) => Err(TypeMismatch)
  }

  function SelectField(base: Result<Value, EvalError>, n: string): Result<Value, EvalError> {
    match base
    case Err(error) => Err(error)
    case Ok(Object(fields)) => if n in fields then Ok(fields[n]) else Err(UnknownField(n))
    case Ok(_) => Err(TypeMismatch)
  }

  function ReadFile(path: Result<Value, EvalError>, files: Option<map<string, string>>): Result<Value, EvalError> {
    if files.None? then Err(FunctionUnavailable)
    else match path
      case Err(error) => Err(error)
      case Ok(Str(p)) => if p in files.value then Ok(Str(files.value[p])) else Err(UnreadableFile(p))
      case Ok(_) => Err(TypeMismatch)
  }

  function Join(l: Result<Value, EvalError>, r: Result<Value, EvalError>): Result<Value, EvalError> {
    if l.Err? then l
    else if r.Err? then r
    else if ToText(l.value).None? || ToText(r.value).None? then Err(TypeMismatch)
    else Ok(Str(ToText(l.value).value + ToText(r.value).value))
  }

  /** A conditional is the branch that its condition chooses; the other branch need not even have a value, so that a
      file that only it would read may be missing. */
  lemma ConditionalIsLazy(cond: Expr, ifTrue: Expr, ifFalse: Expr, ctx: Context)
    ensures Eval(cond, ctx) == Ok(Bool(true)) ==> Eval(Conditional(cond, ifTrue, ifFalse), ctx) == Eval(ifTrue, ctx)
    ensures Eval(cond, ctx) == Ok(Bool(false)) ==> Eval(Conditional(cond, ifTrue, ifFalse), ctx) == Eval(ifFalse, ctx)
    ensures Eval(Conditional(cond, ifTrue, ifFalse), ctx).Ok? ==>
              Eval(cond, ctx).Ok? && Eval(cond, ctx).value.Bool? && (Eval(ifTrue, ctx).Ok? || Eval(ifFalse, ctx).Ok?)
  {
  }

  /** The references an expression makes, in source order and with repetitions; None is a bare local. */
  function References(e: Expr): seq<Option<string>> {
    match e
    case Literal(_) => []
    case Local(n) => [Some(n)]
    case WholeLocal => [None]
    case SysArch => []
    case Field(o, _) => References(o)
    case File(p) => References(p)
    case Concat(l, r) => References(l) + References(r)
    case Conditional(c, t, f) => References(c) + References(t) + References(f)
  }

  predicate Mentions(e: Expr, n: string) {
    Some(n) in References(e)
  }

  /** Locals are only referenced by name, never as a whole. */
  predicate NamedOnly(e: Expr) {
    None !in References(e)
  }

  predicate ContainsFile(e: Expr) {
    match e
    case Field(o, _) => ContainsFile(o)
    case File(_) => true
    case Concat(l, r) => ContainsFile(l) || ContainsFile(r)
    case Conditional(c, t, f) => ContainsFile(c) || ContainsFile(t) || ContainsFile(f)
    case _ => false
  }

  /** The names among references, each once, in order of first use. */
  function FirstUses(references: seq<Option<string>>): seq<string> {
    if references == [] then []
    else
      var init, last := FirstUses(references[..|references| - 1]), references[|references| - 1];
      if last.Some? && last.value !in init then init + [last.value] else init
  }

  lemma {:induction false} FirstUsesMembers(references: seq<Option<string>>)
    ensures NoDuplicates(FirstUses(references))
    ensures forall n :: n in FirstUses(references) <==> Some(n) in references
  {
    if references != [] {
      var init := references[..|references| - 1];
      FirstUsesMembers(init);
      assert references == init + [references[|references| - 1]];
    }
  }

  function DependencyNames(e: Expr): seq<string> {
    FirstUses(References(e))
  }

  /** The locals an expression depends on by name, each once; a bare local is not among them. */
  method LocalDependencies(e: Expr) returns (deps: seq<string>)
    ensures deps == DependencyNames(e)
    ensures NoDuplicates(deps) && forall n :: n in deps <==> Mentions(e, n)
  {
    var references := References(e);
    var seen: set<string> := {};
    deps := [];
    for i := 0 to |references|
      invariant seen == Elements(deps) && deps == FirstUses(references[..i])
    {
      assert references[..i + 1][..i] == references[..i];
      if references[i].None? {
        continue;
      }
      var dep := references[i].value;
      if dep in seen {
        continue;
      }
      seen := seen + {dep};
      deps := deps + [dep];
    }
    assert references[..|references|] == references;
    FirstUsesMembers(references);
  }

  ghost predicate AgreeOn(a: map<string, Value>, b: map<string, Value>, n: string) {
    (n in a <==> n in b) && (n in a && n in b ==> a[n] == b[n])
  }

  /** Evaluation looks at the mentioned locals only. */
  lemma {:induction false} EvalAgrees(e: Expr, a: Context, b: Context)
    requires NamedOnly(e) && a.arch == b.arch && a.files == b.files
    requires forall n :: Mentions(e, n) ==> AgreeOn(a.locals, b.locals, n)
    ensures Eval(e, a) == Eval(e, b)
  {
    match e
    case Literal(_) =>
    case Local(n) => assert Mentions(e, n);
    case WholeLocal =>
    case SysArch =>
    case Field(o, _) =>
      assert forall n :: Mentions(o, n) ==> Mentions(e, n);
      EvalAgrees(o, a, b);
    case File(p) =>
      assert forall n :: Mentions(p, n) ==> Mentions(e, n);
      EvalAgrees(p, a, b);
    case Concat(l, r) =>
      assert forall n :: Mentions(l, n) || Mentions(r, n) ==> Mentions(e, n);
      EvalAgrees(l, a, b);
      EvalAgrees(r, a, b);
    case Conditional(c, t, f) =>
      assert forall n :: Mentions(c, n) || Mentions(t, n) || Mentions(f, n) ==> Mentions(e, n);
      EvalAgrees(c, a, b);
      EvalAgrees(t, a, b);
      EvalAgrees(f, a, b);
  }

  /** Without a file() call it does not matter whether the function is offered. */
  lemma {:induction false} EvalWithoutFiles(e: Expr, ctx: Context)
    requires !ContainsFile(e)
    ensures Eval(e, ctx) == Eval(e, ctx.(files := None))
  {
    match e
    case Field(o, _) =>
      EvalWithoutFiles(o, ctx);
    case Concat(l, r) =>
      EvalWithoutFiles(l, ctx);
      EvalWithoutFiles(r, ctx);
    case Conditional(c, t, f) =>
      EvalWithoutFiles(c, ctx);
      EvalWithoutFiles(t, ctx);
      EvalWithoutFiles(f, ctx);
    case _ =>
  }
}
