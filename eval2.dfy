/** The linked-environment evaluator of src/eval2.rs.

    The environment is a persistent chain of frames, searched from the
    innermost frame outward. Its `Call` keeps the source's behaviour: the body
    of the closure runs in the caller's environment with the function's name
    bound to its own body, and both the operand and the captured environment
    are ignored. A panic is an `Err`; fuel bounds evaluation as in `Ast`. */
module Eval2 {
  import opened Wrappers
  import opened Float32

  datatype Type =
    | Free(expr: Expr)
    | Number(n: F32)
    | Str(s: string)
    | Bool(b: bool)
    | Tuple(fst: Type, snd: Type)
    | Closure(env: Env, defn: Defn)
    | List(list: List)
    | RustClosure(host: nat)   // a host Rust function, known only by identity

  datatype List = End | Cons(head: Type, tail: List)

  datatype Defn = Defn(name: string, params: seq<ParamType>, body: Expr)

  datatype ParamType = Sing(name: string) | Rest(name: string)

  datatype Expr =
    | Value(v: Type)
    | Variable(name: string)
    | Defn(defn: Defn)
    | Call(operator: Expr, operands: Expr)
    | Assign(name: string, val: Expr, body: Expr)
    | If(cond: Expr, pred: Expr, fallback: Expr)

  /** `Arc<Option<Env>>`: the empty environment, or a frame over an older one. */
  datatype Env = Empty | Env(name: string, bind: Expr, outer: Env)

  datatype EvalError =
    | FreeVariable(name: string)   // "Free variable {}"
    | NotAFunction                 // "Cannot invoke non-function"
    | OutOfFuel

  // ---------------------------------------------------------------------------
  // Environments

  /** `Env::with`: a new innermost frame; `outer` is shared, not changed. */
  function With(outer: Env, name: string, bind: Expr): (r: Env)
    ensures r.Env? && r.outer == outer
  {
    Env(name, bind, outer)
  }

  /** `Env::lookup`: the binding of the innermost frame with that name. */
  function Lookup(env: Env, name: string): Option<Expr> {
    match env
    case Empty => None
    case Env(n, b, outer) => if n == name then Some(b) else Lookup(outer, name)
  }

  /** The frames of an environment, innermost first. */
  function Frames(env: Env): seq<(string, Expr)> {
    match env
    case Empty => []
    case Env(n, b, outer) => [(n, b)] + Frames(outer)
  }

  /** No frame of `env` has the name. */
  ghost predicate Unbound(env: Env, name: string) {
    forall i :: 0 <= i < |Frames(env)| ==> Frames(env)[i].0 != name
  }

  lemma LookupWith(outer: Env, n: string, b: Expr, m: string)
    ensures Lookup(With(outer, n, b), n) == Some(b)
    ensures m != n ==> Lookup(With(outer, n, b), m) == Lookup(outer, m)
    ensures Lookup(Empty, m) == None
  {
  }

  /** Lookup finds the first frame, from the innermost, that has the name. */
  lemma {:induction false} LookupFirstFrame(env: Env, name: string)
    ensures Lookup(env, name).None? <==> Unbound(env, name)
    ensures Lookup(env, name).Some? ==>
      exists i :: 0 <= i < |Frames(env)| && Frames(env)[i] == (name, Lookup(env, name).value)
        && forall j :: 0 <= j < i ==> Frames(env)[j].0 != name
  {
    match env
    case Empty =>
    case Env(n, b, outer) =>
      LookupFirstFrame(outer, name);
      var fs := Frames(env);
      assert forall i :: 0 < i < |fs| ==> fs[i] == Frames(outer)[i - 1];
      if n == name {
        assert Lookup(env, name) == Some(b);
        assert fs[0] == (name, b);
      } else if Lookup(outer, name).Some? {
        var i :| 0 <= i < |Frames(outer)| && Frames(outer)[i] == (name, Lookup(outer, name).value)
          && forall j :: 0 <= j < i ==> Frames(outer)[j].0 != name;
        assert fs[i + 1] == (name, Lookup(env, name).value);
      }
  }

  // ---------------------------------------------------------------------------
  // Evaluation

  /** `Expr::eval` with a fuel bound. */
  function Eval(e: Expr, env: Env, fuel: nat): Result<Expr, EvalError>
    decreases fuel
  {
    if fuel == 0 then Err(OutOfFuel)
    else match e
      case Value(v) => Ok(Value(v))
      case Variable(n) =>
        (match Lookup(env, n)
         case None => Err(FreeVariable(n))
         case Some(b) => Ok(b))
      case Assign(n, val, body) =>
        var evald :- Eval(val, env, fuel - 1);
        Eval(body, With(env, n, evald), fuel - 1)
      case Defn(d) => Ok(Value(Closure(env, d)))
      case If(cond, pred, fallback) =>
        var c :- Eval(cond, env, fuel - 1);
        if c == Value(Bool(true)) then Eval(pred, env, fuel - 1) else Eval(fallback, env, fuel - 1)
      case Call(operator, _) =>
        var callee :- Eval(operator, env, fuel - 1);
        if callee.Value? && callee.v.Closure? then
          var d := callee.v.defn;
          Eval(d.body, With(env, d.name, d.body), fuel - 1)
        else Err(NotAFunction)
  }

  /** Fuel is only a bound: an outcome reached with some fuel is the outcome with more. */
  lemma {:induction false} EvalMonotone(e: Expr, env: Env, fuel: nat, more: nat)
    requires fuel <= more && Eval(e, env, fuel) != Err(OutOfFuel)
    ensures Eval(e, env, more) == Eval(e, env, fuel)
    decreases fuel
  {
    var f, m := fuel - 1, more - 1;
    match e
    case Value(_) =>
    case Variable(_) =>
    case Defn(_) =>
    case Assign(n, val, body) =>
      EvalMonotone(val, env, f, m);
      if Eval(val, env, f).Ok? { EvalMonotone(body, With(env, n, Eval(val, env, f).value), f, m); }
    case If(cond, pred, fallback) =>
      EvalMonotone(cond, env, f, m);
      if Eval(cond, env, f).Ok? {
        if Eval(cond, env, f).value == Value(Bool(true)) { EvalMonotone(pred, env, f, m); }
        else { EvalMonotone(fallback, env, f, m); }
      }
    case Call(operator, _) =>
      EvalMonotone(operator, env, f, m);
      var callee := Eval(operator, env, f);
      if callee.Ok? && callee.value.Value? && callee.value.v.Closure? {
        var d := callee.value.v.defn;
        EvalMonotone(d.body, With(env, d.name, d.body), f, m);
      }
  }

  /** A value evaluates to itself; a variable yields its stored expression
      without evaluating it; an unbound variable is an error. */
  lemma EvalAtoms(env: Env, fuel: nat, v: Type, n: string)
    requires fuel > 0
    ensures Eval(Value(v), env, fuel) == Ok(Value(v))
    ensures Lookup(env, n).Some? ==> Eval(Variable(n), env, fuel) == Ok(Lookup(env, n).value)
    ensures Lookup(env, n).None? ==> Eval(Variable(n), env, fuel) == Err(FreeVariable(n))
    ensures Eval(Variable(n), Empty, fuel) == Err(FreeVariable(n))
  {
  }

  /** `let` binds the evaluated value in front of the environment for the body. */
  lemma EvalAssign(n: string, val: Expr, body: Expr, env: Env, fuel: nat, evald: Expr)
    requires Eval(val, env, fuel) == Ok(evald)
    ensures Eval(Assign(n, val, body), env, fuel + 1) == Eval(body, With(env, n, evald), fuel)
    ensures Eval(Assign(n, val, Variable(n)), env, fuel + 1) == Ok(evald)
  {
  }

  /** The number `3.0` as an `f32`. */
  const Three: F32 := F32(0x4040_0000)

  /** The source's own test: `Assign(x, Value(3), Variable x)` gives `Value(3)`. */
  lemma BasicExample()
    ensures Eval(Assign("x", Value(Number(Three)), Variable("x")), Empty, 2) == Ok(Value(Number(Three)))
  {
  }

  /** A definition evaluates to a closure of the current environment; its body
      is not evaluated. */
  lemma EvalDefn(d: Defn, env: Env, fuel: nat)
    requires fuel > 0
    ensures Eval(Expr.Defn(d), env, fuel) == Ok(Value(Closure(env, d)))
  {
  }

  /** `if` takes the first branch exactly when the condition is `Value(Bool(true))`. */
  lemma EvalIf(cond: Expr, pred: Expr, fallback: Expr, env: Env, fuel: nat, c: Expr)
    requires Eval(cond, env, fuel) == Ok(c)
    ensures c == Value(Bool(true)) ==> Eval(If(cond, pred, fallback), env, fuel + 1) == Eval(pred, env, fuel)
    ensures c != Value(Bool(true)) ==> Eval(If(cond, pred, fallback), env, fuel + 1) == Eval(fallback, env, fuel)
  {
  }

  /** A call of a closure runs its body in the caller's environment with the
      function's name bound to the body; the operand and the captured
      environment play no part. */
  lemma EvalCallClosure(operator: Expr, operands: Expr, env: Env, fuel: nat, captured: Env, d: Defn)
    requires Eval(operator, env, fuel) == Ok(Value(Closure(captured, d)))
    ensures Eval(Call(operator, operands), env, fuel + 1) == Eval(d.body, With(env, d.name, d.body), fuel)
  {
  }

  lemma CallIgnoresOperands(operator: Expr, a: Expr, b: Expr, env: Env, fuel: nat)
    ensures Eval(Call(operator, a), env, fuel) == Eval(Call(operator, b), env, fuel)
  {
  }

  lemma CallIgnoresCapturedEnv(c1: Env, c2: Env, d: Defn, operands: Expr, env: Env, fuel: nat)
    ensures Eval(Call(Value(Closure(c1, d)), operands), env, fuel + 2)
         == Eval(Call(Value(Closure(c2, d)), operands), env, fuel + 2)
  {
  }

  /** Inside a called body, the function's own name stands for that body, not
      for the closure. */
  lemma SelfNameIsBody(operator: Expr, operands: Expr, env: Env, fuel: nat, captured: Env, d: Defn)
    requires Eval(operator, env, fuel) == Ok(Value(Closure(captured, d)))
    requires d.body == Variable(d.name)
    ensures Eval(Call(operator, operands), env, fuel + 2) == Ok(Variable(d.name))
  {
    EvalMonotone(operator, env, fuel, fuel + 1);
  }

  lemma EvalCallNonFunction(operator: Expr, operands: Expr, env: Env, fuel: nat, callee: Expr)
    requires Eval(operator, env, fuel) == Ok(callee) && !(callee.Value? && callee.v.Closure?)
    ensures Eval(Call(operator, operands), env, fuel + 1) == Err(NotAFunction)
  {
  }
}
