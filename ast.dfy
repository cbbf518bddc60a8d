/** The map-environment evaluator of src/ast.rs: literal values, prefix and
    infix closures, `let` binding and first-match pattern `match`.

    Evaluation can diverge (a self-applied closure, or a variable bound to an
    expression mentioning itself), so `Eval` takes a fuel bound; running out of
    fuel is reported as `OutOfFuel` and `EvalMonotone` shows that more fuel never
    changes an outcome that was reached. A panic of the source is an `Err`. */
module Ast {
  import opened Wrappers
  import opened Float32
  import opened Text

  datatype Type =
    | Unit
    | Int(i: I32)
    | Float(f: F32)
    | Bool(b: bool)
    | Str(s: string)
    | Tuple(fst: Type, snd: Type)
    | Infix(env: Env, leftName: string, body: Expr, rightName: string)
    | Prefix(env: Env, params: seq<string>, body: Expr)
    | List(list: List)

  datatype List = End | Cons(head: Type, tail: List)

  datatype InfixDefn = InfixDefn(name: string, leftName: string, rightName: string, body: Expr, next: Expr)

  datatype PrefixDefn = PrefixDefn(name: string, params: seq<string>, body: Expr, next: Expr)

  datatype MatchPatterns =
    | ConsOf(headName: string, tailName: string)
    | EmptyList
    | TupleOf(fstName: string, sndName: string)
    | Any(name: string)
    | Ignored

  type Env = map<string, Expr>

  datatype Expr =
    | Free(name: string)
    | Literal(value: Type)
    | Variable(name: string)
    | DefnInfix(infix: InfixDefn)
    | DefnPrefix(prefix: PrefixDefn)
    | InfixCall(left: Expr, oper: Expr, right: Expr)
    | PrefixCall(func: Expr, args: seq<Expr>)
    | Assign(name: string, val: Expr, rest: Expr)
    | Match(against: Expr, branches: seq<(MatchPatterns, Expr)>)

  datatype EvalError =
    | NonPrefixCall        // "Cannot apply non-prefix func"
    | NonInfixCall         // "Cannot apply non-infix func as infix operator"
    | TooManyArguments     // `arg_names[i]` out of bounds
    | NoMatchingBranch     // "No matching branch"
    | NonLiteralMatch      // "Cannot match against non-literal"
    | OutOfFuel

  // ---------------------------------------------------------------------------
  // Structural equality

  /** `Type::equals`: variant-directed deep comparison; closures equal nothing. */
  predicate Equals(a: Type, o: Type)
    decreases a
  {
    match a
    case Unit => o.Unit?
    case Int(x) => o.Int? && x == o.i
    case Float(x) => o.Float? && Float32.Eq(x, o.f)
    case Bool(x) => o.Bool? && x == o.b
    case Str(x) => o.Str? && x == o.s
    case Tuple(x, y) => o.Tuple? && Equals(x, o.fst) && Equals(y, o.snd)
    case List(l) => o.List? && ListEquals(l, o.list)
    case _ => false
  }

  /** `List::equals`. */
  predicate ListEquals(l: List, o: List)
    decreases l
  {
    match l
    case End => o.End?
    case Cons(h, t) => o.Cons? && Equals(h, o.head) && ListEquals(t, o.tail)
  }

  /** A value that is equal to itself: no closure and no NaN anywhere in it. */
  predicate Comparable(v: Type) {
    match v
    case Float(x) => !IsNaN(x)
    case Tuple(x, y) => Comparable(x) && Comparable(y)
    case List(l) => ListComparable(l)
    case Infix(_, _, _, _) => false
    case Prefix(_, _, _) => false
    case _ => true
  }

  predicate ListComparable(l: List) {
    match l
    case End => true
    case Cons(h, t) => Comparable(h) && ListComparable(t)
  }

  function Length(l: List): nat {
    match l
    case End => 0
    case Cons(_, t) => 1 + Length(t)
  }

  lemma {:induction false} EqualsReflexive(v: Type)
    ensures Equals(v, v) <==> Comparable(v)
  {
    match v
    case Float(x) => EqReflexive(x);
    case Tuple(x, y) => EqualsReflexive(x); EqualsReflexive(y);
    case List(l) => ListEqualsReflexive(l);
    case _ =>
  }

  lemma {:induction false} ListEqualsReflexive(l: List)
    ensures ListEquals(l, l) <==> ListComparable(l)
  {
    match l
    case End =>
    case Cons(h, t) => EqualsReflexive(h); ListEqualsReflexive(t);
  }

  lemma {:induction false} EqualsSymmetric(a: Type, b: Type)
    ensures Equals(a, b) == Equals(b, a)
  {
    match a
    case Float(x) => if b.Float? { EqSymmetric(x, b.f); }
    case Tuple(x, y) => if b.Tuple? { EqualsSymmetric(x, b.fst); EqualsSymmetric(y, b.snd); }
    case List(l) => if b.List? { ListEqualsSymmetric(l, b.list); }
    case _ =>
  }

  lemma {:induction false} ListEqualsSymmetric(l: List, o: List)
    ensures ListEquals(l, o) == ListEquals(o, l)
  {
    match l
    case End =>
    case Cons(h, t) => if o.Cons? { EqualsSymmetric(h, o.head); ListEqualsSymmetric(t, o.tail); }
  }

  lemma {:induction false} EqualsTransitive(a: Type, b: Type, c: Type)
    requires Equals(a, b) && Equals(b, c)
    ensures Equals(a, c)
  {
    match a
    case Float(x) => EqTransitive(x, b.f, c.f);
    case Tuple(x, y) => EqualsTransitive(x, b.fst, c.fst); EqualsTransitive(y, b.snd, c.snd);
    case List(l) => ListEqualsTransitive(l, b.list, c.list);
    case _ =>
  }

  lemma {:induction false} ListEqualsTransitive(l: List, m: List, n: List)
    requires ListEquals(l, m) && ListEquals(m, n)
    ensures ListEquals(l, n)
  {
    match l
    case End =>
    case Cons(h, t) => EqualsTransitive(h, m.head, n.head); ListEqualsTransitive(t, m.tail, n.tail);
  }

  /** Lists of different lengths are never equal. */
  lemma {:induction false} ListEqualsSameLength(l: List, o: List)
    requires ListEquals(l, o)
    ensures Length(l) == Length(o)
  {
    match l
    case End =>
    case Cons(h, t) => ListEqualsSameLength(t, o.tail);
  }

  /** Function values are unequal to everything, themselves included. */
  lemma ClosuresEqualNothing(f: Type, v: Type)
    requires f.Infix? || f.Prefix?
    ensures !Equals(f, v) && !Equals(v, f)
  {
  }

  /** `Type::do_match`: the first triple whose value equals `self`. */
  function DoMatch<S, T>(self: Type, against: seq<(Type, S, T)>): Option<(Type, S, T)> {
    if against == [] then None
    else if Equals(against[0].0, self) then Some(against[0])
    else DoMatch(self, against[1..])
  }

  lemma {:induction false} DoMatchFindsFirst<S, T>(self: Type, against: seq<(Type, S, T)>)
    ensures DoMatch(self, against).None? <==>
      forall i :: 0 <= i < |against| ==> !Equals(against[i].0, self)
    ensures DoMatch(self, against).Some? ==>
      exists i :: 0 <= i < |against| && DoMatch(self, against).value == against[i]
        && Equals(against[i].0, self)
        && forall j :: 0 <= j < i ==> !Equals(against[j].0, self)
  {
    if against != [] && !Equals(against[0].0, self) {
      DoMatchFindsFirst(self, against[1..]);
      if DoMatch(self, against).Some? {
        var i :| 0 <= i < |against| - 1 && DoMatch(self, against).value == against[1..][i]
          && Equals(against[1..][i].0, self)
          && forall j :: 0 <= j < i ==> !Equals(against[1..][j].0, self);
        assert forall j :: 0 <= j < i + 1 ==> !Equals(against[j].0, self) by {
          forall j | 0 <= j < i + 1 ensures !Equals(against[j].0, self) {
            if j > 0 { assert against[j] == against[1..][j - 1]; }
          }
        }
      } else {
        forall i | 0 <= i < |against| ensures !Equals(against[i].0, self) {
          if i > 0 { assert against[i] == against[1..][i - 1]; }
        }
      }
    }
  }

  // ---------------------------------------------------------------------------
  // Patterns

  /** `MatchPatterns::matches`: the bindings a pattern makes, or `None`. */
  function Matches(p: MatchPatterns, o: Type): Option<seq<(string, Type)>> {
    match p
    case EmptyList => if o.List? && o.list.End? then Some([]) else None
    case ConsOf(a, b) =>
      if o.List? && o.list.Cons? then Some([(a, o.list.head), (b, List(o.list.tail))]) else None
    case TupleOf(a, b) => if o.Tuple? then Some([(a, o.fst), (b, o.snd)]) else None
    case Any(n) => Some([(n, o)])
    case Ignored => Some([])
  }

  lemma MatchesCases(p: MatchPatterns, o: Type)
    ensures p.Any? ==> Matches(p, o) == Some([(p.name, o)])
    ensures p.Ignored? ==> Matches(p, o) == Some([])
    ensures p.EmptyList? ==> (Matches(p, o).Some? <==> o == List(End))
    ensures p.EmptyList? && o == List(End) ==> Matches(p, o) == Some([])
    ensures p.ConsOf? ==> (Matches(p, o).Some? <==> o.List? && o.list.Cons?)
    ensures p.ConsOf? && o.List? && o.list.Cons? ==>
      Matches(p, o) == Some([(p.headName, o.list.head), (p.tailName, List(o.list.tail))])
    ensures p.TupleOf? ==> (Matches(p, o).Some? <==> o.Tuple?)
    ensures p.TupleOf? && o.Tuple? ==> Matches(p, o) == Some([(p.fstName, o.fst), (p.sndName, o.snd)])
  {
  }

  /** The first branch, in order, whose pattern matches `v`, with its bindings. */
  function SelectBranch(branches: seq<(MatchPatterns, Expr)>, v: Type): Option<(seq<(string, Type)>, Expr)> {
    if branches == [] then None
    else match Matches(branches[0].0, v)
      case Some(binds) => Some((binds, branches[0].1))
      case None => SelectBranch(branches[1..], v)
  }

  /** The branch `SelectBranch` picks is the first matching one; `None` means none matches. */
  lemma {:induction false} SelectBranchIsFirst(branches: seq<(MatchPatterns, Expr)>, v: Type, k: nat)
    requires k < |branches| && Matches(branches[k].0, v).Some?
    requires forall j :: 0 <= j < k ==> Matches(branches[j].0, v).None?
    ensures SelectBranch(branches, v) == Some((Matches(branches[k].0, v).value, branches[k].1))
  {
    if k > 0 {
      assert Matches(branches[0].0, v).None?;
      forall j | 0 <= j < k - 1 ensures Matches(branches[1..][j].0, v).None? {
        assert branches[1..][j] == branches[j + 1];
      }
      SelectBranchIsFirst(branches[1..], v, k - 1);
    }
  }

  lemma {:induction false} SelectBranchNone(branches: seq<(MatchPatterns, Expr)>, v: Type)
    ensures SelectBranch(branches, v).None? <==>
      forall j :: 0 <= j < |branches| ==> Matches(branches[j].0, v).None?
  {
    if branches != [] {
      SelectBranchNone(branches[1..], v);
      if Matches(branches[0].0, v).None? {
        assert forall j :: 0 < j < |branches| ==> branches[j] == branches[1..][j - 1];
      }
    }
  }

  // ---------------------------------------------------------------------------
  // Environments

  /** The environment `env_with` builds: `env` with `name` (re)bound to `value`. */
  function With(env: Env, name: string, value: Expr): Env {
    env[name := value]
  }

  /** `env_with`: copies every entry of `env` into a fresh map, then inserts
      `name`; the argument map is not changed. */
  method EnvWith(env: Env, name: string, value: Expr) returns (out: Env)
    ensures out == With(env, name, value)
    ensures name in out && out[name] == value
    ensures forall k :: k != name ==> (k in out <==> k in env)
    ensures forall k :: k != name && k in env ==> out[k] == env[k]
  {
    out := map[];
    var todo := env.Keys;
    while todo != {}
      invariant todo <= env.Keys
      invariant out.Keys == env.Keys - todo
      invariant forall k :: k in out ==> out[k] == env[k]
      decreases todo
    {
      var k :| k in todo;
      out := out[k := env[k]];
      todo := todo - {k};
    }
    assert out == env;
    out := out[name := value];
  }

  /** Rebinding a name hides its earlier binding. */
  lemma WithShadows(env: Env, name: string, a: Expr, b: Expr)
    ensures With(With(env, name, a), name, b) == With(env, name, b)
  {
  }

  /** Left fold of `With` over name/expression pairs. */
  function Bind(env: Env, pairs: seq<(string, Expr)>): Env
    decreases pairs
  {
    if pairs == [] then env else Bind(With(env, pairs[0].0, pairs[0].1), pairs[1..])
  }

  /** The expression of the last pair named `n`, if any. */
  function LastBinding(pairs: seq<(string, Expr)>, n: string): Option<Expr> {
    if pairs == [] then None
    else match LastBinding(pairs[1..], n)
      case Some(e) => Some(e)
      case None => if pairs[0].0 == n then Some(pairs[0].1) else None
  }

  /** After a fold of bindings, a name holds its last binding, or else what it held before. */
  lemma {:induction false} BindLookup(env: Env, pairs: seq<(string, Expr)>, n: string)
    ensures LastBinding(pairs, n).Some? ==>
      n in Bind(env, pairs) && Bind(env, pairs)[n] == LastBinding(pairs, n).value
    ensures LastBinding(pairs, n).None? ==>
      (n in Bind(env, pairs) <==> n in env) && (n in env ==> Bind(env, pairs)[n] == env[n])
    decreases pairs
  {
    if pairs != [] {
      BindLookup(With(env, pairs[0].0, pairs[0].1), pairs[1..], n);
    }
  }

  /** A name bound by none of the pairs keeps what it had. */
  lemma {:induction false} LastBindingAbsent(pairs: seq<(string, Expr)>, n: string)
    requires forall i :: 0 <= i < |pairs| ==> pairs[i].0 != n
    ensures LastBinding(pairs, n).None?
  {
    if pairs != [] {
      assert forall i :: 0 <= i < |pairs| - 1 ==> pairs[1..][i] == pairs[i + 1];
      LastBindingAbsent(pairs[1..], n);
    }
  }

  /** With distinct names, pair `i` is the last binding of its name. */
  lemma {:induction false} LastBindingDistinct(pairs: seq<(string, Expr)>, i: nat)
    requires i < |pairs|
    requires forall j, k :: 0 <= j < k < |pairs| ==> pairs[j].0 != pairs[k].0
    ensures LastBinding(pairs, pairs[i].0) == Some(pairs[i].1)
  {
    if i == 0 {
      LastBindingAbsent(pairs[1..], pairs[0].0);
    } else {
      assert pairs[1..][i - 1] == pairs[i];
      LastBindingDistinct(pairs[1..], i - 1);
    }
  }

  /** Pattern bindings become literal expressions. */
  function AsLiterals(binds: seq<(string, Type)>): (r: seq<(string, Expr)>)
    ensures |r| == |binds|
    ensures forall i :: 0 <= i < |binds| ==> r[i] == (binds[i].0, Literal(binds[i].1))
  {
    if binds == [] then [] else [(binds[0].0, Literal(binds[0].1))] + AsLiterals(binds[1..])
  }

  /** Parameter names paired with argument values. */
  function Zip(names: seq<string>, vals: seq<Expr>): (r: seq<(string, Expr)>)
    requires |names| == |vals|
    ensures |r| == |names|
    ensures forall i :: 0 <= i < |names| ==> r[i] == (names[i], vals[i])
  {
    if names == [] then [] else [(names[0], vals[0])] + Zip(names[1..], vals[1..])
  }

  // ---------------------------------------------------------------------------
  // Evaluation

  /** The outcomes of evaluation that are values: literals and free names. */
  predicate IsValue(e: Expr) {
    e.Literal? || e.Free?
  }

  /** `Expr::eval` with a fuel bound. */
  function Eval(e: Expr, env: Env, fuel: nat): Result<Expr, EvalError>
    decreases fuel, 0, 0
  {
    if fuel == 0 then Err(OutOfFuel)
    else match e
      case Literal(x) => Ok(Literal(x))
      case Free(n) => Ok(Free(n))
      case Variable(n) => if n in env then Eval(env[n], env, fuel - 1) else Ok(Free(n))
      case Assign(n, v, rest) =>
        var value :- Eval(v, env, fuel - 1);
        Eval(rest, With(env, n, value), fuel - 1)
      case PrefixCall(f, args) =>
        var callee :- Eval(f, env, fuel - 1);
        if callee.Literal? && callee.value.Prefix? then
          var callEnv :- BindArgs(args, callee.value.params, callee.value.env, env, fuel - 1);
          Eval(callee.value.body, callEnv, fuel - 1)
        else Err(NonPrefixCall)
      case InfixCall(l, oper, r) =>
        var op :- Eval(oper, env, fuel - 1);
        if op.Literal? && op.value.Infix? then
          var lv :- Eval(l, env, fuel - 1);
          var rv :- Eval(r, env, fuel - 1);
          Eval(op.value.body, With(With(op.value.env, op.value.leftName, lv), op.value.rightName, rv), fuel - 1)
        else Err(NonInfixCall)
      case Match(against, branches) =>
        var scrutinee :- Eval(against, env, fuel - 1);
        if scrutinee.Literal? then
          match SelectBranch(branches, scrutinee.value)
          case Some((binds, next)) => Eval(next, Bind(env, AsLiterals(binds)), fuel - 1)
          case None => Err(NoMatchingBranch)
        else Err(NonLiteralMatch)
      case DefnInfix(d) =>
        Eval(d.next, With(env, d.name, Literal(Infix(env, d.leftName, d.body, d.rightName))), fuel - 1)
      case DefnPrefix(d) =>
        Eval(d.next, With(env, d.name, Literal(Prefix(env, d.params, d.body))), fuel - 1)
  }

  /** The argument fold of a prefix call: each argument is evaluated in the
      caller's `env`, then bound to the next parameter on top of `acc`. */
  function BindArgs(args: seq<Expr>, names: seq<string>, acc: Env, env: Env, fuel: nat): Result<Env, EvalError>
    decreases fuel, 1, |args|
  {
    if args == [] then Ok(acc)
    else
      var v :- Eval(args[0], env, fuel);
      if names == [] then Err(TooManyArguments)
      else BindArgs(args[1..], names[1..], With(acc, names[0], v), env, fuel)
  }

  /** Every argument evaluates successfully, to `vals`. */
  ghost predicate ArgsEvalTo(args: seq<Expr>, env: Env, fuel: nat, vals: seq<Expr>) {
    |vals| == |args| && forall i :: 0 <= i < |args| ==> Eval(args[i], env, fuel) == Ok(vals[i])
  }

  // ---------------------------------------------------------------------------
  // Properties of evaluation

  /** Fuel is only a bound: an outcome reached with some fuel is the outcome with more. */
  lemma {:induction false} EvalMonotone(e: Expr, env: Env, fuel: nat, more: nat)
    requires fuel <= more && Eval(e, env, fuel) != Err(OutOfFuel)
    ensures Eval(e, env, more) == Eval(e, env, fuel)
    decreases fuel, 0, 0
  {
    var f, m := fuel - 1, more - 1;
    match e
    case Literal(_) =>
    case Free(_) =>
    case Variable(n) => if n in env { EvalMonotone(env[n], env, f, m); }
    case Assign(n, v, rest) =>
      EvalMonotone(v, env, f, m);
      if Eval(v, env, f).Ok? {
        EvalMonotone(rest, With(env, n, Eval(v, env, f).value), f, m);
      }
    case PrefixCall(func, args) =>
      EvalMonotone(func, env, f, m);
      var callee := Eval(func, env, f);
      if callee.Ok? && callee.value.Literal? && callee.value.value.Prefix? {
        var c := callee.value.value;
        BindArgsMonotone(args, c.params, c.env, env, f, m);
        if BindArgs(args, c.params, c.env, env, f).Ok? {
          EvalMonotone(c.body, BindArgs(args, c.params, c.env, env, f).value, f, m);
        }
      }
    case InfixCall(l, oper, r) =>
      EvalMonotone(oper, env, f, m);
      var op := Eval(oper, env, f);
      if op.Ok? && op.value.Literal? && op.value.value.Infix? {
        var c := op.value.value;
        EvalMonotone(l, env, f, m);
        if Eval(l, env, f).Ok? {
          EvalMonotone(r, env, f, m);
          if Eval(r, env, f).Ok? {
            EvalMonotone(c.body, With(With(c.env, c.leftName, Eval(l, env, f).value), c.rightName, Eval(r, env, f).value), f, m);
          }
        }
      }
    case Match(against, branches) =>
      EvalMonotone(against, env, f, m);
      var s := Eval(against, env, f);
      if s.Ok? && s.value.Literal? && SelectBranch(branches, s.value.value).Some? {
        var sel := SelectBranch(branches, s.value.value).value;
        EvalMonotone(sel.1, Bind(env, AsLiterals(sel.0)), f, m);
      }
    case DefnInfix(d) =>
      EvalMonotone(d.next, With(env, d.name, Literal(Infix(env, d.leftName, d.body, d.rightName))), f, m);
    case DefnPrefix(d) =>
      EvalMonotone(d.next, With(env, d.name, Literal(Prefix(env, d.params, d.body))), f, m);
  }

  lemma {:induction false} BindArgsMonotone(args: seq<Expr>, names: seq<string>, acc: Env, env: Env, fuel: nat, more: nat)
    requires fuel <= more && BindArgs(args, names, acc, env, fuel) != Err(OutOfFuel)
    ensures BindArgs(args, names, acc, env, more) == BindArgs(args, names, acc, env, fuel)
    decreases fuel, 1, |args|
  {
    if args != [] {
      EvalMonotone(args[0], env, fuel, more);
      if Eval(args[0], env, fuel).Ok? && names != [] {
        BindArgsMonotone(args[1..], names[1..], With(acc, names[0], Eval(args[0], env, fuel).value), env, fuel, more);
      }
    }
  }

  /** Every successful evaluation ends in a literal or a free name. */
  lemma {:induction false} EvalYieldsValue(e: Expr, env: Env, fuel: nat)
    ensures Eval(e, env, fuel).Ok? ==> IsValue(Eval(e, env, fuel).value)
    decreases fuel
  {
    if fuel > 0 {
      var f := fuel - 1;
      match e
      case Literal(_) =>
      case Free(_) =>
      case Variable(n) => if n in env { EvalYieldsValue(env[n], env, f); }
      case Assign(n, v, rest) =>
        if Eval(v, env, f).Ok? { EvalYieldsValue(rest, With(env, n, Eval(v, env, f).value), f); }
      case PrefixCall(func, args) =>
        var callee := Eval(func, env, f);
        if callee.Ok? && callee.value.Literal? && callee.value.value.Prefix? {
          var c := callee.value.value;
          if BindArgs(args, c.params, c.env, env, f).Ok? {
            EvalYieldsValue(c.body, BindArgs(args, c.params, c.env, env, f).value, f);
          }
        }
      case InfixCall(l, oper, r) =>
        var op := Eval(oper, env, f);
        if op.Ok? && op.value.Literal? && op.value.value.Infix? && Eval(l, env, f).Ok? && Eval(r, env, f).Ok? {
          var c := op.value.value;
          EvalYieldsValue(c.body, With(With(c.env, c.leftName, Eval(l, env, f).value), c.rightName, Eval(r, env, f).value), f);
        }
      case Match(against, branches) =>
        var s := Eval(against, env, f);
        if s.Ok? && s.value.Literal? && SelectBranch(branches, s.value.value).Some? {
          var sel := SelectBranch(branches, s.value.value).value;
          EvalYieldsValue(sel.1, Bind(env, AsLiterals(sel.0)), f);
        }
      case DefnInfix(d) =>
        EvalYieldsValue(d.next, With(env, d.name, Literal(Infix(env, d.leftName, d.body, d.rightName))), f);
      case DefnPrefix(d) =>
        EvalYieldsValue(d.next, With(env, d.name, Literal(Prefix(env, d.params, d.body))), f);
    }
  }

  /** Evaluating a result again gives the same result, in any environment. */
  lemma EvalIdempotent(e: Expr, env: Env, fuel: nat, env': Env, fuel': nat)
    requires Eval(e, env, fuel).Ok? && fuel' > 0
    ensures Eval(Eval(e, env, fuel).value, env', fuel') == Eval(e, env, fuel)
  {
    EvalYieldsValue(e, env, fuel);
  }

  /** Literals and free names evaluate to themselves; a bound variable evaluates
      its binding in the current environment; an unbound one is a free name. */
  lemma EvalAtoms(env: Env, fuel: nat, t: Type, n: string)
    requires fuel > 0
    ensures Eval(Literal(t), env, fuel) == Ok(Literal(t))
    ensures Eval(Free(n), env, fuel) == Ok(Free(n))
    ensures n in env ==> Eval(Variable(n), env, fuel) == Eval(env[n], env, fuel - 1)
    ensures n !in env ==> Eval(Variable(n), env, fuel) == Ok(Free(n))
  {
  }

  /** `let`: the value is evaluated in the current environment, the rest in the
      environment extended with it. */
  lemma EvalAssign(n: string, v: Expr, rest: Expr, env: Env, fuel: nat, value: Expr)
    requires Eval(v, env, fuel) == Ok(value)
    ensures Eval(Assign(n, v, rest), env, fuel + 1) == Eval(rest, With(env, n, value), fuel)
  {
  }

  /** An inner `let` of the same name shadows the outer one. */
  lemma ShadowingExample(env: Env)
    ensures Eval(Assign("x", Literal(Int(1)), Assign("x", Literal(Int(2)), Variable("x"))), env, 4)
         == Ok(Literal(Int(2)))
  {
    var inner := With(With(env, "x", Literal(Int(1))), "x", Literal(Int(2)));
    assert Eval(Variable("x"), inner, 2) == Ok(Literal(Int(2)));
  }

  /** A definition captures the definition-site environment, then evaluates
      `next` with the function's name bound to that closure. */
  lemma EvalDefnPrefix(d: PrefixDefn, env: Env, fuel: nat)
    ensures Eval(DefnPrefix(d), env, fuel + 1)
         == Eval(d.next, With(env, d.name, Literal(Prefix(env, d.params, d.body))), fuel)
    ensures d.name !in env ==> d.name !in With(env, d.name, Literal(Prefix(env, d.params, d.body)))[d.name].value.env
  {
  }

  lemma EvalDefnInfix(d: InfixDefn, env: Env, fuel: nat)
    ensures Eval(DefnInfix(d), env, fuel + 1)
         == Eval(d.next, With(env, d.name, Literal(Infix(env, d.leftName, d.body, d.rightName))), fuel)
    ensures d.name !in env ==> d.name !in With(env, d.name, Literal(Infix(env, d.leftName, d.body, d.rightName)))[d.name].value.env
  {
  }

  /** Calling something that is not a prefix closure is an error, and no
      argument is evaluated. */
  lemma PrefixCallNonPrefix(func: Expr, args: seq<Expr>, env: Env, fuel: nat, callee: Expr)
    requires Eval(func, env, fuel) == Ok(callee)
    requires !(callee.Literal? && callee.value.Prefix?)
    ensures Eval(PrefixCall(func, args), env, fuel + 1) == Err(NonPrefixCall)
  {
  }

  /** When every argument evaluates and there are at most as many as parameters,
      argument `i` is bound to parameter `i` on top of `acc`. */
  lemma {:induction false} BindArgsZips(args: seq<Expr>, names: seq<string>, acc: Env, env: Env, fuel: nat, vals: seq<Expr>)
    requires ArgsEvalTo(args, env, fuel, vals) && |args| <= |names|
    ensures BindArgs(args, names, acc, env, fuel) == Ok(Bind(acc, Zip(names[..|args|], vals)))
  {
    if args != [] {
      assert ArgsEvalTo(args[1..], env, fuel, vals[1..]) by {
        forall i | 0 <= i < |args| - 1 ensures Eval(args[1..][i], env, fuel) == Ok(vals[1..][i]) {
          assert args[1..][i] == args[i + 1];
        }
      }
      BindArgsZips(args[1..], names[1..], With(acc, names[0], vals[0]), env, fuel, vals[1..]);
      assert names[1..][..|args| - 1] == names[..|args|][1..];
      assert Zip(names[..|args|], vals)[1..] == Zip(names[1..][..|args| - 1], vals[1..]);
    }
  }

  /** When every argument evaluates but there are more arguments than
      parameters, the call fails. */
  lemma {:induction false} BindArgsTooMany(args: seq<Expr>, names: seq<string>, acc: Env, env: Env, fuel: nat, vals: seq<Expr>)
    requires ArgsEvalTo(args, env, fuel, vals) && |args| > |names|
    ensures BindArgs(args, names, acc, env, fuel) == Err(TooManyArguments)
  {
    if names != [] {
      assert ArgsEvalTo(args[1..], env, fuel, vals[1..]) by {
        forall i | 0 <= i < |args| - 1 ensures Eval(args[1..][i], env, fuel) == Ok(vals[1..][i]) {
          assert args[1..][i] == args[i + 1];
        }
      }
      BindArgsTooMany(args[1..], names[1..], With(acc, names[0], vals[0]), env, fuel, vals[1..]);
    } else {
      assert Eval(args[0], env, fuel) == Ok(vals[0]);
    }
  }

  /** A prefix call evaluates the callee, then the arguments in the caller's
      environment, and runs the body in the closure's environment extended with
      the parameters, argument by argument. */
  lemma PrefixCallEvaluatesBody(func: Expr, args: seq<Expr>, env: Env, fuel: nat,
                                clos: Env, names: seq<string>, body: Expr, vals: seq<Expr>)
    requires Eval(func, env, fuel) == Ok(Literal(Prefix(clos, names, body)))
    requires ArgsEvalTo(args, env, fuel, vals) && |args| <= |names|
    ensures Eval(PrefixCall(func, args), env, fuel + 1) == Eval(body, Bind(clos, Zip(names[..|args|], vals)), fuel)
  {
    BindArgsZips(args, names, clos, env, fuel, vals);
  }

  lemma PrefixCallTooManyArguments(func: Expr, args: seq<Expr>, env: Env, fuel: nat,
                                   clos: Env, names: seq<string>, body: Expr, vals: seq<Expr>)
    requires Eval(func, env, fuel) == Ok(Literal(Prefix(clos, names, body)))
    requires ArgsEvalTo(args, env, fuel, vals) && |args| > |names|
    ensures Eval(PrefixCall(func, args), env, fuel + 1) == Err(TooManyArguments)
  {
    BindArgsTooMany(args, names, clos, env, fuel, vals);
  }

  /** In a call with distinct parameter names, parameter `i < |vals|` holds
      argument `i`, and every other name (the later parameters among them)
      holds what the closure environment gave it, or is unbound. */
  lemma {:induction false} CallEnvironment(clos: Env, names: seq<string>, vals: seq<Expr>, n: string)
    requires |vals| <= |names|
    requires forall j, k :: 0 <= j < k < |names| ==> names[j] != names[k]
    ensures forall i :: 0 <= i < |vals| ==>
      names[i] in Bind(clos, Zip(names[..|vals|], vals)) && Bind(clos, Zip(names[..|vals|], vals))[names[i]] == vals[i]
    ensures (forall i :: 0 <= i < |vals| ==> names[i] != n) ==>
      (n in Bind(clos, Zip(names[..|vals|], vals)) <==> n in clos)
      && (n in clos ==> Bind(clos, Zip(names[..|vals|], vals))[n] == clos[n])
  {
    var pairs := Zip(names[..|vals|], vals);
    forall i | 0 <= i < |vals|
      ensures names[i] in Bind(clos, pairs) && Bind(clos, pairs)[names[i]] == vals[i]
    {
      LastBindingDistinct(pairs, i);
      BindLookup(clos, pairs, names[i]);
    }
    if forall i :: 0 <= i < |vals| ==> names[i] != n {
      LastBindingAbsent(pairs, n);
      BindLookup(clos, pairs, n);
    }
  }

  /** Infix call: the left value is bound, then the right one, on the closure
      environment; when both parameter names coincide the right operand wins. */
  lemma InfixCallRightWins(l: Expr, oper: Expr, r: Expr, env: Env, fuel: nat,
                           clos: Env, n: string, body: Expr, lv: Expr, rv: Expr)
    requires Eval(oper, env, fuel) == Ok(Literal(Infix(clos, n, body, n)))
    requires Eval(l, env, fuel) == Ok(lv) && Eval(r, env, fuel) == Ok(rv)
    ensures Eval(InfixCall(l, oper, r), env, fuel + 1) == Eval(body, With(clos, n, rv), fuel)
  {
    WithShadows(clos, n, lv, rv);
  }

  lemma InfixCallNonInfix(l: Expr, oper: Expr, r: Expr, env: Env, fuel: nat, op: Expr)
    requires Eval(oper, env, fuel) == Ok(op) && !(op.Literal? && op.value.Infix?)
    ensures Eval(InfixCall(l, oper, r), env, fuel + 1) == Err(NonInfixCall)
  {
  }

  /** `match` runs the first branch whose pattern matches, in the caller's
      environment extended with its bindings as literals. */
  lemma MatchTakesFirstBranch(against: Expr, branches: seq<(MatchPatterns, Expr)>, env: Env, fuel: nat, v: Type, k: nat)
    requires Eval(against, env, fuel) == Ok(Literal(v))
    requires k < |branches| && Matches(branches[k].0, v).Some?
    requires forall j :: 0 <= j < k ==> Matches(branches[j].0, v).None?
    ensures Eval(Match(against, branches), env, fuel + 1)
         == Eval(branches[k].1, Bind(env, AsLiterals(Matches(branches[k].0, v).value)), fuel)
  {
    SelectBranchIsFirst(branches, v, k);
  }

  lemma MatchFails(against: Expr, branches: seq<(MatchPatterns, Expr)>, env: Env, fuel: nat, s: Expr)
    requires Eval(against, env, fuel) == Ok(s)
    requires s.Literal? ==> forall j :: 0 <= j < |branches| ==> Matches(branches[j].0, s.value).None?
    ensures Eval(Match(against, branches), env, fuel + 1)
         == if s.Literal? then Err(NoMatchingBranch) else Err(NonLiteralMatch)
  {
    if s.Literal? { SelectBranchNone(branches, s.value); }
  }
}
