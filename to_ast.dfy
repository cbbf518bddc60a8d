/** The token-tree-to-AST builder of src/to_ast.rs, over the AST revision it
    was written for: values, variables, `let`, `defn` with singular and rest
    parameters, `if`, and calls.

    A panic or an `unimplemented!` is an `Err`. Parsing a word as an `f32` is a
    parameter. The debug print at the top of `to_ast` is not modelled. */
module ToAst {
  import opened Wrappers
  import opened Float32
  import opened Text
  import opened LispParse

  datatype Type =
    | Unit
    | Number(n: F32)
    | Str(s: string)
    | List(list: List)

  datatype List = End | Cons(head: Type, tail: List)

  datatype ParamType = Singular(name: string) | Rest(name: string)

  datatype Defn = Defn(name: string, params: seq<ParamType>, body: Expr)

  datatype Expr =
    | Value(v: Type)
    | Variable(name: string)
    | Assign(name: string, val: Expr, body: Expr)
    | Defn(defn: Defn)
    | If(cond: Expr, pred: Expr, fallback: Expr)
    | Call(func: Expr, args: seq<Expr>)

  datatype ToAstError =
    | ReservedKeyword          // "Reserved keyword used"
    | MustAssignToName         // "Must assign to name"
    | LetUnimplemented         // `unimplemented!` for a three-element `let`
    | InvalidLet               // "Invalid let statement, must have 2-3 operands"
    | OnlyStringParams         // "Can only have string params"
    | GroupHeadUnimplemented   // `unimplemented!` for a group in head position

  predicate Reserved(s: string) {
    s == "let" || s == "defn" || s == "if"
  }

  /** A word on its own: keywords are errors, then the empty list, an `f32`, a
      `"`-delimited string kept with its quotes, and otherwise a variable. */
  function WordToAst(s: string, parseF32: F32Parser): Result<Expr, ToAstError> {
    if Reserved(s) then Err(ReservedKeyword)
    else if s == "[]" then Ok(Value(List(End)))
    else if parseF32(s).Some? then Ok(Value(Number(parseF32(s).value)))
    else if StartsWith(s, '"') && EndsWith(s, '"') then Ok(Value(Str(s)))
    else Ok(Variable(s))
  }

  /** What a parameter word means: `&x` collects the rest into `x`. */
  function ParamOf(s: string): ParamType {
    if StartsWith(s, '&') then Rest(s[1..]) else Singular(s)
  }

  /** A parameter position: only words are allowed. */
  function Param(t: Token): Result<ParamType, ToAstError> {
    match t
    case Word(s) => Ok(ParamOf(s))
    case Group(_) => Err(OnlyStringParams)
  }

  /** The parameters in order, or the first that is not a word. */
  function Params(ts: seq<Token>): (r: Result<seq<ParamType>, ToAstError>)
    ensures r.Ok? <==> forall i :: 0 <= i < |ts| ==> ts[i].Word?
    ensures r.Ok? ==> |r.value| == |ts| && forall i :: 0 <= i < |ts| ==> r.value[i] == ParamOf(ts[i].w)
    ensures r.Err? ==> r.error == OnlyStringParams
  {
    var ps := seq(|ts|, i requires 0 <= i < |ts| => Param(ts[i]));
    var r := CollectResults(ps);
    assert forall i :: 0 <= i < |ts| ==> (ps[i].Ok? <==> ts[i].Word?);
    assert r.Err? ==> r.error == OnlyStringParams by {
      if r.Err? {
        var i :| 0 <= i < |ps| && ps[i] == Err(r.error);
      }
    }
    r
  }

  /** `Token::to_ast`. */
  function ToAst(t: Token, parseF32: F32Parser): Result<Expr, ToAstError>
    decreases t, 1
  {
    match t
    case Word(s) => WordToAst(s, parseF32)
    case Group(g) =>
      if |g| == 0 then Ok(Value(Unit))
      else match g[0]
        case Group(_) => Err(GroupHeadUnimplemented)
        case Word(s) =>
          if s == "let" then
            if |g| == 4 then
              if g[1].Word? then
                var val :- ToAst(g[2], parseF32);
                var body :- ToAst(g[3], parseF32);
                Ok(Assign(g[1].w, val, body))
              else Err(MustAssignToName)
            else if |g| == 3 then Err(LetUnimplemented)
            else Err(InvalidLet)
          else if s == "defn" then
            if |g| < 2 || !g[1].Word? then Err(MustAssignToName)
            else
              var body :- ToAst(g[|g| - 1], parseF32);
              // g[0..len-1] without g[0]: the name is the first parameter
              var params :- Params(g[1..|g| - 1]);
              Ok(Expr.Defn(Defn.Defn(g[1].w, params, body)))
          else if s == "if" then
            // `If` is built from `g[0]` first, and that is the reserved word
            (match ToAst(g[0], parseF32)
             case Err(e) => Err(e)
             case Ok(_) => Err(ReservedKeyword))
          else
            var args :- CollectResults(Operands(g, parseF32));
            Ok(Call(Variable(s), args))
  }

  /** The elements of a group after its head, each converted, in order. */
  function Operands(g: seq<Token>, parseF32: F32Parser): seq<Result<Expr, ToAstError>>
    requires |g| >= 1
    decreases Group(g), 0
  {
    seq(|g| - 1, i requires 0 <= i < |g| - 1 => ToAst(g[i + 1], parseF32))
  }

  // ---------------------------------------------------------------------------
  // Properties

  /** How a word is classified, case by case; `[]` is tried before `f32`. */
  lemma WordClassification(s: string, parseF32: F32Parser)
    ensures ToAst(Word(s), parseF32).Err? <==> Reserved(s)
    ensures ToAst(Word(s), parseF32).Err? ==> ToAst(Word(s), parseF32).error == ReservedKeyword
    ensures ToAst(Word("[]"), parseF32) == Ok(Value(List(End)))
    ensures !Reserved(s) && s != "[]" && parseF32(s).Some? ==>
      ToAst(Word(s), parseF32) == Ok(Value(Number(parseF32(s).value)))
    ensures !Reserved(s) && s != "[]" && parseF32(s).None? && StartsWith(s, '"') && EndsWith(s, '"') ==>
      ToAst(Word(s), parseF32) == Ok(Value(Str(s)))
    ensures !Reserved(s) && s != "[]" && parseF32(s).None? && !(StartsWith(s, '"') && EndsWith(s, '"')) ==>
      ToAst(Word(s), parseF32) == Ok(Variable(s))
    ensures ToAst(Word(s), parseF32).Ok? && ToAst(Word(s), parseF32).value.Value?
              && ToAst(Word(s), parseF32).value.v.Str? ==>
      StartsWith(s, '"') && EndsWith(s, '"') && ToAst(Word(s), parseF32).value.v.s == s
    ensures ToAst(Word(s), parseF32).Ok? && ToAst(Word(s), parseF32).value.Variable? ==>
      ToAst(Word(s), parseF32).value.name == s && !Reserved(s) && s != "[]" && parseF32(s).None?
      && !(StartsWith(s, '"') && EndsWith(s, '"'))
  {
  }

  /** `&x` is a rest parameter `x`; every other word is a singular one. */
  lemma ParamNames(s: string)
    ensures ParamOf("&" + s) == Rest(s)
    ensures !StartsWith(s, '&') ==> ParamOf(s) == Singular(s)
  {
    assert ("&" + s)[1..] == s;
  }

  /** A four-element `let` with a word in second place binds that word, and
      an error converting the value or the body is the result; three elements
      are not implemented; every other length is an error. */
  lemma LetGroup(g: seq<Token>, parseF32: F32Parser)
    requires |g| >= 1 && g[0] == Word("let")
    ensures |g| == 4 && g[1].Word? && ToAst(g[2], parseF32).Ok? && ToAst(g[3], parseF32).Ok? ==>
      ToAst(Group(g), parseF32)
        == Ok(Assign(g[1].w, ToAst(g[2], parseF32).value, ToAst(g[3], parseF32).value))
    ensures |g| == 4 && g[1].Word? && ToAst(g[2], parseF32).Err? ==>
      ToAst(Group(g), parseF32) == ToAst(g[2], parseF32)
    ensures |g| == 4 && g[1].Word? && ToAst(g[2], parseF32).Ok? && ToAst(g[3], parseF32).Err? ==>
      ToAst(Group(g), parseF32) == ToAst(g[3], parseF32)
    ensures |g| == 4 && g[1].Group? ==> ToAst(Group(g), parseF32) == Err(MustAssignToName)
    ensures |g| == 3 ==> ToAst(Group(g), parseF32) == Err(LetUnimplemented)
    ensures |g| != 3 && |g| != 4 ==> ToAst(Group(g), parseF32) == Err(InvalidLet)
    ensures ToAst(Group(g), parseF32).Ok? ==> ToAst(Group(g), parseF32).value.Assign?
  {
  }

  /** A `defn` group names the function after its second element, takes the
      last element as the body, and makes every element between `defn` and the
      body a parameter, so the function's own name is its first parameter. */
  lemma DefnGroup(g: seq<Token>, parseF32: F32Parser)
    requires |g| >= 1 && g[0] == Word("defn")
    ensures (|g| == 1 || g[1].Group?) ==> ToAst(Group(g), parseF32) == Err(MustAssignToName)
    ensures |g| >= 2 && g[1].Word? && ToAst(g[|g| - 1], parseF32).Err? ==>
      ToAst(Group(g), parseF32) == ToAst(g[|g| - 1], parseF32)
    ensures var r := ToAst(Group(g), parseF32);
      r.Ok? ==>
        && |g| >= 2 && g[1].Word? && r.value.Defn?
        && r.value.defn.name == g[1].w
        && Ok(r.value.defn.body) == ToAst(g[|g| - 1], parseF32)
        && |r.value.defn.params| == |g| - 2
        && (forall i :: 1 <= i < |g| - 1 ==> g[i].Word? && r.value.defn.params[i - 1] == ParamOf(g[i].w))
        && (|g| >= 3 ==> r.value.defn.params[0] == ParamOf(r.value.defn.name))
    ensures |g| >= 2 && g[1].Word? && ToAst(g[|g| - 1], parseF32).Ok?
            && (exists i :: 1 <= i < |g| - 1 && g[i].Group?) ==>
      ToAst(Group(g), parseF32) == Err(OnlyStringParams)
    ensures |g| >= 2 && g[1].Word? && ToAst(g[|g| - 1], parseF32).Ok?
            && (forall i :: 1 <= i < |g| - 1 ==> g[i].Word?) ==>
      ToAst(Group(g), parseF32).Ok?
  {
    if |g| >= 2 && g[1].Word? {
      var ps := Params(g[1..|g| - 1]);
      assert forall i :: 1 <= i < |g| - 1 ==> g[1..|g| - 1][i - 1] == g[i];
    }
  }

  /** Every `if` group fails: the condition is converted from `g[0]`, which is
      the reserved word `if` itself. */
  lemma IfGroupFails(g: seq<Token>, parseF32: F32Parser)
    requires |g| >= 1 && g[0] == Word("if")
    ensures ToAst(Group(g), parseF32) == Err(ReservedKeyword)
  {
  }

  /** The operands of a group are its elements after the head. */
  lemma OperandsOf(head: Token, rest: seq<Token>, parseF32: F32Parser)
    ensures |Operands([head] + rest, parseF32)| == |rest|
    ensures forall k :: 0 <= k < |rest| ==> Operands([head] + rest, parseF32)[k] == ToAst(rest[k], parseF32)
  {
    var g := [head] + rest;
    forall k | 0 <= k < |rest|
      ensures Operands(g, parseF32)[k] == ToAst(rest[k], parseF32)
    {
      assert g[k + 1] == rest[k];
    }
  }

  /** A call of `w` on collected arguments. */
  function CallOf(w: string, args: Result<seq<Expr>, ToAstError>): Result<Expr, ToAstError> {
    match args
    case Ok(a) => Ok(Call(Variable(w), a))
    case Err(e) => Err(e)
  }

  lemma CallShape(w: string, rest: seq<Token>, parseF32: F32Parser)
    requires !Reserved(w)
    ensures ToAst(Group([Word(w)] + rest), parseF32) == CallOf(w, CollectResults(Operands([Word(w)] + rest, parseF32)))
  {
    var g := [Word(w)] + rest;
    assert g[0] == Word(w);
  }

  /** A group headed by any other word is a call of that variable on the
      remaining elements, in order. The first element that fails decides the
      error (`CallGroupError`). */
  lemma CallGroup(w: string, rest: seq<Token>, parseF32: F32Parser)
    requires !Reserved(w)
    requires forall i :: 0 <= i < |rest| ==> ToAst(rest[i], parseF32).Ok?
    ensures var r := ToAst(Group([Word(w)] + rest), parseF32);
      && r.Ok? && r.value.Call? && r.value.func == Variable(w) && |r.value.args| == |rest|
      && forall i :: 0 <= i < |rest| ==> ToAst(rest[i], parseF32) == Ok(r.value.args[i])
  {
    CallShape(w, rest, parseF32);
    OperandsOf(Word(w), rest, parseF32);
    var c := CollectResults(Operands([Word(w)] + rest, parseF32));
    assert c.Ok?;
  }

  lemma CallGroupError(w: string, rest: seq<Token>, parseF32: F32Parser, i: nat)
    requires !Reserved(w)
    requires i < |rest| && ToAst(rest[i], parseF32).Err?
    requires forall j :: 0 <= j < i ==> ToAst(rest[j], parseF32).Ok?
    ensures ToAst(Group([Word(w)] + rest), parseF32) == ToAst(rest[i], parseF32)
  {
    CallShape(w, rest, parseF32);
    OperandsOf(Word(w), rest, parseF32);
    CollectFirstError(Operands([Word(w)] + rest, parseF32), i);
  }

  /** A group in head position is not implemented. */
  lemma GroupHead(h: seq<Token>, rest: seq<Token>, parseF32: F32Parser)
    ensures ToAst(Group([Group(h)] + rest), parseF32) == Err(GroupHeadUnimplemented)
    ensures ToAst(Group([]), parseF32) == Ok(Value(Unit))
  {
  }
}
