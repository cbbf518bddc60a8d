/** The token-tree-to-AST builder of src/lisp_to_ast.rs, over the AST revision
    it was written for: literals, variables, calls with a list of operands,
    `let` and prefix `defn`.

    A panic (a reserved word, a rejected `let` or `defn`, `match`, an index out
    of bounds) is an `Err`. Parsing a word as an `f32` is a parameter. */
module LispToAst {
  import opened Wrappers
  import opened Float32
  import opened Text
  import opened LispParse

  datatype Type =
    | Unit
    | Int(i: I32)
    | Float(f: F32)
    | Bool(b: bool)
    | Str(s: string)

  datatype Defn = Defn(name: string, params: seq<string>, body: Expr)

  datatype Expr =
    | Literal(value: Type)
    | Variable(name: string)
    | Call(func: Expr, args: seq<Expr>)
    | Assign(name: string, val: Expr, rest: Expr)
    | Defn(defn: Defn)

  datatype ToAstError =
    | ReservedKeyword(word: string)   // "Cannot use reserved keyword ..."
    | InvalidLet                      // "Invalid let statement"
    | InvalidDefn                     // "Invalid defn statement"
    | MatchUnimplemented              // `unimplemented!` for `match`
    | IndexOutOfBounds                // `operands[0]` on an empty vector

  predicate Reserved(s: string) {
    s == "let" || s == "defn" || s == "match"
  }

  // ---------------------------------------------------------------------------
  // `construct_let`

  /** The `let` form: exactly a name, a value and a body. */
  function LetForm(operands: seq<Expr>): Option<Expr> {
    if |operands| == 3 && operands[0].Variable? then
      Some(Assign(operands[0].name, operands[1], operands[2]))
    else None
  }

  /** `construct_let`, popping the body and then the value off the vector. */
  method ConstructLet(operands: seq<Expr>) returns (r: Option<Expr>)
    ensures r == LetForm(operands)
    ensures r.Some? <==> |operands| == 3 && operands[0].Variable?
  {
    if |operands| != 3 {
      return None;
    }
    var name: string;
    match operands[0] {
      case Variable(n) => name := n;
      case _ => return None;
    }
    var ops := operands;
    var into := ops[|ops| - 1];
    ops := ops[..|ops| - 1];
    var valueOf := ops[|ops| - 1];
    ops := ops[..|ops| - 1];
    return Some(Assign(name, valueOf, into));
  }

  // ---------------------------------------------------------------------------
  // `construct_defn_prefix`

  /** Some operand strictly between the name and the body is not a variable. */
  predicate BadParam(operands: seq<Expr>) {
    exists i :: 1 <= i < |operands| - 1 && !operands[i].Variable?
  }

  /** The prefix `defn` form: a name, variables for parameters, and a body.
      No operands, a non-variable parameter or a non-variable name is `None`;
      a lone body indexes an empty vector. */
  function DefnForm(operands: seq<Expr>): Result<Option<Expr>, ToAstError> {
    if |operands| == 0 then Ok(None)
    else if BadParam(operands) then Ok(None)
    else if |operands| == 1 then Err(IndexOutOfBounds)
    else if !operands[0].Variable? then Ok(None)
    else
      var params := seq(|operands| - 2, i requires 0 <= i < |operands| - 2 => operands[i + 1].name);
      Ok(Some(Expr.Defn(Defn.Defn(operands[0].name, params, operands[|operands| - 1]))))
  }

  /** `construct_defn_prefix`: pops the body, then collects the parameters in a
      loop, returning early on the first that is not a variable. */
  method ConstructDefnPrefix(operands: seq<Expr>) returns (r: Result<Option<Expr>, ToAstError>)
    ensures r == DefnForm(operands)
  {
    var ops := operands;
    if |ops| == 0 {
      return Ok(None);
    }
    var body := ops[|ops| - 1];
    ops := ops[..|ops| - 1];
    var params: seq<string> := [];
    var k := 1;
    while k < |ops|
      invariant 1 <= k && (k <= |ops| || (|ops| == 0 && k == 1))
      invariant |params| == k - 1
      invariant forall j :: 1 <= j < k ==> ops[j].Variable? && params[j - 1] == ops[j].name
    {
      match ops[k] {
        case Variable(name) => params := params + [name];
        case _ =>
          assert BadParam(operands) by { assert !operands[k].Variable?; }
          return Ok(None);
      }
      k := k + 1;
    }
    assert !BadParam(operands);
    if |ops| == 0 {
      return Err(IndexOutOfBounds);
    }
    match ops[0] {
      case Variable(name) =>
        assert params == seq(|operands| - 2, i requires 0 <= i < |operands| - 2 => operands[i + 1].name);
        return Ok(Some(Expr.Defn(Defn.Defn(name, params, body))));
      case _ => return Ok(None);
    }
  }

  // ---------------------------------------------------------------------------
  // `Token::to_ast`

  /** A word on its own: keywords are errors, then booleans, `i32`, `f32`, a
      parenthesised string, and otherwise a variable, tried in that order. */
  function WordToAst(s: string, parseF32: F32Parser): Result<Expr, ToAstError> {
    if Reserved(s) then Err(ReservedKeyword(s))
    else if s == "true" then Ok(Literal(Bool(true)))
    else if s == "false" then Ok(Literal(Bool(false)))
    else if ParseI32(s).Some? then Ok(Literal(Int(ParseI32(s).value)))
    else if parseF32(s).Some? then Ok(Literal(Float(parseF32(s).value)))
    else if StartsWith(s, '(') && EndsWith(s, ')') then Ok(Literal(Str(s)))
    else Ok(Variable(s))
  }

  /** `Token::to_ast`. The operands after the head are converted first, in
      order; only then is the head looked at. */
  function ToAst(t: Token, parseF32: F32Parser): Result<Expr, ToAstError>
    decreases t, 1
  {
    match t
    case Word(s) => WordToAst(s, parseF32)
    case Group(ts) =>
      if |ts| == 0 then Ok(Literal(Unit))
      else
        var operands :- CollectResults(Operands(ts, parseF32));
        match ts[0]
        case Word(spec) => WordHead(spec, operands)
        case Group(_) =>
          var head :- ToAst(ts[0], parseF32);
          Ok(Call(head, operands))
  }

  /** A group headed by the word `spec`, once its operands are converted. */
  function WordHead(spec: string, operands: seq<Expr>): Result<Expr, ToAstError> {
    if spec == "let" then
      (match LetForm(operands)
       case None => Err(InvalidLet)
       case Some(e) => Ok(e))
    else if spec == "defn" then
      var d :- DefnForm(operands);
      (match d
       case None => Err(InvalidDefn)
       case Some(e) => Ok(e))
    else if spec == "match" then Err(MatchUnimplemented)
    else Ok(Call(Variable(spec), operands))
  }

  /** The parts of a group after its head, each converted, in order. */
  function Operands(ts: seq<Token>, parseF32: F32Parser): seq<Result<Expr, ToAstError>>
    requires |ts| >= 1
    decreases Group(ts), 0
  {
    seq(|ts| - 1, i requires 0 <= i < |ts| - 1 => ToAst(ts[i + 1], parseF32))
  }

  // ---------------------------------------------------------------------------
  // Properties

  /** How a word is classified, case by case; an `i32` wins over an `f32`. */
  lemma WordClassification(s: string, parseF32: F32Parser)
    ensures Reserved(s) ==> ToAst(Word(s), parseF32) == Err(ReservedKeyword(s))
    ensures ToAst(Word("true"), parseF32) == Ok(Literal(Bool(true)))
    ensures ToAst(Word("false"), parseF32) == Ok(Literal(Bool(false)))
    ensures !Reserved(s) && s != "true" && s != "false" && ParseI32(s).Some? ==>
      ToAst(Word(s), parseF32) == Ok(Literal(Int(ParseI32(s).value)))
    ensures !Reserved(s) && s != "true" && s != "false" && ParseI32(s).None? && parseF32(s).Some? ==>
      ToAst(Word(s), parseF32) == Ok(Literal(Float(parseF32(s).value)))
    ensures !Reserved(s) && s != "true" && s != "false" && ParseI32(s).None? && parseF32(s).None?
            && StartsWith(s, '(') && EndsWith(s, ')') ==>
      ToAst(Word(s), parseF32) == Ok(Literal(Str(s)))
    ensures !Reserved(s) && s != "true" && s != "false" && ParseI32(s).None? && parseF32(s).None?
            && !(StartsWith(s, '(') && EndsWith(s, ')')) ==>
      ToAst(Word(s), parseF32) == Ok(Variable(s))
    ensures ToAst(Word(s), parseF32).Ok? && ToAst(Word(s), parseF32).value.Literal?
              && ToAst(Word(s), parseF32).value.value.Str? ==>
      StartsWith(s, '(') && EndsWith(s, ')') && ToAst(Word(s), parseF32).value.value.s == s
    ensures ToAst(Word(s), parseF32).Ok? && ToAst(Word(s), parseF32).value.Variable? ==>
      ToAst(Word(s), parseF32).value.name == s && !Reserved(s) && ParseI32(s).None? && parseF32(s).None?
    ensures ToAst(Word(s), parseF32).Err? <==> Reserved(s)
  {
  }

  /** The operands of a group are its parts after the head. */
  lemma OperandsOf(head: Token, rest: seq<Token>, parseF32: F32Parser)
    ensures |Operands([head] + rest, parseF32)| == |rest|
    ensures forall k :: 0 <= k < |rest| ==> Operands([head] + rest, parseF32)[k] == ToAst(rest[k], parseF32)
  {
    var ts := [head] + rest;
    forall k | 0 <= k < |rest|
      ensures Operands(ts, parseF32)[k] == ToAst(rest[k], parseF32)
    {
      assert ts[k + 1] == rest[k];
    }
  }

  /** A group headed by a word whose operands all convert is that word's form
      over the converted operands. */
  lemma WordHeadGroup(w: string, rest: seq<Token>, parseF32: F32Parser)
    requires forall i :: 0 <= i < |rest| ==> ToAst(rest[i], parseF32).Ok?
    ensures CollectResults(Operands([Word(w)] + rest, parseF32)).Ok?
    ensures var operands := CollectResults(Operands([Word(w)] + rest, parseF32)).value;
      && |operands| == |rest|
      && (forall i :: 0 <= i < |rest| ==> ToAst(rest[i], parseF32) == Ok(operands[i]))
      && ToAst(Group([Word(w)] + rest), parseF32) == WordHead(w, operands)
  {
    OperandsOf(Word(w), rest, parseF32);
  }

  /** The first operand that fails makes the whole group fail with its error,
      whatever the head is. */
  lemma OperandErrorWins(head: Token, rest: seq<Token>, parseF32: F32Parser, i: nat)
    requires i < |rest| && ToAst(rest[i], parseF32).Err?
    requires forall j :: 0 <= j < i ==> ToAst(rest[j], parseF32).Ok?
    ensures ToAst(Group([head] + rest), parseF32) == ToAst(rest[i], parseF32)
  {
    OperandsOf(head, rest, parseF32);
    CollectFirstError(Operands([head] + rest, parseF32), i);
  }

  /** A group headed by a word that is no keyword is a call of that variable
      on the operands, in order. */
  lemma CallOfWord(w: string, rest: seq<Token>, parseF32: F32Parser)
    requires !Reserved(w)
    requires forall i :: 0 <= i < |rest| ==> ToAst(rest[i], parseF32).Ok?
    ensures ToAst(Group([Word(w)] + rest), parseF32).Ok?
    ensures var e := ToAst(Group([Word(w)] + rest), parseF32).value;
      e.Call? && e.func == Variable(w) && |e.args| == |rest|
      && forall i :: 0 <= i < |rest| ==> ToAst(rest[i], parseF32) == Ok(e.args[i])
  {
    WordHeadGroup(w, rest, parseF32);
  }

  /** A group headed by a group is a call of the converted head. */
  lemma CallOfGroup(h: seq<Token>, rest: seq<Token>, parseF32: F32Parser)
    requires forall i :: 0 <= i < |rest| ==> ToAst(rest[i], parseF32).Ok?
    requires ToAst(Group(h), parseF32).Ok?
    ensures ToAst(Group([Group(h)] + rest), parseF32).Ok?
    ensures var e := ToAst(Group([Group(h)] + rest), parseF32).value;
      e.Call? && Ok(e.func) == ToAst(Group(h), parseF32) && |e.args| == |rest|
      && forall i :: 0 <= i < |rest| ==> ToAst(rest[i], parseF32) == Ok(e.args[i])
  {
    OperandsOf(Group(h), rest, parseF32);
  }

  /** `(let x v b)` is `Assign(x, v, b)` exactly when there are three operands
      and the first converts to a variable; otherwise it is an invalid `let`. */
  lemma LetGroup(rest: seq<Token>, parseF32: F32Parser)
    requires forall i :: 0 <= i < |rest| ==> ToAst(rest[i], parseF32).Ok?
    ensures var r := ToAst(Group([Word("let")] + rest), parseF32);
      (r.Ok? <==> |rest| == 3 && ToAst(rest[0], parseF32).value.Variable?)
      && (r.Ok? ==> r.value == Assign(ToAst(rest[0], parseF32).value.name,
                                     ToAst(rest[1], parseF32).value, ToAst(rest[2], parseF32).value))
      && (r.Err? ==> r.error == InvalidLet)
  {
    WordHeadGroup("let", rest, parseF32);
  }

  /** `(defn f a b body)` defines `f` with parameters `a b`; a single operand
      is an index error; a non-variable name or parameter is an invalid `defn`. */
  lemma DefnGroup(rest: seq<Token>, parseF32: F32Parser)
    requires forall i :: 0 <= i < |rest| ==> ToAst(rest[i], parseF32).Ok?
    ensures var r := ToAst(Group([Word("defn")] + rest), parseF32);
      && (|rest| == 0 ==> r == Err(InvalidDefn))
      && (|rest| == 1 ==> r == Err(IndexOutOfBounds))
      && (r.Ok? ==>
            && |rest| >= 2 && r.value.Defn?
            && Ok(Variable(r.value.defn.name)) == ToAst(rest[0], parseF32)
            && |r.value.defn.params| == |rest| - 2
            && (forall i :: 0 <= i < |rest| - 2 ==>
                  ToAst(rest[i + 1], parseF32) == Ok(Variable(r.value.defn.params[i])))
            && Ok(r.value.defn.body) == ToAst(rest[|rest| - 1], parseF32))
      && (|rest| >= 2 && !ToAst(rest[0], parseF32).value.Variable? ==> r == Err(InvalidDefn))
      && ((exists i :: 1 <= i < |rest| - 1 && !ToAst(rest[i], parseF32).value.Variable?) ==> r == Err(InvalidDefn))
      && ((|rest| >= 2 && ToAst(rest[0], parseF32).value.Variable?
           && forall i :: 1 <= i < |rest| - 1 ==> ToAst(rest[i], parseF32).value.Variable?) ==> r.Ok?)
  {
    WordHeadGroup("defn", rest, parseF32);
    var operands := CollectResults(Operands([Word("defn")] + rest, parseF32)).value;
    assert forall i :: 0 <= i < |rest| ==> ToAst(rest[i], parseF32).value == operands[i];
    DefnFormCases(operands);
    if exists i :: 1 <= i < |rest| - 1 && !ToAst(rest[i], parseF32).value.Variable? {
      assert BadParam(operands);
    }
  }

  /** What `construct_defn_prefix` gives back, case by case. */
  lemma DefnFormCases(operands: seq<Expr>)
    ensures |operands| == 0 ==> DefnForm(operands) == Ok(None)
    ensures |operands| == 1 ==> DefnForm(operands) == Err(IndexOutOfBounds)
    ensures |operands| >= 2 && !operands[0].Variable? ==> DefnForm(operands) == Ok(None)
    ensures BadParam(operands) ==> DefnForm(operands) == Ok(None)
    ensures DefnForm(operands).Ok? && DefnForm(operands).value.Some? ==>
      var e := DefnForm(operands).value.value;
      && e.Defn? && |operands| >= 2 && operands[0] == Variable(e.defn.name)
      && |e.defn.params| == |operands| - 2
      && (forall i :: 0 <= i < |operands| - 2 ==> operands[i + 1] == Variable(e.defn.params[i]))
      && e.defn.body == operands[|operands| - 1]
    ensures |operands| >= 2 && operands[0].Variable?
            && (forall i :: 1 <= i < |operands| - 1 ==> operands[i].Variable?) ==>
      DefnForm(operands).Ok? && DefnForm(operands).value.Some?
  {
  }

  /** `match` is not implemented; the empty group is the unit literal. */
  lemma MatchGroup(rest: seq<Token>, parseF32: F32Parser)
    requires forall i :: 0 <= i < |rest| ==> ToAst(rest[i], parseF32).Ok?
    ensures ToAst(Group([Word("match")] + rest), parseF32) == Err(MatchUnimplemented)
    ensures ToAst(Group([]), parseF32) == Ok(Literal(Unit))
  {
    WordHeadGroup("match", rest, parseF32);
  }

  // ---------------------------------------------------------------------------
  // Parser output never yields a string literal

  /** The expression holds no `Str` literal. */
  predicate NoStr(e: Expr) {
    match e
    case Literal(v) => !v.Str?
    case Variable(_) => true
    case Call(f, args) => NoStr(f) && forall i :: 0 <= i < |args| ==> NoStr(args[i])
    case Assign(_, v, r) => NoStr(v) && NoStr(r)
    case Defn(d) => NoStr(d.body)
  }

  lemma {:induction false} GoodTreeNoStr(t: Token, parseF32: F32Parser)
    requires GoodTree(t) && ToAst(t, parseF32).Ok?
    ensures NoStr(ToAst(t, parseF32).value)
    decreases t
  {
    match t
    case Word(s) =>
      assert !StartsWith(s, '(') by { assert !Delimiter(s[0]); }
      BareWordNoStr(s, parseF32);
    case Group(ts) =>
      if |ts| > 0 {
        forall i | 0 <= i < |ts| && ToAst(ts[i], parseF32).Ok? ensures NoStr(ToAst(ts[i], parseF32).value) {
          GoodTreeNoStr(ts[i], parseF32);
        }
        GroupNoStr(ts, parseF32);
      }
  }

  /** A group's result holds a `Str` only if one of its parts does. */
  lemma GroupNoStr(ts: seq<Token>, parseF32: F32Parser)
    requires |ts| > 0 && ToAst(Group(ts), parseF32).Ok?
    requires forall i :: 0 <= i < |ts| && ToAst(ts[i], parseF32).Ok? ==> NoStr(ToAst(ts[i], parseF32).value)
    ensures NoStr(ToAst(Group(ts), parseF32).value)
  {
    var rs := Operands(ts, parseF32);
    var operands := CollectResults(rs).value;
    forall i | 0 <= i < |operands| ensures NoStr(operands[i]) {
      assert rs[i] == ToAst(ts[i + 1], parseF32) == Ok(operands[i]);
    }
    var r := ToAst(Group(ts), parseF32);
    match ts[0]
    case Word(spec) =>
      assert r == WordHead(spec, operands);
      WordHeadNoStr(spec, operands);
    case Group(_) =>
      assert r.value == Call(ToAst(ts[0], parseF32).value, operands);
  }

  /** The word forms build their result from the operands alone. */
  lemma WordHeadNoStr(spec: string, operands: seq<Expr>)
    requires forall i :: 0 <= i < |operands| ==> NoStr(operands[i])
    ensures WordHead(spec, operands).Ok? ==> NoStr(WordHead(spec, operands).value)
  {
    if spec == "defn" {
      DefnFormCases(operands);
    }
  }

  /** A string literal needs a word that starts with `(` and ends with `)`, and
      the tokenizer never makes one: a word it puts in a group holds no paren,
      and a bare word is only returned when the input does not start with `(`.
      So the `Str` case is unreachable from parsed text. */
  lemma ParsedNeverStr(body: string, parseF32: F32Parser)
    requires ParseSpec(body).Ok? && ToAst(ParseSpec(body).value, parseF32).Ok?
    ensures NoStr(ToAst(ParseSpec(body).value, parseF32).value)
  {
    var t := ParseSpec(body).value;
    ParseSpecProperties(body);
    if StartsWith(Trim(body), '(') {
      GoodTreeNoStr(t, parseF32);
    } else {
      assert t == Word(Trim(body));
      BareWordNoStr(Trim(body), parseF32);
    }
  }

  lemma BareWordNoStr(s: string, parseF32: F32Parser)
    requires !StartsWith(s, '(') && ToAst(Word(s), parseF32).Ok?
    ensures NoStr(ToAst(Word(s), parseF32).value)
  {
  }
}
