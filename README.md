# A Dafny model of the `proof` Lisp interpreter core

`proof` is a small Lisp-like language written in Rust. Its source holds several
revisions that do not compile together. `src/ast.rs`, `src/eval2.rs`,
`src/lisp_to_ast.rs` and `src/to_ast.rs` each assume their own `Expr` and
`Type`. The model therefore gives each core file its own module with its own
datatypes, following that file:

| module | file | what it is |
|---|---|---|
| `Ast` | `ast.dfy` | the map-environment evaluator of `src/ast.rs`: prefix and infix closures, `let`, first-match `match`, structural equality, `do_match`, `MatchPatterns::matches`, `env_with` |
| `Eval2` | `eval2.dfy` | the linked-environment evaluator of `src/eval2.rs`: `Env::with`, `Env::lookup`, `If`, closures, and the quirky `Call` |
| `Equals` | `equals.dfy` | the structural equality of `src/equals.rs`, the revision with a `Free` variant |
| `LispParse` | `lisp_parse.dfy` | the tokenizer of `src/lisp_parse.rs`: `Token`, `add_next`, `init_group`, `parse` |
| `LispToAst` | `lisp_to_ast.dfy` | `Token::to_ast`, `construct_let` and `construct_defn_prefix` of `src/lisp_to_ast.rs` |
| `ToAst` | `to_ast.dfy` | `Token::to_ast` of `src/to_ast.rs` |
| `Interpreter`, `Risp` | `interpreter.dfy`, `risp.dfy` | the two copies of `has_matching_parens` |
| `Labels` | `labels.dfy` | the label `Counter` of `src/compile/labels.rs` |
| `Runtime` | `runtime.dfy` | the tag constants and `print_res` of `src/compile/runtime_test/runtime.c` |
| `Wrappers`, `Float32`, `Text` | `wrappers.dfy`, `float32.dfy`, `text.dfy` | `Option`/`Result`; `f32` as its 32 bits with IEEE `==`; the Rust standard-library text routines the core calls |

How the source's constructs are modelled:

- **Panics.** A panic, an `expect` failure, an out-of-bounds index or an `unimplemented!` becomes an `Err`. Its kind is named after the message of the panic, as `ExtraRightParens` for "Extra right parens". The one panic whose message depends on the build profile is described under `LispParse.Step` in "Left out". Evaluation, tokenizing and AST building all return `Result`.
- **Fuel.** Both evaluators can diverge, for example when a closure applies itself. `Ast.Eval` and `Eval2.Eval` therefore take a fuel bound and report `OutOfFuel` when it runs out. `EvalMonotone` proves that fuel is only a bound: an outcome reached with some fuel stays the same with more.
- **Order of evaluation.** An operand list becomes a `seq` of results, and `Wrappers.CollectResults` keeps the first error in order. That error is the first panic of the source.
- **Host values.** `f32` is an IEEE single held as `bv32`. Equality follows IEEE rules: NaN equals nothing, and `+0` equals `-0`. Parsing a word as an `f32` is a parameter `parseF32` of both AST builders; `i32` parsing is modelled exactly. `RustClosure` is known only by an identity number.
- **State.** `env_with`, `construct_defn_prefix`, `parse` and `has_matching_parens` change local state step by step in a loop, so they are methods with loops. `construct_let` pops its operands off a vector in straight-line code, so it is a method without a loop. Each is proved equal to a specification function, or to a property, and lemmas about those state what the source promises. `Counter` is a class with a mutable `count`. Everything else is functions and lemmas.
- **Machine words.** `print_res` takes an unsigned 32-bit word, modelled as an integer in `[0, 2^32)`. A mask `2^k - 1` is `%`, a right shift is a division, and `(int)x >> 2` is floor division of the two's-complement reading.

The model follows the code, including where its behaviour is surprising:

- In `src/eval2.rs`, `Call` ignores its operands and the closure's captured environment. It runs the body in the caller's environment, with the function's name bound to its own body.
- In `src/ast.rs`, an unbound variable evaluates to `Free(name)`, not to an error.
- In `src/to_ast.rs`:
  - a `let` needs four elements counting the head;
  - a three-element `let` is `unimplemented!`;
  - every `if` group fails, because it converts the keyword `g[0]`;
  - a `defn`'s parameter list starts with the function's own name;
  - a group in head position is `unimplemented!`.
- In `src/lisp_parse.rs`:
  - `(` does not flush the pending word, so `(a(b))` holds the word `ab`;
  - a word still pending at the end of the input is dropped.
- In `src/lisp_to_ast.rs`, the operands are converted before the head is examined, so an error in an operand wins over a malformed `let` or `defn`.
- In `src/equals.rs`, a `Free` value equals a `Free` value with an equal payload.

## Model

| member | source | states |
|---|---|---|
| Wrappers.CollectResults | src/lisp_to_ast.rs:22 | collecting converted operands succeeds iff every one succeeded, with the values in order; otherwise the error is that of the first failure |
| Wrappers.CollectFirstError | src/lisp_to_ast.rs:22 | when every result before position `i` is `Ok` and result `i` is an error, collecting returns exactly that error |
| Float32.EqSymmetric | src/equals.rs:8 | `f32 ==` is symmetric |
| Float32.EqReflexive | src/equals.rs:8 | an `f32` equals itself iff it is not NaN |
| Float32.EqTransitive | src/equals.rs:8 | `f32 ==` is transitive |
| Float32.NaNIsNotSelfEqual | src/equals.rs:8 | the quiet NaN is NaN and unequal to itself |
| Float32.ZerosAreEqual | src/equals.rs:8 | `+0.0 == -0.0` although their bits differ |
| Text.TrimStart | src/lisp_parse.rs:22 | the result is a suffix of the input; everything dropped is whitespace; the result does not start with whitespace |
| Text.TrimEnd | src/lisp_parse.rs:22 | the result is a prefix of the input; everything dropped is whitespace; the result does not end with whitespace |
| Text.ParseI32Examples | src/lisp_to_ast.rs:14 | `"3"`, `"-3"` and `"+7"` parse as `i32`; `"-"`, `""` and `"1a"` do not |
| Text.ParseI32Limits | src/lisp_to_ast.rs:14 | `"-2147483648"` parses to `i32::MIN`; `"2147483648"` is out of range and does not parse |
| Text.ParseI32 | src/lisp_to_ast.rs:14 | no contract of its own; characterised by `ParseI32Examples`, `ParseI32Limits`, `MinMagnitude` and `HighDigits` |
| Text.Trim | src/lisp_parse.rs:22 | no contract of its own; it is `TrimEnd` after `TrimStart`, whose contracts characterise it |
| Text.IsWhitespace | src/lisp_parse.rs:44-45 | no contract of its own; the Unicode `White_Space` characters that `char::is_whitespace` accepts |
| Equals.Equals | src/equals.rs:4-17 | no contract of its own; characterised by `EqualsByVariant`, `EqualsSymmetric`, `EqualsReflexive` and `NaNBreaksReflexivity` |
| Equals.ListEquals | src/equals.rs:21-28 | no contract of its own; characterised by `ListEqualsByVariant`, `ListEqualsSymmetric`, `ListEqualsReflexive` and `ListEqualsSameLength` |
| Equals.EqualsByVariant | src/equals.rs:4-17 | `Unit` equals only `Unit`; `Int`, `Float`, `Bool` and `Str` equal only the same variant with an equal payload; tuples are equal iff both components are; lists are equal iff `List::equals` holds of them; `Free` equals `Free` iff the payloads are equal; a function value equals nothing |
| Equals.ListEqualsByVariant | src/equals.rs:21-28 | `End` equals only `End`; `Cons` equals `Cons` iff the heads are equal and the tails are equal |
| Equals.EqualsSymmetric | src/equals.rs:4-28 | `equals` is symmetric on every pair of values |
| Equals.ListEqualsSymmetric | src/equals.rs:21-28 | list equality is symmetric |
| Equals.EqualsReflexive | src/equals.rs:4-28 | every value with no float and no function component equals itself |
| Equals.ListEqualsReflexive | src/equals.rs:21-28 | every list whose elements have no float and no function component equals itself |
| Equals.NaNBreaksReflexivity | src/equals.rs:8 | `Float(NaN)` does not equal itself, so reflexivity needs the float-free condition |
| Equals.ListEqualsSameLength | src/equals.rs:21-28 | equal lists have the same length, so lists of different lengths are never equal |
| Ast.Equals | src/ast.rs:23-35 | no contract of its own; characterised by `EqualsReflexive`, `EqualsSymmetric`, `EqualsTransitive` and `ClosuresEqualNothing` |
| Ast.ListEquals | src/ast.rs:49-56 | no contract of its own; characterised by `ListEqualsReflexive`, `ListEqualsSymmetric`, `ListEqualsTransitive` and `ListEqualsSameLength` |
| Ast.EqualsReflexive | src/ast.rs:23-35 | a value equals itself iff it holds no NaN and no closure |
| Ast.ListEqualsReflexive | src/ast.rs:49-56 | a list equals itself iff its elements hold no NaN and no closure |
| Ast.EqualsSymmetric | src/ast.rs:23-35 | `Type::equals` is symmetric |
| Ast.ListEqualsSymmetric | src/ast.rs:49-56 | `List::equals` is symmetric |
| Ast.EqualsTransitive | src/ast.rs:23-35 | `Type::equals` is transitive |
| Ast.ListEqualsTransitive | src/ast.rs:49-56 | `List::equals` is transitive |
| Ast.ListEqualsSameLength | src/ast.rs:49-56 | equal lists have the same length |
| Ast.ClosuresEqualNothing | src/ast.rs:33 | an infix or prefix closure is unequal to every value, on either side |
| Ast.DoMatch | src/ast.rs:36-38 | no contract of its own; characterised by `DoMatchFindsFirst` |
| Ast.DoMatchFindsFirst | src/ast.rs:36-38 | `do_match` is `None` iff no candidate equals the value; otherwise it returns the first candidate that equals it |
| Ast.Matches | src/ast.rs:86-106 | no contract of its own; characterised by `MatchesCases`, which gives the exact bindings of every pattern, none for `EmptyList` and `Ignored` |
| Ast.MatchesCases | src/ast.rs:86-106 | `Any` always binds the value; `Ignored` always succeeds with no bindings; `EmptyList` succeeds only on the empty list, with no bindings; `Cons` succeeds only on a non-empty list, binding head and `List(tail)`; `Tuple` succeeds only on a tuple, binding both parts |
| Ast.SelectBranch | src/ast.rs:165-171 | no contract of its own; characterised by `SelectBranchIsFirst` and `SelectBranchNone` |
| Ast.SelectBranchIsFirst | src/ast.rs:165-171 | the branch taken is the first whose pattern matches, with that pattern's bindings |
| Ast.SelectBranchNone | src/ast.rs:165-175 | no branch is taken iff no pattern matches |
| Ast.EnvWith | src/ast.rs:125-132 | the copied map sends `name` to `value`, has the same other keys as `env` with the same entries, and `env` is not changed |
| Ast.WithShadows | src/ast.rs:130 | inserting a name twice keeps only the second value |
| Ast.BindLookup | src/ast.rs:151 | after a fold of bindings, a name holds its last binding, or else what it held before, and is present iff it was before |
| Ast.LastBindingAbsent | src/ast.rs:151 | a name that no pair binds has no last binding |
| Ast.LastBindingDistinct | src/ast.rs:151 | with distinct names, each name's last binding is its own pair |
| Ast.AsLiterals | src/ast.rs:172-174 | match bindings become `Literal` bindings pointwise, in order |
| Ast.Zip | src/ast.rs:147-151 | the i-th argument is paired with the i-th parameter name |
| Ast.Eval | src/ast.rs:135-186 | no contract of its own; characterised by `EvalMonotone`, `EvalYieldsValue`, `EvalIdempotent` and the per-form lemmas `EvalAtoms` to `MatchFails` below |
| Ast.BindArgs | src/ast.rs:147-151 | no contract of its own; characterised by `BindArgsMonotone`, `BindArgsZips`, `BindArgsTooMany` and `CallEnvironment` |
| Ast.EvalMonotone | src/ast.rs:135-186 | an outcome of evaluation other than running out of fuel is the same with any larger fuel |
| Ast.BindArgsMonotone | src/ast.rs:147-151 | the same for binding the arguments of a prefix call |
| Ast.EvalYieldsValue | src/ast.rs:135-186 | a successful evaluation always yields a `Literal` or a `Free` |
| Ast.EvalIdempotent | src/ast.rs:137-138 | evaluating a result again, in any environment, returns it unchanged |
| Ast.EvalAtoms | src/ast.rs:137-142 | `Literal` and `Free` evaluate to themselves; a bound variable evaluates its binding in the current environment; an unbound variable yields `Free(name)` |
| Ast.EvalAssign | src/ast.rs:143 | `Assign` evaluates the value in the current environment, then the rest with the name bound to that value |
| Ast.ShadowingExample | src/ast.rs:143 | `let x 1 (let x 2 x)` evaluates to `2`: the inner binding wins |
| Ast.EvalDefnPrefix | src/ast.rs:182-184 | a prefix definition binds its name to a closure over the definition-site environment, which lacks the name unless it was already bound, and then evaluates `next` |
| Ast.EvalDefnInfix | src/ast.rs:178-181 | the same for an infix definition |
| Ast.PrefixCallNonPrefix | src/ast.rs:152 | calling something that is not a prefix closure is an error |
| Ast.BindArgsZips | src/ast.rs:147-151 | with no more arguments than parameters, the evaluated arguments are bound to the first parameters, in order, on top of the closure environment |
| Ast.BindArgsTooMany | src/ast.rs:151 | more arguments than parameters is an error |
| Ast.PrefixCallEvaluatesBody | src/ast.rs:144-151 | a prefix call evaluates its arguments in the caller's environment and the body in the closure environment extended with them |
| Ast.PrefixCallTooManyArguments | src/ast.rs:151 | a prefix call with more arguments than parameters is an error |
| Ast.CallEnvironment | src/ast.rs:147-151 | with distinct parameter names, each of the first parameters holds its argument, and every other name, including a later parameter, is as in the closure environment |
| Ast.InfixCallRightWins | src/ast.rs:155-161 | when both parameter names are the same, the body sees the right operand |
| Ast.InfixCallNonInfix | src/ast.rs:162 | an infix call through something that is not an infix closure is an error |
| Ast.MatchTakesFirstBranch | src/ast.rs:165-174 | `Match` evaluates the first matching branch in the caller's environment with the bindings added as literals |
| Ast.MatchFails | src/ast.rs:175-176 | with no matching branch, or a scrutinee that is not a literal, `Match` is an error |
| Eval2.With | src/eval2.rs:66-68 | the new environment is a frame whose parent is the old environment, unchanged |
| Eval2.Lookup | src/eval2.rs:69-75 | no contract of its own; characterised by `LookupWith` and `LookupFirstFrame` |
| Eval2.LookupWith | src/eval2.rs:66-75 | lookup of the new name returns its binding; any other name is looked up in the old environment; the empty environment binds nothing |
| Eval2.LookupFirstFrame | src/eval2.rs:69-75 | lookup fails iff no frame has the name; otherwise it returns the binding of the innermost frame with that name |
| Eval2.Eval | src/eval2.rs:79-107 | no contract of its own; characterised by `EvalMonotone` and the per-form lemmas `EvalAtoms` to `EvalCallNonFunction` below |
| Eval2.EvalMonotone | src/eval2.rs:79-107 | an outcome of evaluation other than running out of fuel is the same with any larger fuel |
| Eval2.EvalAtoms | src/eval2.rs:81-85 | a `Value` evaluates to itself; a variable yields its stored expression without evaluating it; an unbound variable is an error |
| Eval2.EvalAssign | src/eval2.rs:86-89 | `Assign` evaluates the value, binds it in a new frame and evaluates the body there; `x := v; x` yields the value of `v` |
| Eval2.BasicExample | src/eval2.rs:110-118 | `Assign(x, Value(3), Variable x)` evaluates to `Value(Number 3)` |
| Eval2.EvalDefn | src/eval2.rs:90 | a definition yields a closure over the current environment; the body is not evaluated |
| Eval2.EvalIf | src/eval2.rs:91-97 | the then-branch is taken iff the condition evaluates to `Value(Bool(true))`; every other result takes the fallback |
| Eval2.EvalCallClosure | src/eval2.rs:98-100 | calling a closure evaluates its body in the caller's environment, with the function's name bound to its body |
| Eval2.CallIgnoresOperands | src/eval2.rs:98-105 | the operands play no part in a call |
| Eval2.CallIgnoresCapturedEnv | src/eval2.rs:99-100 | the captured environment plays no part in a call |
| Eval2.SelfNameIsBody | src/eval2.rs:100 | a function whose body is its own name returns that variable itself, the body bound to the name |
| Eval2.EvalCallNonFunction | src/eval2.rs:101-104 | calling something that is not a closure value is an error |
| LispParse.AddNextAppends | src/lisp_parse.rs:8-15 | `add_next` on a word is an error; on a group it appends the token as the last child and keeps the others |
| LispParse.InitGroup | src/lisp_parse.rs:16-18 | a new group has no children |
| LispParse.Step | src/lisp_parse.rs:30-51 | a successful step keeps the group stack non-empty |
| LispParse.Scan | src/lisp_parse.rs:29-52 | a successful run over the characters leaves the outer group on the stack |
| LispParse.Parse | src/lisp_parse.rs:21-57 | input that does not start with `(` once trimmed is one word; otherwise parsing succeeds iff the parentheses balance, an unmatched `)` is `ExtraRightParens` (the panic of lines 41-42), an unclosed `(` is "Unmatched left parens", and a result is a group whose words are non-empty, hold no paren or whitespace, and are exactly the words of the text in order |
| LispParse.ParseGroups | src/lisp_parse.rs:27-56 | the character loop with its group stack and pending word computes the fold of `Step` over the text, ending with the unclosed-paren error |
| LispParse.ParseSpecProperties | src/lisp_parse.rs:21-57 | the same outcomes, stated for the fold specification of `parse`, including that a result holds exactly the text's words in order |
| LispParse.ScanFromStart | src/lisp_parse.rs:27-52 | from the initial stack, the fold succeeds iff no prefix closes more than it opened; the stack then holds one group more than the depth |
| LispParse.StepGood | src/lisp_parse.rs:30-51 | one character keeps the stack invariant and changes the stack height by its paren delta; a `)` with no open group is "Extra right parens" |
| LispParse.ScanGood | src/lisp_parse.rs:29-52 | over any text the stack height is one plus the nesting depth, the words stay non-empty, and an unmatched `)` is an error |
| LispParse.PushToTopInline | src/lisp_parse.rs:37 | `add_next` on the innermost group appends to that group only |
| LispParse.PushToTopGood | src/lisp_parse.rs:37 | appending a good tree to the innermost group keeps every group good |
| LispParse.StepCloseInline | src/lisp_parse.rs:34-43 | `)` flushes a pending word, then pops the innermost group into its parent, or fails when it is the outer group |
| LispParse.StepFlushInline | src/lisp_parse.rs:45-49 | whitespace after a pending word appends the word to the innermost group |
| LispParse.StepFlush | src/lisp_parse.rs:45-49 | the same, for a stack written as outer groups and a top group |
| LispParse.StepClose | src/lisp_parse.rs:34-43 | the same for `)` with at least two open groups |
| LispParse.StepFlushInner | src/lisp_parse.rs:45-49 | whitespace flush with exactly one group open inside the outer one |
| LispParse.StepCloseOuter | src/lisp_parse.rs:34-43 | closing the one group open inside the outer one appends it to the outer group |
| LispParse.ScanFails | src/lisp_parse.rs:40-42 | a character that fails ends the loop with its error |
| LispParse.ScanStep | src/lisp_parse.rs:29 | the loop continues from the state a character leads to |
| LispParse.ScanHead | src/lisp_parse.rs:29 | the same for a text split at its first character |
| LispParse.TrimKeeps | src/lisp_parse.rs:22 | trimming leaves a text that starts and ends with non-whitespace unchanged |
| LispParse.ExampleOpen | src/lisp_parse.rs:31-50 | reading `(+ ` opens a group holding the word `+` |
| LispParse.ExampleSecondWord | src/lisp_parse.rs:44-49 | reading `1 ` appends the word `1` |
| LispParse.ExampleLastWord | src/lisp_parse.rs:34-43 | reading `2)` appends `2` and closes the group into the outer one |
| LispParse.ExampleClose | src/lisp_parse.rs:29-52 | reading `1 2)` after `(+ ` leaves the outer group holding `[+, 1, 2]` |
| LispParse.ParseSpecOfScan | src/lisp_parse.rs:53-56 | a fold that ends with only the outer group open returns that group |
| LispParse.ParseExample | src/lisp_parse.rs:27-56 | `(+ 1 2)` parses to an outer group holding the group `[+, 1, 2]` |
| LispParse.JoinOpen | src/lisp_parse.rs:31-33 | `(` does not flush the pending word `a` |
| LispParse.JoinClose | src/lisp_parse.rs:34-50 | the word pending across `(` grows into `ab` and is flushed by `)` |
| LispParse.ParseJoinsAcrossOpenParen | src/lisp_parse.rs:31-33 | `(a(b))` parses to `[[[ab]]]`: characters on either side of `(` join into one word |
| LispParse.DropClose | src/lisp_parse.rs:34-43 | `(a)` closes into the outer group |
| LispParse.DropTail | src/lisp_parse.rs:44-50 | the trailing ` b` leaves `b` pending |
| LispParse.ParseDropsPendingWord | src/lisp_parse.rs:53-56 | `(a) b` parses to `[[a]]`: a word still pending at the end is dropped |
| LispParse.PushToTopWords | src/lisp_parse.rs:36-37 | appending to the innermost group puts that child's words after all the words already on the stack |
| LispParse.CloseTopWords | src/lisp_parse.rs:40-42 | popping the innermost group into its parent keeps the stack's words in order |
| LispParse.StepCloseWords | src/lisp_parse.rs:34-43 | `)` puts the pending word, if any, after the stack's words and leaves no word pending |
| LispParse.StepWords | src/lisp_parse.rs:30-51 | each character moves words from the text onto the stack, losing and reordering none |
| LispParse.ScanWords | src/lisp_parse.rs:29-52 | after any text, the stack's words are the earlier ones followed by the words of the text read |
| LispParse.ParseKeepsWords | src/lisp_parse.rs:21-57 | a successful parse of text starting with `(` holds exactly the text's words, in order: `(` is skipped, `)` and whitespace end a word, and a word pending at the end is dropped |
| LispParse.ScanAppend | src/lisp_parse.rs:29 | reading a concatenation is reading its first part, then the second from where the first left off; an error in the first part ends the loop |
| LispParse.ScanChar | src/lisp_parse.rs:29-51 | reading a single character is one step |
| LispParse.ScanGoodWord | src/lisp_parse.rs:50 | characters that are neither paren nor whitespace accumulate in the pending word |
| LispParse.ScanGroupText | src/lisp_parse.rs:31-43 | reading `(`, written-out children and `)` appends the group of those children to the innermost open group |
| LispParse.ScanUnparse | src/lisp_parse.rs:30-51 | reading a written-out tree and a space appends that tree to the innermost open group |
| LispParse.ScanUnparseAll | src/lisp_parse.rs:29-52 | reading written-out trees appends them, in order, to the innermost open group |
| LispParse.ScanTopGroup | src/lisp_parse.rs:27-52 | from the initial stack, a written-out group leaves just the outer group, holding that group |
| LispParse.ParseUnparse | src/lisp_parse.rs:21-57 | every group of well-formed words, written out with parentheses, parses back to itself inside the outer group, so the nesting of the result follows the parentheses |
| LispParse.AddNext | src/lisp_parse.rs:8-15 | no contract of its own; characterised by `AddNextAppends` |
| LispParse.ScanGroups | src/lisp_parse.rs:27-56 | no contract of its own; the specification `ParseGroups` is proved against; characterised by `ScanFromStart` and `ScanWords` |
| LispParse.ParseSpec | src/lisp_parse.rs:21-57 | no contract of its own; the specification `Parse` is proved against; characterised by `ParseSpecProperties`, `ParseKeepsWords` and `ParseUnparse` |
| LispToAst.LetForm | src/lisp_to_ast.rs:38-50 | no contract of its own; the specification `ConstructLet` is proved against; characterised by `LetGroup` |
| LispToAst.DefnForm | src/lisp_to_ast.rs:52-74 | no contract of its own; the specification `ConstructDefnPrefix` is proved against; characterised by `DefnFormCases` |
| LispToAst.WordToAst | src/lisp_to_ast.rs:8-17 | no contract of its own; characterised by `WordClassification` |
| LispToAst.ToAst | src/lisp_to_ast.rs:6-35 | no contract of its own; characterised by `OperandsOf`, `WordHeadGroup`, `OperandErrorWins`, `CallOfWord`, `CallOfGroup`, `LetGroup`, `DefnGroup`, `MatchGroup` and `ParsedNeverStr` |
| LispToAst.ConstructLet | src/lisp_to_ast.rs:38-50 | `construct_let` gives `Assign(name, 2nd, 3rd)` iff there are exactly three operands and the first is a variable, and `None` otherwise |
| LispToAst.ConstructDefnPrefix | src/lisp_to_ast.rs:52-74 | the loop that pops the body and collects the parameters computes the `defn` form, including its early returns |
| LispToAst.DefnFormCases | src/lisp_to_ast.rs:52-74 | no operands gives `None`; a lone body is an index error; a non-variable parameter gives `None` before the name is looked at; a non-variable name gives `None`; a result has the first operand as name, the middle operands as parameters in order and the last as body; with variables in every name and parameter position there is a result |
| LispToAst.WordClassification | src/lisp_to_ast.rs:8-17 | `let`, `defn` and `match` are errors; `true` and `false` are booleans; an `i32` word is an `Int`, tried before `f32`; then `Float`; a word that is none of these and starts with `(` and ends with `)` becomes the `Str` literal of the whole word, and a `Str` comes only from such a word; every other word becomes `Variable` of itself, and a variable comes only from such a word; only reserved words fail |
| LispToAst.OperandsOf | src/lisp_to_ast.rs:22 | the operands are the elements after the head, each converted, in order |
| LispToAst.WordHeadGroup | src/lisp_to_ast.rs:21-28 | when all operands convert, a word-headed group is decided by its head word and the converted operands |
| LispToAst.OperandErrorWins | src/lisp_to_ast.rs:22 | the first operand that fails decides the result of any non-empty group |
| LispToAst.CallOfWord | src/lisp_to_ast.rs:27 | a group headed by a non-keyword word `w` becomes `Call(Variable w, operands in order)` |
| LispToAst.CallOfGroup | src/lisp_to_ast.rs:29-31 | a group headed by a group becomes `Call(converted head, operands in order)` |
| LispToAst.LetGroup | src/lisp_to_ast.rs:24 | a `let` group succeeds iff it has three operands and the first is a variable, giving `Assign`; otherwise it is "Invalid let statement" |
| LispToAst.DefnGroup | src/lisp_to_ast.rs:25 | a `defn` group with no operands is invalid; with one it is an index error; a non-variable name or parameter is invalid; with variables as name and parameters it succeeds, and a result takes its name, parameters and body from the operands |
| LispToAst.MatchGroup | src/lisp_to_ast.rs:19-26 | a `match` group is unimplemented; the empty group is the unit literal |
| LispToAst.GoodTreeNoStr | src/lisp_to_ast.rs:16 | a tree whose words hold no paren never converts to a `Str` literal |
| LispToAst.GroupNoStr | src/lisp_to_ast.rs:19-31 | a group converts to an expression without `Str` literals when its elements do |
| LispToAst.WordHeadNoStr | src/lisp_to_ast.rs:21-28 | the forms built from operands add no `Str` literal |
| LispToAst.ParsedNeverStr | src/lisp_to_ast.rs:16 | nothing the tokenizer returns converts to a `Str` literal, so the paren-string branch is unreachable from parsed input |
| LispToAst.BareWordNoStr | src/lisp_to_ast.rs:16 | a bare word that does not start with `(` is never a `Str` literal |
| ToAst.WordToAst | src/to_ast.rs:9-17 | no contract of its own; characterised by `WordClassification` |
| ToAst.ToAst | src/to_ast.rs:6-57 | no contract of its own; characterised by `LetGroup`, `DefnGroup`, `IfGroupFails`, `OperandsOf`, `CallShape`, `CallGroup`, `CallGroupError` and `GroupHead` |
| ToAst.WordClassification | src/to_ast.rs:9-17 | a word fails iff it is `let`, `defn` or `if`; `[]` is the empty list; else an `f32` word is a `Number`; a word that is none of these and starts and ends with `"` becomes the `Str` of the whole word with its quotes, and a `Str` comes only from such a word; every other word becomes `Variable` of itself, and a variable comes only from such a word |
| ToAst.Params | src/to_ast.rs:39-43 | the parameters convert iff all are words, in order and pointwise, else "Can only have string params" |
| ToAst.ParamNames | src/to_ast.rs:40-41 | `&x` is `Rest(x)`; a word not starting with `&` is `Singular` |
| ToAst.LetGroup | src/to_ast.rs:21-32 | a four-element `let` with a word name gives `Assign`; an error converting its value, or else its body, is the result; with a group name it is "Must assign to name"; three elements is unimplemented; other lengths are an invalid `let` |
| ToAst.DefnGroup | src/to_ast.rs:33-46 | a missing or group name is "Must assign to name"; with a word name, an error converting the body is the result; a result takes its name from `g[1]`, its body from the last element, and its parameters from `g[1..len-1]`, so the first parameter is the function's own name; a group parameter is an error; with a word name, word parameters and a body that converts it succeeds |
| ToAst.IfGroupFails | src/to_ast.rs:47-48 | every `if` group fails with the reserved-keyword error, because it converts `g[0]` |
| ToAst.OperandsOf | src/to_ast.rs:49-50 | the arguments of a call are the elements after the head, each converted, in order |
| ToAst.CallShape | src/to_ast.rs:49-50 | a group headed by a non-keyword word is a call of the collected arguments |
| ToAst.CallGroup | src/to_ast.rs:49-50 | when all elements convert, it is `Call(Variable head, elements in order)` |
| ToAst.CallGroupError | src/to_ast.rs:49-50 | the first element that fails decides the result |
| ToAst.GroupHead | src/to_ast.rs:18-55 | a group in head position is unimplemented; the empty group is unit |
| Interpreter.HasMatchingParens | src/bin/interpreter.rs:36-56 | returns true iff no prefix has more `)` than `(` and the totals are equal |
| Interpreter.PrefixStep | src/bin/interpreter.rs:38-48 | each character adds to the counts only by being a paren |
| Interpreter.EmptyMatches | src/bin/interpreter.rs:50-51 | the empty text matches |
| Interpreter.NonParenIrrelevant | src/bin/interpreter.rs:47 | dropping a character that is not a paren never changes the answer |
| Interpreter.OnlyParensMatter | src/bin/interpreter.rs:38-49 | the answer for a text is the answer for its parens alone |
| Interpreter.MatchingIsBalanced | src/bin/interpreter.rs:36-56 | the guard accepts exactly the texts the tokenizer counts as balanced |
| Interpreter.TrimmedMatching | src/bin/interpreter.rs:16-17 | trimming the line before tokenizing never changes the guard's answer |
| Interpreter.GuardMatchesTokenizer | src/bin/interpreter.rs:16-17 | for a line that starts with `(` once trimmed, the guard accepts it iff the tokenizer parses it |
| Risp.HasMatchingParens | src/bin/risp.rs:29-49 | returns true iff the running count is never negative and ends at zero |
| Risp.SameAsInterpreter | src/bin/risp.rs:29-49 | this copy accepts the same texts as the interpreter's copy |
| Risp.OnlyParensMatter | src/bin/risp.rs:40 | dropping a character that is not a paren never changes the answer, and the empty text matches |
| Labels.Counter.constructor | src/compile/labels.rs:4-6 | a new counter holds 0 |
| Labels.Counter.Take | src/compile/labels.rs:7-11 | `take` returns the value held before the call and increases it by exactly one |
| Labels.TakeMany | src/compile/labels.rs:7-11 | `n` takes in a row return the next `n` values in order |
| Labels.FreshLabels | src/compile/labels.rs:4-11 | `n` takes from a new counter return `0 .. n-1`, strictly increasing and so distinct |
| Runtime.AsSigned | src/compile/runtime_test/runtime.c:22 | `(int)x` is in the `int` range and congruent to `x` modulo 2^32 |
| Runtime.NatToString | src/compile/runtime_test/runtime.c:22 | the decimal text is non-empty, all digits, and reads back as the number |
| Runtime.PrintRes | src/compile/runtime_test/runtime.c:20-33 | every output ends with a newline |
| Runtime.Decode | src/compile/runtime_test/runtime.c:21-31 | no contract of its own; characterised by `DecodeCases`, `FixnumRoundTrip` and `CharRoundTrip` |
| Runtime.Render | src/compile/runtime_test/runtime.c:22-30 | no contract of its own; characterised by `IntToStringParses`, `BasicOutputs` and `NothingPrintsNewline` |
| Runtime.DecodeCases | src/compile/runtime_test/runtime.c:20-31 | a word is a fixnum iff its low two bits are 0, with four times its value equal to the signed word; it is `#f`, `#t` or `nil` iff it is exactly `0x2f`, `0x6f` or `63`; other words with low nibble 15 are chars with code `x / 256`; every other word is nothing |
| Runtime.ConstantsBeforeChars | src/compile/runtime_test/runtime.c:3-5 | the three constants carry the char tag but decode as booleans and nil, and none is a fixnum |
| Runtime.FixnumRoundTrip | src/compile/runtime_test/runtime.c:21-22 | `n << 2`, for `n` in the 30-bit range, decodes back to `n` |
| Runtime.CharRoundTrip | src/compile/runtime_test/runtime.c:29-30 | `c * 256 + 15`, the word `(c << 8) + 15`, decodes back to the char `c` |
| Runtime.IntToStringParses | src/compile/runtime_test/runtime.c:22 | the decimal text printed for an `int` parses back as the same `i32` |
| Runtime.BasicOutputs | src/compile/mod.rs:12-23 | the basic compiler test values print `3`, `-3`, `0`, `#t`, `#f`, `nil`, `#\a` and `#\A`, each with a newline |
| Runtime.NothingPrintsNewline | src/compile/runtime_test/runtime.c:31-32 | only the newline is printed iff the word decodes to nothing |

## Left out

- The REPL `main` loops of `src/bin/interpreter.rs` and `src/bin/risp.rs` are not modelled. They read stdin and print.
- The `println!` calls at `src/bin/interpreter.rs:53`, `src/bin/risp.rs:46` and `src/to_ast.rs:7` are dropped. They are output only.
- `src/compile/compile.rs` is not part of this model. Every path ends in `unimplemented!()` or a panic, and it writes to an `io::Write`.
- `src/compile/mod.rs` is not part of this model. It runs gcc and the compiled program on temporary files. The expected outputs of its basic cases are stated in `Runtime.BasicOutputs`.
- `src/bin/compiler.rs` and `src/bin/compile/runtime.rs` are not part of this model. They read files and call into foreign code.
- `src/default_env.rs` and `src/lib.rs` are not part of this model. One is `unimplemented!()`, the other only declares modules.
- Parsing a word as an `f32` is a parameter of both AST builders. Rust's float parser is library code.
- Float arithmetic is not modelled. An `f32` payload is only compared, by IEEE rules.
- `RustClosure` is an opaque identity. It stands for a host Rust function.
- `Rest` parameters are never consumed when a call is evaluated. `src/eval2.rs` does not look at them; they are only built.
- The global mutable table and the arithmetic and list builtins exist in no core file, so they are not modelled.
- Ast.Eval, Eval2.Eval: evaluation is bounded by fuel. A run that diverges in the source ends in `OutOfFuel`; a run that would exhaust the Rust stack succeeds given enough fuel.
- Interpreter.HasMatchingParens: the count is an unbounded integer. The source's `i32` would overflow after 2^31 unmatched `(`.
- Risp.HasMatchingParens: the count is an unbounded integer, as above.
- Labels.Counter.Take: the model requires the count to be below `u64::MAX`. In the source, `self.0 += 1` at src/compile/labels.rs:9 on `u64::MAX` panics with an overflow in a debug build. In a release build it wraps to 0, so later takes hand out labels already used. Neither profile is modelled.
- Runtime.Decode: the bit operations are stated arithmetically on the unsigned word.
- Runtime.FixnumRoundTrip, Runtime.CharRoundTrip: the compiler's encodings `n << 2` and `(c << 8) + 15` are written out here, because the compiler does not implement them.
- Runtime.Render: `%c` prints the low byte of the code as a one-byte character. Character encoding of the terminal is not modelled.
- LispParse.ParseGroups: it is the character loop of `parse`, split into its own method. `Parse` calls it and adds the trimming and the bare-word case.
- The AST revisions of `src/lisp_to_ast.rs` and `src/to_ast.rs` have only the variants those files construct. Their `ast.rs` revisions are not among the source files.
- `trim` (src/lisp_parse.rs:22), `is_whitespace` (src/lisp_parse.rs:44-45) and `parse::<i32>` (src/lisp_to_ast.rs:14) are modelled exactly. `is_whitespace` is the Unicode `White_Space` list.
- LispParse.Step: an unmatched `)` is `ExtraRightParens`. The source reaches `expect("Extra right parens")` at src/lisp_parse.rs:42 only in a release build. There `buf.len() - 1` at line 41 wraps around on the empty stack, and `get_mut` finds nothing. A debug build panics one line earlier, with an overflow in that subtraction. Both are panics that end `parse`. The `pop().expect` at line 40 never fires, because the outer group is always on the stack.
- The `Free` variant of `Equals.Type` carries a `Type`, so that `a.equals(b)` at src/equals.rs:14 calls `Type::equals`. No revision of `Type` among the source files fixes this payload. src/eval2.rs:15 gives `Type::Free` an `Expr` payload, and the `Free(String)` of src/ast.rs:112 is a variant of `Expr`.
