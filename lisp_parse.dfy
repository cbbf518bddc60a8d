/** The tokenizer of src/lisp_parse.rs: parenthesised text becomes a tree of
    words and groups.

    `Parse` is the source's loop over the characters, with its stack `buf` of
    open groups and its pending word `curr`. `ParseSpec` states the same
    algorithm as a left fold of `Step` over the characters, and the lemmas about
    it say what the fold computes: it succeeds exactly on balanced input, never
    makes an empty word, keeps the text's words in order, and nests groups as
    the parentheses nest. */
module LispParse {
  import opened Wrappers
  import opened Text

  datatype Token = Word(w: string) | Group(children: seq<Token>)

  /** The panics of `add_next` and `parse`. An unmatched `)` panics on the subtraction at
      src/lisp_parse.rs:41 in a debug build and at the `expect` on line 42 in
      a release build; both are `ExtraRightParens` here. */
  datatype ParseError =
    | CannotAddToSingleton   // "Cannot add next to singleton"
    | ExtraRightParens       // "Extra right parens"
    | UnmatchedLeftParens    // "Unmatched left parens"

  /** `Token::add_next`: appends a child to a group; a word has no children. */
  function AddNext(t: Token, next: Token): Result<Token, ParseError> {
    match t
    case Word(_) => Err(CannotAddToSingleton)
    case Group(g) => Ok(Group(g + [next]))
  }

  lemma AddNextAppends(t: Token, next: Token)
    ensures t.Word? ==> AddNext(t, next).Err?
    ensures t.Group? ==>
              && AddNext(t, next).Ok? && AddNext(t, next).value.Group?
              && |AddNext(t, next).value.children| == |t.children| + 1
              && AddNext(t, next).value.children[..|t.children|] == t.children
              && AddNext(t, next).value.children[|t.children|] == next
  {
  }

  /** `Token::init_group`. */
  function InitGroup(): (r: Token)
    ensures r.Group? && r.children == []
  {
    Group([])
  }

  // ---------------------------------------------------------------------------
  // Paren depth

  function Delta(c: char): int {
    if c == '(' then 1 else if c == ')' then -1 else 0
  }

  /** How many more `(` than `)` the text holds. */
  function Depth(s: string): int {
    if s == [] then 0 else Delta(s[0]) + Depth(s[1..])
  }

  lemma {:induction false} DepthSnoc(s: string, c: char)
    ensures Depth(s + [c]) == Depth(s) + Delta(c)
  {
    if s != [] {
      assert (s + [c])[1..] == s[1..] + [c];
      DepthSnoc(s[1..], c);
    }
  }

  /** With `d` groups already open, no prefix of `s` closes more than it can. */
  ghost predicate StaysOpen(d: int, s: string) {
    forall k :: 0 <= k <= |s| ==> d + Depth(s[..k]) >= 0
  }

  /** No prefix closes more groups than it opened. */
  ghost predicate NeverNegative(s: string) {
    StaysOpen(0, s)
  }

  ghost predicate Balanced(s: string) {
    NeverNegative(s) && Depth(s) == 0
  }

  // ---------------------------------------------------------------------------
  // The fold

  /** The loop's state: the stack of open groups and the pending word. */
  datatype Scanner = Scanner(buf: seq<Token>, curr: string)

  predicate AllGroups(buf: seq<Token>) {
    forall i :: 0 <= i < |buf| ==> buf[i].Group?
  }

  /** `buf[len].add_next(t)` on the innermost open group. */
  function PushToTop(buf: seq<Token>, t: Token): (r: Result<seq<Token>, ParseError>)
    requires |buf| >= 1
    ensures r.Ok? ==> |r.value| == |buf|
  {
    var top :- AddNext(buf[|buf| - 1], t);
    Ok(buf[..|buf| - 1] + [top])
  }

  /** One iteration of the loop, on character `c`. */
  function Step(st: Scanner, c: char): (r: Result<Scanner, ParseError>)
    requires |st.buf| >= 1
    ensures r.Ok? ==> |r.value.buf| >= 1
  {
    if c == '(' then Ok(Scanner(st.buf + [InitGroup()], st.curr))
    else if c == ')' then
      var buf :- if |st.curr| > 0 then PushToTop(st.buf, Word(st.curr)) else Ok(st.buf);
      var completed, rest := buf[|buf| - 1], buf[..|buf| - 1];
      if rest == [] then Err(ExtraRightParens)
      else
        var buf' :- PushToTop(rest, completed);
        Ok(Scanner(buf', ""))
    else if IsWhitespace(c) && |st.curr| == 0 then Ok(st)
    else if IsWhitespace(c) then
      var buf :- PushToTop(st.buf, Word(st.curr));
      Ok(Scanner(buf, ""))
    else Ok(Scanner(st.buf, st.curr + [c]))
  }

  /** The loop over all characters of `s`, from state `st`. */
  function Scan(st: Scanner, s: string): (r: Result<Scanner, ParseError>)
    requires |st.buf| >= 1
    ensures r.Ok? ==> |r.value.buf| >= 1
    decreases |s|
  {
    if s == [] then Ok(st)
    else
      var st' :- Step(st, s[0]);
      Scan(st', s[1..])
  }

  /** What the loop and the final depth test of `parse` return for the trimmed
      text, as a fold. */
  function ScanGroups(toParse: string): Result<Token, ParseError> {
    var st :- Scan(Scanner([InitGroup()], ""), toParse);
    if |st.buf| > 1 then Err(UnmatchedLeftParens) else Ok(st.buf[0])
  }

  /** What `parse` returns. */
  function ParseSpec(body: string): Result<Token, ParseError> {
    var toParse := Trim(body);
    if !StartsWith(toParse, '(') then Ok(Word(toParse)) else ScanGroups(toParse)
  }

  // ---------------------------------------------------------------------------
  // The loop

  /** `parse`. */
  method Parse(body: string) returns (r: Result<Token, ParseError>)
    ensures r == ParseSpec(body)
    ensures !StartsWith(Trim(body), '(') ==> r == Ok(Word(Trim(body)))
    ensures StartsWith(Trim(body), '(') ==> (r.Ok? <==> Balanced(Trim(body)))
    ensures StartsWith(Trim(body), '(') && !NeverNegative(Trim(body)) ==> r == Err(ExtraRightParens)
    ensures StartsWith(Trim(body), '(') && NeverNegative(Trim(body)) && Depth(Trim(body)) != 0 ==>
      r == Err(UnmatchedLeftParens)
    ensures StartsWith(Trim(body), '(') && r.Ok? ==> r.value.Group? && GoodTree(r.value)
    ensures StartsWith(Trim(body), '(') && r.Ok? ==> Flatten(r.value) == Words(Trim(body))
  {
    var toParse := Trim(body);
    ParseSpecProperties(body);
    if !StartsWith(toParse, '(') {
      return Ok(Word(toParse));
    }
    r := ParseGroups(toParse);
  }

  /** The character loop of `parse` and the depth test after it, on the
      trimmed text. */
  method ParseGroups(toParse: string) returns (r: Result<Token, ParseError>)
    ensures r == ScanGroups(toParse)
  {
    var buf := [InitGroup()];
    var curr := "";
    for i := 0 to |toParse|
      invariant |buf| >= 1 && AllGroups(buf)
      invariant Scan(Scanner(buf, curr), toParse[i..]) == Scan(Scanner([InitGroup()], ""), toParse)
    {
      var c := toParse[i];
      var st := Scanner(buf, curr);
      assert toParse[i..] == [c] + toParse[i + 1..];
      if c == '(' {
        buf := buf + [InitGroup()];
      } else if c == ')' {
        StepCloseInline(buf, curr);
        if |curr| > 0 {
          buf := buf[..|buf| - 1] + [Group(buf[|buf| - 1].children + [Word(curr)])];
          curr := "";
        }
        var completed := buf[|buf| - 1];
        buf := buf[..|buf| - 1];
        if |buf| == 0 {
          ScanFails(st, c, toParse[i + 1..]);
          return Err(ExtraRightParens);
        }
        buf := buf[..|buf| - 1] + [Group(buf[|buf| - 1].children + [completed])];
      } else if IsWhitespace(c) && |curr| == 0 {
      } else if IsWhitespace(c) {
        StepFlushInline(buf, curr, c);
        buf := buf[..|buf| - 1] + [Group(buf[|buf| - 1].children + [Word(curr)])];
        curr := "";
      } else {
        curr := curr + [c];
      }
      ScanStep(st, c, toParse[i + 1..], Scanner(buf, curr));
    }
    assert toParse[|toParse|..] == [];
    if |buf| > 1 {
      return Err(UnmatchedLeftParens);
    }
    return Ok(buf[0]);
  }

  /** `buf[len].add_next(t)` on a stack of groups, as the loop writes it. */
  lemma PushToTopInline(buf: seq<Token>, t: Token)
    requires |buf| >= 1 && AllGroups(buf)
    ensures PushToTop(buf, t) == Ok(buf[..|buf| - 1] + [Group(buf[|buf| - 1].children + [t])])
    ensures AllGroups(PushToTop(buf, t).value)
  {
  }

  /** The loop's `)` branch computes `Step`. */
  lemma StepCloseInline(buf: seq<Token>, curr: string)
    requires |buf| >= 1 && AllGroups(buf)
    ensures var b := if |curr| > 0 then buf[..|buf| - 1] + [Group(buf[|buf| - 1].children + [Word(curr)])] else buf;
      && |b| == |buf| && AllGroups(b)
      && (|b| == 1 ==> Step(Scanner(buf, curr), ')') == Err(ExtraRightParens))
      && (|b| > 1 ==>
            var rest := b[..|b| - 1];
            && Step(Scanner(buf, curr), ')')
               == Ok(Scanner(rest[..|rest| - 1] + [Group(rest[|rest| - 1].children + [b[|b| - 1]])], ""))
            && AllGroups(rest[..|rest| - 1] + [Group(rest[|rest| - 1].children + [b[|b| - 1]])]))
  {
    if |curr| > 0 {
      PushToTopInline(buf, Word(curr));
    }
    var b := if |curr| > 0 then buf[..|buf| - 1] + [Group(buf[|buf| - 1].children + [Word(curr)])] else buf;
    if |b| > 1 {
      PushToTopInline(b[..|b| - 1], b[|b| - 1]);
    }
  }

  /** The loop's whitespace branch with a pending word computes `Step`. */
  lemma StepFlushInline(buf: seq<Token>, curr: string, c: char)
    requires |buf| >= 1 && AllGroups(buf) && IsWhitespace(c) && |curr| > 0
    ensures Step(Scanner(buf, curr), c)
         == Ok(Scanner(buf[..|buf| - 1] + [Group(buf[|buf| - 1].children + [Word(curr)])], ""))
    ensures AllGroups(buf[..|buf| - 1] + [Group(buf[|buf| - 1].children + [Word(curr)])])
  {
    PushToTopInline(buf, Word(curr));
  }

  lemma ScanFails(st: Scanner, c: char, rest: string)
    requires |st.buf| >= 1 && Step(st, c).Err?
    ensures Scan(st, [c] + rest) == Err(Step(st, c).error)
  {
    assert ([c] + rest)[0] == c;
  }

  // ---------------------------------------------------------------------------
  // What the fold computes

  /** A character that ends a word or is never part of one. */
  predicate Delimiter(c: char) {
    c == '(' || c == ')' || IsWhitespace(c)
  }

  predicate GoodWord(w: string) {
    forall k :: 0 <= k < |w| ==> !Delimiter(w[k])
  }

  /** Every word in the tree is non-empty and holds no paren or whitespace. */
  predicate GoodTree(t: Token) {
    match t
    case Word(w) => w != [] && GoodWord(w)
    case Group(g) => forall i :: 0 <= i < |g| ==> GoodTree(g[i])
  }

  /** The invariant of the loop's state. */
  predicate GoodScanner(st: Scanner) {
    |st.buf| >= 1 && AllGroups(st.buf) && GoodWord(st.curr)
    && forall i :: 0 <= i < |st.buf| ==> GoodTree(st.buf[i])
  }

  lemma PushToTopGood(buf: seq<Token>, t: Token)
    requires |buf| >= 1 && AllGroups(buf) && GoodTree(t)
    requires forall i :: 0 <= i < |buf| ==> GoodTree(buf[i])
    ensures PushToTop(buf, t) == Ok(buf[..|buf| - 1] + [Group(buf[|buf| - 1].children + [t])])
    ensures AllGroups(PushToTop(buf, t).value)
    ensures forall i :: 0 <= i < |buf| ==> GoodTree(PushToTop(buf, t).value[i])
  {
    var g := Group(buf[|buf| - 1].children + [t]);
    assert GoodTree(g) by {
      var cs := buf[|buf| - 1].children + [t];
      forall i | 0 <= i < |cs| ensures GoodTree(cs[i]) {
        if i < |cs| - 1 { assert cs[i] == buf[|buf| - 1].children[i]; }
      }
    }
  }

  /** A step from a good state ends in a good state, changes the stack depth by
      the paren it reads, and fails only on a `)` that closes the outer group. */
  lemma StepGood(st: Scanner, c: char)
    requires GoodScanner(st)
    ensures |st.buf| - 1 + Delta(c) >= 0 ==>
      Step(st, c).Ok? && GoodScanner(Step(st, c).value)
      && |Step(st, c).value.buf| == |st.buf| + Delta(c)
    ensures |st.buf| - 1 + Delta(c) < 0 ==> Step(st, c) == Err(ExtraRightParens)
  {
    if c == ')' {
      var buf := st.buf;
      if |st.curr| > 0 {
        PushToTopGood(st.buf, Word(st.curr));
        buf := PushToTop(st.buf, Word(st.curr)).value;
      }
      if |buf| > 1 {
        PushToTopGood(buf[..|buf| - 1], buf[|buf| - 1]);
      }
    } else if IsWhitespace(c) && |st.curr| > 0 {
      PushToTopGood(st.buf, Word(st.curr));
    } else if c != '(' && !IsWhitespace(c) {
      assert GoodWord(st.curr + [c]) by {
        assert forall k :: 0 <= k < |st.curr| ==> (st.curr + [c])[k] == st.curr[k];
      }
    }
  }

  /** The fold from a good state with `d` groups open beyond the outer one
      fails exactly when some prefix closes more than `d` groups, and otherwise
      ends in a good state holding `d` plus the depth of `s` open groups. */
  lemma {:induction false} ScanGood(st: Scanner, s: string)
    requires GoodScanner(st)
    ensures StaysOpen(|st.buf| - 1, s) ==>
      Scan(st, s).Ok? && GoodScanner(Scan(st, s).value)
      && |Scan(st, s).value.buf| == |st.buf| + Depth(s)
    ensures !StaysOpen(|st.buf| - 1, s) ==> Scan(st, s) == Err(ExtraRightParens)
    decreases |s|
  {
    if s != [] {
      var c := s[0];
      StepGood(st, c);
      assert s[..1] == [c];
      assert forall k :: 1 <= k <= |s| ==> s[..k][1..] == s[1..][..k - 1];
      assert forall k :: 1 <= k <= |s| ==> Depth(s[..k]) == Delta(c) + Depth(s[1..][..k - 1]);
      if |st.buf| - 1 + Delta(c) >= 0 {
        var st' := Step(st, c).value;
        ScanGood(st', s[1..]);
        if !StaysOpen(|st.buf| - 1, s) {
          var k :| 0 <= k <= |s| && |st.buf| - 1 + Depth(s[..k]) < 0;
          assert k >= 1;
          assert |st'.buf| - 1 + Depth(s[1..][..k - 1]) < 0;
        }
        if StaysOpen(|st.buf| - 1, s) {
          forall k | 0 <= k <= |s| - 1 ensures |st'.buf| - 1 + Depth(s[1..][..k]) >= 0 {
            assert |st.buf| - 1 + Depth(s[..k + 1]) >= 0;
          }
        }
      } else {
        assert |st.buf| - 1 + Depth(s[..1]) < 0;
      }
    }
  }

  /** `parse` succeeds exactly on balanced input; an extra `)` and an unclosed
      `(` are the two errors; a result is a group of well-formed words, and
      those are the words of the text, in order. */
  lemma ParseSpecProperties(body: string)
    ensures !StartsWith(Trim(body), '(') ==> ParseSpec(body) == Ok(Word(Trim(body)))
    ensures StartsWith(Trim(body), '(') ==> (ParseSpec(body).Ok? <==> Balanced(Trim(body)))
    ensures StartsWith(Trim(body), '(') && !NeverNegative(Trim(body)) ==>
      ParseSpec(body) == Err(ExtraRightParens)
    ensures StartsWith(Trim(body), '(') && NeverNegative(Trim(body)) && Depth(Trim(body)) != 0 ==>
      ParseSpec(body) == Err(UnmatchedLeftParens)
    ensures StartsWith(Trim(body), '(') && ParseSpec(body).Ok? ==>
      ParseSpec(body).value.Group? && GoodTree(ParseSpec(body).value)
    ensures StartsWith(Trim(body), '(') && ParseSpec(body).Ok? ==>
      Flatten(ParseSpec(body).value) == Words(Trim(body))
  {
    var t := Trim(body);
    if StartsWith(t, '(') {
      if ParseSpec(body).Ok? {
        ParseKeepsWords(body);
      }
      ScanFromStart(t);
      if NeverNegative(t) {
        var st := Scan(Scanner([InitGroup()], ""), t).value;
        assert ParseSpec(body) == if |st.buf| > 1 then Err(UnmatchedLeftParens) else Ok(st.buf[0]);
      }
    }
  }

  /** The fold from the initial state, in terms of the input's depth. */
  lemma ScanFromStart(t: string)
    ensures NeverNegative(t) ==>
      Scan(Scanner([InitGroup()], ""), t).Ok?
      && GoodScanner(Scan(Scanner([InitGroup()], ""), t).value)
      && |Scan(Scanner([InitGroup()], ""), t).value.buf| == 1 + Depth(t)
    ensures !NeverNegative(t) ==> Scan(Scanner([InitGroup()], ""), t) == Err(ExtraRightParens)
  {
    ScanGood(Scanner([InitGroup()], ""), t);
  }

  /** Whitespace ends the pending word and appends it to the innermost group. */
  lemma StepFlush(outer: seq<Token>, h: seq<Token>, curr: string, c: char)
    requires IsWhitespace(c) && curr != []
    ensures Step(Scanner(outer + [Group(h)], curr), c) == Ok(Scanner(outer + [Group(h + [Word(curr)])], ""))
  {
    var buf := outer + [Group(h)];
    assert buf[..|buf| - 1] == outer;
  }

  /** `)` ends the pending word, closes the innermost group and appends it to
      the group around it. */
  lemma StepClose(outer: seq<Token>, g: seq<Token>, h: seq<Token>, curr: string)
    ensures Step(Scanner(outer + [Group(g), Group(h)], curr), ')')
         == Ok(Scanner(outer + [Group(g + [Group(if curr == [] then h else h + [Word(curr)])])], ""))
  {
    var buf := outer + [Group(g), Group(h)];
    var h' := if curr == [] then h else h + [Word(curr)];
    var flushed := outer + [Group(g), Group(h')];
    assert buf[..|buf| - 1] == outer + [Group(g)];
    assert flushed[..|flushed| - 1] == outer + [Group(g)];
    assert (outer + [Group(g)])[..|outer|] == outer;
  }

  /** Whitespace ending a word in the only group inside the outer one. */
  lemma StepFlushInner(h: seq<Token>, curr: string, c: char)
    requires IsWhitespace(c) && curr != []
    ensures Step(Scanner([Group([]), Group(h)], curr), c) == Ok(Scanner([Group([]), Group(h + [Word(curr)])], ""))
  {
    StepFlush([Group([])], h, curr, c);
    assert [Group([])] + [Group(h)] == [Group([]), Group(h)];
    assert [Group([])] + [Group(h + [Word(curr)])] == [Group([]), Group(h + [Word(curr)])];
  }

  /** `)` closing the only group inside the outer one. */
  lemma StepCloseOuter(h: seq<Token>, curr: string)
    ensures Step(Scanner([Group([]), Group(h)], curr), ')')
         == Ok(Scanner([Group([Group(if curr == [] then h else h + [Word(curr)])])], ""))
  {
    var none: seq<Token> := [];
    StepClose(none, none, h, curr);
    assert none + [Group([]), Group(h)] == [Group([]), Group(h)];
    var h' := if curr == [] then h else h + [Word(curr)];
    assert none + [Group(h')] == [Group(h')];
    assert none + [Group(none + [Group(h')])] == [Group([Group(h')])];
  }

  lemma ScanStep(st: Scanner, c: char, rest: string, st': Scanner)
    requires |st.buf| >= 1 && Step(st, c) == Ok(st')
    ensures Scan(st, [c] + rest) == Scan(st', rest)
  {
    assert ([c] + rest)[1..] == rest;
  }

  lemma ScanHead(st: Scanner, s: string, st': Scanner)
    requires |st.buf| >= 1 && s != [] && Step(st, s[0]) == Ok(st')
    ensures Scan(st, s) == Scan(st', s[1..])
  {
  }

  lemma TrimKeeps(s: string)
    requires s != [] && !IsWhitespace(s[0]) && !IsWhitespace(s[|s| - 1])
    ensures Trim(s) == s
  {
  }

  lemma ExampleOpen()
    ensures Scan(Scanner([InitGroup()], ""), "(+ 1 2)")
         == Scan(Scanner([Group([]), Group([Word("+")])], ""), "1 2)")
  {
    var g0: seq<Token> := [];
    var st0 := Scanner([InitGroup()], "");
    var st1 := Scanner([Group([]), Group([])], "");
    var st2 := Scanner([Group([]), Group([])], "+");
    var st3 := Scanner([Group([]), Group([Word("+")])], "");
    assert Step(st0, '(') == Ok(st1) by { assert st0.buf + [InitGroup()] == st1.buf; }
    assert Step(st1, '+') == Ok(st2) by { assert st1.curr + ['+'] == st2.curr; }
    assert Step(st2, ' ') == Ok(st3) by {
      StepFlushInner(g0, "+", ' ');
      assert g0 + [Word("+")] == [Word("+")];
    }
    var t := "(+ 1 2)";
    ScanHead(st0, t, st1);
    ScanHead(st1, t[1..], st2);
    ScanHead(st2, t[2..], st3);
    assert t[3..] == "1 2)";
  }

  lemma ExampleClose()
    ensures Scan(Scanner([Group([]), Group([Word("+")])], ""), "1 2)")
         == Ok(Scanner([Group([Group([Word("+"), Word("1"), Word("2")])])], ""))
  {
    ExampleSecondWord();
    ExampleLastWord();
  }

  lemma ExampleSecondWord()
    ensures Scan(Scanner([Group([]), Group([Word("+")])], ""), "1 2)")
         == Scan(Scanner([Group([]), Group([Word("+"), Word("1")])], ""), "2)")
  {
    var st3 := Scanner([Group([]), Group([Word("+")])], "");
    var st4 := Scanner([Group([]), Group([Word("+")])], "1");
    var st5 := Scanner([Group([]), Group([Word("+"), Word("1")])], "");
    assert Step(st3, '1') == Ok(st4) by { assert st3.curr + ['1'] == st4.curr; }
    assert Step(st4, ' ') == Ok(st5) by {
      StepFlushInner([Word("+")], "1", ' ');
      assert [Word("+")] + [Word("1")] == [Word("+"), Word("1")];
    }
    var t := "1 2)";
    ScanHead(st3, t, st4);
    ScanHead(st4, t[1..], st5);
    assert t[2..] == "2)";
  }

  lemma ExampleLastWord()
    ensures Scan(Scanner([Group([]), Group([Word("+"), Word("1")])], ""), "2)")
         == Ok(Scanner([Group([Group([Word("+"), Word("1"), Word("2")])])], ""))
  {
    var st5 := Scanner([Group([]), Group([Word("+"), Word("1")])], "");
    var st6 := Scanner([Group([]), Group([Word("+"), Word("1")])], "2");
    var st7 := Scanner([Group([Group([Word("+"), Word("1"), Word("2")])])], "");
    assert Step(st5, '2') == Ok(st6) by { assert st5.curr + ['2'] == st6.curr; }
    assert Step(st6, ')') == Ok(st7) by {
      StepCloseOuter([Word("+"), Word("1")], "2");
      assert [Word("+"), Word("1")] + [Word("2")] == [Word("+"), Word("1"), Word("2")];
    }
    var t := "2)";
    ScanHead(st5, t, st6);
    ScanHead(st6, t[1..], st7);
    assert t[2..] == "";
    assert Scan(st7, "") == Ok(st7);
  }

  /** An input that starts with `(` once trimmed and whose fold leaves only the outer group
      parses to that group. */
  lemma ParseSpecOfScan(body: string, st: Scanner)
    requires StartsWith(Trim(body), '(')
    requires Scan(Scanner([InitGroup()], ""), Trim(body)) == Ok(st) && |st.buf| == 1
    ensures ParseSpec(body) == Ok(st.buf[0])
  {
  }

  /** The outer group holds the top-level groups in order. */
  lemma ParseExample()
    ensures ParseSpec("(+ 1 2)") == Ok(Group([Group([Word("+"), Word("1"), Word("2")])]))
  {
    TrimKeeps("(+ 1 2)");
    ExampleOpen();
    ExampleClose();
    ParseSpecOfScan("(+ 1 2)", Scanner([Group([Group([Word("+"), Word("1"), Word("2")])])], ""));
  }

  lemma JoinOpen()
    ensures Scan(Scanner([InitGroup()], ""), "(a(b))")
         == Scan(Scanner([Group([]), Group([]), Group([])], "a"), "b))")
  {
    var st0 := Scanner([InitGroup()], "");
    var st1 := Scanner([Group([]), Group([])], "");
    var st2 := Scanner([Group([]), Group([])], "a");
    var st3 := Scanner([Group([]), Group([]), Group([])], "a");
    assert Step(st0, '(') == Ok(st1) by { assert st0.buf + [InitGroup()] == st1.buf; }
    assert Step(st1, 'a') == Ok(st2) by { assert st1.curr + ['a'] == st2.curr; }
    assert Step(st2, '(') == Ok(st3) by { assert st2.buf + [InitGroup()] == st3.buf; }
    var t := "(a(b))";
    ScanHead(st0, t, st1);
    ScanHead(st1, t[1..], st2);
    ScanHead(st2, t[2..], st3);
    assert t[3..] == "b))";
  }

  lemma JoinClose()
    ensures Scan(Scanner([Group([]), Group([]), Group([])], "a"), "b))")
         == Ok(Scanner([Group([Group([Group([Word("ab")])])])], ""))
  {
    var g0: seq<Token> := [];
    var st3 := Scanner([Group([]), Group([]), Group([])], "a");
    var st4 := Scanner([Group([]), Group([]), Group([])], "ab");
    var st5 := Scanner([Group([]), Group([Group([Word("ab")])])], "");
    var st6 := Scanner([Group([Group([Group([Word("ab")])])])], "");
    assert Step(st3, 'b') == Ok(st4) by { assert st3.curr + ['b'] == st4.curr; }
    assert Step(st4, ')') == Ok(st5) by {
      StepClose([Group([])], [], [], "ab");
      assert g0 + [Word("ab")] == [Word("ab")];
      assert g0 + [Group([Word("ab")])] == [Group([Word("ab")])];
      assert [Group([])] + [Group(g0 + [Group(g0 + [Word("ab")])])] == st5.buf;
      assert [Group([])] + [Group([]), Group([])] == st4.buf;
    }
    assert Step(st5, ')') == Ok(st6) by {
      StepClose([], [], [Group([Word("ab")])], "");
      assert g0 + [Group([Group([Word("ab")])])] == [Group([Group([Word("ab")])])];
      assert g0 + [Group(g0 + [Group([Group([Word("ab")])])])] == st6.buf;
      assert g0 + [Group([]), Group([Group([Word("ab")])])] == st5.buf;
    }
    var t := "b))";
    ScanHead(st3, t, st4);
    ScanHead(st4, t[1..], st5);
    ScanHead(st5, t[2..], st6);
    assert t[3..] == "";
    assert Scan(st6, "") == Ok(st6);
  }

  /** `(` does not end the pending word, so the characters on either side of it
      join. */
  lemma ParseJoinsAcrossOpenParen()
    ensures ParseSpec("(a(b))") == Ok(Group([Group([Group([Word("ab")])])]))
  {
    TrimKeeps("(a(b))");
    JoinOpen();
    JoinClose();
    ParseSpecOfScan("(a(b))", Scanner([Group([Group([Group([Word("ab")])])])], ""));
  }

  lemma DropClose()
    ensures Scan(Scanner([InitGroup()], ""), "(a) b") == Scan(Scanner([Group([Group([Word("a")])])], ""), " b")
  {
    var g0: seq<Token> := [];
    var st0 := Scanner([InitGroup()], "");
    var u1 := Scanner([Group([]), Group([])], "");
    var u2 := Scanner([Group([]), Group([])], "a");
    var u3 := Scanner([Group([Group([Word("a")])])], "");
    assert Step(st0, '(') == Ok(u1) by { assert st0.buf + [InitGroup()] == u1.buf; }
    assert Step(u1, 'a') == Ok(u2) by { assert u1.curr + ['a'] == u2.curr; }
    assert Step(u2, ')') == Ok(u3) by {
      StepClose([], [], [], "a");
      assert g0 + [Word("a")] == [Word("a")];
      assert g0 + [Group([Word("a")])] == [Group([Word("a")])];
      assert g0 + [Group(g0 + [Group(g0 + [Word("a")])])] == u3.buf;
      assert g0 + [Group([]), Group([])] == u2.buf;
    }
    var t := "(a) b";
    ScanHead(st0, t, u1);
    ScanHead(u1, t[1..], u2);
    ScanHead(u2, t[2..], u3);
    assert t[3..] == " b";
  }

  lemma DropTail()
    ensures Scan(Scanner([Group([Group([Word("a")])])], ""), " b") == Ok(Scanner([Group([Group([Word("a")])])], "b"))
  {
    var u3 := Scanner([Group([Group([Word("a")])])], "");
    var u5 := Scanner([Group([Group([Word("a")])])], "b");
    assert Step(u3, ' ') == Ok(u3);
    assert Step(u3, 'b') == Ok(u5) by { assert u3.curr + ['b'] == u5.curr; }
    var t := " b";
    ScanHead(u3, t, u3);
    ScanHead(u3, t[1..], u5);
    assert t[2..] == "";
    assert Scan(u5, "") == Ok(u5);
  }

  /** A word still pending at the end is dropped. */
  lemma ParseDropsPendingWord()
    ensures ParseSpec("(a) b") == Ok(Group([Group([Word("a")])]))
  {
    TrimKeeps("(a) b");
    DropClose();
    DropTail();
    ParseSpecOfScan("(a) b", Scanner([Group([Group([Word("a")])])], "b"));
  }

  // ---------------------------------------------------------------------------
  // The words of the text, in order

  /** The words of `s`, reading on with `curr` already pending: `(` neither
      starts nor ends a word, `)` and whitespace end the pending one, and a
      word still pending at the end of the text is dropped. */
  function WordsFrom(s: string, curr: string): seq<string>
    decreases |s|
  {
    if s == [] then []
    else if s[0] == '(' then WordsFrom(s[1..], curr)
    else if s[0] == ')' || IsWhitespace(s[0]) then
      (if curr == [] then [] else [curr]) + WordsFrom(s[1..], "")
    else WordsFrom(s[1..], curr + [s[0]])
  }

  function Words(s: string): seq<string> {
    WordsFrom(s, "")
  }

  /** The words of a tree, left to right. */
  function Flatten(t: Token): seq<string>
    decreases t, 1
  {
    match t
    case Word(w) => [w]
    case Group(g) => FlattenAll(g)
  }

  function FlattenAll(ts: seq<Token>): seq<string>
    decreases ts, 0
  {
    if ts == [] then [] else FlattenAll(ts[..|ts| - 1]) + Flatten(ts[|ts| - 1])
  }

  lemma FlattenAllSnoc(ts: seq<Token>, t: Token)
    ensures FlattenAll(ts + [t]) == FlattenAll(ts) + Flatten(t)
  {
    assert (ts + [t])[..|ts|] == ts;
  }

  lemma FlattenTopSnoc(pre: seq<Token>, ch: seq<Token>, t: Token)
    ensures FlattenAll(pre + [Group(ch + [t])]) == FlattenAll(pre + [Group(ch)]) + Flatten(t)
  {
    var a, b, c := FlattenAll(pre), FlattenAll(ch), Flatten(t);
    assert FlattenAll(pre + [Group(ch + [t])]) == a + (b + c) by {
      FlattenAllSnoc(pre, Group(ch + [t]));
      FlattenAllSnoc(ch, t);
    }
    assert FlattenAll(pre + [Group(ch)]) == a + b by {
      FlattenAllSnoc(pre, Group(ch));
    }
    assert a + (b + c) == (a + b) + c;
  }

  /** Appending to the innermost group adds the child's words at the end. */
  lemma PushToTopWords(buf: seq<Token>, t: Token)
    requires |buf| >= 1 && AllGroups(buf)
    ensures PushToTop(buf, t).Ok? && AllGroups(PushToTop(buf, t).value)
    ensures FlattenAll(PushToTop(buf, t).value) == FlattenAll(buf) + Flatten(t)
  {
    PushToTopInline(buf, t);
    var n := |buf| - 1;
    assert buf == buf[..n] + [Group(buf[n].children)];
    FlattenTopSnoc(buf[..n], buf[n].children, t);
  }

  lemma WordsFromCons(c: char, rest: string, curr: string)
    ensures WordsFrom([c] + rest, curr)
         == if c == '(' then WordsFrom(rest, curr)
            else if c == ')' || IsWhitespace(c) then (if curr == [] then [] else [curr]) + WordsFrom(rest, "")
            else WordsFrom(rest, curr + [c])
  {
    var s := [c] + rest;
    assert s[0] == c && s[1..] == rest;
  }

  /** Closing the innermost group keeps the words on the stack. */
  lemma CloseTopWords(b: seq<Token>)
    requires |b| >= 2 && AllGroups(b)
    ensures var rest := b[..|b| - 1];
      FlattenAll(rest[..|rest| - 1] + [Group(rest[|rest| - 1].children + [b[|b| - 1]])]) == FlattenAll(b)
  {
    var rest := b[..|b| - 1];
    var m := |rest| - 1;
    FlattenTopSnoc(rest[..m], rest[m].children, b[|b| - 1]);
    assert rest == rest[..m] + [Group(rest[m].children)];
    FlattenAllSnoc(rest, b[|b| - 1]);
    assert b == rest + [b[|b| - 1]];
  }

  /** `)` moves the pending word and the closed group into the group around
      it; the words on the stack stay in order. */
  lemma StepCloseWords(st: Scanner)
    requires |st.buf| >= 1 && AllGroups(st.buf) && Step(st, ')').Ok?
    ensures AllGroups(Step(st, ')').value.buf) && Step(st, ')').value.curr == ""
    ensures FlattenAll(Step(st, ')').value.buf)
         == FlattenAll(st.buf) + (if st.curr == [] then [] else [st.curr])
  {
    StepCloseInline(st.buf, st.curr);
    var n := |st.buf| - 1;
    var b := if |st.curr| > 0 then st.buf[..n] + [Group(st.buf[n].children + [Word(st.curr)])] else st.buf;
    assert FlattenAll(b) == FlattenAll(st.buf) + (if st.curr == [] then [] else [st.curr]) by {
      if |st.curr| > 0 {
        FlattenTopSnoc(st.buf[..n], st.buf[n].children, Word(st.curr));
        assert st.buf == st.buf[..n] + [Group(st.buf[n].children)];
      }
    }
    CloseTopWords(b);
  }

  /** One character moves the text's words onto the stack without losing or
      reordering any. */
  lemma StepWords(st: Scanner, c: char, rest: string)
    requires |st.buf| >= 1 && AllGroups(st.buf) && Step(st, c).Ok?
    ensures AllGroups(Step(st, c).value.buf)
    ensures FlattenAll(Step(st, c).value.buf) + WordsFrom(rest, Step(st, c).value.curr)
         == FlattenAll(st.buf) + WordsFrom([c] + rest, st.curr)
  {
    WordsFromCons(c, rest, st.curr);
    if c == '(' {
      FlattenAllSnoc(st.buf, InitGroup());
    } else if c == ')' {
      StepCloseWords(st);
    } else if IsWhitespace(c) && |st.curr| > 0 {
      PushToTopWords(st.buf, Word(st.curr));
    }
  }

  /** The fold keeps the words already on the stack and adds those of the
      text read. */
  lemma {:induction false} ScanWords(st: Scanner, s: string)
    requires |st.buf| >= 1 && AllGroups(st.buf) && Scan(st, s).Ok?
    ensures FlattenAll(Scan(st, s).value.buf) == FlattenAll(st.buf) + WordsFrom(s, st.curr)
    decreases |s|
  {
    if s != [] {
      var st' := Step(st, s[0]).value;
      assert s == [s[0]] + s[1..];
      StepWords(st, s[0], s[1..]);
      ScanWords(st', s[1..]);
    }
  }

  /** A parse of parenthesised text holds exactly the text's words, in the
      order they are written. */
  lemma ParseKeepsWords(body: string)
    requires StartsWith(Trim(body), '(') && ParseSpec(body).Ok?
    ensures Flatten(ParseSpec(body).value) == Words(Trim(body))
  {
    var t := Trim(body);
    var start := Scanner([InitGroup()], "");
    var st := Scan(start, t).value;
    assert ParseSpec(body) == ScanGroups(t);
    assert |st.buf| == 1;
    assert ParseSpec(body).value == st.buf[0];
    ScanWords(start, t);
    FlattenAllSnoc([], InitGroup());
    assert [] + [InitGroup()] == start.buf;
    assert FlattenAll(start.buf) == [];
    FlattenAllSnoc([], st.buf[0]);
    assert [] + [st.buf[0]] == st.buf;
    assert FlattenAll(st.buf) == Flatten(st.buf[0]);
    assert FlattenAll(st.buf) == Words(t);
  }

  // ---------------------------------------------------------------------------
  // Text that parses back to a given tree

  /** A tree written out: a group is its children in parentheses, each
      followed by a space. */
  function Unparse(t: Token): string
    decreases t, 1
  {
    match t
    case Word(w) => w
    case Group(g) => "(" + UnparseAll(g) + ")"
  }

  function UnparseAll(ts: seq<Token>): string
    decreases ts, 0
  {
    if ts == [] then "" else UnparseAll(ts[..|ts| - 1]) + Unparse(ts[|ts| - 1]) + " "
  }

  /** Reading `a + b` is reading `a`, then `b`. */
  lemma {:induction false} ScanAppend(st: Scanner, a: string, b: string)
    requires |st.buf| >= 1
    ensures Scan(st, a + b) == (var r := Scan(st, a); if r.Err? then Err(r.error) else Scan(r.value, b))
    decreases |a|
  {
    if a != [] {
      assert (a + b)[0] == a[0] && (a + b)[1..] == a[1..] + b;
      var r := Step(st, a[0]);
      if r.Ok? {
        ScanHead(st, a, r.value);
        ScanHead(st, a + b, r.value);
        ScanAppend(r.value, a[1..], b);
      }
    } else {
      assert a + b == b;
    }
  }

  /** A well-formed word is read into the pending word, character by character. */
  lemma {:induction false} ScanGoodWord(buf: seq<Token>, curr: string, w: string)
    requires |buf| >= 1 && GoodWord(w)
    ensures Scan(Scanner(buf, curr), w) == Ok(Scanner(buf, curr + w))
    decreases |w|
  {
    if w != [] {
      assert !Delimiter(w[0]);
      assert GoodWord(w[1..]) by {
        forall k | 0 <= k < |w[1..]| ensures !Delimiter(w[1..][k]) {
          assert w[1..][k] == w[k + 1];
        }
      }
      assert Step(Scanner(buf, curr), w[0]) == Ok(Scanner(buf, curr + [w[0]]));
      ScanHead(Scanner(buf, curr), w, Scanner(buf, curr + [w[0]]));
      ScanGoodWord(buf, curr + [w[0]], w[1..]);
      assert (curr + [w[0]]) + w[1..] == curr + w;
    } else {
      assert curr + w == curr;
    }
  }

  function Size(t: Token): nat
    decreases t, 1
  {
    match t
    case Word(_) => 1
    case Group(g) => 1 + SizeAll(g)
  }

  function SizeAll(ts: seq<Token>): nat
    decreases ts, 0
  {
    if ts == [] then 0 else SizeAll(ts[..|ts| - 1]) + Size(ts[|ts| - 1])
  }

  lemma ScanChar(st: Scanner, c: char)
    requires |st.buf| >= 1
    ensures Scan(st, [c]) == Step(st, c)
  {
    assert [c][0] == c && [c][1..] == [];
  }

  /** Reading a written-out group appends it to the innermost open group. */
  lemma {:induction false} ScanGroupText(buf: seq<Token>, g: seq<Token>)
    requires |buf| >= 1 && AllGroups(buf)
    requires forall i :: 0 <= i < |g| ==> GoodTree(g[i])
    ensures Scan(Scanner(buf, ""), "(" + UnparseAll(g) + ")")
         == Ok(Scanner(buf[..|buf| - 1] + [Group(buf[|buf| - 1].children + [Group(g)])], ""))
    decreases SizeAll(g), 2
  {
    var st0 := Scanner(buf, "");
    var open := buf + [InitGroup()];
    ScanChar(st0, '(');
    ScanUnparseAll(open, g);
    assert open[..|buf|] == buf && InitGroup().children + g == g;
    var inner := buf + [Group(g)];
    StepCloseInline(inner, "");
    assert inner[..|inner| - 1] == buf;
    ScanChar(Scanner(inner, ""), ')');
    ScanAppend(st0, "(", UnparseAll(g));
    ScanAppend(st0, "(" + UnparseAll(g), ")");
  }

  /** Reading a written-out tree and the space after it appends the tree to
      the innermost open group. */
  lemma {:induction false} ScanUnparse(buf: seq<Token>, x: Token)
    requires |buf| >= 1 && AllGroups(buf) && GoodTree(x)
    ensures Scan(Scanner(buf, ""), Unparse(x) + " ")
         == Ok(Scanner(buf[..|buf| - 1] + [Group(buf[|buf| - 1].children + [x])], ""))
    decreases Size(x), 0
  {
    var st0 := Scanner(buf, "");
    var fin := Scanner(buf[..|buf| - 1] + [Group(buf[|buf| - 1].children + [x])], "");
    PushToTopInline(buf, x);
    ScanAppend(st0, Unparse(x), " ");
    match x
    case Word(w) =>
      ScanGoodWord(buf, "", w);
      assert "" + w == w;
      ScanChar(Scanner(buf, w), ' ');
    case Group(g) =>
      ScanGroupText(buf, g);
      ScanChar(fin, ' ');
  }

  /** Reading the written-out children of a group appends them to the
      innermost open group. */
  lemma {:induction false} ScanUnparseAll(buf: seq<Token>, ts: seq<Token>)
    requires |buf| >= 1 && AllGroups(buf)
    requires forall i :: 0 <= i < |ts| ==> GoodTree(ts[i])
    ensures Scan(Scanner(buf, ""), UnparseAll(ts))
         == Ok(Scanner(buf[..|buf| - 1] + [Group(buf[|buf| - 1].children + ts)], ""))
    decreases SizeAll(ts), 1
  {
    var n := |buf| - 1;
    if ts == [] {
      assert buf[n].children + ts == buf[n].children;
      assert buf[..n] + [Group(buf[n].children)] == buf;
    } else {
      var init, x := ts[..|ts| - 1], ts[|ts| - 1];
      assert SizeAll(ts) == SizeAll(init) + Size(x);
      assert Size(x) >= 1;
      assert GoodTree(x);
      ScanUnparseAll(buf, init);
      var buf1 := buf[..n] + [Group(buf[n].children + init)];
      PushToTopInline(buf, Group(buf[n].children + init));
      ScanUnparse(buf1, x);
      assert buf1[..n] == buf[..n] && buf1[n].children == buf[n].children + init;
      assert buf[n].children + init + [x] == buf[n].children + ts;
      ScanAppend(Scanner(buf, ""), UnparseAll(init), Unparse(x) + " ");
      assert UnparseAll(ts) == UnparseAll(init) + (Unparse(x) + " ");
    }
  }

  /** The fold from the initial state over a written-out group. */
  lemma ScanTopGroup(g: seq<Token>)
    requires forall i :: 0 <= i < |g| ==> GoodTree(g[i])
    ensures Scan(Scanner([InitGroup()], ""), "(" + UnparseAll(g) + ")") == Ok(Scanner([Group([Group(g)])], ""))
  {
    ScanGroupText([InitGroup()], g);
    OuterTop(Group(g));
  }

  lemma OuterTop(x: Token)
    ensures [InitGroup()][..0] + [Group([InitGroup()][0].children + [x])] == [Group([x])]
  {
    var start := [InitGroup()];
    assert start[..0] == [] && start[0].children == [];
    assert start[0].children + [x] == [x];
    assert start[..0] + [Group([x])] == [Group([x])];
  }

  /** Parsing a written-out group gives that group back, inside the outer
      group every parse result has: the nesting of the parse is the nesting
      of the parentheses. */
  lemma ParseUnparse(t: Token)
    requires t.Group? && GoodTree(t)
    ensures ParseSpec(Unparse(t)) == Ok(Group([t]))
  {
    var s := Unparse(t);
    assert s == "(" + UnparseAll(t.children) + ")";
    assert s[0] == '(' && s[|s| - 1] == ')';
    TrimKeeps(s);
    ScanTopGroup(t.children);
    ParseSpecOfScan(s, Scanner([Group([t])], ""));
  }
}
