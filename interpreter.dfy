/** `has_matching_parens` of src/bin/interpreter.rs, the guard the REPL runs
    before handing a line to the tokenizer.

    The specification counts parentheses: the text matches when no prefix has
    more `)` than `(` and the two totals are equal. The loop keeps a running
    count and returns early once it goes negative. The count is unbounded here;
    the source's `i32` would overflow after 2^31 open parentheses. */
module Interpreter {
  import opened Text
  import LispParse

  /** The number of `(` in `s`. */
  function Opens(s: string): nat {
    if s == [] then 0 else (if s[0] == '(' then 1 else 0) + Opens(s[1..])
  }

  /** The number of `)` in `s`. */
  function Closes(s: string): nat {
    if s == [] then 0 else (if s[0] == ')' then 1 else 0) + Closes(s[1..])
  }

  lemma {:induction false} CountsAdd(a: string, b: string)
    ensures Opens(a + b) == Opens(a) + Opens(b)
    ensures Closes(a + b) == Closes(a) + Closes(b)
  {
    if a != [] {
      assert (a + b)[0] == a[0] && (a + b)[1..] == a[1..] + b;
      CountsAdd(a[1..], b);
    } else {
      assert a + b == b;
    }
  }

  /** No prefix has more `)` than `(`. */
  ghost predicate NeverMoreCloses(s: string) {
    forall k :: 0 <= k <= |s| ==> Closes(s[..k]) <= Opens(s[..k])
  }

  ghost predicate Matching(s: string) {
    NeverMoreCloses(s) && Opens(s) == Closes(s)
  }

  lemma PrefixStep(s: string, i: nat)
    requires i < |s|
    ensures Opens(s[..i + 1]) == Opens(s[..i]) + (if s[i] == '(' then 1 else 0)
    ensures Closes(s[..i + 1]) == Closes(s[..i]) + (if s[i] == ')' then 1 else 0)
  {
    assert s[..i + 1] == s[..i] + [s[i]];
    CountsAdd(s[..i], [s[i]]);
  }

  /** `has_matching_parens`. */
  method HasMatchingParens(s: string) returns (b: bool)
    ensures b <==> Matching(s)
  {
    var count := 0;
    for i := 0 to |s|
      invariant count == Opens(s[..i]) - Closes(s[..i])
      invariant forall k :: 0 <= k <= i ==> Closes(s[..k]) <= Opens(s[..k])
    {
      PrefixStep(s, i);
      match s[i] {
        case '(' => count := count + 1;
        case ')' =>
          count := count - 1;
          if count < 0 {
            assert Closes(s[..i + 1]) > Opens(s[..i + 1]);
            return false;
          }
        case _ =>
      }
    }
    assert s[..|s|] == s;
    return count == 0;
  }

  // ---------------------------------------------------------------------------
  // Properties

  lemma EmptyMatches()
    ensures Matching("")
  {
    assert forall k :: 0 <= k <= 0 ==> ""[..k] == "";
  }

  /** Past the dropped character, a prefix of `a + [c] + b` counts like the
      one-shorter prefix of `a + b`. */
  lemma DroppedPrefix(a: string, c: char, b: string, k: nat)
    requires c != '(' && c != ')' && |a| < k <= |a| + 1 + |b|
    ensures Opens((a + [c] + b)[..k]) == Opens((a + b)[..k - 1])
    ensures Closes((a + [c] + b)[..k]) == Closes((a + b)[..k - 1])
  {
    var m := k - |a| - 1;
    assert (a + [c] + b)[..k] == (a + [c]) + b[..m];
    assert (a + b)[..k - 1] == a + b[..m];
    CountsAdd(a + [c], b[..m]);
    CountsAdd(a, b[..m]);
    CountsAdd(a, [c]);
  }

  /** A character other than a paren can be dropped without changing the answer. */
  lemma NonParenIrrelevant(a: string, c: char, b: string)
    requires c != '(' && c != ')'
    ensures Matching(a + [c] + b) <==> Matching(a + b)
  {
    var s, t := a + [c] + b, a + b;
    DroppedPrefix(a, c, b, |s|);
    assert s[..|s|] == s && t[..|t|] == t;
    assert forall k :: 0 <= k <= |a| ==> s[..k] == t[..k];
    if NeverMoreCloses(t) {
      forall k | 0 <= k <= |s| ensures Closes(s[..k]) <= Opens(s[..k]) {
        if k > |a| { DroppedPrefix(a, c, b, k); }
      }
    }
    if NeverMoreCloses(s) {
      forall k | 0 <= k <= |t| ensures Closes(t[..k]) <= Opens(t[..k]) {
        if k > |a| {
          DroppedPrefix(a, c, b, k + 1);
          assert Closes(s[..k + 1]) <= Opens(s[..k + 1]);
        }
      }
    }
  }

  /** The parens of `s`, in order. */
  function Parens(s: string): (r: string)
    ensures forall k :: 0 <= k < |r| ==> r[k] == '(' || r[k] == ')'
  {
    if s == [] then []
    else if s[0] == '(' || s[0] == ')' then [s[0]] + Parens(s[1..])
    else Parens(s[1..])
  }

  lemma {:induction false} MatchingParensOnly(x: string, s: string)
    ensures Matching(x + s) <==> Matching(x + Parens(s))
    decreases |s|
  {
    if s != [] {
      var c := s[0];
      assert x + s == x + [c] + s[1..];
      if c == '(' || c == ')' {
        MatchingParensOnly(x + [c], s[1..]);
        assert x + Parens(s) == (x + [c]) + Parens(s[1..]);
      } else {
        NonParenIrrelevant(x, c, s[1..]);
        MatchingParensOnly(x, s[1..]);
      }
    }
  }

  /** Only the parens matter: the answer for `s` is the answer for its parens. */
  lemma OnlyParensMatter(s: string)
    ensures Matching(s) <==> Matching(Parens(s))
  {
    MatchingParensOnly([], s);
    assert [] + s == s && [] + Parens(s) == Parens(s);
  }

  // ---------------------------------------------------------------------------
  // The guard and the tokenizer

  lemma {:induction false} ParensAdd(a: string, b: string)
    ensures Parens(a + b) == Parens(a) + Parens(b)
  {
    if a != [] {
      assert (a + b)[0] == a[0] && (a + b)[1..] == a[1..] + b;
      ParensAdd(a[1..], b);
    } else {
      assert a + b == b;
    }
  }

  /** The counts are the tokenizer's depth. */
  lemma {:induction false} DepthCounts(s: string)
    ensures LispParse.Depth(s) == Opens(s) - Closes(s)
  {
    if s != [] {
      DepthCounts(s[1..]);
    }
  }

  lemma MatchingIsBalanced(s: string)
    ensures Matching(s) <==> LispParse.Balanced(s)
  {
    forall k | 0 <= k <= |s| { DepthCounts(s[..k]); }
    DepthCounts(s);
  }

  lemma {:induction false} TrimStartKeepsParens(s: string)
    ensures Parens(TrimStart(s)) == Parens(s)
  {
    if s != [] && IsWhitespace(s[0]) {
      TrimStartKeepsParens(s[1..]);
    }
  }

  lemma {:induction false} TrimEndKeepsParens(s: string)
    ensures Parens(TrimEnd(s)) == Parens(s)
    decreases |s|
  {
    if s != [] && IsWhitespace(s[|s| - 1]) {
      var init := s[..|s| - 1];
      TrimEndKeepsParens(init);
      assert s == init + [s[|s| - 1]];
      ParensAdd(init, [s[|s| - 1]]);
    }
  }

  lemma TrimKeepsParens(s: string)
    ensures Parens(Trim(s)) == Parens(s)
  {
    TrimStartKeepsParens(s);
    TrimEndKeepsParens(TrimStart(s));
  }

  /** Trimming never changes the answer: it only removes whitespace. */
  lemma TrimmedMatching(s: string)
    ensures Matching(Trim(s)) <==> Matching(s)
  {
    TrimKeepsParens(s);
    OnlyParensMatter(s);
    OnlyParensMatter(Trim(s));
  }

  /** A line the guard accepts and that starts with `(` once trimmed always
      tokenizes, and a line that tokenizes passes the guard: the guard accepts
      exactly the parenthesised input the tokenizer can parse. */
  lemma GuardMatchesTokenizer(body: string)
    requires StartsWith(Trim(body), '(')
    ensures Matching(body) <==> LispParse.ParseSpec(body).Ok?
  {
    LispParse.ParseSpecProperties(body);
    TrimmedMatching(body);
    MatchingIsBalanced(Trim(body));
  }
}
