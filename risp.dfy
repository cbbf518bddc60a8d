/** The copy of `has_matching_parens` in src/bin/risp.rs.

    Its specification here is stated with the running count the loop keeps:
    the count never goes negative and ends at zero. `SameAsInterpreter` shows
    that this is the counting specification of the src/bin/interpreter.rs copy,
    so the two agree on every input. */
module Risp {
  import Interpreter

  function Delta(c: char): int {
    if c == '(' then 1 else if c == ')' then -1 else 0
  }

  /** The count after reading all of `s`. */
  function Running(s: string): int
    decreases |s|
  {
    if s == [] then 0 else Running(s[..|s| - 1]) + Delta(s[|s| - 1])
  }

  /** The count is never negative after any prefix. */
  ghost predicate NeverNegative(s: string) {
    forall k :: 0 <= k <= |s| ==> Running(s[..k]) >= 0
  }

  ghost predicate Matching(s: string) {
    NeverNegative(s) && Running(s) == 0
  }

  /** `has_matching_parens`. */
  method HasMatchingParens(s: string) returns (b: bool)
    ensures b <==> Matching(s)
  {
    var count := 0;
    for i := 0 to |s|
      invariant count == Running(s[..i])
      invariant forall k :: 0 <= k <= i ==> Running(s[..k]) >= 0
    {
      assert s[..i + 1][..i] == s[..i];
      match s[i] {
        case '(' => count := count + 1;
        case ')' =>
          count := count - 1;
          if count < 0 {
            assert Running(s[..i + 1]) < 0;
            return false;
          }
        case _ =>
      }
    }
    assert s[..|s|] == s;
    return count == 0;
  }

  /** The running count is the number of `(` minus the number of `)`. */
  lemma {:induction false} RunningCounts(s: string)
    ensures Running(s) == Interpreter.Opens(s) - Interpreter.Closes(s)
    decreases |s|
  {
    if s != [] {
      var init, c := s[..|s| - 1], s[|s| - 1];
      RunningCounts(init);
      assert s == init + [c];
      Interpreter.CountsAdd(init, [c]);
    }
  }

  /** Both copies accept exactly the same inputs. */
  lemma SameAsInterpreter(s: string)
    ensures Matching(s) <==> Interpreter.Matching(s)
  {
    forall k | 0 <= k <= |s| { RunningCounts(s[..k]); }
    RunningCounts(s);
  }

  /** Only the parens matter, and the empty text matches. */
  lemma OnlyParensMatter(a: string, c: char, b: string)
    requires c != '(' && c != ')'
    ensures Matching(a + [c] + b) <==> Matching(a + b)
    ensures Matching("")
  {
    SameAsInterpreter(a + [c] + b);
    SameAsInterpreter(a + b);
    Interpreter.NonParenIrrelevant(a, c, b);
    assert forall k :: 0 <= k <= 0 ==> ""[..k] == "";
  }
}
