/** The Rust standard-library text routines the core calls: `char::is_whitespace`,
    `str::trim`, `str::starts_with`/`ends_with` on one-character patterns, and
    `str::parse::<i32>`. */
module Text {
  import opened Wrappers

  /** Rust's `i32`. */
  newtype I32 = x: int | -0x8000_0000 <= x < 0x8000_0000

  /** `char::is_whitespace`: the Unicode White_Space property. */
  predicate IsWhitespace(c: char) {
    ('\U{9}' <= c <= '\U{D}') || c == '\U{20}' || c == '\U{85}' || c == '\U{A0}'
    || c == '\U{1680}' || ('\U{2000}' <= c <= '\U{200A}') || c == '\U{2028}'
    || c == '\U{2029}' || c == '\U{202F}' || c == '\U{205F}' || c == '\U{3000}'
  }

  /** `str::trim_start`: drops the leading whitespace. */
  function TrimStart(s: string): (r: string)
    ensures |r| <= |s| && r == s[|s| - |r|..]
    ensures forall k :: 0 <= k < |s| - |r| ==> IsWhitespace(s[k])
    ensures r == [] || !IsWhitespace(r[0])
  {
    if s != [] && IsWhitespace(s[0]) then TrimStart(s[1..]) else s
  }

  /** `str::trim_end`: drops the trailing whitespace. */
  function TrimEnd(s: string): (r: string)
    ensures |r| <= |s| && r == s[..|r|]
    ensures forall k :: |r| <= k < |s| ==> IsWhitespace(s[k])
    ensures r == [] || !IsWhitespace(r[|r| - 1])
  {
    if s != [] && IsWhitespace(s[|s| - 1]) then TrimEnd(s[..|s| - 1]) else s
  }

  /** `str::trim`: the input with whitespace removed from both ends. */
  function Trim(s: string): string {
    TrimEnd(TrimStart(s))
  }

  predicate StartsWith(s: string, c: char) {
    |s| > 0 && s[0] == c
  }

  predicate EndsWith(s: string, c: char) {
    |s| > 0 && s[|s| - 1] == c
  }

  predicate IsDigit(c: char) {
    '0' <= c <= '9'
  }

  predicate AllDigits(s: string) {
    forall k :: 0 <= k < |s| ==> IsDigit(s[k])
  }

  /** The decimal value of a run of ASCII digits. */
  function DigitsValue(ds: string): nat
    requires AllDigits(ds)
  {
    if ds == [] then 0
    else 10 * DigitsValue(ds[..|ds| - 1]) + (ds[|ds| - 1] as int - '0' as int)
  }

  /** `str::parse::<i32>`: an optional `+` or `-` followed by at least one ASCII
      digit, whose value must lie in the range of `i32`. */
  function ParseI32(s: string): Option<I32> {
    if s == [] then None
    else if |s| == 1 && (s[0] == '+' || s[0] == '-') then None
    else
      var digits := if s[0] == '+' || s[0] == '-' then s[1..] else s;
      if !AllDigits(digits) then None
      else
        var v: int := if s[0] == '-' then -(DigitsValue(digits) as int) else DigitsValue(digits);
        if -0x8000_0000 <= v < 0x8000_0000 then Some(v as I32) else None
  }

  lemma ParseI32Examples()
    ensures ParseI32("3") == Some(3)
    ensures ParseI32("-3") == Some(-3)
    ensures ParseI32("+7") == Some(7)
    ensures ParseI32("-") == None && ParseI32("") == None && ParseI32("1a") == None
  {
    assert AllDigits("3") && DigitsValue("3") == 3;
    assert "-3"[1..] == "3";
    assert "+7"[1..] == "7" && DigitsValue("7") == 7;
    assert !IsDigit("1a"[1]);
  }

  /** `i32::MIN` parses, and its magnitude alone is out of range. */
  lemma ParseI32Limits()
    ensures ParseI32("-2147483648") == Some(-0x8000_0000)
    ensures ParseI32("2147483648") == None
  {
    assert "-2147483648"[1..] == "2147483648";
    MinMagnitude();
  }

  lemma DigitsSnoc(ds: string, d: char)
    requires AllDigits(ds) && IsDigit(d)
    ensures AllDigits(ds + [d])
    ensures DigitsValue(ds + [d]) == 10 * DigitsValue(ds) + (d as int - '0' as int)
  {
    assert (ds + [d])[..|ds|] == ds;
  }

  lemma MinMagnitude()
    ensures DigitsValue("2147483648") == 2147483648
  {
    HighDigits();
    var s4 := "21474";
    DigitsSnoc(s4, '8');
    var s5 := s4 + "8";
    DigitsSnoc(s5, '3');
    var s6 := s5 + "3";
    DigitsSnoc(s6, '6');
    var s7 := s6 + "6";
    DigitsSnoc(s7, '4');
    var s8 := s7 + "4";
    DigitsSnoc(s8, '8');
    assert s8 + "8" == "2147483648";
  }

  lemma HighDigits()
    ensures DigitsValue("21474") == 21474
  {
    var s0 := "2";
    DigitsSnoc(s0, '1');
    var s1 := s0 + "1";
    DigitsSnoc(s1, '4');
    var s2 := s1 + "4";
    DigitsSnoc(s2, '7');
    var s3 := s2 + "7";
    DigitsSnoc(s3, '4');
    assert s3 + "4" == "21474";
  }
}
