/** The tagged-immediate decoder `print_res` of
    src/compile/runtime_test/runtime.c, which prints the 32-bit word the
    compiled program returns.

    The word is the C `unsigned int`, an integer in [0, 2^32). Every mask in
    the source is of the form 2^k - 1, so `x & mask` is `x % (mask + 1)`, and a
    right shift of the unsigned word by `k` is a division by 2^k. `(int)x`
    reinterprets the word in two's complement, and `>>` on it is an arithmetic
    shift, which is floor division. `printf` becomes the string it prints. */
module Runtime {
  import opened Wrappers
  import opened Text

  newtype Word = x: int | 0 <= x < 0x1_0000_0000

  const BoolF: Word := 0x2f
  const BoolT: Word := 0x6f
  const Nil: Word := 63
  const FixnumMask: Word := 0x03
  const FixnumTag: Word := 0x00
  const FixnumShift: nat := 2
  const CharMask: Word := 15
  const CharShift: nat := 8

  /** 2^k. */
  function Pow2(k: nat): (r: nat)
    ensures r >= 1
  {
    if k == 0 then 1 else 2 * Pow2(k - 1)
  }

  lemma ShiftAmounts()
    ensures Pow2(FixnumShift) == 4 && Pow2(CharShift) == 256
  {
    assert Pow2(2) == 4;
    assert Pow2(4) == 16;
    assert Pow2(6) == 64;
  }

  /** `(int)x`: the word read as a two's-complement signed integer. */
  function AsSigned(x: Word): (r: int)
    ensures -0x8000_0000 <= r < 0x8000_0000
    ensures (r - x as int) % 0x1_0000_0000 == 0
  {
    if x < 0x8000_0000 then x as int else x as int - 0x1_0000_0000
  }

  /** What a word stands for. */
  datatype Decoded =
    | Fixnum(value: int)
    | BoolFalse
    | BoolTrue
    | NilValue
    | Char(code: int)
    | Nothing

  /** The branches of `print_res`, tried in the source's order. */
  function Decode(x: Word): Decoded {
    if x % (FixnumMask + 1) == FixnumTag then Fixnum(AsSigned(x) / Pow2(FixnumShift) as int)
    else if x == BoolF then BoolFalse
    else if x == BoolT then BoolTrue
    else if x == Nil then NilValue
    else if x % (CharMask + 1) == CharMask then Char(x as int / Pow2(CharShift))
    else Nothing
  }

  // ---------------------------------------------------------------------------
  // Printing

  function DigitChar(d: nat): (c: char)
    requires d < 10
    ensures IsDigit(c) && c as int - '0' as int == d
  {
    ('0' as int + d) as char
  }

  /** Decimal digits of `n`, most significant first, without leading zeros. */
  function NatToString(n: nat): (r: string)
    ensures |r| >= 1 && AllDigits(r)
    ensures DigitsValue(r) == n
    decreases n
  {
    if n < 10 then [DigitChar(n)]
    else
      var init := NatToString(n / 10);
      var r := init + [DigitChar(n % 10)];
      assert r[..|r| - 1] == init;
      r
  }

  /** `printf("%d", n)`. */
  function IntToString(n: int): string {
    if n < 0 then "-" + NatToString(-n) else NatToString(n)
  }

  /** What `print_res` prints for each kind of word, before the newline. `%c`
      prints the low byte of its argument. */
  function Render(d: Decoded): string {
    match d
    case Fixnum(n) => IntToString(n)
    case BoolFalse => "#f"
    case BoolTrue => "#t"
    case NilValue => "nil"
    case Char(code) => "#\\" + [(code % 256) as char]
    case Nothing => ""
  }

  /** `print_res`: the decoded word, then a newline. */
  function PrintRes(x: Word): (r: string)
    ensures |r| >= 1 && r[|r| - 1] == '\n'
  {
    Render(Decode(x)) + "\n"
  }

  // ---------------------------------------------------------------------------
  // Properties

  /** Which words decode to what. */
  lemma DecodeCases(x: Word)
    ensures Decode(x).Fixnum? <==> x % 4 == 0
    ensures Decode(x).Fixnum? ==> 4 * Decode(x).value == AsSigned(x)
    ensures Decode(x) == BoolFalse <==> x == 0x2f
    ensures Decode(x) == BoolTrue <==> x == 0x6f
    ensures Decode(x) == NilValue <==> x == 63
    ensures Decode(x).Char? <==> x % 16 == 15 && x != 0x2f && x != 0x6f && x != 63
    ensures Decode(x).Char? ==> Decode(x).code == x as int / 256
    ensures Decode(x) == Nothing <==> x % 4 != 0 && x % 16 != 15
  {
    ShiftAmounts();
  }

  /** The three constants have the char tag in their low nibble, but the tests
      before it claim them; none of them is a fixnum. */
  lemma ConstantsBeforeChars()
    ensures BoolF % 16 == 15 && BoolT % 16 == 15 && Nil % 16 == 15
    ensures BoolF % 4 != 0 && BoolT % 4 != 0 && Nil % 4 != 0
    ensures Decode(BoolF) == BoolFalse && Decode(BoolT) == BoolTrue && Decode(Nil) == NilValue
  {
  }

  /** The compiler's encoding of a fixnum: `n << 2` in a 32-bit word. */
  function EncodeFixnum(n: int): Word
    requires -0x2000_0000 <= n < 0x2000_0000
  {
    ((4 * n) % 0x1_0000_0000) as Word
  }

  /** A fixnum in range decodes back to itself. */
  lemma FixnumRoundTrip(n: int)
    requires -0x2000_0000 <= n < 0x2000_0000
    ensures Decode(EncodeFixnum(n)) == Fixnum(n)
  {
    var x := EncodeFixnum(n);
    if n >= 0 {
      assert x as int == 4 * n;
    } else {
      assert x as int == 4 * n + 0x1_0000_0000;
    }
    assert AsSigned(x) == 4 * n;
    assert x % 4 == 0;
    ShiftAmounts();
  }

  /** The compiler's encoding of a character: `(c << 8) | 15`. */
  function EncodeChar(c: nat): Word
    requires c < 0x100_0000
  {
    (c * 256 + 15) as Word
  }

  /** An encoded character decodes back to its code; none collides with the
      boolean or nil constants. */
  lemma CharRoundTrip(c: nat)
    requires c < 0x100_0000
    ensures Decode(EncodeChar(c)) == Char(c)
  {
    ShiftAmounts();
  }

  /** The decimal text `printf("%d")` makes reads back as the same `i32`. */
  lemma IntToStringParses(n: int)
    requires -0x8000_0000 <= n < 0x8000_0000
    ensures ParseI32(IntToString(n)) == Some(n as I32)
  {
    if n < 0 {
      var s := IntToString(n);
      assert s[0] == '-' && s[1..] == NatToString(-n);
    } else {
      var s := NatToString(n);
      assert IsDigit(s[0]);
    }
  }

  /** The expected outputs of the compiler's basic test cases. */
  lemma BasicOutputs()
    ensures PrintRes(EncodeFixnum(3)) == "3\n"
    ensures PrintRes(EncodeFixnum(-3)) == "-3\n"
    ensures PrintRes(EncodeFixnum(0)) == "0\n"
    ensures PrintRes(BoolT) == "#t\n" && PrintRes(BoolF) == "#f\n" && PrintRes(Nil) == "nil\n"
    ensures PrintRes(EncodeChar('a' as nat)) == "#\\a\n"
    ensures PrintRes(EncodeChar('A' as nat)) == "#\\A\n"
  {
    FixnumRoundTrip(3);
    FixnumRoundTrip(-3);
    FixnumRoundTrip(0);
    CharRoundTrip('a' as nat);
    CharRoundTrip('A' as nat);
  }

  /** Any other word prints only the newline. */
  lemma NothingPrintsNewline(x: Word)
    ensures PrintRes(x) == "\n" <==> Decode(x) == Nothing
  {
    match Decode(x)
    case Fixnum(n) =>
      if n < 0 { assert PrintRes(x)[0] == '-'; } else { assert |NatToString(n)| >= 1; }
    case Char(_) => assert |PrintRes(x)| == 4;
    case _ =>
  }
}
