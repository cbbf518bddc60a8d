/** Single-precision floats, kept as their IEEE 754 bit pattern. Only equality
    (Rust's `==` on `f32`) is modelled; no arithmetic is needed by the core. */
module Float32 {
  import opened Wrappers

  datatype F32 = F32(bits: bv32)

  /** A library routine that parses text into an `f32` (`str::parse::<f32>`),
      passed in wherever the source calls it. */
  type F32Parser = string -> Option<F32>

  predicate IsNaN(x: F32) {
    (x.bits >> 23) & 0xFF == 0xFF && x.bits & 0x7F_FFFF != 0
  }

  predicate IsZero(x: F32) {
    x.bits & 0x7FFF_FFFF == 0
  }

  /** IEEE 754 equality: NaN equals nothing, +0 equals -0, otherwise bits agree. */
  predicate Eq(a: F32, b: F32) {
    !IsNaN(a) && !IsNaN(b) && (a.bits == b.bits || (IsZero(a) && IsZero(b)))
  }

  lemma EqSymmetric(a: F32, b: F32)
    ensures Eq(a, b) == Eq(b, a)
  {
  }

  lemma EqReflexive(a: F32)
    ensures Eq(a, a) <==> !IsNaN(a)
  {
  }

  lemma EqTransitive(a: F32, b: F32, c: F32)
    requires Eq(a, b) && Eq(b, c)
    ensures Eq(a, c)
  {
  }

  /** The quiet NaN that `0.0 / 0.0` produces: it is not equal to itself. */
  const QuietNaN: F32 := F32(0x7FC0_0000)

  lemma NaNIsNotSelfEqual()
    ensures IsNaN(QuietNaN) && !Eq(QuietNaN, QuietNaN)
  {
  }

  lemma ZerosAreEqual()
    ensures Eq(F32(0x0000_0000), F32(0x8000_0000))
  {
  }
}
