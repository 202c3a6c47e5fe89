/**
 * The IEEE 754 binary32 image of the `float` pose fields of the packet.
 * Pose values are modelled as integers; every integer of magnitude below
 * 2^24 is a `float` exactly, so storing it loses nothing. The image is built
 * as a number (sign bit, biased exponent, 23 fraction bits) and read back
 * with the truncation toward zero that a C conversion from `float` to `int`
 * performs.
 */
module Binary32 {
  import opened Arith
  import opened Wrappers
  import opened Bytes

  const FRAC_ONE: nat := 0x80_0000      // 2^23, the implicit leading one of a normal float
  const SIGN_BIT: nat := 0x8000_0000    // 2^31
  const BIAS: nat := 127

  /** The integers a `float` holds exactly and this model encodes. */
  predicate Exact(x: int) { -0x100_0000 < x < 0x100_0000 }

  function Abs(x: int): nat { if x < 0 then -x else x }

  /** The position of the highest set bit of `m`. */
  function Log2(m: nat): (e: nat)
    requires m > 0
    ensures Pow2(e) <= m < Pow2(e + 1)
    decreases m
  {
    if m == 1 then 0 else 1 + Log2(m / 2)
  }

  /** A magnitude below 2^24 has its highest bit at position 23 or lower. */
  lemma Log2Below(m: nat)
    requires 0 < m < 0x100_0000
    ensures Log2(m) <= 23
  {
    Pow2Known();
    if Log2(m) >= 24 {
      Pow2Mono(24, Log2(m));
    }
  }

  /**
   * The bit pattern of `(float)x`, as a number below 2^32: zero is all
   * zeros; otherwise the sign, the exponent `127 + e` where `2^e` is the
   * highest power of two in `|x|`, and the bits of `|x|` below that power,
   * shifted to the top of the 23-bit fraction.
   */
  function Bits(x: int): (w: nat)
    requires Exact(x)
  {
    if x == 0 then 0
    else
      var m := Abs(x);
      Normalized(m);
      var e := Log2(m);
      (if x < 0 then SIGN_BIT else 0) + (BIAS + e) * FRAC_ONE + (m * Pow2(23 - e) - FRAC_ONE)
  }

  /**
   * Shifting a magnitude below 2^24 left until its highest bit is bit 23
   * gives a significand in `[2^23, 2^24)`.
   */
  lemma Normalized(m: nat)
    requires 0 < m < 0x100_0000
    ensures Log2(m) <= 23
    ensures FRAC_ONE <= m * Pow2(23 - Log2(m)) < 2 * FRAC_ONE
  {
    Log2Below(m);
    var e := Log2(m);
    var q := Pow2(23 - e);
    Pow2Add(e, 23 - e);
    Pow2Add(e + 1, 23 - e);
    Pow2Known();
    MulMono(Pow2(e), m, q);
    MulMono(m + 1, Pow2(e + 1), q);
  }

  /** The `float` field's 32-bit image. */
  function FloatOf(x: int): bv32
    requires Exact(x)
  {
    U32(Bits(x))
  }

  /**
   * `(int)f` for the `float` whose bit pattern is `w`: the value truncated
   * toward zero; None for an infinity or a NaN (exponent 255).
   */
  function TruncToInt(w: nat): Option<int>
  {
    var ex := (w / FRAC_ONE) % 256;
    var significand := FRAC_ONE + w % FRAC_ONE;
    if ex == 255 then None
    else if ex < BIAS then Some(0)
    else
      var mag := if ex <= 150 then significand / Pow2(150 - ex) else significand * Pow2(ex - 150);
      Some(if w / SIGN_BIT % 2 == 1 then -mag else mag)
  }

  /** `a <= b` survives multiplication by a natural number. */
  lemma MulMono(a: nat, b: nat, q: nat)
    requires a <= b
    ensures a * q <= b * q
  {
    assert b * q == a * q + (b - a) * q;
  }

  /**
   * Every exactly representable integer is encoded in 32 bits and reads
   * back as itself.
   */
  lemma TruncBits(x: int)
    requires Exact(x)
    ensures Bits(x) < 0x1_0000_0000
    ensures TruncToInt(Bits(x)) == Some(x)
  {
    if x != 0 {
      var m := Abs(x);
      Normalized(m);
      var e := Log2(m);
      var q := Pow2(23 - e);
      var big := m * q;
      var frac := big - FRAC_ONE;
      var s := if x < 0 then 1 else 0;
      var w := Bits(x);
      assert w == s * SIGN_BIT + (BIAS + e) * FRAC_ONE + frac;
      var hi := s * 256 + (BIAS + e);
      assert w == hi * FRAC_ONE + frac;
      DivModUnique(w, hi, frac, FRAC_ONE);
      DivModUnique(hi, s, BIAS + e, 256);
      assert w / FRAC_ONE == hi && hi / 256 == s;
      DivModUnique(w, s, w - s * SIGN_BIT, SIGN_BIT);
      DivModUnique(big, m, 0, q);
      assert 150 - (BIAS + e) == 23 - e;
    }
  }

  /** The image of 1 is that of `1.0f`. */
  lemma ImageOfOne()
    ensures Bits(1) == 0x3F80_0000
  {
    Pow2Known();
    assert Log2(1) == 0;
  }

  /** The images of the axis bounds 16383 and -16383 are those of `16383.0f` and `-16383.0f`. */
  lemma ImageOfAxisBounds()
    ensures Bits(16383) == 0x467F_FC00
    ensures Bits(-16383) == 0xC67F_FC00
  {
    Pow2Known();
    assert Log2(16383) == 13;
    assert 16383 * Pow2(10) - FRAC_ONE == 0x7F_FC00;
  }
}
