/**
 * Facts about natural-number division and powers of two that the models of
 * the table walk and of the float encoding need.
 */
module Arith {

  /** Advancing a position by one advances its residue by one, wrapping at `t`. */
  lemma ModStep(m: nat, t: nat)
    requires t > 0
    ensures (m + 1) % t == if m % t + 1 >= t then m % t + 1 - t else m % t + 1
  {
    var q, r := m / t, m % t;
    assert m == q * t + r;
    if r + 1 < t {
      ModUnique(m + 1, q, r + 1, t);
    } else {
      assert m + 1 == (q + 1) * t + 0;
      ModUnique(m + 1, q + 1, 0, t);
    }
  }

  /** The residue of `q * t + r` is `r` when `r < t`. */
  lemma {:induction false} ModUnique(a: nat, q: nat, r: nat, t: nat)
    requires t > 0 && r < t && a == q * t + r
    ensures a % t == r
    decreases q
  {
    if q > 0 {
      assert a - t == (q - 1) * t + r;
      ModUnique(a - t, q - 1, r, t);
      ModShift(a - t, t);
    }
  }

  /** Adding the modulus does not change the residue. */
  lemma ModShift(a: nat, t: nat)
    requires t > 0
    ensures (a + t) % t == a % t
  {
    var q, r := a / t, a % t;
    var q2, r2 := (a + t) / t, (a + t) % t;
    assert a == q * t + r;
    assert a + t == q2 * t + r2;
    var d := q + 1 - q2;
    assert d * t == (q + 1) * t - q2 * t;
    assert d * t == r2 - r;
    if d >= 1 {
      MulAtLeast(d, t);
    } else if d <= -1 {
      MulAtLeast(-d, t);
    }
  }

  lemma MulAtLeast(d: int, t: int)
    requires d >= 1 && t > 0
    ensures d * t >= t
  {
  }

  /** `2^k`. */
  function Pow2(k: nat): (r: nat)
    ensures r >= 1
  {
    if k == 0 then 1 else 2 * Pow2(k - 1)
  }

  /** The powers of two that the float encoding works with. */
  lemma Pow2Known()
    ensures Pow2(8) == 0x100 && Pow2(10) == 0x400
    ensures Pow2(23) == 0x80_0000 && Pow2(24) == 0x100_0000
  {
    assert Pow2(6) == 64;
    assert Pow2(12) == 4096;
    assert Pow2(18) == 0x4_0000;
  }

  /** Powers of two multiply by adding exponents. */
  lemma {:induction false} Pow2Add(a: nat, b: nat)
    ensures Pow2(a) * Pow2(b) == Pow2(a + b)
    decreases a
  {
    if a > 0 {
      Pow2Add(a - 1, b);
    }
  }

  /** Larger exponents give larger powers. */
  lemma {:induction false} Pow2Mono(a: nat, b: nat)
    requires a <= b
    ensures Pow2(a) <= Pow2(b)
    decreases b
  {
    if a < b {
      Pow2Mono(a, b - 1);
    }
  }

  /** Division undoes multiplication by a positive divisor, and the remainder is `r`. */
  lemma DivModUnique(a: nat, q: nat, r: nat, t: nat)
    requires t > 0 && r < t && a == q * t + r
    ensures a / t == q && a % t == r
  {
    ModUnique(a, q, r, t);
    assert a == (a / t) * t + a % t;
    assert (a / t) * t == q * t;
    MulCancel(a / t, q, t);
  }

  /** A positive factor can be cancelled. */
  lemma MulCancel(x: nat, y: nat, t: nat)
    requires t > 0 && x * t == y * t
    ensures x == y
  {
    if x < y {
      assert (y - x) * t == y * t - x * t;
      MulAtLeast(y - x, t);
    } else if x > y {
      assert (x - y) * t == x * t - y * t;
      MulAtLeast(x - y, t);
    }
  }
}
