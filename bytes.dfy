/**
 * Byte-level vocabulary of the x86 memory images the client bridge works on:
 * little-endian fields, the sign extension performed when a `short` or a
 * `signed char` is read into an `int`, and the arithmetic right shift that the
 * compiler applies to a signed `int`.
 */
module Bytes {

  /** Little-endian image of a 16-bit field. */
  function LE16(w: bv16): (r: seq<bv8>)
    ensures |r| == 2
  {
    [(w & 0xFF) as bv8, (w >> 8) as bv8]
  }

  /** Little-endian image of a 32-bit field. */
  function LE32(w: bv32): (r: seq<bv8>)
    ensures |r| == 4
  {
    [(w & 0xFF) as bv8, ((w >> 8) & 0xFF) as bv8, ((w >> 16) & 0xFF) as bv8, (w >> 24) as bv8]
  }

  /** `n` zero bytes. */
  function Zeros(n: nat): (r: seq<bv8>)
    ensures |r| == n && forall i :: 0 <= i < n ==> r[i] == 0
  {
    seq(n, _ => 0)
  }

  /** The 16-bit field stored at byte offset `at`. */
  function ReadLE16(b: seq<bv8>, at: nat): bv16
    requires at + 2 <= |b|
  {
    (b[at] as bv16) | ((b[at + 1] as bv16) << 8)
  }

  /** The 32-bit field stored at byte offset `at`. */
  function ReadLE32(b: seq<bv8>, at: nat): bv32
    requires at + 4 <= |b|
  {
    (b[at] as bv32) | ((b[at + 1] as bv32) << 8) | ((b[at + 2] as bv32) << 16) | ((b[at + 3] as bv32) << 24)
  }

  lemma LE16RoundTrip(w: bv16)
    ensures ReadLE16(LE16(w), 0) == w
  {
  }

  lemma LE32RoundTrip(w: bv32)
    ensures ReadLE32(LE32(w), 0) == w
  {
  }

  /** Reading a field back from any buffer that holds its image at `at`. */
  lemma ReadLE32At(b: seq<bv8>, at: nat, w: bv32)
    requires at + 4 <= |b| && b[at..at + 4] == LE32(w)
    ensures ReadLE32(b, at) == w
  {
    assert b[at] == LE32(w)[0] && b[at + 1] == LE32(w)[1];
    assert b[at + 2] == LE32(w)[2] && b[at + 3] == LE32(w)[3];
    LE32RoundTrip(w);
  }

  lemma ReadLE16At(b: seq<bv8>, at: nat, w: bv16)
    requires at + 2 <= |b| && b[at..at + 2] == LE16(w)
    ensures ReadLE16(b, at) == w
  {
    assert b[at] == LE16(w)[0] && b[at + 1] == LE16(w)[1];
    LE16RoundTrip(w);
  }

  /*
   * The machine operations on a 32-bit `int` and an 8-bit `unsigned char`.
   * Naming each one keeps the statement-by-statement proofs about the
   * checksum and the cipher at the level of these operations.
   */

  /**
   * `n` converted to a 32-bit `unsigned`: its binary digits from the lowest
   * up, with everything above bit 31 shifted out.
   */
  function U32(n: nat): bv32
    decreases n
  {
    if n == 0 then 0
    else (U32(n / 2) << 1) | (if n % 2 == 0 then 0 else 1)
  }

  /** `x + y` on a 32-bit `int`, wrapping modulo 2^32. */
  function Add32(x: bv32, y: bv32): bv32 { x + y }

  /** `x ^ y` on a 32-bit `int`. */
  function Xor32(x: bv32, y: bv32): bv32 { x ^ y }

  /** `x << k` on a 32-bit `int`: the bits shifted out are lost. */
  function Shl32(x: bv32, k: bv32): bv32
    requires k < 32
  {
    x << k
  }

  /** `x + y` on an `unsigned char`, wrapping modulo 256. */
  function Add8(x: bv8, y: bv8): bv8 { x + y }

  /** `x ^ y` on an `unsigned char`. */
  function Xor8(x: bv8, y: bv8): bv8 { x ^ y }

  const SIGN32: bv32 := 0x8000_0000

  /**
   * `*(short int*)p` read into an `int`: the little-endian word, sign-extended
   * to 32 bits. The low 16 bits are the word; bits 15 to 31 all copy its sign.
   */
  function Short(lo: bv8, hi: bv8): (r: bv32)
    ensures r & 0xFFFF == (lo as bv32) | ((hi as bv32) << 8)
    ensures r >> 15 == if hi < 0x80 then 0 else 0x1_FFFF
  {
    var w := (lo as bv32) | ((hi as bv32) << 8);
    if hi & 0x80 == 0 then w else w | 0xFFFF_0000
  }

  /**
   * `*(signed char*)p` read into an `int`: the byte, sign-extended to 32 bits.
   * The low 8 bits are the byte; bits 7 to 31 all copy its sign.
   */
  function SignedByte(b: bv8): (r: bv32)
    ensures r & 0xFF == b as bv32
    ensures r >> 7 == if b < 0x80 then 0 else 0x1FF_FFFF
  {
    if b & 0x80 == 0 then b as bv32 else (b as bv32) | 0xFFFF_FF00
  }

  /**
   * `x >> k` on a signed 32-bit `int` as the compiler of the source performs it:
   * an arithmetic shift that copies the sign bit into the vacated positions.
   * Dafny's `>>` on `bv32` is the logical shift.
   */
  function Sar(x: bv32, k: bv32): bv32
    requires k < 32
  {
    if x & SIGN32 == 0 then x >> k else !((!x) >> k)
  }

  /**
   * `y` is `x` shifted right by `k` with the sign propagated: shifting `y`
   * back gives `x` with its low `k` bits cleared, and the top `k + 1` bits of
   * `y` are all copies of the sign of `x`.
   */
  predicate SignFilledShift(x: bv32, k: bv32, y: bv32)
    requires 0 < k < 32
  {
    && y << k == x & (0xFFFF_FFFF << k)
    && y >> (31 - k) == (if x & SIGN32 == 0 then 0 else 0xFFFF_FFFF >> (31 - k))
  }

  /** Sar is an arithmetic shift for every shift amount the checksum uses. */
  lemma SarSignFills(x: bv32)
    ensures SignFilledShift(x, 1, Sar(x, 1))
    ensures SignFilledShift(x, 5, Sar(x, 5))
    ensures SignFilledShift(x, 6, Sar(x, 6))
    ensures SignFilledShift(x, 11, Sar(x, 11))
    ensures SignFilledShift(x, 17, Sar(x, 17))
  {
    if x & SIGN32 == 0 {
      assert Sar(x, 1) == x >> 1 && Sar(x, 5) == x >> 5 && Sar(x, 6) == x >> 6;
      assert Sar(x, 11) == x >> 11 && Sar(x, 17) == x >> 17;
    } else {
      assert Sar(x, 1) == !((!x) >> 1) && Sar(x, 5) == !((!x) >> 5) && Sar(x, 6) == !((!x) >> 6);
      assert Sar(x, 11) == !((!x) >> 11) && Sar(x, 17) == !((!x) >> 17);
    }
  }
}
