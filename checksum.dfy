/**
 * The integrity code that the client bridge stores in every outgoing packet
 * (`cksum` in contrib/npclient/npclient.c). The accumulator `c` and the
 * temporaries `a0`, `a2` are signed 32-bit `int`s, modelled as `bv32` with
 * the wrapping machine operations of module Bytes; `>>` on them is the
 * arithmetic shift `Sar`.
 */
module Checksum {
  import opened Bytes

  /** One four-byte group: two sign-extended 16-bit words folded into `c`. */
  function Round(c: bv32, b0: bv8, b1: bv8, b2: bv8, b3: bv8): bv32
  {
    var c1 := Add32(c, Short(b0, b1));
    var a2 := Shl32(Xor32(Short(b2, b3), Shl32(c1, 5)), 11);
    var c2 := Xor32(c1, a2);
    Add32(c2, Sar(c2, 11))
  }

  /** The group loop: `rounds` four-byte groups taken from the front of `buf`. */
  function Fold(c: bv32, buf: seq<bv8>, rounds: nat): bv32
    requires 4 * rounds <= |buf|
    decreases rounds
  {
    if rounds == 0 then c
    else Fold(Round(c, buf[0], buf[1], buf[2], buf[3]), buf[4..], rounds - 1)
  }

  /** The mix of the zero to three bytes left after the last whole group. */
  function Tail(c: bv32, t: seq<bv8>): bv32
    requires |t| < 4
  {
    if |t| == 3 then Tail3(c, t[0], t[1], t[2])
    else if |t| == 2 then Tail2(c, t[0], t[1])
    else if |t| == 1 then Tail1(c, t[0])
    else c
  }

  /** Three bytes left: a 16-bit word, then a signed byte. */
  function Tail3(c: bv32, b0: bv8, b1: bv8, b2: bv8): bv32
  {
    var c1 := Add32(c, Short(b0, b1));
    var a2 := Xor32(Shl32(SignedByte(b2), 2), c1);
    var c2 := Xor32(c1, Shl32(a2, 16));
    Add32(c2, Sar(c2, 11))
  }

  /** Two bytes left: one 16-bit word. */
  function Tail2(c: bv32, b0: bv8, b1: bv8): bv32
  {
    var c1 := Add32(c, Short(b0, b1));
    var c2 := Xor32(c1, Shl32(c1, 11));
    Add32(c2, Sar(c2, 17))
  }

  /** One byte left: a signed byte. */
  function Tail1(c: bv32, b0: bv8): bv32
  {
    var c1 := Add32(c, SignedByte(b0));
    var c2 := Xor32(c1, Shl32(c1, 10));
    Add32(c2, Sar(c2, 1))
  }

  /** The six final mixing steps. */
  function Avalanche(c: bv32): bv32
  {
    var c1 := Xor32(c, Shl32(c, 3));
    var c2 := Add32(c1, Sar(c1, 5));
    var c3 := Xor32(c2, Shl32(c2, 4));
    var c4 := Add32(c3, Sar(c3, 17));
    var c5 := Xor32(c4, Shl32(c4, 25));
    Add32(c5, Sar(c5, 6))
  }

  /** Sizes are `unsigned`: below 2^32. */
  predicate ValidSize(size: nat) { size < 0x1_0000_0000 }

  /**
   * The checksum of a whole buffer `s`: zero when `s` is empty; otherwise `c`
   * starts at the length, takes `|s| / 4` groups, then the `|s| % 4` tail
   * bytes, then the avalanche.
   */
  function CksumOf(s: seq<bv8>): (r: bv32)
    requires ValidSize(|s|)
    ensures |s| == 0 ==> r == 0
  {
    if |s| == 0 then 0
    else Avalanche(Tail(Fold(U32(|s|), s, |s| / 4), s[4 * (|s| / 4)..]))
  }

  /**
   * `cksum(buf, size)`: `size >> 2` groups read through a moving pointer,
   * then the tail and the avalanche (method Finish). The result is the
   * checksum of the bytes `0 .. size - 1` and depends on no other byte.
   */
  method Cksum(buf: array<bv8>, size: nat) returns (r: bv32)
    requires size <= buf.Length && ValidSize(size)
    ensures r == CksumOf(buf[..size])
    ensures size == 0 ==> r == 0
  {
    ghost var s := buf[..size];
    var rounds := size / 4;
    var c: bv32 := U32(size);
    if size == 0 {
      assert |s| == 0;
      assert CksumOf(s) == 0;
      return 0;
    }
    var p := 0;
    while rounds != 0
      invariant 0 <= rounds <= size / 4
      invariant p == 4 * (size / 4 - rounds)
      invariant Fold(c, s[p..], rounds) == Fold(U32(size), s, size / 4)
    {
      FoldStep(c, s, p, rounds);
      ghost var c0, p0 := c, p;
      var a0 := Short(buf[p], buf[p + 1]);
      var a2 := Short(buf[p + 2], buf[p + 3]);
      p := p + 4;
      c := Add32(c, a0);
      a2 := Xor32(a2, Shl32(c, 5));
      a2 := Shl32(a2, 11);
      c := Xor32(c, a2);
      c := Add32(c, Sar(c, 11));
      rounds := rounds - 1;
      assert c == Round(c0, s[p0], s[p0 + 1], s[p0 + 2], s[p0 + 3]);
    }
    assert Fold(c, s[p..], rounds) == c;
    assert s[p..] == buf[p..size];
    r := Finish(c, buf, p, size);
    ChecksumOfParts(s, size, c, buf[p..size]);
  }

  /** One turn of the group loop, seen from byte offset `p`. */
  lemma FoldStep(c: bv32, s: seq<bv8>, p: nat, rounds: nat)
    requires 0 < rounds && p + 4 * rounds <= |s|
    ensures Fold(c, s[p..], rounds) == Fold(Round(c, s[p], s[p + 1], s[p + 2], s[p + 3]), s[p + 4..], rounds - 1)
  {
    assert s[p..][4..] == s[p + 4..];
  }

  /** The checksum of a non-empty buffer, from its group fold and its tail. */
  lemma ChecksumOfParts(s: seq<bv8>, n: nat, folded: bv32, t: seq<bv8>)
    requires ValidSize(n) && n == |s| > 0
    requires folded == Fold(U32(n), s, n / 4) && t == s[4 * (n / 4)..]
    ensures CksumOf(s) == Avalanche(Tail(folded, t))
  {
  }

  /** The `switch (rem)` tail of `cksum` and its closing avalanche. */
  method Finish(c0: bv32, buf: array<bv8>, p: nat, size: nat) returns (r: bv32)
    requires p <= size <= buf.Length && size - p < 4
    ensures r == Avalanche(Tail(c0, buf[p..size]))
  {
    ghost var t := buf[p..size];
    var c := c0;
    var rem := size - p;
    var a2: bv32 := 0;
    if rem == 3 {
      var a0 := Short(buf[p], buf[p + 1]);
      a2 := SignedByte(buf[p + 2]);
      c := Add32(c, a0);
      a2 := Xor32(Shl32(a2, 2), c);
      c := Xor32(c, Shl32(a2, 16));
      a2 := Sar(c, 11);
    } else if rem == 2 {
      a2 := Short(buf[p], buf[p + 1]);
      c := Add32(c, a2);
      c := Xor32(c, Shl32(c, 11));
      a2 := Sar(c, 17);
    } else if rem == 1 {
      a2 := SignedByte(buf[p]);
      c := Add32(c, a2);
      c := Xor32(c, Shl32(c, 10));
      a2 := Sar(c, 1);
    }
    if rem != 0 {
      c := Add32(c, a2);
    }
    TailOf(c0, buf, p, size, c);
    ghost var mixed := c;
    c := Xor32(c, Shl32(c, 3));
    c := Add32(c, Sar(c, 5));
    c := Xor32(c, Shl32(c, 4));
    c := Add32(c, Sar(c, 17));
    c := Xor32(c, Shl32(c, 25));
    c := Add32(c, Sar(c, 6));
    assert c == Avalanche(mixed);
    r := c;
  }

  /**
   * The value the `switch (rem)` statement leaves in `c` is the tail mix of
   * the remaining bytes.
   */
  lemma TailOf(c0: bv32, buf: array<bv8>, p: nat, size: nat, c: bv32)
    requires p <= size <= buf.Length && size - p < 4
    requires size - p == 3 ==> c == Tail3(c0, buf[p], buf[p + 1], buf[p + 2])
    requires size - p == 2 ==> c == Tail2(c0, buf[p], buf[p + 1])
    requires size - p == 1 ==> c == Tail1(c0, buf[p])
    requires size - p == 0 ==> c == c0
    ensures c == Tail(c0, buf[p..size])
  {
    ghost var t := buf[p..size];
    if size - p == 3 {
      assert t[0] == buf[p] && t[1] == buf[p + 1] && t[2] == buf[p + 2];
    } else if size - p == 2 {
      assert t[0] == buf[p] && t[1] == buf[p + 1];
    } else if size - p == 1 {
      assert t[0] == buf[p];
    }
  }

  /** The group loop reads the first `4 * rounds` bytes and no others. */
  lemma {:induction false} FoldReadsPrefix(c: bv32, b1: seq<bv8>, b2: seq<bv8>, rounds: nat)
    requires 4 * rounds <= |b1| && 4 * rounds <= |b2|
    requires b1[..4 * rounds] == b2[..4 * rounds]
    ensures Fold(c, b1, rounds) == Fold(c, b2, rounds)
    decreases rounds
  {
    if rounds > 0 {
      assert b1[0] == b1[..4 * rounds][0] && b1[1] == b1[..4 * rounds][1];
      assert b1[2] == b1[..4 * rounds][2] && b1[3] == b1[..4 * rounds][3];
      assert b2[0] == b2[..4 * rounds][0] && b2[1] == b2[..4 * rounds][1];
      assert b2[2] == b2[..4 * rounds][2] && b2[3] == b2[..4 * rounds][3];
      assert b1[4..][..4 * (rounds - 1)] == b1[..4 * rounds][4..];
      assert b2[4..][..4 * (rounds - 1)] == b2[..4 * rounds][4..];
      var c1 := Round(c, b1[0], b1[1], b1[2], b1[3]);
      assert c1 == Round(c, b2[0], b2[1], b2[2], b2[3]);
      FoldReadsPrefix(c1, b1[4..], b2[4..], rounds - 1);
    }
  }

  /**
   * When the size is a positive multiple of four (the 68-byte packet takes 17
   * groups), the tail contributes nothing: the result is the avalanche of
   * the group fold.
   */
  lemma CksumAligned(s: seq<bv8>)
    requires ValidSize(|s|) && |s| > 0 && |s| % 4 == 0
    ensures CksumOf(s) == Avalanche(Fold(U32(|s|), s, |s| / 4))
  {
    var folded := Fold(U32(|s|), s, |s| / 4);
    assert s[4 * (|s| / 4)..] == [];
    assert Tail(folded, s[4 * (|s| / 4)..]) == folded;
  }
}
