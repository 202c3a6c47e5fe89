/**
 * The identification exports of the client (`NP_GetSignature` and
 * `NP_QueryVersion` in contrib/npclient/npclient.c). The two signature
 * strings are stored split into two blocks each; the plain text of a
 * signature is the element-wise XOR of its two blocks, padded with zero
 * bytes to 200.
 */
module Signature {
  import opened Bytes

  /** The size of each of the two character arrays of `tir_signature`. */
  const SIGNATURE_SIZE: nat := 200

  /** The version `NP_QueryVersion` reports. */
  const VERSION: bv16 := 0x0500

  /** The two blocks of the application signature, 98 bytes each. */
  const PART2_2: seq<bv8> :=
    [0xe3, 0xe5, 0x8e, 0xe8, 0x06, 0xd4, 0xab] +
    [0xcf, 0xfa, 0x51, 0xa6, 0x84, 0x69, 0x52] +
    [0x21, 0xde, 0x6b, 0x71, 0xe6, 0xac, 0xaa] +
    [0x16, 0xfc, 0x89, 0xd6, 0xac, 0xe7, 0xf8] +
    [0x7c, 0x09, 0x6a, 0x8b, 0x8b, 0x64, 0x0b] +
    [0x7c, 0xc3, 0x61, 0x7f, 0xc2, 0x97, 0xd3] +
    [0x33, 0xd9, 0x99, 0x59, 0xbe, 0xed, 0xdc] +
    [0x2c, 0x5d, 0x93, 0x5c, 0xd4, 0xdd, 0xdf] +
    [0x8b, 0xd5, 0x1d, 0x46, 0x95, 0xbd, 0x10] +
    [0x5a, 0xa9, 0xd1, 0x9f, 0x71, 0x70, 0xd3] +
    [0x94, 0x3c, 0x71, 0x5d, 0x53, 0x1c, 0x52] +
    [0xe4, 0xc0, 0xf1, 0x7f, 0x87, 0xd0, 0x70] +
    [0xa4, 0x04, 0x07, 0x05, 0x69, 0x2a, 0x16] +
    [0x15, 0x55, 0x85, 0xa6, 0x30, 0xc8, 0xb6]
  const PART2_1: seq<bv8> :=
    [0x8b, 0x84, 0xfc, 0x8c, 0x71, 0xb5, 0xd9] +
    [0xaa, 0xda, 0x32, 0xc7, 0xe9, 0x0c, 0x20] +
    [0x40, 0xd4, 0x4b, 0x02, 0x89, 0xca, 0xde] +
    [0x61, 0x9d, 0xfb, 0xb3, 0x8c, 0x97, 0x8a] +
    [0x13, 0x6a, 0x0f, 0xf8, 0xf8, 0x0d, 0x65] +
    [0x1b, 0xe3, 0x05, 0x1e, 0xb6, 0xf6, 0xd9] +
    [0x13, 0xad, 0xeb, 0x38, 0xdd, 0x86, 0xfc] +
    [0x59, 0x2e, 0xf6, 0x2e, 0xf4, 0xb0, 0xb0] +
    [0xfd, 0xb0, 0x70, 0x23, 0xfb, 0xc9, 0x1a] +
    [0x50, 0x89, 0x92, 0xf0, 0x01, 0x09, 0xa1] +
    [0xfd, 0x5b, 0x19, 0x29, 0x73, 0x59, 0x2b] +
    [0x81, 0x83, 0x9e, 0x11, 0xf3, 0xa2, 0x1f] +
    [0xc8, 0x24, 0x53, 0x60, 0x0a, 0x42, 0x78] +
    [0x7a, 0x39, 0xea, 0xc1, 0x59, 0xad, 0xc5]

  /** The two blocks of the DLL signature, 106 bytes each. */
  const PART1_2: seq<bv8> :=
    [0x6d, 0x0b, 0xab, 0x56, 0x74, 0xe6, 0x1c] +
    [0xff, 0x24, 0xe8, 0x34, 0x8f, 0x00, 0x63] +
    [0xed, 0x47, 0x5d, 0x9b, 0xe1, 0xe0, 0x1d] +
    [0x02, 0x31, 0x22, 0x89, 0xac, 0x1f, 0xc0] +
    [0xbd, 0x29, 0x13, 0x23, 0x3e, 0x98, 0xdd] +
    [0xd0, 0x2a, 0x98, 0x7d, 0x29, 0xff, 0x2a] +
    [0x7a, 0x86, 0x6c, 0x39, 0x22, 0x3b, 0x86] +
    [0x86, 0xfa, 0x78, 0x31, 0xc3, 0x54, 0xa4] +
    [0x78, 0xaa, 0xc3, 0xca, 0x77, 0x32, 0xd3] +
    [0x67, 0xbd, 0x94, 0x9d, 0x7e, 0x6d, 0x31] +
    [0x6b, 0xa1, 0xc3, 0x14, 0x8c, 0x17, 0xb5] +
    [0x64, 0x51, 0x5b, 0x79, 0x51, 0xa8, 0xcf] +
    [0x5d, 0x1a, 0xb4, 0x84, 0x9c, 0x29, 0xf0] +
    [0xe6, 0x69, 0x73, 0x66, 0x0e, 0x4b, 0x3c] +
    [0x7d, 0x99, 0x8b, 0x4e, 0x7d, 0xaf, 0x86] +
    [0x92]
  const PART1_1: seq<bv8> :=
    [0x1d, 0x79, 0xce, 0x35, 0x1d, 0x95, 0x79] +
    [0xdf, 0x4c, 0x8d, 0x55, 0xeb, 0x20, 0x17] +
    [0x9f, 0x26, 0x3e, 0xf0, 0x88, 0x8e, 0x7a] +
    [0x08, 0x11, 0x52, 0xfc, 0xd8, 0x3f, 0xb9] +
    [0xd2, 0x5c, 0x61, 0x03, 0x56, 0xfd, 0xbc] +
    [0xb4, 0x0a, 0xf1, 0x13, 0x5d, 0x90, 0x0a] +
    [0x0e, 0xee, 0x09, 0x19, 0x45, 0x5a, 0xeb] +
    [0xe3, 0xf0, 0x58, 0x5f, 0xac, 0x23, 0x84] +
    [0x1f, 0xc5, 0xe3, 0xa6, 0x18, 0x5d, 0xb8] +
    [0x47, 0xdc, 0xe6, 0xf2, 0x0b, 0x03, 0x55] +
    [0x61, 0xab, 0xe3, 0x57, 0xe3, 0x67, 0xcc] +
    [0x16, 0x38, 0x3c, 0x11, 0x25, 0x88, 0x8a] +
    [0x24, 0x7f, 0xf7, 0xeb, 0xf2, 0x5d, 0x82] +
    [0x89, 0x05, 0x53, 0x32, 0x6b, 0x28, 0x54] +
    [0x13, 0xf6, 0xe7, 0x21, 0x1a, 0xc6, 0xe3] +
    [0xe1]

  /** The element-wise XOR of two blocks of equal length. */
  function Unmask(x: seq<bv8>, y: seq<bv8>): (r: seq<bv8>)
    requires |x| == |y|
    ensures |r| == |x|
    decreases |x|
  {
    if x == [] then [] else [Xor8(x[0], y[0])] + Unmask(x[1..], y[1..])
  }

  /** Byte `i` of the unmasked block is the XOR of the two blocks' bytes `i`. */
  lemma {:induction false} UnmaskAt(x: seq<bv8>, y: seq<bv8>, i: nat)
    requires |x| == |y| && i < |x|
    ensures Unmask(x, y)[i] == Xor8(x[i], y[i])
    decreases |x|
  {
    if i > 0 {
      UnmaskAt(x[1..], y[1..], i - 1);
    }
  }

  /**
   * A signature array: the unmasked blocks, then zero bytes up to 200. Byte
   * `i` is the XOR of the blocks' bytes `i` below the block length, and 0
   * from there on.
   */
  function Signature(x: seq<bv8>, y: seq<bv8>): (r: seq<bv8>)
    requires |x| == |y| <= SIGNATURE_SIZE
    ensures |r| == SIGNATURE_SIZE
    ensures forall i :: 0 <= i < |x| ==> r[i] == Xor8(x[i], y[i])
    ensures forall i :: |x| <= i < SIGNATURE_SIZE ==> r[i] == 0
  {
    var r := Unmask(x, y) + Zeros(SIGNATURE_SIZE - |x|);
    assert forall i :: 0 <= i < |x| ==> r[i] == Xor8(x[i], y[i]) by {
      forall i | 0 <= i < |x| ensures r[i] == Xor8(x[i], y[i]) {
        UnmaskAt(x, y, i);
      }
    }
    r
  }

  /** `DllSignature`: `part1_2[i] ^ part1_1[i]`, then zeros. */
  function DllSignature(): seq<bv8>
  {
    Signature(PART1_2, PART1_1)
  }

  /** `AppSignature`: `part2_1[i] ^ part2_2[i]`, then zeros. */
  function AppSignature(): seq<bv8>
  {
    Signature(PART2_1, PART2_2)
  }

  /**
   * Fills `sig` (its two arrays `dll` and `app`) with the DLL and the
   * application signatures and returns 0. Every byte of both arrays is
   * written, whatever they held before.
   */
  method GetSignature(dll: array<bv8>, app: array<bv8>) returns (status: int)
    requires dll.Length == SIGNATURE_SIZE && app.Length == SIGNATURE_SIZE && dll != app
    modifies dll, app
    ensures dll[..] == DllSignature() && app[..] == AppSignature()
    ensures status == 0
  {
    Fill(dll, PART1_2, PART1_1);
    Fill(app, PART2_1, PART2_2);
    status := 0;
  }

  /** The two loops that write one signature array: the XOR of the blocks, then the zero padding. */
  method Fill(a: array<bv8>, x: seq<bv8>, y: seq<bv8>)
    requires a.Length == SIGNATURE_SIZE && |x| == |y| <= SIGNATURE_SIZE
    modifies a
    ensures a[..] == Signature(x, y)
  {
    var i := 0;
    while i < |x|
      invariant 0 <= i <= |x|
      invariant forall k :: 0 <= k < i ==> a[k] == Xor8(x[k], y[k])
    {
      a[i] := Xor8(x[i], y[i]);
      i := i + 1;
    }
    while i < SIGNATURE_SIZE
      invariant |x| <= i <= SIGNATURE_SIZE
      invariant forall k :: 0 <= k < |x| ==> a[k] == Xor8(x[k], y[k])
      invariant forall k :: |x| <= k < i ==> a[k] == 0
    {
      a[i] := 0;
      i := i + 1;
    }
    assert a[..] == Signature(x, y);
  }

  /** `NP_QueryVersion`: stores 0x0500 and returns 0. */
  method QueryVersion() returns (status: int, version: bv16)
    ensures status == 0 && version == VERSION
  {
    version := VERSION;
    status := 0;
  }
}
