/**
 * The 68-byte packet that `NP_GetData` hands to the game (`tir_data` in
 * contrib/npclient/npclient.c): two `short`s, an `unsigned` checksum, six
 * `float` pose values and nine `float`s of padding, laid out little-endian
 * with no gaps. Float fields are held as their 32-bit images.
 */
module Packet {
  import opened Bytes
  import opened Checksum
  import opened Arith

  /** `sizeof(tir_data)`: 2 + 2 + 4 + 6 * 4 + 9 * 4. */
  const PACKET_SIZE: nat := 68

  /** `NPCLIENT_STATUS_OK` and `NPCLIENT_STATUS_DISABLED`. */
  const STATUS_OK: int := 0
  const STATUS_DISABLED: int := 1

  /** The fields of `tir_data` before the padding; `padding[9]` is always written as 0. */
  datatype TirData = TirData(
    status: bv16, frame: bv16, cksum: bv32,
    roll: bv32, pitch: bv32, yaw: bv32,
    tx: bv32, ty: bv32, tz: bv32)

  /** The six pose fields in memory order. */
  function PoseWords(d: TirData): (r: seq<bv32>)
    ensures |r| == 6
  {
    [d.roll, d.pitch, d.yaw, d.tx, d.ty, d.tz]
  }

  /**
   * Byte `i` of the packet: `status` at 0, `frame` at 2, `cksum` at 4, the
   * pose fields from 8 on, and the zero padding from 32 on.
   */
  function ByteAt(d: TirData, i: nat): bv8
    requires i < PACKET_SIZE
  {
    if i < 2 then LE16(d.status)[i]
    else if i < 4 then LE16(d.frame)[i - 2]
    else if i < 8 then LE32(d.cksum)[i - 4]
    else if i < 32 then LE32(PoseWords(d)[(i - 8) / 4])[(i - 8) % 4]
    else 0
  }

  /** The memory image of the packet. */
  function Image(d: TirData): (r: seq<bv8>)
    ensures |r| == PACKET_SIZE
  {
    seq(PACKET_SIZE, i requires 0 <= i < PACKET_SIZE => ByteAt(d, i))
  }

  /** The fields as a reader of the 68 bytes finds them. */
  function Fields(b: seq<bv8>): TirData
    requires |b| == PACKET_SIZE
  {
    TirData(ReadLE16(b, 0), ReadLE16(b, 2), ReadLE32(b, 4),
            ReadLE32(b, 8), ReadLE32(b, 12), ReadLE32(b, 16),
            ReadLE32(b, 20), ReadLE32(b, 24), ReadLE32(b, 28))
  }

  /** The struct layout: where each field's bytes lie in the image. */
  predicate Layout(b: seq<bv8>, d: TirData)
  {
    && |b| == PACKET_SIZE
    && b[0..2] == LE16(d.status) && b[2..4] == LE16(d.frame) && b[4..8] == LE32(d.cksum)
    && b[8..12] == LE32(d.roll) && b[12..16] == LE32(d.pitch) && b[16..20] == LE32(d.yaw)
    && b[20..24] == LE32(d.tx) && b[24..28] == LE32(d.ty) && b[28..32] == LE32(d.tz)
    && b[32..] == Zeros(36)
  }

  /** The image has the layout of `tir_data`. */
  lemma ImageLayout(d: TirData)
    ensures Layout(Image(d), d)
  {
    HeaderSlices(d);
    PoseSlice(d, 0);
    PoseSlice(d, 1);
    PoseSlice(d, 2);
    PoseSlice(d, 3);
    PoseSlice(d, 4);
    PoseSlice(d, 5);
    PaddingSlice(d);
  }

  /** The bytes of `status`, `frame` and `cksum`. */
  lemma HeaderSlices(d: TirData)
    ensures Image(d)[0..2] == LE16(d.status) && Image(d)[2..4] == LE16(d.frame)
    ensures Image(d)[4..8] == LE32(d.cksum)
  {
    var b := Image(d);
    assert b[0..2] == LE16(d.status);
    assert b[2..4] == LE16(d.frame);
    assert b[4..8] == LE32(d.cksum);
  }

  /** The padding is zero. */
  lemma PaddingSlice(d: TirData)
    ensures Image(d)[32..] == Zeros(36)
  {
    var b := Image(d);
    assert b[32..] == Zeros(36);
  }

  /** The bytes of pose field `k`. */
  lemma PoseSlice(d: TirData, k: nat)
    requires k < 6
    ensures Image(d)[8 + 4 * k..12 + 4 * k] == LE32(PoseWords(d)[k])
  {
    var b := Image(d);
    forall j | 0 <= j < 4
      ensures b[8 + 4 * k + j] == LE32(PoseWords(d)[k])[j]
    {
      PoseByte(d, k, j);
    }
  }

  /** Byte `j` of pose field `k`. */
  lemma PoseByte(d: TirData, k: nat, j: nat)
    requires k < 6 && j < 4
    ensures ByteAt(d, 8 + 4 * k + j) == LE32(PoseWords(d)[k])[j]
  {
    var i := 8 + 4 * k + j;
    DivModUnique(4 * k + j, k, j, 4);
    assert (i - 8) / 4 == k && (i - 8) % 4 == j;
  }

  /** A buffer with the layout of `d` reads back as `d`. */
  lemma FieldsOfLayout(b: seq<bv8>, d: TirData)
    requires Layout(b, d)
    ensures Fields(b) == d
  {
    ReadLE16At(b, 0, d.status);
    ReadLE16At(b, 2, d.frame);
    ReadLE32At(b, 4, d.cksum);
    ReadLE32At(b, 8, d.roll);
    ReadLE32At(b, 12, d.pitch);
    ReadLE32At(b, 16, d.yaw);
    ReadLE32At(b, 20, d.tx);
    ReadLE32At(b, 24, d.ty);
    ReadLE32At(b, 28, d.tz);
  }

  /** Every field reads back from the image. */
  lemma FieldsOfImage(d: TirData)
    ensures Fields(Image(d)) == d
  {
    ImageLayout(d);
    FieldsOfLayout(Image(d), d);
  }

  /** Storing a checksum into bytes 4 to 7 of an image gives the image with that checksum. */
  lemma StoreCksumField(d: TirData, c: bv32)
    ensures Image(d)[..4] + LE32(c) + Image(d)[8..] == Image(d.(cksum := c))
  {
    var b, b2 := Image(d), Image(d.(cksum := c));
    forall i | 0 <= i < PACKET_SIZE
      ensures (b[..4] + LE32(c) + b[8..])[i] == b2[i]
    {
      if 8 <= i < 32 {
        assert PoseWords(d) == PoseWords(d.(cksum := c));
      }
    }
  }

  /** The packet bytes with the checksum field zeroed: what `cksum` is computed over. */
  function Unsealed(b: seq<bv8>): (r: seq<bv8>)
    requires |b| == PACKET_SIZE
    ensures |r| == PACKET_SIZE
  {
    b[..4] + [0, 0, 0, 0] + b[8..]
  }

  /** The packet with its checksum: computed with the field zeroed, then stored. */
  function Seal(d: TirData): (r: seq<bv8>)
    ensures |r| == PACKET_SIZE
  {
    var blank := Image(d.(cksum := 0));
    Image(d.(cksum := CksumOf(blank)))
  }

  /** The check a receiver makes: the stored checksum is that of the packet with the field zeroed. */
  predicate Verifies(b: seq<bv8>)
    requires |b| == PACKET_SIZE
  {
    ReadLE32(b, 4) == CksumOf(Unsealed(b))
  }

  /** Whatever is stored in bytes 4 to 7, zeroing them gives the same packet. */
  lemma UnsealedStore(b: seq<bv8>, c: bv32)
    requires |b| == PACKET_SIZE
    ensures Unsealed(b[..4] + LE32(c) + b[8..]) == Unsealed(b)
  {
    var b2 := b[..4] + LE32(c) + b[8..];
    assert b2[..4] == b[..4] && b2[8..] == b[8..];
  }

  /** A packet whose checksum field is already zero is its own unsealed form. */
  lemma UnsealedOfZero(b: seq<bv8>)
    requires |b| == PACKET_SIZE && b[4..8] == LE32(0)
    ensures Unsealed(b) == b
  {
    assert LE32(0) == [0, 0, 0, 0];
    assert b == b[..4] + b[4..8] + b[8..];
  }

  /** Zeroing the checksum field of an image gives the image with checksum 0. */
  lemma UnsealedImage(d: TirData, c: bv32)
    ensures Unsealed(Image(d.(cksum := c))) == Image(d.(cksum := 0))
  {
    var blank := Image(d.(cksum := 0));
    StoreCksumField(d.(cksum := 0), c);
    assert d.(cksum := 0).(cksum := c) == d.(cksum := c);
    UnsealedStore(blank, c);
    ImageLayout(d.(cksum := 0));
    UnsealedOfZero(blank);
  }

  /**
   * A sealed packet passes the receiver's check, and every field but the
   * checksum is the one it was built from.
   */
  lemma SealVerifies(d: TirData)
    ensures Verifies(Seal(d))
    ensures Fields(Seal(d)) == d.(cksum := Fields(Seal(d)).cksum)
  {
    var c := CksumOf(Image(d.(cksum := 0)));
    UnsealedImage(d, c);
    FieldsOfImage(d.(cksum := c));
  }
}
