/**
 * The client as the game sees it: the process statics of
 * contrib/npclient/npclient.c held as the fields of one `Session` object, and
 * the exports `NP_GetData` and `NP_RegisterProgramProfileID` with the
 * mapping helpers `FTCreateMapping` and `FTDestroyMapping` as methods on it.
 * Every method changes the fields as the matching function of `Sequencer`
 * says, and `GetData` writes the packet that `Sequencer.Poll` describes.
 */
module Bridge {
  import opened Wrappers
  import opened Bytes
  import opened Checksum
  import opened Cipher
  import opened Packet
  import opened Sequencer

  /** Writes a 16-bit field: two bytes at offsets `at` and `at + 1`. */
  method Put16(a: array<bv8>, at: nat, x: seq<bv8>)
    requires |x| == 2 && at + 2 <= a.Length
    modifies a
    ensures a[..] == old(a[..])[..at] + x + old(a[..])[at + 2..]
    ensures a[..at] == old(a[..at]) && a[at..at + 2] == x
  {
    a[at] := x[0];
    a[at + 1] := x[1];
    assert a[..] == old(a[..])[..at] + x + old(a[..])[at + 2..];
  }

  /** Writes a 32-bit field: four bytes from offset `at`. */
  method Put32(a: array<bv8>, at: nat, x: seq<bv8>)
    requires |x| == 4 && at + 4 <= a.Length
    modifies a
    ensures a[..] == old(a[..])[..at] + x + old(a[..])[at + 4..]
    ensures a[..at] == old(a[..at]) && a[at..at + 4] == x
  {
    a[at] := x[0];
    a[at + 1] := x[1];
    a[at + 2] := x[2];
    a[at + 3] := x[3];
    assert a[..] == old(a[..])[..at] + x + old(a[..])[at + 4..];
  }

  /** A prefix that agrees with `img`, followed by a field that agrees, is a longer prefix that agrees. */
  lemma PrefixGrow(b: seq<bv8>, img: seq<bv8>, at: nat, n: nat)
    requires at + n <= |b| == |img|
    requires b[..at] == img[..at] && b[at..at + n] == img[at..at + n]
    ensures b[..at + n] == img[..at + n]
  {
    assert b[..at + n] == b[..at] + b[at..at + n];
    assert img[..at + n] == img[..at] + img[at..at + n];
  }

  /**
   * The stores of the packet fields, in address order: `status`, `frame`,
   * `cksum`, the six pose fields and the nine padding floats (all zero).
   */
  method StoreFields(data: array<bv8>, d: TirData)
    requires data.Length == PACKET_SIZE
    modifies data
    ensures data[..] == Image(d)
  {
    StoreHeader(data, d);
    StorePose(data, d);
    StorePadding(data, d);
  }

  /** `status`, `frame` and `cksum`: bytes 0 to 7. */
  method StoreHeader(data: array<bv8>, d: TirData)
    requires data.Length == PACKET_SIZE
    modifies data
    ensures data[..8] == Image(d)[..8]
  {
    ghost var img := Image(d);
    HeaderSlices(d);
    Put16(data, 0, LE16(d.status));
    Put16(data, 2, LE16(d.frame));
    PrefixGrow(data[..], img, 2, 2);
    Put32(data, 4, LE32(d.cksum));
    PrefixGrow(data[..], img, 4, 4);
  }

  /** The six pose fields, `roll` to `tz`: bytes 8 to 31. */
  method StorePose(data: array<bv8>, d: TirData)
    requires data.Length == PACKET_SIZE && data[..8] == Image(d)[..8]
    modifies data
    ensures data[..32] == Image(d)[..32]
  {
    StorePoseField(data, d, 0);
    StorePoseField(data, d, 1);
    StorePoseField(data, d, 2);
    StorePoseField(data, d, 3);
    StorePoseField(data, d, 4);
    StorePoseField(data, d, 5);
  }

  /** Pose field `k`: bytes `8 + 4 * k` to `11 + 4 * k`. */
  method StorePoseField(data: array<bv8>, d: TirData, k: nat)
    requires k < 6 && data.Length == PACKET_SIZE && data[..8 + 4 * k] == Image(d)[..8 + 4 * k]
    modifies data
    ensures data[..12 + 4 * k] == Image(d)[..12 + 4 * k]
  {
    PoseSlice(d, k);
    Put32(data, 8 + 4 * k, LE32(PoseWords(d)[k]));
    PrefixGrow(data[..], Image(d), 8 + 4 * k, 4);
  }

  /** `for (i = 0; i < 9; ++i) data->padding[i] = 0`: bytes 32 to 67. */
  method StorePadding(data: array<bv8>, d: TirData)
    requires data.Length == PACKET_SIZE && data[..32] == Image(d)[..32]
    modifies data
    ensures data[..] == Image(d)
  {
    ghost var img := Image(d);
    var i := 0;
    while i < 9
      invariant 0 <= i <= 9
      invariant data[..32 + 4 * i] == img[..32 + 4 * i]
    {
      PaddingWord(d, i);
      Put32(data, 32 + 4 * i, LE32(0));
      PrefixGrow(data[..], img, 32 + 4 * i, 4);
      i := i + 1;
    }
    assert data[..] == data[..PACKET_SIZE];
  }

  /** Padding float `i` is stored as four zero bytes. */
  lemma PaddingWord(d: TirData, i: nat)
    requires i < 9
    ensures Image(d)[32 + 4 * i..36 + 4 * i] == LE32(0)
  {
    PaddingSlice(d);
    assert LE32(0) == [0, 0, 0, 0];
    assert Image(d)[32 + 4 * i..36 + 4 * i] == Image(d)[32..][4 * i..4 * i + 4];
  }

  /** Storing the checksum of an image with a zero checksum field gives the sealed packet. */
  lemma StoreSeal(d: TirData, c: bv32)
    requires d.cksum == 0 && c == CksumOf(Image(d))
    ensures Image(d)[..4] + LE32(c) + Image(d)[8..] == Seal(d)
  {
    StoreCksumField(d, c);
    assert d.(cksum := 0) == d;
  }

  /** The packet with its checksum: the fields with the checksum field zero, then the checksum of those 68 bytes stored in it. */
  method SealInto(data: array<bv8>, d: TirData)
    requires data.Length == PACKET_SIZE && d.cksum == 0
    modifies data
    ensures data[..] == Seal(d)
  {
    StoreFields(data, d);
    assert data[..PACKET_SIZE] == data[..];
    var c := Cksum(data, PACKET_SIZE);
    Put32(data, 4, LE32(c));
    StoreSeal(d, c);
  }

  /** The loop that looks for a non-zero table byte, stopping at the first. */
  method FindNonZero(t: seq<bv8>) returns (found: bool)
    ensures found <==> NonZero(t)
  {
    found := false;
    var i := 0;
    while i < |t|
      invariant 0 <= i <= |t|
      invariant !found
      invariant forall k :: 0 <= k < i ==> t[k] == 0
    {
      if t[i] != 0 {
        found := true;
        break;
      }
      i := i + 1;
    }
  }

  /** `Next` in the steps `GetData` takes when the record is mapped. */
  lemma NextIs(s0: SessionState, osOk: bool, s1: SessionState, s2: SessionState)
    requires Valid(s0) && s1 == Acquire(s0, osOk) && s1.mapped
    requires s2 == Refresh(s1).(frameno := Refresh(s1).frameno + 1)
    ensures Next(s0, osOk) == Advance(s2, Observed(s1))
    ensures Status(s0, osOk) == if Observed(s1) >= 0 then STATUS_OK else STATUS_DISABLED
  {
  }

  /** The client's statics and its view of the tracker's shared record. */
  class Session {
    var mapped: bool
    var shared: SharedRecord
    var gameIdLocal: bv32
    var frameno: bv32
    var table: seq<bv8>
    var encryption: bool
    var encryptionChecked: bool
    var pose: Pose

    /** The fields as a `SessionState` value. */
    function State(): SessionState
      reads this
    {
      SessionState(mapped, shared, gameIdLocal, frameno, table, encryption, encryptionChecked, pose)
    }

    /** A freshly loaded client, with the tracker's record as it stands. */
    constructor (record: SharedRecord)
      requires |record.table| == TABLE_SIZE
      ensures State() == Initial(record)
    {
      mapped := false;
      shared := record;
      gameIdLocal := 0;
      frameno := 0;
      table := [0, 0, 0, 0, 0, 0, 0, 0];
      encryption := false;
      encryptionChecked := false;
      pose := STILL;
    }

    /** The tracker rewrites its record. */
    method Publish(record: SharedRecord)
      requires |record.table| == TABLE_SIZE
      modifies this
      ensures State() == old(State()).(shared := record)
    {
      shared := record;
    }

    /**
     * `FTCreateMapping`: returns at once when the record is mapped;
     * otherwise `osOk` is the outcome of asking the operating system.
     */
    method CreateMapping(osOk: bool) returns (ok: bool)
      modifies this
      ensures State() == Acquire(old(State()), osOk)
      ensures ok == mapped
    {
      if mapped {
        return true;
      }
      if osOk {
        mapped := true;
      }
      ok := mapped;
    }

    /** `FTDestroyMapping`: `DataID` becomes -1, then the record is unmapped. */
    method DestroyMapping()
      modifies this
      ensures State() == Release(old(State()))
    {
      if mapped {
        shared := shared.(dataId := -1);
      }
      mapped := false;
    }

    /** `NP_RegisterProgramProfileID`: records the game in the shared record and locally. */
    method RegisterProgramProfileID(osOk: bool, id: bv16) returns (status: int)
      modifies this
      ensures State() == Register(old(State()), osOk, id)
      ensures status == 0
    {
      var ok := CreateMapping(osOk);
      if ok {
        shared := shared.(gameId := id as bv32);
        gameIdLocal := id as bv32;
      }
      status := 0;
    }

    /**
     * `NP_GetData(data)`: the state moves as `Sequencer.Next` says, the
     * return value is `Sequencer.Status`, and the packet, when one is
     * written, is `Sequencer.PacketOf` of the new state.
     */
    method GetData(osOk: bool, data: array<bv8>) returns (status: int)
      requires Valid(State()) && data.Length == PACKET_SIZE
      modifies this, data
      ensures State() == Next(old(State()), osOk)
      ensures status == Status(old(State()), osOk)
      ensures old(mapped) || osOk ==> data[..] == PacketOf(State())
      ensures !(old(mapped) || osOk) ==> data[..] == old(data[..])
    {
      ghost var s0 := State();
      var ok := CreateMapping(osOk);
      if !ok {
        return STATUS_DISABLED;
      }
      ghost var s1 := State();
      var dataId := Identify();
      NextFrame();
      ghost var s2 := State();
      var running := Step(dataId);
      NextIs(s0, osOk, s1, s2);
      ghost var s3 := State();
      WritePacket(data);
      assert State() == s3;
      status := if running then STATUS_OK else STATUS_DISABLED;
    }

    /**
     * The identity check of `NP_GetData`: when it passes, the pose is taken
     * from the record, the table is copied on the first such poll, and
     * `DataID` is read back; otherwise -1 stands for "not read".
     */
    method Identify() returns (dataId: int)
      modifies this
      ensures State() == Refresh(old(State()))
      ensures dataId == Observed(old(State()))
    {
      dataId := -1;
      if gameIdLocal != 0 && shared.gameId == gameIdLocal && shared.gameId == shared.gameId2 {
        pose := shared.pose;
        if !encryptionChecked {
          encryptionChecked := true;
          table := shared.table;
          var found := FindNonZero(table);
          if found {
            encryption := true;
          }
        }
        dataId := shared.dataId;
      }
    }

    /** `++frameno`, modulo 2^32. */
    method NextFrame()
      modifies this
      ensures State() == old(State()).(frameno := old(frameno) + 1)
    {
      frameno := frameno + 1;
    }

    /**
     * The `DataID` step of `NP_GetData`: 0 resets the pose and marks the
     * record consumed, a positive value counts down; the poll is running in
     * both cases.
     */
    method Step(dataId: int) returns (running: bool)
      modifies this
      ensures State() == Advance(old(State()), dataId)
      ensures running == (dataId >= 0)
    {
      running := false;
      if dataId == 0 {
        running := true;
        pose := STILL;
        shared := CompareExchange(shared, -1, 0);
      } else if dataId > 0 {
        running := true;
        shared := CompareExchange(shared, dataId - 1, dataId);
      }
    }

    /**
     * The second half of `NP_GetData`: the fields with the checksum field
     * zero, the checksum over all 68 bytes stored into it, and the
     * obfuscation when encryption is on.
     */
    method WritePacket(data: array<bv8>)
      requires data.Length == PACKET_SIZE && |table| == TABLE_SIZE
      modifies data
      ensures data[..] == PacketOf(State())
    {
      SealInto(data, PacketFields(State()));
      if encryption {
        Enhance(data, PACKET_SIZE, table, TABLE_SIZE);
      }
    }
  }
}
