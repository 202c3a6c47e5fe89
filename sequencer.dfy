/**
 * The per-process state of the client and what each export does to it: the
 * mapping of the tracker's shared record (`FTCreateMapping`,
 * `FTDestroyMapping`), the game's registration (`NP_RegisterProgramProfileID`)
 * and one poll (`NP_GetData`), all in contrib/npclient/npclient.c.
 *
 * The shared record is the tracker's: it exists whether or not this client
 * has it mapped, and the tracker may rewrite it between any two calls. The
 * interlocked operations on `DataID` are sequential reads and updates here.
 * Pose values are integers already in packet units.
 */
module Sequencer {
  import opened Wrappers
  import opened Bytes
  import opened Clamp
  import opened Binary32
  import opened Packet
  import opened Cipher

  /** The length of the obfuscation table, in the record and in the client's copy. */
  const TABLE_SIZE: nat := 8

  /** The six pose values: three rotations, three translations. */
  datatype Pose = Pose(roll: int, pitch: int, yaw: int, tx: int, ty: int, tz: int)

  /** The zero pose a poll reports when the tracker signals a reset. */
  const STILL: Pose := Pose(0, 0, 0, 0, 0, 0)

  /** The part of the tracker's shared record (`FTMemMap`) the client reads or writes. */
  datatype SharedRecord = SharedRecord(
    dataId: int, pose: Pose, gameId: bv32, table: seq<bv8>, gameId2: bv32)

  /**
   * The client's state: whether the record is mapped, the record itself, the
   * registered game (`game_id_local`), the frame counter, the cached table,
   * the two encryption flags and the last pose.
   */
  datatype SessionState = SessionState(
    mapped: bool, shared: SharedRecord, gameIdLocal: bv32, frameno: bv32,
    table: seq<bv8>, encryption: bool, encryptionChecked: bool, pose: Pose)

  /**
   * Both tables are 8-byte arrays, and encryption is never on before the
   * table has been checked (it starts off and is only switched on by the check).
   */
  predicate Valid(st: SessionState)
  {
    |st.shared.table| == TABLE_SIZE && |st.table| == TABLE_SIZE && (!st.encryptionChecked ==> !st.encryption)
  }

  /** The statics at process start: nothing mapped, no game, everything zero. */
  function Initial(shared: SharedRecord): (st: SessionState)
    requires |shared.table| == TABLE_SIZE
    ensures Valid(st) && !st.mapped && st.gameIdLocal == 0 && !st.encryptionChecked
    ensures st.frameno == 0 && st.pose == STILL
  {
    SessionState(false, shared, 0, 0, [0, 0, 0, 0, 0, 0, 0, 0], false, false, STILL)
  }

  /**
   * `FTCreateMapping`: nothing happens when the record is mapped already;
   * otherwise `osOk` says whether the operating system maps it. The result's
   * `mapped` is the function's return value.
   */
  function Acquire(st: SessionState, osOk: bool): (r: SessionState)
    ensures r.mapped == (st.mapped || osOk)
    ensures r == st.(mapped := r.mapped)
  {
    if st.mapped || !osOk then st else st.(mapped := true)
  }

  /** Once mapped, later mapping requests change nothing and never fail. */
  lemma AcquireIdempotent(st: SessionState, a: bool, b: bool)
    ensures Acquire(Acquire(st, a), b) == Acquire(st, a || b)
    ensures Acquire(st, a).mapped ==> Acquire(Acquire(st, a), b) == Acquire(st, a)
  {
  }

  /**
   * `FTDestroyMapping`: a mapped record gets `DataID` -1 before it is
   * unmapped; afterwards nothing is mapped.
   */
  function Release(st: SessionState): (r: SessionState)
    ensures !r.mapped
    ensures st.mapped ==> r.shared == st.shared.(dataId := -1)
    ensures !st.mapped ==> r == st
    ensures r.(mapped := st.mapped, shared := st.shared) == st
  {
    if st.mapped then st.(shared := st.shared.(dataId := -1), mapped := false) else st
  }

  /**
   * `NP_RegisterProgramProfileID(id)`: when the record can be mapped, its
   * `GameId` and the client's `game_id_local` both become the zero-extended
   * `id`; when it cannot, nothing is recorded. It always returns 0.
   */
  function Register(st: SessionState, osOk: bool, id: bv16): (r: SessionState)
    ensures r.mapped == (st.mapped || osOk)
    ensures r.mapped ==> r == st.(mapped := true, gameIdLocal := id as bv32, shared := st.shared.(gameId := id as bv32))
    ensures !r.mapped ==> r == st
  {
    var s := Acquire(st, osOk);
    if s.mapped then s.(shared := s.shared.(gameId := id as bv32), gameIdLocal := id as bv32) else s
  }

  /**
   * The identity check of a poll: a game is registered, the record names it,
   * and the record's second copy of the game id agrees.
   */
  predicate Identified(st: SessionState)
  {
    st.gameIdLocal != 0 && st.shared.gameId == st.gameIdLocal && st.shared.gameId == st.shared.gameId2
  }

  /** After a successful registration of a non-zero id, the identity check depends on `GameId2` alone. */
  lemma RegisterBinds(st: SessionState, osOk: bool, id: bv16)
    requires st.mapped || osOk
    ensures var r := Register(st, osOk, id);
      && r.mapped && r.gameIdLocal == id as bv32 && r.shared.gameId == id as bv32
      && (Identified(r) <==> id != 0 && r.shared.gameId2 == id as bv32)
      && r.shared.(gameId := st.shared.gameId) == st.shared
  {
    assert id != 0 <==> id as bv32 != 0;
  }

  /** A failed registration changes nothing. */
  lemma RegisterUnmapped(st: SessionState, id: bv16)
    requires !st.mapped
    ensures Register(st, false, id) == st
  {
  }

  /** The `DataID` a poll reads back: the record's when the identity check passes, -1 otherwise. */
  function Observed(st: SessionState): (d: int)
    ensures Identified(st) ==> d == st.shared.dataId
    ensures !Identified(st) ==> d == -1
  {
    if Identified(st) then st.shared.dataId else -1
  }

  /** `true` when some byte of the table is non-zero, as the check that turns encryption on. */
  predicate NonZero(t: seq<bv8>)
  {
    exists i :: 0 <= i < |t| && t[i] != 0
  }

  /**
   * The identified branch of a poll: the pose is taken from the record, and
   * the first time only, the table is copied and encryption is switched on
   * if some byte of it is non-zero.
   */
  function Refresh(st: SessionState): (r: SessionState)
    ensures r.(pose := st.pose, table := st.table, encryption := st.encryption,
               encryptionChecked := st.encryptionChecked) == st
    ensures !Identified(st) ==> r == st
    ensures Identified(st) ==> r.pose == st.shared.pose && r.encryptionChecked
    ensures st.encryptionChecked ==> r.table == st.table && r.encryption == st.encryption
    ensures Identified(st) && !st.encryptionChecked ==>
              r.table == st.shared.table && r.encryption == (st.encryption || NonZero(st.shared.table))
  {
    if !Identified(st) then st
    else
      var s := st.(pose := st.shared.pose);
      if s.encryptionChecked then s
      else s.(encryptionChecked := true, table := s.shared.table, encryption := s.encryption || NonZero(s.shared.table))
  }

  /** `InterlockedCompareExchange(&DataID, exchange, comparand)` on the record, sequentially. */
  function CompareExchange(rec: SharedRecord, exchange: int, comparand: int): (r: SharedRecord)
    ensures rec.dataId == comparand ==> r == rec.(dataId := exchange)
    ensures rec.dataId != comparand ==> r == rec
  {
    if rec.dataId == comparand then rec.(dataId := exchange) else rec
  }

  /**
   * What the observed `DataID` does: 0 zeroes the pose and moves `DataID`
   * to -1; `n > 0` moves it to `n - 1`; anything else writes nothing.
   */
  function Advance(st: SessionState, observed: int): (r: SessionState)
    ensures r.(pose := st.pose, shared := st.shared) == st
    ensures r.shared == st.shared.(dataId := r.shared.dataId)
    ensures r.pose == if observed == 0 then STILL else st.pose
    ensures observed >= 0 && st.shared.dataId == observed ==>
              r.shared.dataId == if observed == 0 then -1 else observed - 1
    ensures observed >= 0 && st.shared.dataId != observed ==> r.shared == st.shared
    ensures observed < 0 ==> r.shared == st.shared
  {
    if observed == 0 then st.(pose := STILL, shared := CompareExchange(st.shared, -1, 0))
    else if observed > 0 then st.(shared := CompareExchange(st.shared, observed - 1, observed))
    else st
  }

  /** `(short)frameno`: the low 16 bits of the counter. */
  function Low16(w: bv32): bv16
  {
    (w & 0xFFFF) as bv16
  }

  /** The packet fields before the checksum: status OK, the frame, and the clamped pose as floats. */
  function PacketFields(st: SessionState): (d: TirData)
    ensures d.status == 0 && d.cksum == 0 && d.frame == Low16(st.frameno)
  {
    TirData(0, Low16(st.frameno), 0,
            FloatOf(ClampAxis(st.pose.roll)), FloatOf(ClampAxis(st.pose.pitch)), FloatOf(ClampAxis(st.pose.yaw)),
            FloatOf(ClampAxis(st.pose.tx)), FloatOf(ClampAxis(st.pose.ty)), FloatOf(ClampAxis(st.pose.tz)))
  }

  /** The 68 bytes handed to the game: sealed with the checksum, then obfuscated when encryption is on. */
  function PacketOf(st: SessionState): (p: seq<bv8>)
    requires |st.table| == TABLE_SIZE
    ensures |p| == PACKET_SIZE
  {
    var sealed := Seal(PacketFields(st));
    if st.encryption then Enhanced(sealed, PACKET_SIZE, st.table, TABLE_SIZE) else sealed
  }

  /**
   * The state after `NP_GetData`: unchanged without a mapping; otherwise the
   * identity check, the frame counter and the `DataID` step.
   */
  function Next(st: SessionState, osOk: bool): (r: SessionState)
    requires Valid(st)
    ensures Valid(r)
  {
    var s1 := Acquire(st, osOk);
    if !s1.mapped then s1
    else
      var s2 := Refresh(s1);
      Advance(s2.(frameno := s2.frameno + 1), Observed(s1))
  }

  /** The return value of `NP_GetData`: OK exactly when the record is mapped and a `DataID` of 0 or more was read back. */
  function Status(st: SessionState, osOk: bool): (r: int)
    ensures r == STATUS_OK || r == STATUS_DISABLED
    ensures r == STATUS_OK <==> (st.mapped || osOk) && Identified(st) && st.shared.dataId >= 0
  {
    var s1 := Acquire(st, osOk);
    if s1.mapped && Observed(s1) >= 0 then STATUS_OK else STATUS_DISABLED
  }

  /** What one poll leaves behind: the new state, the packet if one was written, and the return value. */
  datatype PollResult = PollResult(next: SessionState, packet: Option<seq<bv8>>, status: int)

  /** `NP_GetData`: the new state, the packet built from it when the record is mapped, and the status. */
  function Poll(st: SessionState, osOk: bool): (r: PollResult)
    requires Valid(st)
    ensures Valid(r.next)
    ensures r.packet.Some? <==> st.mapped || osOk
    ensures r.next == Next(st, osOk) && r.status == Status(st, osOk)
  {
    var next := Next(st, osOk);
    PollResult(next, if st.mapped || osOk then Some(PacketOf(next)) else None, Status(st, osOk))
  }

  /** When the record cannot be mapped, a poll writes no packet and changes nothing. */
  lemma PollUnmapped(st: SessionState)
    requires Valid(st) && !st.mapped
    ensures Next(st, false) == st && Status(st, false) == STATUS_DISABLED
    ensures Poll(st, false).packet == None
  {
  }

  /**
   * When the identity check fails, the poll is DISABLED, the record is not
   * written and the previous pose, table and flags are kept; only the frame
   * counter moves.
   */
  lemma PollForeign(st: SessionState, osOk: bool)
    requires Valid(st) && (st.mapped || osOk) && !Identified(st)
    ensures Status(st, osOk) == STATUS_DISABLED
    ensures Next(st, osOk) == st.(mapped := true, frameno := st.frameno + 1)
  {
  }

  /**
   * The `DataID` step of an identified poll: 0 zeroes the pose and becomes
   * -1; `n > 0` keeps the record's pose and becomes `n - 1`; a negative value
   * keeps the record's pose and is not written.
   */
  lemma PollDataId(st: SessionState, osOk: bool)
    requires Valid(st) && (st.mapped || osOk) && Identified(st)
    ensures var r := Next(st, osOk); var n := st.shared.dataId;
      && r.shared == st.shared.(dataId := if n == 0 then -1 else if n > 0 then n - 1 else n)
      && r.pose == (if n == 0 then STILL else st.shared.pose)
  {
  }

  /** The frame counter goes up by one, modulo 2^32, on every mapped poll. */
  lemma PollFrame(st: SessionState, osOk: bool)
    requires Valid(st) && (st.mapped || osOk)
    ensures Next(st, osOk).frameno == st.frameno + 1
  {
  }

  /** The table is copied and encryption decided on the first identified poll only. */
  lemma PollTableOnce(st: SessionState, osOk: bool)
    requires Valid(st)
    ensures var r := Next(st, osOk);
      && (st.encryptionChecked ==> r.table == st.table && r.encryption == st.encryption && r.encryptionChecked)
      && (!st.encryptionChecked && (st.mapped || osOk) && Identified(st) ==>
            r.encryptionChecked && r.table == st.shared.table
            && (r.encryption <==> exists i :: 0 <= i < TABLE_SIZE && st.shared.table[i] != 0))
      && (!st.encryptionChecked && !((st.mapped || osOk) && Identified(st)) ==>
            r.table == st.table && r.encryption == st.encryption && !r.encryptionChecked)
  {
  }

  /**
   * A written packet is the sealed packet of the new state (obfuscated when
   * encryption is on): undoing the obfuscation gives bytes that pass the
   * checksum test, with status OK, the frame and the clamped pose.
   */
  lemma PollPacket(st: SessionState, osOk: bool)
    requires Valid(st)
    ensures var r := Poll(st, osOk);
      r.packet.Some? ==>
        var p := r.packet.value;
        var raw := if r.next.encryption then Restore(p, PACKET_SIZE, r.next.table, TABLE_SIZE) else p;
        && |raw| == PACKET_SIZE && Verifies(raw)
        && Fields(raw) == PacketFields(r.next).(cksum := Fields(raw).cksum)
  {
    var r := Poll(st, osOk);
    if r.packet.Some? {
      var sealed := Seal(PacketFields(r.next));
      SealVerifies(PacketFields(r.next));
      if r.next.encryption {
        RestoreEnhanced(sealed, PACKET_SIZE, r.next.table, TABLE_SIZE);
      }
    }
  }

  /** `k` polls in a row with the record mapped. */
  function PollMany(st: SessionState, k: nat): (r: SessionState)
    requires Valid(st)
    ensures Valid(r)
    decreases k
  {
    if k == 0 then st else PollMany(Next(st, true), k - 1)
  }

  /**
   * A tracker that publishes `DataID == n` for a registered game, and then
   * leaves the record alone, grants it `n + 1` running polls: after `k` of
   * them `DataID` is `n - k`, each of them returns OK, and the identity
   * still holds.
   */
  lemma {:induction false} Countdown(st: SessionState, n: nat, k: nat)
    requires Valid(st) && st.mapped && Identified(st) && st.shared.dataId == n && k <= n + 1
    ensures var s := PollMany(st, k);
      && s.mapped && Identified(s) && s.shared.dataId == n - k
      && (k <= n ==> Status(s, true) == STATUS_OK)
    decreases k
  {
    if k > 0 {
      var s1 := Next(st, true);
      PollDataId(st, true);
      if n == 0 {
        assert PollMany(s1, 0) == s1;
      } else {
        Countdown(s1, n - 1, k - 1);
      }
    }
  }

  /** After those `n + 1` polls the next one is DISABLED. */
  lemma CountdownEnds(st: SessionState, n: nat)
    requires Valid(st) && st.mapped && Identified(st) && st.shared.dataId == n
    ensures Status(PollMany(st, n + 1), true) == STATUS_DISABLED
  {
    Countdown(st, n, n + 1);
  }

  /**
   * A record whose `DataID` is -1 stays so under polling, and every poll is
   * DISABLED, for as long as the tracker does not write it.
   */
  lemma {:induction false} Stalled(st: SessionState, k: nat)
    requires Valid(st) && st.shared.dataId == -1
    ensures PollMany(st, k).shared.dataId == -1
    ensures Status(PollMany(st, k), true) == STATUS_DISABLED
    decreases k
  {
    if k > 0 {
      var s1 := Next(st, true);
      assert s1.shared.dataId == -1;
      Stalled(s1, k - 1);
    }
  }

  /**
   * After the mapping is released, the next poll is DISABLED and leaves
   * `DataID` at -1, and so is every later poll until the tracker writes the
   * record again.
   */
  lemma ReleaseThenPoll(st: SessionState, osOk: bool, k: nat)
    requires Valid(st) && st.mapped
    ensures Status(Release(st), osOk) == STATUS_DISABLED
    ensures Next(Release(st), osOk).shared.dataId == -1
    ensures Status(PollMany(Release(st), k), true) == STATUS_DISABLED
    ensures PollMany(Release(st), k).shared.dataId == -1
  {
    Stalled(Release(st), k);
  }
}
