# npclient: the NPClient head-tracking client, modelled in Dafny

`contrib/npclient/npclient.c` is the client library a game loads to get
head-tracking data. It reads the pose that the tracker publishes in a
shared-memory record (`FTMemMap`). Each call to `NP_GetData` turns that pose
into a 68-byte `tir_data` packet:

- the six pose values are clamped to `[-16383, 16383]` and stored as floats;
- the packet carries a frame counter;
- it is sealed with a custom 32-bit checksum (`cksum`);
- it is obfuscated with an 8-byte table (`enhance`) when the tracker's table
  holds a non-zero byte.

The record's `DataID` field is a countdown the tracker sets. A poll that reads
0 or more returns OK and counts `DataID` down; a poll that reads 0 also zeroes
the pose and marks the record consumed with -1. The game registers itself
with `NP_RegisterProgramProfileID`. A poll reads the record only when a
registered non-zero id, the record's `GameId` and its `GameId2` all agree.
`NP_GetSignature` and `NP_QueryVersion` report fixed identification data.

The project is organised as follows:

- `bytes.dfy`: little-endian byte images of 16- and 32-bit words. It also
  holds 32-bit wrap-around arithmetic and the arithmetic right shift that
  `int >> k` is on the target compiler.
- `arith.dfy`: facts about division, modulo and powers of two.
- `checksum.dfy`: `cksum`. A function `CksumOf` over the byte sequence, and
  the pointer-walking method `Cksum` proved equal to it.
- `cipher.dfy`: `enhance`. The closed form `Enhanced`, the in-place method
  `Enhance` proved equal to it, and the inverse walk `Restore` with the
  round trip.
- `clamp.dfy`: `clamp` and `clamp_`.
- `binary32.dfy`: the IEEE 754 binary32 bit pattern of an integer pose value,
  and the float-to-int truncation that reads it back.
- `packet.dfy`: the memory image of `tir_data`, its field reader, and the
  **seal**. The seal is the packet with the checksum of its bytes stored
  while the checksum field is zero.
- `signature.dfy`: `NP_GetSignature`, which unmasks two XOR-split blocks per
  string and pads to 200 bytes, and `NP_QueryVersion`.
- `sequencer.dfy`: the client's statics and the shared record as a value
  (`SessionState`), with one function per export. These cover the mapping
  helpers, registration and a poll with its new state, status and packet.
  It holds the lemmas about polling: status, identity check, `DataID`
  countdown, table copy, packet integrity.
- `bridge.dfy`: class `Session` with the statics as fields. Its imperative
  methods are proved to update the fields as the `Sequencer` functions say.
  `GetData` writes the packet byte by byte into an array and is proved to
  produce `Sequencer.PacketOf` of the new state.

The operating system's answer to "map the shared record" is a boolean
parameter `osOk`. The tracker's writes to the record are the method
`Session.Publish`, which may be called between any two client calls.

Four behaviours of the code a reader might not expect:

- The packet's `status` field is always 0 (OK) (line 407). Only the return
  value of `NP_GetData` says whether the poll was running.
- `DataID` may be -1 while the identity check passes. The pose is then still
  taken from the record (lines 366-372); the record's `DataID` is not
  written until the `DataID` step.
- The table is copied once per process (the statics at lines 351-353), not
  once per mapping.
- Encryption is only ever switched on, never off.

## Model

| member | source | states |
|---|---|---|
| Bytes.LE32RoundTrip | contrib/npclient/npclient.c:130-138 | reading back the four little-endian bytes of a 32-bit field gives the field |
| Bytes.LE16RoundTrip | contrib/npclient/npclient.c:130-138 | reading back the two little-endian bytes of a 16-bit field gives the field |
| Bytes.ReadLE32At | contrib/npclient/npclient.c:130-138 | a buffer holding a word's image at an offset reads back that word there |
| Bytes.ReadLE16At | contrib/npclient/npclient.c:130-138 | as ReadLE32At, for a `short` field |
| Bytes.LE16 | contrib/npclient/npclient.c:132-137 | the two-byte x86 memory image of a `short` field, low byte first; `LE16RoundTrip` and `ReadLE16At` state that it reads back |
| Bytes.LE32 | contrib/npclient/npclient.c:132-137 | the four-byte x86 memory image of a 4-byte field, low byte first; `LE32RoundTrip` and `ReadLE32At` state that it reads back |
| Bytes.U32 | contrib/npclient/npclient.c:260 | `int c = size`: a number below 2^32 as a 32-bit word; no contract of its own, see the line starting "Binary32.TruncBits:" under Left out |
| Bytes.Zeros | contrib/npclient/npclient.c:418-419 | `n` bytes, every one zero: the packet padding and the tail of each signature array |
| Bytes.Short | contrib/npclient/npclient.c:268-269 | `*(short int*)p` read into an `int`: the low 16 bits are the little-endian word, and bits 15 to 31 are all copies of its sign bit |
| Bytes.SignedByte | contrib/npclient/npclient.c:282 | `*(signed char*)p` read into an `int`: the low 8 bits are the byte, and bits 7 to 31 are all copies of its sign bit |
| Bytes.Sar | contrib/npclient/npclient.c:275 | `>>` on a signed `int` (at lines 275, 286, 292, 298 and 307-311); it has no contract of its own, and `SarSignFills` proves it is a sign-filling shift for those counts |
| Bytes.SarSignFills | contrib/npclient/npclient.c:275 | `c >> k` on `int` fills the vacated high bits with the sign bit, for each shift count `cksum` uses |
| Checksum.Cksum | contrib/npclient/npclient.c:255-314 | the loop over `size >> 2` groups through a moving pointer returns the checksum of bytes `0 .. size-1`; no other byte matters; size 0 gives 0 |
| Checksum.CksumOf | contrib/npclient/npclient.c:255-314 | the checksum of a whole byte sequence; an empty one has checksum 0 (lines 263-264); `Cksum` is proved to compute it |
| Checksum.Round | contrib/npclient/npclient.c:268-276 | one group of the loop: the two sign-extended words folded into `c`; no contract of its own, `FoldStep` and `Cksum` tie it to the loop |
| Checksum.Fold | contrib/npclient/npclient.c:266-277 | the group loop over `rounds` four-byte groups; no contract of its own, `FoldStep`, `FoldReadsPrefix` and `Cksum` characterise it |
| Checksum.Tail | contrib/npclient/npclient.c:278-304 | the `switch (rem)` over the 0 to 3 bytes left; no contract of its own, `TailOf` and `Finish` tie it to the switch |
| Checksum.Tail3 | contrib/npclient/npclient.c:280-287 | case 3: a 16-bit word and a signed byte; no contract of its own, `TailOf` ties it to the case |
| Checksum.Tail2 | contrib/npclient/npclient.c:288-293 | case 2: one 16-bit word; no contract of its own, `TailOf` ties it to the case |
| Checksum.Tail1 | contrib/npclient/npclient.c:294-299 | case 1: one signed byte; no contract of its own, `TailOf` ties it to the case |
| Checksum.Avalanche | contrib/npclient/npclient.c:306-311 | the six closing shift-and-mix steps; no contract of its own, `Finish` proves the statements compute it |
| Checksum.FoldStep | contrib/npclient/npclient.c:266-277 | one turn of the group loop is one mixing round over the next four bytes |
| Checksum.ChecksumOfParts | contrib/npclient/npclient.c:257-314 | the checksum of a non-empty buffer is the avalanche of the tail mix of the group fold |
| Checksum.Finish | contrib/npclient/npclient.c:278-313 | the `switch (rem)` tail and the six closing shift-and-mix steps compute the avalanche of the tail mix of the remaining bytes |
| Checksum.TailOf | contrib/npclient/npclient.c:278-304 | each case of `switch (rem)`, followed by `c += a2` when `rem != 0`, is the tail mix of the 0 to 3 remaining bytes |
| Checksum.FoldReadsPrefix | contrib/npclient/npclient.c:266-277 | the group loop reads exactly the first `4 * rounds` bytes: buffers that agree there give the same value |
| Checksum.CksumAligned | contrib/npclient/npclient.c:303-304 | for a size that is a positive multiple of 4, such as the 68-byte packet, the tail adds nothing |
| Cipher.TablePos | contrib/npclient/npclient.c:330-333 | the table index always stays below the table size |
| Cipher.TablePosIsMod | contrib/npclient/npclient.c:318-333 | after `j` bytes the table index is `j mod table_size` |
| Cipher.KeyIsTableByte | contrib/npclient/npclient.c:325-335 | byte `i` of an `n`-byte buffer is XORed with `table[(n-1-i) mod table_size]` |
| Cipher.VarStep | contrib/npclient/npclient.c:327-329 | the running byte of index `i-1` is that of `i`, plus `i`, plus the original byte `i`, modulo 256 |
| Cipher.LowByte | contrib/npclient/npclient.c:329 | the `unsigned` position truncated to 8 bits, as `var += size + tmp` adds it; no contract of its own, `Var` and `VarStep` use it |
| Cipher.Var | contrib/npclient/npclient.c:319-329 | the running byte used at each index: 0x88 for the last byte, then advanced as `var += size + tmp`; no contract of its own, `VarStep` states its step |
| Cipher.Key | contrib/npclient/npclient.c:318-333 | the table byte used at index `i`; no contract of its own, `KeyIsTableByte` states it is `table[(n-1-i) mod table_size]` |
| Cipher.ObfuscatedByte | contrib/npclient/npclient.c:328 | the byte written at index `i`; no contract of its own, `EnhancedAt` and `Enhance` tie it to the store |
| Cipher.Enhanced | contrib/npclient/npclient.c:316-336 | the length never changes; size 0 or table size 0 leaves the buffer alone; bytes at or beyond `size` are never changed |
| Cipher.Enhance | contrib/npclient/npclient.c:316-336 | the in-place walk from the last byte to the first leaves exactly `Enhanced` of the old buffer |
| Cipher.Overlay | contrib/npclient/npclient.c:325-335 | the buffer once the walk has stored its results from `i` up to `size`; it keeps the buffer's length, and `OverlayAt` states its bytes |
| Cipher.OverlayAt | contrib/npclient/npclient.c:325-335 | once the walk has stored its results down to index `i`, the buffer holds the result bytes from `i` up to `size` and the original bytes elsewhere |
| Cipher.EnhancedAt | contrib/npclient/npclient.c:328 | byte `i < size` of the output is original XOR key XOR running byte |
| Cipher.XorCancel | contrib/npclient/npclient.c:328 | XORing with the same key and running byte twice restores a byte |
| Cipher.RestoredVarStep | contrib/npclient/npclient.c:329 | the receiver updates its running byte from the byte it has just recovered |
| Cipher.RestoredVarAgrees | contrib/npclient/npclient.c:325-335 | a receiver with the table recomputes the sender's running byte at every index from the obfuscated bytes alone |
| Cipher.AgreeStep | contrib/npclient/npclient.c:327-329 | agreement of the running bytes at `i` carries over to `i-1` |
| Cipher.Restore | contrib/npclient/npclient.c:316-336 | the inverse walk keeps the length |
| Cipher.RestoreEnhanced | contrib/npclient/npclient.c:316-336 | `enhance` loses nothing: `Restore` of `Enhanced` is the original buffer, for every size and table |
| Cipher.EnhanceTwiceDiffers | contrib/npclient/npclient.c:329 | `enhance` is not an involution: applying it twice to `[0, 0]` with table `[1]` does not give `[0, 0]` back |
| Clamp.Clamp | contrib/npclient/npclient.c:114-123 | the result is `x`, `xmin` or `xmax`; in range when the bounds are ordered; `x` when `x` is in range; `xmax` whenever `x > xmax`, even with crossed bounds; `xmin` when `x < xmin` and `x <= xmax` |
| Clamp.ClampAxis | contrib/npclient/npclient.c:125-128 | the result lies in `[-16383, 16383]`, is `x` inside that range and the nearer bound outside it |
| Clamp.ClampAxisNearest | contrib/npclient/npclient.c:125-128 | no value in the axis range is closer to `x` than the clamped value |
| Clamp.ClampAxisMonotone | contrib/npclient/npclient.c:125-128 | clamping preserves order |
| Clamp.ClampAxisIdempotent | contrib/npclient/npclient.c:125-128 | clamping twice is clamping once |
| Binary32.Log2 | contrib/npclient/npclient.c:410-416 | the exponent of a value's highest set bit brackets it between two powers of two |
| Binary32.Log2Below | contrib/npclient/npclient.c:410-416 | magnitudes below 2^24 have their highest bit at 23 or lower |
| Binary32.Normalized | contrib/npclient/npclient.c:410-416 | the shifted significand lies in `[2^23, 2^24)` |
| Binary32.Bits | contrib/npclient/npclient.c:410-416 | the binary32 bit pattern of an exactly representable integer; no contract of its own, `TruncBits`, `ImageOfOne` and `ImageOfAxisBounds` characterise it |
| Binary32.FloatOf | contrib/npclient/npclient.c:410-416 | that bit pattern as the 32-bit word stored in a float field; no contract of its own, see `Binary32.TruncBits` under Left out |
| Binary32.TruncBits | contrib/npclient/npclient.c:410-416 | every integer of magnitude below 2^24 has a 32-bit float image that a truncating `(int)` conversion reads back as the same integer |
| Binary32.ImageOfOne | contrib/npclient/npclient.c:410 | the image of 1 is `0x3F800000`, that of `1.0f` |
| Binary32.ImageOfAxisBounds | contrib/npclient/npclient.c:410-416 | the images of the axis bounds are those of `16383.0f` and `-16383.0f` |
| Packet.ImageLayout | contrib/npclient/npclient.c:130-138 | the packet image places `status` at 0, `frame` at 2, `cksum` at 4, the six pose fields at 8 to 31 and 36 zero bytes at 32, little-endian and without gaps |
| Packet.Image | contrib/npclient/npclient.c:130-138 | the 68-byte memory image of a packet; `ImageLayout` and `FieldsOfImage` characterise it |
| Packet.HeaderSlices | contrib/npclient/npclient.c:132-134 | bytes 0-7 are the images of `status`, `frame` and `cksum` |
| Packet.PaddingSlice | contrib/npclient/npclient.c:137 | bytes 32-67 are zero |
| Packet.PoseSlice | contrib/npclient/npclient.c:135-136 | bytes `8+4k .. 11+4k` are the image of pose field `k` |
| Packet.PoseByte | contrib/npclient/npclient.c:135-136 | each single byte of a pose field lies where the struct layout puts it |
| Packet.FieldsOfLayout | contrib/npclient/npclient.c:130-138 | a buffer with the layout of a packet reads back as that packet |
| Packet.FieldsOfImage | contrib/npclient/npclient.c:130-138 | every field reads back from the image |
| Packet.StoreCksumField | contrib/npclient/npclient.c:426 | storing a value into bytes 4-7 of an image gives the image with that checksum |
| Packet.UnsealedStore | contrib/npclient/npclient.c:408-426 | zeroing bytes 4-7 forgets whatever checksum was stored |
| Packet.UnsealedOfZero | contrib/npclient/npclient.c:408 | a packet whose checksum field is zero is what the checksum is computed over |
| Packet.UnsealedImage | contrib/npclient/npclient.c:408-426 | zeroing the checksum field of any image is the image with checksum 0 |
| Packet.SealVerifies | contrib/npclient/npclient.c:407-426 | a sealed packet passes a receiver's checksum test, and all of its other fields are those it was built from |
| Packet.Seal | contrib/npclient/npclient.c:408-426 | the sealed packet is 68 bytes; `SealVerifies` states its contents |
| Signature.Unmask | contrib/npclient/npclient.c:528-534 | the XOR of two blocks has their length |
| Signature.UnmaskAt | contrib/npclient/npclient.c:529-534 | byte `i` of the unmasked block is the XOR of the blocks' bytes `i` |
| Signature.Signature | contrib/npclient/npclient.c:528-536 | a signature array has 200 bytes: the XOR of the two blocks below their length, zero from there to the end |
| Signature.Fill | contrib/npclient/npclient.c:528-536 | the two loops write exactly `Signature` of the blocks into the array |
| Signature.GetSignature | contrib/npclient/npclient.c:450-539 | `DllSignature` becomes `part1_2 ^ part1_1` padded and `AppSignature` becomes `part2_1 ^ part2_2` padded, and the call returns 0 |
| Signature.DllSignature | contrib/npclient/npclient.c:528-531 | the `DllSignature` array: `part1_2 ^ part1_1`, then zeros; `Signature.Signature` states its bytes |
| Signature.AppSignature | contrib/npclient/npclient.c:533-536 | the `AppSignature` array: `part2_1 ^ part2_2`, then zeros; `Signature.Signature` states its bytes |
| Signature.QueryVersion | contrib/npclient/npclient.c:541-546 | the version reported is 0x0500 and the call returns 0 |
| Sequencer.Initial | contrib/npclient/npclient.c:349-353 | at load time nothing is mapped, no game is registered, the table is unchecked, the frame counter is 0 and the pose is zero |
| Sequencer.Acquire | contrib/npclient/npclient.c:86-99 | `FTCreateMapping` succeeds when already mapped or when the system maps the record, and changes nothing else |
| Sequencer.AcquireIdempotent | contrib/npclient/npclient.c:88-89 | once mapped, later mapping requests change nothing |
| Sequencer.Register | contrib/npclient/npclient.c:561-570 | a registration maps the record if it can; when the record is mapped, `GameId` and `game_id_local` become the zero-extended id and nothing else changes; otherwise nothing changes |
| Sequencer.Release | contrib/npclient/npclient.c:101-112 | `FTDestroyMapping` leaves nothing mapped; a mapped record gets `DataID` -1 first; an unmapped client is unchanged |
| Sequencer.RegisterBinds | contrib/npclient/npclient.c:561-570 | a successful registration stores the zero-extended id in `GameId` and `game_id_local` and changes no other record field; the identity check then holds exactly when the id is non-zero and `GameId2` equals it |
| Sequencer.RegisterUnmapped | contrib/npclient/npclient.c:563-567 | a registration without a mapping records nothing |
| Sequencer.Identified | contrib/npclient/npclient.c:362-364 | the identity check of a poll: `game_id_local > 0`, `GameId == game_id_local` and `GameId == GameId2`; a predicate with no contract of its own |
| Sequencer.Observed | contrib/npclient/npclient.c:354-389 | the `DataID` a poll reads is the record's when the identity check passes and -1 otherwise |
| Sequencer.NonZero | contrib/npclient/npclient.c:379-384 | some table byte is non-zero, the test that turns encryption on; a predicate, `Bridge.FindNonZero` is proved to decide it |
| Sequencer.Refresh | contrib/npclient/npclient.c:362-387 | the identity branch takes the pose from the record; on the first identified poll only, it copies the table and turns encryption on if a table byte is non-zero; nothing else moves |
| Sequencer.CompareExchange | contrib/npclient/npclient.c:399-404 | the compare-exchange on `DataID` writes exactly when the old value is the comparand |
| Sequencer.Advance | contrib/npclient/npclient.c:395-405 | a read `DataID` of 0 zeroes the pose and, if the record still holds 0, sets it to -1; `n > 0` keeps the pose and, if the record still holds `n`, sets it to `n - 1`; if the record holds another value, or the read was negative, the record is not written; only the pose and `DataID` change |
| Sequencer.PacketFields | contrib/npclient/npclient.c:391-416 | the packet fields before sealing: status OK, checksum 0, the frame is the low 16 bits of the counter |
| Sequencer.Low16 | contrib/npclient/npclient.c:391 | `(short)frameno`: the low 16 bits of the counter; no contract of its own, `PacketFields` uses it for the frame field |
| Sequencer.PacketOf | contrib/npclient/npclient.c:426-429 | the packet handed to the game is 68 bytes |
| Sequencer.Next | contrib/npclient/npclient.c:347-405 | a poll keeps the state invariant: tables of 8 bytes, no encryption before the check |
| Sequencer.Status | contrib/npclient/npclient.c:356-431 | the return value of `NP_GetData` is OK or DISABLED, and OK exactly when the record is mapped, the identity check passes and `DataID` is 0 or more |
| Sequencer.Poll | contrib/npclient/npclient.c:347-432 | a packet is written exactly when the record is mapped; the new state and status are those of `Next` and `Status` |
| Sequencer.PollUnmapped | contrib/npclient/npclient.c:356-360 | without a mapping, a poll changes nothing, writes no packet and returns DISABLED |
| Sequencer.PollForeign | contrib/npclient/npclient.c:362-431 | when the identity check fails, the poll returns DISABLED and only the mapping and the frame counter change |
| Sequencer.PollDataId | contrib/npclient/npclient.c:366-405 | for an identified poll: `DataID` 0 becomes -1 with a zero pose; `n > 0` becomes `n-1`; a negative value is kept; otherwise the pose is the record's |
| Sequencer.PollFrame | contrib/npclient/npclient.c:391 | every mapped poll advances the frame counter by one, modulo 2^32 |
| Sequencer.PollTableOnce | contrib/npclient/npclient.c:374-386 | the table is copied, and encryption decided from "some byte is non-zero", on the first identified poll only; later polls keep both |
| Sequencer.PollPacket | contrib/npclient/npclient.c:407-429 | undoing the obfuscation of a written packet gives bytes that pass the checksum test, with status OK, the frame and the clamped pose of the new state |
| Sequencer.PollMany | contrib/npclient/npclient.c:347-405 | any number of mapped polls keeps the state invariant |
| Sequencer.Countdown | contrib/npclient/npclient.c:388-431 | a record published with `DataID == n` for the registered game yields `n + 1` OK polls, after `k` of which `DataID` is `n - k` |
| Sequencer.CountdownEnds | contrib/npclient/npclient.c:395-431 | the poll after those `n + 1` returns DISABLED |
| Sequencer.ReleaseThenPoll | contrib/npclient/npclient.c:101-112 | after `FTDestroyMapping` the next poll returns DISABLED and leaves `DataID` at -1, and any number of later polls do the same while the tracker does not write the record |
| Sequencer.Stalled | contrib/npclient/npclient.c:388-431 | a record with `DataID` -1 keeps it through any number of polls, and each of them returns DISABLED |
| Bridge.Put16 | contrib/npclient/npclient.c:132-133 | storing a `short` field changes exactly its two bytes |
| Bridge.Put32 | contrib/npclient/npclient.c:134-137 | storing a 4-byte field changes exactly its four bytes |
| Bridge.PrefixGrow | contrib/npclient/npclient.c:407-419 | field stores in address order build the image from the front |
| Bridge.StoreFields | contrib/npclient/npclient.c:391-419 | the field stores leave exactly the packet image in the buffer |
| Bridge.StoreHeader | contrib/npclient/npclient.c:391-408 | the stores of `status`, `frame` and `cksum` give bytes 0-7 of the image |
| Bridge.StorePose | contrib/npclient/npclient.c:410-416 | the six pose stores give bytes 8-31 of the image |
| Bridge.StorePoseField | contrib/npclient/npclient.c:410-416 | one pose store extends the image prefix by four bytes |
| Bridge.StorePadding | contrib/npclient/npclient.c:418-419 | the padding loop completes the image |
| Bridge.PaddingWord | contrib/npclient/npclient.c:418-419 | each padding float is four zero bytes |
| Bridge.StoreSeal | contrib/npclient/npclient.c:426 | storing the checksum of the zero-checksum image gives the sealed packet |
| Bridge.SealInto | contrib/npclient/npclient.c:407-426 | the stores and `data->cksum = cksum(data, 68)` leave exactly the sealed packet |
| Bridge.FindNonZero | contrib/npclient/npclient.c:379-384 | the loop that breaks at the first non-zero table byte finds one exactly when the table has one |
| Bridge.NextIs | contrib/npclient/npclient.c:356-431 | the steps `NP_GetData` takes compose to `Sequencer.Next` and its return value to `Sequencer.Status` |
| Bridge.Session.constructor | contrib/npclient/npclient.c:349-353 | the statics at load time are `Sequencer.Initial` |
| Bridge.Session.Publish | contrib/npclient/npclient.c:46-52 | the tracker's write replaces the record and nothing else |
| Bridge.Session.CreateMapping | contrib/npclient/npclient.c:86-99 | the fields move as `Acquire` says and the return value is whether the record is mapped |
| Bridge.Session.DestroyMapping | contrib/npclient/npclient.c:101-112 | the fields move as `Release` says |
| Bridge.Session.RegisterProgramProfileID | contrib/npclient/npclient.c:561-570 | the fields move as `Register` says and the call returns 0 |
| Bridge.Session.GetData | contrib/npclient/npclient.c:347-432 | the fields move as `Next` says and the return value is `Status`; with a mapping the buffer holds exactly `PacketOf` of the new state; without one it is untouched |
| Bridge.Session.Identify | contrib/npclient/npclient.c:362-389 | the identity branch moves the fields as `Refresh` says and returns the `DataID` read, or -1 |
| Bridge.Session.NextFrame | contrib/npclient/npclient.c:391 | `++frameno`, modulo 2^32, and nothing else |
| Bridge.Session.Step | contrib/npclient/npclient.c:393-405 | the `DataID` step moves the fields as `Advance` says; the poll is running exactly when `DataID` read was 0 or more |
| Bridge.Session.WritePacket | contrib/npclient/npclient.c:407-429 | the buffer ends up holding `PacketOf` of the state: sealed, then obfuscated with the cached table when encryption is on |

## Left out

- The Windows calls are not modelled: `CreateMutexA`, `CreateFileMappingA`, `MapViewOfFile`, `UnmapViewOfFile` and `CloseHandle`. Whether the record can be mapped is the parameter `osOk`. The handles themselves (`hFTMemMap`) carry no behaviour of their own.
- `DllMain` (lines 146-182) is not modelled: it only opens the log, disables thread notifications, and calls `FTDestroyMapping` on detach, which is `Session.DestroyMapping`.
- The `Interlocked*` operations are modelled as sequential reads and writes. The model does not capture their atomicity against a tracker writing concurrently; the tracker's writes are `Session.Publish` calls between client calls.
- Floating point is not modelled. The pose values are integers already in packet units, and the scaling of the record's radians and millimetres by `NP_AXIS_MAX / M_PI` and `NP_AXIS_MAX / 500.` (lines 366-372) is left out. Clamping happens on those integers. The float fields hold the exact binary32 image of the clamped integer, which is exact because clamped values are below 2^24.
- Binary32.TruncBits: states the read-back on the numeric bit pattern `Bits(x)`, not on the 32-bit word `FloatOf(x)`. `U32`, the conversion from a number below 2^32 to a 32-bit word, is not proved to agree with Dafny's `as bv32`. It is written out bit by bit because the built-in conversion is costly for the solver.
- Signature.GetSignature: states the bytes as the XOR of the two stored blocks. It does not prove that they spell the readable copyright text, because indexing every element of the 106-byte constant blocks is beyond the solver's resource limit.
- `DataID` in the shared record is a 32-bit `int` in the source and an unbounded `int` here. No behaviour is lost: the client only ever counts it down from a non-negative value or sets it to -1, so it never wraps.
- The debug log (`dbg_report`, `fopen` of `c:\NPClient.log`) is left out, because it has no effect on results.
- The stub exports are left out: each returns 0 and touches no state. They are `NPPriv_ClientNotify`, `NPPriv_GetLastError`, `NPPriv_SetData`, `NPPriv_SetLastError`, `NPPriv_SetParameter`, `NPPriv_SetSignature`, `NPPriv_SetVersion`, `NP_GetParameter`, `NP_ReCenter`, `NP_RegisterWindowHandle`, `NP_RequestData`, `NP_SetParameter`, `NP_StartCursor`, `NP_StartDataTransmission`, `NP_StopCursor`, `NP_StopDataTransmission` and `NP_UnregisterWindowHandle`.
- The `buf == NULL` and `table == NULL` guards of `cksum` and `enhance` are left out, because Dafny arrays are never null. The `size == 0` and `table_size == 0` guards are modelled.
- The record fields the client never reads are left out: the camera size, the raw pose and the point coordinates.
- `Session.GetData` writes the packet fields in address order, while the source writes `frame` first (line 391). The final bytes are the same, because every field is written exactly once before the checksum is taken.
- The other files of the repository (the tracker's GUI, logic and compatibility code) are not part of this model.
