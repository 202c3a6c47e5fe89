/**
 * The table-driven obfuscation applied to an outgoing packet (`enhance` in
 * contrib/npclient/npclient.c). The buffer is walked from its last byte to
 * its first; each byte is XORed with the next table byte (the table index
 * wraps around) and with a running byte `var`, which starts at 0x88 and is
 * advanced by the position and the byte's ORIGINAL value.
 */
module Cipher {
  import opened Bytes
  import opened Arith

  /** `size` and `table_size` are `unsigned`. */
  predicate ValidSizes(bufLen: nat, size: nat, table: seq<bv8>, tableSize: nat)
  {
    size <= bufLen && tableSize <= |table| && size < 0x1_0000_0000 && tableSize < 0x1_0000_0000
  }

  /** The low byte of a position, as `var += size + tmp` truncates it. */
  function LowByte(i: nat): bv8 { (U32(i) & 0xFF) as bv8 }

  /**
   * The running byte in use when index `i` is transformed (`i < n`): 0x88 for
   * the last byte; for index `i` it is the value at `i + 1` plus `i + 1` plus
   * the original byte at `i + 1`, modulo 256.
   */
  function Var(orig: seq<bv8>, n: nat, i: nat): bv8
    requires i < n <= |orig|
    decreases n - i
  {
    if i == n - 1 then 0x88
    else Add8(Add8(Var(orig, n, i + 1), LowByte(i + 1)), orig[i + 1])
  }

  /** One step of the running byte, read from index `i` down to `i - 1`. */
  lemma VarStep(orig: seq<bv8>, n: nat, i: nat)
    requires 0 < i < n <= |orig|
    ensures Var(orig, n, i - 1) == Add8(Add8(Var(orig, n, i), LowByte(i)), orig[i])
  {
  }

  /**
   * The table position after `j` bytes: it starts at 0, advances by one per
   * byte and wraps back by `t` when it reaches `t`, as `table_ptr` does.
   */
  function TablePos(j: nat, t: nat): (p: nat)
    requires t > 0
    ensures p < t
    decreases j
  {
    if j == 0 then 0
    else
      var p := TablePos(j - 1, t);
      if p + 1 >= t then p + 1 - t else p + 1
  }

  /** One more byte advances the position by one, wrapping at `t`. */
  lemma TablePosNext(j: nat, t: nat)
    requires t > 0
    ensures TablePos(j + 1, t) == if TablePos(j, t) + 1 >= t then TablePos(j, t) + 1 - t else TablePos(j, t) + 1
  {
  }

  /** The wrapped table position is the byte count modulo the table size. */
  lemma {:induction false} TablePosIsMod(j: nat, t: nat)
    requires t > 0
    ensures TablePos(j, t) == j % t
    decreases j
  {
    if j > 0 {
      TablePosIsMod(j - 1, t);
      ModStep(j - 1, t);
    }
  }

  /** The table byte for index `i`: the walk starts at table position 0 on the last byte. */
  function Key(table: seq<bv8>, tableSize: nat, n: nat, i: nat): bv8
    requires 0 < tableSize <= |table| && i < n
  {
    table[TablePos(n - 1 - i, tableSize)]
  }

  /** The key of index `i` is `table[(n - 1 - i) % tableSize]`. */
  lemma KeyIsTableByte(table: seq<bv8>, tableSize: nat, n: nat, i: nat)
    requires 0 < tableSize <= |table| && i < n
    ensures Key(table, tableSize, n, i) == table[(n - 1 - i) % tableSize]
  {
    TablePosIsMod(n - 1 - i, tableSize);
  }

  /** The byte `enhance` writes at index `i`: the original XOR its key XOR its running byte. */
  function ObfuscatedByte(orig: seq<bv8>, n: nat, table: seq<bv8>, tableSize: nat, i: nat): bv8
    requires i < n <= |orig| && 0 < tableSize <= |table|
  {
    Xor8(Xor8(orig[i], Key(table, tableSize, n, i)), Var(orig, n, i))
  }

  /**
   * The buffer after `enhance(buf, n, table, tableSize)`: unchanged when `n`
   * or `tableSize` is 0; otherwise every index below `n` is XORed with its key
   * and its running byte, and the bytes from `n` on are left alone.
   */
  function Enhanced(orig: seq<bv8>, n: nat, table: seq<bv8>, tableSize: nat): (r: seq<bv8>)
    requires n <= |orig| && tableSize <= |table|
    ensures |r| == |orig|
    ensures n == 0 || tableSize == 0 ==> r == orig
    ensures forall k :: n <= k < |orig| ==> r[k] == orig[k]
  {
    if n == 0 || tableSize == 0 then orig
    else seq(|orig|, i requires 0 <= i < |orig| =>
           if i < n then ObfuscatedByte(orig, n, table, tableSize, i) else orig[i])
  }

  /**
   * `enhance` works in place, from the last byte to the first, with the
   * running byte `v` and the table position `tablePtr`.
   */
  method Enhance(buf: array<bv8>, size: nat, table: seq<bv8>, tableSize: nat)
    requires ValidSizes(buf.Length, size, table, tableSize)
    modifies buf
    ensures buf[..] == Enhanced(old(buf[..]), size, table, tableSize)
  {
    if size == 0 || tableSize == 0 {
      return;
    }
    ghost var orig := buf[..];
    ghost var target := Enhanced(orig, size, table, tableSize);
    var tablePtr := 0;
    var v: bv8 := 0x88;
    var i := size;
    while i != 0
      invariant 0 <= i <= size && buf.Length == |orig|
      invariant tablePtr == TablePos(size - i, tableSize)
      invariant 0 < i ==> v == Var(orig, size, i - 1)
      invariant buf[..] == Overlay(orig, target, i, size)
    {
      ghost var cur := buf[..];
      i := i - 1;
      var tmp := buf[i];
      assert tmp == orig[i] by {
        OverlayAt(orig, target, i + 1, size);
      }
      var b := Xor8(Xor8(tmp, table[tablePtr]), v);
      assert b == target[i] by {
        assert table[tablePtr] == Key(table, tableSize, size, i);
        EnhancedAt(orig, size, table, tableSize, i);
      }
      buf[i] := b;
      assert buf[..] == cur[i := b];
      v := Add8(Add8(v, LowByte(i)), tmp);
      if 0 < i {
        VarStep(orig, size, i);
      }
      tablePtr := tablePtr + 1;
      if tablePtr >= tableSize {
        tablePtr := tablePtr - tableSize;
      }
      assert tablePtr == TablePos(size - i, tableSize) by {
        TablePosNext(size - i - 1, tableSize);
      }
    }
    OverlayAt(orig, target, 0, size);
    assert buf[..] == target;
  }

  /**
   * `orig` with the bytes of `target` from `i` up to `n` copied over it: the
   * buffer once a walk from the end has stored its results down to index `i`.
   */
  function Overlay(orig: seq<bv8>, target: seq<bv8>, i: nat, n: nat): (r: seq<bv8>)
    requires i <= n <= |orig| == |target|
    ensures |r| == |orig|
    decreases n - i
  {
    if i == n then orig else Overlay(orig, target, i + 1, n)[i := target[i]]
  }

  /** Index by index, the overlay holds `target` from `i` up to `n` and `orig` elsewhere. */
  lemma {:induction false} OverlayAt(orig: seq<bv8>, target: seq<bv8>, i: nat, n: nat)
    requires i <= n <= |orig| == |target|
    ensures forall k :: 0 <= k < |orig| ==>
              Overlay(orig, target, i, n)[k] == if i <= k < n then target[k] else orig[k]
    decreases n - i
  {
    if i < n {
      OverlayAt(orig, target, i + 1, n);
    }
  }

  /** XORing with the same two bytes again restores a byte. */
  lemma XorCancel(a: bv8, k: bv8, v: bv8)
    ensures Xor8(Xor8(Xor8(Xor8(a, k), v), k), v) == a
  {
  }

  /** One index of the obfuscated buffer. */
  lemma EnhancedAt(orig: seq<bv8>, n: nat, table: seq<bv8>, tableSize: nat, i: nat)
    requires i < n <= |orig| && 0 < tableSize <= |table|
    ensures Enhanced(orig, n, table, tableSize)[i]
            == ObfuscatedByte(orig, n, table, tableSize, i)
  {
  }

  /**
   * The running byte as a receiver can recompute it from the obfuscated
   * buffer alone: each step first recovers the original byte at `i + 1`.
   */
  function RestoredVar(out: seq<bv8>, n: nat, table: seq<bv8>, tableSize: nat, i: nat): bv8
    requires i < n <= |out| && 0 < tableSize <= |table|
    decreases n - i
  {
    if i == n - 1 then 0x88
    else
      var v := RestoredVar(out, n, table, tableSize, i + 1);
      Add8(Add8(v, LowByte(i + 1)), Xor8(Xor8(out[i + 1], Key(table, tableSize, n, i + 1)), v))
  }

  /** One step of the recomputed running byte. */
  lemma RestoredVarStep(out: seq<bv8>, n: nat, table: seq<bv8>, tableSize: nat, i: nat)
    requires 0 < i < n <= |out| && 0 < tableSize <= |table|
    ensures var v := RestoredVar(out, n, table, tableSize, i);
            RestoredVar(out, n, table, tableSize, i - 1)
            == Add8(Add8(v, LowByte(i)), Xor8(Xor8(out[i], Key(table, tableSize, n, i)), v))
  {
  }

  /** The inverse walk: it undoes `enhance` given the same table. */
  function Restore(out: seq<bv8>, n: nat, table: seq<bv8>, tableSize: nat): (r: seq<bv8>)
    requires n <= |out| && tableSize <= |table|
    ensures |r| == |out|
  {
    if n == 0 || tableSize == 0 then out
    else seq(|out|, i requires 0 <= i < |out| =>
           if i < n then Xor8(Xor8(out[i], Key(table, tableSize, n, i)), RestoredVar(out, n, table, tableSize, i))
           else out[i])
  }

  /** From the obfuscated buffer, the receiver's running byte agrees with the sender's at every index. */
  lemma {:induction false} RestoredVarAgrees(orig: seq<bv8>, out: seq<bv8>, n: nat, table: seq<bv8>, tableSize: nat, i: nat)
    requires i < n <= |orig| == |out| && 0 < tableSize <= |table|
    requires forall k :: i < k < n ==> out[k] == ObfuscatedByte(orig, n, table, tableSize, k)
    ensures RestoredVar(out, n, table, tableSize, i) == Var(orig, n, i)
    decreases n - i
  {
    if i < n - 1 {
      RestoredVarAgrees(orig, out, n, table, tableSize, i + 1);
      AgreeStep(orig, out, n, table, tableSize, i + 1);
    }
  }

  /** If the two running bytes agree at index `i`, they agree at `i - 1`. */
  lemma AgreeStep(orig: seq<bv8>, out: seq<bv8>, n: nat, table: seq<bv8>, tableSize: nat, i: nat)
    requires 0 < i < n <= |orig| == |out| && 0 < tableSize <= |table|
    requires out[i] == ObfuscatedByte(orig, n, table, tableSize, i)
    requires RestoredVar(out, n, table, tableSize, i) == Var(orig, n, i)
    ensures RestoredVar(out, n, table, tableSize, i - 1) == Var(orig, n, i - 1)
  {
    XorCancel(orig[i], Key(table, tableSize, n, i), Var(orig, n, i));
    RestoredVarStep(out, n, table, tableSize, i);
    VarStep(orig, n, i);
  }

  /** `enhance` loses no information: its inverse walk gives back the original buffer. */
  lemma RestoreEnhanced(orig: seq<bv8>, n: nat, table: seq<bv8>, tableSize: nat)
    requires n <= |orig| && tableSize <= |table|
    ensures Restore(Enhanced(orig, n, table, tableSize), n, table, tableSize) == orig
  {
    if n > 0 && tableSize > 0 {
      var out := Enhanced(orig, n, table, tableSize);
      forall k | 0 <= k < n
        ensures out[k] == ObfuscatedByte(orig, n, table, tableSize, k)
      {
        EnhancedAt(orig, n, table, tableSize, k);
      }
      forall i | 0 <= i < n
        ensures Restore(out, n, table, tableSize)[i] == orig[i]
      {
        RestoredVarAgrees(orig, out, n, table, tableSize, i);
        XorCancel(orig[i], Key(table, tableSize, n, i), Var(orig, n, i));
      }
    }
  }

  /**
   * Applying `enhance` twice is not the identity: the running byte of the
   * second pass follows the already transformed bytes.
   */
  lemma EnhanceTwiceDiffers()
    ensures Enhanced(Enhanced([0, 0], 2, [1], 1), 2, [1], 1) != [0, 0]
  {
    var once := Enhanced([0, 0], 2, [1], 1);
    assert Var([0, 0], 2, 0) == 0x89;
    assert once[1] == 0x89 && once[0] == 0x88;
    assert once == [0x88, 0x89];
    var twice := Enhanced(once, 2, [1], 1);
    assert Var(once, 2, 0) == 0x12;
    assert twice[1] == 0x00;
    assert twice[0] == 0x9b;
  }
}
