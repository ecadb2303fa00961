/**
 * The per-block reference-count table. `struct ouichefs_ref_counter` is
 * declared here with a 32-bit block number and a 32-bit counter; the
 * counter wraps on increment and refuses to go below zero on decrement.
 */
module RcTable {
  import opened Layout

  datatype RefCounter = RefCounter(block: u32, refCount: u32)

  /** The table after an increment of entry `bno`: that counter moves up by one, wrapping at 2^32. */
  function Incremented(t: seq<RefCounter>, bno: nat): (r: seq<RefCounter>)
    requires bno < |t|
    ensures |r| == |t|
    ensures forall k :: 0 <= k < |t| && k != bno ==> r[k] == t[k]
    ensures r[bno].block == t[bno].block
    ensures t[bno].refCount < U32Limit - 1 ==> r[bno].refCount == t[bno].refCount + 1
    ensures t[bno].refCount == U32Limit - 1 ==> r[bno].refCount == 0
  {
    t[bno := t[bno].(refCount := Inc32(t[bno].refCount))]
  }

  /** The table after a decrement of entry `bno`: a zero counter is left alone. */
  function Decremented(t: seq<RefCounter>, bno: nat): (r: seq<RefCounter>)
    requires bno < |t|
    ensures |r| == |t|
    ensures forall k :: 0 <= k < |t| && k != bno ==> r[k] == t[k]
    ensures r[bno].block == t[bno].block
    ensures t[bno].refCount >= 1 ==> r[bno].refCount == t[bno].refCount - 1
    ensures t[bno].refCount == 0 ==> r == t
  {
    if t[bno].refCount >= 1 then t[bno := t[bno].(refCount := t[bno].refCount - 1)] else t
  }

  /** An increment followed by a decrement of the same entry restores the table (no wrap). */
  lemma IncThenDec(t: seq<RefCounter>, bno: nat)
    requires bno < |t| && t[bno].refCount < U32Limit - 1
    ensures Decremented(Incremented(t, bno), bno) == t
  {
    assert Decremented(Incremented(t, bno), bno)[bno] == t[bno];
  }

  /** A decrement followed by an increment restores any counter that was not zero. */
  lemma DecThenInc(t: seq<RefCounter>, bno: nat)
    requires bno < |t| && t[bno].refCount >= 1
    ensures Incremented(Decremented(t, bno), bno) == t
  {
    assert Incremented(Decremented(t, bno), bno)[bno] == t[bno];
  }

  /** Counters never underflow: a decrement never produces a larger counter. */
  lemma DecNeverWraps(t: seq<RefCounter>, bno: nat)
    requires bno < |t|
    ensures Decremented(t, bno)[bno].refCount <= t[bno].refCount
  {
  }

  /** A `block` field that disagrees with `bno` changes nothing about the update. */
  lemma MismatchOnlyLogged(t: seq<RefCounter>, bno: nat, b: u32)
    requires bno < |t|
    ensures Incremented(t[bno := t[bno].(block := b)], bno)[bno].refCount == Incremented(t, bno)[bno].refCount
    ensures Decremented(t[bno := t[bno].(block := b)], bno)[bno].refCount == Decremented(t, bno)[bno].refCount
  {
  }

  /**
   * inc_ref_count. `badBlock` reports the "Bad block number" message; the
   * update happens regardless.
   */
  method IncRefCount(rcTable: array<RefCounter>, bno: u32) returns (badBlock: bool)
    requires bno < rcTable.Length
    modifies rcTable
    ensures badBlock == (old(rcTable[bno].block) != bno)
    ensures rcTable[..] == Incremented(old(rcTable[..]), bno)
  {
    badBlock := rcTable[bno].block != bno;
    rcTable[bno] := rcTable[bno].(refCount := Inc32(rcTable[bno].refCount));
  }

  /**
   * dec_ref_count. `badBlock` reports the block-number message and
   * `atZero` the "already at zero" message.
   */
  method DecRefCount(rcTable: array<RefCounter>, bno: u32) returns (badBlock: bool, atZero: bool)
    requires bno < rcTable.Length
    modifies rcTable
    ensures badBlock == (old(rcTable[bno].block) != bno)
    ensures atZero == (old(rcTable[bno].refCount) == 0)
    ensures rcTable[..] == Decremented(old(rcTable[..]), bno)
  {
    badBlock := rcTable[bno].block != bno;
    atZero := rcTable[bno].refCount == 0;
    if rcTable[bno].refCount >= 1 {
      rcTable[bno] := rcTable[bno].(refCount := rcTable[bno].refCount - 1);
    }
  }
}
