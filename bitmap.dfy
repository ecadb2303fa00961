/**
 * The free-space allocator: two in-memory bitmaps (inode numbers and block
 * numbers, bit set = free) and the free counters kept beside them in the
 * superblock information.
 */
module Bitmap {
  import opened Layout

  /**
   * find_first_bit: the lowest index in [k, size) whose bit is set, or
   * `size` when there is none.
   */
  function FirstSetFrom(s: seq<bool>, k: nat, size: nat): (r: nat)
    requires size <= |s| && k <= size
    ensures k <= r <= size
    ensures r < size ==> s[r]
    ensures forall i :: k <= i < r ==> !s[i]
    decreases size - k
  {
    if k == size then size
    else if s[k] then k
    else FirstSetFrom(s, k + 1, size)
  }

  function FirstSet(s: seq<bool>, size: nat): (r: nat)
    requires size <= |s|
    ensures r <= size
    ensures r < size ==> s[r]
    ensures forall i :: 0 <= i < r ==> !s[i]
  {
    FirstSetFrom(s, 0, size)
  }

  /** Number of free (set) bits. */
  function CountFree(s: seq<bool>): nat
  {
    if s == [] then 0 else (if s[0] then 1 else 0) + CountFree(s[1..])
  }

  /** A bitmap together with the free counter that moves with it. */
  datatype FreeMap = FreeMap(bits: seq<bool>, free: u32)

  /** The outcome of an allocation: the unit handed out (0 = none) and the new state. */
  datatype Grant = Grant(unit: nat, after: FreeMap)

  /**
   * get_first_free_bit followed by the counter update of get_free_inode /
   * get_free_block: clear the first free bit and decrement the counter when
   * the returned index is non-zero.
   */
  function Get(m: FreeMap, size: nat): (g: Grant)
    requires size <= |m.bits|
    ensures g.unit < size || g.unit == 0
  {
    var f := FirstSet(m.bits, size);
    if f == size then Grant(0, m)
    else if f == 0 then Grant(0, FreeMap(m.bits[0 := false], m.free))
    else Grant(f, FreeMap(m.bits[f := false], Dec32(m.free)))
  }

  /**
   * put_free_bit followed by the counter update of put_inode / put_block.
   * Only `i > size` is refused; `i == size` is accepted. Bits past the end
   * of the allocated bitmap are not represented.
   */
  function Put(m: FreeMap, size: nat, i: nat): FreeMap
  {
    if i > size then m
    else FreeMap(if i < |m.bits| then m.bits[i := true] else m.bits, Inc32(m.free))
  }

  /** The counter agrees with the number of free bits below `size`. */
  ghost predicate Consistent(m: FreeMap, size: nat)
  {
    size <= |m.bits| && size < U32Limit && CountFree(m.bits[..size]) == m.free
  }

  /** Bit 0 is reserved (superblock / root inode), so 0 can mean "none". */
  ghost predicate Reserved0(m: FreeMap, size: nat)
  {
    size <= |m.bits| && (size > 0 ==> !m.bits[0])
  }

  // ---------------------------------------------------------------------
  // Properties of the allocator
  // ---------------------------------------------------------------------

  /**
   * A grant hands out the lowest free index below `size`, clears exactly
   * that bit and decrements the counter; with no free bit nothing changes.
   */
  lemma GetIsFirstFit(m: FreeMap, size: nat)
    requires Reserved0(m, size)
    ensures var g := Get(m, size);
      && (g.unit == 0 <==> forall i :: 0 <= i < size ==> !m.bits[i])
      && (g.unit == 0 ==> g.after == m)
      && (g.unit != 0 ==>
            && g.unit < size && m.bits[g.unit]
            && (forall i :: 0 <= i < g.unit ==> !m.bits[i])
            && g.after == FreeMap(m.bits[g.unit := false], Dec32(m.free)))
  {
  }

  /**
   * Without the reserved bit the sentinel is ambiguous: when bit 0 is free
   * the scan returns 0 yet consumes bit 0.
   */
  lemma SentinelAmbiguousWithoutReservedBit(m: FreeMap, size: nat)
    requires 0 < size <= |m.bits| && m.bits[0]
    ensures Get(m, size).unit == 0 && Get(m, size).after.bits != m.bits
  {
    assert Get(m, size).after.bits[0] != m.bits[0];
  }

  /** Releasing a granted unit restores both the bitmap and the counter. */
  lemma GetThenPut(m: FreeMap, size: nat)
    requires size <= |m.bits|
    ensures var g := Get(m, size);
      g.unit != 0 ==> Put(g.after, size, g.unit) == m
  {
    var g := Get(m, size);
    if g.unit != 0 {
      assert m.bits[g.unit := false][g.unit := true] == m.bits;
    }
  }

  /** A release only refuses indices past `size`; the counter moves only on success. */
  lemma PutAcceptsUpToSize(m: FreeMap, size: nat, i: nat)
    requires i < |m.bits|
    ensures i > size ==> Put(m, size, i) == m
    ensures i <= size ==> Put(m, size, i) == FreeMap(m.bits[i := true], Inc32(m.free))
  {
  }

  /**
   * Release does not check that the unit was in use: releasing the same
   * index twice counts it twice while setting a single bit.
   */
  lemma DoubleRelease(m: FreeMap, size: nat, i: nat)
    requires i <= size && i < |m.bits|
    ensures Put(Put(m, size, i), size, i).bits == Put(m, size, i).bits
    ensures Put(Put(m, size, i), size, i).free == Inc32(Inc32(m.free))
  {
    assert m.bits[i := true][i := true] == m.bits[i := true];
  }

  lemma {:induction false} CountFreeBound(s: seq<bool>)
    ensures CountFree(s) <= |s|
  {
    if s != [] {
      CountFreeBound(s[1..]);
    }
  }

  lemma {:induction false} CountAfterUpdate(s: seq<bool>, i: nat, b: bool)
    requires i < |s|
    ensures CountFree(s[i := b]) ==
      CountFree(s) - (if s[i] then 1 else 0) + (if b then 1 else 0)
  {
    if i > 0 {
      assert s[i := b][1..] == s[1..][i - 1 := b];
      CountAfterUpdate(s[1..], i - 1, b);
    } else {
      assert s[i := b][1..] == s[1..];
    }
  }

  lemma UpdatePrefix(s: seq<bool>, i: nat, b: bool, size: nat)
    requires i < size <= |s|
    ensures s[i := b][..size] == s[..size][i := b]
  {
  }

  /** A grant keeps the counter equal to the number of free bits. */
  lemma GetPreservesConsistency(m: FreeMap, size: nat)
    requires Consistent(m, size) && Reserved0(m, size)
    ensures Consistent(Get(m, size).after, size)
  {
    var f := FirstSet(m.bits, size);
    if f < size {
      UpdatePrefix(m.bits, f, false, size);
      CountAfterUpdate(m.bits[..size], f, false);
    }
  }

  /**
   * Releasing a unit that is in use keeps the counter consistent and
   * never wraps it.
   */
  lemma PutUsedPreservesConsistency(m: FreeMap, size: nat, i: nat)
    requires Consistent(m, size) && i < size && !m.bits[i]
    ensures Consistent(Put(m, size, i), size)
  {
    UpdatePrefix(m.bits, i, true, size);
    CountAfterUpdate(m.bits[..size], i, true);
    CountFreeBound(m.bits[..size][i := true]);
  }

  /** Releasing an in-use unit twice leaves the counter ahead of the bitmap. */
  lemma DoubleReleaseBreaksConsistency(m: FreeMap, size: nat, i: nat)
    requires Consistent(m, size) && i < size && !m.bits[i]
    ensures !Consistent(Put(Put(m, size, i), size, i), size)
  {
    PutUsedPreservesConsistency(m, size, i);
    var m1 := Put(m, size, i);
    DoubleRelease(m, size, i);
    CountFreeBound(m1.bits[..size]);
  }

  /**
   * Release, in order, every non-zero unit of `units` (a zero entry of an
   * index block means "not allocated" and is skipped).
   */
  function ReleaseAll(m: FreeMap, size: nat, units: seq<u32>): FreeMap
  {
    if units == [] then m
    else
      var m' := ReleaseAll(m, size, units[..|units| - 1]);
      var u := units[|units| - 1];
      if u == 0 then m' else Put(m', size, u)
  }

  /**
   * After releasing a list of units, exactly the bits of the listed
   * non-zero units at most `size` are set in addition to the old ones;
   * in particular bit 0 never changes.
   */
  lemma {:induction false} ReleaseAllSetsListed(m: FreeMap, size: nat, units: seq<u32>)
    ensures |ReleaseAll(m, size, units).bits| == |m.bits|
    ensures forall k :: 0 <= k < |m.bits| ==>
      ReleaseAll(m, size, units).bits[k] == (m.bits[k] || (k != 0 && k <= size && k in units))
  {
    if units != [] {
      var init := units[..|units| - 1];
      ReleaseAllSetsListed(m, size, init);
      assert units == init + [units[|units| - 1]];
    }
  }

  /** Every listed non-zero unit lies below `size`, is in use in `m`, and is listed once. */
  ghost predicate InUseOnce(m: FreeMap, size: nat, units: seq<u32>)
  {
    && (forall k :: 0 <= k < |units| && units[k] != 0 ==> units[k] < size <= |m.bits| && !m.bits[units[k]])
    && (forall j, k :: 0 <= j < k < |units| && units[j] != 0 ==> units[j] != units[k])
  }

  /**
   * Releasing, once each, units that are in use keeps the counter equal
   * to the number of free bits.
   */
  lemma {:induction false} ReleaseAllPreservesConsistency(m: FreeMap, size: nat, units: seq<u32>)
    requires Consistent(m, size) && InUseOnce(m, size, units)
    ensures Consistent(ReleaseAll(m, size, units), size)
  {
    if units != [] {
      var init := units[..|units| - 1];
      var u := units[|units| - 1];
      assert InUseOnce(m, size, init);
      ReleaseAllPreservesConsistency(m, size, init);
      var m' := ReleaseAll(m, size, init);
      if u != 0 {
        ReleaseAllSetsListed(m, size, init);
        assert u !in init by {
          forall j | 0 <= j < |init|
            ensures init[j] != u
          {
            assert units[j] == init[j];
          }
        }
        PutUsedPreservesConsistency(m', size, u);
      }
    }
  }

  /** Releasing a unit other than 0 leaves unit 0 in use. */
  lemma PutKeepsReserved(m: FreeMap, size: nat, i: nat)
    requires Reserved0(m, size) && i != 0
    ensures Reserved0(Put(m, size, i), size)
  {
  }

  /** Releasing listed units keeps bit 0 in use. */
  lemma ReleaseAllKeepsReserved(m: FreeMap, size: nat, units: seq<u32>)
    requires Reserved0(m, size)
    ensures Reserved0(ReleaseAll(m, size, units), size)
  {
    ReleaseAllSetsListed(m, size, units);
  }

  // ---------------------------------------------------------------------
  // The in-memory superblock information and the allocator operations
  // ---------------------------------------------------------------------

  /** `struct ouichefs_sb_info`: geometry, free counters and the two bitmaps. */
  class SbInfo {
    var nrBlocks: u32
    var nrInodes: u32
    var nrIstoreBlocks: u32
    var nrIfreeBlocks: u32
    var nrBfreeBlocks: u32
    var nrFreeInodes: u32
    var nrFreeBlocks: u32
    var ifree: array<bool>
    var bfree: array<bool>

    ghost predicate Valid()
      reads this
    {
      ifree != bfree && nrInodes <= ifree.Length && nrBlocks <= bfree.Length
    }

    /** Bit 0 of each map (root inode, superblock) is in use. */
    ghost predicate Reserved()
      reads this, ifree, bfree
    {
      Reserved0(Ifree(), nrInodes) && Reserved0(Bfree(), nrBlocks)
    }

    ghost function Ifree(): FreeMap
      reads this, ifree
    {
      FreeMap(ifree[..], nrFreeInodes)
    }

    ghost function Bfree(): FreeMap
      reads this, bfree
    {
      FreeMap(bfree[..], nrFreeBlocks)
    }

    /** Fresh superblock information with the given geometry and counters and zeroed bitmaps. */
    constructor (sb: SuperBlock)
      ensures nrBlocks == sb.nrBlocks && nrInodes == sb.nrInodes
      ensures nrIstoreBlocks == sb.nrIstoreBlocks && nrIfreeBlocks == sb.nrIfreeBlocks
      ensures nrBfreeBlocks == sb.nrBfreeBlocks
      ensures nrFreeInodes == sb.nrFreeInodes && nrFreeBlocks == sb.nrFreeBlocks
      ensures fresh(ifree) && fresh(bfree) && ifree != bfree
      ensures ifree[..] == seq(sb.nrIfreeBlocks * BitsPerBlock, _ => false)
      ensures bfree[..] == seq(sb.nrBfreeBlocks * BitsPerBlock, _ => false)
    {
      nrBlocks, nrInodes := sb.nrBlocks, sb.nrInodes;
      nrIstoreBlocks, nrIfreeBlocks, nrBfreeBlocks := sb.nrIstoreBlocks, sb.nrIfreeBlocks, sb.nrBfreeBlocks;
      nrFreeInodes, nrFreeBlocks := sb.nrFreeInodes, sb.nrFreeBlocks;
      ifree := new bool[sb.nrIfreeBlocks * BitsPerBlock](_ => false);
      bfree := new bool[sb.nrBfreeBlocks * BitsPerBlock](_ => false);
    }

    /** Return an unused inode number and mark it used; 0 when none is free. */
    method GetFreeInode() returns (ino: u32)
      requires Valid()
      modifies this`nrFreeInodes, ifree
      ensures Valid()
      ensures Grant(ino, Ifree()) == Get(old(Ifree()), nrInodes)
      ensures old(Reserved()) ==> Reserved()
    {
      ino := GetFirstFreeBit(ifree, nrInodes);
      if ino != 0 {
        nrFreeInodes := Dec32(nrFreeInodes);
      }
    }

    /** Return an unused block number and mark it used; 0 when none is free. */
    method GetFreeBlock() returns (bno: u32)
      requires Valid()
      modifies this`nrFreeBlocks, bfree
      ensures Valid()
      ensures Grant(bno, Bfree()) == Get(old(Bfree()), nrBlocks)
      ensures old(Reserved()) ==> Reserved()
    {
      bno := GetFirstFreeBit(bfree, nrBlocks);
      if bno != 0 {
        nrFreeBlocks := Dec32(nrFreeBlocks);
      }
    }

    /** Mark an inode number unused. */
    method PutInode(ino: u32)
      requires Valid()
      modifies this`nrFreeInodes, ifree
      ensures Valid()
      ensures Ifree() == Put(old(Ifree()), nrInodes, ino)
      ensures old(Reserved()) && ino != 0 ==> Reserved()
    {
      var err := PutFreeBit(ifree, nrInodes, ino);
      if err != 0 {
        return;
      }
      nrFreeInodes := Inc32(nrFreeInodes);
    }

    /** Mark a block number unused. */
    method PutBlock(bno: u32)
      requires Valid()
      modifies this`nrFreeBlocks, bfree
      ensures Valid()
      ensures Bfree() == Put(old(Bfree()), nrBlocks, bno)
      ensures old(Reserved()) && bno != 0 ==> Reserved()
    {
      var err := PutFreeBit(bfree, nrBlocks, bno);
      if err != 0 {
        return;
      }
      nrFreeBlocks := Inc32(nrFreeBlocks);
    }
  }

  /**
   * Return the first free bit below `size` and clear it; 0 when no bit is
   * set (bit 0 is assumed never free, so 0 doubles as the error value).
   */
  method GetFirstFreeBit(freemap: array<bool>, size: u32) returns (ino: u32)
    requires size <= freemap.Length
    modifies freemap
    ensures var f := FirstSet(old(freemap[..]), size);
      && ino == (if f == size then 0 else f)
      && freemap[..] == (if f == size then old(freemap[..]) else old(freemap[..])[f := false])
  {
    var f := FirstSet(freemap[..], size);
    if f == size {
      return 0;
    }
    freemap[f] := false;
    ino := f;
  }

  /** Mark bit `i` free; -1 (and no change) only when `i` is past `size`. */
  method PutFreeBit(freemap: array<bool>, size: u32, i: u32) returns (err: int)
    modifies freemap
    ensures err == (if i > size then -1 else 0)
    ensures freemap[..] == Put(FreeMap(old(freemap[..]), 0), size, i).bits
  {
    if i > size {
      return -1;
    }
    if i < freemap.Length {
      freemap[i] := true;
    }
    err := 0;
  }
}
