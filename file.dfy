/**
 * The data path of regular files: mapping a file block through the
 * index block, the admission check before a write, and the block
 * recount and truncation after a write.
 */
module FileOps {
  import opened Layout
  import opened Bitmap
  import opened Disk
  import opened InodeOps

  // ---------------------------------------------------------------------
  // get_block
  // ---------------------------------------------------------------------

  /** What get_block leaves in the result buffer head: nothing, or a device block. */
  datatype Mapping = Unmapped | Mapped(bno: u32)

  /**
   * ouichefs_file_get_block: EFBIG past the 1024 slots of the index
   * block, EIO when the index block cannot be read; an allocated slot is
   * returned as it is; an empty slot stays unmapped unless `create`, in
   * which case a free block is granted and recorded in the slot (ENOSPC
   * and no change when none is free).
   */
  method GetBlock(v: Volume, ino: nat, iblock: nat, create: bool) returns (r: Result<Mapping>)
    requires v.sbi.Valid() && v.sbi.Reserved() && ino in v.icache
    modifies v`disk, v.sbi`nrFreeBlocks, v.sbi.bfree
    ensures v.sbi.Valid() && v.sbi.Reserved()
    ensures iblock >= IndexEntries ==> r == Err(EFBIG)
    ensures iblock < IndexEntries && v.icache[ino].indexBlock !in old(v.disk) ==> r == Err(EIO)
    ensures r.Err? || r == Ok(Unmapped) || old(AsIndex(v.disk[v.icache[ino].indexBlock])[iblock]) != 0 ==>
      v.disk == old(v.disk) && v.sbi.Bfree() == old(v.sbi.Bfree())
    ensures (&& iblock < IndexEntries && v.icache[ino].indexBlock in old(v.disk)) ==>
      var ib := v.icache[ino].indexBlock;
      var index := AsIndex(old(v.disk)[ib]);
      var g := Get(old(v.sbi.Bfree()), v.sbi.nrBlocks);
      && (index[iblock] != 0 ==> r == Ok(Mapped(index[iblock])))
      && (index[iblock] == 0 && !create ==> r == Ok(Unmapped))
      && (index[iblock] == 0 && create && g.unit == 0 ==> r == Err(ENOSPC))
      && (index[iblock] == 0 && create && g.unit != 0 ==>
            && r == Ok(Mapped(g.unit))
            && v.sbi.Bfree() == g.after
            && v.disk == old(v.disk)[ib := IndexData(index[iblock := g.unit])])
  {
    if iblock >= IndexEntries {
      return Err(EFBIG);
    }
    var ib := v.icache[ino].indexBlock;
    if ib !in v.disk {
      return Err(EIO);
    }
    var index := AsIndex(v.disk[ib]);
    if index[iblock] != 0 {
      return Ok(Mapped(index[iblock]));
    }
    if !create {
      return Ok(Unmapped);
    }
    ghost var b0 := v.sbi.Bfree();
    var bno := v.sbi.GetFreeBlock();
    if bno == 0 {
      GetIsFirstFit(b0, v.sbi.nrBlocks);
      return Err(ENOSPC);
    }
    v.disk := v.disk[ib := IndexData(index[iblock := bno])];
    r := Ok(Mapped(bno));
  }

  /** A slot that get_block has mapped is mapped to the same block by every later call. */
  lemma MappedSlotIsStable(index: IndexTable, iblock: nat, bno: u32)
    requires iblock < IndexEntries && bno != 0
    ensures index[iblock := bno][iblock] != 0
    ensures forall k :: 0 <= k < IndexEntries && k != iblock ==> index[iblock := bno][k] == index[k]
  {
  }

  // ---------------------------------------------------------------------
  // write_begin admission
  // ---------------------------------------------------------------------

  /**
   * The number of blocks write_begin expects the write to allocate:
   * blocks up to the new end of file, minus the i_blocks - 1 already
   * accounted, never negative.
   */
  function BlocksNeeded(pos: nat, len: nat, size: nat, blocks: nat): (n: nat)
    ensures n <= Max(pos + len, size) / BlockSize
    ensures blocks >= 1 && Max(pos + len, size) / BlockSize <= blocks - 1 ==> n == 0
    ensures blocks == 0 ==> n == 0
    ensures blocks >= 1 && Max(pos + len, size) / BlockSize > blocks - 1 ==>
      n == Max(pos + len, size) / BlockSize - (blocks - 1)
  {
    var want := Max(pos + len, size) / BlockSize;
    if blocks >= 1 && want > blocks - 1 then want - (blocks - 1) else 0
  }

  /**
   * ouichefs_write_begin, admission part: ENOSPC past the 4 MiB maximum
   * file size or when more blocks are needed than are free.
   */
  function WriteAdmission(pos: nat, len: nat, size: nat, blocks: nat, freeBlocks: nat): (st: Status)
    ensures st == Done || st == Fail(ENOSPC)
    ensures st == Done <==> pos + len <= MaxFileSize && BlocksNeeded(pos, len, size, blocks) <= freeBlocks
  {
    if pos + len > MaxFileSize then Fail(ENOSPC)
    else if BlocksNeeded(pos, len, size, blocks) > freeBlocks then Fail(ENOSPC)
    else Done
  }

  /** A write is never asked for more than the 1024 blocks a file can hold. */
  lemma AdmittedWriteNeedsAtMostIndex(pos: nat, len: nat, size: nat, blocks: nat)
    requires pos + len <= MaxFileSize && size <= MaxFileSize
    ensures BlocksNeeded(pos, len, size, blocks) <= IndexEntries
  {
    assert Max(pos + len, size) <= IndexEntries * BlockSize;
  }

  /**
   * Admission is monotone: more free blocks never turn an admitted write
   * into a refused one, and neither does a larger block count.
   */
  lemma AdmissionMonotone(pos: nat, len: nat, size: nat, blocks: nat, free1: nat, free2: nat)
    requires free1 <= free2
    ensures WriteAdmission(pos, len, size, blocks, free1) == Done ==>
      WriteAdmission(pos, len, size, blocks, free2) == Done
    ensures blocks >= 1 && WriteAdmission(pos, len, size, blocks, free1) == Done ==>
      WriteAdmission(pos, len, size, blocks + 1, free1) == Done
  {
  }

  /** A write that ends inside the blocks already accounted is admitted whatever the free count. */
  lemma OverwriteAlwaysAdmitted(pos: nat, len: nat, size: nat, blocks: nat)
    requires blocks >= 1 && pos + len <= MaxFileSize
    requires Max(pos + len, size) / BlockSize <= blocks - 1
    ensures WriteAdmission(pos, len, size, blocks, 0) == Done
  {
  }

  // ---------------------------------------------------------------------
  // write_end
  // ---------------------------------------------------------------------

  /** The block count write_end records: one per started 4 KiB of data, plus two. */
  function BlocksAfterWrite(size: nat): (b: nat)
    ensures b >= 2
    ensures size % BlockSize != 0 ==> b == (size + BlockSize - 1) / BlockSize + 1
    ensures size % BlockSize == 0 ==> b == size / BlockSize + 2
  {
    size / BlockSize + 2
  }

  /** Index slots that hold data of a file of `size` bytes. */
  function DataSlots(size: nat): nat
  {
    (size + BlockSize - 1) / BlockSize
  }

  /** The slots whose block holds bytes of the file are all below the unlink bound. */
  lemma DataSlotsReleasedByUnlink(size: nat)
    requires size <= MaxFileSize
    ensures DataSlots(size) <= ReleaseBound(BlocksAfterWrite(size)) <= IndexEntries
  {
  }

  /** The number of index slots unlink examines, as written: i_blocks - 1 with no cap. */
  function ReleaseBoundAsWritten(blocks: nat): int
  {
    blocks - 1
  }

  /**
   * A file of exactly 4 MiB accounts 1026 blocks, so unlink as written
   * examines 1025 slots of a 1024-slot index block; the capped bound
   * examines all 1024 and no more.
   */
  lemma UnlinkBoundAsWrittenOverruns()
    ensures ReleaseBoundAsWritten(BlocksAfterWrite(MaxFileSize)) == IndexEntries + 1
    ensures ReleaseBound(BlocksAfterWrite(MaxFileSize)) == IndexEntries
    ensures DataSlots(MaxFileSize) == IndexEntries
  {
  }

  /**
   * The truncation range as written: slots [new - 2, old - 2), every
   * slot released, zero or not.
   */
  function TruncatedSlotsAsWritten(oldBlocks: nat, newBlocks: nat): (r: seq<nat>)
    requires 2 <= newBlocks
    ensures |r| == if oldBlocks > newBlocks then oldBlocks - newBlocks else 0
  {
    if oldBlocks > newBlocks then seq(oldBlocks - newBlocks, k => newBlocks - 2 + k) else []
  }

  /**
   * The range as written releases the slot holding the file's last
   * bytes: a file truncated to 0 (4 blocks accounted for 8192 bytes)
   * then given one byte loses the block holding that byte.
   */
  lemma TruncationAsWrittenFreesLiveSlot()
    ensures var newBlocks := BlocksAfterWrite(1);
      newBlocks == 2 && DataSlots(1) == 1
      && TruncatedSlotsAsWritten(BlocksAfterWrite(8192), newBlocks) == [0, 1]
      && 0 < DataSlots(1)
  {
    assert TruncatedSlotsAsWritten(4, 2) == [0, 1];
  }

  /**
   * The as-written loop releases a zero slot like any other: releasing
   * block number 0 marks bit 0 free, so the map no longer keeps the
   * sentinel reserved.
   */
  lemma ZeroSlotReleaseFreesBitZero(m: FreeMap, size: nat)
    requires 0 < size <= |m.bits| && Reserved0(m, size)
    ensures Put(m, size, 0).bits[0]
    ensures !Reserved0(Put(m, size, 0), size)
  {
  }

  /**
   * The slots the truncation releases: from the first slot past the
   * file's data to the end of what unlink would release for the old
   * block count; zero slots are skipped by `ReleaseAll`.
   */
  function TruncatedSlots(size: nat, oldBlocks: nat): (r: seq<nat>)
    ensures forall k :: 0 <= k < |r| ==> DataSlots(size) <= r[k] < ReleaseBound(oldBlocks)
    ensures forall k :: 0 <= k < |r| ==> r[k] == DataSlots(size) + k
  {
    var lo := DataSlots(size);
    var hi := ReleaseBound(oldBlocks);
    if hi > lo then seq(hi - lo, k => lo + k) else []
  }

  /** The values in the truncated slots, in slot order. */
  function SlotValues(index: IndexTable, slots: seq<nat>): (r: seq<u32>)
    requires forall k :: 0 <= k < |slots| ==> slots[k] < IndexEntries
    ensures |r| == |slots|
    ensures forall k :: 0 <= k < |slots| ==> r[k] == index[slots[k]]
  {
    seq(|slots|, k requires 0 <= k < |slots| => index[slots[k]])
  }

  /** The index after truncation: the released slots read 0, the others are unchanged. */
  function ClearSlots(index: IndexTable, lo: nat, hi: nat): (r: IndexTable)
    requires lo <= hi <= IndexEntries
    ensures forall k :: 0 <= k < IndexEntries ==> r[k] == if lo <= k < hi then 0 else index[k]
  {
    seq(IndexEntries, k requires 0 <= k < IndexEntries => if lo <= k < hi then 0 else index[k])
  }

  /**
   * For a file last written with `oldSize` bytes, the truncation to `size`
   * bytes releases the block of every slot that held data past the new
   * end, leaves the blocks of the slots still holding data in use (when
   * no block appears twice in the index), and never releases block 0.
   */
  lemma {:induction false} TruncationKeepsDataAndSentinel(m: FreeMap, nrBlocks: nat, index: IndexTable,
                                                          size: nat, oldSize: nat)
    requires Reserved0(m, nrBlocks) && oldSize <= MaxFileSize
    requires forall i, j :: 0 <= i < j < IndexEntries && index[i] != 0 ==> index[i] != index[j]
    ensures var slots := TruncatedSlots(size, BlocksAfterWrite(oldSize));
      var after := ReleaseAll(m, nrBlocks, SlotValues(index, slots));
      && Reserved0(after, nrBlocks)
      && |after.bits| == |m.bits|
      && (forall j :: DataSlots(size) <= j < DataSlots(oldSize) && 0 < index[j] <= nrBlocks && index[j] < |m.bits|
            ==> after.bits[index[j]])
      && (forall j :: 0 <= j < DataSlots(size) && j < IndexEntries && index[j] < |m.bits|
            ==> after.bits[index[j]] == m.bits[index[j]])
  {
    var slots := TruncatedSlots(size, BlocksAfterWrite(oldSize));
    var values := SlotValues(index, slots);
    ReleaseAllKeepsReserved(m, nrBlocks, values);
    ReleaseAllSetsListed(m, nrBlocks, values);
    DataSlotsReleasedByUnlink(oldSize);
    forall j | DataSlots(size) <= j < DataSlots(oldSize)
      ensures index[j] in values
    {
      assert values[j - DataSlots(size)] == index[j];
    }
    forall j | 0 <= j < DataSlots(size) && j < IndexEntries && index[j] != 0
      ensures index[j] !in values
    {
      forall k | 0 <= k < |values|
        ensures values[k] != index[j]
      {
        assert values[k] == index[slots[k]] && j < slots[k];
      }
    }
  }

  /**
   * The truncation range as written ends one slot early when the old
   * size is not a multiple of 4096: i_blocks - 2 is then the slot of the
   * file's last old bytes, and that slot is never released although it
   * lies past the new end.
   */
  lemma TruncationAsWrittenKeepsLastOldSlot(oldSize: nat, size: nat)
    requires oldSize % BlockSize != 0
    requires BlocksAfterWrite(oldSize) > BlocksAfterWrite(size)
    ensures var last := DataSlots(oldSize) - 1;
      && last == BlocksAfterWrite(oldSize) - 2
      && DataSlots(size) <= last
      && last !in TruncatedSlotsAsWritten(BlocksAfterWrite(oldSize), BlocksAfterWrite(size))
  {
    var q, r := oldSize / BlockSize, oldSize % BlockSize;
    assert oldSize + BlockSize - 1 == (q + 1) * BlockSize + (r - 1);
    assert DataSlots(oldSize) == q + 1;
    assert size / BlockSize < q;
    assert DataSlots(size) <= size / BlockSize + 1;
  }

  /** A file of 8193 bytes rewritten to 4096: slot 1 is released, slot 2 with the old last byte is not. */
  lemma TruncationAsWrittenLeaksBlock()
    ensures BlocksAfterWrite(8193) == 4 && BlocksAfterWrite(4096) == 3
    ensures DataSlots(8193) == 3 && DataSlots(4096) == 1
    ensures TruncatedSlotsAsWritten(4, 3) == [1]
    ensures TruncatedSlots(4096, 4) == [1, 2]
  {
    assert TruncatedSlots(4096, 4) == seq(2, k => 1 + k);
  }

  /**
   * The truncation loop of write_end: every non-zero slot of `slots` is
   * released and every slot of `slots` is cleared.
   */
  method TruncateIndex(sbi: SbInfo, index: IndexTable, slots: seq<nat>) returns (cleared: IndexTable)
    requires sbi.Valid() && sbi.Reserved()
    requires forall k :: 0 <= k < |slots| ==> slots[k] < IndexEntries
    requires forall k :: 0 <= k < |slots| ==> slots[k] == (if |slots| > 0 then slots[0] else 0) + k
    modifies sbi`nrFreeBlocks, sbi.bfree
    ensures sbi.Valid() && sbi.Reserved()
    ensures sbi.Bfree() == ReleaseAll(old(sbi.Bfree()), sbi.nrBlocks, SlotValues(index, slots))
    ensures |slots| > 0 ==> cleared == ClearSlots(index, slots[0], slots[0] + |slots|)
    ensures |slots| == 0 ==> cleared == index
  {
    var values := SlotValues(index, slots);
    ghost var b0 := sbi.Bfree();
    ReleaseAllKeepsReserved(b0, sbi.nrBlocks, values);
    cleared := index;
    var i := 0;
    while i < |slots|
      invariant i <= |slots|
      invariant sbi.Valid()
      invariant sbi.Bfree() == ReleaseAll(b0, sbi.nrBlocks, values[..i])
      invariant |slots| > 0 ==> cleared == ClearSlots(index, slots[0], slots[0] + i)
      invariant |slots| == 0 ==> cleared == index
    {
      ghost var before := sbi.Bfree();
      if values[i] != 0 {
        sbi.PutBlock(values[i]);
      }
      TruncateStep(b0, sbi.nrBlocks, values, i, before, sbi.Bfree(), index, slots[0]);
      cleared := cleared[slots[i] := 0];
      i := i + 1;
    }
    assert values[..i] == values;
  }

  /** One round of the truncation loop extends both the release and the cleared range by one slot. */
  lemma TruncateStep(m: FreeMap, size: nat, units: seq<u32>, i: nat, before: FreeMap, after: FreeMap,
                     index: IndexTable, lo: nat)
    requires i < |units| && lo + i < IndexEntries
    requires before == ReleaseAll(m, size, units[..i])
    requires after == if units[i] == 0 then before else Put(before, size, units[i])
    ensures after == ReleaseAll(m, size, units[..i + 1])
    ensures ClearSlots(index, lo, lo + i)[lo + i := 0] == ClearSlots(index, lo, lo + i + 1)
  {
    assert units[..i + 1][..i] == units[..i];
  }

  /**
   * ouichefs_write_end. `ret` is what the generic part reports as
   * written and `size` the file size it leaves. A short write changes
   * nothing here. Otherwise the block count is recomputed and the
   * modification and change times are stamped; when the count shrank,
   * the slots past the file's data are released and cleared (EIO on the
   * index block only loses those blocks). The released slots run from
   * the first slot past the new data to the release bound of unlink,
   * which covers every slot the old size held (see the findings on
   * `file.c` lines 145-149).
   */
  method WriteEnd(v: Volume, ino: nat, len: nat, ret: nat, size: nat, now: nat) returns (written: nat)
    requires v.sbi.Valid() && v.sbi.Reserved() && ino in v.icache
    modifies v`disk, v`icache, v.sbi`nrFreeBlocks, v.sbi.bfree
    ensures v.sbi.Valid() && v.sbi.Reserved()
    ensures written == ret
    ensures ret < len ==> v.disk == old(v.disk) && v.icache == old(v.icache) && v.sbi.Bfree() == old(v.sbi.Bfree())
    ensures ret >= len ==>
      var node := old(v.icache[ino]);
      var newBlocks := BlocksAfterWrite(size);
      var slots := TruncatedSlots(size, node.blocks);
      var ib := node.indexBlock;
      && v.icache == old(v.icache)[ino := node.(size := size, blocks := newBlocks, mtime := now, ctime := now)]
      && (node.blocks <= newBlocks || ib !in old(v.disk) ==>
            v.disk == old(v.disk) && v.sbi.Bfree() == old(v.sbi.Bfree()))
      && (node.blocks > newBlocks && ib in old(v.disk) ==>
            var index := AsIndex(old(v.disk)[ib]);
            && v.sbi.Bfree() == ReleaseAll(old(v.sbi.Bfree()), v.sbi.nrBlocks, SlotValues(index, slots))
            && (|slots| > 0 ==>
                  v.disk == old(v.disk)[ib := IndexData(ClearSlots(index, slots[0], slots[0] + |slots|))])
            && (|slots| == 0 ==> v.disk == old(v.disk)[ib := IndexData(index)]))
  {
    written := ret;
    if ret < len {
      return;
    }
    var node := v.icache[ino];
    var newBlocks := BlocksAfterWrite(size);
    v.icache := v.icache[ino := node.(size := size, blocks := newBlocks, mtime := now, ctime := now)];
    if node.blocks <= newBlocks {
      return;
    }
    var ib := node.indexBlock;
    if ib !in v.disk {
      return;
    }
    var index := AsIndex(v.disk[ib]);
    var slots := TruncatedSlots(size, node.blocks);
    var cleared := TruncateIndex(v.sbi, index, slots);
    v.disk := v.disk[ib := IndexData(cleared)];
  }
}
