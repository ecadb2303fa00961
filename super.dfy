/**
 * The superblock side of a mounted volume: writing an inode back to the
 * inode store, flushing the superblock counters and the two bitmaps to
 * their regions, loading them at mount time, and the statistics report.
 */
module Super {
  import opened Layout
  import opened Bitmap
  import opened Disk

  /** Block 0 read as a superblock. */
  function AsSuper(b: Block): SuperBlock
  {
    if b.SuperData? then b.sb else SuperBlock(0, 0, 0, 0, 0, 0, 0, 0)
  }

  /** A block of a bitmap region read as its 32768 bits. */
  function AsBits(b: Block): (r: seq<bool>)
    ensures |r| == BitsPerBlock
  {
    if b.BitmapData? && |b.bits| == BitsPerBlock then b.bits else seq(BitsPerBlock, _ => false)
  }

  // ---------------------------------------------------------------------
  // write_inode
  // ---------------------------------------------------------------------

  function Trunc32(x: nat): u32 { x % U32Limit }

  /** An in-memory inode as the 32-bit fields of its on-disk record hold it. */
  function Stored(i: Inode): (r: Inode)
    ensures Fits32(r)
    ensures Fits32(i) ==> r == i
  {
    Inode(Trunc32(i.mode), Trunc32(i.uid), Trunc32(i.gid), Trunc32(i.size),
          Trunc32(i.ctime), Trunc32(i.atime), Trunc32(i.mtime),
          Trunc32(i.blocks), Trunc32(i.nlink), i.indexBlock)
  }

  /** A block of the inode store after record `shift` is overwritten with `i`. */
  function WithRecord(b: Block, shift: nat, i: Inode): (r: Block)
    requires shift < InodesPerBlock
    ensures r.InodeData? && |r.records| == InodesPerBlock
  {
    InodeData(seq(InodesPerBlock, k requires 0 <= k < InodesPerBlock => if k == shift then i else InodeRecord(b, k)))
  }

  /** The overwritten record reads back as written; every other record of the block is kept. */
  lemma WithRecordReadsBack(b: Block, shift: nat, i: Inode)
    requires shift < InodesPerBlock
    ensures InodeRecord(WithRecord(b, shift, i), shift) == i
    ensures forall k :: 0 <= k < InodesPerBlock && k != shift ==>
      InodeRecord(WithRecord(b, shift, i), k) == InodeRecord(b, k)
  {
  }

  /**
   * ouichefs_write_inode: nothing to do past the last inode; EIO when the
   * inode's block cannot be read; otherwise its record, at the location
   * iget reads from, receives the inode's fields cut to 32 bits.
   */
  method WriteInode(v: Volume, ino: nat) returns (st: Status)
    requires ino in v.icache
    modifies v`disk
    ensures ino >= v.sbi.nrInodes ==> st == Done && v.disk == old(v.disk)
    ensures ino < v.sbi.nrInodes && InodeBlock(ino) !in old(v.disk) ==>
      st == Fail(EIO) && v.disk == old(v.disk)
    ensures ino < v.sbi.nrInodes && InodeBlock(ino) in old(v.disk) ==>
      && st == Done
      && v.disk == old(v.disk)[InodeBlock(ino) :=
           WithRecord(old(v.disk)[InodeBlock(ino)], InodeShift(ino), Stored(v.icache[ino]))]
  {
    if ino >= v.sbi.nrInodes {
      return Done;
    }
    var blk := InodeBlock(ino);
    if blk !in v.disk {
      return Fail(EIO);
    }
    v.disk := v.disk[blk := WithRecord(v.disk[blk], InodeShift(ino), Stored(v.icache[ino]))];
    st := Done;
  }

  /**
   * Written back and fetched again with an empty cache, an inode whose
   * fields fit in 32 bits comes back unchanged; any other inode of the
   * volume comes back as it was.
   */
  lemma WriteThenIget(v: Volume, ino: nat, i: Inode, other: nat)
    requires v.icache == map[] && ino < v.sbi.nrInodes && InodeBlock(ino) in v.disk
    requires Fits32(i)
    ensures var d := v.disk[InodeBlock(ino) := WithRecord(v.disk[InodeBlock(ino)], InodeShift(ino), Stored(i))];
      && InodeRecord(d[InodeBlock(ino)], InodeShift(ino)) == i
      && (other != ino && InodeBlock(other) in v.disk ==>
            InodeRecord(d[InodeBlock(other)], InodeShift(other)) == InodeRecord(v.disk[InodeBlock(other)], InodeShift(other)))
  {
    WithRecordReadsBack(v.disk[InodeBlock(ino)], InodeShift(ino), i);
    if other != ino && InodeBlock(other) == InodeBlock(ino) {
      if InodeShift(other) == InodeShift(ino) {
        InodeLocationInjective(other, ino);
      }
    }
  }

  // ---------------------------------------------------------------------
  // sync_sb_info and statfs
  // ---------------------------------------------------------------------

  /** The superblock record holding the in-memory counters, with the magic number kept. */
  function Counters(sbi: SbInfo, magic: u32): (sb: SuperBlock)
    reads sbi
  {
    SuperBlock(magic, sbi.nrBlocks, sbi.nrInodes, sbi.nrIstoreBlocks, sbi.nrIfreeBlocks,
               sbi.nrBfreeBlocks, sbi.nrFreeInodes, sbi.nrFreeBlocks)
  }

  /**
   * sync_sb_info: EIO when block 0 cannot be read; otherwise the seven
   * counters are written over the stored ones, leaving the magic number.
   */
  method SyncSbInfo(v: Volume) returns (st: Status)
    modifies v`disk
    ensures SbBlockNr !in old(v.disk) ==> st == Fail(EIO) && v.disk == old(v.disk)
    ensures SbBlockNr in old(v.disk) ==>
      && st == Done
      && v.disk == old(v.disk)[SbBlockNr := SuperData(Counters(v.sbi, AsSuper(old(v.disk)[SbBlockNr]).magic))]
  {
    if SbBlockNr !in v.disk {
      return Fail(EIO);
    }
    var magic := AsSuper(v.disk[SbBlockNr]).magic;
    v.disk := v.disk[SbBlockNr := SuperData(Counters(v.sbi, magic))];
    st := Done;
  }

  /** `struct kstatfs` as filled by ouichefs_statfs. */
  datatype StatFs = StatFs(fType: nat, bsize: nat, blocks: nat, bfree: nat, bavail: nat,
                           files: nat, ffree: nat, namelen: nat)

  /**
   * ouichefs_statfs. The file count is the number of inodes in use,
   * computed in 32-bit arithmetic.
   */
  function Statfs(sbi: SbInfo): (s: StatFs)
    reads sbi
    ensures s.fType == Magic && s.bsize == BlockSize && s.namelen == FilenameLen
    ensures s.blocks == sbi.nrBlocks && s.bfree == s.bavail == sbi.nrFreeBlocks
    ensures s.ffree == sbi.nrFreeInodes
    ensures sbi.nrFreeInodes <= sbi.nrInodes ==> s.files + s.ffree == sbi.nrInodes
    ensures sbi.nrFreeInodes > sbi.nrInodes ==> s.files == sbi.nrInodes + U32Limit - sbi.nrFreeInodes
  {
    StatFs(Magic, BlockSize, sbi.nrBlocks, sbi.nrFreeBlocks, sbi.nrFreeBlocks,
           (sbi.nrInodes - sbi.nrFreeInodes) % U32Limit, sbi.nrFreeInodes, FilenameLen)
  }

  /**
   * With the inode counter agreeing with the inode bitmap, the reported
   * file count is the number of inode numbers marked in use.
   */
  lemma StatfsCountsUsedInodes(sbi: SbInfo)
    requires Consistent(sbi.Ifree(), sbi.nrInodes)
    ensures Statfs(sbi).files == sbi.nrInodes - CountFree(sbi.ifree[..][..sbi.nrInodes])
  {
    CountFreeBound(sbi.ifree[..][..sbi.nrInodes]);
  }

  // ---------------------------------------------------------------------
  // Bitmap regions: sync_ifree / sync_bfree and the loads of fill_super
  // ---------------------------------------------------------------------

  /** Chunk `i` of a bitmap: the bits stored in the i-th block of its region. */
  function Chunk(bits: seq<bool>, i: nat): (r: seq<bool>)
    requires (i + 1) * BitsPerBlock <= |bits|
    ensures |r| == BitsPerBlock
  {
    bits[i * BitsPerBlock .. (i + 1) * BitsPerBlock]
  }

  /** The outcome of a flush: its status and the device after it. */
  datatype Written = Written(st: Status, disk: map<nat, Block>)

  /**
   * Writing the first `n` chunks of `bits` to blocks `start`, `start` + 1,
   * ... in order; the first block that cannot be read ends the flush with
   * EIO, the chunks before it written.
   */
  function StoreChunks(d: map<nat, Block>, start: nat, bits: seq<bool>, n: nat): (w: Written)
    requires n * BitsPerBlock <= |bits|
    ensures forall k {:trigger k in w.disk} :: k in w.disk <==> k in d
    ensures w.st == Done || w.st == Fail(EIO)
  {
    if n == 0 then Written(Done, d)
    else
      var prev := StoreChunks(d, start, bits, n - 1);
      if prev.st.Fail? then prev
      else if start + n - 1 !in prev.disk then Written(Fail(EIO), prev.disk)
      else Written(Done, prev.disk[start + n - 1 := BitmapData(Chunk(bits, n - 1))])
  }

  /** Once a flush has failed, flushing more chunks changes nothing more. */
  lemma {:induction false} StoreFailSticks(d: map<nat, Block>, start: nat, bits: seq<bool>, i: nat, n: nat)
    requires i <= n && n * BitsPerBlock <= |bits|
    requires StoreChunks(d, start, bits, i).st.Fail?
    ensures StoreChunks(d, start, bits, n) == StoreChunks(d, start, bits, i)
    decreases n - i
  {
    if i < n {
      StoreFailSticks(d, start, bits, i, n - 1);
    }
  }

  /**
   * Reading `n` blocks from `start` into one bitmap, in order; EIO at the
   * first block that cannot be read.
   */
  function LoadChunks(d: map<nat, Block>, start: nat, n: nat): (r: Result<seq<bool>>)
    ensures r.Ok? ==> |r.value| == n * BitsPerBlock
  {
    if n == 0 then Ok([])
    else
      match LoadChunks(d, start, n - 1)
      case Err(e) => Err(e)
      case Ok(prefix) =>
        if start + n - 1 !in d then Err(EIO) else Ok(prefix + AsBits(d[start + n - 1]))
  }

  /** Loading only reads blocks [start, start + n): a change elsewhere does not affect it. */
  lemma {:induction false} LoadChunksFrame(d: map<nat, Block>, start: nat, n: nat, k: nat, b: Block)
    requires k in d && !(start <= k < start + n)
    ensures LoadChunks(d[k := b], start, n) == LoadChunks(d, start, n)
  {
    if n > 0 {
      LoadChunksFrame(d, start, n - 1, k, b);
    }
  }

  /** The first `m` chunks of a bitmap, concatenated, are its first m * 32768 bits. */
  lemma ChunksPrefix(bits: seq<bool>, m: nat)
    requires 0 < m && m * BitsPerBlock <= |bits|
    ensures bits[..(m - 1) * BitsPerBlock] + Chunk(bits, m - 1) == bits[..m * BitsPerBlock]
  {
  }

  /**
   * A complete flush followed by a load of the same region gives back
   * the flushed bitmap.
   */
  lemma {:induction false} StoreThenLoad(d: map<nat, Block>, start: nat, bits: seq<bool>, m: nat)
    requires m * BitsPerBlock <= |bits|
    requires StoreChunks(d, start, bits, m).st == Done
    ensures LoadChunks(StoreChunks(d, start, bits, m).disk, start, m) == Ok(bits[..m * BitsPerBlock])
  {
    if m > 0 {
      var prev := StoreChunks(d, start, bits, m - 1);
      StoreThenLoad(d, start, bits, m - 1);
      var k := start + m - 1;
      LoadChunksFrame(prev.disk, start, m - 1, k, BitmapData(Chunk(bits, m - 1)));
      ChunksPrefix(bits, m);
    }
  }

  /**
   * A load followed by a flush of what was loaded leaves every block of
   * the region reading the same bits, and every other block as it was.
   */
  lemma {:induction false} LoadThenStore(d: map<nat, Block>, start: nat, n: nat)
    requires LoadChunks(d, start, n).Ok?
    ensures var w := StoreChunks(d, start, LoadChunks(d, start, n).value, n);
      && w.st == Done
      && (forall k :: k in d && start <= k < start + n ==> AsBits(w.disk[k]) == AsBits(d[k]))
      && (forall k :: k in d && !(start <= k < start + n) ==> w.disk[k] == d[k])
  {
    var bits := LoadChunks(d, start, n).value;
    LoadThenStoreUpTo(d, start, n, bits, n);
  }

  lemma LoadThenStoreUpTo(d: map<nat, Block>, start: nat, n: nat, bits: seq<bool>, m: nat)
    requires m <= n && LoadChunks(d, start, n) == Ok(bits)
    ensures var w := StoreChunks(d, start, bits, m);
      && w.st == Done
      && (forall k :: k in d && start <= k < start + m ==> AsBits(w.disk[k]) == AsBits(d[k]))
      && (forall k :: k in d && !(start <= k < start + m) ==> w.disk[k] == d[k])
  {
    forall i | 0 <= i < m
      ensures ChunkMatches(d, start, bits, i)
    {
      LoadedBlock(d, start, n, i);
    }
    assert m * BitsPerBlock <= n * BitsPerBlock == |bits|;
    StoreMatching(d, start, bits, m);
  }

  /** Block `start` + i exists and already reads as chunk i of `bits`. */
  ghost predicate ChunkMatches(d: map<nat, Block>, start: nat, bits: seq<bool>, i: nat)
  {
    (i + 1) * BitsPerBlock <= |bits| && start + i in d && Chunk(bits, i) == AsBits(d[start + i])
  }

  /**
   * Flushing chunks that already match the blocks they go to succeeds and
   * leaves every block of the region reading the same bits.
   */
  lemma StoreMatching(d: map<nat, Block>, start: nat, bits: seq<bool>, m: nat)
    requires m * BitsPerBlock <= |bits|
    requires forall i :: 0 <= i < m ==> ChunkMatches(d, start, bits, i)
    ensures var w := StoreChunks(d, start, bits, m);
      && w.st == Done
      && (forall k :: k in d && start <= k < start + m ==> AsBits(w.disk[k]) == AsBits(d[k]))
      && (forall k :: k in d && !(start <= k < start + m) ==> w.disk[k] == d[k])
  {
    StoreReachesAll(d, start, bits, m);
    var w := StoreChunks(d, start, bits, m);
    forall k | k in d && start <= k < start + m
      ensures AsBits(w.disk[k]) == AsBits(d[k])
    {
      StoreWritesChunk(d, start, bits, m, k);
      assert ChunkMatches(d, start, bits, k - start);
    }
    forall k | k in d && !(start <= k < start + m)
      ensures w.disk[k] == d[k]
    {
      StoreChunksFrame(d, start, bits, m, k);
    }
  }

  /** A flush over blocks that all exist succeeds. */
  lemma {:induction false} StoreReachesAll(d: map<nat, Block>, start: nat, bits: seq<bool>, m: nat)
    requires m * BitsPerBlock <= |bits|
    requires forall i :: 0 <= i < m ==> ChunkMatches(d, start, bits, i)
    ensures StoreChunks(d, start, bits, m).st == Done
  {
    if m > 0 {
      StoreReachesAll(d, start, bits, m - 1);
      assert ChunkMatches(d, start, bits, m - 1);
    }
  }

  /** After a successful flush, block start + i holds chunk i. */
  lemma {:induction false} StoreWritesChunk(d: map<nat, Block>, start: nat, bits: seq<bool>, n: nat, k: nat)
    requires n * BitsPerBlock <= |bits|
    requires StoreChunks(d, start, bits, n).st == Done
    requires start <= k < start + n
    ensures k in StoreChunks(d, start, bits, n).disk
    ensures AsBits(StoreChunks(d, start, bits, n).disk[k]) == Chunk(bits, k - start)
  {
    StoreStep(d, start, bits, n);
    if k < start + n - 1 {
      StoreWritesChunk(d, start, bits, n - 1, k);
    }
  }

  /** A successful load read every block of the region, and chunk `i` is block start + i. */
  lemma {:induction false} LoadedBlock(d: map<nat, Block>, start: nat, n: nat, i: nat)
    requires i < n && LoadChunks(d, start, n).Ok?
    ensures start + i in d
    ensures Chunk(LoadChunks(d, start, n).value, i) == AsBits(d[start + i])
  {
    var prefix := LoadChunks(d, start, n - 1).value;
    if i < n - 1 {
      LoadedBlock(d, start, n - 1, i);
      assert Chunk(LoadChunks(d, start, n).value, i) == Chunk(prefix, i);
    } else {
      assert LoadChunks(d, start, n).value == prefix + AsBits(d[start + n - 1]);
    }
  }

  /**
   * The flush loop of sync_ifree and sync_bfree: chunk i of the bitmap
   * goes to block `start` + i.
   */
  method SyncChunks(v: Volume, bits: array<bool>, start: nat, n: nat) returns (st: Status)
    requires bits.Length == n * BitsPerBlock
    modifies v`disk
    ensures Written(st, v.disk) == StoreChunks(old(v.disk), start, bits[..], n)
  {
    var i := 0;
    while i < n
      invariant i <= n
      invariant StoreChunks(old(v.disk), start, bits[..], i) == Written(Done, v.disk)
    {
      if start + i !in v.disk {
        StoreFailSticks(old(v.disk), start, bits[..], i + 1, n);
        return Fail(EIO);
      }
      v.disk := v.disk[start + i := BitmapData(bits[i * BitsPerBlock .. (i + 1) * BitsPerBlock])];
      i := i + 1;
    }
    st := Done;
  }

  /** sync_ifree: the inode bitmap to the blocks after the inode store. */
  method SyncIfree(v: Volume) returns (st: Status)
    requires v.sbi.ifree.Length == v.sbi.nrIfreeBlocks * BitsPerBlock
    modifies v`disk
    ensures Written(st, v.disk) ==
      StoreChunks(old(v.disk), SbBlockNr + 1 + v.sbi.nrIstoreBlocks, v.sbi.ifree[..], v.sbi.nrIfreeBlocks)
  {
    st := SyncChunks(v, v.sbi.ifree, SbBlockNr + 1 + v.sbi.nrIstoreBlocks, v.sbi.nrIfreeBlocks);
  }

  /** sync_bfree: the block bitmap to the blocks after the inode bitmap. */
  method SyncBfree(v: Volume) returns (st: Status)
    requires v.sbi.bfree.Length == v.sbi.nrBfreeBlocks * BitsPerBlock
    modifies v`disk
    ensures Written(st, v.disk) ==
      StoreChunks(old(v.disk), SbBlockNr + 1 + v.sbi.nrIstoreBlocks + v.sbi.nrIfreeBlocks, v.sbi.bfree[..], v.sbi.nrBfreeBlocks)
  {
    st := SyncChunks(v, v.sbi.bfree, SbBlockNr + 1 + v.sbi.nrIstoreBlocks + v.sbi.nrIfreeBlocks, v.sbi.nrBfreeBlocks);
  }

  /**
   * The outcome of ouichefs_sync_fs on a device, given the in-memory
   * counters `c` and the contents of the two bitmaps: the superblock
   * (keeping the stored magic number), then the inode bitmap, then the
   * block bitmap; the first failure is returned and nothing after it is
   * written.
   */
  function SyncFsSpec(d: map<nat, Block>, c: SuperBlock, ibits: seq<bool>, bbits: seq<bool>): (w: Written)
    requires |ibits| == c.nrIfreeBlocks as nat * BitsPerBlock
    requires |bbits| == c.nrBfreeBlocks as nat * BitsPerBlock
    ensures SbBlockNr !in d ==> w == Written(Fail(EIO), d)
  {
    if SbBlockNr !in d then Written(Fail(EIO), d)
    else
      var d1 := d[SbBlockNr := SuperData(c.(magic := AsSuper(d[SbBlockNr]).magic))];
      FlushBitmaps(d1, IfreeStart(c), ibits, c.nrIfreeBlocks as nat, bbits, c.nrBfreeBlocks as nat)
  }

  /** The two bitmap flushes of a sync: `ni` inode-bitmap blocks from `istart`, then the block bitmap right after. */
  function FlushBitmaps(d: map<nat, Block>, istart: nat, ibits: seq<bool>, ni: nat, bbits: seq<bool>, nb: nat): Written
    requires ni * BitsPerBlock <= |ibits| && nb * BitsPerBlock <= |bbits|
  {
    var w1 := StoreChunks(d, istart, ibits, ni);
    if w1.st.Fail? then w1 else StoreChunks(w1.disk, istart + ni, bbits, nb)
  }

  /** ouichefs_sync_fs. */
  method SyncFs(v: Volume) returns (st: Status)
    requires v.sbi.ifree.Length == v.sbi.nrIfreeBlocks as nat * BitsPerBlock
    requires v.sbi.bfree.Length == v.sbi.nrBfreeBlocks as nat * BitsPerBlock
    modifies v`disk
    ensures Written(st, v.disk) == SyncFsSpec(old(v.disk), Counters(v.sbi, Magic), v.sbi.ifree[..], v.sbi.bfree[..])
  {
    var sbi := v.sbi;
    var ifree, bfree := sbi.ifree, sbi.bfree;
    ghost var ibits, bbits := ifree[..], bfree[..];
    var istart := SbBlockNr + 1 + sbi.nrIstoreBlocks as nat;
    var bstart := istart + sbi.nrIfreeBlocks as nat;
    ghost var spec := SyncFsSpec(v.disk, Counters(sbi, Magic), ibits, bbits);
    st := SyncSbInfo(v);
    if st.Fail? {
      return;
    }
    ghost var w1 := StoreChunks(v.disk, istart, ibits, sbi.nrIfreeBlocks as nat);
    assert spec == if w1.st.Fail? then w1 else StoreChunks(w1.disk, bstart, bbits, sbi.nrBfreeBlocks as nat);
    st := SyncChunks(v, ifree, istart, sbi.nrIfreeBlocks as nat);
    assert ifree[..] == ibits;
    if st.Fail? {
      return;
    }
    st := SyncChunks(v, bfree, bstart, sbi.nrBfreeBlocks as nat);
    assert bfree[..] == bbits;
  }

  /** A flush only writes blocks [start, start + n): every other block keeps its contents. */
  lemma {:induction false} StoreChunksFrame(d: map<nat, Block>, start: nat, bits: seq<bool>, n: nat, k: nat)
    requires n * BitsPerBlock <= |bits|
    requires k in d && !(start <= k < start + n)
    ensures StoreChunks(d, start, bits, n).disk[k] == d[k]
  {
    if n > 0 {
      StoreChunksFrame(d, start, bits, n - 1, k);
    }
  }

  /** One more chunk of a flush: either the flush has stopped, or block start + n - 1 gets chunk n - 1. */
  lemma StoreStep(d: map<nat, Block>, start: nat, bits: seq<bool>, n: nat)
    requires 0 < n && n * BitsPerBlock <= |bits|
    ensures (n - 1) * BitsPerBlock <= |bits|
    ensures var prev := StoreChunks(d, start, bits, n - 1);
      var k := start + n - 1;
      StoreChunks(d, start, bits, n).disk ==
        if prev.st.Done? && k in prev.disk then prev.disk[k := BitmapData(Chunk(bits, n - 1))] else prev.disk
  {
  }

  /** A flush of one region does not change what a load of a disjoint region reads. */
  lemma {:induction false} StoreKeepsLoad(d: map<nat, Block>, start: nat, bits: seq<bool>, n: nat, other: nat, m: nat)
    requires n * BitsPerBlock <= |bits|
    requires start + n <= other || other + m <= start
    ensures LoadChunks(StoreChunks(d, start, bits, n).disk, other, m) == LoadChunks(d, other, m)
  {
    if n > 0 {
      StoreStep(d, start, bits, n);
      var prev := StoreChunks(d, start, bits, n - 1);
      var w := StoreChunks(d, start, bits, n).disk;
      StoreKeepsLoad(d, start, bits, n - 1, other, m);
      var k := start + n - 1;
      if prev.st.Done? && k in prev.disk {
        var b := BitmapData(Chunk(bits, n - 1));
        assert w == prev.disk[k := b];
        LoadChunksFrame(prev.disk, other, m, k, b);
        assert LoadChunks(w, other, m) == LoadChunks(prev.disk, other, m);
      } else {
        assert w == prev.disk;
      }
      assert LoadChunks(prev.disk, other, m) == LoadChunks(d, other, m);
    }
  }

  /**
   * A successful sync followed by a mount-time read of the device gives
   * back the in-memory state: the counters (under the stored magic
   * number) and both bitmaps.
   */
  lemma SyncThenLoad(d: map<nat, Block>, c: SuperBlock, ibits: seq<bool>, bbits: seq<bool>)
    requires |ibits| == c.nrIfreeBlocks as nat * BitsPerBlock
    requires |bbits| == c.nrBfreeBlocks as nat * BitsPerBlock
    requires SyncFsSpec(d, c, ibits, bbits).st == Done
    ensures SbBlockNr in d && SbBlockNr in SyncFsSpec(d, c, ibits, bbits).disk
    ensures AsSuper(SyncFsSpec(d, c, ibits, bbits).disk[SbBlockNr]) == c.(magic := AsSuper(d[SbBlockNr]).magic)
    ensures LoadChunks(SyncFsSpec(d, c, ibits, bbits).disk, IfreeStart(c), c.nrIfreeBlocks as nat) == Ok(ibits)
    ensures LoadChunks(SyncFsSpec(d, c, ibits, bbits).disk, BfreeStart(c), c.nrBfreeBlocks as nat) == Ok(bbits)
  {
    var d1 := d[SbBlockNr := SuperData(c.(magic := AsSuper(d[SbBlockNr]).magic))];
    var istart, ni, nb := IfreeStart(c), c.nrIfreeBlocks as nat, c.nrBfreeBlocks as nat;
    assert SyncFsSpec(d, c, ibits, bbits) == FlushBitmaps(d1, istart, ibits, ni, bbits, nb);
    FlushBitmapsLoad(d1, istart, ibits, ni, bbits, nb);
  }

  /**
   * Two successful flushes of adjacent regions after block 0 leave block 0
   * as it was and each region loading back its own bitmap.
   */
  lemma FlushBitmapsLoad(d: map<nat, Block>, istart: nat, ibits: seq<bool>, ni: nat, bbits: seq<bool>, nb: nat)
    requires |ibits| == ni * BitsPerBlock && |bbits| == nb * BitsPerBlock
    requires SbBlockNr in d && SbBlockNr < istart
    requires FlushBitmaps(d, istart, ibits, ni, bbits, nb).st == Done
    ensures var w := FlushBitmaps(d, istart, ibits, ni, bbits, nb).disk;
      && SbBlockNr in w && w[SbBlockNr] == d[SbBlockNr]
      && LoadChunks(w, istart, ni) == Ok(ibits)
      && LoadChunks(w, istart + ni, nb) == Ok(bbits)
  {
    var w1 := StoreChunks(d, istart, ibits, ni);
    assert w1.st == Done;
    var bstart := istart + ni;
    StoreChunksFrame(d, istart, ibits, ni, SbBlockNr);
    StoreChunksFrame(w1.disk, bstart, bbits, nb, SbBlockNr);
    StoreThenLoad(d, istart, ibits, ni);
    StoreKeepsLoad(w1.disk, bstart, bbits, nb, istart, ni);
    assert ibits[..ni * BitsPerBlock] == ibits;
    StoreThenLoad(w1.disk, bstart, bbits, nb);
    assert bbits[..nb * BitsPerBlock] == bbits;
  }

  // ---------------------------------------------------------------------
  // fill_super
  // ---------------------------------------------------------------------

  /** The load loop of fill_super for one bitmap: block `start` + i into chunk i. */
  method LoadChunksInto(d: map<nat, Block>, start: nat, n: nat, a: array<bool>) returns (st: Status)
    requires a.Length == n * BitsPerBlock
    modifies a
    ensures st == Done <==> LoadChunks(d, start, n).Ok?
    ensures st == Done ==> a[..] == LoadChunks(d, start, n).value
    ensures st.Fail? ==> st == Fail(EIO)
  {
    var i := 0;
    while i < n
      invariant i <= n
      invariant LoadChunks(d, start, i).Ok?
      invariant a[..i * BitsPerBlock] == LoadChunks(d, start, i).value
    {
      if start + i !in d {
        LoadFailSticks(d, start, i + 1, n);
        return Fail(EIO);
      }
      var chunk := AsBits(d[start + i]);
      ghost var before := a[..i * BitsPerBlock];
      forall k | 0 <= k < BitsPerBlock {
        a[i * BitsPerBlock + k] := chunk[k];
      }
      assert a[..i * BitsPerBlock] == before by {
        forall j | 0 <= j < i * BitsPerBlock
          ensures a[..i * BitsPerBlock][j] == before[j]
        {
        }
      }
      assert a[..(i + 1) * BitsPerBlock] == before + chunk by {
        forall j | 0 <= j < (i + 1) * BitsPerBlock
          ensures a[..(i + 1) * BitsPerBlock][j] == (before + chunk)[j]
        {
          if j >= i * BitsPerBlock {
            assert a[i * BitsPerBlock + (j - i * BitsPerBlock)] == chunk[j - i * BitsPerBlock];
          }
        }
      }
      i := i + 1;
    }
    assert a[..] == a[..n * BitsPerBlock];
    st := Done;
  }

  /** Once a load has failed, loading more blocks fails too. */
  lemma {:induction false} LoadFailSticks(d: map<nat, Block>, start: nat, i: nat, n: nat)
    requires i <= n && LoadChunks(d, start, i).Err?
    ensures LoadChunks(d, start, n).Err?
    decreases n - i
  {
    if i < n {
      LoadFailSticks(d, start, i, n - 1);
    }
  }

  /**
   * ouichefs_fill_super: EIO when block 0 cannot be read, EPERM on a
   * wrong magic number; the seven counters are copied as stored; each
   * bitmap is loaded from its region (EIO at an unreadable block); the
   * root inode 0 is then fetched, and its fetch error (EINVAL when the
   * volume has no inode, EIO when its store block cannot be read) is
   * returned; when every step succeeds so does the mount. The root inode
   * is then owned by the mounting process (`inode_init_owner` with no
   * parent), whose fsuid and fsgid are `uid` and `gid`.
   */
  method FillSuper(d: map<nat, Block>, uid: nat, gid: nat) returns (r: Result<Volume>)
    ensures SbBlockNr !in d ==> r == Err(EIO)
    ensures SbBlockNr in d && AsSuper(d[SbBlockNr]).magic != Magic ==> r == Err(EPERM)
    ensures SbBlockNr in d && AsSuper(d[SbBlockNr]).magic == Magic ==>
      var csb := AsSuper(d[SbBlockNr]);
      && (LoadChunks(d, IfreeStart(csb), csb.nrIfreeBlocks).Err? ==> r == Err(EIO))
      && ((LoadChunks(d, IfreeStart(csb), csb.nrIfreeBlocks).Ok? && LoadChunks(d, BfreeStart(csb), csb.nrBfreeBlocks).Err?)
            ==> r == Err(EIO))
      && ((LoadChunks(d, IfreeStart(csb), csb.nrIfreeBlocks).Ok? && LoadChunks(d, BfreeStart(csb), csb.nrBfreeBlocks).Ok?)
            ==> && (csb.nrInodes == 0 ==> r == Err(EINVAL))
                && (csb.nrInodes > 0 && InodeBlock(0) !in d ==> r == Err(EIO))
                && (csb.nrInodes > 0 && InodeBlock(0) in d ==> r.Ok?))
    ensures r.Ok? ==>
      var csb := AsSuper(d[SbBlockNr]);
      var v := r.value;
      && SbBlockNr in d && csb.magic == Magic
      && fresh(v) && fresh(v.sbi) && v.disk == d
      && Counters(v.sbi, csb.magic) == csb
      && LoadChunks(d, IfreeStart(csb), csb.nrIfreeBlocks) == Ok(v.sbi.ifree[..])
      && LoadChunks(d, BfreeStart(csb), csb.nrBfreeBlocks) == Ok(v.sbi.bfree[..])
      && v.sbi.ifree.Length == v.sbi.nrIfreeBlocks * BitsPerBlock
      && v.sbi.bfree.Length == v.sbi.nrBfreeBlocks * BitsPerBlock
      && 0 < csb.nrInodes && InodeBlock(0) in d
      && v.icache == map[0 := InodeRecord(d[InodeBlock(0)], InodeShift(0)).(uid := uid, gid := gid)]
  {
    if SbBlockNr !in d {
      return Err(EIO);
    }
    var csb := AsSuper(d[SbBlockNr]);
    if csb.magic != Magic {
      return Err(EPERM);
    }
    var sbi := new SbInfo(csb);
    var st := LoadChunksInto(d, IfreeStart(csb), csb.nrIfreeBlocks, sbi.ifree);
    if st.Fail? {
      return Err(EIO);
    }
    st := LoadChunksInto(d, BfreeStart(csb), csb.nrBfreeBlocks, sbi.bfree);
    if st.Fail? {
      return Err(EIO);
    }
    var v := new Volume(sbi, d);
    var root := Load(v, 0);
    if root.Err? {
      return Err(root.code);
    }
    v.icache := v.icache[0 := root.value.(uid := uid, gid := gid)];
    r := Ok(v);
  }
}
