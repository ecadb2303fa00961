/**
 * The formatting tools (the C mkfs-ouichefs and its Rust rewrite): the
 * minimum-size check, the superblock geometry, the root inode, and the
 * bit patterns written to the two bitmap regions.
 *
 * Both tools compute in 32-bit unsigned arithmetic; every subtraction and
 * addition below that can leave the 32-bit range is wrapped explicitly.
 */
module Mkfs {
  import opened Layout

  /** Truncation of a mathematical result to a `uint32_t`. */
  function Wrap(x: int): u32 { x % U32Limit }

  /** idiv_ceil: the ceiling of a / b, the least r with r * b >= a. */
  function IdivCeil(a: u32, b: u32): (r: u32)
    requires b > 0
    ensures r * b >= a
    ensures r * b < a + b
  {
    DivFacts(a, b);
    if a % b != 0 then a / b + 1 else a / b
  }

  /** Euclidean division of naturals, and a non-zero remainder leaves room for one more. */
  lemma DivFacts(a: nat, b: nat)
    requires b > 0
    ensures a == (a / b) * b + a % b && a % b < b
    ensures a % b != 0 ==> a / b + 1 <= a
  {
    var q := a / b;
    if a % b != 0 {
      MulAtLeast(q, b);
    }
  }

  lemma MulAtLeast(q: nat, b: nat)
    requires b > 0
    ensures q * b >= q
  {
    assert q * b == q * (b - 1) + q;
  }

  // ---------------------------------------------------------------------
  // Size check and block count
  // ---------------------------------------------------------------------

  /** The smallest image either tool considers: 100 blocks. */
  const MinSize: nat := 100 * BlockSize

  /** The C tool rejects an image of at most 100 blocks' worth of bytes. */
  predicate CAccepts(size: nat) { !(size <= MinSize) }

  /** The Rust tool rejects only an image strictly smaller than that. */
  predicate RustAccepts(size: nat) { !(size < MinSize) }

  /** The two tools disagree on exactly one image size: 100 blocks. */
  lemma MinSizeBoundary(size: nat)
    ensures CAccepts(size) != RustAccepts(size) <==> size == MinSize
    ensures CAccepts(size) ==> RustAccepts(size)
  {
  }

  /**
   * The C tool's block count: the image size (a 64-bit `off_t`) divided
   * by the block size, then stored in a `uint32_t`.
   */
  function NrBlocks(size: nat): u32
  {
    Wrap(size / BlockSize)
  }

  /**
   * An image of fewer than 2^32 blocks is used up to its last whole
   * block: the block count covers the image to within one block.
   */
  lemma NrBlocksCoversImage(size: nat)
    requires size < BlockSize * U32Limit
    ensures NrBlocks(size) * BlockSize <= size < (NrBlocks(size) + 1) * BlockSize
  {
    assert size / BlockSize < U32Limit;
  }

  /** An image the C tool accepts (and below 2^32 blocks) has at least 100 blocks. */
  lemma AcceptedImageHasRoom(size: nat)
    requires CAccepts(size) && size < BlockSize * U32Limit
    ensures NrBlocks(size) >= 100
  {
    NrBlocksCoversImage(size);
  }

  /**
   * The Rust tool's block count as written: `st_size() as u32` keeps the
   * low 32 bits of the byte count before dividing.
   */
  function RustNrBlocksAsWritten(size: nat): u32
  {
    (size % U32Limit) / BlockSize
  }

  /**
   * An image of 4 GiB plus 100 blocks passes the Rust size check, yet
   * the Rust tool formats it as a 100-block volume; the C tool (and the
   * corrected count) gives 1048676 blocks.
   */
  lemma RustImageSizeTruncated()
    ensures RustAccepts(U32Limit + MinSize)
    ensures RustNrBlocksAsWritten(U32Limit + MinSize) == 100
    ensures NrBlocks(U32Limit + MinSize) == 1048676
  {
  }

  /** Below 4 GiB the two counts agree. */
  lemma RustNrBlocksAgreesBelow4GiB(size: nat)
    requires size < U32Limit
    ensures RustNrBlocksAsWritten(size) == NrBlocks(size)
  {
  }

  // ---------------------------------------------------------------------
  // write_superblock
  // ---------------------------------------------------------------------

  /**
   * write_superblock, the same in both tools: the remainder of the block
   * count modulo the inodes per block is added to the inode count (not
   * rounded up to a whole inode-store block), the three regions are
   * ceilings, the root inode and the root directory block are already
   * in use.
   */
  function Geometry(nrBlocks: u32): SuperBlock
  {
    var nrInodes := Wrap(nrBlocks + nrBlocks % InodesPerBlock);
    var istore := IdivCeil(nrInodes, InodesPerBlock);
    var ifree := IdivCeil(nrInodes, BitsPerBlock);
    var bfree := IdivCeil(nrBlocks, BitsPerBlock);
    var data := Wrap(nrBlocks - 1 - istore - ifree - bfree);
    SuperBlock(Magic, nrBlocks, nrInodes, istore, ifree, bfree, Wrap(nrInodes - 1), Wrap(data - 1))
  }

  /** The largest block count for which the inode count does not wrap. */
  const MaxGeometryBlocks: nat := U32Limit - InodesPerBlock

  /**
   * For any image with at least 100 blocks, the geometry lays out a
   * mountable volume: the inode store holds every inode, each bitmap has
   * a bit for every inode or block, the metadata regions and the root
   * directory block leave at least one data block, and the free counts
   * are the inode and data block totals less the root's.
   */
  lemma GeometryLayout(nrBlocks: u32)
    requires 100 <= nrBlocks < MaxGeometryBlocks
    ensures var sb := Geometry(nrBlocks);
      && sb.magic == Magic && sb.nrBlocks == nrBlocks
      && sb.nrInodes == nrBlocks + nrBlocks % InodesPerBlock
      && sb.nrIstoreBlocks * InodesPerBlock >= sb.nrInodes
      && (sb.nrIstoreBlocks - 1) * InodesPerBlock < sb.nrInodes
      && sb.nrIfreeBlocks * BitsPerBlock >= sb.nrInodes
      && sb.nrBfreeBlocks * BitsPerBlock >= nrBlocks
      && DataStart(sb) + 1 < nrBlocks
      && sb.nrFreeInodes == sb.nrInodes - 1
      && sb.nrFreeBlocks == nrBlocks - DataStart(sb) - 1
  {
    RecordGeometry();
    var nrInodes := nrBlocks + nrBlocks % InodesPerBlock;
    WrapSmall(nrInodes);
    var istore := IdivCeil(nrInodes, InodesPerBlock);
    var ifree := IdivCeil(nrInodes, BitsPerBlock);
    var bfree := IdivCeil(nrBlocks, BitsPerBlock);
    assert 1 + istore + ifree + bfree + 1 < nrBlocks;
    var data := nrBlocks - 1 - istore - ifree - bfree;
    WrapSmall(data);
    WrapSmall(nrInodes - 1);
    WrapSmall(data - 1);
  }

  /** Values that fit in 32 bits are left alone by the wrap-around. */
  lemma WrapSmall(x: int)
    requires 0 <= x < U32Limit
    ensures Wrap(x) == x
  {
  }

  // ---------------------------------------------------------------------
  // write_inode_store
  // ---------------------------------------------------------------------

  /** The permission bits of `stat.h`, owner, group and others. */
  const SIrusr: bv32 := 0x100
  const SIwusr: bv32 := 0x80
  const SIxusr: bv32 := 0x40
  const SIrgrp: bv32 := 0x20
  const SIwgrp: bv32 := 0x10
  const SIxgrp: bv32 := 0x8
  const SIroth: bv32 := 0x4
  const SIxoth: bv32 := 0x1

  /** S_IFDIR with permissions 0775: read for all, write for owner and group, search for all. */
  const RootMode: nat := IfDir + 0x1FD

  /**
   * The root inode (inode 0): a directory whose table is the first data
   * block. The tools do not write that block, so the directory is empty
   * only when the image file was zero to begin with.
   */
  function RootInode(sb: SuperBlock): Inode
  {
    Inode(RootMode, 0, 0, BlockSize, 0, 0, 0, 1, 2,
          Wrap(1 + sb.nrBfreeBlocks + sb.nrIfreeBlocks + sb.nrIstoreBlocks))
  }

  /** Number of blocks marked used in the block bitmap: every metadata block and the root's. */
  function NrUsed(sb: SuperBlock): u32
  {
    Wrap(sb.nrIstoreBlocks + sb.nrIfreeBlocks + sb.nrBfreeBlocks + 2)
  }

  /**
   * The root is a directory with mode 040775, owned by uid and gid 0,
   * one block long, with two links and all times 0, whose index block is
   * the first data block, which is also the last block marked used (on a
   * formatted volume the sum does not wrap: see GeometryLayout).
   */
  lemma RootInodeIsFirstDataBlock(sb: SuperBlock)
    requires DataStart(sb) + 1 < U32Limit
    ensures IsDir(RootInode(sb).mode) && RootInode(sb).mode == 0x41FD
    ensures RootInode(sb).mode % 0x200 == 0x1FD
    ensures (0x1FD as bv32) == SIrusr | SIrgrp | SIroth | SIwusr | SIwgrp | SIxusr | SIxgrp | SIxoth
    ensures RootInode(sb).uid == 0 && RootInode(sb).gid == 0
    ensures RootInode(sb).size == BlockSize && RootInode(sb).blocks == 1 && RootInode(sb).nlink == 2
    ensures RootInode(sb).ctime == 0 && RootInode(sb).atime == 0 && RootInode(sb).mtime == 0
    ensures RootInode(sb).indexBlock == DataStart(sb)
    ensures NrUsed(sb) == DataStart(sb) + 1
  {
    assert IsDir(RootMode);
  }

  // ---------------------------------------------------------------------
  // Bitmap blocks as 64-bit words
  // ---------------------------------------------------------------------

  /** A bitmap block is written as 512 little-endian 64-bit words. */
  const WordsPerBlock: nat := 512   // BlockSize / 8
  const Ones: bv64 := 0xFFFF_FFFF_FFFF_FFFF

  /** Bit k of a word (bit 0 is the least significant). */
  predicate WordBit(w: bv64, k: nat)
    requires k < 64
  {
    (w >> (k as bv7)) & 1 == 1
  }

  /** The bits of a bitmap block as the kernel reads them: bit k is bit k % 64 of word k / 64. */
  function WordsToBits(words: seq<bv64>): (bits: seq<bool>)
    ensures |bits| == 64 * |words|
  {
    seq(64 * |words|, k requires 0 <= k < 64 * |words| => WordBit(words[k / 64], k % 64))
  }

  /** The word with its `n` lowest bits cleared, for a shift count `n` of at most 64. */
  function Cleared(n: bv7): bv64
  {
    if n >= 64 then 0 else Ones << n
  }

  /** The word with its `n` lowest bits cleared, for any count. */
  function ClearedCount(n: nat): bv64
  {
    if n >= 64 then 0 else Cleared(n as bv7)
  }

  /** The word with only bit `j` set. */
  function MaskAt(j: bv7): bv64
    requires j < 64
  {
    1 << j
  }

  lemma ClearedBit(n: nat, k: nat)
    requires k < 64
    ensures WordBit(ClearedCount(n), k) <==> k >= n
  {
    if n < 64 {
      ShiftedOnesBit(n as bv7, k as bv7);
      AsBv7(n);
      AsBv7(k);
    }
  }

  lemma ShiftedOnesBit(n: bv7, k: bv7)
    requires n < 64 && k < 64
    ensures ((Ones << n) >> k) & 1 == 1 <==> k >= n
  {
  }

  /** A small number survives the round trip through a 7-bit shift amount. */
  lemma AsBv7(n: nat)
    requires n < 64
    ensures (n as bv7) as int == n
  {
  }

  /** Below 64 the successor of a 7-bit count is the successor of its value. */
  lemma Bv7Succ(j: bv7)
    requires j < 64
    ensures (j + 1) as int == j as int + 1
  {
  }

  /** A 7-bit count survives the round trip through its value. */
  lemma Bv7RoundTrip(j: bv7)
    ensures (j as int) as bv7 == j
  {
  }

  /**
   * write_ifree_blocks: in the first block every bit but bit 0 is set
   * (the first word is 0xfffffffffffffffe, `u64::MAX - 1` in the Rust
   * tool); every later block is all ones.
   */
  function IfreeWords(first: bool): (w: seq<bv64>)
    ensures |w| == WordsPerBlock
  {
    seq(WordsPerBlock, i requires 0 <= i < WordsPerBlock => if first && i == 0 then 0xFFFF_FFFF_FFFF_FFFE else Ones)
  }

  /** In the inode bitmap written by mkfs, only inode 0 (the root) is in use. */
  lemma IfreeMarksOnlyRoot(b: nat, k: nat)
    requires k < BitsPerBlock
    ensures WordsToBits(IfreeWords(b == 0))[k] <==> b * BitsPerBlock + k != 0
  {
    var w := IfreeWords(b == 0)[k / 64];
    assert WordsToBits(IfreeWords(b == 0))[k] == WordBit(w, k % 64);
    if b == 0 && k / 64 == 0 {
      assert w == ClearedCount(1);
      ClearedBit(1, k % 64);
    } else {
      ClearedBit(0, k % 64);
    }
  }

  /** The words of the first block-bitmap block once the first `nrUsed` bits are cleared. */
  function BfreeFirstWords(nrUsed: nat): (w: seq<bv64>)
    ensures |w| == WordsPerBlock
  {
    seq(WordsPerBlock, i requires 0 <= i < WordsPerBlock => ClearedCount(Sub(nrUsed, 64 * i)))
  }

  /** Subtraction stopping at zero. */
  function Sub(a: nat, b: nat): nat { if a >= b then a - b else 0 }

  /**
   * The inner loop of write_bfree_blocks: starting from a word of all
   * ones, clear bits from the lowest, counting `nr_used` down, until the
   * count reaches zero or the mask has left the word.
   */
  method ClearLine(nrUsed0: u32) returns (line: bv64, nrUsed: u32)
    requires nrUsed0 > 0
    ensures line == ClearedCount(nrUsed0)
    ensures nrUsed == Sub(nrUsed0, 64)
  {
    line := Ones;
    nrUsed := nrUsed0;
    var mask: bv64 := 1;
    ghost var j: bv7 := 0;
    while mask != 0
      invariant j < 64 ==> mask == MaskAt(j) && mask != 0
      invariant j == 64 ==> mask == 0
      invariant j <= 64 && j as int <= nrUsed0 as int
      invariant line == Cleared(j)
      invariant nrUsed as int == nrUsed0 as int - j as int
      invariant nrUsed > 0
      decreases 64 - j as int
    {
      ClearStep(j);
      MaskStep(j);
      Bv7Succ(j);
      line := line & !mask;
      nrUsed := nrUsed - 1;
      j := j + 1;
      if nrUsed == 0 {
        break;
      }
      mask := mask << 1;
    }
    Bv7RoundTrip(j);
  }

  /**
   * write_bfree_blocks, first block: the words of a block of all ones,
   * each cleared by the inner loop while `nr_used` is not zero; the
   * source assumes all used blocks fit in this first block.
   */
  method BfreeFirstBlock(nrUsed0: u32) returns (bfree: array<bv64>)
    requires nrUsed0 <= BitsPerBlock
    ensures bfree.Length == WordsPerBlock
    ensures bfree[..] == BfreeFirstWords(nrUsed0)
  {
    bfree := new bv64[WordsPerBlock](_ => Ones);
    var nrUsed: u32 := nrUsed0;
    var i := 0;
    while nrUsed != 0
      invariant 0 <= i <= WordsPerBlock
      invariant nrUsed == Sub(nrUsed0, 64 * i)
      invariant forall k :: 0 <= k < i ==> bfree[k] == ClearedCount(Sub(nrUsed0, 64 * k))
      invariant forall k :: i <= k < WordsPerBlock ==> bfree[k] == Ones
      decreases nrUsed
    {
      var line;
      line, nrUsed := ClearLine(nrUsed);
      SubStep(nrUsed0 as nat, i);
      bfree[i] := line;
      i := i + 1;
    }
    forall k | i <= k < WordsPerBlock
      ensures bfree[k] == ClearedCount(Sub(nrUsed0, 64 * k))
    {
      assert Sub(nrUsed0, 64 * k) == 0;
    }
    assert bfree[..] == BfreeFirstWords(nrUsed0);
  }

  /** One more word of the outer loop counts 64 more used blocks off. */
  lemma SubStep(a: nat, i: nat)
    ensures Sub(Sub(a, 64 * i), 64) == Sub(a, 64 * (i + 1))
  {
    assert 64 * (i + 1) == 64 * i + 64;
  }

  /** One step of the inner loop: clearing the mask bit extends the cleared prefix. */
  lemma ClearStep(j: bv7)
    requires j < 64
    ensures Cleared(j) & !MaskAt(j) == Cleared(j + 1)
  {
  }

  /** The mask is never zero inside the word, and shifting it moves it up one bit. */
  lemma MaskStep(j: bv7)
    requires j < 64
    ensures MaskAt(j) != 0
    ensures j + 1 < 64 ==> MaskAt(j) << 1 == MaskAt(j + 1)
    ensures j + 1 < 64 ==> MaskAt(j + 1) != 0
    ensures j + 1 == 64 ==> MaskAt(j) << 1 == 0
  {
  }

  /**
   * In the block bitmap written by mkfs, a block is in use exactly when
   * it lies below `nrUsed`; blocks of later bitmap blocks are all free.
   */
  lemma BfreeMarksUsedPrefix(nrUsed: nat, b: nat, k: nat)
    requires nrUsed <= BitsPerBlock && k < BitsPerBlock
    ensures (WordsToBits(if b == 0 then BfreeFirstWords(nrUsed) else IfreeWords(false))[k]
             <==> b * BitsPerBlock + k >= nrUsed)
  {
    var i := k / 64;
    if b == 0 {
      assert WordsToBits(BfreeFirstWords(nrUsed))[k] == WordBit(ClearedCount(Sub(nrUsed, 64 * i)), k % 64);
      ClearedBit(Sub(nrUsed, 64 * i), k % 64);
    } else {
      assert WordsToBits(IfreeWords(false))[k] == WordBit(Ones, k % 64);
      ClearedBit(0, k % 64);
    }
  }

  /**
   * On a formatted volume the block bitmap marks as used exactly the
   * superblock, the inode store, both bitmaps and the root directory
   * block; block 0 is among them, so the allocator never grants block 0
   * and 0 can keep meaning "none".
   */
  lemma FormattedBfree(nrBlocks: u32, b: nat, k: nat)
    requires 100 <= nrBlocks < MaxGeometryBlocks && k < BitsPerBlock
    requires NrUsed(Geometry(nrBlocks)) <= BitsPerBlock
    ensures var sb := Geometry(nrBlocks);
      (WordsToBits(if b == 0 then BfreeFirstWords(NrUsed(sb)) else IfreeWords(false))[k]
       <==> b * BitsPerBlock + k > RootInode(sb).indexBlock)
  {
    GeometryLayout(nrBlocks);
    RootInodeIsFirstDataBlock(Geometry(nrBlocks));
    BfreeMarksUsedPrefix(NrUsed(Geometry(nrBlocks)), b, k);
  }

  /**
   * The assumption of write_bfree_blocks that every used block fits in
   * the first bitmap block fails for large images (about 13 GiB here).
   */
  lemma UsedBlocksOverflowFirstBitmapBlock()
    ensures NrUsed(Geometry(3_400_000)) > BitsPerBlock
  {
    RecordGeometry();
    var sb := Geometry(3_400_000);
    assert sb.nrInodes == 3_400_034;
    assert sb.nrIstoreBlocks == 33_334;
    assert sb.nrIfreeBlocks == 104 && sb.nrBfreeBlocks == 104;
  }

  // ---------------------------------------------------------------------
  // The magic number
  // ---------------------------------------------------------------------

  /** A little-endian 32-bit value from four bytes. */
  function LeU32(b: seq<nat>): nat
    requires |b| == 4
  {
    b[0] + 0x100 * b[1] + 0x1_0000 * b[2] + 0x100_0000 * b[3]
  }

  /** The Rust tool's magic bytes "WICH" read little-endian are the kernel's magic number. */
  lemma MagicBytes()
    ensures LeU32(['W' as nat, 'I' as nat, 'C' as nat, 'H' as nat]) == Magic
  {
  }
}
