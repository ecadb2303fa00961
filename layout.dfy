/**
 * The on-disk layout of an ouichefs volume: block size, record sizes,
 * the inode record, the directory table, the superblock, and the
 * arithmetic that locates an inode inside the inode store.
 *
 * Layout of a volume, in block order:
 *   superblock (1) | inode store | ifree bitmap | bfree bitmap | data blocks
 */
module Layout {

  /** An optional value (a pointer that may be NULL). */
  datatype Option<T> = None | Some(value: T)

  /** 32-bit unsigned integers, as used by every on-disk field. */
  const U32Limit: nat := 0x1_0000_0000
  type u32 = x: int | 0 <= x < 0x1_0000_0000

  /** Wrap-around increment and decrement of a `uint32_t`. */
  function Inc32(x: u32): (r: u32)
    ensures x < U32Limit - 1 ==> r == x + 1
    ensures x == U32Limit - 1 ==> r == 0
  {
    (x + 1) % U32Limit
  }

  function Dec32(x: u32): (r: u32)
    ensures x > 0 ==> r == x - 1
    ensures x == 0 ==> r == U32Limit - 1
  {
    (x - 1) % U32Limit
  }

  lemma DecThenInc(x: u32)
    ensures Inc32(Dec32(x)) == x && Dec32(Inc32(x)) == x
  {
  }

  function Min(a: nat, b: nat): nat { if a < b then a else b }
  function Max(a: nat, b: nat): nat { if a < b then b else a }

  const Magic: u32 := 0x48434957
  const SbBlockNr: nat := 0
  const BlockSize: nat := 4096
  const MaxFileSize: nat := 0x40_0000   // 1 << 22
  const FilenameLen: nat := 28
  const MaxSubfiles: nat := 128

  /** An inode record is ten 32-bit fields. */
  const InodeFields: nat := 10
  const InodeRecordSize: nat := 40   // InodeFields * 4
  const InodesPerBlock: nat := 102   // BlockSize / InodeRecordSize

  /** A file index block is an array of 32-bit block numbers filling a block. */
  const IndexEntries: nat := 1024   // BlockSize / 4

  /** A directory entry is a 32-bit inode number and a fixed-size name. */
  const DirEntrySize: nat := 32   // 4 + FilenameLen

  /** Bits held by one bitmap block. */
  const BitsPerBlock: nat := 32768   // BlockSize * 8

  lemma RecordGeometry()
    ensures InodeRecordSize == InodeFields * 4 && InodesPerBlock == BlockSize / InodeRecordSize
    ensures InodesPerBlock * InodeRecordSize <= BlockSize < (InodesPerBlock + 1) * InodeRecordSize
    ensures DirEntrySize == 4 + FilenameLen && MaxSubfiles * DirEntrySize == BlockSize
    ensures IndexEntries == BlockSize / 4 && IndexEntries * 4 == BlockSize
    ensures MaxFileSize == IndexEntries * BlockSize
    ensures BitsPerBlock == BlockSize * 8
  {
  }

  /** File type bits of a mode (S_IFMT, S_IFDIR, S_IFREG). */
  const ModeTypeUnit: nat := 0x1000
  const IfDir: nat := 0x4000
  const IfReg: nat := 0x8000

  predicate IsDir(mode: nat) { (mode / ModeTypeUnit) % 16 == IfDir / ModeTypeUnit }
  predicate IsReg(mode: nat) { (mode / ModeTypeUnit) % 16 == IfReg / ModeTypeUnit }

  lemma DirIsNotReg(mode: nat)
    ensures !(IsDir(mode) && IsReg(mode))
    ensures IsDir(IfDir) && IsReg(IfReg)
  {
  }

  /**
   * `struct ouichefs_inode`. The in-memory inode keeps the same fields
   * (timestamps in whole seconds); on disk every field is 32 bits wide.
   */
  datatype Inode = Inode(
    mode: nat, uid: nat, gid: nat, size: nat,
    ctime: nat, atime: nat, mtime: nat,
    blocks: nat, nlink: nat, indexBlock: u32)

  const ZeroInode: Inode := Inode(0, 0, 0, 0, 0, 0, 0, 0, 0, 0)

  predicate Fits32(i: Inode)
  {
    && i.mode < U32Limit && i.uid < U32Limit && i.gid < U32Limit && i.size < U32Limit
    && i.ctime < U32Limit && i.atime < U32Limit && i.mtime < U32Limit
    && i.blocks < U32Limit && i.nlink < U32Limit && i.indexBlock < U32Limit
  }

  /** One slot of a directory table; inode number 0 marks an empty slot. */
  datatype DirEntry = DirEntry(ino: u32, name: string)

  const EmptyEntry: DirEntry := DirEntry(0, "")

  /** A directory table fills exactly one block: 128 slots. */
  type DirTable = s: seq<DirEntry> | |s| == MaxSubfiles witness seq(MaxSubfiles, _ => EmptyEntry)

  /** A file index block: 1024 block numbers, 0 meaning "not allocated". */
  type IndexTable = s: seq<u32> | |s| == IndexEntries witness seq(IndexEntries, _ => 0)

  /** A freshly zeroed directory table and index block. */
  function EmptyTable(): DirTable { seq(MaxSubfiles, _ => EmptyEntry) }
  function EmptyIndex(): IndexTable { seq(IndexEntries, _ => 0) }

  /**
   * The directory invariant the mutation engine keeps: occupied slots are
   * packed from slot 0, and every slot after them is all zeroes (no
   * inode, no name).
   */
  ghost predicate Packed(files: seq<DirEntry>)
  {
    forall j :: Occupied(files) <= j < |files| ==> files[j] == EmptyEntry
  }

  /** Number of occupied slots of a table (the length of its occupied prefix). */
  function Occupied(files: seq<DirEntry>): (n: nat)
    ensures n <= |files|
    ensures forall i :: 0 <= i < n ==> files[i].ino != 0
    ensures n < |files| ==> files[n].ino == 0
  {
    if files == [] || files[0].ino == 0 then 0 else 1 + Occupied(files[1..])
  }

  /** `struct ouichefs_sb_info` as stored in block 0. */
  datatype SuperBlock = SuperBlock(
    magic: u32, nrBlocks: u32, nrInodes: u32,
    nrIstoreBlocks: u32, nrIfreeBlocks: u32, nrBfreeBlocks: u32,
    nrFreeInodes: u32, nrFreeBlocks: u32)

  /** First block of each region, in the order of the layout diagram. */
  function IstoreStart(sb: SuperBlock): nat { SbBlockNr + 1 }
  function IfreeStart(sb: SuperBlock): nat { IstoreStart(sb) + sb.nrIstoreBlocks }
  function BfreeStart(sb: SuperBlock): nat { IfreeStart(sb) + sb.nrIfreeBlocks }
  function DataStart(sb: SuperBlock): nat { BfreeStart(sb) + sb.nrBfreeBlocks }

  lemma RegionsInOrder(sb: SuperBlock)
    ensures SbBlockNr < IstoreStart(sb) <= IfreeStart(sb) <= BfreeStart(sb) <= DataStart(sb)
    ensures DataStart(sb) == 1 + sb.nrIstoreBlocks + sb.nrIfreeBlocks + sb.nrBfreeBlocks
  {
  }

  /** Block of the inode store holding inode `ino`, and its slot in that block. */
  function InodeBlock(ino: nat): nat { ino / InodesPerBlock + 1 }
  function InodeShift(ino: nat): nat { ino % InodesPerBlock }

  /**
   * The (block, slot) location of an inode determines the inode: the
   * location arithmetic is a bijection onto the slots of the inode store.
   */
  lemma InodeLocationRoundTrip(ino: nat)
    ensures InodeBlock(ino) >= 1 && InodeShift(ino) < InodesPerBlock
    ensures (InodeBlock(ino) - 1) * InodesPerBlock + InodeShift(ino) == ino
  {
    assert InodesPerBlock == 102;
  }

  lemma InodeLocationInjective(a: nat, b: nat)
    requires InodeBlock(a) == InodeBlock(b) && InodeShift(a) == InodeShift(b)
    ensures a == b
  {
    InodeLocationRoundTrip(a);
    InodeLocationRoundTrip(b);
  }

  /**
   * Every inode below `nrInodes` sits in the inode store when the store
   * has ceil(nrInodes / InodesPerBlock) blocks.
   */
  lemma {:induction false} InodeInStore(sb: SuperBlock, ino: nat)
    requires ino < sb.nrInodes
    requires sb.nrIstoreBlocks * InodesPerBlock >= sb.nrInodes
    ensures IstoreStart(sb) <= InodeBlock(ino) < IfreeStart(sb)
  {
    assert InodesPerBlock == 102;
    DivBelow(ino, InodesPerBlock, sb.nrIstoreBlocks);
  }

  lemma MulSign(a: int, c: nat)
    ensures a <= 0 ==> a * c <= 0
  {
  }

  /** x < n * c implies x / c < n. */
  lemma DivBelow(x: nat, c: nat, n: nat)
    requires c > 0 && x < n * c
    ensures x / c < n
  {
    var q := x / c;
    assert q * c <= x;
    assert (n - q) * c == n * c - q * c > 0;
    MulSign(n - q, c);
  }
}
