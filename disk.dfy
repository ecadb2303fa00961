/**
 * The block device and the in-memory state of a mounted volume.
 *
 * The device is a map from block number to block contents; a block
 * number absent from the map is one whose read fails (`sb_bread`
 * returning NULL). Blocks are typed by the layout they were written
 * with; reading a block through another layout gives that layout's
 * all-zero view.
 */
module Disk {
  import opened Layout
  import opened Bitmap

  datatype Errno = EINVAL | EIO | ENOSPC | ENAMETOOLONG | EMLINK | EEXIST
                 | ENOTEMPTY | EFBIG | ENOTDIR | EPERM

  datatype Result<T> = Ok(value: T) | Err(code: Errno)

  /** The status of an operation returning 0 or a negative error number. */
  datatype Status = Done | Fail(code: Errno)

  datatype Block =
    | Zeroed
    | DirData(files: seq<DirEntry>)
    | IndexData(slots: seq<u32>)
    | FileData(bytes: seq<bv8>)
    | InodeData(records: seq<Inode>)
    | BitmapData(bits: seq<bool>)
    | SuperData(sb: SuperBlock)

  /** A block read as a directory table (`struct ouichefs_dir_block`). */
  function AsDir(b: Block): DirTable
  {
    if b.DirData? && |b.files| == MaxSubfiles then b.files else EmptyTable()
  }

  /** A block read as a file index block (`struct ouichefs_file_index_block`). */
  function AsIndex(b: Block): IndexTable
  {
    if b.IndexData? && |b.slots| == IndexEntries then b.slots else EmptyIndex()
  }

  /** A block read as raw bytes; only data blocks have non-zero bytes. */
  function AsBytes(b: Block): seq<bv8>
  {
    if b.FileData? && |b.bytes| == BlockSize then b.bytes else seq(BlockSize, _ => 0)
  }

  /** Slot `shift` of a block of the inode store. */
  function InodeRecord(b: Block, shift: nat): Inode
  {
    if b.InodeData? && shift < |b.records| then b.records[shift] else ZeroInode
  }

  /**
   * A mounted volume: the superblock information with its bitmaps, the
   * device, and the inode cache (inodes already brought into memory,
   * keyed by inode number).
   */
  class Volume {
    var sbi: SbInfo
    var disk: map<nat, Block>
    var icache: map<nat, Inode>

    ghost predicate Valid()
      reads this, sbi
    {
      sbi.Valid()
    }

    constructor (sbi: SbInfo, disk: map<nat, Block>)
      ensures this.sbi == sbi && this.disk == disk && icache == map[]
    {
      this.sbi := sbi;
      this.disk := disk;
      this.icache := map[];
    }
  }

  /** What a namespace operation can change: device, inode cache and both allocation maps. */
  datatype Snapshot = Snapshot(disk: map<nat, Block>, icache: map<nat, Inode>, ifree: FreeMap, bfree: FreeMap)

  ghost function Snap(v: Volume): Snapshot
    reads v, v.sbi, v.sbi.ifree, v.sbi.bfree
  {
    Snapshot(v.disk, v.icache, v.sbi.Ifree(), v.sbi.Bfree())
  }

  /** Zero, in order, every listed non-zero block that can be read. */
  function ScrubAll(d: map<nat, Block>, units: seq<u32>): map<nat, Block>
  {
    if units == [] then d
    else
      var d' := ScrubAll(d, units[..|units| - 1]);
      var u := units[|units| - 1];
      if u != 0 && u in d' then d'[u := Zeroed] else d'
  }

  /** Scrubbing keeps the set of readable blocks and zeroes exactly the listed non-zero ones. */
  lemma {:induction false} ScrubAllZeroesListed(d: map<nat, Block>, units: seq<u32>)
    ensures ScrubAll(d, units).Keys == d.Keys
    ensures forall k :: k in d ==>
      ScrubAll(d, units)[k] == (if k != 0 && k in units then Zeroed else d[k])
  {
    if units != [] {
      var init := units[..|units| - 1];
      ScrubAllZeroesListed(d, init);
      assert units == init + [units[|units| - 1]];
    }
  }

  /**
   * ouichefs_iget: EINVAL past the last inode; a cached inode as it is;
   * otherwise the record at slot `ino % 102` of block `ino / 102 + 1`, or
   * EIO when that block cannot be read.
   */
  function Iget(v: Volume, ino: nat): (r: Result<Inode>)
    reads v, v.sbi
    ensures ino >= v.sbi.nrInodes ==> r == Err(EINVAL)
    ensures ino < v.sbi.nrInodes && ino in v.icache ==> r == Ok(v.icache[ino])
    ensures ino < v.sbi.nrInodes && ino !in v.icache ==>
      r == (if InodeBlock(ino) in v.disk
            then Ok(InodeRecord(v.disk[InodeBlock(ino)], InodeShift(ino)))
            else Err(EIO))
  {
    if ino >= v.sbi.nrInodes then Err(EINVAL)
    else if ino in v.icache then Ok(v.icache[ino])
    else if InodeBlock(ino) !in v.disk then Err(EIO)
    else Ok(InodeRecord(v.disk[InodeBlock(ino)], InodeShift(ino)))
  }

  /** A successful Iget names an inode below nr_inodes that is cached or whose store block can be read. */
  lemma IgetFillsCache(v: Volume, ino: nat)
    requires Iget(v, ino).Ok?
    ensures ino < v.sbi.nrInodes
    ensures ino in v.icache || InodeBlock(ino) in v.disk
  {
  }

  /** ouichefs_iget with its effect on the inode cache. */
  method Load(v: Volume, ino: nat) returns (r: Result<Inode>)
    modifies v`icache
    ensures r == old(Iget(v, ino))
    ensures r.Ok? ==> v.icache == old(v.icache)[ino := r.value]
    ensures r.Err? ==> v.icache == old(v.icache)
    ensures r.Ok? ==> Iget(v, ino) == r
  {
    r := Iget(v, ino);
    if r.Ok? {
      v.icache := v.icache[ino := r.value];
    }
  }
}
