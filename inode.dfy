/**
 * The namespace operations of the inode layer: lookup, inode allocation,
 * create, unlink, rename and rmdir. Each works on the 128-slot table of a
 * directory, the inode cache, the device and the two allocation bitmaps.
 */
module InodeOps {
  import opened Layout
  import opened Bitmap
  import opened Disk
  import opened DirTableOps

  /** `current_time` stamped into the three timestamps. */
  function Touched(i: Inode, now: nat): Inode
  {
    i.(mtime := now, atime := now, ctime := now)
  }

  /** drop_nlink: the unsigned link count moves down by one, and a zero count wraps to 2^32-1. */
  function DropLink(n: nat): nat
  {
    if n == 0 then U32Limit - 1 else n - 1
  }

  /** The inode new_inode builds: a directory or a regular file with one index block. */
  function FreshInode(mode: nat, uid: nat, gid: nat, now: nat, bno: u32): (i: Inode)
    requires IsDir(mode) || IsReg(mode)
    ensures i.blocks == 1 && i.indexBlock == bno
    ensures IsDir(mode) ==> i.size == BlockSize && i.nlink == 2
    ensures IsReg(mode) ==> i.size == 0 && i.nlink == 1
    ensures i.ctime == now && i.atime == now && i.mtime == now
  {
    DirIsNotReg(mode);
    Inode(mode, uid, gid, if IsDir(mode) then BlockSize else 0, now, now, now,
          1, if IsDir(mode) then 2 else 1, bno)
  }

  /** The inode fields unlink clears; the link count is left as it is. */
  function Cleared(i: Inode): (r: Inode)
    ensures r.nlink == i.nlink
    ensures r == ZeroInode.(nlink := i.nlink)
  {
    i.(blocks := 0, indexBlock := 0, size := 0, uid := 0, gid := 0, mode := 0,
       ctime := 0, mtime := 0, atime := 0)
  }

  // ---------------------------------------------------------------------
  // Slot scans
  // ---------------------------------------------------------------------

  /** The lookup loop: stop at the first empty slot or at the first name match. */
  method ScanName(files: DirTable, name: string) returns (i: nat)
    ensures i == FindName(files, name)
  {
    i := 0;
    while i < MaxSubfiles
      invariant i <= Occupied(files)
      invariant i <= FindName(files, name)
    {
      if files[i].ino == 0 {
        break;
      }
      if files[i].name == name {
        break;
      }
      i := i + 1;
    }
  }

  /** The create loop: the first slot whose inode number is 0. */
  method FirstFreeSlot(files: DirTable) returns (i: nat)
    ensures i == Occupied(files)
  {
    i := 0;
    while i < MaxSubfiles
      invariant i <= Occupied(files)
    {
      if files[i].ino == 0 {
        break;
      }
      i := i + 1;
    }
  }

  /**
   * The unlink loop: the last slot holding `ino` before the first empty
   * slot, and the number of slots scanned.
   */
  method ScanEntry(files: DirTable, ino: nat) returns (fId: int, nrSubs: nat)
    requires ino != 0
    ensures nrSubs == Occupied(files)
    ensures fId == LastIndexOf(files, ino, nrSubs)
  {
    fId := -1;
    var i := 0;
    while i < MaxSubfiles
      invariant i <= Occupied(files)
      invariant fId == LastIndexOf(files, ino, i)
    {
      if files[i].ino == ino {
        fId := i;
      } else if files[i].ino == 0 {
        break;
      }
      i := i + 1;
    }
    nrSubs := i;
  }

  /**
   * The rename loop over the destination table: every slot is examined;
   * a slot named `newName` stops the scan; otherwise the last slot named
   * `oldName` (same directory only) and the first empty slot are found.
   */
  method ScanForRename(files: DirTable, oldName: string, newName: string, sameDir: bool)
    returns (taken: bool, fPos: int, newPos: int)
    ensures taken <==> NameInTable(files, newName)
    ensures !taken ==> fPos == (if sameDir then LastNamed(files, oldName, MaxSubfiles) else -1)
    ensures !taken ==> newPos == (if Occupied(files) < MaxSubfiles then Occupied(files) else -1)
  {
    taken, fPos, newPos := false, -1, -1;
    var i := 0;
    while i < MaxSubfiles
      invariant i <= MaxSubfiles
      invariant forall j :: 0 <= j < i ==> files[j].name != newName
      invariant fPos == (if sameDir then LastNamed(files, oldName, i) else -1)
      invariant newPos == (if Occupied(files) < i then Occupied(files) else -1)
    {
      if sameDir && files[i].name == oldName {
        fPos := i;
      }
      if files[i].name == newName {
        taken := true;
        return;
      }
      if newPos < 0 && files[i].ino == 0 {
        newPos := i;
      }
      i := i + 1;
    }
  }

  // ---------------------------------------------------------------------
  // lookup
  // ---------------------------------------------------------------------

  /** What lookup attaches to the dentry: nothing, or the result of fetching the inode. */
  datatype Found = Miss | Hit(ino: nat, inode: Result<Inode>)

  function AfterIget(c: map<nat, Inode>, ino: nat, r: Result<Inode>): map<nat, Inode>
  {
    if r.Ok? then c[ino := r.value] else c
  }

  /**
   * ouichefs_lookup: ENAMETOOLONG past 28 bytes, EIO when the table
   * cannot be read; otherwise the first matching slot of the occupied
   * prefix is fetched, and the directory's access time is set in both
   * the hit and the miss case.
   */
  method Lookup(v: Volume, dir: nat, name: string, now: nat) returns (r: Result<Found>)
    requires dir in v.icache
    modifies v`icache
    ensures |name| > FilenameLen ==> r == Err(ENAMETOOLONG) && v.icache == old(v.icache)
    ensures |name| <= FilenameLen && old(v.icache[dir].indexBlock) !in v.disk ==>
      r == Err(EIO) && v.icache == old(v.icache)
    ensures |name| <= FilenameLen && old(v.icache[dir].indexBlock) in v.disk ==>
      var files := AsDir(v.disk[old(v.icache[dir].indexBlock)]);
      var i := FindName(files, name);
      var c := if i < Occupied(files) then AfterIget(old(v.icache), files[i].ino, old(Iget(v, files[i].ino)))
               else old(v.icache);
      && dir in c
      && r == Ok(if i < Occupied(files) then Hit(files[i].ino, old(Iget(v, files[i].ino))) else Miss)
      && v.icache == c[dir := c[dir].(atime := now)]
  {
    if |name| > FilenameLen {
      return Err(ENAMETOOLONG);
    }
    var blk := v.icache[dir].indexBlock;
    if blk !in v.disk {
      return Err(EIO);
    }
    var files := AsDir(v.disk[blk]);
    var i := ScanName(files, name);
    var found := Miss;
    if i < MaxSubfiles && files[i].ino != 0 {
      var inode := Load(v, files[i].ino);
      found := Hit(files[i].ino, inode);
    }
    v.icache := v.icache[dir := v.icache[dir].(atime := now)];
    r := Ok(found);
  }

  // ---------------------------------------------------------------------
  // new_inode and create
  // ---------------------------------------------------------------------

  /**
   * ouichefs_new_inode: EINVAL for a type other than directory or regular
   * file, ENOSPC when a free counter is 0 or a grant fails; on a failed
   * fetch or a failed block grant the inode number is released again.
   */
  method NewInode(v: Volume, mode: nat, uid: nat, gid: nat, now: nat) returns (r: Result<nat>)
    requires v.sbi.Valid() && v.sbi.Reserved()
    modifies v`icache, v.sbi`nrFreeInodes, v.sbi`nrFreeBlocks, v.sbi.ifree, v.sbi.bfree
    ensures v.sbi.Valid() && v.sbi.Reserved()
    ensures !IsDir(mode) && !IsReg(mode) ==> r == Err(EINVAL)
    ensures (IsDir(mode) || IsReg(mode)) && (old(v.sbi.nrFreeInodes) == 0 || old(v.sbi.nrFreeBlocks) == 0)
      ==> r == Err(ENOSPC)
    ensures (IsDir(mode) || IsReg(mode)) && old(v.sbi.nrFreeInodes) > 0 && old(v.sbi.nrFreeBlocks) > 0 ==>
      var ino := Get(old(v.sbi.Ifree()), v.sbi.nrInodes).unit;
      var bno := Get(old(v.sbi.Bfree()), v.sbi.nrBlocks).unit;
      && (ino == 0 ==> r == Err(ENOSPC))
      && (ino != 0 && old(Iget(v, ino)).Err? ==> r == Err(old(Iget(v, ino)).code))
      && (ino != 0 && old(Iget(v, ino)).Ok? && bno == 0 ==> r == Err(ENOSPC))
      && (ino != 0 && old(Iget(v, ino)).Ok? && bno != 0 ==> r.Ok?)
    ensures Consistent(old(v.sbi.Ifree()), v.sbi.nrInodes) ==> Consistent(v.sbi.Ifree(), v.sbi.nrInodes)
    ensures Consistent(old(v.sbi.Bfree()), v.sbi.nrBlocks) ==> Consistent(v.sbi.Bfree(), v.sbi.nrBlocks)
    ensures r.Err? ==>
      && v.icache == old(v.icache)
      && v.sbi.Ifree() == old(v.sbi.Ifree())
      && v.sbi.Bfree() == old(v.sbi.Bfree())
    ensures r.Ok? ==>
      var ino := Get(old(v.sbi.Ifree()), v.sbi.nrInodes).unit;
      var bno := Get(old(v.sbi.Bfree()), v.sbi.nrBlocks).unit;
      && (IsDir(mode) || IsReg(mode))
      && r.value == ino && ino != 0 && bno != 0
      && old(Iget(v, ino)).Ok?
      && v.sbi.Ifree() == Get(old(v.sbi.Ifree()), v.sbi.nrInodes).after
      && v.sbi.Bfree() == Get(old(v.sbi.Bfree()), v.sbi.nrBlocks).after
      && v.icache == old(v.icache)[ino := FreshInode(mode, uid, gid, now, bno)]
  {
    if !IsDir(mode) && !IsReg(mode) {
      return Err(EINVAL);
    }
    if v.sbi.nrFreeInodes == 0 || v.sbi.nrFreeBlocks == 0 {
      return Err(ENOSPC);
    }
    ghost var i0, b0 := v.sbi.Ifree(), v.sbi.Bfree();
    var c0 := v.icache;
    var ino := v.sbi.GetFreeInode();
    if ino == 0 {
      GetIsFirstFit(i0, v.sbi.nrInodes);
      return Err(ENOSPC);
    }
    var inode := Load(v, ino);
    if inode.Err? {
      GiveBackInode(v, ino, i0);
      return Err(inode.code);
    }
    var bno := v.sbi.GetFreeBlock();
    if bno == 0 {
      GetIsFirstFit(b0, v.sbi.nrBlocks);
      // iput: the inode fetched above is dropped from the cache again.
      v.icache := c0;
      GiveBackInode(v, ino, i0);
      return Err(ENOSPC);
    }
    v.icache := v.icache[ino := FreshInode(mode, uid, gid, now, bno)];
    r := Ok(ino);
    if Consistent(i0, v.sbi.nrInodes) {
      GetPreservesConsistency(i0, v.sbi.nrInodes);
    }
    if Consistent(b0, v.sbi.nrBlocks) {
      GetPreservesConsistency(b0, v.sbi.nrBlocks);
    }
  }

  /** put_inode on the number just granted from `i0`: the inode bitmap is `i0` again. */
  method GiveBackInode(v: Volume, ino: u32, ghost i0: FreeMap)
    requires v.sbi.Valid() && v.sbi.Reserved() && ino != 0 && v.sbi.nrInodes <= |i0.bits|
    requires Get(i0, v.sbi.nrInodes).unit == ino && v.sbi.Ifree() == Get(i0, v.sbi.nrInodes).after
    modifies v.sbi`nrFreeInodes, v.sbi.ifree
    ensures v.sbi.Valid() && v.sbi.Reserved()
    ensures v.sbi.Ifree() == i0 && v.sbi.Bfree() == old(v.sbi.Bfree())
  {
    v.sbi.PutInode(ino);
    GetThenPut(i0, v.sbi.nrInodes);
  }

  /** inc_nlink: the unsigned link count moves up by one, and 2^32-1 wraps to 0. */
  function IncLink(n: nat): (r: nat)
    ensures r < U32Limit
    ensures n < U32Limit - 1 ==> r == n + 1
    ensures n == U32Limit - 1 ==> r == 0
    ensures n < U32Limit ==> DropLink(r) == n
  {
    (n + 1) % U32Limit
  }

  /** The parent after gaining an entry: stamped, and one more link for a subdirectory. */
  function Linked(parent: Inode, now: nat, childIsDir: bool): (r: Inode)
    ensures !childIsDir ==> r.nlink == parent.nlink
    ensures childIsDir && parent.nlink < U32Limit - 1 ==> r.nlink == parent.nlink + 1
    ensures childIsDir && parent.nlink == U32Limit - 1 ==> r.nlink == 0
    ensures parent.nlink < U32Limit ==> r.nlink < U32Limit
    ensures r.mtime == now && r.atime == now && r.ctime == now
    ensures r.(nlink := parent.nlink, mtime := parent.mtime, atime := parent.atime, ctime := parent.ctime) == parent
  {
    Touched(parent, now).(nlink := if childIsDir then IncLink(parent.nlink) else parent.nlink)
  }

  /** The parent after losing an entry: stamped, and one link fewer for a subdirectory. */
  function Unlinked(parent: Inode, now: nat, childIsDir: bool): Inode
  {
    Touched(parent, now).(nlink := if childIsDir then DropLink(parent.nlink) else parent.nlink)
  }

  /**
   * ouichefs_create: ENAMETOOLONG, EIO, then EMLINK when the last slot is
   * taken; then a new inode; then the new index block is zeroed (EIO and
   * both grants released when it cannot be read) and the entry goes into
   * the first empty slot of the parent.
   */
  method Create(v: Volume, dir: nat, name: string, mode: nat, uid: nat, gid: nat, now: nat)
    returns (st: Status, ino: nat)
    requires v.sbi.Valid() && v.sbi.Reserved() && dir in v.icache
    modifies v`disk, v`icache, v.sbi`nrFreeInodes, v.sbi`nrFreeBlocks, v.sbi.ifree, v.sbi.bfree
    ensures v.sbi.Valid() && v.sbi.Reserved()
    ensures Consistent(old(v.sbi.Ifree()), v.sbi.nrInodes) ==> Consistent(v.sbi.Ifree(), v.sbi.nrInodes)
    ensures Consistent(old(v.sbi.Bfree()), v.sbi.nrBlocks) ==> Consistent(v.sbi.Bfree(), v.sbi.nrBlocks)
    ensures st.Fail? ==>
      && v.disk == old(v.disk) && v.icache == old(v.icache)
      && v.sbi.Ifree() == old(v.sbi.Ifree()) && v.sbi.Bfree() == old(v.sbi.Bfree())
    ensures |name| > FilenameLen ==> st == Fail(ENAMETOOLONG)
    ensures |name| <= FilenameLen && old(v.icache[dir].indexBlock) !in old(v.disk) ==> st == Fail(EIO)
    ensures (&& |name| <= FilenameLen && old(v.icache[dir].indexBlock) in old(v.disk)
             && AsDir(old(v.disk)[old(v.icache[dir].indexBlock)])[MaxSubfiles - 1].ino != 0)
      ==> st == Fail(EMLINK)
    ensures (&& |name| <= FilenameLen && old(v.icache[dir].indexBlock) in old(v.disk)
             && AsDir(old(v.disk)[old(v.icache[dir].indexBlock)])[MaxSubfiles - 1].ino == 0) ==>
      var got := Get(old(v.sbi.Ifree()), v.sbi.nrInodes).unit;
      var bno := Get(old(v.sbi.Bfree()), v.sbi.nrBlocks).unit;
      var room := (IsDir(mode) || IsReg(mode)) && old(v.sbi.nrFreeInodes) > 0 && old(v.sbi.nrFreeBlocks) > 0;
      && (!IsDir(mode) && !IsReg(mode) ==> st == Fail(EINVAL))
      && ((IsDir(mode) || IsReg(mode)) && !room ==> st == Fail(ENOSPC))
      && (room && got == 0 ==> st == Fail(ENOSPC))
      && (room && got != 0 && old(Iget(v, got)).Err? ==> st == Fail(old(Iget(v, got)).code))
      && (room && got != 0 && old(Iget(v, got)).Ok? && bno == 0 ==> st == Fail(ENOSPC))
      && (room && got != 0 && old(Iget(v, got)).Ok? && bno != 0 ==>
            st == (if bno in old(v.disk) then Done else Fail(EIO)))
    ensures st.Done? ==> IsDir(mode) || IsReg(mode)
    ensures st.Done? ==>
      var pb := old(v.icache[dir].indexBlock);
      var bno := Get(old(v.sbi.Bfree()), v.sbi.nrBlocks).unit;
      var d1 := old(v.disk)[bno := Zeroed];
      var c1 := old(v.icache)[ino := FreshInode(mode, uid, gid, now, bno)];
      && |name| <= FilenameLen && pb in d1 && bno in old(v.disk)
      && ino == Get(old(v.sbi.Ifree()), v.sbi.nrInodes).unit && ino != 0 && bno != 0
      && Occupied(AsDir(d1[pb])) < MaxSubfiles
      && v.disk == d1[pb := DirData(Insert(AsDir(d1[pb]), DirEntry(ino, name)))]
      && v.sbi.Ifree() == Get(old(v.sbi.Ifree()), v.sbi.nrInodes).after
      && v.sbi.Bfree() == Get(old(v.sbi.Bfree()), v.sbi.nrBlocks).after
      && dir in c1
      && v.icache == c1[dir := Linked(c1[dir], now, IsDir(mode))]
  {
    ino := 0;
    if |name| > FilenameLen {
      return Fail(ENAMETOOLONG), 0;
    }
    var pb := v.icache[dir].indexBlock;
    if pb !in v.disk {
      return Fail(EIO), 0;
    }
    if AsDir(v.disk[pb])[MaxSubfiles - 1].ino != 0 {
      return Fail(EMLINK), 0;
    }
    ghost var i0, b0 := v.sbi.Ifree(), v.sbi.Bfree();
    var c0 := v.icache;
    var r := NewInode(v, mode, uid, gid, now);
    if r.Err? {
      return Fail(r.code), 0;
    }
    ino := r.value;
    var bno := v.icache[ino].indexBlock;
    if bno !in v.disk {
      Abandon(v, ino, bno, i0, b0, c0);
      return Fail(EIO), 0;
    }
    RoomAfterZeroing(v.disk, pb, bno);
    Attach(v, dir, pb, ino, bno, name, mode, now);
    st := Done;
  }

  /** The failure path of create: release the index block and the inode, then drop the inode. */
  method Abandon(v: Volume, ino: u32, bno: u32, ghost i0: FreeMap, ghost b0: FreeMap, c0: map<nat, Inode>)
    requires v.sbi.Valid() && v.sbi.Reserved() && ino != 0 && bno != 0
    requires v.sbi.nrInodes <= |i0.bits| && v.sbi.nrBlocks <= |b0.bits|
    requires Get(i0, v.sbi.nrInodes).unit == ino && v.sbi.Ifree() == Get(i0, v.sbi.nrInodes).after
    requires Get(b0, v.sbi.nrBlocks).unit == bno && v.sbi.Bfree() == Get(b0, v.sbi.nrBlocks).after
    modifies v`icache, v.sbi`nrFreeInodes, v.sbi`nrFreeBlocks, v.sbi.ifree, v.sbi.bfree
    ensures v.sbi.Valid() && v.sbi.Reserved()
    ensures v.icache == c0 && v.sbi.Ifree() == i0 && v.sbi.Bfree() == b0
  {
    v.sbi.PutBlock(bno);
    GetThenPut(b0, v.sbi.nrBlocks);
    GiveBackInode(v, ino, i0);
    v.icache := c0;
  }

  /** A table with its last slot free still has room once any block is zeroed. */
  lemma RoomAfterZeroing(d: map<nat, Block>, pb: nat, bno: nat)
    requires pb in d && AsDir(d[pb])[MaxSubfiles - 1].ino == 0
    ensures Occupied(AsDir(d[bno := Zeroed][pb])) < MaxSubfiles
  {
  }

  /**
   * The success path of create: the new index block is zeroed, the entry
   * goes into the first empty slot of the parent, and the parent is stamped.
   */
  method Attach(v: Volume, dir: nat, pb: nat, ino: u32, bno: nat, name: string, mode: nat, now: nat)
    requires dir in v.icache && pb in v.disk
    requires Occupied(AsDir(v.disk[bno := Zeroed][pb])) < MaxSubfiles
    modifies v`disk, v`icache
    ensures var d1 := old(v.disk)[bno := Zeroed];
      v.disk == d1[pb := DirData(Insert(AsDir(d1[pb]), DirEntry(ino, name)))]
    ensures v.icache == old(v.icache)[dir := Linked(old(v.icache)[dir], now, IsDir(mode))]
  {
    v.disk := v.disk[bno := Zeroed];
    var files := AsDir(v.disk[pb]);
    var slot := FirstFreeSlot(files);
    v.disk := v.disk[pb := DirData(files[slot := DirEntry(ino, name)])];
    v.icache := v.icache[dir := Linked(v.icache[dir], now, IsDir(mode))];
  }

  // ---------------------------------------------------------------------
  // unlink and rmdir
  // ---------------------------------------------------------------------

  /** The memmove and memset of unlink: slot `f` leaves, later slots move down. */
  method Compact(files: DirTable, f: nat, n: nat) returns (r: DirTable)
    requires f < n <= MaxSubfiles
    ensures r == Remove(files, f, n)
  {
    r := files;
    var j := f;
    while j < n - 1
      invariant f <= j <= n - 1
      invariant forall k :: 0 <= k < f ==> r[k] == files[k]
      invariant forall k :: f <= k < j ==> r[k] == files[k + 1]
      invariant forall k :: j <= k < MaxSubfiles ==> r[k] == files[k]
    {
      r := r[j := r[j + 1]];
      j := j + 1;
    }
    r := r[n - 1 := EmptyEntry];
  }

  /** Inode `ino` has an entry in the occupied prefix of the table in block `blk`, if readable. */
  predicate EntryPresent(d: map<nat, Block>, blk: nat, ino: nat)
  {
    blk in d ==> LastIndexOf(AsDir(d[blk]), ino, Occupied(AsDir(d[blk]))) >= 0
  }

  /**
   * How many index slots unlink examines: i_blocks - 1, kept within the
   * 1024 slots of the index block. A block count of 0 gives 0 here, where
   * the unsigned i_blocks - 1 of the source would wrap; no operation
   * leaves a count of 0 (create sets 1, write_end at least 2).
   */
  function ReleaseBound(blocks: nat): (n: nat)
    ensures n <= IndexEntries
    ensures blocks >= 1 && blocks - 1 <= IndexEntries ==> n == blocks - 1
  {
    if blocks == 0 then 0 else Min(blocks - 1, IndexEntries)
  }

  /** The index slots unlink releases for a regular file whose index block can be read. */
  function ReleasedUnits(d: map<nat, Block>, node: Inode): seq<u32>
  {
    if node.indexBlock in d && !IsDir(node.mode)
    then AsIndex(d[node.indexBlock])[..ReleaseBound(node.blocks)]
    else []
  }

  /**
   * The outcome of unlink on an abstract volume: EIO when the parent's
   * table cannot be read; otherwise the entry is compacted out, the
   * parent is stamped (one link fewer for a directory), the listed data
   * blocks are released and zeroed, the index block is zeroed and
   * released, and the inode is cleared and released.
   */
  ghost function UnlinkSpec(s: Snapshot, nrInodes: nat, nrBlocks: nat, dir: nat, ino: nat, now: nat)
    : (Status, Snapshot)
    requires dir in s.icache && ino in s.icache && ino != 0
    requires EntryPresent(s.disk, s.icache[dir].indexBlock, ino)
  {
    var db := s.icache[dir].indexBlock;
    if db !in s.disk then (Fail(EIO), s)
    else
      var node := s.icache[ino];
      var files := AsDir(s.disk[db]);
      var n := Occupied(files);
      var s1 := s.(disk := s.disk[db := DirData(Remove(files, LastIndexOf(files, ino, n), n))],
                   icache := s.icache[dir := Unlinked(s.icache[dir], now, IsDir(node.mode))]);
      (Done, ReleaseSpec(s1, nrInodes, nrBlocks, ino, node))
  }

  /**
   * The second half of unlink, once the entry is gone: the listed data
   * blocks of `node` are released and zeroed, its index block is zeroed
   * and released, and inode `ino` is cleared and released.
   */
  ghost function ReleaseSpec(s: Snapshot, nrInodes: nat, nrBlocks: nat, ino: nat, node: Inode): Snapshot
    requires ino in s.icache
  {
    var units := ReleasedUnits(s.disk, node);
    var d := if node.indexBlock in s.disk then ScrubAll(s.disk, units)[node.indexBlock := Zeroed] else s.disk;
    Snapshot(d, s.icache[ino := Cleared(s.icache[ino])],
             Put(s.ifree, nrInodes, ino),
             Put(ReleaseAll(s.bfree, nrBlocks, units), nrBlocks, node.indexBlock))
  }

  /**
   * After unlink the parent table stays packed and loses exactly the
   * unlinked entry; bit 0 of both maps stays in use when the inode had
   * an index block.
   */
  lemma UnlinkKeepsInvariants(s: Snapshot, nrInodes: nat, nrBlocks: nat, dir: nat, ino: nat, now: nat)
    requires dir in s.icache && ino in s.icache && ino != 0
    requires EntryPresent(s.disk, s.icache[dir].indexBlock, ino)
    requires s.icache[dir].indexBlock in s.disk
    requires Packed(AsDir(s.disk[s.icache[dir].indexBlock]))
    requires Reserved0(s.ifree, nrInodes) && Reserved0(s.bfree, nrBlocks)
    requires s.icache[ino].indexBlock != 0
    requires s.icache[dir].indexBlock != s.icache[ino].indexBlock
    requires s.icache[dir].indexBlock !in ReleasedUnits(s.disk, s.icache[ino])
    ensures var (st, t) := UnlinkSpec(s, nrInodes, nrBlocks, dir, ino, now);
      var files := AsDir(s.disk[s.icache[dir].indexBlock]);
      var f := LastIndexOf(files, ino, Occupied(files));
      && st == Done
      && s.icache[dir].indexBlock in t.disk
      && Packed(AsDir(t.disk[s.icache[dir].indexBlock]))
      && Entries(AsDir(t.disk[s.icache[dir].indexBlock])) == Entries(files)[..f] + Entries(files)[f + 1..]
      && Reserved0(t.ifree, nrInodes) && Reserved0(t.bfree, nrBlocks)
  {
    var db := s.icache[dir].indexBlock;
    var node := s.icache[ino];
    var files := AsDir(s.disk[db]);
    var n := Occupied(files);
    var f := LastIndexOf(files, ino, n);
    RemoveKeepsPacked(files, f);
    var d1 := s.disk[db := DirData(Remove(files, f, n))];
    var units := ReleasedUnits(d1, node);
    assert units == ReleasedUnits(s.disk, node);
    ScrubAllZeroesListed(d1, units);
    var d2 := if node.indexBlock in d1 then ScrubAll(d1, units)[node.indexBlock := Zeroed] else d1;
    assert d2[db] == DirData(Remove(files, f, n));
    var t := UnlinkSpec(s, nrInodes, nrBlocks, dir, ino, now).1;
    assert t.disk == d2;
    var released := ReleaseAll(s.bfree, nrBlocks, units);
    assert t.ifree == Put(s.ifree, nrInodes, ino) && t.bfree == Put(released, nrBlocks, node.indexBlock);
    ReleaseAllKeepsReserved(s.bfree, nrBlocks, units);
    PutKeepsReserved(released, nrBlocks, node.indexBlock);
    PutKeepsReserved(s.ifree, nrInodes, ino);
  }

  /**
   * Unlink keeps each free counter equal to the number of free bits,
   * provided what it releases was in use and is released once: the
   * inode, the index block, and the listed data blocks, none of them the
   * index block.
   */
  lemma UnlinkKeepsConsistency(s: Snapshot, nrInodes: nat, nrBlocks: nat, dir: nat, ino: nat, now: nat)
    requires dir in s.icache && ino in s.icache && ino != 0
    requires EntryPresent(s.disk, s.icache[dir].indexBlock, ino)
    requires s.icache[dir].indexBlock != s.icache[ino].indexBlock
    requires Consistent(s.ifree, nrInodes) && Consistent(s.bfree, nrBlocks)
    requires ino < nrInodes && !s.ifree.bits[ino]
    requires s.icache[ino].indexBlock < nrBlocks && !s.bfree.bits[s.icache[ino].indexBlock]
    requires InUseOnce(s.bfree, nrBlocks, ReleasedUnits(s.disk, s.icache[ino]))
    requires s.icache[ino].indexBlock !in ReleasedUnits(s.disk, s.icache[ino])
    ensures var t := UnlinkSpec(s, nrInodes, nrBlocks, dir, ino, now).1;
      Consistent(t.ifree, nrInodes) && Consistent(t.bfree, nrBlocks)
  {
    var db := s.icache[dir].indexBlock;
    if db in s.disk {
      var node := s.icache[ino];
      var files := AsDir(s.disk[db]);
      var n := Occupied(files);
      var d1 := s.disk[db := DirData(Remove(files, LastIndexOf(files, ino, n), n))];
      var units := ReleasedUnits(d1, node);
      assert units == ReleasedUnits(s.disk, node);
      var released := ReleaseAll(s.bfree, nrBlocks, units);
      ReleaseAllPreservesConsistency(s.bfree, nrBlocks, units);
      ReleaseAllSetsListed(s.bfree, nrBlocks, units);
      PutUsedPreservesConsistency(released, nrBlocks, node.indexBlock);
      PutUsedPreservesConsistency(s.ifree, nrInodes, ino);
    }
  }

  /**
   * The release loop of unlink: each non-zero slot is released in the
   * block bitmap and, when it can be read, zeroed on the device.
   */
  method ReleaseDataBlocks(v: Volume, units: seq<u32>)
    requires v.sbi.Valid()
    modifies v`disk, v.sbi`nrFreeBlocks, v.sbi.bfree
    ensures v.sbi.Valid()
    ensures v.sbi.Bfree() == ReleaseAll(old(v.sbi.Bfree()), v.sbi.nrBlocks, units)
    ensures v.disk == ScrubAll(old(v.disk), units)
  {
    var i := 0;
    while i < |units|
      invariant i <= |units|
      invariant v.sbi.Valid()
      invariant v.sbi.Bfree() == ReleaseAll(old(v.sbi.Bfree()), v.sbi.nrBlocks, units[..i])
      invariant v.disk == ScrubAll(old(v.disk), units[..i])
    {
      assert units[..i + 1][..i] == units[..i];
      if units[i] != 0 {
        v.sbi.PutBlock(units[i]);
        if units[i] in v.disk {
          v.disk := v.disk[units[i] := Zeroed];
        }
      }
      i := i + 1;
    }
    assert units[..i] == units;
  }

  /**
   * ouichefs_unlink. The parent's table must hold the inode (the dentry
   * being removed was found there).
   */
  method Unlink(v: Volume, dir: nat, ino: nat, now: nat) returns (st: Status)
    requires v.sbi.Valid() && dir in v.icache && ino in v.icache && 0 < ino < U32Limit
    requires EntryPresent(v.disk, v.icache[dir].indexBlock, ino)
    modifies v`disk, v`icache, v.sbi`nrFreeInodes, v.sbi`nrFreeBlocks, v.sbi.ifree, v.sbi.bfree
    ensures v.sbi.Valid()
    ensures (st, Snap(v)) ==
      UnlinkSpec(old(Snap(v)), v.sbi.nrInodes, v.sbi.nrBlocks, dir, ino, now)
  {
    var db := v.icache[dir].indexBlock;
    if db !in v.disk {
      return Fail(EIO);
    }
    var node := v.icache[ino];
    var files := AsDir(v.disk[db]);
    var fId, nrSubs := ScanEntry(files, ino);
    var compacted := Compact(files, fId, nrSubs);
    v.disk := v.disk[db := DirData(compacted)];
    var isDir := IsDir(node.mode);
    v.icache := v.icache[dir := Unlinked(v.icache[dir], now, isDir)];
    ReleaseInode(v, ino, node);
    st := Done;
  }

  /** The second half of ouichefs_unlink: release the file's blocks and its inode. */
  method ReleaseInode(v: Volume, ino: nat, node: Inode)
    requires v.sbi.Valid() && ino in v.icache && ino < U32Limit
    modifies v`disk, v`icache, v.sbi`nrFreeInodes, v.sbi`nrFreeBlocks, v.sbi.ifree, v.sbi.bfree
    ensures v.sbi.Valid()
    ensures Snap(v) == ReleaseSpec(old(Snap(v)), v.sbi.nrInodes, v.sbi.nrBlocks, ino, node)
  {
    var bno := node.indexBlock;
    if bno in v.disk {
      if !IsDir(node.mode) {
        var index := AsIndex(v.disk[bno]);
        ReleaseDataBlocks(v, index[..ReleaseBound(node.blocks)]);
      }
      v.disk := v.disk[bno := Zeroed];
    }
    v.icache := v.icache[ino := Cleared(v.icache[ino])];
    v.sbi.PutBlock(bno);
    v.sbi.PutInode(ino);
  }

  /**
   * ouichefs_rmdir: ENOTEMPTY when the directory has more than two links
   * or its first slot is taken, EIO when its table cannot be read;
   * otherwise it is unlinked.
   */
  method Rmdir(v: Volume, dir: nat, ino: nat, now: nat) returns (st: Status)
    requires v.sbi.Valid() && dir in v.icache && ino in v.icache && 0 < ino < U32Limit
    requires EntryPresent(v.disk, v.icache[dir].indexBlock, ino)
    modifies v`disk, v`icache, v.sbi`nrFreeInodes, v.sbi`nrFreeBlocks, v.sbi.ifree, v.sbi.bfree
    ensures v.sbi.Valid()
    ensures old(v.icache[ino].nlink) > 2 ==> st == Fail(ENOTEMPTY) && Snap(v) == old(Snap(v))
    ensures old(v.icache[ino].nlink) <= 2 && old(v.icache[ino].indexBlock) !in old(v.disk) ==>
      st == Fail(EIO) && Snap(v) == old(Snap(v))
    ensures (&& old(v.icache[ino].nlink) <= 2 && old(v.icache[ino].indexBlock) in old(v.disk)
             && AsDir(old(v.disk)[old(v.icache[ino].indexBlock)])[0].ino != 0)
      ==> st == Fail(ENOTEMPTY) && Snap(v) == old(Snap(v))
    ensures (&& old(v.icache[ino].nlink) <= 2 && old(v.icache[ino].indexBlock) in old(v.disk)
             && AsDir(old(v.disk)[old(v.icache[ino].indexBlock)])[0].ino == 0)
      ==> (st, Snap(v)) == UnlinkSpec(old(Snap(v)), v.sbi.nrInodes, v.sbi.nrBlocks, dir, ino, now)
  {
    if v.icache[ino].nlink > 2 {
      return Fail(ENOTEMPTY);
    }
    var ib := v.icache[ino].indexBlock;
    if ib !in v.disk {
      return Fail(EIO);
    }
    if AsDir(v.disk[ib])[0].ino != 0 {
      return Fail(ENOTEMPTY);
    }
    st := Unlink(v, dir, ino, now);
  }

  // ---------------------------------------------------------------------
  // rename
  // ---------------------------------------------------------------------

  /** RENAME_EXCHANGE and RENAME_WHITEOUT, the two flags rename refuses. */
  const RenameExchange: bv32 := 2
  const RenameWhiteout: bv32 := 4

  predicate UnsupportedFlags(flags: u32)
  {
    (flags as bv32) & (RenameExchange | RenameWhiteout) != 0
  }

  /** RENAME_NOREPLACE alone is accepted. */
  lemma NoReplaceAccepted()
    ensures !UnsupportedFlags(0) && !UnsupportedFlags(1)
    ensures UnsupportedFlags(2) && UnsupportedFlags(4) && UnsupportedFlags(6)
  {
  }

  /**
   * ouichefs_rename. In the same directory only the name of the renamed
   * slot is overwritten. Across directories the entry is inserted into
   * the first empty slot of the destination, which is stamped (one more
   * link for a directory), then compacted out of the source, which is
   * stamped (one link fewer). The source scan here is bounded by the
   * table size.
   */
  method Rename(v: Volume, oldDir: nat, src: nat, oldName: string,
                newDir: nat, newName: string, flags: u32, now: nat)
    returns (st: Status)
    requires oldDir in v.icache && newDir in v.icache && src in v.icache && 0 < src < U32Limit
    requires oldDir == newDir && v.icache[newDir].indexBlock in v.disk ==>
      LastNamed(AsDir(v.disk[v.icache[newDir].indexBlock]), oldName, MaxSubfiles) >= 0
    requires oldDir != newDir ==> v.icache[oldDir].indexBlock != v.icache[newDir].indexBlock
    requires oldDir != newDir ==> EntryPresent(v.disk, v.icache[oldDir].indexBlock, src)
    modifies v`disk, v`icache
    ensures UnsupportedFlags(flags) ==> st == Fail(EINVAL)
    ensures !UnsupportedFlags(flags) && |newName| > FilenameLen ==> st == Fail(ENAMETOOLONG)
    ensures (&& !UnsupportedFlags(flags) && |newName| <= FilenameLen
             && old(v.icache[newDir].indexBlock) !in old(v.disk))
      ==> st == Fail(EIO) && v.disk == old(v.disk) && v.icache == old(v.icache)
    ensures (&& !UnsupportedFlags(flags) && |newName| <= FilenameLen
             && old(v.icache[newDir].indexBlock) in old(v.disk)
             && NameInTable(AsDir(old(v.disk)[old(v.icache[newDir].indexBlock)]), newName))
      ==> st == Fail(EEXIST)
    ensures (&& !UnsupportedFlags(flags) && |newName| <= FilenameLen && oldDir == newDir
             && old(v.icache[newDir].indexBlock) in old(v.disk)
             && !NameInTable(AsDir(old(v.disk)[old(v.icache[newDir].indexBlock)]), newName))
      ==> st == Done
    ensures (&& !UnsupportedFlags(flags) && |newName| <= FilenameLen && oldDir != newDir
             && old(v.icache[newDir].indexBlock) in old(v.disk)
             && !NameInTable(AsDir(old(v.disk)[old(v.icache[newDir].indexBlock)]), newName)
             && Occupied(AsDir(old(v.disk)[old(v.icache[newDir].indexBlock)])) == MaxSubfiles)
      ==> st == Fail(EMLINK)
    ensures st.Fail? && st.code != EIO ==> v.disk == old(v.disk) && v.icache == old(v.icache)
    ensures st.Done? && oldDir == newDir ==>
      var nb := old(v.icache[newDir].indexBlock);
      var files := AsDir(old(v.disk)[nb]);
      var f := LastNamed(files, oldName, MaxSubfiles);
      && nb in old(v.disk) && f >= 0
      && v.disk == old(v.disk)[nb := DirData(files[f := files[f].(name := newName)])]
      && v.icache == old(v.icache)
    ensures (&& !UnsupportedFlags(flags) && |newName| <= FilenameLen && oldDir != newDir
             && old(v.icache[newDir].indexBlock) in old(v.disk)
             && !NameInTable(AsDir(old(v.disk)[old(v.icache[newDir].indexBlock)]), newName)
             && Occupied(AsDir(old(v.disk)[old(v.icache[newDir].indexBlock)])) < MaxSubfiles) ==>
      var nb := old(v.icache[newDir].indexBlock);
      var ob := old(v.icache[oldDir].indexBlock);
      var nfiles := AsDir(old(v.disk)[nb]);
      var isDir := IsDir(old(v.icache[src].mode));
      var c1 := old(v.icache)[newDir := Linked(old(v.icache[newDir]), now, isDir)];
      && Occupied(nfiles) < MaxSubfiles
      && var d1 := old(v.disk)[nb := DirData(Insert(nfiles, DirEntry(src, newName)))];
      && (ob !in old(v.disk) ==> st == Fail(EIO) && v.disk == d1 && v.icache == c1)
      && (ob in old(v.disk) ==>
            var ofiles := AsDir(old(v.disk)[ob]);
            var n := Occupied(ofiles);
            && st == Done
            && v.disk == d1[ob := DirData(Remove(ofiles, LastIndexOf(ofiles, src, n), n))]
            && oldDir in c1
            && v.icache == c1[oldDir := Unlinked(c1[oldDir], now, isDir)])
  {
    if UnsupportedFlags(flags) {
      return Fail(EINVAL);
    }
    if |newName| > FilenameLen {
      return Fail(ENAMETOOLONG);
    }
    var nb := v.icache[newDir].indexBlock;
    if nb !in v.disk {
      return Fail(EIO);
    }
    var nfiles := AsDir(v.disk[nb]);
    var taken, fPos, newPos := ScanForRename(nfiles, oldName, newName, oldDir == newDir);
    if taken {
      return Fail(EEXIST);
    }
    if oldDir == newDir {
      v.disk := v.disk[nb := DirData(nfiles[fPos := nfiles[fPos].(name := newName)])];
      return Done;
    }
    if newPos < 0 {
      return Fail(EMLINK);
    }
    st := MoveAcross(v, oldDir, newDir, src, newName, newPos, now);
  }

  /**
   * The cross-directory half of rename, once the destination table was
   * read and has a free slot: the entry is inserted into it and the
   * destination stamped; then, unless the source table cannot be read
   * (EIO), the entry is compacted out of the source, which is stamped.
   */
  method MoveAcross(v: Volume, oldDir: nat, newDir: nat, src: nat, newName: string, newPos: int, now: nat)
    returns (st: Status)
    requires oldDir in v.icache && newDir in v.icache && src in v.icache && 0 < src < U32Limit
    requires |newName| <= FilenameLen && oldDir != newDir
    requires v.icache[oldDir].indexBlock != v.icache[newDir].indexBlock
    requires EntryPresent(v.disk, v.icache[oldDir].indexBlock, src)
    requires v.icache[newDir].indexBlock in v.disk
    requires newPos == Occupied(AsDir(v.disk[v.icache[newDir].indexBlock])) < MaxSubfiles
    modifies v`disk, v`icache
    ensures st == Done || st == Fail(EIO)
    ensures
      var nb := old(v.icache[newDir].indexBlock);
      var ob := old(v.icache[oldDir].indexBlock);
      var isDir := IsDir(old(v.icache[src].mode));
      var c1 := old(v.icache)[newDir := Linked(old(v.icache[newDir]), now, isDir)];
      var d1 := old(v.disk)[nb := DirData(Insert(AsDir(old(v.disk)[nb]), DirEntry(src, newName)))];
      && (ob !in old(v.disk) ==> st == Fail(EIO) && v.disk == d1 && v.icache == c1)
      && (ob in old(v.disk) ==>
            var ofiles := AsDir(old(v.disk)[ob]);
            var n := Occupied(ofiles);
            && st == Done
            && v.disk == d1[ob := DirData(Remove(ofiles, LastIndexOf(ofiles, src, n), n))]
            && oldDir in c1
            && v.icache == c1[oldDir := Unlinked(c1[oldDir], now, isDir)])
  {
    var nb := v.icache[newDir].indexBlock;
    var nfiles := AsDir(v.disk[nb]);
    v.disk := v.disk[nb := DirData(nfiles[newPos := DirEntry(src, newName)])];
    var isDir := IsDir(v.icache[src].mode);
    v.icache := v.icache[newDir := Linked(v.icache[newDir], now, isDir)];

    var ob := v.icache[oldDir].indexBlock;
    if ob !in v.disk {
      return Fail(EIO);
    }
    var ofiles := AsDir(v.disk[ob]);
    var fId, nrSubs := ScanEntry(ofiles, src);
    var compacted := Compact(ofiles, fId, nrSubs);
    v.disk := v.disk[ob := DirData(compacted)];
    v.icache := v.icache[oldDir := Unlinked(v.icache[oldDir], now, isDir)];
    st := Done;
  }
}
