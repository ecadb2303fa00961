/**
 * The timestamp heuristic: which file it picks for eviction, over the
 * whole partition and within one directory, as written and as its
 * comments describe it (the oldest file).
 */
module WichLru {
  import opened Layout
  import opened Disk
  import opened Eviction

  /** Values of the `mode` module parameter; anything else selects the change time. */
  const Access: int := 1
  const Modification: int := 2
  const Change: int := 3
  const DefaultMode: int := Change

  /** The timestamp `mode` compares. */
  function Stamp(i: Inode, mode: int): nat
  {
    if mode == Access then i.atime
    else if mode == Modification then i.mtime
    else i.ctime
  }

  /**
   * is_older: the three-way comparison of the selected timestamps,
   * negative when the first inode's is earlier.
   */
  function IsOlder(a: Inode, b: Inode, mode: int): (r: int)
    ensures r < 0 <==> Stamp(a, mode) < Stamp(b, mode)
    ensures r == 0 <==> Stamp(a, mode) == Stamp(b, mode)
    ensures r > 0 <==> Stamp(a, mode) > Stamp(b, mode)
    ensures -1 <= r <= 1
  {
    if mode == Access then Compare(a.atime, b.atime)
    else if mode == Modification then Compare(a.mtime, b.mtime)
    else Compare(a.ctime, b.ctime)
  }

  function Compare(x: nat, y: nat): int
  {
    if x < y then -1 else if x > y then 1 else 0
  }

  /** The inode of a node, the zero inode for a node without one. */
  function InodeOf(n: Node): Inode
  {
    if n.inode.Some? then n.inode.value else ZeroInode
  }

  /** The timestamp of a node's inode. */
  function NodeStamp(n: Node, mode: int): nat
  {
    Stamp(InodeOf(n), mode)
  }

  /**
   * One call of leaf_action as written: the first leaf is taken; a later
   * one replaces the candidate whenever the two timestamps differ, newer
   * or older.
   */
  function LruStep(d: Option<Pick>, leaf: Pick, mode: int): (r: Option<Pick>)
    ensures d.None? ==> r == Some(leaf)
    ensures d.Some? && NodeStamp(leaf.child, mode) != NodeStamp(d.value.child, mode) ==> r == Some(leaf)
    ensures d.Some? && NodeStamp(leaf.child, mode) == NodeStamp(d.value.child, mode) ==> r == d
  {
    if d.None? then Some(leaf)
    else if IsOlder(InodeOf(leaf.child), InodeOf(d.value.child), mode) != 0 then Some(leaf)
    else d
  }

  /** `struct lru_data`, the candidate the walk threads through leaf_action. */
  class LruData {
    var pick: Option<Pick>

    constructor ()
      ensures pick == None
    {
      pick := None;
    }

    method LeafAction(parent: Node, child: Node, mode: int)
      modifies this
      ensures pick == LruStep(old(pick), Pick(parent, child), mode)
    {
      if pick.None? {
        pick := Some(Pick(parent, child));
        return;
      }
      if IsOlder(InodeOf(child), InodeOf(pick.value.child), mode) != 0 {
        pick := Some(Pick(parent, child));
      }
    }
  }

  /** The candidate once leaf_action has seen `leaves` in walk order. */
  function LruFold(leaves: seq<Pick>, mode: int): (r: Option<Pick>)
    ensures r.None? <==> leaves == []
  {
    if leaves == [] then None
    else LruStep(LruFold(leaves[..|leaves| - 1], mode), leaves[|leaves| - 1], mode)
  }

  /**
   * Where the last run of leaves sharing the final leaf's timestamp
   * starts: every leaf from there on has that timestamp, and the one
   * before it (if any) does not.
   */
  function LastRunStart(leaves: seq<Pick>, mode: int): (k: nat)
    requires |leaves| > 0
    ensures k < |leaves|
    ensures forall j :: k <= j < |leaves| ==>
      NodeStamp(leaves[j].child, mode) == NodeStamp(leaves[|leaves| - 1].child, mode)
    ensures k > 0 ==> NodeStamp(leaves[k - 1].child, mode) != NodeStamp(leaves[|leaves| - 1].child, mode)
  {
    var n := |leaves|;
    if n == 1 then 0
    else if NodeStamp(leaves[n - 1].child, mode) != NodeStamp(leaves[n - 2].child, mode) then n - 1
    else
      var k := LastRunStart(leaves[..n - 1], mode);
      assert forall j :: 0 <= j < n - 1 ==> leaves[..n - 1][j] == leaves[j];
      k
  }

  /**
   * As written, the leaf action ends on the first leaf of the last run of
   * equal timestamps: its timestamp is the last leaf's, whatever the
   * timestamps before.
   */
  lemma {:induction false} LruFoldPicksLastRun(leaves: seq<Pick>, mode: int)
    requires |leaves| > 0
    ensures LruFold(leaves, mode) == Some(leaves[LastRunStart(leaves, mode)])
  {
    var n := |leaves|;
    if n == 1 {
      assert LruFold(leaves[..0], mode) == None;
      return;
    }
    var p := leaves[..n - 1];
    LruFoldPicksLastRun(p, mode);
    assert forall j :: 0 <= j < n - 1 ==> leaves[j] == p[j];
    var k := LastRunStart(p, mode);
    assert NodeStamp(p[k].child, mode) == NodeStamp(leaves[n - 2].child, mode);
  }

  /**
   * Two files, the older one first: the heuristic as written picks the
   * newer one.
   */
  lemma LruPicksNewerFile()
    ensures var old1 := Pick(RootNode, Node(None, Some(ZeroInode.(ctime := 1))));
      var new9 := Pick(RootNode, Node(None, Some(ZeroInode.(ctime := 9))));
      && LruFold([old1, new9], DefaultMode) == Some(new9)
      && NodeStamp(new9.child, DefaultMode) > NodeStamp(old1.child, DefaultMode)
  {
    var old1 := Pick(RootNode, Node(None, Some(ZeroInode.(ctime := 1))));
    var new9 := Pick(RootNode, Node(None, Some(ZeroInode.(ctime := 9))));
    assert [old1, new9][..1] == [old1];
    assert [old1][..0] == [];
  }

  /** The key the corrected heuristic minimises. */
  function StampKey(mode: int): Node -> nat
  {
    n => NodeStamp(n, mode)
  }

  /**
   * The corrected leaf action: a later leaf replaces the candidate only
   * when is_older says it is strictly older.
   */
  function OldestStep(d: Option<Pick>, leaf: Pick, mode: int): (r: Option<Pick>)
    ensures r == MinStep(d, leaf, StampKey(mode))
  {
    if d.None? then Some(leaf)
    else if IsOlder(InodeOf(leaf.child), InodeOf(d.value.child), mode) < 0 then Some(leaf)
    else d
  }

  /**
   * The selection of clean_partition with the walk started from `start`:
   * EIO when the root inode has no directory block or it cannot be read;
   * otherwise the leaf action's candidate over the whole walk, whose
   * timestamp is the last leaf's; none when the walk meets no file.
   */
  function SelectFrom(v: Volume, root: Inode, start: Node, mode: int, fuel: nat): (r: Result<Option<Pick>>)
    reads v, v.sbi
    ensures root.indexBlock == 0 || root.indexBlock !in v.disk ==> r == Err(EIO)
    ensures root.indexBlock != 0 && root.indexBlock in v.disk ==> r.Ok?
    ensures r.Ok? ==>
      var leaves := Leaves(Traverse(v, AsDir(v.disk[root.indexBlock]), start, fuel));
      && (r.value.None? <==> leaves == [])
      && (r.value.Some? ==> r.value == Some(leaves[LastRunStart(leaves, mode)]))
  {
    if root.indexBlock == 0 || root.indexBlock !in v.disk then Err(EIO)
    else
      var leaves := Leaves(Traverse(v, AsDir(v.disk[root.indexBlock]), start, fuel));
      if leaves == [] then Ok(None)
      else
        LruFoldPicksLastRun(leaves, mode);
        Ok(LruFold(leaves, mode))
  }

  /** clean_partition as written: the inode-less root node and the replace-on-any-difference leaf action. */
  function CleanPartitionAsWritten(v: Volume, root: Inode, mode: int, fuel: nat): Result<Option<Pick>>
    reads v, v.sbi
  {
    SelectFrom(v, root, RootNode, mode, fuel)
  }

  /**
   * clean_partition corrected: the root node carries the root inode and
   * the candidate is replaced only by a strictly older file, so the
   * choice is the earliest oldest file of the walk, with a parent inode.
   */
  function CleanPartition(v: Volume, root: Inode, mode: int, fuel: nat): (r: Result<Option<Pick>>)
    reads v, v.sbi
    ensures root.indexBlock == 0 || root.indexBlock !in v.disk ==> r == Err(EIO)
    ensures root.indexBlock != 0 && root.indexBlock in v.disk ==> r.Ok?
    ensures r.Ok? ==>
      var leaves := Leaves(Traverse(v, AsDir(v.disk[root.indexBlock]), RootedNode(root), fuel));
      && (r.value.None? <==> leaves == [])
      && (r.value.Some? ==>
            && EarliestMin(leaves, StampKey(mode), MinIndex(leaves, StampKey(mode)))
            && r.value == Some(leaves[MinIndex(leaves, StampKey(mode))])
            && r.value.value.parent.inode.Some?)
  {
    if root.indexBlock == 0 || root.indexBlock !in v.disk then Err(EIO)
    else
      var evs := Traverse(v, AsDir(v.disk[root.indexBlock]), RootedNode(root), fuel);
      var leaves := Leaves(evs);
      if leaves == [] then Ok(None)
      else
        MinFoldPicksEarliestMin(leaves, StampKey(mode));
        WalkFromInodeHasParentInodes(v, AsDir(v.disk[root.indexBlock]), RootedNode(root), fuel);
        Ok(MinFold(leaves, StampKey(mode)))
  }

  /**
   * clean_dir as written: the guard on the slot pointer never stops the
   * loop, so all 128 slots are examined (an empty slot fetches inode 0);
   * directories are skipped; the first file is taken and any file whose
   * timestamp differs replaces it. `nodes[i]` is the inode fetched for
   * slot `i`. -1 when no file is found, 0 with the chosen slot otherwise:
   * every file from the chosen slot on has its timestamp, and the
   * nearest file before it does not.
   */
  method CleanDir(nodes: seq<Inode>, mode: int) returns (ret: int, victim: Option<nat>)
    requires |nodes| == MaxSubfiles
    ensures ret == (if victim.None? then -1 else 0)
    ensures victim.None? <==> forall j :: 0 <= j < MaxSubfiles ==> IsDir(nodes[j].mode)
    ensures victim.Some? ==>
      var k := victim.value;
      && k < MaxSubfiles && !IsDir(nodes[k].mode)
      && (forall j :: k <= j < MaxSubfiles && !IsDir(nodes[j].mode) ==> Stamp(nodes[j], mode) == Stamp(nodes[k], mode))
      && (forall j :: 0 <= j < k && !IsDir(nodes[j].mode) && NoFileBetween(nodes, j, k) ==>
            Stamp(nodes[j], mode) != Stamp(nodes[k], mode))
  {
    victim := None;
    var i := 0;
    while i < MaxSubfiles
      invariant i <= MaxSubfiles
      invariant victim.None? <==> forall j :: 0 <= j < i ==> IsDir(nodes[j].mode)
      invariant victim.Some? ==>
        var k := victim.value;
        && k < i && !IsDir(nodes[k].mode)
        && (forall j :: k <= j < i && !IsDir(nodes[j].mode) ==> Stamp(nodes[j], mode) == Stamp(nodes[k], mode))
        && (forall j :: 0 <= j < k && !IsDir(nodes[j].mode) && NoFileBetween(nodes, j, k) ==>
              Stamp(nodes[j], mode) != Stamp(nodes[k], mode))
    {
      if !IsDir(nodes[i].mode) {
        if victim.None? {
          victim := Some(i);
        } else if IsOlder(nodes[i], nodes[victim.value], mode) != 0 {
          victim := Some(i);
        }
      }
      i := i + 1;
    }
    ret := if victim.None? then -1 else 0;
  }

  /** No slot strictly between `j` and `k` holds a file. */
  ghost predicate NoFileBetween(nodes: seq<Inode>, j: nat, k: nat)
    requires j <= k <= |nodes|
  {
    forall m :: j < m < k ==> IsDir(nodes[m].mode)
  }

  /**
   * clean_dir as its comments describe it: the same slots, but a file
   * replaces the candidate only when it is strictly older, so the choice
   * is the earliest oldest file.
   */
  method CleanDirOldest(nodes: seq<Inode>, mode: int) returns (ret: int, victim: Option<nat>)
    requires |nodes| == MaxSubfiles
    ensures ret == (if victim.None? then -1 else 0)
    ensures victim.None? <==> forall j :: 0 <= j < MaxSubfiles ==> IsDir(nodes[j].mode)
    ensures victim.Some? ==>
      var k := victim.value;
      && k < MaxSubfiles && !IsDir(nodes[k].mode)
      && (forall j :: 0 <= j < MaxSubfiles && !IsDir(nodes[j].mode) ==> Stamp(nodes[k], mode) <= Stamp(nodes[j], mode))
      && (forall j :: 0 <= j < k && !IsDir(nodes[j].mode) ==> Stamp(nodes[j], mode) > Stamp(nodes[k], mode))
  {
    victim := None;
    var i := 0;
    while i < MaxSubfiles
      invariant i <= MaxSubfiles
      invariant victim.None? <==> forall j :: 0 <= j < i ==> IsDir(nodes[j].mode)
      invariant victim.Some? ==>
        var k := victim.value;
        && k < i && !IsDir(nodes[k].mode)
        && (forall j :: 0 <= j < i && !IsDir(nodes[j].mode) ==> Stamp(nodes[k], mode) <= Stamp(nodes[j], mode))
        && (forall j :: 0 <= j < k && !IsDir(nodes[j].mode) ==> Stamp(nodes[j], mode) > Stamp(nodes[k], mode))
    {
      if !IsDir(nodes[i].mode) {
        if victim.None? {
          victim := Some(i);
        } else if IsOlder(nodes[i], nodes[victim.value], mode) < 0 {
          victim := Some(i);
        }
      }
      i := i + 1;
    }
    ret := if victim.None? then -1 else 0;
  }
}
