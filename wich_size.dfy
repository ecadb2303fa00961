/**
 * The size heuristic: which file it picks for eviction, over the whole
 * partition (through the walk) and within one directory.
 */
module WichSize {
  import opened Layout
  import opened Disk
  import opened Eviction

  /** The size of a node's inode; a node without one counts as empty. */
  function SizeOf(n: Node): nat
  {
    if n.inode.Some? then n.inode.value.size else 0
  }

  /**
   * One call of leaf_action on the candidate `d`: the first leaf is taken;
   * a later one replaces the candidate only when its file is strictly
   * smaller.
   */
  function SizeStep(d: Option<Pick>, leaf: Pick): (r: Option<Pick>)
    ensures r.Some?
    ensures r == Some(leaf) || r == d
    ensures d.Some? && r == Some(leaf) && leaf != d.value ==> SizeOf(leaf.child) < SizeOf(d.value.child)
    ensures d.Some? && SizeOf(leaf.child) < SizeOf(d.value.child) ==> r == Some(leaf)
  {
    MinStep(d, leaf, SizeOf)
  }

  /** `struct size_data`, the candidate the walk threads through leaf_action. */
  class SizeData {
    var pick: Option<Pick>

    constructor ()
      ensures pick == None
    {
      pick := None;
    }

    method LeafAction(parent: Node, child: Node)
      modifies this
      ensures pick == SizeStep(old(pick), Pick(parent, child))
    {
      if pick.None? {
        pick := Some(Pick(parent, child));
        return;
      }
      if SizeOf(child) < SizeOf(pick.value.child) {
        pick := Some(Pick(parent, child));
      }
    }
  }

  /**
   * The selection of clean_partition with the walk started from `start`:
   * EIO when the root inode has no directory block or it cannot be read;
   * otherwise the leaf action's candidate over the whole walk (the
   * earliest smallest file), none when the walk meets no file.
   */
  function SelectFrom(v: Volume, root: Inode, start: Node, fuel: nat): (r: Result<Option<Pick>>)
    reads v, v.sbi
    ensures root.indexBlock == 0 || root.indexBlock !in v.disk ==> r == Err(EIO)
    ensures root.indexBlock != 0 && root.indexBlock in v.disk ==> r.Ok?
    ensures r.Ok? ==>
      var leaves := Leaves(Traverse(v, AsDir(v.disk[root.indexBlock]), start, fuel));
      && (r.value.None? <==> leaves == [])
      && (r.value.Some? ==> r.value == Some(leaves[MinIndex(leaves, SizeOf)]))
  {
    if root.indexBlock == 0 || root.indexBlock !in v.disk then Err(EIO)
    else
      var leaves := Leaves(Traverse(v, AsDir(v.disk[root.indexBlock]), start, fuel));
      if leaves == [] then Ok(None)
      else
        MinFoldPicksEarliestMin(leaves, SizeOf);
        Ok(MinFold(leaves, SizeOf))
  }

  /** clean_partition as written: the walk starts from a node without an inode. */
  function CleanPartitionAsWritten(v: Volume, root: Inode, fuel: nat): Result<Option<Pick>>
    reads v, v.sbi
  {
    SelectFrom(v, root, RootNode, fuel)
  }

  /**
   * clean_partition with the root node carrying the root inode: the same
   * choice, and now the chosen file's parent always has an inode.
   */
  function CleanPartition(v: Volume, root: Inode, fuel: nat): (r: Result<Option<Pick>>)
    reads v, v.sbi
    ensures root.indexBlock == 0 || root.indexBlock !in v.disk ==> r == Err(EIO)
    ensures root.indexBlock != 0 && root.indexBlock in v.disk ==> r.Ok?
    ensures r.Ok? ==>
      var leaves := Leaves(Traverse(v, AsDir(v.disk[root.indexBlock]), RootedNode(root), fuel));
      && (r.value.None? <==> leaves == [])
      && (r.value.Some? ==> r.value == Some(leaves[MinIndex(leaves, SizeOf)]))
    ensures r.Ok? && r.value.Some? ==> r.value.value.parent.inode.Some? && r.value.value.child.inode.Some?
  {
    var r := SelectFrom(v, root, RootedNode(root), fuel);
    if r.Ok? && r.value.Some? then
      var evs := Traverse(v, AsDir(v.disk[root.indexBlock]), RootedNode(root), fuel);
      WalkFromInodeHasParentInodes(v, AsDir(v.disk[root.indexBlock]), RootedNode(root), fuel);
      var leaves := Leaves(evs);
      assert r.value.value == leaves[MinIndex(leaves, SizeOf)];
      r
    else r
  }

  /**
   * clean_dir's choice: slots are examined up to the first one holding
   * no inode, directories are skipped, the first file is taken and a
   * strictly smaller one replaces it. `nodes[i]` is the inode fetched for
   * slot `i`. -1 when no file is found, 0 with the chosen slot otherwise.
   */
  method CleanDir(files: DirTable, nodes: seq<Inode>) returns (ret: int, victim: Option<nat>)
    requires |nodes| == MaxSubfiles
    ensures ret == (if victim.None? then -1 else 0)
    ensures victim.None? <==> forall j :: 0 <= j < Occupied(files) ==> IsDir(nodes[j].mode)
    ensures victim.Some? ==>
      var k := victim.value;
      && k < Occupied(files) && !IsDir(nodes[k].mode)
      && (forall j :: 0 <= j < Occupied(files) && !IsDir(nodes[j].mode) ==> nodes[k].size <= nodes[j].size)
      && (forall j :: 0 <= j < k && !IsDir(nodes[j].mode) ==> nodes[j].size > nodes[k].size)
  {
    var n := Occupied(files);
    victim := None;
    var i := 0;
    while i < MaxSubfiles
      invariant i <= n
      invariant victim.None? <==> forall j :: 0 <= j < i ==> IsDir(nodes[j].mode)
      invariant victim.Some? ==>
        var k := victim.value;
        && k < i && !IsDir(nodes[k].mode)
        && (forall j :: 0 <= j < i && !IsDir(nodes[j].mode) ==> nodes[k].size <= nodes[j].size)
        && (forall j :: 0 <= j < k && !IsDir(nodes[j].mode) ==> nodes[j].size > nodes[k].size)
    {
      if files[i].ino == 0 {
        break;
      }
      if !IsDir(nodes[i].mode) {
        if victim.None? {
          victim := Some(i);
        } else if nodes[i].size < nodes[victim.value].size {
          victim := Some(i);
        }
      }
      i := i + 1;
    }
    ret := if victim.None? then -1 else 0;
  }
}
