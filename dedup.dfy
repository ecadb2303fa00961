/**
 * The duplicate-block scanner. For every allocated block of every
 * regular file (the outer pass), the whole tree is walked again (the
 * inner pass) and every other block of the same logical size and the
 * same first bytes is reported. The scanner reads only: nothing is
 * merged, and no index block, bitmap or counter is written.
 */
module Dedup {
  import opened Layout
  import opened Disk


  /** An allocated block of a file with its logical size: the bytes of the file it holds. */
  datatype Piece = Piece(block: u32, size: nat)

  /** A reported pair: the block of the outer pass and an equal block found by the inner pass. */
  datatype Pair = Pair(first: Piece, second: Piece)

  /** The outcome of a walk: its status and the pairs it reported before it ended. */
  datatype Outcome = Outcome(st: Status, pairs: seq<Pair>)

  // ---------------------------------------------------------------------
  // are_eq_blocks
  // ---------------------------------------------------------------------

  /**
   * are_eq_blocks: unequal sizes are never equal; a block always equals
   * itself without being read; otherwise both blocks are read and their
   * first `size1` bytes compared, and a failed read counts as unequal.
   */
  predicate AreEqBlocks(d: map<nat, Block>, b1: u32, b2: u32, size1: nat, size2: nat)
    requires size1 <= BlockSize
  {
    if size1 != size2 then false
    else if b1 == b2 then true
    else if b1 !in d || b2 !in d then false
    else AsBytes(d[b1])[..size1] == AsBytes(d[b2])[..size1]
  }

  /** The comparison is symmetric. */
  lemma AreEqSymmetric(d: map<nat, Block>, b1: u32, b2: u32, size1: nat, size2: nat)
    requires size1 <= BlockSize && size2 <= BlockSize
    ensures AreEqBlocks(d, b1, b2, size1, size2) == AreEqBlocks(d, b2, b1, size2, size1)
  {
  }

  /** Two readable blocks are equal for a size exactly when their first `size` bytes agree. */
  lemma AreEqMeansSameBytes(d: map<nat, Block>, b1: u32, b2: u32, size: nat)
    requires size <= BlockSize && b1 in d && b2 in d
    ensures AreEqBlocks(d, b1, b2, size, size) <==>
      forall k :: 0 <= k < size ==> AsBytes(d[b1])[k] == AsBytes(d[b2])[k]
  {
    if AreEqBlocks(d, b1, b2, size, size) && b1 != b2 {
      forall k | 0 <= k < size
        ensures AsBytes(d[b1])[k] == AsBytes(d[b2])[k]
      {
        assert AsBytes(d[b1])[..size][k] == AsBytes(d[b2])[..size][k];
      }
    }
  }

  /** Unequal logical sizes are never reported equal, and a failed read is never reported equal. */
  lemma AreEqNeedsSizeAndReads(d: map<nat, Block>, b1: u32, b2: u32, size1: nat, size2: nat)
    requires size1 <= BlockSize
    ensures size1 != size2 ==> !AreEqBlocks(d, b1, b2, size1, size2)
    ensures b1 != b2 && (b1 !in d || b2 !in d) ==> !AreEqBlocks(d, b1, b2, size1, size2)
  {
  }

  // ---------------------------------------------------------------------
  // Logical sizes of a file's blocks
  // ---------------------------------------------------------------------

  /** The number of non-zero slots. */
  function NonZero(index: seq<u32>): (n: nat)
    ensures n <= |index|
  {
    if index == [] then 0 else (if index[0] != 0 then 1 else 0) + NonZero(index[1..])
  }

  /**
   * The allocated blocks of a file in slot order, each with its logical
   * size: min(remaining, 4096), where `remaining` starts at the file
   * size and each allocated block consumes its share. Empty slots are
   * skipped and consume nothing.
   */
  function Pieces(index: seq<u32>, remaining: nat): (r: seq<Piece>)
    ensures |r| == NonZero(index)
    ensures forall k :: 0 <= k < |r| ==> r[k].block != 0 && r[k].size <= BlockSize
  {
    if index == [] then []
    else if index[0] == 0 then Pieces(index[1..], remaining)
    else
      var s := Min(remaining, BlockSize);
      [Piece(index[0], s)] + Pieces(index[1..], remaining - s)
  }

  function TotalSize(ps: seq<Piece>): nat
  {
    if ps == [] then 0 else ps[0].size + TotalSize(ps[1..])
  }

  /**
   * The logical sizes add up to the file size, capped by 4096 bytes per
   * allocated block: no byte is counted twice and none past the end.
   */
  lemma {:induction false} PiecesCoverSize(index: seq<u32>, remaining: nat)
    ensures TotalSize(Pieces(index, remaining)) == Min(remaining, BlockSize * NonZero(index))
  {
    if index != [] {
      PiecesCoverSize(index[1..], remaining - Min(remaining, BlockSize));
      PiecesCoverSize(index[1..], remaining);
      var ps := Pieces(index, remaining);
      if index[0] != 0 {
        assert ps[1..] == Pieces(index[1..], remaining - Min(remaining, BlockSize));
        assert BlockSize * NonZero(index) == BlockSize + BlockSize * NonZero(index[1..]);
      }
    }
  }

  /**
   * The loop step over slot `i`: an empty slot adds no piece; an allocated
   * one adds its piece, of size min(remaining, 4096), which the remaining
   * size then loses.
   */
  lemma PiecesStep(index: seq<u32>, size: nat, i: nat, pieces: seq<Piece>, remaining: nat, pieces': seq<Piece>, remaining': nat)
    requires i < |index| && pieces + Pieces(index[i..], remaining) == Pieces(index, size)
    requires index[i] == 0 ==> pieces' == pieces && remaining' == remaining
    requires index[i] != 0 ==>
      var s := Min(remaining, BlockSize);
      pieces' == pieces + [Piece(index[i], s)] && remaining' == remaining - s
    ensures pieces' + Pieces(index[i + 1..], remaining') == Pieces(index, size)
  {
    assert index[i..][1..] == index[i + 1..];
    if index[i] != 0 {
      var tail := Pieces(index[i + 1..], remaining');
      assert Pieces(index[i..], remaining) == [Piece(index[i], Min(remaining, BlockSize))] + tail;
      assert pieces + ([Piece(index[i], Min(remaining, BlockSize))] + tail) == pieces' + tail;
    }
  }

  /**
   * The loop of ouichefs_dedup_scan_file over the 1024 slots, with its
   * running remaining size.
   */
  method LogicalPieces(index: IndexTable, size: nat) returns (pieces: seq<Piece>)
    ensures pieces == Pieces(index, size)
  {
    pieces := [];
    var remaining: nat := size;
    var i := 0;
    while i < IndexEntries
      invariant i <= IndexEntries
      invariant pieces + Pieces(index[i..], remaining) == Pieces(index, size)
    {
      ghost var pieces0, remaining0 := pieces, remaining;
      var current := index[i];
      if current != 0 {
        var blockSize: nat;
        if remaining >= BlockSize {
          blockSize := BlockSize;
          remaining := remaining - BlockSize;
        } else {
          blockSize := remaining;
          remaining := 0;
        }
        pieces := pieces + [Piece(current, blockSize)];
      }
      PiecesStep(index, size, i, pieces0, remaining0, pieces, remaining);
      i := i + 1;
    }
    assert index[i..] == [];
  }

  // ---------------------------------------------------------------------
  // The inner pass: every block equal to one given piece
  // ---------------------------------------------------------------------

  /** Every pair compares two different blocks that are equal for the first block's logical size. */
  ghost predicate SoundPairs(d: map<nat, Block>, pairs: seq<Pair>)
  {
    forall k :: 0 <= k < |pairs| ==>
      && pairs[k].first.size <= BlockSize
      && pairs[k].first.block != pairs[k].second.block
      && AreEqBlocks(d, pairs[k].first.block, pairs[k].second.block, pairs[k].first.size, pairs[k].second.size)
  }

  /** The pieces of a file equal to `p`, in slot order, excluding `p`'s own block. */
  function Matches(d: map<nat, Block>, p: Piece, qs: seq<Piece>): (r: seq<Pair>)
    requires p.size <= BlockSize
    ensures SoundPairs(d, r)
    ensures forall x :: x in r ==> x.first == p && x.second in qs
    ensures forall q :: q in qs && q.block != p.block && AreEqBlocks(d, p.block, q.block, p.size, q.size) ==>
      Pair(p, q) in r
  {
    if qs == [] then []
    else
      var rest := Matches(d, p, qs[1..]);
      if qs[0].block != p.block && AreEqBlocks(d, p.block, qs[0].block, p.size, qs[0].size)
      then [Pair(p, qs[0])] + rest
      else rest
  }

  /** ouichefs_dedup_scan_file with a piece to compare against: EIO when the index block cannot be read. */
  function InnerFile(v: Volume, p: Piece, node: Inode): (o: Outcome)
    requires p.size <= BlockSize
    reads v
    ensures SoundPairs(v.disk, o.pairs)
    ensures node.indexBlock !in v.disk ==> o == Outcome(Fail(EIO), [])
  {
    if node.indexBlock !in v.disk then Outcome(Fail(EIO), [])
    else Outcome(Done, Matches(v.disk, p, Pieces(AsIndex(v.disk[node.indexBlock]), node.size)))
  }

  lemma SoundAppend(d: map<nat, Block>, a: seq<Pair>, b: seq<Pair>)
    requires SoundPairs(d, a) && SoundPairs(d, b)
    ensures SoundPairs(d, a + b)
  {
    forall k | 0 <= k < |a + b|
      ensures (a + b)[k].first.size <= BlockSize
      ensures (a + b)[k].first.block != (a + b)[k].second.block
      ensures AreEqBlocks(d, (a + b)[k].first.block, (a + b)[k].second.block, (a + b)[k].first.size, (a + b)[k].second.size)
    {
      if k >= |a| {
        assert (a + b)[k] == b[k - |a|];
      }
    }
  }

  /**
   * ouichefs_dedup_scan_directory with a piece to compare against: EIO
   * when the table cannot be read. `fuel` bounds the depth of the walk.
   */
  function InnerDir(v: Volume, p: Piece, dir: Inode, fuel: nat): (o: Outcome)
    requires p.size <= BlockSize
    reads v, v.sbi
    ensures SoundPairs(v.disk, o.pairs)
    ensures fuel > 0 && dir.indexBlock !in v.disk ==> o == Outcome(Fail(EIO), [])
    decreases fuel, 1, 0
  {
    if fuel == 0 then Outcome(Done, [])
    else if dir.indexBlock !in v.disk then Outcome(Fail(EIO), [])
    else InnerEntries(v, p, AsDir(v.disk[dir.indexBlock]), 0, fuel)
  }

  /**
   * The slot loop of the directory walk from slot `i`: every slot with a
   * non-empty name is visited, past empty slots too; a failed inode
   * fetch or a failed sub-walk ends the loop with EIO; a slot that is
   * neither a directory nor a regular file is skipped.
   */
  function InnerEntries(v: Volume, p: Piece, files: DirTable, i: nat, fuel: nat): (o: Outcome)
    requires p.size <= BlockSize && i <= |files| && fuel > 0
    reads v, v.sbi
    ensures SoundPairs(v.disk, o.pairs)
    decreases fuel, 0, |files| - i
  {
    if i == |files| then Outcome(Done, [])
    else if files[i].name == "" then InnerEntries(v, p, files, i + 1, fuel)
    else
      match Iget(v, files[i].ino)
      case Err(_) => Outcome(Fail(EIO), [])
      case Ok(node) =>
        var sub := if IsDir(node.mode) then InnerDir(v, p, node, fuel - 1)
                   else if IsReg(node.mode) then InnerFile(v, p, node)
                   else Outcome(Done, []);
        if sub.st.Fail? then Outcome(Fail(EIO), sub.pairs)
        else
          var rest := InnerEntries(v, p, files, i + 1, fuel);
          SoundAppend(v.disk, sub.pairs, rest.pairs);
          Outcome(rest.st, sub.pairs + rest.pairs)
  }

  // ---------------------------------------------------------------------
  // The outer pass
  // ---------------------------------------------------------------------

  /** Inner passes from the root, one per piece, in order; the first failure ends them. */
  function OuterPieces(v: Volume, root: Inode, ps: seq<Piece>, depth: nat): (o: Outcome)
    requires forall k :: 0 <= k < |ps| ==> ps[k].size <= BlockSize
    reads v, v.sbi
    ensures SoundPairs(v.disk, o.pairs)
  {
    if ps == [] then Outcome(Done, [])
    else
      var inner := InnerDir(v, ps[0], root, depth);
      if inner.st.Fail? then Outcome(Fail(EIO), inner.pairs)
      else
        var rest := OuterPieces(v, root, ps[1..], depth);
        SoundAppend(v.disk, inner.pairs, rest.pairs);
        Outcome(rest.st, inner.pairs + rest.pairs)
  }

  /** ouichefs_dedup_scan_file without a piece: an inner pass from the root for every piece. */
  function OuterFile(v: Volume, root: Inode, node: Inode, depth: nat): (o: Outcome)
    reads v, v.sbi
    ensures SoundPairs(v.disk, o.pairs)
    ensures node.indexBlock !in v.disk ==> o == Outcome(Fail(EIO), [])
  {
    if node.indexBlock !in v.disk then Outcome(Fail(EIO), [])
    else OuterPieces(v, root, Pieces(AsIndex(v.disk[node.indexBlock]), node.size), depth)
  }

  /** ouichefs_dedup_scan_directory without a piece. */
  function OuterDir(v: Volume, root: Inode, dir: Inode, fuel: nat, depth: nat): (o: Outcome)
    reads v, v.sbi
    ensures SoundPairs(v.disk, o.pairs)
    ensures fuel > 0 && dir.indexBlock !in v.disk ==> o == Outcome(Fail(EIO), [])
    decreases fuel, 1, 0
  {
    if fuel == 0 then Outcome(Done, [])
    else if dir.indexBlock !in v.disk then Outcome(Fail(EIO), [])
    else OuterEntries(v, root, AsDir(v.disk[dir.indexBlock]), 0, fuel, depth)
  }

  function OuterEntries(v: Volume, root: Inode, files: DirTable, i: nat, fuel: nat, depth: nat): (o: Outcome)
    requires i <= |files| && fuel > 0
    reads v, v.sbi
    ensures SoundPairs(v.disk, o.pairs)
    decreases fuel, 0, |files| - i
  {
    if i == |files| then Outcome(Done, [])
    else if files[i].name == "" then OuterEntries(v, root, files, i + 1, fuel, depth)
    else
      match Iget(v, files[i].ino)
      case Err(_) => Outcome(Fail(EIO), [])
      case Ok(node) =>
        var sub := if IsDir(node.mode) then OuterDir(v, root, node, fuel - 1, depth)
                   else if IsReg(node.mode) then OuterFile(v, root, node, depth)
                   else Outcome(Done, []);
        if sub.st.Fail? then Outcome(Fail(EIO), sub.pairs)
        else
          var rest := OuterEntries(v, root, files, i + 1, fuel, depth);
          SoundAppend(v.disk, sub.pairs, rest.pairs);
          Outcome(rest.st, sub.pairs + rest.pairs)
  }

  /**
   * ouichefs_dedup_scan: the outer pass from the root. It reports 0
   * whether or not the walk failed; the pairs are what it logged.
   */
  function DedupScan(v: Volume, root: Inode, fuel: nat): (o: Outcome)
    reads v, v.sbi
    ensures o.st == Done
    ensures SoundPairs(v.disk, o.pairs)
    ensures o.pairs == OuterDir(v, root, root, fuel, fuel).pairs
  {
    Outcome(Done, OuterDir(v, root, root, fuel, fuel).pairs)
  }

  /** A piece of the file is reported against `p` exactly when it is another block equal to `p`. */
  lemma InnerFileReportsOnlyEqual(v: Volume, p: Piece, node: Inode, q: Piece)
    requires p.size <= BlockSize && node.indexBlock in v.disk
    requires q in Pieces(AsIndex(v.disk[node.indexBlock]), node.size)
    ensures Pair(p, q) in InnerFile(v, p, node).pairs <==>
      q.block != p.block && AreEqBlocks(v.disk, p.block, q.block, p.size, q.size)
  {
    var r := InnerFile(v, p, node).pairs;
    if Pair(p, q) in r {
      var k :| 0 <= k < |r| && r[k] == Pair(p, q);
    }
  }
}
