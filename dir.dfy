/**
 * Directory listing: the entries reported for a directory from a given
 * position, "." and ".." first, then the occupied slots of its table.
 */
module DirOps {
  import opened Layout
  import opened Disk

  /** One entry handed to the caller's buffer: name, reported name length, inode number. */
  datatype Emitted = Emitted(name: string, nameLen: nat, ino: nat)

  /** The two entries every listing starts with. */
  function Dots(self: nat, parent: nat): seq<Emitted>
  {
    [Emitted(".", 1, self), Emitted("..", 2, parent)]
  }

  /** A table slot as listed: its name is reported with the full fixed name length. */
  function Listed(e: DirEntry): Emitted
  {
    Emitted(e.name, FilenameLen, e.ino)
  }

  /** The first slot at or after `i` holding no inode, or the table size. */
  function RunEnd(files: seq<DirEntry>, i: nat): (e: nat)
    requires i <= |files|
    ensures i <= e <= |files|
    ensures forall k :: i <= k < e ==> files[k].ino != 0
    ensures e < |files| ==> files[e].ino == 0
    decreases |files| - i
  {
    if i == |files| || files[i].ino == 0 then i else RunEnd(files, i + 1)
  }

  /** The table slots listed from slot `i`: up to the next empty slot. */
  function Run(files: seq<DirEntry>, i: nat): (r: seq<Emitted>)
    requires i <= |files|
    ensures |r| == RunEnd(files, i) - i
    ensures forall k :: 0 <= k < |r| ==> r[k] == Listed(files[i + k])
  {
    seq(RunEnd(files, i) - i, k requires 0 <= k < RunEnd(files, i) - i => Listed(files[i + k]))
  }

  /** The dots still to be reported from position `pos`. */
  function DotsFrom(self: nat, parent: nat, pos: nat): (r: seq<Emitted>)
    ensures |r| == 2 - Min(pos, 2)
    ensures r == Dots(self, parent)[Min(pos, 2)..]
  {
    if pos == 0 then [Emitted(".", 1, self), Emitted("..", 2, parent)]
    else if pos == 1 then [Emitted("..", 2, parent)]
    else []
  }

  /** Everything a listing from position `pos` reports when the caller's buffer never fills. */
  function Pending(files: DirTable, self: nat, parent: nat, pos: nat): (r: seq<Emitted>)
    requires pos <= MaxSubfiles + 2
  {
    DotsFrom(self, parent, pos) + Run(files, if pos < 2 then 0 else pos - 2)
  }


  /** The occupied prefix of a table, as listed, in slot order. */
  function Slots(files: seq<DirEntry>): (r: seq<Emitted>)
    ensures |r| == Occupied(files)
    ensures forall k :: 0 <= k < |r| ==> r[k] == Listed(files[k])
  {
    seq(Occupied(files), k requires 0 <= k < Occupied(files) => Listed(files[k]))
  }

  /** The complete listing of a packed directory: dots, then the occupied prefix in slot order. */
  function Listing(files: seq<DirEntry>, self: nat, parent: nat): (l: seq<Emitted>)
    ensures |l| == 2 + Occupied(files)
    ensures l[..2] == Dots(self, parent)
    ensures forall j :: 2 <= j < |l| ==> l[j] == Listed(files[j - 2])
  {
    Dots(self, parent) + Slots(files)
  }

  /** On a packed table the run from a slot ends at the occupied prefix, or at once past it. */
  lemma RunEndPacked(files: DirTable, i: nat)
    requires Packed(files) && i <= |files|
    ensures i <= Occupied(files) ==> RunEnd(files, i) == Occupied(files)
    ensures i > Occupied(files) ==> RunEnd(files, i) == i
  {
    var n := Occupied(files);
    var e := RunEnd(files, i);
    if i > n && i < |files| {
      assert files[n].ino == 0;
      assert files[i].ino == 0;
    }
  }

  /** On a packed table the run from a slot inside the occupied prefix is the rest of that prefix. */
  lemma RunIsSlotsTail(files: DirTable, i: nat)
    requires Packed(files) && i <= Occupied(files)
    ensures Run(files, i) == Slots(files)[i..]
  {
    RunEndPacked(files, i);
    var r, t := Run(files, i), Slots(files)[i..];
    assert |r| == |t|;
    forall k | 0 <= k < |r|
      ensures r[k] == t[k]
    {
    }
  }

  /**
   * On a packed table, what remains to be listed from a position is the
   * tail of the complete listing from that position (empty once the
   * position is past its end).
   */
  lemma PendingIsListingTail(files: DirTable, self: nat, parent: nat, pos: nat)
    requires Packed(files) && pos <= MaxSubfiles + 2
    ensures pos <= 2 + Occupied(files) ==> Pending(files, self, parent, pos) == Listing(files, self, parent)[pos..]
    ensures pos > 2 + Occupied(files) ==> Pending(files, self, parent, pos) == []
  {
    if pos <= 2 {
      RunIsSlotsTail(files, 0);
      PendingAmongDots(files, self, parent, pos);
    } else if pos <= 2 + Occupied(files) {
      RunIsSlotsTail(files, pos - 2);
      PendingAmongSlots(files, self, parent, pos);
    } else {
      RunEndPacked(files, pos - 2);
    }
  }

  lemma PendingAmongDots(files: DirTable, self: nat, parent: nat, pos: nat)
    requires pos <= 2 && Run(files, 0) == Slots(files)
    ensures Pending(files, self, parent, pos) == Listing(files, self, parent)[pos..]
  {
    assert Pending(files, self, parent, pos) == DotsFrom(self, parent, pos) + Run(files, 0);
    TailOfConcat(Dots(self, parent), Slots(files), pos);
  }

  lemma TailOfConcat<T>(a: seq<T>, b: seq<T>, i: nat)
    requires i <= |a|
    ensures (a + b)[i..] == a[i..] + b
  {
  }

  lemma PendingAmongSlots(files: DirTable, self: nat, parent: nat, pos: nat)
    requires 2 < pos <= 2 + Occupied(files) && Run(files, pos - 2) == Slots(files)[pos - 2..]
    ensures Pending(files, self, parent, pos) == Listing(files, self, parent)[pos..]
  {
    assert Pending(files, self, parent, pos) == DotsFrom(self, parent, pos) + Run(files, pos - 2);
    assert DotsFrom(self, parent, pos) == [];
    TailPastPrefix(Dots(self, parent), Slots(files), pos);
  }

  lemma TailPastPrefix<T>(a: seq<T>, b: seq<T>, i: nat)
    requires |a| <= i <= |a| + |b|
    ensures (a + b)[i..] == b[i - |a|..]
  {
  }

  /**
   * The loop of ouichefs_iterate over the table: slots from `start` are
   * reported until an empty slot, the end of the table, or a refusal of
   * the caller's buffer after `room` entries.
   */
  method EmitRun(files: DirTable, start: nat, room: nat) returns (emitted: seq<Emitted>)
    requires start <= MaxSubfiles
    ensures emitted == Run(files, start)[..Min(room, |Run(files, start)|)]
  {
    ghost var r := Run(files, start);
    emitted := [];
    var i := start;
    while i < MaxSubfiles
      invariant start <= i <= RunEnd(files, start)
      invariant |emitted| == i - start <= room
      invariant emitted == r[..i - start]
      decreases MaxSubfiles - i
    {
      if files[i].ino == 0 {
        break;
      }
      if |emitted| == room {
        break;
      }
      assert r[i - start] == Listed(files[i]);
      emitted := emitted + [Listed(files[i])];
      i := i + 1;
    }
  }

  /**
   * dir_emit_dots: "." at position 0 and ".." at position 1, each only
   * while the caller's buffer accepts it; false once it refuses one.
   */
  method EmitDots(self: nat, parent: nat, pos: nat, room: nat) returns (ok: bool, out: seq<Emitted>, newPos: nat)
    ensures var dots := DotsFrom(self, parent, pos);
      && (ok <==> room >= |dots|)
      && out == dots[..Min(room, |dots|)]
      && newPos == pos + |out|
  {
    out := [];
    newPos := pos;
    if newPos == 0 {
      if room == 0 {
        return false, out, newPos;
      }
      out := out + [Emitted(".", 1, self)];
      newPos := 1;
    }
    if newPos == 1 {
      if |out| == room {
        return false, out, newPos;
      }
      out := out + [Emitted("..", 2, parent)];
      newPos := 2;
    }
    ok := true;
  }

  /** Once every dot fits, the entries accepted are the dots and then the accepted part of the run. */
  lemma PendingAfterDots(files: DirTable, self: nat, parent: nat, pos: nat, room: nat)
    requires pos <= MaxSubfiles + 2 && room >= |DotsFrom(self, parent, pos)|
    ensures var dots := DotsFrom(self, parent, pos);
      var r := Run(files, pos + |dots| - 2);
      var p := Pending(files, self, parent, pos);
      dots + r[..Min(room - |dots|, |r|)] == p[..Min(room, |p|)]
  {
    var dots := DotsFrom(self, parent, pos);
    var r := Run(files, pos + |dots| - 2);
    assert Pending(files, self, parent, pos) == dots + r;
    TakeAfterPrefix(dots, r, room);
  }

  lemma TakeAfterPrefix<T>(a: seq<T>, b: seq<T>, room: nat)
    requires room >= |a|
    ensures a + b[..Min(room - |a|, |b|)] == (a + b)[..Min(room, |a| + |b|)]
  {
  }

  /**
   * ouichefs_iterate. `room` is how many more entries the caller's buffer
   * accepts (the point where dir_emit starts refusing). ENOTDIR for a
   * non-directory; nothing past position 130; the dots are reported
   * before the table is read, so an EIO leaves them reported; then the
   * occupied slots from position - 2 up to the first empty one, as long
   * as the buffer accepts them. The position advances by one per entry.
   */
  method Iterate(v: Volume, node: Inode, self: nat, parent: nat, pos: nat, room: nat)
    returns (st: Status, out: seq<Emitted>, newPos: nat)
    ensures newPos == pos + |out|
    ensures !IsDir(node.mode) ==> st == Fail(ENOTDIR) && out == []
    ensures IsDir(node.mode) && pos > MaxSubfiles + 2 ==> st == Done && out == []
    ensures IsDir(node.mode) && pos <= MaxSubfiles + 2 ==>
      var dots := DotsFrom(self, parent, pos);
      && (room < |dots| ==> st == Done && out == dots[..room])
      && (room >= |dots| && node.indexBlock !in v.disk ==> st == Fail(EIO) && out == dots)
      && (room >= |dots| && node.indexBlock in v.disk ==>
            var p := Pending(AsDir(v.disk[node.indexBlock]), self, parent, pos);
            st == Done && out == p[..Min(room, |p|)])
  {
    if !IsDir(node.mode) {
      return Fail(ENOTDIR), [], pos;
    }
    if pos > MaxSubfiles + 2 {
      return Done, [], pos;
    }
    ghost var dots := DotsFrom(self, parent, pos);
    var ok;
    ok, out, newPos := EmitDots(self, parent, pos, room);
    if !ok {
      return Done, out, newPos;
    }
    assert out == dots && newPos >= 2;
    if node.indexBlock !in v.disk {
      return Fail(EIO), out, newPos;
    }
    var files := AsDir(v.disk[node.indexBlock]);
    var rest := EmitRun(files, newPos - 2, room - |out|);
    PendingAfterDots(files, self, parent, pos, room);
    out := out + rest;
    newPos := newPos + |rest|;
    st := Done;
  }
}
