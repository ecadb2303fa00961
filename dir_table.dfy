/**
 * Directory-table operations of the namespace code: the slot scans and
 * the in-place updates that create, unlink and rename apply to the
 * 128-slot table of a directory, with the "packed, no holes" invariant.
 */
module DirTableOps {
  import opened Layout

  /**
   * The lookup scan: the first slot of the occupied prefix whose name is
   * `name`, or `Occupied(files)` when the name is not in that prefix.
   */
  function FindName(files: seq<DirEntry>, name: string): (i: nat)
    ensures i <= Occupied(files)
    ensures i < Occupied(files) ==> files[i].name == name
    ensures forall j :: 0 <= j < i ==> files[j].name != name
  {
    FindNameFrom(files, name, 0)
  }

  function FindNameFrom(files: seq<DirEntry>, name: string, k: nat): (i: nat)
    requires k <= Occupied(files)
    ensures k <= i <= Occupied(files)
    ensures i < Occupied(files) ==> files[i].name == name
    ensures forall j :: k <= j < i ==> files[j].name != name
    decreases Occupied(files) - k
  {
    if k == Occupied(files) then k
    else if files[k].name == name then k
    else FindNameFrom(files, name, k + 1)
  }

  /** The last slot below `n` holding inode `ino`, or -1. */
  function LastIndexOf(files: seq<DirEntry>, ino: nat, n: nat): (r: int)
    requires n <= |files|
    ensures -1 <= r < n
    ensures r >= 0 ==> files[r].ino == ino
    ensures forall j :: r < j < n ==> files[j].ino != ino
  {
    if n == 0 then -1
    else if files[n - 1].ino == ino then n - 1
    else LastIndexOf(files, ino, n - 1)
  }

  /** The last slot of the whole table whose name is `name`, or -1. */
  function LastNamed(files: seq<DirEntry>, name: string, n: nat): (r: int)
    requires n <= |files|
    ensures -1 <= r < n
    ensures r >= 0 ==> files[r].name == name
    ensures forall j :: r < j < n ==> files[j].name != name
  {
    if n == 0 then -1
    else if files[n - 1].name == name then n - 1
    else LastNamed(files, name, n - 1)
  }

  /** Whether some slot, occupied or not, carries `name`. */
  predicate NameInTable(files: seq<DirEntry>, name: string)
  {
    exists i :: 0 <= i < |files| && files[i].name == name
  }

  /** Insertion into the first slot whose inode number is 0. */
  function Insert(files: seq<DirEntry>, e: DirEntry): (r: seq<DirEntry>)
    requires Occupied(files) < |files|
    ensures |r| == |files|
    ensures r[Occupied(files)] == e
    ensures forall j :: 0 <= j < |files| && j != Occupied(files) ==> r[j] == files[j]
  {
    files[Occupied(files) := e]
  }

  /**
   * Removal of slot `f` from a table whose first `n` slots are scanned:
   * slots f+1..n-1 move down by one and slot n-1 is cleared.
   */
  function Remove(files: seq<DirEntry>, f: nat, n: nat): (r: seq<DirEntry>)
    requires f < n <= |files|
    ensures |r| == |files|
    ensures forall j :: 0 <= j < f ==> r[j] == files[j]
    ensures forall j :: f <= j < n - 1 ==> r[j] == files[j + 1]
    ensures r[n - 1] == EmptyEntry
    ensures forall j :: n <= j < |files| ==> r[j] == files[j]
  {
    seq(|files|, j requires 0 <= j < |files| =>
      if j < f then files[j]
      else if j < n - 1 then files[j + 1]
      else if j == n - 1 then EmptyEntry
      else files[j])
  }

  /** The occupied prefix of a table, in slot order. */
  function Entries(files: seq<DirEntry>): seq<DirEntry>
  {
    files[..Occupied(files)]
  }

  /** Names in the occupied prefix are pairwise distinct. */
  ghost predicate UniqueNames(files: seq<DirEntry>)
  {
    forall i, j :: 0 <= i < j < Occupied(files) ==> files[i].name != files[j].name
  }

  /** A table whose first `m` slots are occupied and whose other slots are empty is packed. */
  lemma PackedOfSplit(files: seq<DirEntry>, m: nat)
    requires m <= |files|
    requires forall j :: 0 <= j < m ==> files[j].ino != 0
    requires forall j :: m <= j < |files| ==> files[j] == EmptyEntry
    ensures Packed(files) && Occupied(files) == m
  {
    var k := Occupied(files);
    assert k < |files| ==> files[k].ino == 0;
    assert m < |files| ==> files[m].ino == 0;
  }

  /**
   * Inserting an occupied entry keeps the table packed and grows the
   * occupied prefix by exactly that entry, at its end.
   */
  lemma InsertKeepsPacked(files: seq<DirEntry>, e: DirEntry)
    requires Packed(files) && Occupied(files) < |files| && e.ino != 0
    ensures Packed(Insert(files, e))
    ensures Entries(Insert(files, e)) == Entries(files) + [e]
  {
    var n := Occupied(files);
    var r := Insert(files, e);
    assert forall j :: n + 1 <= j < |files| ==> r[j] == files[j];
    PackedOfSplit(r, n + 1);
    UpdateThenPrefix(files, n, e);
  }

  lemma UpdateThenPrefix<T>(s: seq<T>, n: nat, x: T)
    requires n < |s|
    ensures s[n := x][..n + 1] == s[..n] + [x]
  {
  }

  /**
   * Removing an occupied slot keeps the table packed; the occupied
   * prefix loses exactly that entry and keeps the others in order.
   */
  lemma RemoveKeepsPacked(files: seq<DirEntry>, f: nat)
    requires Packed(files) && f < Occupied(files)
    ensures Packed(Remove(files, f, Occupied(files)))
    ensures Entries(Remove(files, f, Occupied(files))) ==
      Entries(files)[..f] + Entries(files)[f + 1..]
  {
    var n := Occupied(files);
    RemoveShape(files, f, n);
    var r := Remove(files, f, n);
    PackedOfSplit(r, n - 1);
    RemoveEntries(files, f, n);
  }

  /** After a removal the first n - 1 slots are occupied and the rest are empty. */
  lemma RemoveShape(files: seq<DirEntry>, f: nat, n: nat)
    requires Packed(files) && f < n == Occupied(files)
    ensures var r := Remove(files, f, n);
      && (forall j :: 0 <= j < n - 1 ==> r[j].ino != 0)
      && (forall j :: n - 1 <= j < |files| ==> r[j] == EmptyEntry)
  {
    var r := Remove(files, f, n);
    forall j | 0 <= j < n - 1
      ensures r[j].ino != 0
    {
      if j >= f {
        assert r[j] == files[j + 1];
      }
    }
  }

  /** The first n - 1 slots after a removal are the first n without slot f. */
  lemma RemoveEntries(files: seq<DirEntry>, f: nat, n: nat)
    requires f < n <= |files|
    ensures Remove(files, f, n)[..n - 1] == files[..n][..f] + files[..n][f + 1..]
  {
    var r := Remove(files, f, n);
    var e := files[..n];
    forall j | 0 <= j < n - 1
      ensures r[j] == (e[..f] + e[f + 1..])[j]
    {
      if j >= f {
        assert r[j] == files[j + 1];
      }
    }
  }

  /** After an insertion, looking the new name up finds the new entry. */
  lemma LookupAfterInsert(files: seq<DirEntry>, e: DirEntry)
    requires Packed(files) && Occupied(files) < |files| && e.ino != 0
    requires FindName(files, e.name) == Occupied(files)
    ensures var r := Insert(files, e);
      FindName(r, e.name) < Occupied(r) && r[FindName(r, e.name)] == e
  {
    InsertKeepsPacked(files, e);
    var r := Insert(files, e);
    var n := Occupied(files);
    assert Occupied(r) == n + 1 by {
      assert |Entries(r)| == n + 1;
    }
    assert r[n].name == e.name;
    FindNameFromMiss(r, e.name, 0, n);
  }

  /** A scan that passes the first `n` slots without a match stops at or after `n`. */
  lemma {:induction false} FindNameFromMiss(files: seq<DirEntry>, name: string, k: nat, n: nat)
    requires k <= n < Occupied(files)
    requires forall j :: k <= j < n ==> files[j].name != name
    requires files[n].name == name
    ensures FindNameFrom(files, name, k) == n
    decreases n - k
  {
    if k < n {
      FindNameFromMiss(files, name, k + 1, n);
    }
  }

  /** After removing the slot holding a name, looking that name up misses. */
  lemma LookupAfterRemove(files: seq<DirEntry>, f: nat)
    requires Packed(files) && UniqueNames(files) && f < Occupied(files)
    ensures var r := Remove(files, f, Occupied(files));
      FindName(r, files[f].name) == Occupied(r)
  {
    RemoveKeepsPacked(files, f);
    var n := Occupied(files);
    var r := Remove(files, f, n);
    assert Occupied(r) == n - 1 by {
      assert |Entries(r)| == n - 1;
    }
    forall j | 0 <= j < n - 1
      ensures r[j].name != files[f].name
    {
      if j < f {
        assert r[j] == files[j];
      } else {
        assert r[j] == files[j + 1];
      }
    }
  }

  /**
   * Renaming an entry in place keeps the table packed and the entry's
   * slot; a name not used elsewhere is then found at that slot.
   */
  lemma RenameInPlace(files: seq<DirEntry>, f: nat, name: string)
    requires Packed(files) && f < Occupied(files)
    requires forall j :: 0 <= j < |files| ==> files[j].name != name
    ensures var r := files[f := files[f].(name := name)];
      Packed(r) && Occupied(r) == Occupied(files) && FindName(r, name) == f
  {
    var r := files[f := files[f].(name := name)];
    var n := Occupied(files);
    forall j | n <= j < |files|
      ensures r[j] == EmptyEntry
    {
      assert files[n].ino == 0;
    }
    PackedOfSplit(r, n);
    FindNameFromMiss(r, name, 0, f);
  }

  /** How the source-table scan of a cross-directory rename ends. */
  datatype ScanEnd = Stopped(fId: int, nrSubs: nat) | Overran

  /**
   * The cross-directory rename scan as written: its loop condition is a
   * non-zero constant, so only an empty slot ends it; on a table with no
   * empty slot the scan reads past the last slot.
   */
  function RenameScanAsWritten(files: seq<DirEntry>, ino: nat, i: nat, fId: int): ScanEnd
    decreases |files| - i
  {
    if i >= |files| then Overran
    else if files[i].ino == ino then RenameScanAsWritten(files, ino, i + 1, i)
    else if files[i].ino == 0 then Stopped(fId, i)
    else RenameScanAsWritten(files, ino, i + 1, fId)
  }

  /** On a full source directory the scan as written runs past the table. */
  lemma {:induction false} RenameScanOverrunsFullTable(files: seq<DirEntry>, ino: nat, i: nat, fId: int)
    requires i <= |files|
    requires forall j :: i <= j < |files| ==> files[j].ino != 0
    ensures RenameScanAsWritten(files, ino, i, fId) == Overran
    decreases |files| - i
  {
    if i < |files| {
      if files[i].ino == ino {
        RenameScanOverrunsFullTable(files, ino, i + 1, i);
      } else {
        RenameScanOverrunsFullTable(files, ino, i + 1, fId);
      }
    }
  }

  /**
   * Whenever the table has an empty slot the scan as written agrees with
   * the bounded scan: it stops at the first empty slot with the last
   * matching slot before it.
   */
  lemma {:induction false} RenameScanAgreesWhenNotFull(files: seq<DirEntry>, ino: nat, i: nat, fId: int)
    requires ino != 0 && i <= Occupied(files) < |files|
    requires fId == LastIndexOf(files, ino, i)
    ensures RenameScanAsWritten(files, ino, i, fId) ==
      Stopped(LastIndexOf(files, ino, Occupied(files)), Occupied(files))
    decreases |files| - i
  {
    if i < Occupied(files) {
      if files[i].ino == ino {
        RenameScanAgreesWhenNotFull(files, ino, i + 1, i);
      } else {
        RenameScanAgreesWhenNotFull(files, ino, i + 1, fId);
      }
    }
  }
}
