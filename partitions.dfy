/**
 * The list of mounted partitions behind the procfs "partitions" file:
 * partitions are remembered at mount, forgotten at unmount, and listed
 * by name, newest first.
 */
module Partitions {
  import opened Layout

  /** `struct partition`: `sb` stands for the address of its super block. */
  datatype Partition = Partition(sb: nat, name: string)

  /** The position of the first listed partition on super block `sb`, if any. */
  function FirstOn(items: seq<Partition>, sb: nat): (r: Option<nat>)
    ensures r.None? <==> forall k :: 0 <= k < |items| ==> items[k].sb != sb
    ensures r.Some? ==> r.value < |items| && items[r.value].sb == sb
    ensures r.Some? ==> forall k :: 0 <= k < r.value ==> items[k].sb != sb
  {
    if items == [] then None
    else if items[0].sb == sb then Some(0)
    else match FirstOn(items[1..], sb)
      case None => None
      case Some(k) => Some(k + 1)
  }

  /** The list once the first partition on `sb` is unlinked; unchanged when there is none. */
  function ForgetFirst(items: seq<Partition>, sb: nat): (r: seq<Partition>)
  {
    match FirstOn(items, sb)
    case None => items
    case Some(k) => items[..k] + items[k + 1..]
  }

  /** The first line of the procfs file. */
  const Header: string := "Following partitions use ouiche_fs:\n"

  /** One line per partition name, in list order. */
  function Lines(items: seq<Partition>): string
  {
    if items == [] then "" else items[0].name + "\n" + Lines(items[1..])
  }

  lemma {:induction false} LinesAppend(items: seq<Partition>, p: Partition)
    ensures Lines(items + [p]) == Lines(items) + (p.name + "\n")
  {
    if items == [] {
      assert [p][1..] == [];
    } else {
      var head := items[0].name + "\n";
      assert (items + [p])[1..] == items[1..] + [p];
      assert Lines(items + [p]) == head + Lines(items[1..] + [p]);
      LinesAppend(items[1..], p);
      AppendAssoc(head, Lines(items[1..]), p.name + "\n");
    }
  }

  lemma AppendAssoc<T>(a: seq<T>, b: seq<T>, c: seq<T>)
    ensures a + (b + c) == (a + b) + c
  {
  }

  /** The list head `first_partition` and the partitions linked after it. */
  class PartitionList {
    var items: seq<Partition>

    constructor ()
      ensures items == []
    {
      items := [];
    }

    /** remember_partition: the new partition goes to the front of the list. */
    method Remember(sb: nat, name: string)
      modifies this
      ensures items == [Partition(sb, name)] + old(items)
    {
      items := [Partition(sb, name)] + items;
    }

    /** forget_partition: the first partition on `sb` is unlinked, and the walk stops there. */
    method Forget(sb: nat)
      modifies this
      ensures items == ForgetFirst(old(items), sb)
    {
      var i := 0;
      while i < |items|
        invariant i <= |items|
        invariant forall k :: 0 <= k < i ==> items[k].sb != sb
      {
        if items[i].sb == sb {
          items := items[..i] + items[i + 1..];
          return;
        }
        i := i + 1;
      }
    }

    /** partitions_show: the header, then one line per partition name in list order. */
    method Show() returns (text: string)
      ensures text == Header + Lines(items)
    {
      text := Header;
      var i := 0;
      while i < |items|
        invariant i <= |items|
        invariant text == Header + Lines(items[..i])
      {
        LinesAppend(items[..i], items[i]);
        assert items[..i + 1] == items[..i] + [items[i]];
        AppendAssoc(Header, Lines(items[..i]), items[i].name + "\n");
        text := text + (items[i].name + "\n");
        i := i + 1;
      }
      assert items[..i] == items;
    }
  }

  /**
   * Forgetting removes exactly the first partition on `sb` and keeps the
   * order of the others; with no partition on `sb` nothing changes.
   */
  lemma ForgetRemovesFirstMatch(items: seq<Partition>, sb: nat)
    ensures FirstOn(items, sb).None? ==> ForgetFirst(items, sb) == items
    ensures FirstOn(items, sb).Some? ==>
      var k := FirstOn(items, sb).value;
      && |ForgetFirst(items, sb)| == |items| - 1
      && multiset(ForgetFirst(items, sb)) + multiset{items[k]} == multiset(items)
      && (forall j :: 0 <= j < k ==> ForgetFirst(items, sb)[j] == items[j])
      && (forall j :: k <= j < |items| - 1 ==> ForgetFirst(items, sb)[j] == items[j + 1])
  {
    match FirstOn(items, sb)
    case None =>
    case Some(k) =>
      assert ForgetFirst(items, sb) == items[..k] + items[k + 1..];
      RemoveAt(items, k);
  }

  /** Cutting element `k` out of a sequence. */
  lemma RemoveAt<T>(s: seq<T>, k: nat)
    requires k < |s|
    ensures var r := s[..k] + s[k + 1..];
      && |r| == |s| - 1
      && multiset(r) + multiset{s[k]} == multiset(s)
      && (forall j :: 0 <= j < k ==> r[j] == s[j])
      && (forall j :: k <= j < |s| - 1 ==> r[j] == s[j + 1])
  {
    assert s == s[..k] + ([s[k]] + s[k + 1..]);
  }

  /** Forgetting a super block just remembered gives the list back. */
  lemma ForgetUndoesRemember(items: seq<Partition>, sb: nat, name: string)
    ensures ForgetFirst([Partition(sb, name)] + items, sb) == items
  {
    assert ([Partition(sb, name)] + items)[1..] == items;
  }

  /** A partition remembered last is listed first. */
  lemma ShowListsNewestFirst(items: seq<Partition>, sb: nat, name: string)
    ensures Header + Lines([Partition(sb, name)] + items) == Header + name + "\n" + Lines(items)
  {
    assert ([Partition(sb, name)] + items)[1..] == items;
  }
}
