/**
 * The eviction-policy registry (a list of policies after the built-in
 * default, plus the current selection) and the depth-first directory
 * walk the policies use to find a file to evict.
 */
module Eviction {
  import opened Layout
  import opened Disk

  const PolicyNameLen: nat := 32

  /**
   * A policy as the registry sees it: `id` stands for the address of its
   * `struct ouichefs_eviction_policy`, compared by the registry where
   * the source compares pointers.
   */
  datatype Policy = Policy(id: nat, name: string)

  /** The built-in policy, whose list node is the head of the list. */
  const DefaultId: nat := 0
  const DefaultPolicy: Policy := Policy(DefaultId, "default")

  /** Whether a policy with this address is on the list. */
  predicate Linked(ps: seq<Policy>, id: nat)
  {
    exists k :: 0 <= k < |ps| && ps[k].id == id
  }

  /** No address is on the list twice. */
  predicate DistinctIds(ps: seq<Policy>)
  {
    forall i, j :: 0 <= i < j < |ps| ==> ps[i].id != ps[j].id
  }

  /** The list with the policy at address `id` unlinked. */
  function Without(ps: seq<Policy>, id: nat): (r: seq<Policy>)
    ensures !Linked(r, id)
    ensures forall q :: q in r ==> q in ps
    ensures forall q :: q in ps && q.id != id ==> q in r
  {
    if ps == [] then []
    else if ps[0].id == id then Without(ps[1..], id)
    else [ps[0]] + Without(ps[1..], id)
  }

  /** Registering a policy and unregistering it gives back the list it was added to. */
  lemma {:induction false} UnregisterUndoesRegister(ps: seq<Policy>, p: Policy)
    requires !Linked(ps, p.id)
    ensures Without(ps + [p], p.id) == ps
  {
    if ps == [] {
      assert [p][1..] == [];
    } else {
      assert (ps + [p])[1..] == ps[1..] + [p];
      assert !Linked(ps[1..], p.id);
      UnregisterUndoesRegister(ps[1..], p);
    }
  }

  /** The position of the first listed policy named `name`, if any. */
  function FirstNamed(ps: seq<Policy>, name: string): (r: Option<nat>)
    ensures r.None? <==> forall k :: 0 <= k < |ps| ==> ps[k].name != name
    ensures r.Some? ==> r.value < |ps| && ps[r.value].name == name
    ensures r.Some? ==> forall k :: 0 <= k < r.value ==> ps[k].name != name
  {
    if ps == [] then None
    else if ps[0].name == name then Some(0)
    else match FirstNamed(ps[1..], name)
      case None => None
      case Some(k) => Some(k + 1)
  }

  /**
   * The registry: `registered` is the list after the default policy's
   * head, in list order; `current` is `current_policy`.
   */
  class Registry {
    var registered: seq<Policy>
    var current: Policy

    /** Every listed policy has its own address, none is the default, and the current one is listed or the default. */
    ghost predicate Valid()
      reads this
    {
      && DistinctIds(registered)
      && (forall k :: 0 <= k < |registered| ==> registered[k].id != DefaultId)
      && (current == DefaultPolicy || current in registered)
    }

    constructor ()
      ensures Valid()
      ensures registered == [] && current == DefaultPolicy
    {
      registered := [];
      current := DefaultPolicy;
    }

    /**
     * register_eviction_policy: EINVAL for a NULL policy or a name longer
     * than 32 characters, changing nothing; otherwise the policy goes to
     * the tail of the list and becomes current. The list node must not be
     * linked already (the source does not check).
     */
    method Register(p: Option<Policy>) returns (st: Status)
      requires Valid()
      requires p.Some? ==> p.value.id != DefaultId && !Linked(registered, p.value.id)
      modifies this
      ensures Valid()
      ensures p.None? || |p.value.name| > PolicyNameLen ==>
        st == Fail(EINVAL) && registered == old(registered) && current == old(current)
      ensures p.Some? && |p.value.name| <= PolicyNameLen ==>
        st == Done && registered == old(registered) + [p.value] && current == p.value
    {
      if p.None? {
        return Fail(EINVAL);
      }
      if |p.value.name| > PolicyNameLen {
        return Fail(EINVAL);
      }
      assert forall k :: 0 <= k < |registered| ==> registered[k].id != p.value.id;
      registered := registered + [p.value];
      current := p.value;
      st := Done;
    }

    /**
     * unregister_eviction_policy: nothing for NULL or the default policy;
     * otherwise the default becomes current if the policy was, and the
     * policy is unlinked.
     */
    method Unregister(p: Option<Policy>)
      requires Valid()
      requires p.Some? && p.value.id != DefaultId ==> Linked(registered, p.value.id)
      modifies this
      ensures Valid()
      ensures p.None? || p.value.id == DefaultId ==> registered == old(registered) && current == old(current)
      ensures p.Some? && p.value.id != DefaultId ==>
        && registered == Without(old(registered), p.value.id)
        && current == (if old(current).id == p.value.id then DefaultPolicy else old(current))
    {
      if p.None? {
        return;
      }
      if p.value.id == DefaultId {
        return;
      }
      if current.id == p.value.id {
        current := DefaultPolicy;
      }
      WithoutKeepsDistinct(registered, p.value.id);
      var r := Without(registered, p.value.id);
      forall k | 0 <= k < |r|
        ensures r[k].id != DefaultId
      {
        assert r[k] in r;
      }
      registered := r;
    }

    /**
     * set_eviction_policy: EINVAL for a NULL name; otherwise the first
     * listed policy with that name becomes current, or EINVAL with
     * nothing changed. The walk starts after the head, so the default
     * policy is never selected by name.
     */
    method Set(name: Option<string>) returns (st: Status)
      requires Valid()
      modifies this
      ensures Valid() && registered == old(registered)
      ensures name.None? ==> st == Fail(EINVAL) && current == old(current)
      ensures name.Some? && FirstNamed(registered, name.value).None? ==>
        st == Fail(EINVAL) && current == old(current)
      ensures name.Some? && FirstNamed(registered, name.value).Some? ==>
        st == Done && current == registered[FirstNamed(registered, name.value).value]
      ensures st == Done ==> current != DefaultPolicy
    {
      if name.None? {
        return Fail(EINVAL);
      }
      var i := 0;
      while i < |registered|
        invariant i <= |registered|
        invariant forall k :: 0 <= k < i ==> registered[k].name != name.value
      {
        if registered[i].name == name.value {
          current := registered[i];
          return Done;
        }
        i := i + 1;
      }
      st := Fail(EINVAL);
    }
  }

  /** Unlinking keeps the addresses of the remaining policies distinct. */
  lemma {:induction false} WithoutKeepsDistinct(ps: seq<Policy>, id: nat)
    requires DistinctIds(ps)
    ensures DistinctIds(Without(ps, id))
  {
    if ps != [] {
      TailDistinct(ps);
      WithoutKeepsDistinct(ps[1..], id);
      if ps[0].id != id {
        var rest := Without(ps[1..], id);
        forall q | q in rest
          ensures q.id != ps[0].id
        {
          HeadNotLater(ps, q);
        }
        ConsDistinct(ps[0], rest);
      }
    }
  }

  lemma TailDistinct(ps: seq<Policy>)
    requires ps != [] && DistinctIds(ps)
    ensures DistinctIds(ps[1..])
  {
    forall i, j | 0 <= i < j < |ps| - 1
      ensures ps[1..][i].id != ps[1..][j].id
    {
      assert ps[1..][i] == ps[i + 1] && ps[1..][j] == ps[j + 1];
    }
  }

  /** On a list without repeated addresses, the first policy's address is not used later. */
  lemma HeadNotLater(ps: seq<Policy>, q: Policy)
    requires ps != [] && DistinctIds(ps) && q in ps[1..]
    ensures q.id != ps[0].id
  {
    var k :| 0 <= k < |ps[1..]| && ps[1..][k] == q;
    assert ps[k + 1] == q;
  }

  lemma ConsDistinct(x: Policy, rest: seq<Policy>)
    requires DistinctIds(rest) && forall q :: q in rest ==> q.id != x.id
    ensures DistinctIds([x] + rest)
  {
    var r := [x] + rest;
    forall i, j | 0 <= i < j < |r|
      ensures r[i].id != r[j].id
    {
      assert r[j] == rest[j - 1];
      if i == 0 {
        assert rest[j - 1] in rest;
      } else {
        assert r[i] == rest[i - 1];
      }
    }
  }

  // ---------------------------------------------------------------------
  // traverse_dir
  // ---------------------------------------------------------------------

  /** `struct traverse_node`: the directory entry and the inode of a node. */
  datatype Node = Node(entry: Option<DirEntry>, inode: Option<Inode>)

  /** The node the heuristics start their walk from: neither an entry nor an inode. */
  const RootNode: Node := Node(None, None)

  /** A root node that carries the root directory's inode. */
  function RootedNode(root: Inode): Node { Node(None, Some(root)) }

  /** A call of one of the walk's actions. */
  datatype Event = Before(node: Node) | After(node: Node) | Leaf(parent: Node, child: Node)

  /**
   * traverse_dir on the table `files` of the directory `dirNode`. `fuel`
   * bounds the depth: a directory reached with no fuel left is entered
   * and left without being walked.
   */
  function Traverse(v: Volume, files: DirTable, dirNode: Node, fuel: nat): seq<Event>
    reads v, v.sbi
    decreases fuel, 1
  {
    TraverseFrom(v, files, dirNode, 0, fuel)
  }

  /**
   * The slot loop from slot `i`: stop at the first slot holding no inode;
   * a directory is read, announced, walked and closed; any other inode
   * is a leaf reported with the enclosing directory's node. A directory
   * whose table cannot be read ends the walk of the current directory.
   */
  function TraverseFrom(v: Volume, files: DirTable, dirNode: Node, i: nat, fuel: nat): seq<Event>
    requires i <= MaxSubfiles
    reads v, v.sbi
    decreases fuel, 0, MaxSubfiles - i
  {
    if i == MaxSubfiles || files[i].ino == 0 then []
    else
      match Iget(v, files[i].ino)
      case Err(_) => []
      case Ok(node) =>
        if IsDir(node.mode) then
          if node.indexBlock !in v.disk then []
          else
            var sub := Node(Some(files[i]), Some(node));
            var inner := if fuel == 0 then [] else Traverse(v, AsDir(v.disk[node.indexBlock]), sub, fuel - 1);
            [Before(sub)] + inner + [After(sub)] + TraverseFrom(v, files, dirNode, i + 1, fuel)
        else
          [Leaf(dirNode, Node(Some(files[i]), Some(node)))] + TraverseFrom(v, files, dirNode, i + 1, fuel)
  }

  /**
   * Replays events against a stack of open directories: a before opens
   * its node, an after must close the innermost open one, a leaf must
   * name the innermost open one as its parent. None if an event breaks
   * that discipline.
   */
  function Replay(evs: seq<Event>, stack: seq<Node>): Option<seq<Node>>
    requires |stack| >= 1
  {
    if evs == [] then Some(stack)
    else
      match evs[0]
      case Before(n) => Replay(evs[1..], stack + [n])
      case After(n) =>
        if |stack| >= 2 && stack[|stack| - 1] == n then Replay(evs[1..], stack[..|stack| - 1]) else None
      case Leaf(p, _) =>
        if p == stack[|stack| - 1] then Replay(evs[1..], stack) else None
  }

  lemma {:induction false} ReplayAppend(a: seq<Event>, b: seq<Event>, stack: seq<Node>)
    requires |stack| >= 1
    ensures Replay(a + b, stack) ==
      match Replay(a, stack)
      case None => None
      case Some(s) => if |s| >= 1 then Replay(b, s) else None
    decreases |a|
  {
    if a != [] {
      assert (a + b)[0] == a[0] && (a + b)[1..] == a[1..] + b;
      match a[0]
      case Before(n) => ReplayAppend(a[1..], b, stack + [n]);
      case After(n) =>
        if |stack| >= 2 && stack[|stack| - 1] == n {
          ReplayAppend(a[1..], b, stack[..|stack| - 1]);
        }
      case Leaf(p, _) =>
        if p == stack[|stack| - 1] {
          ReplayAppend(a[1..], b, stack);
        }
    } else {
      assert a + b == b;
    }
    ReplayKeepsNonEmpty(a, stack);
  }

  lemma {:induction false} ReplayKeepsNonEmpty(a: seq<Event>, stack: seq<Node>)
    requires |stack| >= 1
    ensures Replay(a, stack).Some? ==> |Replay(a, stack).value| >= 1
    decreases |a|
  {
    if a != [] {
      match a[0]
      case Before(n) => ReplayKeepsNonEmpty(a[1..], stack + [n]);
      case After(n) =>
        if |stack| >= 2 && stack[|stack| - 1] == n {
          ReplayKeepsNonEmpty(a[1..], stack[..|stack| - 1]);
        }
      case Leaf(p, _) =>
        if p == stack[|stack| - 1] {
          ReplayKeepsNonEmpty(a[1..], stack);
        }
    }
  }

  /**
   * The walk is well nested: every before has its after, and every leaf
   * is reported with the node of the directory that holds it; replayed
   * from any stack whose innermost node is the walked directory, the
   * walk leaves the stack as it found it.
   */
  lemma {:induction false} TraverseNests(v: Volume, files: DirTable, dirNode: Node, fuel: nat, stack: seq<Node>)
    requires |stack| >= 1 && stack[|stack| - 1] == dirNode
    ensures Replay(Traverse(v, files, dirNode, fuel), stack) == Some(stack)
    decreases fuel, 1
  {
    TraverseFromNests(v, files, dirNode, 0, fuel, stack);
  }

  lemma {:induction false} TraverseFromNests(v: Volume, files: DirTable, dirNode: Node, i: nat, fuel: nat, stack: seq<Node>)
    requires i <= MaxSubfiles
    requires |stack| >= 1 && stack[|stack| - 1] == dirNode
    ensures Replay(TraverseFrom(v, files, dirNode, i, fuel), stack) == Some(stack)
    decreases fuel, 0, MaxSubfiles - i
  {
    if i == MaxSubfiles || files[i].ino == 0 {
      return;
    }
    match Iget(v, files[i].ino)
    case Err(_) =>
    case Ok(node) =>
      var rest := TraverseFrom(v, files, dirNode, i + 1, fuel);
      TraverseFromNests(v, files, dirNode, i + 1, fuel, stack);
      if IsDir(node.mode) {
        if node.indexBlock in v.disk {
          var sub := Node(Some(files[i]), Some(node));
          var inner := if fuel == 0 then [] else Traverse(v, AsDir(v.disk[node.indexBlock]), sub, fuel - 1);
          var pushed := stack + [sub];
          assert Replay(inner, pushed) == Some(pushed) by {
            if fuel > 0 {
              TraverseNests(v, AsDir(v.disk[node.indexBlock]), sub, fuel - 1, pushed);
            }
          }
          assert Replay([Before(sub)], stack) == Some(pushed);
          assert pushed[..|pushed| - 1] == stack;
          assert Replay([After(sub)], pushed) == Some(stack);
          var evs := [Before(sub)] + inner + [After(sub)] + rest;
          ReplayAppend([Before(sub)] + inner + [After(sub)], rest, stack);
          ReplayAppend([Before(sub)] + inner, [After(sub)], stack);
          ReplayAppend([Before(sub)], inner, stack);
        }
      } else {
        var leaf := Leaf(dirNode, Node(Some(files[i]), Some(node)));
        assert Replay([leaf], stack) == Some(stack);
        ReplayAppend([leaf], rest, stack);
      }
  }

  /**
   * The walk stops at the first slot holding no inode: the slots after
   * it make no difference.
   */
  lemma {:induction false} TraverseStopsAtFirstEmpty(v: Volume, files: DirTable, other: DirTable, dirNode: Node, fuel: nat)
    requires Occupied(files) < MaxSubfiles
    requires forall k :: 0 <= k <= Occupied(files) ==> other[k] == files[k]
    ensures Traverse(v, files, dirNode, fuel) == Traverse(v, other, dirNode, fuel)
  {
    var n := Occupied(files);
    var i := n;
    assert TraverseFrom(v, files, dirNode, n, fuel) == [] == TraverseFrom(v, other, dirNode, n, fuel);
    while i > 0
      invariant 0 <= i <= n
      invariant TraverseFrom(v, files, dirNode, i, fuel) == TraverseFrom(v, other, dirNode, i, fuel)
    {
      i := i - 1;
    }
  }

  /** Every leaf event names a parent and a child that both carry an inode. */
  predicate LeavesCarryInodes(evs: seq<Event>)
  {
    forall k :: 0 <= k < |evs| && evs[k].Leaf? ==> evs[k].parent.inode.Some? && evs[k].child.inode.Some?
  }

  /**
   * Started from a node that carries an inode, the walk reports every
   * leaf with a parent that carries one: every directory it enters is
   * announced with the inode it read.
   */
  lemma {:induction false} WalkFromInodeHasParentInodes(v: Volume, files: DirTable, dirNode: Node, fuel: nat)
    requires dirNode.inode.Some?
    ensures LeavesCarryInodes(Traverse(v, files, dirNode, fuel))
    decreases fuel, 1
  {
    WalkFromHasParentInodes(v, files, dirNode, 0, fuel);
  }

  lemma {:induction false} WalkFromHasParentInodes(v: Volume, files: DirTable, dirNode: Node, i: nat, fuel: nat)
    requires i <= MaxSubfiles
    requires dirNode.inode.Some?
    ensures LeavesCarryInodes(TraverseFrom(v, files, dirNode, i, fuel))
    decreases fuel, 0, MaxSubfiles - i
  {
    if i == MaxSubfiles || files[i].ino == 0 {
      return;
    }
    match Iget(v, files[i].ino)
    case Err(_) =>
    case Ok(node) =>
      var rest := TraverseFrom(v, files, dirNode, i + 1, fuel);
      WalkFromHasParentInodes(v, files, dirNode, i + 1, fuel);
      if IsDir(node.mode) {
        if node.indexBlock in v.disk {
          var sub := Node(Some(files[i]), Some(node));
          var inner := if fuel == 0 then [] else Traverse(v, AsDir(v.disk[node.indexBlock]), sub, fuel - 1);
          if fuel > 0 {
            WalkFromInodeHasParentInodes(v, AsDir(v.disk[node.indexBlock]), sub, fuel - 1);
          }
          var evs := [Before(sub)] + inner + [After(sub)] + rest;
          forall k | 0 <= k < |evs| && evs[k].Leaf?
            ensures evs[k].parent.inode.Some? && evs[k].child.inode.Some?
          {
            if 1 <= k < 1 + |inner| {
              assert evs[k] == inner[k - 1];
            } else if k >= 2 + |inner| {
              assert evs[k] == rest[k - 2 - |inner|];
            }
          }
        }
      } else {
        var evs := [Leaf(dirNode, Node(Some(files[i]), Some(node)))] + rest;
        forall k | 1 <= k < |evs| && evs[k].Leaf?
          ensures evs[k].parent.inode.Some? && evs[k].child.inode.Some?
        {
          assert evs[k] == rest[k - 1];
        }
      }
  }

  /**
   * Started from the inode-less root node, as the heuristics start it, a
   * regular file in the first slot of the root directory is reported
   * with a parent that has no inode.
   */
  lemma RootFileHasNoParentInode(v: Volume, files: DirTable, fuel: nat)
    requires files[0].ino != 0
    requires Iget(v, files[0].ino).Ok? && !IsDir(Iget(v, files[0].ino).value.mode)
    ensures var evs := Traverse(v, files, RootNode, fuel);
      |evs| > 0 && evs[0].Leaf? && evs[0].parent.inode.None?
    ensures !LeavesCarryInodes(Traverse(v, files, RootNode, fuel))
  {
  }

  /** The candidate a heuristic's leaf action keeps: the enclosing directory's node and the file's node. */
  datatype Pick = Pick(parent: Node, child: Node)

  /** The leaf events of a walk, as (enclosing directory, file) pairs in walk order. */
  function Leaves(evs: seq<Event>): (r: seq<Pick>)
    ensures |r| <= |evs|
    ensures LeavesCarryInodes(evs) ==> forall k :: 0 <= k < |r| ==> r[k].parent.inode.Some? && r[k].child.inode.Some?
  {
    if evs == [] then []
    else if evs[0].Leaf? then [Pick(evs[0].parent, evs[0].child)] + Leaves(evs[1..])
    else Leaves(evs[1..])
  }

  // ---------------------------------------------------------------------
  // Keeping the earliest smallest leaf under a key
  // ---------------------------------------------------------------------

  /**
   * A leaf action that keeps the earliest leaf with the smallest key:
   * the first leaf is taken, a later one replaces the candidate only when
   * its key is strictly smaller.
   */
  function MinStep(d: Option<Pick>, leaf: Pick, key: Node -> nat): (r: Option<Pick>)
    ensures r.Some?
    ensures r == Some(leaf) || r == d
  {
    if d.None? then Some(leaf)
    else if key(leaf.child) < key(d.value.child) then Some(leaf)
    else d
  }

  /** The candidate once that leaf action has seen `leaves` in walk order. */
  function MinFold(leaves: seq<Pick>, key: Node -> nat): (r: Option<Pick>)
    ensures r.None? <==> leaves == []
  {
    if leaves == [] then None
    else MinStep(MinFold(leaves[..|leaves| - 1], key), leaves[|leaves| - 1], key)
  }

  /** Leaf `k` has a smallest key, and no earlier leaf has a key as small. */
  predicate EarliestMin(leaves: seq<Pick>, key: Node -> nat, k: nat)
  {
    && k < |leaves|
    && (forall j :: 0 <= j < |leaves| ==> key(leaves[k].child) <= key(leaves[j].child))
    && (forall j :: 0 <= j < k ==> key(leaves[j].child) > key(leaves[k].child))
  }

  /** The position of the earliest leaf with the smallest key, found from the front. */
  function MinIndex(leaves: seq<Pick>, key: Node -> nat): (k: nat)
    requires |leaves| > 0
    ensures EarliestMin(leaves, key, k)
  {
    if |leaves| == 1 then 0
    else
      var k := MinIndex(leaves[1..], key);
      if key(leaves[0].child) <= key(leaves[k + 1].child) then 0 else k + 1
  }

  /** At most one leaf is the earliest with the smallest key. */
  lemma EarliestMinUnique(leaves: seq<Pick>, key: Node -> nat, a: nat, b: nat)
    requires EarliestMin(leaves, key, a) && EarliestMin(leaves, key, b)
    ensures a == b
  {
    var ka, kb := key(leaves[a].child), key(leaves[b].child);
    assert a < b ==> ka > kb;
    assert b < a ==> kb > ka;
  }

  /** The fold keeps the earliest leaf with the smallest key. */
  lemma {:induction false} MinFoldPicksEarliestMin(leaves: seq<Pick>, key: Node -> nat)
    requires |leaves| > 0
    ensures MinFold(leaves, key) == Some(leaves[MinIndex(leaves, key)])
  {
    var n := |leaves|;
    if n == 1 {
      assert MinFold(leaves[..0], key) == None;
      return;
    }
    var p := leaves[..n - 1];
    var x := leaves[n - 1];
    MinFoldPicksEarliestMin(p, key);
    var k := MinIndex(p, key);
    assert leaves == p + [x];
    var m := ExtendEarliest(p, x, key, k);
    EarliestMinUnique(leaves, key, m, MinIndex(leaves, key));
  }

  /** One more leaf: it becomes the earliest smallest exactly when its key is strictly smaller. */
  lemma ExtendEarliest(p: seq<Pick>, x: Pick, key: Node -> nat, k: nat) returns (m: nat)
    requires EarliestMin(p, key, k)
    ensures m == (if key(x.child) < key(p[k].child) then |p| else k)
    ensures EarliestMin(p + [x], key, m)
  {
    var l := p + [x];
    assert forall j :: 0 <= j < |p| ==> l[j] == p[j];
    m := if key(x.child) < key(p[k].child) then |p| else k;
  }
}
