/** The growable array of roots of binary_trees.c. */
module Forests {
  import opened Bytes
  import opened Trees
  import opened BinaryTrees

  /** SIZE_MAX / sizeof(tree_node_t *) where an address takes eight bytes. */
  const MAX_ROOTS: nat := SIZE_MAX / 8

  /** The number of roots a forest can hold once it was given room for `capacity`: it doubles while it may. */
  function Room(capacity: nat): (limit: nat)
    ensures limit >= capacity && (limit == capacity <==> capacity * 2 > MAX_ROOTS)
    ensures limit * 2 > MAX_ROOTS
    decreases if capacity == 0 then MAX_ROOTS + 1 else if capacity <= MAX_ROOTS then MAX_ROOTS - capacity else 0
  {
    if capacity == 0 then Room(1)
    else if capacity * 2 > MAX_ROOTS then capacity
    else Room(capacity * 2)
  }

  /** The trees of `a` followed by the trees of `b`. */
  ghost function Join(a: Shape, b: Shape): Shape {
    match a
    case Nil => b
    case Cell(n, kids, rest) => Cell(n, kids, Join(rest, b))
  }

  lemma {:induction false} JoinShape(a: Shape, b: Shape)
    requires NoSharing(a) && NoSharing(b) && Nodes(a) !! Nodes(b)
    ensures NoSharing(Join(a, b)) && Nodes(Join(a, b)) == Nodes(a) + Nodes(b)
    ensures RootsOf(Join(a, b)) == RootsOf(a) + RootsOf(b)
  {
    if a.Cell? {
      JoinShape(a.rest, b);
    }
  }

  lemma {:induction false} JoinRooted(a: Shape, b: Shape)
    requires Rooted(a) && Rooted(b)
    ensures Rooted(Join(a, b)) && Value(Join(a, b)) == Value(a) + Value(b)
  {
    if a.Cell? {
      JoinRooted(a.rest, b);
      assert Value(Join(a, b)) == [Root(a)] + (Value(a.rest) + Value(b));
    }
  }

  /** The trees from position `i` on. */
  ghost function Drop(s: Shape, i: nat): Shape
    requires i <= |RootsOf(s)|
  {
    if i == 0 then s else Drop(s.rest, i - 1)
  }

  lemma {:induction false} DropStep(s: Shape, i: nat)
    requires i < |RootsOf(s)| && NoSharing(s) && Rooted(s)
    ensures Drop(s, i).Cell? && Drop(s, i).node == RootsOf(s)[i] && Drop(s, i).rest == Drop(s, i + 1)
    ensures NoSharing(Drop(s, i)) && Rooted(Drop(s, i)) && Nodes(Drop(s, i)) <= Nodes(s)
    ensures |Value(s)| == |RootsOf(s)| && Root(Drop(s, i)) == Value(s)[i]
  {
    ValueLength(s);
    if i > 0 {
      DropStep(s.rest, i - 1);
    }
  }

  lemma {:induction false} ValueLength(s: Shape)
    ensures |Value(s)| == |RootsOf(s)|
  {
    if s.Cell? {
      ValueLength(s.rest);
    }
  }

  /** One tree of a forest on its own. */
  ghost function Single(s: Shape): Shape
    requires s.Cell?
  {
    Cell(s.node, s.kids, Nil)
  }

  lemma {:induction false} LastRootId(s: Shape)
    requires s.Cell?
    ensures Value(s) != [] && RootsOf(s) != []
    ensures Last(Value(s)).id == RootsOf(s)[|RootsOf(s)| - 1].id
  {
    if s.rest.Cell? {
      LastRootId(s.rest);
    }
  }

  /** Appending below the last root extends the last tree. */
  lemma {:induction false} GrownLast(s: Shape, leaf: Tree)
    requires s.Cell? && NoSharing(s)
    ensures RootsOf(s) != [] && RootsOf(s)[|RootsOf(s)| - 1] in Nodes(s) && Value(s) != []
    ensures GrownValue(s, RootsOf(s)[|RootsOf(s)| - 1], leaf) == Extend(Value(s), [leaf])
  {
    ValueLength(s);
    if s.rest.Cell? {
      var last := RootsOf(s.rest)[|RootsOf(s.rest)| - 1];
      ValueLength(s.rest);
      GrownLast(s.rest, leaf);
      GrownValueAbsent(s.kids, last, leaf);
      assert last == RootsOf(s)[|RootsOf(s)| - 1];
      assert Value(s) == [Root(s)] + Value(s.rest);
    }
  }

  /** tree_add_child_n on the last root of a forest of shape `s`. */
  method GrowLast(branch: TreeNode, id: nat, name: ByteString, ghost s: Shape)
    returns (ghost s': Shape, ghost owned: set<TreeNode>)
    requires s.Cell? && NoSharing(s) && Rooted(s) && RootsOf(s) != [] && branch == RootsOf(s)[|RootsOf(s)| - 1]
    modifies Nodes(s)
    ensures NoSharing(s') && Rooted(s') && RootsOf(s') == RootsOf(s) && owned == Nodes(s') && s'.Cell?
    ensures branch.id == old(branch.id)
    ensures fresh(owned - Nodes(s)) && Nodes(s) <= owned
    ensures Value(s') == if |name| == SIZE_MAX then old(Value(s)) else Extend(old(Value(s)), [Leaf(id, name)])
  {
    GrownLast(s, Leaf(id, name));
    LastRootId(s);
    s' := AddChildN(branch, id, Some(name), s);
    owned := Nodes(s');
    LastRootId(s');
  }

  class Forest {
    var roots: array<TreeNode?>
    var count: nat
    var capacity: nat
    ghost var shape: Shape
    ghost var nodes: set<TreeNode>

    /** The tree the last call of Add refused, Nil when it took it over; its nodes stay with the caller. */
    ghost var loose: Shape
    ghost var looseNodes: set<TreeNode>

    ghost predicate Valid()
      reads this, roots, nodes
    {
      && roots.Length == capacity <= MAX_ROOTS
      && count <= capacity
      && roots[..count] == RootsOf(shape)
      && nodes == Nodes(shape) && NoSharing(shape) && Rooted(shape)
    }

    ghost function Contents(): seq<Tree>
      requires Valid()
      reads this, roots, nodes
    {
      Value(shape)
    }

    constructor (capacity: nat)
      requires 0 < capacity <= MAX_ROOTS
      ensures Valid() && fresh(roots) && shape == Nil && nodes == {} && count == 0 && this.capacity == capacity
      ensures loose == Nil && looseNodes == {}
    {
      this.count, this.capacity, this.shape, this.nodes := 0, capacity, Nil, {};
      this.loose, this.looseNodes := Nil, {};
      this.roots := new TreeNode?[capacity](_ => null);
    }

    /** tree_create_forest; the only refusal is a capacity whose array size would overflow. */
    static method Create(initialCapacity: nat) returns (f: Forest?)
      ensures f == null <==> initialCapacity > MAX_ROOTS
      ensures f != null ==> fresh(f) && fresh(f.roots) && f.nodes == {} && f.Valid() && f.Contents() == [] && f.count == 0
      ensures f != null ==> f.looseNodes == {}
      ensures f != null ==> f.capacity == if initialCapacity == 0 then 1 else initialCapacity
    {
      var c := if initialCapacity == 0 then 1 else initialCapacity;
      if c > MAX_ROOTS {
        return null;
      }
      f := new Forest(c);
    }

    /** The array growth inside tree_add_to_forest; false when a size check refuses it. */
    method MakeRoom() returns (ok: bool)
      requires Valid()
      modifies `roots, `capacity
      ensures Valid() && ok == (count < old(Room(capacity))) && (ok ==> count < capacity)
      ensures Room(capacity) == old(Room(capacity)) && Contents() == old(Contents())
      ensures roots == old(roots) || fresh(roots)
      ensures capacity >= old(capacity)
    {
      if count >= capacity {
        var newCapacity;
        if capacity == 0 {
          newCapacity := 1;
        } else if capacity > SIZE_MAX / 2 {
          return false;
        } else {
          newCapacity := capacity * 2;
        }
        if newCapacity > MAX_ROOTS {
          return false;
        }
        var newRoots := new TreeNode?[newCapacity](_ => null);
        forall i | 0 <= i < count {
          newRoots[i] := roots[i];
        }
        assert newRoots[..count] == roots[..count];
        roots := newRoots;
        capacity := newCapacity;
      }
      return true;
    }

    /** The forest has taken over the tree of shape `s` as its last one. */
    twostate predicate TookOver(root: TreeNode, s: Shape)
      requires old(Valid()) && Valid() && forall n :: n in Nodes(s) ==> old(allocated(n))
      reads this, roots, nodes, Nodes(s)
    {
      && shape == Join(old(shape), s) && nodes == old(nodes) + Nodes(s)
      && count == old(count) + 1 && roots[count - 1] == root
      && Contents() == old(Contents()) + old(Value(s))
      && loose == Nil && looseNodes == {}
    }

    /** The forest holds what it held; the tree of shape `s` stays outside. */
    twostate predicate Refused(s: Shape)
      requires old(Valid()) && Valid()
      reads this, roots, nodes
    {
      && shape == old(shape) && nodes == old(nodes) && count == old(count) && Contents() == old(Contents())
      && loose == s && looseNodes == Nodes(s)
    }

    /** tree_add_to_forest: takes over a tree, doubling the array when it is full. */
    method Add(root: TreeNode?, ghost s: Shape)
      requires Valid()
      requires root != null ==> s.Cell? && s.node == root && s.rest.Nil? && NoSharing(s) && Rooted(s)
      requires root != null ==> Nodes(s) !! nodes
      requires forall n :: n in Nodes(s) ==> allocated(n)
      modifies this, roots
      ensures Valid() && (roots == old(roots) || fresh(roots)) && Room(capacity) == old(Room(capacity))
      ensures root == null ==> unchanged(this) && unchanged(old(roots))
      ensures root != null && old(count) >= Room(capacity) ==> Refused(s)
      ensures root != null && old(count) < Room(capacity) ==> TookOver(root, s)
    {
      if root == null {
        return;
      }
      var ok := MakeRoom();
      if ok {
        Store(root, s);
      } else {
        BookLoose(s, Nodes(s));
      }
    }

    /** The writes that hand a tree over. */
    method Store(root: TreeNode, ghost s: Shape)
      requires Valid() && count < capacity && Nodes(s) !! nodes
      requires s.Cell? && s.node == root && s.rest.Nil? && NoSharing(s) && Rooted(s)
      requires forall n :: n in Nodes(s) ==> allocated(n)
      modifies this, roots
      ensures Valid() && roots == old(roots) && capacity == old(capacity)
      ensures TookOver(root, s)
    {
      JoinShape(shape, s);
      JoinRooted(shape, s);
      assert RootsOf(s) == [root];
      Append(root, Join(shape, s), nodes + Nodes(s));
      BookLoose(Nil, {});
    }

    method Append(root: TreeNode, ghost joined: Shape, ghost owned: set<TreeNode>)
      requires Valid() && count < capacity && NoSharing(joined) && Rooted(joined)
      requires RootsOf(joined) == RootsOf(shape) + [root] && owned == Nodes(joined)
      modifies this`count, this`shape, this`nodes, roots
      ensures Valid() && shape == joined && nodes == owned && Contents() == old(Value(joined))
      ensures count == old(count) + 1 && roots[count - 1] == root
    {
      PutRoot(root);
      BookShape(joined, owned);
    }

    method PutRoot(root: TreeNode)
      requires roots.Length == capacity && count < capacity
      modifies this`count, roots
      ensures count == old(count) + 1 && roots[..count] == old(roots[..count]) + [root] && roots[count - 1] == root
    {
      roots[count] := root;
      count := count + 1;
    }

    /**
     * The branch the parser appends to: the root given to Add last, whether it was taken over or has to
     * live on as a tree of its own.
     */
    ghost predicate IsBranch(branch: TreeNode)
      reads this, roots, nodes, looseNodes
    {
      Valid() &&
      if loose.Nil? then count > 0 && branch == roots[count - 1]
      else
        && loose.node == branch && loose.rest.Nil? && NoSharing(loose)
        && looseNodes == Nodes(loose) && Rooted(loose) && looseNodes !! nodes
    }

    /** tree_add_child_n on the branch, with the forest's own books kept. */
    method AddChildToBranch(branch: TreeNode, id: nat, name: ByteString)
      requires IsBranch(branch)
      modifies this, nodes, looseNodes
      ensures IsBranch(branch) && loose.Nil? == old(loose.Nil?) && branch.id == old(branch.id)
      ensures roots == old(roots) && count == old(count) && capacity == old(capacity)
      ensures fresh(nodes - old(nodes)) && fresh(looseNodes - old(looseNodes))
      ensures Contents() == if |name| == SIZE_MAX || loose.Cell? then old(Contents())
                            else Extend(old(Contents()), [Leaf(id, name)])
    {
      ghost var kept := loose.Cell?;
      ghost var s := if kept then loose else shape;
      ghost var grown, owned := GrowLast(branch, id, name, s);
      if kept {
        assert Valid() && Value(shape) == old(Value(shape));
        assert RootsOf(grown) == [branch];
        BookLoose(grown, owned);
      } else {
        BookShape(grown, owned);
      }
    }

    ghost method BookLoose(grown: Shape, owned: set<TreeNode>)
      requires Valid()
      modifies this`loose, this`looseNodes
      ensures loose == grown && looseNodes == owned && Valid() && Contents() == old(Contents())
    {
      loose, looseNodes := grown, owned;
    }

    ghost method BookShape(grown: Shape, owned: set<TreeNode>)
      requires roots.Length == capacity <= MAX_ROOTS && count <= capacity && roots[..count] == RootsOf(grown)
      requires owned == Nodes(grown) && NoSharing(grown) && Rooted(grown)
      modifies this`shape, this`nodes
      ensures shape == grown && nodes == owned && Valid() && Contents() == old(Value(grown))
    {
      shape, nodes := grown, owned;
    }

    /** tree_find_root: `k` is the position of the answer, or the number of roots. */
    method FindRootNode(id: nat) returns (r: TreeNode?, ghost k: nat)
      requires Valid()
      ensures k <= count && (r == null <==> k == count)
      ensures k < count ==> r == roots[k] && Drop(shape, k).Cell?
      ensures k < count ==> Linked(r, Single(Drop(shape, k))) && NoSharing(Single(Drop(shape, k)))
      ensures FindRoot(Contents(), id) == if r == null then None else Some(Root(Drop(shape, k)))
      ensures r == null <==> FindRoot(Contents(), id).None?
      ensures r != null ==> FindRoot(Contents(), id).value.name == r.name && r.id == id
    {
      ValueLength(shape);
      for i := 0 to count
        invariant forall j :: 0 <= j < i ==> Contents()[j].id != id
      {
        DropStep(shape, i);
        assert roots[i] == roots[..count][i];
        if roots[i].id == id {
          FindRootIs(Contents(), id, i);
          return roots[i], i;
        }
      }
      FindRootIs(Contents(), id, count);
      return null, count;
    }

    /** tree_destroy_forest: releases every node and name, the array and the record, each exactly once. */
    method Destroy(heap: Heap)
      requires Valid() && Owned(heap, nodes) && roots in heap.live && this in heap.live
      modifies heap
      ensures heap.live == old(heap.live) - nodes - {roots, this} && heap.names == old(heap.names) - nodes
    {
      ghost var todo := shape;
      ghost var done: set<TreeNode> := {};
      for i := 0 to count
        invariant Rooted(todo) && NoSharing(todo) && RootsOf(todo) == RootsOf(shape)[i..]
        invariant done + Nodes(todo) == nodes && done !! Nodes(todo)
        invariant Owned(heap, Nodes(todo)) && Released(heap, done)
      {
        assert todo.Cell? && roots[..count][i] == todo.node && RootsOf(todo)[1..] == RootsOf(shape)[i + 1..];
        TreeFree(roots[i], heap, Single(todo));
        done := done + Nodes(Single(todo));
        todo := todo.rest;
      }
      assert todo.Nil? && done == nodes;
      heap.Free(roots);
      heap.Free(this);
    }
  }
}
