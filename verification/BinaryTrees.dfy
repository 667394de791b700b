/** The heap structure of binary_trees.c: first-child / last-child / next-sibling nodes. */
module BinaryTrees {
  import opened Bytes
  import opened Trees

  class TreeNode {
    var id: nat
    var name: ByteString
    var firstChild: TreeNode?
    var lastChild: TreeNode?
    var nextSibling: TreeNode?

    constructor (id: nat, name: ByteString)
      ensures this.id == id && this.name == name
      ensures firstChild == null && lastChild == null && nextSibling == null
    {
      this.id, this.name := id, name;
      firstChild, lastChild, nextSibling := null, null, null;
    }
  }

  /** The links a sibling chain is meant to have: this node, the chain below it, the chain after it. */
  datatype Shape = Nil | Cell(node: TreeNode, kids: Shape, rest: Shape)

  ghost function Nodes(s: Shape): set<TreeNode> {
    match s
    case Nil => {}
    case Cell(n, kids, rest) => {n} + Nodes(kids) + Nodes(rest)
  }

  /** No node occurs twice, so the links can neither meet nor run in a circle. */
  ghost predicate NoSharing(s: Shape) {
    match s
    case Nil => true
    case Cell(n, kids, rest) =>
      && n !in Nodes(kids) && n !in Nodes(rest) && Nodes(kids) !! Nodes(rest)
      && NoSharing(kids) && NoSharing(rest)
  }

  ghost function LastOf(s: Shape): (n: TreeNode?)
    ensures s.Cell? ==> n != null && n in Nodes(s)
  {
    match s
    case Nil => null
    case Cell(n, _, rest) => if rest.Nil? then n else LastOf(rest)
  }

  /** The heap below `head` has the shape `s`; every last_child ends its own chain of children. */
  ghost predicate Linked(head: TreeNode?, s: Shape)
    reads Nodes(s)
  {
    match s
    case Nil => head == null
    case Cell(n, kids, rest) =>
      && head == n
      && Linked(n.firstChild, kids) && n.lastChild == LastOf(kids)
      && Linked(n.nextSibling, rest)
  }

  ghost function Size(s: Shape): nat {
    match s
    case Nil => 0
    case Cell(_, kids, rest) => 1 + Size(kids) + Size(rest)
  }

  /** The value a linked shape stands for. */
  ghost function Value(s: Shape): seq<Tree>
    reads Nodes(s)
  {
    match s
    case Nil => []
    case Cell(n, kids, rest) => [Tree(n.id, n.name, Value(kids))] + Value(rest)
  }

  lemma {:induction false} ValueSize(s: Shape)
    ensures |Preorder(Value(s))| == Size(s)
  {
    if s.Cell? {
      ValueSize(s.kids);
      ValueSize(s.rest);
      assert Value(s)[1..] == Value(s.rest);
    }
  }

  /** The first tree of a chain. */
  ghost function Root(s: Shape): Tree
    requires s.Cell?
    reads Nodes(s)
  {
    Tree(s.node.id, s.node.name, Value(s.kids))
  }

  /** `s` with the fresh node `c` appended at the end. */
  ghost function Snoc(s: Shape, c: TreeNode): Shape {
    match s
    case Nil => Cell(c, Nil, Nil)
    case Cell(n, kids, rest) => Cell(n, kids, Snoc(rest, c))
  }

  /** `s` with the fresh node `c` appended below `parent`, wherever it stands. */
  ghost function Grown(s: Shape, parent: TreeNode, c: TreeNode): Shape {
    match s
    case Nil => Nil
    case Cell(n, kids, rest) =>
      if n == parent then Cell(n, Snoc(kids, c), rest)
      else Cell(n, Grown(kids, parent, c), Grown(rest, parent, c))
  }

  ghost function KidsOf(s: Shape, parent: TreeNode): (kids: Shape)
    requires parent in Nodes(s)
    ensures Nodes(kids) <= Nodes(s)
  {
    if s.node == parent then s.kids
    else if parent in Nodes(s.kids) then KidsOf(s.kids, parent)
    else KidsOf(s.rest, parent)
  }

  lemma {:induction false} SnocShape(s: Shape, c: TreeNode)
    ensures Nodes(Snoc(s, c)) == Nodes(s) + {c}
    ensures LastOf(Snoc(s, c)) == c
    ensures NoSharing(s) && c !in Nodes(s) ==> NoSharing(Snoc(s, c))
  {
    if s.Cell? {
      SnocShape(s.rest, c);
    }
  }

  lemma {:induction false} GrownShape(s: Shape, parent: TreeNode, c: TreeNode)
    requires NoSharing(s) && c !in Nodes(s)
    ensures parent !in Nodes(s) ==> Grown(s, parent, c) == s
    ensures parent in Nodes(s) ==> Nodes(Grown(s, parent, c)) == Nodes(s) + {c}
    ensures NoSharing(Grown(s, parent, c))
    ensures LastOf(Grown(s, parent, c)) == LastOf(s)
  {
    if s.Cell? {
      if s.node == parent {
        SnocShape(s.kids, c);
      } else {
        GrownShape(s.kids, parent, c);
        GrownShape(s.rest, parent, c);
      }
    }
  }

  lemma {:induction false} KidsLinked(head: TreeNode?, s: Shape, parent: TreeNode)
    requires Linked(head, s) && NoSharing(s) && parent in Nodes(s)
    ensures Nodes(KidsOf(s, parent)) <= Nodes(s) && parent !in Nodes(KidsOf(s, parent))
    ensures Linked(parent.firstChild, KidsOf(s, parent)) && NoSharing(KidsOf(s, parent))
    ensures parent.lastChild == LastOf(KidsOf(s, parent))
  {
    if s.node != parent {
      if parent in Nodes(s.kids) {
        KidsLinked(s.node.firstChild, s.kids, parent);
      } else {
        KidsLinked(s.node.nextSibling, s.rest, parent);
      }
    }
  }

  twostate predicate Untouched(n: TreeNode)
    reads n
  {
    unchanged(n)
  }

  /** Only next_sibling has been written. */
  twostate predicate SameButSibling(n: TreeNode)
    reads n
  {
    n.id == old(n.id) && n.name == old(n.name) && n.firstChild == old(n.firstChild) && n.lastChild == old(n.lastChild)
  }

  /** Setting the last node's next_sibling to `c` appends `c` to a chain. */
  twostate lemma {:induction false} SnocLinked(s: Shape, new c: TreeNode)
    requires s.Cell? && NoSharing(s) && old(Linked(s.node, s))
    requires forall n :: n in Nodes(s) && n != LastOf(s) ==> old(allocated(n)) && Untouched(n)
    requires old(allocated(LastOf(s))) && SameButSibling(LastOf(s)) && LastOf(s).nextSibling == c
    requires c.firstChild == null && c.lastChild == null && c.nextSibling == null
    ensures Linked(s.node, Snoc(s, c))
    ensures Value(Snoc(s, c)) == old(Value(s)) + [Leaf(c.id, c.name)]
  {
    assert forall n :: n in Nodes(s.kids) ==> Untouched(n);
    if s.rest.Cell? {
      SnocLinked(s.rest, c);
    }
  }

  /** The preorder position of a node. */
  ghost function Position(s: Shape, n: TreeNode): (k: nat)
    requires n in Nodes(s)
    ensures k < Size(s)
  {
    if s.node == n then 0
    else if n in Nodes(s.kids) then 1 + Position(s.kids, n)
    else 1 + Size(s.kids) + Position(s.rest, n)
  }

  /** The writes of tree_add_child_n, seen from the parent whose chain of children was `kids`. */
  twostate predicate Appended(new parent: TreeNode, kids: Shape, new c: TreeNode)
    requires old(allocated(parent)) && forall n :: n in Nodes(kids) ==> old(allocated(n))
    reads {parent, c} + Nodes(kids)
  {
    && parent.id == old(parent.id) && parent.name == old(parent.name) && parent.nextSibling == old(parent.nextSibling)
    && parent.lastChild == c
    && c.firstChild == null && c.lastChild == null && c.nextSibling == null
    && (if kids.Nil? then parent.firstChild == c
        else parent.firstChild == old(parent.firstChild)
             && SameButSibling(LastOf(kids)) && LastOf(kids).nextSibling == c)
    && forall n :: n in Nodes(kids) && n != LastOf(kids) ==> Untouched(n)
  }

  twostate lemma AppendedBelow(new parent: TreeNode, kids: Shape, new c: TreeNode)
    requires old(allocated(parent)) && forall n :: n in Nodes(kids) ==> old(allocated(n))
    requires NoSharing(kids) && old(Linked(parent.firstChild, kids)) && parent.lastChild == c
    requires Appended(parent, kids, c)
    ensures Linked(parent.firstChild, Snoc(kids, c)) && parent.lastChild == LastOf(Snoc(kids, c))
    ensures Value(Snoc(kids, c)) == old(Value(kids)) + [Leaf(c.id, c.name)]
  {
    SnocShape(kids, c);
    if kids.Cell? {
      SnocLinked(kids, c);
    }
  }

  /** The value of `s` once `leaf` is appended below `parent`. */
  ghost function GrownValue(s: Shape, parent: TreeNode, leaf: Tree): seq<Tree>
    reads Nodes(s)
  {
    match s
    case Nil => []
    case Cell(n, kids, rest) =>
      if n == parent then [Tree(n.id, n.name, Value(kids) + [leaf])] + Value(rest)
      else [Tree(n.id, n.name, GrownValue(kids, parent, leaf))] + GrownValue(rest, parent, leaf)
  }

  lemma {:induction false} GrownValueAbsent(s: Shape, parent: TreeNode, leaf: Tree)
    requires parent !in Nodes(s)
    ensures GrownValue(s, parent, leaf) == Value(s)
  {
    if s.Cell? {
      GrownValueAbsent(s.kids, parent, leaf);
      GrownValueAbsent(s.rest, parent, leaf);
    }
  }

  lemma GrownValueHere(s: Shape, leaf: Tree)
    requires s.Cell?
    ensures GrownValue(s, s.node, leaf) == AppendAt(Value(s), 0, leaf)
  {
    AppendAtCases(Root(s), Value(s.rest), 0, leaf);
  }

  lemma GrownValueBelow(s: Shape, parent: TreeNode, leaf: Tree, k: nat)
    requires s.Cell? && s.node != parent && k < Size(s.kids)
    requires GrownValue(s.kids, parent, leaf) == AppendAt(Value(s.kids), k, leaf)
    requires GrownValue(s.rest, parent, leaf) == Value(s.rest)
    ensures GrownValue(s, parent, leaf) == AppendAt(Value(s), k + 1, leaf)
  {
    ValueSize(s.kids);
    AppendAtCases(Root(s), Value(s.rest), k, leaf);
  }

  lemma GrownValueAfter(s: Shape, parent: TreeNode, leaf: Tree, k: nat)
    requires s.Cell? && s.node != parent
    requires GrownValue(s.kids, parent, leaf) == Value(s.kids)
    requires GrownValue(s.rest, parent, leaf) == AppendAt(Value(s.rest), k, leaf)
    ensures GrownValue(s, parent, leaf) == AppendAt(Value(s), 1 + Size(s.kids) + k, leaf)
  {
    ValueSize(s.kids);
    AppendAtCases(Root(s), Value(s.rest), k, leaf);
  }

  /** In terms of values alone: the leaf goes to the node at the parent's preorder position. */
  lemma {:induction false} GrownValueAt(s: Shape, parent: TreeNode, leaf: Tree)
    requires NoSharing(s) && parent in Nodes(s)
    ensures GrownValue(s, parent, leaf) == AppendAt(Value(s), Position(s, parent), leaf)
  {
    if s.node == parent {
      GrownValueHere(s, leaf);
    } else if parent in Nodes(s.kids) {
      assert parent !in Nodes(s.rest);
      GrownValueAbsent(s.rest, parent, leaf);
      var k := Position(s.kids, parent);
      GrownValueAt(s.kids, parent, leaf);
      GrownValueBelow(s, parent, leaf, k);
      assert Position(s, parent) == k + 1;
    } else {
      assert parent in Nodes(s.rest);
      GrownValueAbsent(s.kids, parent, leaf);
      var k := Position(s.rest, parent);
      GrownValueAt(s.rest, parent, leaf);
      GrownValueAfter(s, parent, leaf, k);
      assert Position(s, parent) == 1 + Size(s.kids) + k;
    }
  }

  /** The top nodes of a chain, in order. */
  ghost function RootsOf(s: Shape): seq<TreeNode> {
    match s
    case Nil => []
    case Cell(n, _, rest) => [n] + RootsOf(rest)
  }

  lemma {:induction false} GrownRoots(s: Shape, parent: TreeNode, c: TreeNode)
    ensures RootsOf(Grown(s, parent, c)) == RootsOf(s)
  {
    if s.Cell? {
      GrownRoots(s.rest, parent, c);
    }
  }

  /** What tree_add_child_n has written, seen from a chain that may or may not hold the parent. */
  twostate predicate WroteBelow(s: Shape, new parent: TreeNode, new c: TreeNode)
    requires forall n :: n in Nodes(s) ==> old(allocated(n))
    reads Nodes(s), parent, c
  {
    && (parent in Nodes(s) ==> Appended(parent, KidsOf(s, parent), c))
    && forall n :: n in Nodes(s) && n != parent && (parent in Nodes(s) ==> n !in Nodes(KidsOf(s, parent))) ==> Untouched(n)
  }

  /** Appending below a node of a chain leaves the chain linked, with one leaf more below that node. */
  twostate lemma {:induction false} GrownLinked(s: Shape, new parent: TreeNode, new c: TreeNode, new leaf: Tree)
    requires old(allocated(parent)) && leaf == Leaf(c.id, c.name)
    requires forall n :: n in Nodes(s) ==> old(allocated(n))
    requires NoSharing(s) && c !in Nodes(s) && (s.Cell? ==> old(Linked(s.node, s)))
    requires WroteBelow(s, parent, c)
    ensures s.Cell? ==> Linked(s.node, Grown(s, parent, c))
    ensures Value(Grown(s, parent, c)) == old(GrownValue(s, parent, leaf))
  {
    if s.Cell? {
      if s.node == parent {
        AppendedBelow(parent, s.kids, c);
        assert forall n :: n in Nodes(s.rest) ==> Untouched(n);
      } else {
        GrownShape(s.kids, parent, c);
        assert old(Linked(s.node.firstChild, s.kids) && Linked(s.node.nextSibling, s.rest));
        GrownLinked(s.kids, parent, c, leaf);
        GrownLinked(s.rest, parent, c, leaf);
      }
    }
  }

  lemma {:induction false} NodesAllocated(s: Shape)
    ensures forall n :: n in Nodes(s) ==> allocated(n)
  {
    if s.Cell? {
      NodesAllocated(s.kids);
      NodesAllocated(s.rest);
    }
  }

  // ----- Trees of a forest: the same links, but roots have no siblings ---------------------------

  /** Every tree of `s` is linked; the order of the trees themselves is kept outside the heap nodes. */
  ghost predicate Rooted(s: Shape)
    reads Nodes(s)
  {
    match s
    case Nil => true
    case Cell(n, kids, rest) =>
      && Linked(n.firstChild, kids) && n.lastChild == LastOf(kids) && n.nextSibling == null
      && Rooted(rest)
  }

  lemma {:induction false} KidsRooted(s: Shape, parent: TreeNode)
    requires Rooted(s) && NoSharing(s) && parent in Nodes(s)
    ensures parent !in Nodes(KidsOf(s, parent))
    ensures Linked(parent.firstChild, KidsOf(s, parent)) && NoSharing(KidsOf(s, parent))
    ensures parent.lastChild == LastOf(KidsOf(s, parent))
  {
    if s.node != parent {
      if parent in Nodes(s.kids) {
        KidsLinked(s.node.firstChild, s.kids, parent);
      } else {
        KidsRooted(s.rest, parent);
      }
    }
  }

  /** Appending below a node of a forest leaves all its trees linked. */
  twostate lemma {:induction false} GrownRooted(s: Shape, new parent: TreeNode, new c: TreeNode, new leaf: Tree)
    requires old(allocated(parent)) && leaf == Leaf(c.id, c.name)
    requires forall n :: n in Nodes(s) ==> old(allocated(n))
    requires NoSharing(s) && c !in Nodes(s) && old(Rooted(s))
    requires WroteBelow(s, parent, c)
    ensures Rooted(Grown(s, parent, c))
    ensures Value(Grown(s, parent, c)) == old(GrownValue(s, parent, leaf))
  {
    if s.Cell? {
      if s.node == parent {
        AppendedBelow(parent, s.kids, c);
        assert forall n :: n in Nodes(s.rest) ==> Untouched(n);
      } else {
        GrownShape(s.kids, parent, c);
        assert old(Linked(s.node.firstChild, s.kids));
        GrownLinked(s.kids, parent, c, leaf);
        GrownRooted(s.rest, parent, c, leaf);
      }
    }
  }

  // ----- tree_create_node_n, tree_add_child_n, tree_find, tree_free ---------------------------

  /** A name the functions refuse: NULL, or too long for a terminator. */
  predicate BadName(name: Option<ByteString>) {
    name.None? || |name.value| == SIZE_MAX
  }

  method CreateNodeN(id: nat, name: Option<ByteString>) returns (n: TreeNode?)
    ensures n == null <==> BadName(name)
    ensures n != null ==> fresh(n) && n.id == id && n.name == name.value
    ensures n != null ==> n.firstChild == null && n.lastChild == null && n.nextSibling == null
  {
    if name.None? || |name.value| == SIZE_MAX {
      return null;
    }
    n := new TreeNode(id, name.value);
  }

  /** Appends a child in constant time below any node of a chain or of a forest of shape `s`. */
  method AddChildN(parent: TreeNode?, id: nat, name: Option<ByteString>, ghost s: Shape) returns (ghost s': Shape)
    requires parent != null ==> parent in Nodes(s) && NoSharing(s) && (Linked(s.node, s) || Rooted(s))
    modifies Nodes(s)
    ensures parent == null || BadName(name) ==> s' == s && Value(s') == old(Value(s))
    ensures parent != null && !BadName(name) ==>
      && s'.Cell? && s'.node == s.node && NoSharing(s')
      && fresh(Nodes(s') - Nodes(s)) && Nodes(s) < Nodes(s')
      && RootsOf(s') == RootsOf(s)
      && Value(s') == old(GrownValue(s, parent, Leaf(id, name.value)))
    ensures parent != null && old(Linked(s.node, s)) ==> Linked(s.node, s')
    ensures parent != null && old(Rooted(s)) ==> Rooted(s')
  {
    s' := s;
    NodesAllocated(s);
    if parent == null {
      return;
    }
    var c := CreateNodeN(id, name);
    if c == null {
      return;
    }
    GrownShape(s, parent, c);
    GrownRoots(s, parent, c);
    label before:
    LinkLast(parent, c, s);
    s' := Grown(s, parent, c);
    if old(Linked(s.node, s)) {
      GrownLinked@before(s, parent, c, Leaf(id, name.value));
    }
    if old(Rooted(s)) {
      GrownRooted@before(s, parent, c, Leaf(id, name.value));
    }
  }

  /** The link writes of tree_add_child_n. */
  method LinkLast(parent: TreeNode, c: TreeNode, ghost s: Shape)
    requires parent in Nodes(s) && NoSharing(s) && (Linked(s.node, s) || Rooted(s)) && c !in Nodes(s)
    requires c.firstChild == null && c.lastChild == null && c.nextSibling == null
    requires forall n :: n in Nodes(s) ==> allocated(n)
    modifies Nodes(s)
    ensures WroteBelow(s, parent, c)
  {
    if Linked(s.node, s) {
      KidsLinked(s.node, s, parent);
    } else {
      KidsRooted(s, parent);
    }
    if parent.lastChild != null {
      parent.lastChild.nextSibling := c;
    } else {
      parent.firstChild := c;
    }
    parent.lastChild := c;
    assert Appended(parent, KidsOf(s, parent), c);
  }

  /** tree_find: the node itself, then everything below it, then its later siblings. */
  function TreeFind(root: TreeNode?, target: nat, ghost s: Shape): (r: TreeNode?)
    requires Linked(root, s)
    reads Nodes(s)
    ensures r != null ==> r in Nodes(s) && r.id == target
    decreases s
  {
    if root == null then null
    else if root.id == target then root
    else
      var found := TreeFind(root.firstChild, target, s.kids);
      if found != null then found else TreeFind(root.nextSibling, target, s.rest)
  }

  /** The tree a node of a shape stands for. */
  ghost function TreeAt(s: Shape, n: TreeNode): Tree
    requires n in Nodes(s)
    reads Nodes(s)
  {
    Tree(n.id, n.name, Value(KidsOf(s, n)))
  }

  /** tree_find computes the first preorder match of the value. */
  lemma {:induction false} TreeFindFinds(root: TreeNode?, target: nat, s: Shape)
    requires Linked(root, s) && NoSharing(s)
    ensures var r := TreeFind(root, target, s);
      Find(Value(s), target) == if r == null then None else Some(TreeAt(s, r))
  {
    if root != null {
      assert Value(s)[1..] == Value(s.rest);
      TreeFindFinds(root.firstChild, target, s.kids);
      TreeFindFinds(root.nextSibling, target, s.rest);
    }
  }

  /** The allocator's view: the blocks and the name strings handed out and not given back yet. */
  class Heap {
    ghost var live: set<object>
    ghost var names: set<TreeNode>

    /** free() of a node, an array or a record; a second free of the same block is a violation. */
    method Free(block: object)
      requires block in live
      modifies this
      ensures live == old(live) - {block} && names == old(names)
    {
      live := live - {block};
    }

    /** free() of the name string of a node, which has to be there still to read the link to it. */
    method FreeName(n: TreeNode)
      requires n in live && n in names
      modifies this
      ensures names == old(names) - {n} && live == old(live)
    {
      names := names - {n};
    }

    /** Following a link of a released node is a violation too. */
    method NextSibling(n: TreeNode) returns (next: TreeNode?)
      requires n in live
      ensures next == n.nextSibling
    {
      next := n.nextSibling;
    }

    method FirstChild(n: TreeNode) returns (child: TreeNode?)
      requires n in live
      ensures child == n.firstChild
    {
      child := n.firstChild;
    }
  }

  /** All the nodes of a set, with their names, are still to be released. */
  ghost predicate Owned(heap: Heap, nodes: set<TreeNode>)
    reads heap
  {
    nodes <= heap.live && nodes <= heap.names
  }

  /** Since then just these nodes have been released, with their names. */
  twostate predicate Released(heap: Heap, nodes: set<TreeNode>)
    reads heap
  {
    heap.live == old(heap.live) - nodes && heap.names == old(heap.names) - nodes
  }

  /** Releases the first node of a chain and everything below it. */
  method FreeFirst(node: TreeNode, heap: Heap, ghost s: Shape)
    requires s.Cell? && Linked(node, s) && NoSharing(s) && Owned(heap, Nodes(s))
    modifies heap
    ensures Released(heap, {node} + Nodes(s.kids))
    decreases s, 0
  {
    var child := heap.FirstChild(node);
    if child != null {
      TreeFree(child, heap, s.kids);
    }
    heap.FreeName(node);
    heap.Free(node);
  }

  /** Releases every node of a chain and its name exactly once and follows no link of a released node. */
  method TreeFree(root: TreeNode?, heap: Heap, ghost s: Shape)
    requires Linked(root, s) && NoSharing(s) && Owned(heap, Nodes(s))
    modifies heap
    ensures Released(heap, Nodes(s))
    decreases s, 1
  {
    var node := root;
    ghost var todo := s;
    ghost var done: set<TreeNode> := {};
    while node != null
      invariant Linked(node, todo) && NoSharing(todo) && (todo == s || todo < s)
      invariant done + Nodes(todo) == Nodes(s) && done !! Nodes(todo)
      invariant Owned(heap, Nodes(todo)) && Released(heap, done)
      decreases todo
    {
      var next := heap.NextSibling(node);
      FreeFirst(node, heap, todo);
      done := done + {node} + Nodes(todo.kids);
      todo := todo.rest;
      node := next;
    }
  }
}
