/** The value a tree or forest of binary_trees.c stands for, and its two searches. */
module Trees {
  import opened Bytes

  datatype Tree = Tree(id: nat, name: ByteString, children: seq<Tree>)

  function Leaf(id: nat, name: ByteString): Tree {
    Tree(id, name, [])
  }

  /** tree_find over a sibling chain: the first node with `id` in preorder. */
  function Find(ts: seq<Tree>, id: nat): Option<Tree> {
    if ts == [] then None
    else if ts[0].id == id then Some(ts[0])
    else
      match Find(ts[0].children, id)
      case Some(t) => Some(t)
      case None => Find(ts[1..], id)
  }

  /** tree_find_root: the first root with `id`. */
  function FindRoot(forest: seq<Tree>, id: nat): (r: Option<Tree>)
    ensures r.Some? ==> r.value in forest && r.value.id == id
  {
    if forest == [] then None
    else if forest[0].id == id then Some(forest[0])
    else FindRoot(forest[1..], id)
  }

  /** The preorder listing of a sibling chain. */
  function Preorder(ts: seq<Tree>): seq<Tree> {
    if ts == [] then [] else [ts[0]] + Preorder(ts[0].children) + Preorder(ts[1..])
  }

  /** `leaf` appended to the children of the node at preorder position `k`. */
  function AppendAt(ts: seq<Tree>, k: nat, leaf: Tree): seq<Tree> {
    if ts == [] then []
    else
      var t, below := ts[0], |Preorder(ts[0].children)|;
      if k == 0 then [t.(children := t.children + [leaf])] + ts[1..]
      else if k <= below then [t.(children := AppendAt(t.children, k - 1, leaf))] + ts[1..]
      else [t] + AppendAt(ts[1..], k - 1 - below, leaf)
  }

  lemma AppendAtCases(t: Tree, after: seq<Tree>, k: nat, leaf: Tree)
    ensures AppendAt([t] + after, 0, leaf) == [t.(children := t.children + [leaf])] + after
    ensures k < |Preorder(t.children)| ==>
      AppendAt([t] + after, k + 1, leaf) == [t.(children := AppendAt(t.children, k, leaf))] + after
    ensures AppendAt([t] + after, k + 1 + |Preorder(t.children)|, leaf) == [t] + AppendAt(after, k, leaf)
  {
    assert ([t] + after)[1..] == after;
  }

  /** Find answers with the first preorder node carrying the id, and only misses absent ids. */
  lemma {:induction false} FindIsFirstInPreorder(ts: seq<Tree>, id: nat) returns (k: nat)
    ensures k <= |Preorder(ts)|
    ensures forall i :: 0 <= i < k ==> Preorder(ts)[i].id != id
    ensures Find(ts, id) == if k < |Preorder(ts)| then Some(Preorder(ts)[k]) else None
    ensures k < |Preorder(ts)| ==> Preorder(ts)[k].id == id
  {
    if ts == [] || ts[0].id == id {
      k := 0;
    } else {
      var inner := FindIsFirstInPreorder(ts[0].children, id);
      var outer := FindIsFirstInPreorder(ts[1..], id);
      var kids := Preorder(ts[0].children);
      k := if inner < |kids| then 1 + inner else 1 + |kids| + outer;
    }
  }

  lemma {:induction false} FindAppend(a: seq<Tree>, b: seq<Tree>, id: nat)
    ensures Find(a + b, id) == if Find(a, id).Some? then Find(a, id) else Find(b, id)
  {
    if a == [] {
      assert a + b == b;
    } else {
      assert (a + b)[1..] == a[1..] + b;
      FindAppend(a[1..], b, id);
    }
  }

  lemma {:induction false} FindRootAppend(a: seq<Tree>, b: seq<Tree>, id: nat)
    ensures FindRoot(a + b, id) == if FindRoot(a, id).Some? then FindRoot(a, id) else FindRoot(b, id)
  {
    if a == [] {
      assert a + b == b;
    } else {
      assert (a + b)[1..] == a[1..] + b;
      FindRootAppend(a[1..], b, id);
    }
  }

  lemma {:induction false} FindRootIs(forest: seq<Tree>, id: nat, k: nat)
    requires k <= |forest| && forall i :: 0 <= i < k ==> forest[i].id != id
    requires k < |forest| ==> forest[k].id == id
    ensures FindRoot(forest, id) == if k < |forest| then Some(forest[k]) else None
  {
    if k > 0 {
      FindRootIs(forest[1..], id, k - 1);
    }
  }

  function Last(forest: seq<Tree>): Tree
    requires forest != []
  {
    forest[|forest| - 1]
  }

  /** Appends nodes below the last root. */
  function Extend(forest: seq<Tree>, kids: seq<Tree>): (r: seq<Tree>)
    requires forest != []
    ensures |r| == |forest|
  {
    var root := Last(forest);
    forest[|forest| - 1 := root.(children := root.children + kids)]
  }

  lemma ExtendLeaf(forest: seq<Tree>, id: nat, name: ByteString, kids: seq<Tree>)
    ensures Extend(forest + [Leaf(id, name)], kids) == forest + [Tree(id, name, kids)]
  {
    assert [] + kids == kids;
  }

  lemma ExtendTwice(forest: seq<Tree>, a: seq<Tree>, b: seq<Tree>)
    requires forest != []
    ensures Extend(Extend(forest, a), b) == Extend(forest, a + b)
    ensures Extend(forest, []) == forest
  {
    var kids := Last(forest).children;
    assert (kids + a) + b == kids + (a + b);
    assert kids + [] == kids;
  }

  /** The first roots of a forest, as many as there is room for. */
  function FirstRoots(forest: seq<Tree>, limit: nat): (r: seq<Tree>)
    ensures |forest| <= limit ==> r == forest
    ensures |r| == if |forest| <= limit then |forest| else limit
  {
    if |forest| <= limit then forest else forest[..limit]
  }

  lemma FirstRootsVendor(forest: seq<Tree>, t: Tree, limit: nat)
    ensures FirstRoots(forest + [t], limit) == FirstRoots(forest, limit) + if |forest| < limit then [t] else []
  {
  }

  lemma FirstRootsDevice(forest: seq<Tree>, kids: seq<Tree>, limit: nat)
    requires forest != []
    ensures FirstRoots(Extend(forest, kids), limit) ==
            if |forest| <= limit then Extend(forest, kids) else FirstRoots(forest, limit)
  {
  }

  /** The names a vendor/device query reads off a forest. */
  datatype Names = Names(vendor: Option<ByteString>, device: Option<ByteString>)

  function NameOf(t: Option<Tree>): Option<ByteString> {
    match t
    case None => None
    case Some(n) => Some(n.name)
  }

  /** tree_find_root followed by tree_find on what it returned, NULL included. */
  function Lookup(forest: seq<Tree>, vendorId: nat, deviceId: nat): Names {
    match FindRoot(forest, vendorId)
    case None => Names(None, None)
    case Some(v) => Names(Some(v.name), NameOf(Find([v], deviceId)))
  }

  /** A forest cut to its first roots answers as the whole one exactly if it has kept the vendor's first root. */
  lemma LookupInFirst(forest: seq<Tree>, limit: nat, vendorId: nat, deviceId: nat)
    ensures Lookup(FirstRoots(forest, limit), vendorId, deviceId) == Lookup(forest, vendorId, deviceId)
       <==> (FindRoot(forest, vendorId).Some? ==> FindRoot(FirstRoots(forest, limit), vendorId).Some?)
  {
    if |forest| > limit {
      assert forest == forest[..limit] + forest[limit..];
      FindRootAppend(forest[..limit], forest[limit..], vendorId);
    }
  }
}
