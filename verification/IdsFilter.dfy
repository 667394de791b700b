/** What a filtered parse stores: an ordered part of the full forest, and each wanted pair once. */
module IdsFilter {
  import opened Bytes
  import opened Sequences
  import opened Trees
  import opened IdsSyntax
  import opened IdsParse

  // ----- The filtered forest is an ordered part of the full one ----------------------------

  ghost predicate IsPartOf(g: Tree, f: Tree) {
    g.id == f.id && g.name == f.name && IsSubsequence(g.children, f.children)
  }

  /** The roots of `part` are roots of `whole` in the same order, each with some of its children. */
  ghost predicate IsSubforest(part: seq<Tree>, whole: seq<Tree>)
    decreases |whole|
  {
    part == [] ||
    (whole != [] &&
     ((IsPartOf(Last(part), Last(whole)) && IsSubforest(part[..|part| - 1], whole[..|whole| - 1]))
      || IsSubforest(part, whole[..|whole| - 1])))
  }

  /** While `branch` is set it stands for the last vendor of the full forest. */
  ghost predicate Aligned(st: State, whole: seq<Tree>) {
    && IsSubforest(st.forest, whole)
    && (st.branch ==>
          && st.forest != [] && whole != [] && IsPartOf(Last(st.forest), Last(whole))
          && IsSubforest(st.forest[..|st.forest| - 1], whole[..|whole| - 1]))
  }

  lemma SubforestGrows(part: seq<Tree>, whole: seq<Tree>, item: Item)
    requires IsSubforest(part, whole)
    ensures IsSubforest(part, FullStep(whole, item))
  {
    if item.Vendor? {
      assert FullStep(whole, item)[..|whole|] == whole;
    } else if item.Device? && part != [] {
      var whole' := FullStep(whole, item);
      assert whole'[..|whole| - 1] == whole[..|whole| - 1];
      if !IsSubforest(part, whole[..|whole| - 1]) {
        SubsequenceAppend(Last(part).children, Last(whole).children, [Leaf(item.id, item.name)]);
      }
    }
  }

  ghost function FullStep(whole: seq<Tree>, item: Item): seq<Tree> {
    Step(None, State(whole, whole != [], []), item).forest
  }

  ghost function FullFrom(whole: seq<Tree>, items: seq<Item>): seq<Tree> {
    Run(None, State(whole, whole != [], []), items).forest
  }

  lemma FullFromStep(whole: seq<Tree>, items: seq<Item>)
    requires items != []
    ensures FullFrom(whole, items) == FullFrom(FullStep(whole, items[0]), items[1..])
  {
  }

  lemma AlignedVendor(qs: seq<Query>, st: State, whole: seq<Tree>, item: Item)
    requires Fits(st, Some(qs)) && Aligned(st, whole) && item.Vendor?
    ensures Aligned(Step(Some(qs), st, item), FullStep(whole, item))
  {
    var st', leaf := Step(Some(qs), st, item), Leaf(item.id, item.name);
    SubforestGrows(st.forest, whole, item);
    assert FullStep(whole, item) == whole + [leaf] && (whole + [leaf])[..|whole|] == whole;
    if st'.branch {
      assert st'.forest == st.forest + [leaf] && (st.forest + [leaf])[..|st.forest|] == st.forest;
      SubsequenceRefl<Tree>([]);
    }
  }

  lemma PartGrows(g: Tree, f: Tree, leaf: Tree)
    requires IsPartOf(g, f)
    ensures IsPartOf(g, f.(children := f.children + [leaf]))
    ensures IsPartOf(g.(children := g.children + [leaf]), f.(children := f.children + [leaf]))
  {
    SubsequenceAppend(g.children, f.children, [leaf]);
    SubsequenceRefl([leaf]);
    SubsequenceConcat(g.children, f.children, [leaf], [leaf]);
  }

  lemma ExtendLast(forest: seq<Tree>, leaf: Tree)
    requires forest != []
    ensures Extend(forest, [leaf])[..|forest| - 1] == forest[..|forest| - 1]
    ensures Last(Extend(forest, [leaf])) == Last(forest).(children := Last(forest).children + [leaf])
  {
  }

  lemma AlignedDevice(qs: seq<Query>, st: State, whole: seq<Tree>, item: Item)
    requires Fits(st, Some(qs)) && Aligned(st, whole) && item.Device? && st.branch
    ensures Aligned(Step(Some(qs), st, item), FullStep(whole, item))
  {
    var st', leaf := Step(Some(qs), st, item), Leaf(item.id, item.name);
    PartGrows(Last(st.forest), Last(whole), leaf);
    ExtendLast(whole, leaf);
    ExtendLast(st.forest, leaf);
    assert FullStep(whole, item) == Extend(whole, [leaf]);
    assert st'.forest == st.forest || st'.forest == Extend(st.forest, [leaf]);
  }

  lemma AlignedStep(qs: seq<Query>, st: State, whole: seq<Tree>, item: Item)
    requires Fits(st, Some(qs)) && Aligned(st, whole)
    ensures Aligned(Step(Some(qs), st, item), FullStep(whole, item))
  {
    match item
    case Vendor(_, _) => AlignedVendor(qs, st, whole, item);
    case Device(_, _) =>
      if st.branch {
        AlignedDevice(qs, st, whole, item);
      } else {
        SubforestGrows(st.forest, whole, item);
      }
    case _ =>
  }

  lemma {:induction false} SubforestStays(part: seq<Tree>, whole: seq<Tree>, items: seq<Item>)
    requires IsSubforest(part, whole)
    ensures IsSubforest(part, FullFrom(whole, items))
    decreases |items|
  {
    if items != [] {
      SubforestGrows(part, whole, items[0]);
      FullFromStep(whole, items);
      SubforestStays(part, FullStep(whole, items[0]), items[1..]);
    }
  }

  lemma {:induction false} SubforestRun(qs: seq<Query>, st: State, whole: seq<Tree>, items: seq<Item>)
    requires Fits(st, Some(qs)) && Aligned(st, whole)
    ensures IsSubforest(Run(Some(qs), st, items).forest, FullFrom(whole, items))
    decreases |items|
  {
    if items != [] {
      var st', whole' := Step(Some(qs), st, items[0]), FullStep(whole, items[0]);
      AlignedStep(qs, st, whole, items[0]);
      FullFromStep(whole, items);
      if Done(Some(qs), st') {
        SubforestStays(st'.forest, whole', items[1..]);
      } else {
        SubforestRun(qs, st', whole', items[1..]);
      }
    }
  }

  /** A filtered parse stores an ordered part of what a full parse stores. */
  lemma FilteredIsSubforest(data: ByteString, qs: seq<Query>)
    ensures IsSubforest(Parse(Some(qs), data), Parse(None, data))
  {
    SubforestRun(qs, Start(Some(qs)), [], Database(data));
  }

  // ----- The stored pairs are exactly the resolved queries, each once ------------------------

  ghost function ChildPairs(vendorId: nat, kids: seq<Tree>): (ps: seq<Query>)
    ensures |ps| == |kids|
  {
    seq(|kids|, i requires 0 <= i < |kids| => Query(vendorId, kids[i].id))
  }

  /** The (vendor, device) pairs a depth-two forest stores, in order. */
  ghost function Pairs(forest: seq<Tree>): seq<Query> {
    if forest == [] then []
    else Pairs(forest[..|forest| - 1]) + ChildPairs(Last(forest).id, Last(forest).children)
  }

  ghost predicate Distinct<T(!new)>(s: seq<T>) {
    forall i, j :: 0 <= i < j < |s| ==> s[i] != s[j]
  }

  /** The flags and the stored pairs tell the same story. */
  ghost predicate Ledger(qs: seq<Query>, st: State) {
    && Fits(st, Some(qs))
    && (forall i :: 0 <= i < |qs| ==> (st.found[i] <==> qs[i] in Pairs(st.forest)))
    && (forall p :: p in Pairs(st.forest) ==> p in qs)
    && Distinct(Pairs(st.forest))
  }

  lemma PairsVendor(forest: seq<Tree>, id: nat, name: ByteString)
    ensures Pairs(forest + [Leaf(id, name)]) == Pairs(forest)
  {
    assert (forest + [Leaf(id, name)])[..|forest|] == forest;
  }

  lemma PairsDevice(forest: seq<Tree>, id: nat, name: ByteString)
    requires forest != []
    ensures Pairs(Extend(forest, [Leaf(id, name)])) == Pairs(forest) + [Query(Last(forest).id, id)]
  {
    var forest' := Extend(forest, [Leaf(id, name)]);
    assert forest'[..|forest| - 1] == forest[..|forest| - 1];
    assert ChildPairs(Last(forest').id, Last(forest').children)
        == ChildPairs(Last(forest).id, Last(forest).children) + [Query(Last(forest).id, id)];
  }

  lemma LedgerStep(qs: seq<Query>, st: State, item: Item)
    requires Ledger(qs, st)
    ensures Ledger(qs, Step(Some(qs), st, item))
  {
    match item
    case Vendor(id, name) => PairsVendor(st.forest, id, name);
    case Device(id, name) =>
      if st.branch {
        var pair := Query(Last(st.forest).id, id);
        PairsDevice(st.forest, id, name);
        if DeviceWanted(Some(qs), st.found, pair) {
          assert pair !in Pairs(st.forest);
        }
      }
    case _ =>
  }

  lemma {:induction false} LedgerRun(qs: seq<Query>, st: State, items: seq<Item>)
    requires Ledger(qs, st)
    ensures Ledger(qs, Run(Some(qs), st, items))
    decreases |items|
  {
    if items != [] {
      LedgerStep(qs, st, items[0]);
      if !Done(Some(qs), Step(Some(qs), st, items[0])) {
        LedgerRun(qs, Step(Some(qs), st, items[0]), items[1..]);
      }
    }
  }

  /** A filtered parse stores no pair twice, no pair nobody asked for, and flags just the stored ones. */
  lemma FilteredStoresEachPairOnce(data: ByteString, qs: seq<Query>)
    ensures Ledger(qs, Run(Some(qs), Start(Some(qs)), Database(data)))
  {
    LedgerRun(qs, Start(Some(qs)), Database(data));
  }

  ghost predicate OnlyAsked(qs: seq<Query>, forest: seq<Tree>) {
    forall t :: t in forest ==> exists i :: 0 <= i < |qs| && qs[i].vendorId == t.id
  }

  lemma {:induction false} OnlyAskedRun(qs: seq<Query>, st: State, items: seq<Item>)
    requires Fits(st, Some(qs)) && OnlyAsked(qs, st.forest)
    ensures OnlyAsked(qs, Run(Some(qs), st, items).forest)
    decreases |items|
  {
    if items != [] {
      var st' := Step(Some(qs), st, items[0]);
      if st.forest != [] {
        assert Last(st.forest) in st.forest;
      }
      OnlyAskedRun(qs, st', if Done(Some(qs), st') then [] else items[1..]);
    }
  }

  /** A filtered parse stores no vendor nobody asked for. */
  lemma FilteredStoresOnlyAskedVendors(data: ByteString, qs: seq<Query>)
    ensures OnlyAsked(qs, Parse(Some(qs), data))
  {
    OnlyAskedRun(qs, Start(Some(qs)), Database(data));
  }

  /** While some query is unresolved the parser reads on: its run over a + b goes on after a. */
  lemma {:induction false} ReadsOnWhileUnresolved(qs: seq<Query>, st: State, a: seq<Item>, b: seq<Item>)
    requires Fits(st, Some(qs)) && Unresolved(Run(Some(qs), st, a).found) > 0
    ensures Run(Some(qs), st, a + b) == Run(Some(qs), Run(Some(qs), st, a), b)
    decreases |a|
  {
    if a == [] {
      assert a + b == b;
    } else {
      assert (a + b)[1..] == a[1..] + b;
      ReadsOnWhileUnresolved(qs, Step(Some(qs), st, a[0]), a[1..], b);
    }
  }

  /** Items after the point where every query is resolved are never looked at. */
  lemma {:induction false} StopsOnceResolved(qs: seq<Query>, st: State, seen: seq<Item>, a: seq<Item>, b: seq<Item>)
    requires Fits(st, Some(qs)) && Unresolved(st.found) > 0
    requires Unresolved(Run(Some(qs), st, seen).found) == 0
    ensures Run(Some(qs), st, seen + a) == Run(Some(qs), st, seen + b)
    decreases |seen|
  {
    if seen != [] {
      assert (seen + a)[1..] == seen[1..] + a && (seen + b)[1..] == seen[1..] + b;
      if !Done(Some(qs), Step(Some(qs), st, seen[0])) {
        StopsOnceResolved(qs, Step(Some(qs), st, seen[0]), seen[1..], a, b);
      }
    }
  }
}
