/** The parse of an IDs database as a fold over its items, in full and in filtered mode. */
module IdsParse {
  import opened Bytes
  import opened Sequences
  import opened Trees
  import opened IdsSyntax

  datatype Query = Query(vendorId: nat, deviceId: nat)

  /** NULL queries ask for a full parse. */
  type Filter = Option<seq<Query>>

  /**
   * What the parser carries from line to line: the forest so far, whether `branch` is set
   * (it then is the last root) and the per-query flags.
   */
  datatype State = State(forest: seq<Tree>, branch: bool, found: seq<bool>)

  ghost predicate Fits(st: State, filter: Filter) {
    && (st.branch ==> st.forest != [])
    && (filter.Some? ==> |st.found| == |filter.value|)
  }

  function Start(filter: Filter): (st: State)
    ensures Fits(st, filter)
  {
    State([], false, if filter.Some? then seq(|filter.value|, _ => false) else [])
  }

  ghost predicate VendorWanted(filter: Filter, found: seq<bool>, id: nat)
    requires filter.Some? ==> |found| == |filter.value|
  {
    filter.None? || exists i :: 0 <= i < |found| && !found[i] && filter.value[i].vendorId == id
  }

  ghost predicate DeviceWanted(filter: Filter, found: seq<bool>, query: Query)
    requires filter.Some? ==> |found| == |filter.value|
  {
    filter.None? || exists i :: 0 <= i < |found| && !found[i] && filter.value[i] == query
  }

  /** Marks every query that asks for exactly this pair. */
  function Resolve(filter: Filter, found: seq<bool>, query: Query): (found': seq<bool>)
    requires filter.Some? ==> |found| == |filter.value|
    ensures |found'| == |found|
  {
    if filter.None? then found
    else seq(|found|, i requires 0 <= i < |found| => found[i] || filter.value[i] == query)
  }

  ghost function Step(filter: Filter, st: State, item: Item): (st': State)
    requires Fits(st, filter)
    ensures Fits(st', filter)
  {
    match item
    case Vendor(id, name) =>
      if VendorWanted(filter, st.found, id) then st.(forest := st.forest + [Leaf(id, name)], branch := true)
      else st.(branch := false)
    case Device(id, name) =>
      if !st.branch then st
      else
        var query := Query(Last(st.forest).id, id);
        if DeviceWanted(filter, st.found, query) then
          st.(forest := Extend(st.forest, [Leaf(id, name)]), found := Resolve(filter, st.found, query))
        else st
    case _ => st
  }

  /** The number of queries still waiting for their device line. */
  function Unresolved(found: seq<bool>): (n: nat)
    ensures n <= |found|
    ensures n == 0 <==> forall i :: 0 <= i < |found| ==> found[i]
  {
    if found == [] then 0 else Unresolved(found[1..]) + if found[0] then 0 else 1
  }

  ghost predicate Done(filter: Filter, st: State) {
    filter.Some? && Unresolved(st.found) == 0
  }

  /** Runs the parser over the remaining items; it leaves the loop once nothing is unresolved. */
  ghost function Run(filter: Filter, st: State, items: seq<Item>): (r: State)
    requires Fits(st, filter)
    ensures Fits(r, filter)
    decreases |items|
  {
    if items == [] then st
    else
      var st' := Step(filter, st, items[0]);
      if Done(filter, st') then st' else Run(filter, st', items[1..])
  }

  ghost function Parse(filter: Filter, data: ByteString): seq<Tree> {
    Run(filter, Start(filter), Database(data)).forest
  }

  // ----- What a full parse means ---------------------------------------------------------

  /** The device lines up to the next vendor line. */
  function Block(items: seq<Item>): (n: nat)
    ensures n <= |items|
    ensures n < |items| ==> items[n].Vendor?
    ensures forall i :: 0 <= i < n ==> !items[i].Vendor?
  {
    if items == [] || items[0].Vendor? then 0 else 1 + Block(items[1..])
  }

  function Devices(items: seq<Item>): seq<Tree> {
    if items == [] || items[0].Vendor? then []
    else if items[0].Device? then [Leaf(items[0].id, items[0].name)] + Devices(items[1..])
    else Devices(items[1..])
  }

  /** One root for every vendor item, holding the device items up to the next vendor item. */
  function Group(items: seq<Item>): seq<Tree> {
    if items == [] then []
    else if items[0].Vendor? then
      [Tree(items[0].id, items[0].name, Devices(items[1..]))] + Group(items[1..])
    else Group(items[1..])
  }

  lemma {:induction false} FullRun(st: State, items: seq<Item>)
    requires Fits(st, None) && (st.forest != [] ==> st.branch)
    ensures Run(None, st, items).forest ==
            (if st.forest == [] then [] else Extend(st.forest, Devices(items))) + Group(items)
    decreases |items|
  {
    if items == [] {
      if st.forest != [] {
        ExtendTwice(st.forest, [], []);
      }
    } else {
      FullRun(Step(None, st, items[0]), items[1..]);
      if items[0].Vendor? {
        FullRunVendor(st, items);
      } else if items[0].Device? && st.forest != [] {
        ExtendTwice(st.forest, [Leaf(items[0].id, items[0].name)], Devices(items[1..]));
      }
    }
  }

  lemma FullRunVendor(st: State, items: seq<Item>)
    requires Fits(st, None) && items != [] && items[0].Vendor?
    ensures var forest' := Step(None, st, items[0]).forest;
      Extend(forest', Devices(items[1..])) + Group(items[1..]) ==
      (if st.forest == [] then [] else Extend(st.forest, Devices(items))) + Group(items)
  {
    var root := Tree(items[0].id, items[0].name, Devices(items[1..]));
    ExtendLeaf(st.forest, items[0].id, items[0].name, Devices(items[1..]));
    Regroup(st.forest, [root], Group(items[1..]));
    if st.forest != [] {
      ExtendTwice(st.forest, [], []);
    }
  }

  /** A full parse stores every vendor with the devices that follow it. */
  lemma FullParseGroups(data: ByteString)
    ensures Parse(None, data) == Group(Database(data))
  {
    FullRun(Start(None), Database(data));
  }

  // ----- What a lookup should answer ------------------------------------------------------

  /** The name the first matching device item before the next vendor item gives. */
  function DeviceName(items: seq<Item>, id: nat): Option<ByteString> {
    if items == [] || items[0].Vendor? then None
    else if items[0].Device? && items[0].id == id then Some(items[0].name)
    else DeviceName(items[1..], id)
  }

  /** The reference answer: the first vendor item with the id, then the first device item under it. */
  function Answer(items: seq<Item>, q: Query): Names {
    if items == [] then Names(None, None)
    else if items[0].Vendor? && items[0].id == q.vendorId then
      Names(Some(items[0].name),
            if q.deviceId == q.vendorId then Some(items[0].name) else DeviceName(items[1..], q.deviceId))
    else Answer(items[1..], q)
  }

  /** tree_find started at a root answers with the root itself or with its first such child. */
  lemma FindFromRoot(root: Tree, id: nat)
    ensures NameOf(Find([root], id)) == if root.id == id then Some(root.name) else NameOf(Find(root.children, id))
  {
    assert [root][1..] == [];
  }

  lemma {:induction false} DevicesAnswer(items: seq<Item>, id: nat)
    ensures NameOf(Find(Devices(items), id)) == DeviceName(items, id)
  {
    if items != [] && !items[0].Vendor? {
      DevicesAnswer(items[1..], id);
    }
  }

  lemma {:induction false} GroupAnswers(items: seq<Item>, q: Query)
    ensures Lookup(Group(items), q.vendorId, q.deviceId) == Answer(items, q)
  {
    if items != [] {
      GroupAnswers(items[1..], q);
      if items[0].Vendor? {
        DevicesAnswer(items[1..], q.deviceId);
        FindFromRoot(Group(items)[0], q.deviceId);
      }
    }
  }

  // ----- The filtered parse answers every query --------------------------------------------

  /** The first root with the id is the current branch, so the next device lines belong to it. */
  ghost predicate Open(st: State, vendorId: nat) {
    && st.branch && st.forest != []
    && Last(st.forest).id == vendorId
    && FindRoot(st.forest[..|st.forest| - 1], vendorId).None?
  }

  /** The device name is settled: the id is the vendor's own, or a child with it is stored. */
  ghost predicate Settled(st: State, q: Query) {
    var v := FindRoot(st.forest, q.vendorId);
    v.Some? && (q.deviceId == q.vendorId || Find(v.value.children, q.deviceId).Some?)
  }

  /** A resolved query has its first vendor stored, and no later device line can change its answer. */
  ghost predicate Coherent(qs: seq<Query>, st: State, i: nat)
    requires i < |qs|
  {
    && Fits(st, Some(qs))
    && (st.found[i] ==> FindRoot(st.forest, qs[i].vendorId).Some? &&
                        (Open(st, qs[i].vendorId) ==> Settled(st, qs[i])))
  }

  /** The answer the rest of the database still has to give once the parser is in `st`. */
  ghost function Pending(qs: seq<Query>, st: State, items: seq<Item>, i: nat): Names
    requires i < |qs| && Coherent(qs, st, i)
  {
    var q := qs[i];
    if FindRoot(st.forest, q.vendorId).None? then Answer(items, q)
    else if Open(st, q.vendorId) && !Settled(st, q) then
      Names(Some(Last(st.forest).name), DeviceName(items, q.deviceId))
    else Lookup(st.forest, q.vendorId, q.deviceId)
  }

  lemma FindRootByLast(forest: seq<Tree>, id: nat)
    requires forest != []
    ensures FindRoot(forest, id) ==
            var init := FindRoot(forest[..|forest| - 1], id);
            if init.Some? then init
            else if Last(forest).id == id then Some(Last(forest)) else None
  {
    assert forest == forest[..|forest| - 1] + [Last(forest)];
    FindRootAppend(forest[..|forest| - 1], [Last(forest)], id);
  }

  /** How one more stored vendor changes a search for a root. */
  lemma FindRootAfterVendor(forest: seq<Tree>, t: Tree, id: nat)
    ensures FindRoot(forest + [t], id) ==
            if FindRoot(forest, id).Some? then FindRoot(forest, id) else if t.id == id then Some(t) else None
  {
    FindRootAppend(forest, [t], id);
  }

  lemma LookupOf(forest: seq<Tree>, q: Query)
    ensures Lookup(forest, q.vendorId, q.deviceId) ==
            match FindRoot(forest, q.vendorId)
            case None => Names(None, None)
            case Some(v) => Names(Some(v.name), if q.deviceId == q.vendorId then Some(v.name)
                                                else NameOf(Find(v.children, q.deviceId)))
  {
    match FindRoot(forest, q.vendorId)
    case None =>
    case Some(v) => FindFromRoot(v, q.deviceId);
  }

  /** While the query is open, what its vendor holds is what Lookup reads off. */
  lemma OpenLookup(st: State, q: Query)
    requires Open(st, q.vendorId)
    ensures FindRoot(st.forest, q.vendorId) == Some(Last(st.forest))
    ensures Settled(st, q) <==> q.deviceId == q.vendorId || Find(Last(st.forest).children, q.deviceId).Some?
    ensures Lookup(st.forest, q.vendorId, q.deviceId) ==
            Names(Some(Last(st.forest).name),
                  if q.deviceId == q.vendorId then Some(Last(st.forest).name)
                  else NameOf(Find(Last(st.forest).children, q.deviceId)))
  {
    FindRootByLast(st.forest, q.vendorId);
    LookupOf(st.forest, q);
  }

  /** A vendor line when the query's first vendor is stored already: from here on it is closed. */
  lemma PendingVendorClosed(qs: seq<Query>, st: State, item: Item, rest: seq<Item>, i: nat)
    requires i < |qs| && Coherent(qs, st, i) && item.Vendor? && FindRoot(st.forest, qs[i].vendorId).Some?
    ensures Coherent(qs, Step(Some(qs), st, item), i)
    ensures Pending(qs, Step(Some(qs), st, item), rest, i) == Pending(qs, st, [item] + rest, i)
  {
    var st' := Step(Some(qs), st, item);
    FindRootAfterVendor(st.forest, Leaf(item.id, item.name), qs[i].vendorId);
    assert (st.forest + [Leaf(item.id, item.name)])[..|st.forest|] == st.forest;
    assert !Open(st', qs[i].vendorId);
    LookupOf(st'.forest, qs[i]);
    if Open(st, qs[i].vendorId) {
      OpenLookup(st, qs[i]);
    }
  }

  /** A vendor line before the query's vendor has come up. */
  lemma PendingVendorFirst(qs: seq<Query>, st: State, item: Item, rest: seq<Item>, i: nat)
    requires i < |qs| && Coherent(qs, st, i) && item.Vendor? && FindRoot(st.forest, qs[i].vendorId).None?
    ensures Coherent(qs, Step(Some(qs), st, item), i)
    ensures Pending(qs, Step(Some(qs), st, item), rest, i) == Pending(qs, st, [item] + rest, i)
  {
    var st' := Step(Some(qs), st, item);
    FindRootAfterVendor(st.forest, Leaf(item.id, item.name), qs[i].vendorId);
    assert (st.forest + [Leaf(item.id, item.name)])[..|st.forest|] == st.forest;
    assert ([item] + rest)[1..] == rest;
    if item.id == qs[i].vendorId {
      OpenLookup(st', qs[i]);
    }
  }

  lemma FindRootAfterDevice(forest: seq<Tree>, kids: seq<Tree>, id: nat)
    requires forest != []
    ensures var init := forest[..|forest| - 1];
      && Extend(forest, kids)[..|forest| - 1] == init
      && FindRoot(Extend(forest, kids), id) ==
         if FindRoot(init, id).Some? || Last(forest).id != id then FindRoot(forest, id)
         else Some(Last(Extend(forest, kids)))
  {
    assert Extend(forest, kids)[..|forest| - 1] == forest[..|forest| - 1];
    FindRootByLast(forest, id);
    FindRootByLast(Extend(forest, kids), id);
  }

  /** A device line below another branch changes nothing for the query. */
  lemma PendingDeviceAway(qs: seq<Query>, st: State, item: Item, rest: seq<Item>, i: nat)
    requires i < |qs| && Coherent(qs, st, i) && item.Device? && !Open(st, qs[i].vendorId)
    ensures Coherent(qs, Step(Some(qs), st, item), i)
    ensures Pending(qs, Step(Some(qs), st, item), rest, i) == Pending(qs, st, [item] + rest, i)
  {
    var st' := Step(Some(qs), st, item);
    var v := qs[i].vendorId;
    assert ([item] + rest)[1..] == rest;
    if st.branch {
      FindRootByLast(st.forest, v);
      FindRootAfterDevice(st.forest, [Leaf(item.id, item.name)], v);
    }
    assert FindRoot(st'.forest, v) == FindRoot(st.forest, v) && !Open(st', v);
  }

  /** A device line below the vendor the query asks for settles it if the device id is the one asked for. */
  lemma PendingDeviceHere(qs: seq<Query>, st: State, item: Item, rest: seq<Item>, i: nat)
    requires i < |qs| && Coherent(qs, st, i) && item.Device? && Open(st, qs[i].vendorId)
    ensures Coherent(qs, Step(Some(qs), st, item), i)
    ensures Pending(qs, Step(Some(qs), st, item), rest, i) == Pending(qs, st, [item] + rest, i)
  {
    var st' := Step(Some(qs), st, item);
    var leaf := Leaf(item.id, item.name);
    assert ([item] + rest)[1..] == rest;
    FindRootAfterDevice(st.forest, [leaf], qs[i].vendorId);
    FindAppend(Last(st.forest).children, [leaf], qs[i].deviceId);
    assert Open(st', qs[i].vendorId);
    OpenLookup(st, qs[i]);
    OpenLookup(st', qs[i]);
  }

  lemma {:induction false} PendingRun(qs: seq<Query>, st: State, items: seq<Item>, i: nat)
    requires i < |qs| && Coherent(qs, st, i)
    requires forall item :: item in items ==> item.Vendor? || item.Device?
    ensures Lookup(Run(Some(qs), st, items).forest, qs[i].vendorId, qs[i].deviceId) == Pending(qs, st, items, i)
    decreases |items|
  {
    LookupOf(st.forest, qs[i]);
    if st.forest != [] {
      FindRootByLast(st.forest, qs[i].vendorId);
    }
    if items != [] {
      var item, rest := items[0], items[1..];
      assert items == [item] + rest;
      if item.Vendor? {
        if FindRoot(st.forest, qs[i].vendorId).Some? {
          PendingVendorClosed(qs, st, item, rest, i);
        } else {
          PendingVendorFirst(qs, st, item, rest, i);
        }
      } else if Open(st, qs[i].vendorId) {
        PendingDeviceHere(qs, st, item, rest, i);
      } else {
        PendingDeviceAway(qs, st, item, rest, i);
      }
      PendingRun(qs, Step(Some(qs), st, item), if Done(Some(qs), Step(Some(qs), st, item)) then [] else rest, i);
    }
  }

  /** A full parse gives every pair of ids its reference answer. */
  lemma FullParseAnswers(data: ByteString, q: Query)
    ensures Lookup(Parse(None, data), q.vendorId, q.deviceId) == Answer(Database(data), q)
  {
    FullParseGroups(data);
    GroupAnswers(Database(data), q);
  }

  /** A filtered parse gives every query its reference answer, however early it stopped. */
  lemma FilteredParseAnswers(data: ByteString, qs: seq<Query>, i: nat)
    requires i < |qs|
    ensures Lookup(Parse(Some(qs), data), qs[i].vendorId, qs[i].deviceId) == Answer(Database(data), qs[i])
  {
    ItemKinds(Lines(data));
    PendingRun(qs, Start(Some(qs)), Database(data), i);
  }

  /** The filter is only a shortcut: on its own queries it agrees with the full parse. */
  lemma FilteredAgreesWithFull(data: ByteString, qs: seq<Query>, q: Query)
    requires q in qs
    ensures Lookup(Parse(Some(qs), data), q.vendorId, q.deviceId)
         == Lookup(Parse(None, data), q.vendorId, q.deviceId)
  {
    var i :| 0 <= i < |qs| && qs[i] == q;
    FilteredParseAnswers(data, qs, i);
    FullParseAnswers(data, q);
  }

  // ----- How many roots a database can give ------------------------------------------------------

  lemma {:induction false} RunRoots(filter: Filter, st: State, items: seq<Item>)
    requires Fits(st, filter)
    ensures |Run(filter, st, items).forest| <= |st.forest| + |items|
    decreases |items|
  {
    if items != [] && !Done(filter, Step(filter, st, items[0])) {
      RunRoots(filter, Step(filter, st, items[0]), items[1..]);
    }
  }

  lemma {:induction false} ItemsFewer(lines: seq<ByteString>)
    ensures |Items(lines)| <= |lines|
  {
    if lines != [] {
      ItemsFewer(lines[1..]);
    }
  }

  lemma {:induction false} LinesFewer(data: ByteString)
    ensures |Lines(data)| <= |data|
    decreases |data|
  {
    if data != [] && IndexOf(data, LF) < |data| {
      LinesFewer(data[IndexOf(data, LF) + 1..]);
    }
  }

  /** Every root takes a line of its own. */
  lemma RootsNeedBytes(filter: Filter, data: ByteString)
    ensures |Parse(filter, data)| <= |data|
  {
    RunRoots(filter, Start(filter), Database(data));
    ItemsFewer(Lines(data));
    LinesFewer(data);
  }
}
