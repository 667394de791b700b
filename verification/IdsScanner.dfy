/** The byte scanner of sys_utils.c, proved to compute the fold of IdsParse on the heap forest. */
module IdsScanner {
  import opened Bytes
  import opened Sequences
  import opened Trees
  import opened BinaryTrees
  import opened Forests
  import opened IdsSyntax
  import opened IdsParse

  lemma {:induction false} HexRunFrom(s: ByteString, n: nat)
    requires n <= |s| && forall i :: 0 <= i < n ==> IsHex(s[i])
    ensures HexRun(s) >= n
    ensures n == |s| || !IsHex(s[n]) ==> HexRun(s) == n
  {
    if n > 0 {
      HexRunFrom(s[1..], n - 1);
    }
  }

  /** util_parse_ids_hex: `used` is how far the cursor moves. */
  method ParseHex(span: ByteString) returns (ok: bool, used: nat, id: nat)
    ensures ok == HasId(span)
    ensures ok ==> used == HexRun(span) && id == IdOf(span)
  {
    var value, digits := 0, 0;
    while digits < |span| && digits < 4
      invariant digits <= |span| && digits <= 4
      invariant forall i :: 0 <= i < digits ==> IsHex(span[i])
      invariant value == HexValue(span[..digits]) && value < 0x1_0000
      decreases |span| - digits
    {
      var digit := HexDigit(span[digits]);
      if digit < 0 {
        break;
      }
      assert span[..digits + 1][..digits] == span[..digits];
      value := value * 16 + digit;
      digits := digits + 1;
      HexValueBound(span[..digits]);
    }
    HexRunFrom(span, digits);
    if digits == 0 || (digits < |span| && HexDigit(span[digits]) >= 0) {
      if digits > 0 {
        HexRunFrom(span, 5);
      }
      return false, 0, 0;
    }
    return true, digits, value % 0x1_0000;
  }

  /** util_parse_ids_name: the name is span[start..start + len]. */
  method ParseName(span: ByteString) returns (start: nat, len: nat)
    ensures start + len <= |span|
    ensures span[start..start + len] == Trim(span)
  {
    start := 0;
    while start < |span| && IsSpace(span[start])
      invariant start <= |span|
      invariant forall i :: 0 <= i < start ==> IsSpace(span[i])
    {
      start := start + 1;
    }
    var end := |span|;
    while end > start && IsSpace(span[end - 1])
      invariant start <= end <= |span|
      invariant forall i :: end <= i < |span| ==> IsSpace(span[i])
    {
      end := end - 1;
    }
    len := end - start;
    TrimIs(span, start, end);
  }

  /** Reads what follows the tabs of a line: identifier and name. */
  method ReadToken(indent: nat, token: ByteString) returns (item: Item)
    ensures item == ReadEntry(indent, token)
    ensures item.Vendor? || item.Device? ==> |item.name| < |token|
  {
    if indent > 1 {
      return Skip;
    }
    var ok, used, id := ParseHex(token);
    if !ok {
      return Skip;
    }
    var start, len := ParseName(token[used..]);
    var name := token[used..][start..start + len];
    if indent == 0 {
      return Vendor(id, name);
    } else {
      return Device(id, name);
    }
  }

  /** Reads one line: the part of the loop body that only looks at the bytes. */
  method ReadLine(line: ByteString) returns (item: Item)
    ensures item == Classify(line)
    ensures item.Vendor? || item.Device? ==> |item.name| < |line|
  {
    if line == [] || line[0] == HASH {
      return Skip;
    }
    if line[0] == 67 && 1 < |line| && IsSpace(line[1]) {
      return Stop;
    }
    var indent := 0;
    while indent < |line| && line[indent] == TAB
      invariant indent <= |line|
      invariant forall i :: 0 <= i < indent ==> line[i] == TAB
    {
      indent := indent + 1;
    }
    assert Indent(line) == indent;
    item := ReadToken(indent, line[indent..]);
  }

  // ----- The query filter --------------------------------------------------------------------

  lemma {:induction false} ResolveOne(found: seq<bool>, i: nat)
    requires i < |found| && !found[i]
    ensures Unresolved(found[i := true]) == Unresolved(found) - 1
  {
    if i > 0 {
      assert found[i := true][1..] == found[1..][i - 1 := true];
      ResolveOne(found[1..], i - 1);
    }
  }

  /** util_ids_vendor_is_wanted. */
  method VendorIsWanted(filter: Filter, found: array<bool>, id: nat) returns (wanted: bool)
    requires filter.Some? ==> found.Length == |filter.value|
    ensures wanted == VendorWanted(filter, found[..], id)
  {
    if filter.None? {
      return true;
    }
    for i := 0 to found.Length
      invariant forall j :: 0 <= j < i ==> found[j] || filter.value[j].vendorId != id
    {
      if !found[i] && filter.value[i].vendorId == id {
        assert !found[..][i];
        return true;
      }
    }
    return false;
  }

  /** util_ids_device_is_wanted: flags every matching query and counts it off. */
  method DeviceIsWanted(filter: Filter, found: array<bool>, query: Query, remaining: nat)
    returns (wanted: bool, left: nat)
    requires filter.Some? ==> found.Length == |filter.value| && remaining == Unresolved(found[..])
    modifies found
    ensures wanted == DeviceWanted(filter, old(found[..]), query)
    ensures filter.Some? ==> found[..] == Resolve(filter, old(found[..]), query)
    ensures filter.Some? ==> left == Unresolved(found[..])
    ensures filter.None? ==> found[..] == old(found[..]) && left == remaining
  {
    wanted, left := false, remaining;
    if filter.None? {
      return true, remaining;
    }
    ghost var was := found[..];
    for i := 0 to found.Length
      invariant forall j :: 0 <= j < i ==> found[j] == (was[j] || filter.value[j] == query)
      invariant forall j :: i <= j < found.Length ==> found[j] == was[j]
      invariant wanted <==> exists j :: 0 <= j < i && !was[j] && filter.value[j] == query
      invariant left == Unresolved(found[..])
    {
      if !found[i] && filter.value[i] == query {
        ResolveOne(found[..], i);
        assert found[..][i := true] == found[..i] + [true] + found[i + 1..];
        found[i] := true;
        assert found[..] == found[..i] + [true] + found[i + 1..];
        wanted := true;
        if left > 0 {
          left := left - 1;
        }
      }
    }
    assert found[..] == Resolve(filter, was, query);
  }

  // ----- The parse loop ------------------------------------------------------------------------

  /** Cuts off the line at `cursor` with memchr and reads it; always moves past at least one byte. */
  method NextItem(bytes: ByteString, cursor: nat) returns (item: Item, next: nat)
    requires cursor < |bytes|
    ensures cursor < next <= |bytes|
    ensures Database(bytes[cursor..]) == Prepend(item, Database(bytes[next..]))
    ensures item.Vendor? || item.Device? ==> |item.name| < |bytes|
  {
    var lineEnd := cursor + IndexOf(bytes[cursor..], LF);
    next := if lineEnd < |bytes| then lineEnd + 1 else |bytes|;
    CutLine(bytes, cursor, lineEnd, next);
    item := ReadLine(bytes[cursor..lineEnd]);
  }

  /** What the locals of the loop say about the flags of the fold state `st`. */
  ghost predicate Flags(branch: TreeNode?, filter: Filter, found: array<bool>, remaining: nat, st: State)
    reads found
  {
    && Fits(st, filter) && st.found == found[..] && (st.branch <==> branch != null)
    && (filter.Some? ==> remaining == Unresolved(found[..]))
  }

  /**
   * What the heap says about the forest of `st`. The forest of the fold has no size limit; the heap
   * forest keeps its first roots, as many as fit, and a branch that did not fit lives on outside.
   */
  ghost predicate Holds(forest: Forest, branch: TreeNode?, st: State, limit: nat)
    reads forest, forest.roots, forest.nodes, forest.looseNodes, branch
  {
    && forest.Valid() && Room(forest.capacity) == limit && forest.Contents() == FirstRoots(st.forest, limit)
    && (branch != null ==>
          forest.IsBranch(branch) && st.forest != [] && Last(st.forest).id == branch.id
          && (forest.loose.Nil? <==> |st.forest| <= limit))
  }

  lemma ContentsLength(forest: Forest)
    requires forest.Valid()
    ensures |forest.Contents()| == forest.count
  {
    ValueLength(forest.shape);
  }

  /** The forest takes over a new root, or leaves it to itself when there is no room. */
  method StoreRoot(forest: Forest, root: TreeNode, ghost was: State, ghost st: State, ghost limit: nat)
    requires Holds(forest, null, was, limit) && root !in forest.nodes
    requires root.firstChild == null && root.lastChild == null && root.nextSibling == null
    requires st.forest == was.forest + [Leaf(root.id, root.name)]
    modifies forest, forest.roots
    ensures forest.roots == old(forest.roots) || fresh(forest.roots)
    ensures forest.nodes <= old(forest.nodes) + {root} && forest.looseNodes <= {root}
    ensures Holds(forest, root, st, limit)
  {
    ghost var s := Cell(root, Nil, Nil);
    assert Value(s) == [Leaf(root.id, root.name)];
    ContentsLength(forest);
    FirstRootsVendor(was.forest, Leaf(root.id, root.name), limit);
    forest.Add(root, s);
  }

  /** The vendor arm of the loop body. */
  method StoreVendor(forest: Forest, filter: Filter, found: array<bool>, id: nat, name: ByteString, ghost was: State, ghost limit: nat)
    returns (branch: TreeNode?)
    requires Holds(forest, null, was, limit) && Fits(was, filter) && was.found == found[..] && |name| < SIZE_MAX
    modifies forest, forest.roots
    ensures forest.roots == old(forest.roots) || fresh(forest.roots)
    ensures fresh(forest.nodes - old(forest.nodes)) && fresh(forest.looseNodes - old(forest.looseNodes))
    ensures Holds(forest, branch, Step(filter, was, Vendor(id, name)), limit)
    ensures branch != null <==> Step(filter, was, Vendor(id, name)).branch
  {
    branch := null;
    var wanted := VendorIsWanted(filter, found, id);
    if wanted {
      branch := CreateNodeN(id, Some(name));
      if branch != null {
        StoreRoot(forest, branch, was, Step(filter, was, Vendor(id, name)), limit);
      }
    }
  }

  /** The append of the device arm. */
  method StoreChild(forest: Forest, branch: TreeNode, id: nat, name: ByteString, ghost was: State, ghost st: State, ghost limit: nat)
    requires Holds(forest, branch, was, limit) && |name| < SIZE_MAX
    requires st.forest == Extend(was.forest, [Leaf(id, name)])
    modifies forest, forest.nodes, forest.looseNodes
    ensures forest.roots == old(forest.roots)
    ensures fresh(forest.nodes - old(forest.nodes)) && fresh(forest.looseNodes - old(forest.looseNodes))
    ensures Holds(forest, branch, st, limit)
  {
    FirstRootsDevice(was.forest, [Leaf(id, name)], limit);
    forest.AddChildToBranch(branch, id, name);
  }

  /** The device arm of the loop body. */
  method StoreDevice(forest: Forest, branch: TreeNode, filter: Filter, found: array<bool>, remaining: nat,
                     id: nat, name: ByteString, ghost was: State, ghost limit: nat)
    returns (left: nat)
    requires Holds(forest, branch, was, limit) && Flags(branch, filter, found, remaining, was) && |name| < SIZE_MAX
    modifies forest, forest.nodes, forest.looseNodes, found
    ensures forest.roots == old(forest.roots)
    ensures fresh(forest.nodes - old(forest.nodes)) && fresh(forest.looseNodes - old(forest.looseNodes))
    ensures Holds(forest, branch, Step(filter, was, Device(id, name)), limit)
    ensures Flags(branch, filter, found, left, Step(filter, was, Device(id, name)))
  {
    var wanted;
    wanted, left := DeviceIsWanted(filter, found, Query(branch.id, id), remaining);
    if wanted {
      StoreChild(forest, branch, id, name, was, Step(filter, was, Device(id, name)), limit);
    }
  }

  /** The loop body once the line is read: both arms. */
  method StoreItem(forest: Forest, branch: TreeNode?, filter: Filter, found: array<bool>, remaining: nat,
                   item: Item, ghost was: State, ghost limit: nat)
    returns (branch': TreeNode?, left: nat)
    requires Holds(forest, branch, was, limit) && Flags(branch, filter, found, remaining, was)
    requires item.Vendor? || item.Device? ==> |item.name| < SIZE_MAX
    modifies forest, forest.roots, forest.nodes, forest.looseNodes, found
    ensures forest.roots == old(forest.roots) || fresh(forest.roots)
    ensures fresh(forest.nodes - old(forest.nodes)) && fresh(forest.looseNodes - old(forest.looseNodes))
    ensures Holds(forest, branch', Step(filter, was, item), limit)
    ensures Flags(branch', filter, found, left, Step(filter, was, item))
  {
    branch', left := branch, remaining;
    match item {
      case Vendor(id, name) =>
        branch' := StoreVendor(forest, filter, found, id, name, was, limit);
      case Device(id, name) =>
        if branch != null {
          left := StoreDevice(forest, branch, filter, found, remaining, id, name, was, limit);
        }
      case _ =>
    }
  }

  /** One round of the parse loop; `stop` says that it left through a break. */
  method ParseLine(bytes: ByteString, cursor: nat, forest: Forest, branch: TreeNode?, filter: Filter,
                   found: array<bool>, remaining: nat, ghost st: State, ghost limit: nat)
    returns (next: nat, branch': TreeNode?, left: nat, stop: bool, ghost st': State)
    requires cursor < |bytes| <= SIZE_MAX
    requires Holds(forest, branch, st, limit) && Flags(branch, filter, found, remaining, st)
    modifies forest, forest.roots, forest.nodes, forest.looseNodes, found
    ensures Holds(forest, branch', st', limit) && Flags(branch', filter, found, left, st')
    ensures forest.roots == old(forest.roots) || fresh(forest.roots)
    ensures fresh(forest.nodes - old(forest.nodes)) && fresh(forest.looseNodes - old(forest.looseNodes))
    ensures cursor < next <= |bytes|
    ensures Run(filter, st, Database(bytes[cursor..])) ==
            if stop then st' else Run(filter, st', Database(bytes[next..]))
  {
    branch', left, stop, st' := branch, remaining, false, st;
    var item;
    item, next := NextItem(bytes, cursor);
    if item.Skip? {
      return;
    }
    if item.Stop? {
      stop := true;
      return;
    }
    RunCons(filter, st, item, Database(bytes[next..]));
    branch', left := StoreItem(forest, branch, filter, found, remaining, item, st, limit);
    st' := Step(filter, st, item);
    stop := filter.Some? && left == 0;
  }

  /** The parse loop: runs the fold over the bytes and leaves the first roots of its forest in `forest`. */
  method ParseLoop(bytes: ByteString, filter: Filter, forest: Forest, found: array<bool>)
    requires forest.Valid() && forest.Contents() == [] && forest.looseNodes == {}
    requires found[..] == Start(filter).found && |bytes| <= SIZE_MAX
    modifies forest, forest.roots, forest.nodes, found
    ensures forest.Valid() && (forest.roots == old(forest.roots) || fresh(forest.roots))
    ensures fresh(forest.nodes - old(forest.nodes))
    ensures forest.Contents() == FirstRoots(Parse(filter, bytes), Room(old(forest.capacity)))
  {
    StartUnresolved(filter);
    var cursor, branch, remaining, stop := 0, null, found.Length as nat, false;
    ghost var st, limit := Start(filter), Room(forest.capacity);
    assert bytes[0..] == bytes;
    while cursor < |bytes| && !stop
      invariant cursor <= |bytes|
      invariant Holds(forest, branch, st, limit) && Flags(branch, filter, found, remaining, st)
      invariant forest.roots == old(forest.roots) || fresh(forest.roots)
      invariant fresh(forest.nodes - old(forest.nodes)) && fresh(forest.looseNodes)
      invariant Run(filter, Start(filter), Database(bytes)) ==
                if stop then st else Run(filter, st, Database(bytes[cursor..]))
      decreases |bytes| - cursor
    {
      cursor, branch, remaining, stop, st :=
        ParseLine(bytes, cursor, forest, branch, filter, found, remaining, st, limit);
    }
  }

  /**
   * util_parse_ids_span: one pass over the bytes, a heap forest as the result, NULL for bad
   * arguments. `data` and `queries` are None where the C arguments are NULL.
   */
  method ParseSpan(data: Option<ByteString>, size: nat, capacity: nat, queries: Filter, queryCount: nat)
    returns (r: Forest?)
    requires data.Some? ==> size <= |data.value|
    requires queries.Some? ==> queryCount <= |queries.value|
    requires size <= SIZE_MAX
    ensures r == null <==>
      || capacity == 0 || (data.None? && size > 0) || (queries.None? && queryCount > 0)
      || (queries.Some? && queryCount == 0) || capacity > MAX_ROOTS
    ensures r != null ==> fresh(r) && fresh(r.roots) && fresh(r.nodes) && r.Valid()
    ensures r != null ==>
      r.Contents() == FirstRoots(Parse(if queries.None? then None else Some(queries.value[..queryCount]),
                                       if data.None? then [] else data.value[..size]),
                                 Room(capacity))
  {
    if capacity == 0 || (data.None? && size > 0) || (queries.None? && queryCount > 0)
       || (queries.Some? && queryCount == 0) {
      return null;
    }
    var filter: Filter := if queries.None? then None else Some(queries.value[..queryCount]);
    var found := new bool[queryCount](_ => false);
    assert found[..] == Start(filter).found;
    r := Forest.Create(capacity);
    if r != null {
      ParseLoop(if data.None? then [] else data.value[..size], filter, r, found);
    }
  }

  lemma {:induction false} AllUnresolved(n: nat)
    ensures Unresolved(seq(n, _ => false)) == n
  {
    if n > 0 {
      assert seq(n, _ => false)[1..] == seq(n - 1, _ => false);
      AllUnresolved(n - 1);
    }
  }

  lemma StartUnresolved(filter: Filter)
    ensures filter.Some? ==> Unresolved(Start(filter).found) == |filter.value|
  {
    if filter.Some? {
      AllUnresolved(|filter.value|);
    }
  }

  lemma RunCons(filter: Filter, st: State, item: Item, rest: seq<Item>)
    requires Fits(st, filter)
    ensures Run(filter, st, [item] + rest) ==
            var st' := Step(filter, st, item);
            if Done(filter, st') then st' else Run(filter, st', rest)
  {
    assert ([item] + rest)[1..] == rest;
  }

  /** What the parser still has to read from `line` on, one line cut off. */
  lemma CutLine(bytes: ByteString, line: nat, lineEnd: nat, next: nat)
    requires line < |bytes| && lineEnd == line + IndexOf(bytes[line..], LF)
    requires next == if lineEnd < |bytes| then lineEnd + 1 else |bytes|
    ensures Database(bytes[line..]) == Prepend(Classify(bytes[line..lineEnd]), Database(bytes[next..]))
  {
    SliceOfRest(bytes, line, lineEnd);
    SliceOfRest(bytes, line, next);
    DatabaseStep(bytes[line..], lineEnd - line, next - line, bytes[line..lineEnd], bytes[next..]);
  }
}
