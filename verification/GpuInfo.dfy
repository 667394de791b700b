/** The GPU line of hardware.c: filtered parse, lookups, model names, grouping. */
module GpuInfo {
  import opened Bytes
  import opened Trees
  import opened BinaryTrees
  import opened Forests
  import opened IdsSyntax
  import opened IdsParse
  import opened IdsScanner
  import opened IdsText
  import opened Duplicates
  import opened GpuLine

  /** The names a lookup gives; a missing forest gives none. */
  function NamesIn(forest: Option<seq<Tree>>, gpu: Gpu): Names {
    if forest.None? then Names(None, None) else Lookup(forest.value, gpu.implId, gpu.partId)
  }

  function ModelOf(forest: Option<seq<Tree>>, gpu: Gpu): Entry {
    Some(Model(NamesIn(forest, gpu), gpu.partId))
  }

  function Models(forest: Option<seq<Tree>>, gpus: seq<Gpu>): (ms: seq<Entry>)
    ensures |ms| == |gpus|
  {
    seq(|gpus|, i requires 0 <= i < |gpus| => ModelOf(forest, gpus[i]))
  }

  /** The cards that are shown: the first sixteen of the list. */
  function Shown(gpus: seq<Gpu>): seq<Gpu> {
    if |gpus| <= MAX_GPUS then gpus else gpus[..MAX_GPUS]
  }

  /** The names of the shown cards. */
  function NamesOf(forest: Option<seq<Tree>>, gpus: seq<Gpu>): (names: seq<Names>)
    ensures AreNames(names, gpus) && forall i :: 0 <= i < |names| ==> names[i] == NamesIn(forest, gpus[i])
  {
    seq(if |gpus| <= 16 then |gpus| else 16, i requires 0 <= i < |gpus| => NamesIn(forest, gpus[i]))
  }

  /** The GPU text for a forest, after what the buffer held before. */
  function GpuText(before: ByteString, forest: Option<seq<Tree>>, gpus: seq<Gpu>, bufSize: nat): ByteString {
    if |before| >= bufSize then before
    else Take(Text(before, Groups(Models(forest, Shown(gpus)), |Shown(gpus)|)), bufSize - 1)
  }

  function Queries(gpus: seq<Gpu>): seq<Query> {
    seq(|gpus|, i requires 0 <= i < |gpus| => Query(gpus[i].implId, gpus[i].partId))
  }

  /** Names looked up in a filtered parse are those of the full parse. */
  lemma ModelsAgree(database: ByteString, gpus: seq<Gpu>)
    ensures Models(Some(Parse(Some(Queries(gpus)), database)), gpus) == Models(Some(Parse(None, database)), gpus)
  {
    forall i | 0 <= i < |gpus|
      ensures NamesIn(Some(Parse(Some(Queries(gpus)), database)), gpus[i])
           == NamesIn(Some(Parse(None, database)), gpus[i])
    {
      assert Queries(gpus)[i] in Queries(gpus);
      FilteredAgreesWithFull(database, Queries(gpus), Queries(gpus)[i]);
    }
  }

  /** The GPU text built from a filtered parse of the shown cards is the one a full parse gives. */
  lemma GpuTextAgrees(before: ByteString, database: ByteString, gpus: seq<Gpu>, bufSize: nat)
    ensures GpuText(before, Some(Parse(Some(Queries(Shown(gpus))), database)), gpus, bufSize)
         == GpuText(before, Some(Parse(None, database)), gpus, bufSize)
  {
    ModelsAgree(database, Shown(gpus));
  }

  /** tree_find_root and tree_find on the heap forest. */
  method LookupPair(forest: Forest, implId: nat, partId: nat) returns (names: Names)
    requires forest.Valid()
    ensures names == Lookup(forest.Contents(), implId, partId)
  {
    var vendor, k := forest.FindRootNode(implId);
    if vendor == null {
      return Names(None, None);
    }
    ghost var tree := Single(Drop(forest.shape, k));
    var device := TreeFind(vendor, partId, tree);
    TreeFindFinds(vendor, partId, tree);
    assert Value(tree) == [Root(Drop(forest.shape, k))];
    names := Names(Some(vendor.name), if device == null then None else Some(device.name));
  }

  /** The model name of one card. */
  method LookupModel(forest: Forest?, gpu: Gpu) returns (model: ByteString)
    requires forest != null ==> forest.Valid()
    ensures model == Model(NamesIn(if forest == null then None else Some(forest.Contents()), gpu), gpu.partId)
  {
    var names := Names(None, None);
    if forest != null {
      names := LookupPair(forest, gpu.implId, gpu.partId);
    }
    model := Model(names, gpu.partId);
  }

  lemma ModelsAt(forest: Option<seq<Tree>>, gpus: seq<Gpu>, k: nat)
    requires k < |gpus|
    ensures Models(forest, gpus)[k] == Some(Model(NamesIn(forest, gpus[k]), gpus[k].partId))
  {
  }

  /** The entry of the card at position `k`. */
  method EntryAt(forest: Forest?, gpus: seq<Gpu>, k: nat, ghost models: seq<Entry>) returns (entry: Entry)
    requires forest != null ==> forest.Valid()
    requires k < |Shown(gpus)| == |models|
    requires models == Models(if forest == null then None else Some(forest.Contents()), Shown(gpus))
    ensures entry == models[k]
  {
    var model := LookupModel(forest, gpus[k]);
    ModelsAt(if forest == null then None else Some(forest.Contents()), Shown(gpus), k);
    entry := Some(model);
  }

  /** The loop of hw_gpu_lookup_names: one model name per shown card. */
  method BuildModels(forest: Forest?, gpus: seq<Gpu>) returns (strings: seq<Entry>)
    requires forest != null ==> forest.Valid()
    ensures strings == Models(if forest == null then None else Some(forest.Contents()), Shown(gpus))
  {
    ghost var models := Models(if forest == null then None else Some(forest.Contents()), Shown(gpus));
    strings := [];
    while |strings| < |gpus| && |strings| < MAX_GPUS
      invariant |strings| <= |models|
      invariant forall j :: 0 <= j < |strings| ==> strings[j] == models[j]
    {
      var entry := EntryAt(forest, gpus, |strings|, models);
      strings := strings + [entry];
    }
  }

  lemma ModelsAreCardLines(forest: Option<seq<Tree>>, gpus: seq<Gpu>)
    ensures AreCardLines(Models(forest, Shown(gpus)), NamesOf(forest, gpus), gpus)
  {
    forall i | 0 <= i < |Shown(gpus)|
      ensures IsCardLine(Model(NamesIn(forest, gpus[i]), gpus[i].partId), NamesIn(forest, gpus[i]), gpus[i].partId)
    {
      ModelIsCardLine(NamesIn(forest, gpus[i]), gpus[i].partId);
    }
  }

  lemma GpuTextReads(before: ByteString, forest: Option<seq<Tree>>, gpus: seq<Gpu>, bufSize: nat)
    ensures IsGpuText(GpuText(before, forest, gpus, bufSize), before, NamesOf(forest, gpus), gpus, bufSize)
  {
    ModelsAreCardLines(forest, gpus);
    TextIsListing(before, Models(forest, Shown(gpus)));
  }

  /** hw_gpu_lookup_names up to what its text means. */
  method AppendModels(out: array<Byte>, bufSize: nat, forest: Forest?, gpus: seq<Gpu>)
    requires bufSize <= out.Length && NUL in out[..]
    requires forest != null ==> forest.Valid()
    modifies out
    ensures NUL in out[..] && forall i :: bufSize <= i < out.Length ==> out[i] == old(out[i])
    ensures CString(out[..]) == GpuText(old(CString(out[..])),
                                        if forest == null then None else Some(old(forest.Contents())), gpus, bufSize)
  {
    if bufSize == 0 {
      return;
    }
    var strings := BuildModels(forest, gpus);
    ghost var listing := FormatDuplicates(strings, out, bufSize);
  }

  /** hw_gpu_lookup_names: the buffer ends with the lines of the cards, as the forest names them. */
  method LookupNames(out: array<Byte>, bufSize: nat, forest: Forest?, gpus: seq<Gpu>)
    requires bufSize <= out.Length && NUL in out[..]
    requires forest != null ==> forest.Valid()
    modifies out
    ensures NUL in out[..] && forall i :: bufSize <= i < out.Length ==> out[i] == old(out[i])
    ensures CString(out[..]) == GpuText(old(CString(out[..])),
                                        if forest == null then None else Some(old(forest.Contents())), gpus, bufSize)
    ensures IsGpuText(CString(out[..]), old(CString(out[..])),
                      NamesOf(if forest == null then None else Some(old(forest.Contents())), gpus), gpus, bufSize)
  {
    GpuTextReads(CString(out[..]), if forest == null then None else Some(forest.Contents()), gpus, bufSize);
    AppendModels(out, bufSize, forest, gpus);
  }

  /** The query construction of hw_get_gpu_info. */
  method BuildQueries(gpus: seq<Gpu>) returns (queries: seq<Query>)
    ensures queries == Queries(Shown(gpus))
  {
    queries := [];
    while |queries| < |gpus| && |queries| < MAX_GPUS
      invariant |queries| <= |Shown(gpus)| && queries == Queries(Shown(gpus))[..|queries|]
    {
      queries := queries + [Query(gpus[|queries|].implId, gpus[|queries|].partId)];
    }
  }

  /** CRLF line ends in the database do not show in the text, unless the parse comes upon a bare "C" line. */
  lemma GpuTextCrlf(before: ByteString, database: ByteString, gpus: seq<Gpu>, bufSize: nat)
    requires !ReachesBareC(database)
    ensures GpuText(before, Some(Parse(Some(Queries(Shown(gpus))), Crlf(database))), gpus, bufSize)
         == GpuText(before, Some(Parse(None, database)), gpus, bufSize)
  {
    CrlfParseFiltered(database, Some(Queries(Shown(gpus))));
    GpuTextAgrees(before, database, gpus, bufSize);
  }

  /** What the heap forest of a filtered parse holds: as many roots as there is room for. */
  ghost function Filtered(database: Option<ByteString>, gpus: seq<Gpu>): Option<seq<Tree>> {
    if database.None? then None
    else Some(FirstRoots(Parse(Some(Queries(Shown(gpus))), database.value), Room(MAX_GPUS)))
  }

  ghost function Full(database: Option<ByteString>): Option<seq<Tree>> {
    if database.None? then None else Some(Parse(None, database.value))
  }

  /** The vendor of every shown card that has a root has one among those there is room for. */
  ghost predicate HasRoom(database: Option<ByteString>, gpus: seq<Gpu>) {
    database.Some? ==>
      var forest := Parse(Some(Queries(Shown(gpus))), database.value);
      forall i :: 0 <= i < |Shown(gpus)| && FindRoot(forest, Shown(gpus)[i].implId).Some? ==>
        FindRoot(FirstRoots(forest, Room(MAX_GPUS)), Shown(gpus)[i].implId).Some?
  }

  lemma RoomBelow(database: Option<ByteString>, gpus: seq<Gpu>)
    requires database.Some? ==> |database.value| <= MAX_ROOTS / 2 + 1
    ensures HasRoom(database, gpus)
  {
    if database.Some? {
      RootsNeedBytes(Some(Queries(Shown(gpus))), database.value);
    }
  }

  /** The heap forest of the filtered parse names every shown card as the full parse does exactly if there is room. */
  lemma NamesAgreeIffRoom(database: ByteString, gpus: seq<Gpu>)
    ensures HasRoom(Some(database), gpus) <==>
      forall i :: 0 <= i < |Shown(gpus)| ==>
        NamesIn(Filtered(Some(database), gpus), Shown(gpus)[i]) == NamesIn(Full(Some(database)), Shown(gpus)[i])
  {
    var forest := Parse(Some(Queries(Shown(gpus))), database);
    forall i | 0 <= i < |Shown(gpus)|
      ensures NamesIn(Filtered(Some(database), gpus), Shown(gpus)[i]) == NamesIn(Full(Some(database)), Shown(gpus)[i])
         <==> (FindRoot(forest, Shown(gpus)[i].implId).Some? ==>
                 FindRoot(FirstRoots(forest, Room(MAX_GPUS)), Shown(gpus)[i].implId).Some?)
    {
      LookupInFirst(forest, Room(MAX_GPUS), Shown(gpus)[i].implId, Shown(gpus)[i].partId);
      assert Queries(Shown(gpus))[i] in Queries(Shown(gpus));
      FilteredAgreesWithFull(database, Queries(Shown(gpus)), Queries(Shown(gpus))[i]);
    }
  }

  lemma FilteredTextAgrees(database: Option<ByteString>, gpus: seq<Gpu>, bufSize: nat)
    requires HasRoom(database, gpus)
    ensures GpuText([], Filtered(database, gpus), gpus, bufSize) == GpuText([], Full(database), gpus, bufSize)
  {
    if database.Some? {
      NamesAgreeIffRoom(database.value, gpus);
      SameModels(Filtered(database, gpus), Full(database), Shown(gpus));
    }
  }

  lemma SameModels(a: Option<seq<Tree>>, b: Option<seq<Tree>>, gpus: seq<Gpu>)
    requires forall i :: 0 <= i < |gpus| ==> NamesIn(a, gpus[i]) == NamesIn(b, gpus[i])
    ensures Models(a, gpus) == Models(b, gpus)
  {
  }

  /** util_parse_ids_file_filtered on the contents of pci.ids; an absent file gives NULL. */
  method ParseDatabase(database: Option<ByteString>, queries: seq<Query>) returns (forest: Forest?)
    requires queries != [] && (database.Some? ==> |database.value| <= SIZE_MAX)
    ensures forest == null <==> database.None?
    ensures forest != null ==>
      forest.Valid() && forest.Contents() == FirstRoots(Parse(Some(queries), database.value), Room(MAX_GPUS))
  {
    if database.None? {
      return null;
    }
    forest := ParseSpan(database, |database.value|, MAX_GPUS, Some(queries), |queries|);
    assert queries[..|queries|] == queries && database.value[..|database.value|] == database.value;
  }

  /** char buf[size] = {0}; */
  method EmptyBuffer(size: nat) returns (buf: array<Byte>)
    requires size > 0
    ensures fresh(buf) && buf.Length == size && NUL in buf[..] && CString(buf[..]) == []
  {
    buf := new Byte[size](_ => NUL);
    assert buf[..][0] == NUL;
    EmptyString(buf[..]);
  }

  /** The names the reference answer gives a card, none without a database. */
  ghost function AnswerOf(database: Option<ByteString>, gpu: Gpu): Names {
    if database.None? then Names(None, None) else Answer(Database(database.value), Query(gpu.implId, gpu.partId))
  }

  ghost function Answers(database: Option<ByteString>, gpus: seq<Gpu>): (names: seq<Names>)
    ensures AreNames(names, gpus) && forall i :: 0 <= i < |names| ==> names[i] == AnswerOf(database, gpus[i])
  {
    seq(if |gpus| <= 16 then |gpus| else 16, i requires 0 <= i < |gpus| => AnswerOf(database, gpus[i]))
  }

  lemma FullAnswers(database: Option<ByteString>, gpus: seq<Gpu>)
    ensures NamesOf(Full(database), gpus) == Answers(database, gpus)
  {
    forall i | 0 <= i < |Answers(database, gpus)|
      ensures AnswerOf(database, gpus[i]) == NamesIn(Full(database), gpus[i])
    {
      if database.Some? {
        FullParseAnswers(database.value, Query(gpus[i].implId, gpus[i].partId));
      }
    }
  }

  /** The text for the full parse lists the reference answers. */
  lemma FullTextReads(database: Option<ByteString>, gpus: seq<Gpu>)
    ensures IsGpuText(GpuText([], Full(database), gpus, GPU_BUFFER), [], Answers(database, gpus), gpus, 4096)
  {
    FullAnswers(database, gpus);
    GpuTextReads([], Full(database), gpus, GPU_BUFFER);
  }

  /** The text of `gpus`, however it was built, if it is that of the filtered heap forest. */
  lemma TextReads(database: Option<ByteString>, gpus: seq<Gpu>, text: ByteString)
    requires text == GpuText([], Filtered(database, gpus), gpus, GPU_BUFFER)
    ensures HasRoom(database, gpus) ==>
      && text == GpuText([], Full(database), gpus, GPU_BUFFER)
      && IsGpuText(text, [], Answers(database, gpus), gpus, 4096)
  {
    if HasRoom(database, gpus) {
      FilteredTextAgrees(database, gpus, GPU_BUFFER);
      FullTextReads(database, gpus);
    }
  }

  /** The body of hw_get_gpu_info once the cards and the database are read. */
  method PrintGpus(gpus: seq<Gpu>, database: Option<ByteString>) returns (text: ByteString)
    requires gpus != [] && (database.Some? ==> |database.value| <= SIZE_MAX)
    ensures text == GpuText([], Filtered(database, gpus), gpus, GPU_BUFFER)
  {
    var queries := BuildQueries(gpus);
    var forest := ParseDatabase(database, queries);
    var info := EmptyBuffer(GPU_BUFFER);
    LookupNames(info, GPU_BUFFER, forest, gpus);
    text := CString(info[..]);
  }

  /**
   * hw_get_gpu_info: the filtered parse shows what a full parse would, and that lists the answers of
   * the database in plain bytes. `database` is None when no pci.ids file was found.
   */
  method GetGpuInfo(gpus: seq<Gpu>, database: Option<ByteString>) returns (text: ByteString)
    requires database.Some? ==> |database.value| <= SIZE_MAX
    ensures text == GpuText([], Filtered(database, gpus), gpus, GPU_BUFFER)
    ensures HasRoom(database, gpus) ==>
      && text == GpuText([], Full(database), gpus, GPU_BUFFER)
      && IsGpuText(text, [], Answers(database, gpus), gpus, 4096)
  {
    text := [];
    if gpus != [] {
      text := PrintGpus(gpus, database);
    }
    TextReads(database, gpus, text);
  }

  /** One card that the database knows: where its vendor, its device and its id stand in the text. */
  lemma OneCardAnswer(database: ByteString, gpu: Gpu, text: ByteString, v: ByteString, d: ByteString)
    requires IsGpuText(text, [], Answers(Some(database), [gpu]), [gpu], 4096)
    requires Answer(Database(database), Query(gpu.implId, gpu.partId)) == Names(Some(v), Some(d))
    requires 0 !in v && 0 !in d && |v| + |d| + 10 <= 255
    ensures |text| == |v| + |d| + 10
    ensures text[..|v|] == v && text[|v|] == 32 && text[|v| + 1..|v| + 1 + |d|] == d
    ensures text[|text| - 9..|text| - 5] == [32, 91, 48, 120] && text[|text| - 1] == 93
    ensures IsHex4(text[|text| - 5..|text| - 1], gpu.partId)
  {
    assert Answers(Some(database), [gpu]) == [AnswerOf(Some(database), gpu)];
    OneCard(text, Names(Some(v), Some(d)), gpu);
    CardLineParts(text, v, d, gpu.partId);
  }
}
