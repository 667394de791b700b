/** The canonical text of a forest, and what CRLF line ends do to a database. */
module IdsText {
  import opened Bytes
  import opened Sequences
  import opened Trees
  import opened IdsSyntax
  import opened IdsParse

  // ----- Printing and parsing back -----------------------------------------------------------

  function HexChar(d: nat): (b: Byte)
    requires d < 16
    ensures HexDigit(b) == d && b != HASH && b != 67 && b != TAB && !IsSpace(b) && b != LF
  {
    if d < 10 then 48 + d else 97 + d - 10
  }

  function Hex4(id: nat): (s: ByteString)
    requires id < 0x1_0000
    ensures |s| == 4 && forall i :: 0 <= i < 4 ==> IsHex(s[i])
  {
    [HexChar(id / 16 / 16 / 16), HexChar(id / 16 / 16 % 16), HexChar(id / 16 % 16), HexChar(id % 16)]
  }

  lemma HexValueSnoc(s: ByteString, d: nat)
    requires d < 16 && forall i :: 0 <= i < |s| ==> IsHex(s[i])
    ensures HexValue(s + [HexChar(d)]) == HexValue(s) * 16 + d
  {
    assert (s + [HexChar(d)])[..|s|] == s;
  }

  lemma Hex4Value(id: nat)
    requires id < 0x1_0000
    ensures HexValue(Hex4(id)) == id
  {
    var a, b, c, d := id / 16 / 16 / 16, id / 16 / 16 % 16, id / 16 % 16, id % 16;
    HexValueSnoc([], a);
    assert [] + [HexChar(a)] == [HexChar(a)];
    HexValueSnoc([HexChar(a)], b);
    assert [HexChar(a)] + [HexChar(b)] == [HexChar(a), HexChar(b)];
    HexValueSnoc([HexChar(a), HexChar(b)], c);
    assert [HexChar(a), HexChar(b)] + [HexChar(c)] == [HexChar(a), HexChar(b), HexChar(c)];
    HexValueSnoc([HexChar(a), HexChar(b), HexChar(c)], d);
    assert [HexChar(a), HexChar(b), HexChar(c)] + [HexChar(d)] == Hex4(id);
  }

  function Entry(id: nat, name: ByteString): ByteString
    requires id < 0x1_0000
  {
    Hex4(id) + [SPACE, SPACE] + name
  }

  predicate CanonicalName(name: ByteString) {
    IsTrimmed(name) && LF !in name
  }

  predicate CanonicalKids(kids: seq<Tree>) {
    forall k :: k in kids ==> k.id < 0x1_0000 && CanonicalName(k.name) && k.children == []
  }

  /** Depth two, 16-bit ids, trimmed one-line names. */
  predicate Canonical(forest: seq<Tree>) {
    forall t :: t in forest ==> t.id < 0x1_0000 && CanonicalName(t.name) && CanonicalKids(t.children)
  }

  function PrintKids(kids: seq<Tree>): ByteString
    requires CanonicalKids(kids)
  {
    if kids == [] then []
    else [TAB] + Entry(kids[0].id, kids[0].name) + [LF] + PrintKids(kids[1..])
  }

  function Print(forest: seq<Tree>): ByteString
    requires Canonical(forest)
  {
    if forest == [] then []
    else
      var t := forest[0];
      Entry(t.id, t.name) + [LF] + (PrintKids(t.children) + Print(forest[1..]))
  }

  lemma EntryReadsBack(id: nat, name: ByteString)
    requires id < 0x1_0000 && CanonicalName(name)
    ensures LF !in Entry(id, name)
    ensures HexRun(Entry(id, name)) == 4
    ensures IdOf(Entry(id, name)) == id
    ensures Trim(Entry(id, name)[4..]) == name
  {
    var s := Entry(id, name);
    assert s[..4] == Hex4(id);
    assert s[4] == SPACE && forall i :: 0 <= i < 4 ==> IsHex(s[i]);
    assert HexRun(s) == 4;
    Hex4Value(id);
    var tail := s[4..];
    assert tail == [SPACE, SPACE] + name;
    assert tail[2..|tail|] == name;
    TrimIs(tail, 2, |tail|);
  }

  lemma ClassifyEntry(id: nat, name: ByteString)
    requires id < 0x1_0000 && CanonicalName(name)
    ensures LF !in Entry(id, name) && LF !in [TAB] + Entry(id, name)
    ensures Classify(Entry(id, name)) == Vendor(id, name)
    ensures Classify([TAB] + Entry(id, name)) == Device(id, name)
  {
    EntryReadsBack(id, name);
    var s := Entry(id, name);
    assert s[0] == Hex4(id)[0];
    assert s[0..] == s;
    assert ([TAB] + s)[1..] == s;
    assert Indent([TAB] + s) == 1;
  }

  function KidItems(kids: seq<Tree>): seq<Item> {
    if kids == [] then [] else [Device(kids[0].id, kids[0].name)] + KidItems(kids[1..])
  }

  lemma VendorLine(id: nat, name: ByteString, rest: ByteString)
    requires id < 0x1_0000 && CanonicalName(name)
    ensures Database(Entry(id, name) + [LF] + rest) == [Vendor(id, name)] + Database(rest)
  {
    ClassifyEntry(id, name);
    DatabaseCons(Entry(id, name), rest);
  }

  lemma DeviceLine(id: nat, name: ByteString, rest: ByteString)
    requires id < 0x1_0000 && CanonicalName(name)
    ensures Database([TAB] + Entry(id, name) + [LF] + rest) == [Device(id, name)] + Database(rest)
  {
    ClassifyEntry(id, name);
    DatabaseCons([TAB] + Entry(id, name), rest);
  }

  lemma {:induction false} KidsReadBack(kids: seq<Tree>, rest: ByteString)
    requires CanonicalKids(kids)
    ensures Database(PrintKids(kids) + rest) == KidItems(kids) + Database(rest)
  {
    if kids == [] {
      assert PrintKids(kids) + rest == rest;
    } else {
      var k, more := kids[0], PrintKids(kids[1..]);
      Regroup([TAB] + Entry(k.id, k.name) + [LF], more, rest);
      Regroup([TAB] + Entry(k.id, k.name), [LF], more + rest);
      DeviceLine(k.id, k.name, more + rest);
      KidsReadBack(kids[1..], rest);
      Regroup([Device(k.id, k.name)], KidItems(kids[1..]), Database(rest));
    }
  }

  lemma {:induction false} KidItemsAreDevices(kids: seq<Tree>, rest: seq<Item>)
    requires CanonicalKids(kids) && (rest == [] || rest[0].Vendor?)
    ensures Devices(KidItems(kids) + rest) == kids
    ensures Group(KidItems(kids) + rest) == Group(rest)
  {
    if kids == [] {
      assert KidItems(kids) + rest == rest;
    } else {
      assert (KidItems(kids) + rest)[1..] == KidItems(kids[1..]) + rest;
      KidItemsAreDevices(kids[1..], rest);
      assert kids[0] == Leaf(kids[0].id, kids[0].name);
    }
  }

  lemma {:induction false} PrintReadsBack(forest: seq<Tree>)
    requires Canonical(forest)
    ensures Group(Database(Print(forest))) == forest
    ensures Database(Print(forest)) == [] || Database(Print(forest))[0].Vendor?
  {
    if forest != [] {
      var t := forest[0];
      var more := Print(forest[1..]);
      VendorLine(t.id, t.name, PrintKids(t.children) + more);
      KidsReadBack(t.children, more);
      PrintReadsBack(forest[1..]);
      KidItemsAreDevices(t.children, Database(more));
    }
  }

  /** Printing a canonical forest and parsing the text gives the forest back. */
  lemma ParsePrint(forest: seq<Tree>)
    requires Canonical(forest)
    ensures Parse(None, Print(forest)) == forest
  {
    PrintReadsBack(forest);
    FullParseGroups(Print(forest));
  }

  predicate CanonicalItems(items: seq<Item>) {
    forall item :: item in items ==> (item.Vendor? || item.Device?) && item.id < 0x1_0000 && CanonicalName(item.name)
  }

  lemma ReadEntryCanonical(indent: nat, token: ByteString)
    requires LF !in token
    ensures var item := ReadEntry(indent, token);
      item.Vendor? || item.Device? ==> item.id < 0x1_0000 && CanonicalName(item.name)
  {
    TrimTrims(token[HexRun(token)..]);
  }

  lemma ClassifyCanonical(line: ByteString)
    requires LF !in line
    ensures Classify(line).Vendor? || Classify(line).Device? ==>
              Classify(line).id < 0x1_0000 && CanonicalName(Classify(line).name)
  {
    ReadEntryCanonical(Indent(line), line[Indent(line)..]);
  }

  lemma {:induction false} ItemsCanonical(lines: seq<ByteString>)
    requires forall l :: l in lines ==> LF !in l
    ensures CanonicalItems(Items(lines))
  {
    ItemKinds(lines);
    if lines != [] {
      assert lines[0] in lines;
      ClassifyCanonical(lines[0]);
      ItemsCanonical(lines[1..]);
    }
  }

  lemma {:induction false} GroupCanonical(items: seq<Item>)
    requires CanonicalItems(items)
    ensures CanonicalKids(Devices(items)) && Canonical(Group(items))
  {
    if items != [] {
      GroupCanonical(items[1..]);
    }
  }

  /** Every full parse yields a canonical forest, so parsing its printed form changes nothing. */
  lemma ParsePrintParse(data: ByteString)
    ensures Canonical(Parse(None, data))
    ensures Parse(None, Print(Parse(None, data))) == Parse(None, data)
  {
    FullParseGroups(data);
    LinesHoldNoNewline(data);
    ItemsCanonical(Lines(data));
    GroupCanonical(Database(data));
    ParsePrint(Parse(None, data));
  }

  // ----- CRLF line ends ------------------------------------------------------------------------

  /** Puts a CR before every LF. */
  function Crlf(data: ByteString): ByteString {
    if data == [] then []
    else (if data[0] == LF then [CR, LF] else [data[0]]) + Crlf(data[1..])
  }

  /** Some newline-terminated line is exactly "C", and the parser gets that far. */
  ghost predicate ReachesBareC(data: ByteString)
    decreases |data|
  {
    var n := IndexOf(data, LF);
    n < |data| && (data[..n] == [67] || (!Classify(data[..n]).Stop? && ReachesBareC(data[n + 1..])))
  }

  lemma {:induction false} CrlfNoNewline(line: ByteString)
    requires LF !in line
    ensures Crlf(line) == line
  {
    if line != [] {
      CrlfNoNewline(line[1..]);
    }
  }

  lemma {:induction false} CrlfLine(line: ByteString, rest: ByteString)
    requires LF !in line
    ensures Crlf(line + [LF] + rest) == line + [CR] + [LF] + Crlf(rest)
  {
    if line == [] {
      assert line + [LF] + rest == [LF] + rest;
    } else {
      assert (line + [LF] + rest)[1..] == line[1..] + [LF] + rest;
      CrlfLine(line[1..], rest);
    }
  }

  lemma {:induction false} HexRunCr(s: ByteString)
    ensures HexRun(s + [CR]) == HexRun(s)
  {
    if s != [] {
      assert (s + [CR])[1..] == s[1..] + [CR];
      HexRunCr(s[1..]);
    }
  }

  lemma {:induction false} IndentCr(s: ByteString)
    ensures Indent(s + [CR]) == Indent(s)
  {
    if s != [] {
      assert (s + [CR])[1..] == s[1..] + [CR];
      IndentCr(s[1..]);
    }
  }

  lemma {:induction false} TrimCr(s: ByteString)
    ensures Trim(s + [CR]) == Trim(s)
  {
    if s == [] {
      assert [] + [CR] == [CR] && [CR][1..] == [];
    } else if IsSpace(s[0]) {
      assert (s + [CR])[1..] == s[1..] + [CR];
      TrimCr(s[1..]);
    } else {
      assert (s + [CR])[..|s|] == s;
    }
  }

  lemma ReadEntryCr(indent: nat, token: ByteString)
    ensures ReadEntry(indent, token + [CR]) == ReadEntry(indent, token)
  {
    HexRunCr(token);
    var n := HexRun(token);
    assert token[..n] == (token + [CR])[..n];
    assert (token + [CR])[n..] == token[n..] + [CR];
    TrimCr(token[n..]);
  }

  lemma ClassifyBareC()
    ensures Classify([67, CR]) == Stop && Classify([67]) == Vendor(12, [])
  {
    assert [67][0..] == [67] && [67][..1] == [67] && [67][1..] == [];
    assert HexRun([67]) == 1;
    assert HexValue([67]) == 12;
  }

  /** A trailing CR changes what a line means only when the line is a lone "C". */
  lemma ClassifyCr(line: ByteString)
    requires line != [67]
    ensures Classify(line + [CR]) == Classify(line)
  {
    var line' := line + [CR];
    IndentCr(line);
    assert line'[Indent(line)..] == line[Indent(line)..] + [CR];
    ReadEntryCr(Indent(line), line[Indent(line)..]);
    if line == [] {
      assert line' == [CR] && HexRun([CR]) == 0;
    } else {
      assert line'[0] == line[0];
      assert |line| > 1 ==> line'[1] == line[1];
    }
  }

  function VendorCount(items: seq<Item>): nat {
    if items == [] then 0 else (if items[0].Vendor? then 1 else 0) + VendorCount(items[1..])
  }

  lemma {:induction false} GroupLength(items: seq<Item>)
    ensures |Group(items)| == VendorCount(items)
  {
    if items != [] {
      GroupLength(items[1..]);
    }
  }

  lemma {:induction false} CrlfDatabase(data: ByteString)
    ensures !ReachesBareC(data) ==> Database(Crlf(data)) == Database(data)
    ensures ReachesBareC(data) ==> VendorCount(Database(Crlf(data))) < VendorCount(Database(data))
    decreases |data|
  {
    var n := IndexOf(data, LF);
    IndexOfBefore(data, LF);
    if n == |data| {
      assert data[..n] == data;
      CrlfNoNewline(data);
    } else {
      var line, rest := data[..n], data[n + 1..];
      assert data == line + [LF] + rest;
      DatabaseCons(line, rest);
      CrlfLine(line, rest);
      DatabaseCons(line + [CR], Crlf(rest));
      if line == [67] {
        ClassifyBareC();
      } else {
        ClassifyCr(line);
        CrlfDatabase(rest);
      }
    }
  }

  /** Without such a line CRLF line ends change no parse, whatever its filter. */
  lemma CrlfParseFiltered(data: ByteString, filter: Filter)
    requires !ReachesBareC(data)
    ensures Parse(filter, Crlf(data)) == Parse(filter, data)
  {
    CrlfDatabase(data);
  }

  /** CRLF line ends give the same forest exactly when the parse does not come upon a bare "C" line. */
  lemma CrlfParse(data: ByteString)
    ensures Parse(None, Crlf(data)) == Parse(None, data) <==> !ReachesBareC(data)
  {
    FullParseGroups(data);
    FullParseGroups(Crlf(data));
    GroupLength(Database(data));
    GroupLength(Database(Crlf(data)));
    CrlfDatabase(data);
  }
}
