/** The lines of an IDs database in plain bytes: which ones count, and what each of them says. */
module IdsLines {
  import opened Bytes
  import opened Sequences
  import opened IdsSyntax
  import opened IdsParse

  // ----- Bytes ------------------------------------------------------------------------------------

  predicate IsHexByte(b: Byte) {
    48 <= b <= 57 || 65 <= b <= 70 || 97 <= b <= 102
  }

  /** "0" to "9" count from 0, "a" to "f" and "A" to "F" from 10; no other byte is a digit. */
  lemma HexDigitIs(d: nat, b: Byte)
    ensures d < 10 ==> HexDigit(48 + d) == d
    ensures d < 6 ==> HexDigit(97 + d) == 10 + d && HexDigit(65 + d) == 10 + d
    ensures IsHexByte(b) <==> HexDigit(b) != -1
  {
  }

  predicate IsBlankByte(b: Byte) {
    b == 32 || b == 9 || b == 10 || b == 11 || b == 12 || b == 13
  }

  /** The first `n` bytes of `s` are an identifier: one to four hexadecimal digits and not a digit more. */
  predicate IsToken(s: ByteString, n: nat) {
    && 1 <= n <= 4 && n <= |s|
    && (forall i :: 0 <= i < n ==> IsHexByte(s[i]))
    && (n < |s| ==> !IsHexByte(s[n]))
  }

  ghost predicate HasToken(s: ByteString) {
    exists n: nat :: IsToken(s, n)
  }

  lemma {:induction false} HexRunIs(s: ByteString, n: nat)
    requires n <= |s| && (forall i :: 0 <= i < n ==> IsHexByte(s[i])) && (n < |s| ==> !IsHexByte(s[n]))
    ensures HexRun(s) == n
  {
    if n > 0 {
      HexRunIs(s[1..], n - 1);
    }
  }

  lemma TokenIff(s: ByteString)
    ensures HasId(s) <==> HasToken(s)
    ensures forall n: nat :: IsToken(s, n) ==> HexRun(s) == n
  {
    if HasId(s) {
      assert IsToken(s, HexRun(s));
    }
    forall n: nat | IsToken(s, n)
      ensures HexRun(s) == n
    {
      HexRunIs(s, n);
    }
  }

  /** A name is what is left of the text behind the token without the blank bytes at both ends. */
  lemma NameIs(before: ByteString, name: ByteString, after: ByteString)
    requires forall b :: b in before || b in after ==> IsBlankByte(b)
    requires name != [] ==> !IsBlankByte(name[0]) && !IsBlankByte(name[|name| - 1])
    ensures Trim(before + name + after) == name
  {
    var s, from, to := before + name + after, |before|, |before| + |name|;
    forall i | to <= i < |s|
      ensures IsSpace(s[i])
    {
      assert s[i] == after[i - to] && after[i - to] in after;
    }
    forall i | 0 <= i < from
      ensures IsSpace(s[i])
    {
      assert s[i] == before[i] && before[i] in before;
    }
    assert s[from..to] == name;
    TrimIs(s, from, to);
  }

  // ----- One line -----------------------------------------------------------------------------------

  /** "C", a blank, and anything. */
  predicate EndsDatabase(line: ByteString) {
    |line| >= 2 && line[0] == 67 && IsBlankByte(line[1])
  }

  /** What an identifier and a name look like: the token, its value, and the trimmed rest. */
  ghost predicate SaysEntry(s: ByteString, id: nat, name: ByteString) {
    exists n: nat :: IsToken(s, n) && id == HexValue(s[..n]) && name == Trim(s[n..])
  }

  /** A vendor line: the identifier stands at the very start. */
  ghost predicate SaysVendor(line: ByteString, id: nat, name: ByteString) {
    !EndsDatabase(line) && SaysEntry(line, id, name)
  }

  /** A device line: one tab, then the identifier. */
  ghost predicate SaysDevice(line: ByteString, id: nat, name: ByteString) {
    |line| >= 2 && line[0] == 9 && SaysEntry(line[1..], id, name)
  }

  /** A line that says nothing: empty, a comment, two tabs deep, or without an identifier. */
  ghost predicate SaysNothing(line: ByteString) {
    || line == [] || line[0] == 35 || (|line| >= 2 && line[0] == 9 && line[1] == 9)
    || !HasToken(if line[0] == 9 then line[1..] else line)
  }

  lemma EntryIff(s: ByteString, id: nat, name: ByteString)
    ensures SaysEntry(s, id, name) <==> HasId(s) && id == IdOf(s) && name == Trim(s[HexRun(s)..])
  {
    TokenIff(s);
    if HasId(s) {
      assert IsToken(s, HexRun(s));
    }
  }

  lemma FlushLeft(line: ByteString)
    requires line != [] && line[0] != 9
    ensures Indent(line) == 0 && line[0..] == line
  {
  }

  lemma OneTab(line: ByteString)
    requires line != [] && line[0] == 9 && (|line| == 1 || line[1] != 9)
    ensures Indent(line) == 1
  {
    if |line| > 1 {
      FlushLeft(line[1..]);
    } else {
      assert Indent(line[1..]) == 0;
    }
  }

  lemma TwoTabs(line: ByteString)
    requires |line| >= 2 && line[0] == 9 && line[1] == 9
    ensures Indent(line) >= 2
  {
    assert Indent(line[1..]) >= 1;
  }

  lemma TabIsNoToken(s: ByteString)
    requires s == [] || s[0] == 9 || s[0] == 35
    ensures !HasToken(s)
  {
  }

  /** The exact byte form of each kind of line. */
  lemma ClassifyIs(line: ByteString, id: nat, name: ByteString)
    ensures Classify(line) == Vendor(id, name) <==> SaysVendor(line, id, name)
    ensures Classify(line) == Device(id, name) <==> SaysDevice(line, id, name)
    ensures Classify(line).Stop? <==> EndsDatabase(line)
    ensures Classify(line).Skip? <==> SaysNothing(line)
  {
    if line == [] {
      TabIsNoToken(line);
    } else if line[0] == 9 {
      TabbedIs(line, id, name);
    } else {
      FlushLeft(line);
      EntryIff(line, id, name);
      TokenIff(line);
      if line[0] == 35 {
        TabIsNoToken(line);
      }
      if EndsDatabase(line) {
        assert IsToken(line, 1);
      }
    }
  }

  lemma TabbedIs(line: ByteString, id: nat, name: ByteString)
    requires line != [] && line[0] == 9
    ensures Classify(line) != Vendor(id, name) && !SaysVendor(line, id, name)
    ensures Classify(line) == Device(id, name) <==> SaysDevice(line, id, name)
    ensures !Classify(line).Stop? && !EndsDatabase(line)
    ensures Classify(line).Skip? <==> SaysNothing(line)
  {
    TabIsNoToken(line);
    if |line| >= 2 && line[1] == 9 {
      TwoTabs(line);
      TabIsNoToken(line[1..]);
    } else {
      OneTab(line);
      EntryIff(line[1..], id, name);
      TokenIff(line[1..]);
      if |line| == 1 {
        TabIsNoToken(line[1..]);
      }
    }
  }

  // ----- Lines in a database ------------------------------------------------------------------------

  /** Whole lines: nothing, or something that ends in a newline. */
  predicate EndsLine(a: ByteString) {
    a == [] || a[|a| - 1] == 10
  }

  /** Whether a database has a line that ends it. */
  ghost predicate Ends(a: ByteString) {
    AnyEnds(Lines(a))
  }

  ghost predicate AnyEnds(lines: seq<ByteString>) {
    exists line :: line in lines && EndsDatabase(line)
  }

  lemma {:induction false} IndexAtMost(s: ByteString, c: Byte, i: nat)
    requires i < |s| && s[i] == c
    ensures IndexOf(s, c) <= i
  {
    if s[0] != c {
      IndexAtMost(s[1..], c, i - 1);
    }
  }

  lemma FirstLine(line: ByteString, rest: ByteString)
    requires 10 !in line
    ensures Lines(line + [10] + rest) == [line] + Lines(rest)
  {
    var data := line + [10] + rest;
    assert data[..|line|] == line && data[|line| + 1..] == rest;
    IndexOfIs(data, LF, |line|);
    LinesNewline(data, |line|, |line| + 1);
  }

  lemma {:induction false} LinesConcat(a: ByteString, b: ByteString)
    requires EndsLine(a)
    ensures Lines(a + b) == Lines(a) + Lines(b)
    decreases |a|
  {
    if a == [] {
      assert a + b == b;
    } else {
      var n := IndexOf(a, LF);
      IndexAtMost(a, LF, |a| - 1);
      IndexOfBefore(a, LF);
      var line, rest := a[..n], a[n + 1..];
      assert a == line + [10] + rest && a + b == line + [10] + (rest + b);
      FirstLine(line, rest);
      FirstLine(line, rest + b);
      LinesConcat(rest, b);
      Regroup([line], Lines(rest), Lines(b));
    }
  }

  lemma AnyEndsStep(line: ByteString, rest: seq<ByteString>)
    ensures AnyEnds([line] + rest) <==> EndsDatabase(line) || AnyEnds(rest)
  {
    if EndsDatabase(line) {
      assert line in [line] + rest;
    }
    assert forall l :: l in rest ==> l in [line] + rest;
  }

  lemma PrependConcat(item: Item, a: seq<Item>, b: seq<Item>)
    ensures Prepend(item, a) + b == if item.Stop? then b else Prepend(item, a + b)
  {
    if !item.Stop? && !item.Skip? {
      Regroup([item], a, b);
    }
  }

  lemma StopIff(line: ByteString)
    ensures Classify(line).Stop? <==> EndsDatabase(line)
  {
    ClassifyIs(line, 0, []);
  }

  lemma {:induction false} ItemsConcat(a: seq<ByteString>, b: seq<ByteString>)
    ensures Items(a + b) == Items(a) + if AnyEnds(a) then [] else Items(b)
  {
    if a == [] {
      assert a + b == b;
    } else {
      var line, rest := a[0], a[1..];
      assert a == [line] + rest && a + b == [line] + (rest + b);
      AnyEndsStep(line, rest);
      StopIff(line);
      ItemsStep(a, line, rest);
      ItemsStep(a + b, line, rest + b);
      ItemsConcat(rest, b);
      PrependConcat(Classify(line), Items(rest), if AnyEnds(a) then [] else Items(b));
    }
  }

  /** Whole lines are read one after another, up to one that ends the database. */
  lemma DatabaseConcat(a: ByteString, b: ByteString)
    requires EndsLine(a)
    ensures Database(a + b) == Database(a) + if Ends(a) then [] else Database(b)
  {
    LinesConcat(a, b);
    ItemsConcat(Lines(a), Lines(b));
  }

  lemma OneLine(line: ByteString)
    requires 10 !in line
    ensures Database(line + [10]) == Prepend(Classify(line), []) && (Ends(line + [10]) <==> EndsDatabase(line))
  {
    var data := line + [10];
    assert data[..|line|] == line && data[|line| + 1..] == [];
    IndexOfIs(data, LF, |line|);
    assert Lines(data) == [line] + Lines([]) == [line];
    ItemsStep([line], line, []);
  }

  lemma LineThen(line: ByteString, b: ByteString)
    requires 10 !in line
    ensures Database(line + [10] + b) == Prepend(Classify(line), []) + if EndsDatabase(line) then [] else Database(b)
  {
    DatabaseConcat(line + [10], b);
    OneLine(line);
  }

  /** What a line between whole lines and anything else adds to the items. */
  lemma LineBetween(a: ByteString, line: ByteString, b: ByteString)
    requires EndsLine(a) && 10 !in line
    ensures Database(a + line + [10] + b) == Database(a) +
      if Ends(a) then [] else Prepend(Classify(line), []) + (if EndsDatabase(line) then [] else Database(b))
    ensures Database(a + b) == Database(a) + if Ends(a) then [] else Database(b)
  {
    assert a + line + [10] + b == a + (line + [10] + b);
    DatabaseConcat(a, line + [10] + b);
    LineThen(line, b);
    DatabaseConcat(a, b);
  }

  lemma NothingIsSkipped(line: ByteString)
    requires SaysNothing(line)
    ensures Classify(line) == Skip && !EndsDatabase(line)
  {
    ClassifyIs(line, 0, []);
  }

  lemma SkipRead(a: ByteString, line: ByteString, b: ByteString)
    requires EndsLine(a) && 10 !in line && Classify(line) == Skip && !EndsDatabase(line)
    ensures Database(a + line + [10] + b) == Database(a + b)
  {
    LineBetween(a, line, b);
    NothingAdded(Database(a), Ends(a), Database(b));
  }

  lemma NothingAdded(a: seq<Item>, ends: bool, b: seq<Item>)
    ensures a + (if ends then [] else Prepend(Skip, []) + b) == a + if ends then [] else b
  {
    assert [] + b == b;
  }

  /** A line that says nothing could as well not be there. */
  lemma NothingRead(a: ByteString, line: ByteString, b: ByteString)
    requires EndsLine(a) && 10 !in line && SaysNothing(line)
    ensures Database(a + line + [10] + b) == Database(a + b)
  {
    NothingIsSkipped(line);
    SkipRead(a, line, b);
  }

  /** From a "C" line on nothing is read. */
  lemma TailNotRead(a: ByteString, line: ByteString, b: ByteString)
    requires EndsLine(a) && 10 !in line && EndsDatabase(line)
    ensures Database(a + line + [10] + b) == Database(a) && Database(a + line) == Database(a)
  {
    LineBetween(a, line, b);
    StopIff(line);
    DatabaseConcat(a, line);
    LastLine(line);
  }

  lemma LastLine(line: ByteString)
    requires line != [] && 10 !in line
    ensures Database(line) == Prepend(Classify(line), [])
  {
    IndexOfIs(line, LF, |line|);
    LinesLast(line, |line|);
    assert line[..|line|] == line && Lines([]) == [];
    ItemsStep(Lines(line), line, []);
  }

  lemma ItemRead(a: ByteString, line: ByteString, b: ByteString, item: Item)
    requires EndsLine(a) && 10 !in line && !Ends(a) && !EndsDatabase(line)
    requires Classify(line) == item && (item.Vendor? || item.Device?)
    ensures Database(a + line + [10] + b) == Database(a) + [item] + Database(b)
  {
    LineBetween(a, line, b);
    assert Prepend(item, []) == [item];
    Regroup(Database(a), [item], Database(b));
  }

  /** A vendor line that the parser reaches is read as just that. */
  lemma VendorRead(a: ByteString, line: ByteString, b: ByteString, id: nat, name: ByteString)
    requires EndsLine(a) && 10 !in line && !Ends(a) && SaysVendor(line, id, name)
    ensures Database(a + line + [10] + b) == Database(a) + [Vendor(id, name)] + Database(b)
  {
    ClassifyIs(line, id, name);
    ItemRead(a, line, b, Vendor(id, name));
  }

  /** And so is a device line. */
  lemma DeviceRead(a: ByteString, line: ByteString, b: ByteString, id: nat, name: ByteString)
    requires EndsLine(a) && 10 !in line && !Ends(a) && SaysDevice(line, id, name)
    ensures Database(a + line + [10] + b) == Database(a) + [Device(id, name)] + Database(b)
  {
    ClassifyIs(line, id, name);
    ItemRead(a, line, b, Device(id, name));
  }

  /** A line that says nothing changes no parse, full or filtered. */
  lemma NothingParsed(a: ByteString, line: ByteString, b: ByteString, filter: Filter)
    requires EndsLine(a) && 10 !in line && SaysNothing(line)
    ensures Parse(filter, a + line + [10] + b) == Parse(filter, a + b)
  {
    NothingRead(a, line, b);
  }

  /** What follows a "C" line changes no parse, full or filtered. */
  lemma TailNotParsed(a: ByteString, line: ByteString, b: ByteString, filter: Filter)
    requires EndsLine(a) && 10 !in line && EndsDatabase(line)
    ensures Parse(filter, a + line + [10] + b) == Parse(filter, a)
  {
    TailNotRead(a, line, b);
  }
}
