/** What one line of an IDs database means, and the items a whole database holds. */
module IdsSyntax {
  import opened Bytes
  import opened Sequences

  /** Cuts a database at its newlines; a final newline opens no further line. */
  function Lines(data: ByteString): seq<ByteString> {
    if data == [] then []
    else
      var n := IndexOf(data, LF);
      if n == |data| then [data] else [data[..n]] + Lines(data[n + 1..])
  }

  lemma {:induction false} LinesHoldNoNewline(data: ByteString)
    ensures forall l :: l in Lines(data) ==> LF !in l
    decreases |data|
  {
    if data != [] {
      var n := IndexOf(data, LF);
      IndexOfBefore(data, LF);
      if n < |data| {
        LinesHoldNoNewline(data[n + 1..]);
      } else {
        assert data[..n] == data;
      }
    }
  }

  function HexDigit(b: Byte): (v: int)
    ensures -1 <= v < 16
  {
    if 48 <= b <= 57 then b - 48
    else if 97 <= b <= 102 then b - 97 + 10
    else if 65 <= b <= 70 then b - 65 + 10
    else -1
  }

  predicate IsHex(b: Byte) {
    HexDigit(b) >= 0
  }

  /** The number of leading hexadecimal digits. */
  function HexRun(s: ByteString): (n: nat)
    ensures n <= |s|
    ensures forall i :: 0 <= i < n ==> IsHex(s[i])
    ensures n < |s| ==> !IsHex(s[n])
  {
    if s == [] || !IsHex(s[0]) then 0 else 1 + HexRun(s[1..])
  }

  /** The number a run of hexadecimal digits denotes, most significant digit first. */
  function HexValue(s: ByteString): (v: nat)
    requires forall i :: 0 <= i < |s| ==> IsHex(s[i])
  {
    if s == [] then 0
    else
      assert IsHex(s[|s| - 1]);
      HexValue(s[..|s| - 1]) * 16 + HexDigit(s[|s| - 1])
  }

  lemma {:induction false} HexValueBound(s: ByteString)
    requires forall i :: 0 <= i < |s| ==> IsHex(s[i])
    requires |s| <= 4
    ensures HexValue(s) < 0x1_0000
    ensures |s| <= 3 ==> HexValue(s) < 0x1000
    ensures |s| <= 2 ==> HexValue(s) < 0x100
    ensures |s| <= 1 ==> HexValue(s) < 0x10
  {
    if s != [] {
      HexValueBound(s[..|s| - 1]);
    }
  }

  /** An identifier token is one to four hexadecimal digits not followed by another. */
  predicate HasId(s: ByteString) {
    1 <= HexRun(s) <= 4
  }

  function IdOf(s: ByteString): (id: nat)
    requires HasId(s)
    ensures id < 0x1_0000
  {
    HexValueBound(s[..HexRun(s)]);
    HexValue(s[..HexRun(s)])
  }

  /** Drops the blanks at both ends. */
  function Trim(s: ByteString): (r: ByteString)
    ensures |r| <= |s|
  {
    if s != [] && IsSpace(s[0]) then Trim(s[1..])
    else if s != [] && IsSpace(s[|s| - 1]) then Trim(s[..|s| - 1])
    else s
  }

  predicate IsTrimmed(s: ByteString) {
    s != [] ==> !IsSpace(s[0]) && !IsSpace(s[|s| - 1])
  }

  lemma {:induction false} TrimTrims(s: ByteString)
    ensures IsTrimmed(Trim(s))
    ensures forall b :: b in Trim(s) ==> b in s
  {
    if s != [] && IsSpace(s[0]) {
      TrimTrims(s[1..]);
    } else if s != [] && IsSpace(s[|s| - 1]) {
      TrimTrims(s[..|s| - 1]);
    }
  }

  /** Trim finds the one trimmed span that has only blanks on both sides. */
  lemma {:induction false} TrimIs(s: ByteString, from: nat, to: nat)
    requires from <= to <= |s|
    requires forall i :: 0 <= i < from ==> IsSpace(s[i])
    requires forall i :: to <= i < |s| ==> IsSpace(s[i])
    requires from < to ==> !IsSpace(s[from]) && !IsSpace(s[to - 1])
    ensures Trim(s) == s[from..to]
  {
    if s != [] && IsSpace(s[0]) {
      if to > 0 {
        SliceOfSlice(s, 1, |s|, from, to);
        TrimIs(s[1..], from - 1, to - 1);
      } else {
        TrimIs(s[1..], 0, 0);
      }
    } else if s != [] && IsSpace(s[|s| - 1]) {
      SliceOfSlice(s, 0, |s| - 1, from, to);
      TrimIs(s[..|s| - 1], from, to);
    }
  }

  /** What the parser reads off one line. */
  datatype Item =
    | Skip
    | Stop
    | Vendor(id: nat, name: ByteString)
    | Device(id: nat, name: ByteString)

  predicate IsClassLine(line: ByteString) {
    |line| >= 2 && line[0] == 67 && IsSpace(line[1])
  }

  /** The number of leading tabs. */
  function Indent(line: ByteString): (n: nat)
    ensures n <= |line|
    ensures forall i :: 0 <= i < n ==> line[i] == TAB
    ensures n < |line| ==> line[n] != TAB
  {
    if line == [] || line[0] != TAB then 0 else 1 + Indent(line[1..])
  }

  /** A line below the comments and the class tail: `indent` tabs, then an identifier and a name. */
  function ReadEntry(indent: nat, token: ByteString): Item {
    if indent > 1 || !HasId(token) then Skip
    else
      var name := Trim(token[HexRun(token)..]);
      if indent == 0 then Vendor(IdOf(token), name) else Device(IdOf(token), name)
  }

  function Classify(line: ByteString): Item {
    if line == [] || line[0] == HASH then Skip
    else if IsClassLine(line) then Stop
    else ReadEntry(Indent(line), line[Indent(line)..])
  }

  /** An item in front of the items of the lines that follow; a class line ends the database. */
  function Prepend(item: Item, rest: seq<Item>): seq<Item> {
    match item
    case Stop => []
    case Skip => rest
    case _ => [item] + rest
  }

  /** The vendor and device items of a database, up to the first class line. */
  function Items(lines: seq<ByteString>): seq<Item> {
    if lines == [] then [] else Prepend(Classify(lines[0]), Items(lines[1..]))
  }

  lemma {:induction false} ItemKinds(lines: seq<ByteString>)
    ensures forall item :: item in Items(lines) ==> item.Vendor? || item.Device?
  {
    if lines != [] {
      ItemKinds(lines[1..]);
    }
  }

  function Database(data: ByteString): seq<Item> {
    Items(Lines(data))
  }

  lemma LinesNewline(data: ByteString, n: nat, next: nat)
    requires n == IndexOf(data, LF) && n < |data| && next == n + 1
    ensures Lines(data) == [data[..n]] + Lines(data[next..])
  {
  }

  lemma LinesLast(data: ByteString, n: nat)
    requires data != [] && n == IndexOf(data, LF) && n == |data|
    ensures Lines(data) == [data[..n]] + Lines(data[n..])
  {
    assert data[..n] == data && data[n..] == [] && Lines([]) == [];
  }

  lemma ItemsStep(lines: seq<ByteString>, line: ByteString, rest: seq<ByteString>)
    requires lines == [line] + rest
    ensures Items(lines) == Prepend(Classify(line), Items(rest))
  {
    assert lines[1..] == rest;
  }

  /** One step of reading: the first line, and what is left after its newline. */
  lemma DatabaseStep(data: ByteString, n: nat, next: nat, line: ByteString, rest: ByteString)
    requires data != [] && n == IndexOf(data, LF) && next == if n < |data| then n + 1 else n
    requires line == data[..n] && rest == data[next..]
    ensures Database(data) == Prepend(Classify(line), Database(rest))
  {
    if n < |data| {
      LinesNewline(data, n, next);
    } else {
      LinesLast(data, n);
    }
    ItemsStep(Lines(data), line, Lines(rest));
  }

  lemma DatabaseCons(line: ByteString, rest: ByteString)
    requires LF !in line
    ensures Database(line + [LF] + rest) == Prepend(Classify(line), Database(rest))
  {
    var data := line + [LF] + rest;
    var n, next := |line|, |line| + 1;
    assert data[..n] == line && data[next..] == rest;
    IndexOfIs(data, LF, n);
    DatabaseStep(data, n, next, line, rest);
  }
}
