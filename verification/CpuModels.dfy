/** The models of a cpuinfo file in plain bytes: which line gives a package its name. */
module CpuModels {
  import opened Bytes
  import opened Sequences
  import opened CpuName
  import opened CpuTopology
  import opened CpuInfo
  import opened Duplicates

  // ----- Numbers ----------------------------------------------------------------------------------

  predicate AreDigits(d: ByteString) {
    forall i :: 0 <= i < |d| ==> 48 <= d[i] <= 57
  }

  predicate NoDigitFirst(rest: ByteString) {
    rest == [] || rest[0] < 48 || rest[0] > 57
  }

  /** The number that `acc` followed by the digits denotes. */
  function Continued(d: ByteString, acc: nat): (v: nat)
    requires AreDigits(d)
    ensures v >= acc
  {
    if d == [] then acc else Continued(d[1..], acc * 10 + (d[0] - 48))
  }

  lemma {:induction false} ContinuedSnoc(d: ByteString, c: Byte, acc: nat)
    requires AreDigits(d) && 48 <= c <= 57
    ensures AreDigits(d + [c]) && Continued(d + [c], acc) == Continued(d, acc) * 10 + (c - 48)
  {
    if d == [] {
      assert ([] + [c])[1..] == [];
    } else {
      assert (d + [c])[1..] == d[1..] + [c];
      ContinuedSnoc(d[1..], c, acc * 10 + (d[0] - 48));
    }
  }

  lemma {:induction false} ContinuedIsValue(d: ByteString)
    requires AreDigits(d)
    ensures Continued(d, 0) == DecimalValue(d)
  {
    if d != [] {
      var n := |d| - 1;
      ContinuedIsValue(d[..n]);
      ContinuedSnoc(d[..n], d[n], 0);
      assert d[..n] + [d[n]] == d;
    }
  }

  lemma DigitsStep(b: Byte, more: ByteString, acc: nat)
    requires 48 <= b <= 57 && acc <= SIZE_MAX
    ensures var next := acc * 10 + (b - 48);
      Digits([b] + more, acc) == Digits(more, if next > SIZE_MAX then SIZE_MAX else next)
  {
    assert ([b] + more)[1..] == more;
  }

  lemma {:induction false} DigitsAre(d: ByteString, rest: ByteString, acc: nat)
    requires AreDigits(d) && NoDigitFirst(rest) && acc <= SIZE_MAX
    ensures Digits(d + rest, acc) == if Continued(d, acc) > SIZE_MAX then SIZE_MAX else Continued(d, acc)
    decreases |d|
  {
    if d == [] {
      assert d + rest == rest;
    } else {
      var next := acc * 10 + (d[0] - 48);
      assert d + rest == [d[0]] + (d[1..] + rest);
      DigitsStep(d[0], d[1..] + rest, acc);
      DigitsAre(d[1..], rest, if next > SIZE_MAX then SIZE_MAX else next);
    }
  }

  lemma {:induction false} OverflowsIff(d: ByteString, rest: ByteString, acc: nat)
    requires AreDigits(d) && NoDigitFirst(rest) && acc <= SIZE_MAX
    ensures Overflows(d + rest, acc) <==> Continued(d, acc) > SIZE_MAX
    decreases |d|
  {
    if d == [] {
      assert d + rest == rest;
    } else {
      var next := acc * 10 + (d[0] - 48);
      assert (d + rest)[0] == d[0] && (d + rest)[1..] == d[1..] + rest;
      if next <= SIZE_MAX {
        OverflowsIff(d[1..], rest, next);
      }
    }
  }

  lemma {:induction false} BlanksSkipped(blanks: ByteString, s: ByteString)
    requires forall b :: b in blanks ==> b in [32, 9, 10, 11, 12, 13]
    ensures Strtoul(blanks + s) == Strtoul(s)
  {
    if blanks == [] {
      assert blanks + s == s;
    } else {
      assert (blanks + s)[0] == blanks[0] && blanks[0] in blanks && (blanks + s)[1..] == blanks[1..] + s;
      BlanksSkipped(blanks[1..], s);
    }
  }

  /** Blanks, an optional sign, digits, and anything that is no digit: the number, cut at 2^64 - 1, or its negative. */
  lemma StrtoulReads(blanks: ByteString, sign: ByteString, d: ByteString, rest: ByteString)
    requires forall b :: b in blanks ==> b in [32, 9, 10, 11, 12, 13]
    requires sign == [] || sign == [43] || sign == [45]
    requires d != [] && AreDigits(d) && NoDigitFirst(rest)
    ensures var v := DecimalValue(d);
      Strtoul(blanks + (sign + (d + rest))) ==
        if v > 0xFFFF_FFFF_FFFF_FFFF then 0xFFFF_FFFF_FFFF_FFFF
        else if sign == [45] then (0x1_0000_0000_0000_0000 - v) % 0x1_0000_0000_0000_0000 else v
  {
    BlanksSkipped(blanks, sign + (d + rest));
    ContinuedIsValue(d);
    DigitsAre(d, rest, 0);
    OverflowsIff(d, rest, 0);
    assert (sign + (d + rest))[|sign|..] == d + rest;
    assert (d + rest)[0] == d[0];
  }

  /** What printf wrote, strtoul reads. */
  lemma StrtoulReadsDecimal(blanks: ByteString, n: nat, rest: ByteString)
    requires n <= SIZE_MAX && NoDigitFirst(rest)
    requires forall b :: b in blanks ==> b in [32, 9, 10, 11, 12, 13]
    ensures Strtoul(blanks + (Decimal(n) + rest)) == n
  {
    DecimalReadsBack(n);
    StrtoulReads(blanks, [], Decimal(n), rest);
    assert [] + (Decimal(n) + rest) == Decimal(n) + rest;
  }

  // ----- Keys and values -----------------------------------------------------------------------------

  /** The text behind a colon up to a newline, without one blank in front if there is one. */
  ghost predicate IsValue(rest: ByteString, value: ByteString) {
    exists blank: ByteString, tail: ByteString :: IsValueBetween(rest, blank, value, tail)
  }

  predicate IsValueBetween(rest: ByteString, blank: ByteString, value: ByteString, tail: ByteString) {
    && rest == blank + value + tail
    && (blank == [32] || (blank == [] && (value == [] || value[0] != 32)))
    && 10 !in value && (tail == [] || tail[0] == 10)
  }

  /** A line that starts with the key and has a colon behind it, with the value behind the first one. */
  ghost predicate Carries(line: ByteString, key: ByteString, value: ByteString) {
    exists more: ByteString, rest: ByteString ::
      line == key + more + [58] + rest && 58 !in key + more && IsValue(rest, value)
  }

  lemma ColonAt(line: ByteString, front: ByteString, rest: ByteString)
    requires line == front + [58] + rest && 58 !in front
    ensures IndexOf(line, COLON) == |front| && line[..|front|] == front && line[|front| + 1..] == rest
  {
    assert line[..|front|] == front;
    IndexOfIs(line, COLON, |front|);
  }

  lemma NewlineAt(rest: ByteString, front: ByteString, tail: ByteString)
    requires rest == front + tail && 10 !in front && (tail == [] || tail[0] == 10)
    ensures rest[..IndexOf(rest, LF)] == front
  {
    assert rest[..|front|] == front;
    IndexOfIs(rest, LF, |front|);
  }

  lemma ValueIff(rest: Chunk, value: ByteString)
    ensures IsValue(rest, value) <==> ValueIn(rest) == value
  {
    if IsValue(rest, value) {
      var blank: ByteString, tail: ByteString :| IsValueBetween(rest, blank, value, tail);
      NewlineAt(rest, blank + value, tail);
      assert (blank + value)[|blank|..] == value;
    }
    ValueInIs(rest);
  }

  lemma ValueInIs(rest: Chunk)
    ensures IsValue(rest, ValueIn(rest))
  {
    var e := IndexOf(rest, LF);
    IndexOfBefore(rest, LF);
    var raw, value := rest[..e], ValueIn(rest);
    var blank, tail := if raw != [] && raw[0] == 32 then [32] else [], rest[e..];
    assert raw == blank + value && rest == raw + tail && rest == blank + value + tail;
    assert forall b :: b in value ==> b in raw;
    assert IsValueBetween(rest, blank, value, tail);
  }

  lemma CarriesGives(line: Chunk, key: ByteString, value: ByteString)
    requires Carries(line, key, value)
    ensures IndexOf(line, COLON) < |line| && StartsWith(KeyOf(line), key) && ValueOf(line) == value
  {
    var more: ByteString, rest: ByteString :|
      line == key + more + [58] + rest && 58 !in key + more && IsValue(rest, value);
    ColonAt(line, key + more, rest);
    assert (key + more)[..|key|] == key;
    assert forall b :: b in rest ==> b in line;
    ValueIff(rest, value);
  }

  lemma CarriesIntro(line: ByteString, key: ByteString, more: ByteString, rest: ByteString, value: ByteString)
    requires line == key + more + [58] + rest && 58 !in key + more && IsValue(rest, value)
    ensures Carries(line, key, value)
  {
  }

  lemma GivesCarries(line: Chunk, key: ByteString)
    requires IndexOf(line, COLON) < |line| && StartsWith(KeyOf(line), key)
    ensures Carries(line, key, ValueOf(line))
  {
    var n := IndexOf(line, COLON);
    IndexOfBefore(line, COLON);
    KeyAndMore(line, key, line[|key|..n], line[n + 1..], n);
    ValueInIs(line[n + 1..]);
    CarriesIntro(line, key, line[|key|..n], line[n + 1..], ValueOf(line));
  }

  lemma KeyAndMore(line: ByteString, key: ByteString, more: ByteString, rest: ByteString, n: nat)
    requires n < |line| && line[n] == 58 && StartsWith(line[..n], key) && more == line[|key|..n] && rest == line[n + 1..]
    ensures key + more == line[..n] && line == key + more + [58] + rest
  {
    assert line[..n] == line[..n][..|key|] + line[|key|..n];
    assert line == line[..n] + [58] + line[n + 1..];
  }

  // ----- The reference answer --------------------------------------------------------------------------

  /** The least existing package with the logical id. */
  ghost predicate IsPackageOf(p: Packages, id: nat, q: nat)
    requires CpuInfo.Valid(p)
  {
    && q < 16 && p.present[q] && p.firstId[q] == id
    && forall r :: 0 <= r < q ==> !(p.present[r] && p.firstId[r] == id)
  }

  ghost predicate IsProcessor(line: ByteString, id: nat) {
    exists v :: Carries(line, Ascii("processor"), v) && id == Strtoul(v)
  }

  ghost predicate NoProcessor(lines: seq<Chunk>, from: nat, to: nat)
    requires to <= |lines|
  {
    forall k: nat :: from <= k < to ==> forall id: nat :: !IsProcessor(lines[k], id)
  }

  /** A "processor" line that speaks of package `q`. */
  ghost predicate SpeaksOf(p: Packages, line: ByteString, q: nat)
    requires CpuInfo.Valid(p)
  {
    exists id: nat :: IsProcessor(line, id) && IsPackageOf(p, id, q)
  }

  /** The last "processor" line in front of position `n` speaks of package `q`. */
  ghost predicate IsCurrent(p: Packages, lines: seq<Chunk>, n: nat, q: nat)
    requires CpuInfo.Valid(p) && n <= |lines|
  {
    exists j: nat :: j < n && SpeaksOf(p, lines[j], q) && NoProcessor(lines, j + 1, n)
  }

  /** A "model name" line: at most 127 bytes of its value, sanitised. */
  ghost predicate IsNamed(line: ByteString, name: ByteString) {
    exists v :: Carries(line, Ascii("model name"), v) && name == Sanitize(Take(v, 127))
  }

  /** Line `i` is a "model name" line for package `q`, and something is left of its name. */
  ghost predicate Offers(p: Packages, lines: seq<Chunk>, i: nat, q: nat, name: ByteString)
    requires CpuInfo.Valid(p) && i < |lines|
  {
    && IsCurrent(p, lines, i, q) && name != []
    && IsNamed(lines[i], name)
  }

  ghost predicate NoOffer(p: Packages, lines: seq<Chunk>, n: nat, q: nat)
    requires CpuInfo.Valid(p) && n <= |lines|
  {
    forall i: nat, name: ByteString :: i < n ==> !Offers(p, lines, i, q, name)
  }

  /** The first offer among the first `n` lines, or no name if there is none. */
  ghost predicate IsModel(p: Packages, lines: seq<Chunk>, n: nat, q: nat, name: ByteString)
    requires CpuInfo.Valid(p) && n <= |lines|
  {
    if name == [] then NoOffer(p, lines, n, q)
    else exists i: nat :: i < n && Offers(p, lines, i, q, name) && NoOffer(p, lines, i, q)
  }

  // ----- The parser gives the reference answer -----------------------------------------------------------

  function ProcessorIn(line: Chunk): Option<nat> {
    if IndexOf(line, COLON) < |line| && StartsWith(KeyOf(line), PROCESSOR_KEY) then Some(Strtoul(ValueOf(line))) else None
  }

  function NameIn(line: Chunk): Option<ByteString> {
    if IndexOf(line, COLON) < |line| && StartsWith(KeyOf(line), MODEL_KEY) then Some(ModelName(ValueOf(line))) else None
  }

  lemma ProcessorGives(line: Chunk, id: nat)
    requires IsProcessor(line, id)
    ensures ProcessorIn(line) == Some(id)
  {
    var v :| Carries(line, Ascii("processor"), v) && id == Strtoul(v);
    CarriesGives(line, PROCESSOR_KEY, v);
  }

  lemma ProcessorIff(line: Chunk, id: nat)
    ensures IsProcessor(line, id) <==> ProcessorIn(line) == Some(id)
  {
    if IsProcessor(line, id) {
      ProcessorGives(line, id);
    }
    if ProcessorIn(line) == Some(id) {
      GivesCarries(line, PROCESSOR_KEY);
    }
  }

  lemma NameGives(line: Chunk, name: ByteString)
    requires IsNamed(line, name)
    ensures NameIn(line) == Some(name)
  {
    var v :| Carries(line, Ascii("model name"), v) && name == Sanitize(Take(v, 127));
    CarriesGives(line, MODEL_KEY, v);
  }

  lemma NameIff(line: Chunk, name: ByteString)
    ensures IsNamed(line, name) <==> NameIn(line) == Some(name)
  {
    if IsNamed(line, name) {
      NameGives(line, name);
    }
    if NameIn(line) == Some(name) {
      GivesCarries(line, MODEL_KEY);
    }
  }

  lemma OneKey(line: Chunk)
    ensures ProcessorIn(line).None? || NameIn(line).None?
  {
    if ProcessorIn(line).Some? {
      assert KeyOf(line)[..9][0] == 112 && MODEL_KEY[0] == 109;
      assert KeyOf(line)[0] == 112;
      assert |KeyOf(line)| >= 10 ==> KeyOf(line)[..10][0] == KeyOf(line)[0];
    }
  }

  lemma FindSocketIff(p: Packages, id: nat, q: nat)
    requires CpuInfo.Valid(p)
    ensures FindSocket(p, id, 0) == Some(q) <==> IsPackageOf(p, id, q)
  {
  }

  lemma StepIs(p: Packages, st: State, line: Chunk)
    requires Fits(p, st)
    ensures Step(p, st, line) ==
            if ProcessorIn(line).Some? then st.(socket := FindSocket(p, ProcessorIn(line).value, 0))
            else if NameIn(line).Some? && st.socket.Some? && st.models[st.socket.value] == [] then
              st.(models := st.models[st.socket.value := NameIn(line).value])
            else st
  {
    OneKey(line);
  }

  lemma {:induction false} ReadAllSnoc(p: Packages, st: State, lines: seq<Chunk>, line: Chunk)
    requires Fits(p, st)
    ensures ReadAll(p, st, lines + [line]) == Step(p, ReadAll(p, st, lines), line)
    decreases |lines|
  {
    if lines == [] {
      assert [] + [line] == [line] && [line][1..] == [];
    } else {
      assert (lines + [line])[1..] == lines[1..] + [line];
      ReadAllSnoc(p, Step(p, st, lines[0]), lines[1..], line);
    }
  }

  lemma SpeaksIff(p: Packages, line: Chunk, q: nat)
    requires CpuInfo.Valid(p)
    ensures SpeaksOf(p, line, q) <==> ProcessorIn(line).Some? && FindSocket(p, ProcessorIn(line).value, 0) == Some(q)
    ensures ProcessorIn(line).Some? <==> exists id: nat :: IsProcessor(line, id)
  {
    forall id: nat
      ensures IsProcessor(line, id) <==> ProcessorIn(line) == Some(id)
    {
      ProcessorIff(line, id);
    }
    if ProcessorIn(line).Some? {
      var id := ProcessorIn(line).value;
      assert IsProcessor(line, id);
      FindSocketIff(p, id, q);
    }
  }

  lemma CurrentStep(p: Packages, lines: seq<Chunk>, n: nat, q: nat)
    requires CpuInfo.Valid(p) && n < |lines|
    ensures IsCurrent(p, lines, n + 1, q) <==>
      if ProcessorIn(lines[n]).Some? then FindSocket(p, ProcessorIn(lines[n]).value, 0) == Some(q)
      else IsCurrent(p, lines, n, q)
  {
    SpeaksIff(p, lines[n], q);
    if SpeaksOf(p, lines[n], q) {
      assert NoProcessor(lines, n + 1, n + 1);
    }
  }

  lemma OffersIff(p: Packages, lines: seq<Chunk>, i: nat, q: nat, name: ByteString)
    requires CpuInfo.Valid(p) && i < |lines|
    ensures Offers(p, lines, i, q, name) <==> IsCurrent(p, lines, i, q) && name != [] && NameIn(lines[i]) == Some(name)
  {
    NameIff(lines[i], name);
  }

  lemma ModelStep(p: Packages, lines: seq<Chunk>, n: nat, q: nat, name: ByteString)
    requires CpuInfo.Valid(p) && n < |lines| && IsModel(p, lines, n, q, name)
    ensures IsModel(p, lines, n + 1, q,
      if name == [] && IsCurrent(p, lines, n, q) && NameIn(lines[n]).Some? then NameIn(lines[n]).value else name)
  {
    forall other
      ensures Offers(p, lines, n, q, other) <==>
        IsCurrent(p, lines, n, q) && other != [] && NameIn(lines[n]) == Some(other)
    {
      OffersIff(p, lines, n, q, other);
    }
  }

  const NO_MODELS: seq<ByteString> := [[], [], [], [], [], [], [], [], [], [], [], [], [], [], [], []]

  function Start(): (st: State)
    ensures st.socket.None? && |st.models| == 16 && forall i :: 0 <= i < 16 ==> st.models[i] == []
  {
    State(None, NO_MODELS)
  }

  /** The state after the first `n` lines. */
  ghost function After(p: Packages, lines: seq<Chunk>, n: nat): (st: State)
    requires CpuInfo.Valid(p) && n <= |lines|
    ensures Fits(p, st)
  {
    ReadAll(p, Start(), lines[..n])
  }

  lemma AfterStep(p: Packages, lines: seq<Chunk>, n: nat)
    requires CpuInfo.Valid(p) && n < |lines|
    ensures After(p, lines, n + 1) == Step(p, After(p, lines, n), lines[n])
  {
    assert lines[..n + 1] == lines[..n] + [lines[n]];
    ReadAllSnoc(p, Start(), lines[..n], lines[n]);
  }

  function NextSocket(p: Packages, line: Chunk, socket: Option<nat>): Option<nat>
    requires CpuInfo.Valid(p)
  {
    if ProcessorIn(line).Some? then FindSocket(p, ProcessorIn(line).value, 0) else socket
  }

  function NextName(line: Chunk, socket: Option<nat>, q: nat, name: ByteString): ByteString {
    if name == [] && socket == Some(q) && NameIn(line).Some? then NameIn(line).value else name
  }

  lemma StepNext(p: Packages, st: State, line: Chunk, q: nat)
    requires Fits(p, st) && q < MAX_CPU_PACKAGES
    ensures Step(p, st, line).socket == NextSocket(p, line, st.socket)
    ensures Step(p, st, line).models[q] == NextName(line, st.socket, q, st.models[q])
  {
    StepIs(p, st, line);
    OneKey(line);
  }

  /** How one more line changes the socket and the name of a package. */
  lemma AfterNext(p: Packages, lines: seq<Chunk>, n: nat, q: nat)
    requires CpuInfo.Valid(p) && n < |lines| && q < MAX_CPU_PACKAGES
    ensures After(p, lines, n + 1).socket == NextSocket(p, lines[n], After(p, lines, n).socket)
    ensures After(p, lines, n + 1).models[q] ==
            NextName(lines[n], After(p, lines, n).socket, q, After(p, lines, n).models[q])
  {
    AfterStep(p, lines, n);
    StepNext(p, After(p, lines, n), lines[n], q);
  }

  /** The sockets after 0, 1, 2, ... lines. */
  ghost predicate AreSockets(p: Packages, lines: seq<Chunk>, sockets: seq<Option<nat>>)
    requires CpuInfo.Valid(p)
  {
    && |sockets| == |lines| + 1 && sockets[0] == None
    && forall n: nat :: n < |lines| ==> sockets[n + 1] == NextSocket(p, lines[n], sockets[n])
  }

  lemma {:induction false} SocketsAre(p: Packages, lines: seq<Chunk>, sockets: seq<Option<nat>>, n: nat, q: nat)
    requires CpuInfo.Valid(p) && AreSockets(p, lines, sockets) && n <= |lines|
    ensures sockets[n] == Some(q) <==> IsCurrent(p, lines, n, q)
  {
    if n > 0 {
      SocketsAre(p, lines, sockets, n - 1, q);
      assert sockets[n - 1 + 1] == sockets[n] && 0 <= n - 1 < |lines|;
      CurrentStep(p, lines, n - 1, q);
    }
  }

  /** The names of package `q` after 0, 1, 2, ... lines. */
  ghost predicate AreNamesOf(lines: seq<Chunk>, sockets: seq<Option<nat>>, q: nat, names: seq<ByteString>)
    requires |sockets| == |lines| + 1
  {
    && |names| == |lines| + 1 && names[0] == []
    && forall n: nat :: n < |lines| ==> names[n + 1] == NextName(lines[n], sockets[n], q, names[n])
  }

  lemma {:induction false} NamesAre(p: Packages, lines: seq<Chunk>, sockets: seq<Option<nat>>, q: nat,
                                    names: seq<ByteString>, n: nat)
    requires CpuInfo.Valid(p) && AreSockets(p, lines, sockets) && AreNamesOf(lines, sockets, q, names) && n <= |lines|
    ensures IsModel(p, lines, n, q, names[n])
  {
    if n > 0 {
      NamesAre(p, lines, sockets, q, names, n - 1);
      assert names[n - 1 + 1] == names[n] && 0 <= n - 1 < |lines|;
      SocketsAre(p, lines, sockets, n - 1, q);
      ModelStep(p, lines, n - 1, q, names[n - 1]);
    }
  }

  lemma SocketsOf(p: Packages, lines: seq<Chunk>) returns (sockets: seq<Option<nat>>)
    requires CpuInfo.Valid(p)
    ensures AreSockets(p, lines, sockets)
    ensures forall n: nat :: n <= |lines| ==> sockets[n] == After(p, lines, n).socket
  {
    sockets := seq(|lines| + 1, n requires 0 <= n <= |lines| => After(p, lines, n).socket);
    forall n: nat | n < |lines|
      ensures sockets[n + 1] == NextSocket(p, lines[n], sockets[n])
    {
      AfterNext(p, lines, n, 0);
    }
  }

  lemma NamesOf(p: Packages, lines: seq<Chunk>, sockets: seq<Option<nat>>, q: nat) returns (names: seq<ByteString>)
    requires CpuInfo.Valid(p) && q < MAX_CPU_PACKAGES
    requires |sockets| == |lines| + 1 && forall n: nat :: n <= |lines| ==> sockets[n] == After(p, lines, n).socket
    ensures AreNamesOf(lines, sockets, q, names) && names[|lines|] == After(p, lines, |lines|).models[q]
  {
    names := seq(|lines| + 1, n requires 0 <= n <= |lines| => After(p, lines, n).models[q]);
    forall n: nat | n < |lines|
      ensures names[n + 1] == NextName(lines[n], sockets[n], q, names[n])
    {
      AfterNext(p, lines, n, q);
    }
  }

  /** Reading all lines gives every package the first name offered to it. */
  lemma ModelsAfter(p: Packages, lines: seq<Chunk>, q: nat)
    requires CpuInfo.Valid(p) && q < MAX_CPU_PACKAGES
    ensures IsModel(p, lines, |lines|, q, ReadAll(p, Start(), lines).models[q])
  {
    var sockets := SocketsOf(p, lines);
    var names := NamesOf(p, lines, sockets, q);
    NamesAre(p, lines, sockets, q, names, |lines|);
    assert lines[..|lines|] == lines;
  }

  /**
   * hw_get_cpu_info up to the printing: the topology and then the models. Each package gets the first
   * name the file offers it, whatever the directory order and wherever the reading stops.
   */
  method GetCpuModels(nodes: seq<CoreNode>, cpu0: Option<nat>, lines: seq<Chunk>)
    returns (t: Topology, models: array<ByteString>)
    ensures t.Valid() && Describes(t.Summaries(), WithFallback(multiset(nodes), cpu0)) && models.Length == 16
    ensures forall pkgs, q :: Describes(pkgs, WithFallback(multiset(nodes), cpu0)) && 0 <= q < 16 ==>
      IsModel(PackagesOf(pkgs), lines, |lines|, q, models[q])
  {
    t := new Topology();
    t.ParseTopology(nodes, cpu0);
    models := new ByteString[MAX_CPU_PACKAGES](_ => []);
    assert models[..] == NO_MODELS;
    ParseX86CpuModel(lines, t, models);
    assert lines[..|lines|] == lines;
    forall q: nat | q < 16
      ensures IsModel(In(t), lines, |lines|, q, models[q])
    {
      ModelsAfter(In(t), lines, q);
    }
    forall pkgs | Describes(pkgs, WithFallback(multiset(nodes), cpu0))
      ensures pkgs == t.Summaries()
    {
      DescribesUnique(pkgs, t.Summaries(), WithFallback(multiset(nodes), cpu0));
    }
  }
}
