/** The x86 cpuinfo parser of hardware.c, which stops once every package has a model name. */
module CpuInfo {
  import opened Bytes
  import opened CpuName
  import opened CpuNameBuffer
  import opened CpuTopology
  import Duplicates

  const MEDIUM_BUFFER: nat := 128
  const COLON: Byte := 58
  const PROCESSOR_KEY: ByteString := Ascii("processor")
  const MODEL_KEY: ByteString := Ascii("model name")

  /** What fgets reads into the line buffer. */
  type Chunk = s: ByteString | NUL !in s

  // ----- One line --------------------------------------------------------------------------------

  function KeyOf(line: Chunk): ByteString {
    line[..IndexOf(line, COLON)]
  }

  /** The text after the first colon, up to a newline, without one leading blank. */
  function ValueOf(line: Chunk): (v: ByteString)
    requires IndexOf(line, COLON) < |line|
    ensures NUL !in v
  {
    ValueIn(line[IndexOf(line, COLON) + 1..])
  }

  function ValueIn(rest: Chunk): (v: ByteString)
    ensures NUL !in v
  {
    var value := rest[..IndexOf(rest, LF)];
    if value != [] && value[0] == SPACE then value[1..] else value
  }

  /** The digits strtoul reads in base 10, saturating at ULONG_MAX. */
  function Digits(s: ByteString, acc: nat): (v: nat)
    requires acc <= SIZE_MAX
    ensures v <= SIZE_MAX
  {
    if s == [] || !(48 <= s[0] <= 57) then acc
    else
      var next := acc * 10 + (s[0] - 48);
      Digits(s[1..], if next > SIZE_MAX then SIZE_MAX else next)
  }

  predicate Overflows(s: ByteString, acc: nat) {
    s != [] && 48 <= s[0] <= 57 &&
    (acc * 10 + (s[0] - 48) > SIZE_MAX || Overflows(s[1..], acc * 10 + (s[0] - 48)))
  }

  /** strtoul(s, NULL, 10) with a 64-bit unsigned long: blanks, a sign, digits. */
  function Strtoul(s: ByteString): nat {
    if s != [] && IsSpace(s[0]) then Strtoul(s[1..])
    else if s != [] && s[0] == 43 then Digits(s[1..], 0)
    else if s != [] && s[0] == 45 then
      if Overflows(s[1..], 0) then SIZE_MAX else (SIZE_MAX + 1 - Digits(s[1..], 0)) % (SIZE_MAX + 1)
    else Digits(s, 0)
  }

  // ----- The fold over all lines --------------------------------------------------------------------

  /** What the parser uses of the topology: which packages exist, and the logical id of each. */
  datatype Packages = Packages(present: seq<bool>, firstId: seq<nat>)

  predicate Valid(p: Packages) {
    |p.present| == |p.firstId| == MAX_CPU_PACKAGES
  }

  function PackagesOf(pkgs: seq<Summary>): (p: Packages)
    requires |pkgs| == MAX_CPU_PACKAGES
    ensures Valid(p)
    ensures forall i :: 0 <= i < MAX_CPU_PACKAGES ==> p.present[i] == pkgs[i].present && p.firstId[i] == pkgs[i].firstId
  {
    Packages(seq(MAX_CPU_PACKAGES, i requires 0 <= i < MAX_CPU_PACKAGES => pkgs[i].present),
             seq(MAX_CPU_PACKAGES, i requires 0 <= i < MAX_CPU_PACKAGES => pkgs[i].firstId))
  }

  /** The packages as the arrays of a topology hold them. */
  ghost function In(t: Topology): (p: Packages)
    requires t.Valid()
    reads t, t.cpus, t.cpuMap
    ensures Valid(p)
    ensures forall i :: 0 <= i < MAX_CPU_PACKAGES ==> p.present[i] == t.cpus[i].present && p.firstId[i] == t.cpuMap[i]
  {
    PackagesOf(t.Summaries())
  }

  /** The socket being described, if any, and the model names so far ("" for none). */
  datatype State = State(socket: Option<nat>, models: seq<ByteString>)

  ghost predicate Fits(p: Packages, st: State) {
    && Valid(p) && |st.models| == MAX_CPU_PACKAGES
    && (st.socket.Some? ==> st.socket.value < MAX_CPU_PACKAGES && p.present[st.socket.value])
  }

  /** The first existing package whose logical id is `id`. */
  function FindSocket(p: Packages, id: nat, from: nat): (s: Option<nat>)
    requires Valid(p) && from <= MAX_CPU_PACKAGES
    ensures s.Some? ==> from <= s.value < MAX_CPU_PACKAGES && p.present[s.value] && p.firstId[s.value] == id
    ensures forall i :: from <= i < (if s.Some? then s.value else MAX_CPU_PACKAGES) ==> !(p.present[i] && p.firstId[i] == id)
    decreases MAX_CPU_PACKAGES - from
  {
    if from == MAX_CPU_PACKAGES then None
    else if p.present[from] && p.firstId[from] == id then Some(from)
    else FindSocket(p, id, from + 1)
  }

  /** The model name a line gives: cut to the model buffer, then sanitised. */
  function ModelName(value: ByteString): ByteString {
    Sanitize(Take(value, MEDIUM_BUFFER - 1))
  }

  function StartSocket(p: Packages, st: State, line: Chunk): (st': State)
    requires Fits(p, st) && IndexOf(line, COLON) < |line|
    ensures Fits(p, st') && st'.models == st.models
  {
    if StartsWith(KeyOf(line), PROCESSOR_KEY) then st.(socket := FindSocket(p, Strtoul(ValueOf(line)), 0)) else st
  }

  function Step(p: Packages, st: State, line: Chunk): (st': State)
    requires Fits(p, st)
    ensures Fits(p, st')
  {
    if IndexOf(line, COLON) == |line| then st
    else
      var st1 := StartSocket(p, st, line);
      if StartsWith(KeyOf(line), MODEL_KEY) && st1.socket.Some? && st1.models[st1.socket.value] == [] then
        st1.(models := st1.models[st1.socket.value := ModelName(ValueOf(line))])
      else st1
  }

  /** The model names after reading every line, with no early stop. */
  function ReadAll(p: Packages, st: State, lines: seq<Chunk>): (st': State)
    requires Fits(p, st)
    ensures Fits(p, st')
    decreases |lines|
  {
    if lines == [] then st else ReadAll(p, Step(p, st, lines[0]), lines[1..])
  }

  /** hw_cpu_models_complete: there is a package, and every package has a model. */
  predicate Complete(p: Packages, models: seq<ByteString>)
    requires Valid(p) && |models| == MAX_CPU_PACKAGES
  {
    && (exists i :: 0 <= i < MAX_CPU_PACKAGES && p.present[i])
    && forall i :: 0 <= i < MAX_CPU_PACKAGES && p.present[i] ==> models[i] != []
  }

  /** Once the models are complete no line changes them any more. */
  lemma {:induction false} CompleteIsFinal(p: Packages, st: State, lines: seq<Chunk>)
    requires Fits(p, st) && Complete(p, st.models)
    ensures ReadAll(p, st, lines).models == st.models
    decreases |lines|
  {
    if lines != [] {
      CompleteIsFinal(p, Step(p, st, lines[0]), lines[1..]);
    }
  }

  // ----- The parser ------------------------------------------------------------------------------------

  /** The search of the "processor" line. */
  method SearchSocket(t: Topology, id: nat) returns (socket: Option<nat>)
    requires t.Valid()
    ensures socket == FindSocket(In(t), id, 0)
  {
    for i := 0 to MAX_CPU_PACKAGES
      invariant FindSocket(In(t), id, i) == FindSocket(In(t), id, 0)
    {
      if t.cpus[i].present && t.cpuMap[i] == id {
        return Some(i);
      }
    }
    return None;
  }

  method ModelsComplete(t: Topology, models: array<ByteString>) returns (complete: bool)
    requires t.Valid() && models.Length == MAX_CPU_PACKAGES
    ensures complete == Complete(In(t), models[..])
  {
    var found := false;
    ghost var p := In(t);
    for i := 0 to MAX_CPU_PACKAGES
      invariant found == exists j :: 0 <= j < i && p.present[j]
      invariant forall j :: 0 <= j < i && p.present[j] ==> models[j] != []
    {
      assert p.present[i] == t.cpus[i].present;
      if !t.cpus[i].present {
        continue;
      }
      found := true;
      if models[i] == [] {
        assert models[..][i] == [];
        return false;
      }
    }
    complete := found;
  }

  /** The model buffer: snprintf cuts the value, hw_sanitize_cpu_name edits it in place. */
  method StoreModel(value: ByteString) returns (model: ByteString)
    requires NUL !in value
    ensures model == ModelName(value)
  {
    var buf := new Byte[MEDIUM_BUFFER](_ => NUL);
    Duplicates.Snprintf(buf, 0, MEDIUM_BUFFER, value);
    ghost var kept := Take(value, MEDIUM_BUFFER - 1);
    CStringOf(buf[..], kept, buf[|kept| + 1..]);
    SanitizeCpuName(buf);
    model := CString(buf[..]);
  }

  /** The "model name" arm; `stop` is its break. */
  method TakeModel(t: Topology, models: array<ByteString>, line: Chunk, socket: Option<nat>) returns (stop: bool)
    requires t.Valid() && Fits(In(t), State(socket, models[..])) && IndexOf(line, COLON) < |line|
    modifies models
    ensures models[..] == if socket.Some? && old(models[..])[socket.value] == []
                          then old(models[..])[socket.value := ModelName(ValueOf(line))] else old(models[..])
    ensures stop ==> Complete(In(t), models[..])
  {
    if socket.None? || models[socket.value] != [] {
      return false;
    }
    models[socket.value] := StoreModel(ValueOf(line));
    stop := ModelsComplete(t, models);
  }

  /** One round of the loop of hw_parse_x86_cpu_model; `stop` is its break. */
  method ReadModelLine(t: Topology, models: array<ByteString>, line: Chunk, socket: Option<nat>)
    returns (socket': Option<nat>, stop: bool)
    requires t.Valid() && Fits(In(t), State(socket, models[..]))
    modifies models
    ensures State(socket', models[..]) == Step(In(t), State(socket, old(models[..])), line)
    ensures stop ==> Complete(In(t), models[..])
  {
    socket', stop := socket, false;
    if IndexOf(line, COLON) == |line| {
      return;
    }
    if StartsWith(KeyOf(line), PROCESSOR_KEY) {
      socket' := SearchSocket(t, Strtoul(ValueOf(line)));
    }
    if StartsWith(KeyOf(line), MODEL_KEY) {
      stop := TakeModel(t, models, line, socket');
    }
  }

  lemma ReadAllStep(p: Packages, st: State, line: Chunk, rest: seq<Chunk>, lines: seq<Chunk>)
    requires Fits(p, st) && lines == [line] + rest
    ensures ReadAll(p, st, lines) == ReadAll(p, Step(p, st, line), rest)
  {
    assert lines[1..] == rest;
  }

  /** hw_parse_x86_cpu_model: the early stop gives the same models as reading every line. */
  method ParseX86CpuModel(lines: seq<Chunk>, t: Topology, models: array<ByteString>)
    requires t.Valid() && models.Length == MAX_CPU_PACKAGES
    modifies models
    ensures models[..] == ReadAll(In(t), State(None, old(models[..])), lines).models
  {
    var socket: Option<nat> := None;
    ghost var p := In(t);
    ghost var st := State(None, models[..]);
    ghost var goal := ReadAll(p, st, lines);
    assert lines[0..] == lines;
    for i := 0 to |lines|
      invariant In(t) == p && Fits(p, st) && st == State(socket, models[..])
      invariant ReadAll(p, st, lines[i..]) == goal
    {
      assert lines[i..] == [lines[i]] + lines[i + 1..];
      ReadAllStep(p, st, lines[i], lines[i + 1..], lines[i..]);
      st := Step(p, st, lines[i]);
      var stop;
      socket, stop := ReadModelLine(t, models, lines[i], socket);
      if stop {
        CompleteIsFinal(p, st, lines[i + 1..]);
        return;
      }
    }
  }
}
