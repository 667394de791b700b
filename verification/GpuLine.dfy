/** The line of one graphics card and the text of them all, as hardware.c prints them. */
module GpuLine {
  import opened Bytes
  import opened Trees
  import opened IdsSyntax
  import opened Duplicates

  const MAX_GPUS: nat := 16
  const LINE_BUFFER: nat := 256
  const GPU_BUFFER: nat := 4096

  /** One graphics card: the 16-bit PCI ids read from sysfs. */
  type Id = n: nat | n < 0x1_0000
  datatype Gpu = Gpu(implId: Id, partId: Id)

  const GENERIC_GPU: ByteString := Ascii("Generic GPU")

  function UpperHex(d: nat): (b: Byte)
    requires d < 16
    ensures HexDigit(b) == d && (48 <= b <= 57 || 65 <= b <= 70)
  {
    if d < 10 then 48 + d else 65 + d - 10
  }

  /** " [0x%04X]" */
  function IdSuffix(id: nat): (s: ByteString)
    ensures NUL !in s && |s| == 9
  {
    [32, 91, 48, 120, UpperHex(id / 16 / 16 / 16 % 16), UpperHex(id / 16 / 16 % 16), UpperHex(id / 16 % 16), UpperHex(id % 16), 93]
  }

  /** Four digits "0" to "9" and "A" to "F" that denote the id. */
  ghost predicate IsHex4(d: ByteString, id: nat) {
    && |d| == 4 && (forall i :: 0 <= i < 4 ==> IsHex(d[i]) && (48 <= d[i] <= 57 || 65 <= d[i] <= 70))
    && HexValue(d) == id
  }

  lemma HexSnoc(s: ByteString, b: Byte)
    requires IsHex(b) && forall i :: 0 <= i < |s| ==> IsHex(s[i])
    ensures HexValue(s + [b]) == HexValue(s) * 16 + HexDigit(b)
  {
    assert (s + [b])[..|s|] == s;
  }

  lemma HexFour(a: Byte, b: Byte, c: Byte, d: Byte)
    requires IsHex(a) && IsHex(b) && IsHex(c) && IsHex(d)
    ensures HexValue([a, b, c, d]) == ((HexDigit(a) * 16 + HexDigit(b)) * 16 + HexDigit(c)) * 16 + HexDigit(d)
  {
    HexSnoc([], a);
    HexSnoc([a], b);
    HexSnoc([a, b], c);
    HexSnoc([a, b, c], d);
    assert [] + [a] == [a] && [a] + [b] == [a, b] && [a, b] + [c] == [a, b, c] && [a, b, c] + [d] == [a, b, c, d];
  }

  /** The four digits of the suffix denote the id. */
  lemma IdSuffixReadsBack(id: nat)
    requires id < 0x1_0000
    ensures IsHex4(IdSuffix(id)[4..8], id)
  {
    var a, b, c, d := UpperHex(id / 16 / 16 / 16), UpperHex(id / 16 / 16 % 16), UpperHex(id / 16 % 16), UpperHex(id % 16);
    assert IdSuffix(id)[4..8] == [a, b, c, d];
    HexFour(a, b, c, d);
  }

  /** What %s prints of a stored name: everything up to its first NUL. */
  function Printed(name: ByteString): (s: ByteString)
    ensures NUL !in s
  {
    IndexOfBefore(name, NUL);
    CString(name)
  }

  /** "%s%s%s [0x%04X]" cut to a line buffer. */
  function Model(names: Names, partId: nat): (s: ByteString)
    ensures NUL !in s && s != [] && |s| < LINE_BUFFER
  {
    var vendor := if names.vendor.Some? then Printed(names.vendor.value) else GENERIC_GPU;
    var device := if names.device.Some? then [32] + Printed(names.device.value) else [];
    Take(vendor + device + IdSuffix(partId), LINE_BUFFER - 1)
  }

  // ----- A card's line in plain bytes -----------------------------------------------------------------

  /** The bytes of a name up to its first zero byte, all of them if there is none. */
  ghost predicate IsCString(s: ByteString, name: ByteString) {
    0 !in s && s <= name && (s == name || name[|s|] == 0)
  }

  /** The vendor's part of a line: its name or "Generic GPU". */
  ghost predicate IsVendorPart(v: ByteString, vendor: Option<ByteString>) {
    if vendor.Some? then IsCString(v, vendor.value) else v == [71, 101, 110, 101, 114, 105, 99, 32, 71, 80, 85]
  }

  /** The device's part: a blank and its name, or nothing. */
  ghost predicate IsDevicePart(d: ByteString, device: Option<ByteString>) {
    if device.Some? then d != [] && d[0] == 32 && IsCString(d[1..], device.value) else d == []
  }

  /** The line of a card: the two parts, " [0x", the id and "]"; of all that the first 255 bytes. */
  ghost predicate IsCardLine(line: ByteString, names: Names, partId: nat) {
    exists v: ByteString, d: ByteString, h: ByteString ::
      && IsVendorPart(v, names.vendor) && IsDevicePart(d, names.device) && IsHex4(h, partId)
      && line == Take(v + d + [32, 91, 48, 120] + h + [93], 255)
  }

  lemma PrintedIs(name: ByteString)
    ensures IsCString(Printed(name), name)
  {
    IndexOfBefore(name, NUL);
  }

  lemma VendorPart(vendor: Option<ByteString>)
    ensures IsVendorPart(if vendor.Some? then Printed(vendor.value) else GENERIC_GPU, vendor)
  {
    if vendor.Some? {
      PrintedIs(vendor.value);
    }
  }

  lemma DevicePart(device: Option<ByteString>)
    ensures IsDevicePart(if device.Some? then [32] + Printed(device.value) else [], device)
  {
    if device.Some? {
      PrintedIs(device.value);
      assert ([32] + Printed(device.value))[1..] == Printed(device.value);
    }
  }

  lemma ModelIsCardLine(names: Names, partId: nat)
    requires partId < 0x1_0000
    ensures IsCardLine(Model(names, partId), names, partId)
  {
    var v := if names.vendor.Some? then Printed(names.vendor.value) else GENERIC_GPU;
    var d := if names.device.Some? then [32] + Printed(names.device.value) else [];
    var h := IdSuffix(partId)[4..8];
    VendorPart(names.vendor);
    DevicePart(names.device);
    IdSuffixReadsBack(partId);
    assert IdSuffix(partId) == [32, 91, 48, 120] + h + [93];
    assert v + d + IdSuffix(partId) == v + d + [32, 91, 48, 120] + h + [93];
  }

  /** Where the parts of a line stand when vendor and device are known and all fits. */
  lemma CardLineParts(line: ByteString, v: ByteString, d: ByteString, partId: nat)
    requires IsCardLine(line, Names(Some(v), Some(d)), partId) && 0 !in v && 0 !in d && |v| + |d| + 10 <= 255
    ensures |line| == |v| + |d| + 10
    ensures line[..|v|] == v && line[|v|] == 32 && line[|v| + 1..|v| + 1 + |d|] == d
    ensures line[|line| - 9..|line| - 5] == [32, 91, 48, 120] && line[|line| - 1] == 93
    ensures IsHex4(line[|line| - 5..|line| - 1], partId)
  {
    var v', d', h :|
      && IsVendorPart(v', Some(v)) && IsDevicePart(d', Some(d)) && IsHex4(h, partId)
      && line == Take(v' + d' + [32, 91, 48, 120] + h + [93], 255);
    assert v' == v && d'[1..] == d && d' == [32] + d;
    assert line == v + ([32] + d) + [32, 91, 48, 120] + h + [93];
    assert line[|line| - 5..|line| - 1] == h;
  }

  /** The line of a card whose device is not known has no blank but the one of the suffix behind the vendor. */
  lemma CardLineVendorOnly(line: ByteString, v: ByteString, partId: nat)
    requires IsCardLine(line, Names(Some(v), None), partId) && 0 !in v && |v| + 9 <= 255
    ensures |line| == |v| + 9 && line[..|v|] == v
    ensures line[|v|..|v| + 4] == [32, 91, 48, 120] && line[|v| + 8] == 93 && IsHex4(line[|v| + 4..|v| + 8], partId)
  {
    var v', d', h :|
      && IsVendorPart(v', Some(v)) && IsDevicePart(d', None) && IsHex4(h, partId)
      && line == Take(v' + d' + [32, 91, 48, 120] + h + [93], 255);
    assert v' == v && line == v + [32, 91, 48, 120] + h + [93];
    assert line[|v| + 4..|v| + 8] == h;
  }

  /** The line of a card whose vendor is not known starts with "Generic GPU". */
  lemma CardLineUnknown(line: ByteString, partId: nat)
    requires IsCardLine(line, Names(None, None), partId)
    ensures |line| == 20 && line[..15] == Ascii("Generic GPU [0x") && line[19] == 93 && IsHex4(line[15..19], partId)
  {
    var v', d', h :|
      && IsVendorPart(v', None) && IsDevicePart(d', None) && IsHex4(h, partId)
      && line == Take(v' + d' + [32, 91, 48, 120] + h + [93], 255);
    assert line == v' + [32, 91, 48, 120] + h + [93];
    assert line[15..19] == h;
  }

  // ----- The whole text in plain bytes ----------------------------------------------------------------

  /** The names of the shown cards: the first sixteen. */
  ghost predicate AreNames(names: seq<Names>, gpus: seq<Gpu>) {
    |names| == if |gpus| <= 16 then |gpus| else 16
  }

  /** One entry per shown card, each the line of that card. */
  ghost predicate AreCardLines(strings: seq<Entry>, names: seq<Names>, gpus: seq<Gpu>)
    requires AreNames(names, gpus)
  {
    && |strings| == |names|
    && forall i :: 0 <= i < |names| ==> strings[i].Some? && IsCardLine(strings[i].value, names[i], gpus[i].partId)
  }

  /** A listing of the lines of the shown cards, equal lines counted, as far as it fits behind what was there. */
  ghost predicate IsGpuText(text: ByteString, before: ByteString, names: seq<Names>, gpus: seq<Gpu>, bufSize: nat)
    requires AreNames(names, gpus)
  {
    exists strings: seq<Entry>, listing: ByteString ::
      && AreCardLines(strings, names, gpus) && IsListing(listing, before, strings)
      && text == if |before| >= bufSize then before else Take(listing, bufSize - 1)
  }

  /** Cards whose lines all differ are shown line by line, as far as there is room. */
  lemma DistinctCards(text: ByteString, names: seq<Names>, gpus: seq<Gpu>, strings: seq<Entry>, lines: seq<ByteString>,
                      listing: ByteString)
    requires AreNames(names, gpus) && AreCardLines(strings, names, gpus) && IsListing(listing, [], strings)
    requires text == Take(listing, 4095) && AllDistinct(strings, lines)
    ensures text == Take(Joined(lines), 4095)
    ensures forall i :: 0 <= i < |names| ==> IsCardLine(lines[i], names[i], gpus[i].partId)
  {
    DistinctListing(strings, lines, listing);
  }

  lemma CardLineLength(line: ByteString, names: Names, partId: nat)
    requires IsCardLine(line, names, partId)
    ensures 9 <= |line| <= 255
  {
  }

  lemma OneEntry(strings: seq<Entry>, names: Names, gpu: Gpu)
    requires AreCardLines(strings, [names], [gpu])
    ensures |strings| == 1 && strings[0].Some? && IsCardLine(strings[0].value, names, gpu.partId)
  {
    assert IsCardLine(strings[0].value, [names][0], [gpu][0].partId);
  }

  lemma OneText(strings: seq<Entry>, line: ByteString, listing: ByteString)
    requires |strings| == 1 && strings[0] == Some(line) && 9 <= |line| <= 255 && IsListing(listing, [], strings)
    ensures Take(listing, 4095) == line
  {
    SingleListing(strings, line, listing);
  }

  /** The text of a single card is its line. */
  lemma OneCard(text: ByteString, names: Names, gpu: Gpu)
    requires IsGpuText(text, [], [names], [gpu], 4096)
    ensures IsCardLine(text, names, gpu.partId)
  {
    var strings: seq<Entry>, listing: ByteString :|
      AreCardLines(strings, [names], [gpu]) && IsListing(listing, [], strings) && text == Take(listing, 4095);
    OneEntry(strings, names, gpu);
    var line := strings[0].value;
    CardLineLength(line, names, gpu.partId);
    OneText(strings, line, listing);
    assert text == line;
  }
}
