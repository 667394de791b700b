/** Grouping of equal hardware names into one line each, written into a bounded buffer. */
module Duplicates {
  import opened Bytes
  import opened Sequences

  /** An entry of the string array: NULL or a C string. */
  type Entry = Option<ByteString>

  predicate AreCStrings(strings: seq<Entry>) {
    forall i :: 0 <= i < |strings| && strings[i].Some? ==> NUL !in strings[i].value
  }

  const TIMES: ByteString := Ascii(" x ")

  /** The line break between groups: a newline and five spaces. */
  const SEPARATOR: ByteString := Ascii("\n     ")

  // ----- The groups -------------------------------------------------------------------------------

  datatype Group = Group(text: ByteString, count: nat)

  /** How often a text occurs. */
  function Occurrences(strings: seq<Entry>, text: ByteString): (n: nat)
    ensures n <= |strings|
  {
    if strings == [] then 0
    else Occurrences(strings[..|strings| - 1], text) + if strings[|strings| - 1] == Some(text) then 1 else 0
  }

  /** Position `i` holds a non-empty text that did not occur before. */
  predicate IsFirst(strings: seq<Entry>, i: nat)
    requires i < |strings|
  {
    strings[i].Some? && strings[i].value != [] && forall j :: 0 <= j < i ==> strings[j] != strings[i]
  }

  /** One group per distinct non-empty text among the first `n`, in order of first occurrence. */
  function Groups(strings: seq<Entry>, n: nat): seq<Group>
    requires n <= |strings|
  {
    if n == 0 then []
    else if IsFirst(strings, n - 1) then
      Groups(strings, n - 1) + [Group(strings[n - 1].value, Occurrences(strings, strings[n - 1].value))]
    else Groups(strings, n - 1)
  }

  lemma {:induction false} OccursIff(strings: seq<Entry>, text: ByteString)
    ensures Occurrences(strings, text) > 0 <==> Some(text) in strings
  {
    if strings != [] {
      OccursIff(strings[..|strings| - 1], text);
      assert strings == strings[..|strings| - 1] + [strings[|strings| - 1]];
    }
  }

  /** Every group stands for a text that occurs, with its multiplicity. */
  lemma {:induction false} GroupsSound(strings: seq<Entry>, n: nat)
    requires n <= |strings|
    ensures forall g :: g in Groups(strings, n) ==>
              g.text != [] && Some(g.text) in strings[..n] && g.count == Occurrences(strings, g.text)
  {
    if n > 0 {
      GroupsSound(strings, n - 1);
      assert strings[..n] == strings[..n - 1] + [strings[n - 1]];
    }
  }

  /** Every non-empty entry is in some group. */
  lemma {:induction false} GroupsComplete(strings: seq<Entry>, n: nat, i: nat)
    requires i < n <= |strings| && strings[i].Some? && strings[i].value != []
    ensures Group(strings[i].value, Occurrences(strings, strings[i].value)) in Groups(strings, n)
    decreases n, i
  {
    if i < n - 1 {
      GroupsComplete(strings, n - 1, i);
    } else if !IsFirst(strings, i) {
      var j :| 0 <= j < i && strings[j] == strings[i];
      GroupsComplete(strings, n - 1, j);
    }
  }

  /** No text has two groups. */
  lemma {:induction false} GroupsDistinct(strings: seq<Entry>, n: nat)
    requires n <= |strings|
    ensures forall a, b :: 0 <= a < b < |Groups(strings, n)| ==> Groups(strings, n)[a].text != Groups(strings, n)[b].text
  {
    if n > 0 {
      GroupsDistinct(strings, n - 1);
      GroupsSound(strings, n - 1);
      var init := Groups(strings, n - 1);
      if IsFirst(strings, n - 1) {
        forall a | 0 <= a < |init|
          ensures init[a].text != strings[n - 1].value
        {
          assert init[a] in init;
        }
      }
    }
  }

  function NonEmpty(strings: seq<Entry>): (n: nat) {
    if strings == [] then 0
    else NonEmpty(strings[..|strings| - 1])
         + if strings[|strings| - 1].Some? && strings[|strings| - 1].value != [] then 1 else 0
  }

  function Total(groups: seq<Group>): nat {
    if groups == [] then 0 else Total(groups[..|groups| - 1]) + groups[|groups| - 1].count
  }

  /** The occurrences, among `strings`, of the texts of some groups. */
  function Covered(groups: seq<Group>, strings: seq<Entry>): nat {
    if groups == [] then 0
    else Covered(groups[..|groups| - 1], strings) + Occurrences(strings, groups[|groups| - 1].text)
  }

  lemma {:induction false} CoveredSame(groups: seq<Group>, a: seq<Entry>, b: seq<Entry>)
    requires forall g :: g in groups ==> Occurrences(a, g.text) == Occurrences(b, g.text)
    ensures Covered(groups, a) == Covered(groups, b)
  {
    if groups != [] {
      assert groups[|groups| - 1] in groups;
      CoveredSame(groups[..|groups| - 1], a, b);
    }
  }

  /** One more occurrence of a text is covered by the one group with that text. */
  lemma {:induction false} CoveredSnoc(groups: seq<Group>, strings: seq<Entry>, entry: Entry, k: nat)
    requires k < |groups| && entry == Some(groups[k].text)
    requires forall a, b :: 0 <= a < b < |groups| ==> groups[a].text != groups[b].text
    ensures Covered(groups, strings + [entry]) == Covered(groups, strings) + 1
  {
    var n := |groups| - 1;
    forall g | g in groups
      ensures Occurrences(strings + [entry], g.text)
           == Occurrences(strings, g.text) + if entry == Some(g.text) then 1 else 0
    {
      assert (strings + [entry])[..|strings|] == strings;
    }
    assert groups[n] in groups;
    if k < n {
      CoveredSnoc(groups[..n], strings, entry, k);
    } else {
      assert forall g :: g in groups[..n] ==> g in groups;
      CoveredSame(groups[..n], strings + [entry], strings);
    }
  }

  lemma {:induction false} CoveredPrefix(groups: seq<Group>, strings: seq<Entry>, m: nat)
    requires m <= |strings| && groups == Groups(strings, |strings|)
    ensures Covered(groups, strings[..m]) == NonEmpty(strings[..m])
  {
    if m == 0 {
      CoveredNothing(groups);
    } else {
      CoveredPrefix(groups, strings, m - 1);
      GroupsDistinct(strings, |strings|);
      var entry := strings[m - 1];
      assert strings[..m] == strings[..m - 1] + [entry] && strings[..m][..m - 1] == strings[..m - 1];
      if entry.Some? && entry.value != [] {
        var g := Group(entry.value, Occurrences(strings, entry.value));
        GroupsComplete(strings, |strings|, m - 1);
        var k :| 0 <= k < |groups| && groups[k] == g;
        CoveredSnoc(groups, strings[..m - 1], entry, k);
      } else {
        GroupsSound(strings, |strings|);
        CoveredSame(groups, strings[..m], strings[..m - 1]);
      }
    }
  }

  lemma {:induction false} CoveredNothing(groups: seq<Group>)
    ensures Covered(groups, []) == 0
  {
    if groups != [] {
      CoveredNothing(groups[..|groups| - 1]);
    }
  }

  lemma {:induction false} TotalIsCovered(groups: seq<Group>, strings: seq<Entry>)
    requires forall g :: g in groups ==> g.count == Occurrences(strings, g.text)
    ensures Total(groups) == Covered(groups, strings)
  {
    if groups != [] {
      assert groups[|groups| - 1] in groups;
      TotalIsCovered(groups[..|groups| - 1], strings);
    }
  }

  /** The multiplicities add up to the number of non-empty entries. */
  lemma MultiplicitiesAddUp(strings: seq<Entry>)
    ensures Total(Groups(strings, |strings|)) == NonEmpty(strings)
  {
    var groups := Groups(strings, |strings|);
    GroupsSound(strings, |strings|);
    TotalIsCovered(groups, strings);
    CoveredPrefix(groups, strings, |strings|);
    assert strings[..|strings|] == strings;
  }

  // ----- The text -----------------------------------------------------------------------------------

  function Decimal(n: nat): (s: ByteString)
    ensures s != [] && NUL !in s
  {
    if n < 10 then [48 + n] else Decimal(n / 10) + [48 + n % 10]
  }

  /** The number a run of decimal digits denotes. */
  function DecimalValue(s: ByteString): nat
    requires forall i :: 0 <= i < |s| ==> 48 <= s[i] <= 57
  {
    if s == [] then 0 else DecimalValue(s[..|s| - 1]) * 10 + (s[|s| - 1] - 48)
  }

  lemma {:induction false} DecimalReadsBack(n: nat)
    ensures forall i :: 0 <= i < |Decimal(n)| ==> 48 <= Decimal(n)[i] <= 57
    ensures DecimalValue(Decimal(n)) == n
    ensures n > 0 ==> Decimal(n)[0] != 48
  {
    if n >= 10 {
      DecimalReadsBack(n / 10);
      assert Decimal(n)[..|Decimal(n)| - 1] == Decimal(n / 10);
    }
  }

  /** One line: the multiplicity when it is not one, and the text. */
  function Line(g: Group): ByteString {
    (if g.count > 1 then Decimal(g.count) + TIMES else []) + g.text
  }

  /** What one append adds to a text. */
  function Addition(text: ByteString, g: Group): ByteString {
    (if text == [] then [] else SEPARATOR) + Line(g)
  }

  /** The text after one append that keeps it within `n` bytes. */
  function Appended(text: ByteString, g: Group, n: nat): ByteString
    requires |text| <= n
  {
    text + Take(Addition(text, g), n - |text|)
  }

  /** The text the groups make when nothing is cut off, after what the buffer held before. */
  function Text(before: ByteString, groups: seq<Group>): ByteString {
    if groups == [] then before
    else
      var text := Text(before, groups[..|groups| - 1]);
      text + Addition(text, groups[|groups| - 1])
  }

  lemma AppendTruncated(text: ByteString, g: Group, n: nat)
    requires g.text != []
    ensures Appended(Take(text, n), g, n) == Take(text + Addition(text, g), n)
  {
    var kept := Take(text, n);
    TakeAppend(text, Addition(text, g), n);
    if n > 0 {
      assert kept == [] <==> text == [];
    } else {
      assert kept == [] && Take(text + Addition(text, g), n) == [];
    }
  }

  lemma LineHasNoNul(g: Group)
    requires NUL !in g.text
    ensures forall text :: NUL !in Addition(text, g)
  {
  }

  // ----- The text in plain bytes ----------------------------------------------------------------------

  /** The first position that holds the text. */
  function FirstAt(strings: seq<Entry>, text: ByteString): (i: nat)
    ensures i <= |strings| && (i < |strings| ==> strings[i] == Some(text))
    ensures forall j :: 0 <= j < i ==> strings[j] != Some(text)
  {
    if strings == [] || strings[0] == Some(text) then 0 else 1 + FirstAt(strings[1..], text)
  }

  /** `texts` are the distinct non-empty texts of the list, ordered by where they first occur. */
  ghost predicate AreFirstTexts(texts: seq<ByteString>, strings: seq<Entry>) {
    && (forall a :: 0 <= a < |texts| ==> texts[a] != [] && Some(texts[a]) in strings)
    && (forall i :: 0 <= i < |strings| && strings[i].Some? && strings[i].value != [] ==> strings[i].value in texts)
    && (forall a, b :: 0 <= a < b < |texts| ==> FirstAt(strings, texts[a]) < FirstAt(strings, texts[b]))
  }

  function Texts(groups: seq<Group>): (texts: seq<ByteString>)
    ensures |texts| == |groups| && forall k :: 0 <= k < |texts| ==> texts[k] == groups[k].text
  {
    seq(|groups|, k requires 0 <= k < |groups| => groups[k].text)
  }

  function GroupLines(groups: seq<Group>): (lines: seq<ByteString>)
    ensures |lines| == |groups| && forall k :: 0 <= k < |lines| ==> lines[k] == Line(groups[k])
  {
    seq(|groups|, k requires 0 <= k < |groups| => Line(groups[k]))
  }

  /** The groups stand in the order in which their texts first occur. */
  lemma {:induction false} GroupsInOrder(strings: seq<Entry>, n: nat)
    requires n <= |strings|
    ensures forall a :: 0 <= a < |Groups(strings, n)| ==> FirstAt(strings, Groups(strings, n)[a].text) < n
    ensures forall a, b :: 0 <= a < b < |Groups(strings, n)| ==>
      FirstAt(strings, Groups(strings, n)[a].text) < FirstAt(strings, Groups(strings, n)[b].text)
  {
    if n > 0 {
      GroupsInOrder(strings, n - 1);
      if IsFirst(strings, n - 1) {
        var at := FirstAt(strings, strings[n - 1].value);
        assert strings[n - 1] == Some(strings[n - 1].value);
        assert at <= n - 1;
        assert at == n - 1;
      }
    }
  }

  lemma GroupTexts(strings: seq<Entry>)
    ensures AreFirstTexts(Texts(Groups(strings, |strings|)), strings)
  {
    var groups := Groups(strings, |strings|);
    GroupsSound(strings, |strings|);
    GroupsInOrder(strings, |strings|);
    assert strings[..|strings|] == strings;
    forall i | 0 <= i < |strings| && strings[i].Some? && strings[i].value != []
      ensures strings[i].value in Texts(groups)
    {
      GroupsComplete(strings, |strings|, i);
      var g := Group(strings[i].value, Occurrences(strings, strings[i].value));
      var k :| 0 <= k < |groups| && groups[k] == g;
      assert Texts(groups)[k] == strings[i].value;
    }
    forall a | 0 <= a < |groups|
      ensures Texts(groups)[a] != [] && Some(Texts(groups)[a]) in strings
    {
      assert groups[a] in groups;
    }
  }

  /** The list holds the text as often as it has positions with it. */
  lemma {:induction false} OccurrencesIsCount(strings: seq<Entry>, text: ByteString)
    ensures Occurrences(strings, text) == |set i | 0 <= i < |strings| && strings[i] == Some(text)|
  {
    var all := set i | 0 <= i < |strings| && strings[i] == Some(text);
    if strings != [] {
      var n := |strings| - 1;
      OccurrencesIsCount(strings[..n], text);
      var init := set i | 0 <= i < n && strings[..n][i] == Some(text);
      assert all == init + if strings[n] == Some(text) then {n} else {};
    }
  }

  /** A line of the list: the text alone if it occurs once, else its number, " x ", and the text. */
  ghost predicate IsLine(line: ByteString, text: ByteString, strings: seq<Entry>) {
    var count := |set i | 0 <= i < |strings| && strings[i] == Some(text)|;
    if count == 1 then line == text
    else exists d: ByteString :: IsNumeral(d, count) && line == d + [32, 120, 32] + text
  }

  /** `d` is the decimal numeral of `n`, without leading zeros. */
  ghost predicate IsNumeral(d: ByteString, n: nat) {
    && d != [] && d[0] != 48 && (forall i :: 0 <= i < |d| ==> 48 <= d[i] <= 57)
    && DecimalValue(d) == n
  }

  lemma LineReadsBack(g: Group, strings: seq<Entry>)
    requires g.count == Occurrences(strings, g.text) && Some(g.text) in strings
    ensures IsLine(Line(g), g.text, strings)
  {
    OccurrencesIsCount(strings, g.text);
    OccursIff(strings, g.text);
    if g.count > 1 {
      DecimalReadsBack(g.count);
      assert IsNumeral(Decimal(g.count), g.count);
      assert Line(g) == Decimal(g.count) + [32, 120, 32] + g.text;
    }
  }

  /** Texts one after another, with a newline and five blanks between them. */
  function Joined(parts: seq<ByteString>): ByteString {
    if parts == [] then []
    else if |parts| == 1 then parts[0]
    else parts[0] + [10, 32, 32, 32, 32, 32] + Joined(parts[1..])
  }

  lemma {:induction false} JoinedSnoc(parts: seq<ByteString>, last: ByteString)
    requires parts != []
    ensures Joined(parts + [last]) == Joined(parts) + [10, 32, 32, 32, 32, 32] + last
  {
    if |parts| == 1 {
      assert (parts + [last])[1..] == [last];
    } else {
      assert (parts + [last])[1..] == parts[1..] + [last];
      JoinedSnoc(parts[1..], last);
    }
  }

  /** What the buffer held, unless that was nothing, in front of the lines. */
  function Parts(before: ByteString, lines: seq<ByteString>): seq<ByteString> {
    (if before == [] then [] else [before]) + lines
  }

  lemma SeparatorBytes()
    ensures SEPARATOR == [10, 32, 32, 32, 32, 32] && TIMES == [32, 120, 32]
  {
  }

  lemma PartsSnoc(before: ByteString, init: seq<Group>, last: Group)
    ensures Parts(before, GroupLines(init + [last])) == Parts(before, GroupLines(init)) + [Line(last)]
  {
    assert GroupLines(init + [last]) == GroupLines(init) + [Line(last)];
  }

  lemma JoinedAddition(parts: seq<ByteString>, text: ByteString, g: Group)
    requires text == Joined(parts) && (text == [] <==> parts == [])
    ensures text + Addition(text, g) == Joined(parts + [Line(g)])
  {
    SeparatorBytes();
    if parts != [] {
      JoinedSnoc(parts, Line(g));
      Regroup(text, SEPARATOR, Line(g));
    }
  }

  /** The ideal text is the old text and the lines, joined. */
  lemma {:induction false} TextIsJoined(before: ByteString, groups: seq<Group>)
    requires forall g :: g in groups ==> g.text != []
    ensures Text(before, groups) == Joined(Parts(before, GroupLines(groups)))
    ensures Text(before, groups) == [] <==> Parts(before, GroupLines(groups)) == []
  {
    if groups != [] {
      var init, last := groups[..|groups| - 1], groups[|groups| - 1];
      assert groups == init + [last] && last in groups;
      TextIsJoined(before, init);
      PartsSnoc(before, init, last);
      JoinedAddition(Parts(before, GroupLines(init)), Text(before, init), last);
    }
  }

  /** The whole listing of a list of names in plain bytes, after what the buffer held. */
  ghost predicate IsListing(text: ByteString, before: ByteString, strings: seq<Entry>) {
    exists texts: seq<ByteString>, lines: seq<ByteString> ::
      && AreFirstTexts(texts, strings) && |lines| == |texts|
      && (forall k :: 0 <= k < |texts| ==> IsLine(lines[k], texts[k], strings))
      && text == Joined(Parts(before, lines))
  }

  lemma TextIsListing(before: ByteString, strings: seq<Entry>)
    ensures IsListing(Text(before, Groups(strings, |strings|)), before, strings)
  {
    var groups := Groups(strings, |strings|);
    GroupsSound(strings, |strings|);
    GroupTexts(strings);
    assert strings[..|strings|] == strings;
    forall k | 0 <= k < |groups|
      ensures IsLine(GroupLines(groups)[k], Texts(groups)[k], strings)
    {
      assert groups[k] in groups;
      LineReadsBack(groups[k], strings);
    }
    TextIsJoined(before, groups);
  }

  lemma {:induction false} Increasing(ps: seq<nat>, k: nat)
    requires k < |ps| && forall a, b :: 0 <= a < b < |ps| ==> ps[a] < ps[b]
    ensures ps[k] >= k
  {
    if k > 0 {
      Increasing(ps, k - 1);
    }
  }

  /** An increasing sequence of all the numbers below `n` is 0, 1, ..., n - 1. */
  lemma {:induction false} CountsUp(ps: seq<nat>, n: nat, k: nat)
    requires k < n && (forall a, b :: 0 <= a < b < |ps| ==> ps[a] < ps[b])
    requires forall i: nat :: i < n ==> i in ps
    ensures k < |ps| && ps[k] == k
  {
    if k > 0 {
      CountsUp(ps, n, k - 1);
    }
    assert k in ps;
    var j :| 0 <= j < |ps| && ps[j] == k;
    Increasing(ps, j);
    if k < |ps| {
      Increasing(ps, k);
    }
  }

  /** The values of a list without NULL, empty or repeated entries. */
  ghost predicate AllDistinct(strings: seq<Entry>, lines: seq<ByteString>) {
    && |lines| == |strings|
    && (forall i :: 0 <= i < |lines| ==> strings[i] == Some(lines[i]) && lines[i] != [])
    && forall i, j :: 0 <= i < j < |lines| ==> lines[i] != lines[j]
  }

  lemma PlaceOf(strings: seq<Entry>, lines: seq<ByteString>, i: nat)
    requires AllDistinct(strings, lines) && i < |lines|
    ensures FirstAt(strings, lines[i]) == i
  {
    var p := FirstAt(strings, lines[i]);
    assert strings[i] == Some(lines[i]);
    assert p <= i && strings[p] == Some(lines[p]);
  }

  lemma Places(strings: seq<Entry>, lines: seq<ByteString>, texts: seq<ByteString>, ps: seq<nat>)
    requires AllDistinct(strings, lines) && AreFirstTexts(texts, strings)
    requires |ps| == |texts| && forall k :: 0 <= k < |texts| ==> ps[k] == FirstAt(strings, texts[k])
    ensures forall k :: 0 <= k < |texts| ==> ps[k] < |lines| && texts[k] == lines[ps[k]]
    ensures forall i: nat :: i < |lines| ==> i in ps
  {
    forall k | 0 <= k < |texts|
      ensures ps[k] < |lines| && texts[k] == lines[ps[k]]
    {
      assert Some(texts[k]) in strings;
    }
    forall i: nat | i < |lines|
      ensures i in ps
    {
      assert strings[i].value in texts;
      var k :| 0 <= k < |texts| && texts[k] == lines[i];
      PlaceOf(strings, lines, i);
      assert ps[k] == i;
    }
  }

  lemma DistinctTexts(strings: seq<Entry>, lines: seq<ByteString>, texts: seq<ByteString>)
    requires AllDistinct(strings, lines) && AreFirstTexts(texts, strings)
    ensures texts == lines
  {
    var ps := seq(|texts|, k requires 0 <= k < |texts| => FirstAt(strings, texts[k]));
    Places(strings, lines, texts, ps);
    if |ps| > 0 {
      Increasing(ps, |ps| - 1);
    }
    forall k | 0 <= k < |lines|
      ensures k < |ps| && ps[k] == k
    {
      CountsUp(ps, |lines|, k);
    }
    if |lines| > 0 {
      CountsUp(ps, |lines|, |lines| - 1);
    }
    assert |texts| == |lines|;
    assert forall k :: 0 <= k < |texts| ==> texts[k] == lines[k];
  }

  lemma OnlyOnce(strings: seq<Entry>, lines: seq<ByteString>, i: nat)
    requires AllDistinct(strings, lines) && i < |lines|
    ensures |set j | 0 <= j < |strings| && strings[j] == Some(lines[i])| == 1
  {
    assert (set j | 0 <= j < |strings| && strings[j] == Some(lines[i])) == {i};
  }

  /** Names that all differ are listed as they are, one per line. */
  lemma DistinctListing(strings: seq<Entry>, lines: seq<ByteString>, listing: ByteString)
    requires AllDistinct(strings, lines) && IsListing(listing, [], strings)
    ensures listing == Joined(lines)
  {
    var texts: seq<ByteString>, shown: seq<ByteString> :|
      && AreFirstTexts(texts, strings) && |shown| == |texts|
      && (forall k :: 0 <= k < |texts| ==> IsLine(shown[k], texts[k], strings))
      && listing == Joined(Parts([], shown));
    DistinctTexts(strings, lines, texts);
    forall k | 0 <= k < |lines|
      ensures shown[k] == lines[k]
    {
      OnlyOnce(strings, lines, k);
      assert IsLine(shown[k], lines[k], strings);
    }
    assert shown == lines && Parts([], shown) == shown;
  }

  /** A single name is listed as it is. */
  lemma SingleListing(strings: seq<Entry>, line: ByteString, listing: ByteString)
    requires strings == [Some(line)] && line != [] && IsListing(listing, [], strings)
    ensures listing == line
  {
    DistinctListing(strings, [line], listing);
    assert Joined([line]) == line;
  }

  // ----- The buffer ---------------------------------------------------------------------------------

  /** snprintf(out + offset, size, "%s", text). */
  method Snprintf(out: array<Byte>, offset: nat, size: nat, text: ByteString)
    requires size > 0 && offset + size <= out.Length
    modifies out
    ensures out[..] == old(out[..offset]) + Take(text, size - 1) + [NUL]
                       + old(out[offset + |Take(text, size - 1)| + 1..])
    ensures forall i :: offset + size <= i < out.Length ==> out[i] == old(out[i])
  {
    var kept := Take(text, size - 1);
    for i := 0 to |kept|
      invariant out[..offset] == old(out[..offset])
      invariant out[offset..offset + i] == kept[..i]
      invariant forall j :: offset + i <= j < out.Length ==> out[j] == old(out[j])
    {
      out[offset + i] := kept[i];
    }
    out[offset + |kept|] := NUL;
  }

  lemma {:induction false} OccurrencesFrom(strings: seq<Entry>, text: ByteString, i: nat)
    requires i <= |strings| && forall j :: 0 <= j < i ==> strings[j] != Some(text)
    ensures Occurrences(strings[..i], text) == 0
  {
    if i > 0 {
      assert strings[..i][..i - 1] == strings[..i - 1];
      OccurrencesFrom(strings, text, i - 1);
    }
  }

  /** The two inner loops: whether an entry starts a group, and how often it occurs. */
  method CountFrom(strings: seq<Entry>, i: nat) returns (first: bool, count: nat)
    requires i < |strings| <= 255 && strings[i].Some? && strings[i].value != []
    ensures first == IsFirst(strings, i)
    ensures first ==> count == Occurrences(strings, strings[i].value) && count <= 255
  {
    first, count := true, 0;
    for j := 0 to i
      invariant forall x :: 0 <= x < j ==> strings[x] != strings[i]
    {
      if strings[j].Some? && strings[j].value == strings[i].value {
        return false, 0;
      }
    }
    count := 1;
    OccurrencesFrom(strings, strings[i].value, i);
    assert strings[..i + 1][..i] == strings[..i];
    for k := i + 1 to |strings|
      invariant count == Occurrences(strings[..k], strings[i].value)
    {
      assert strings[..k + 1][..k] == strings[..k];
      if strings[k].Some? && strings[k].value == strings[i].value {
        count := count + 1;
      }
    }
    assert strings[..|strings|] == strings;
  }

  /** snprintf at the end of the string the buffer holds, into what is left of the buffer. */
  method AppendText(out: array<Byte>, bufSize: nat, text: ByteString)
    requires bufSize <= out.Length && |CString(out[..])| < bufSize && NUL !in text
    modifies out
    ensures NUL in out[..] && forall i :: bufSize <= i < out.Length ==> out[i] == old(out[i])
    ensures var was := old(CString(out[..]));
      CString(out[..]) == was + Take(text, bufSize - 1 - |was|)
  {
    ghost var was := out[..];
    var offset := IndexOf(out[..], NUL);
    var size := bufSize - offset;
    ghost var kept := Take(text, size - 1);
    assert size - 1 == bufSize - 1 - |CString(was)|;
    Snprintf(out, offset, size, text);
    IndexOfBefore(was, NUL);
    CStringOf(out[..], was[..offset] + kept, was[offset + |kept| + 1..]);
  }

  /** Appends one line, cutting it off at the end of the buffer. */
  method AppendTo(out: array<Byte>, bufSize: nat, g: Group)
    requires bufSize <= out.Length && |CString(out[..])| < bufSize && NUL in out[..]
    requires g.text != [] && NUL !in g.text
    modifies out
    ensures NUL in out[..] && forall i :: bufSize <= i < out.Length ==> out[i] == old(out[i])
    ensures CString(out[..]) == Appended(old(CString(out[..])), g, bufSize - 1)
  {
    LineHasNoNul(g);
    EmptyString(out[..]);
    var text := (if out[0] == NUL then [] else SEPARATOR) + Line(g);
    assert text == Addition(CString(out[..]), g);
    AppendText(out, bufSize, text);
  }

  lemma EmptyString(buffer: ByteString)
    requires NUL in buffer
    ensures buffer[0] == NUL <==> CString(buffer) == []
  {
  }

  /** The text grows by the line of the group that position `i` starts. */
  lemma TextStep(before: ByteString, strings: seq<Entry>, i: nat, n: nat, was: ByteString)
    requires i < |strings| && IsFirst(strings, i) && was == Take(Text(before, Groups(strings, i)), n)
    ensures var g := Group(strings[i].value, Occurrences(strings, strings[i].value));
      Appended(was, g, n) == Take(Text(before, Groups(strings, i + 1)), n)
  {
    var g := Group(strings[i].value, Occurrences(strings, strings[i].value));
    var groups := Groups(strings, i);
    assert (groups + [g])[..|groups|] == groups;
    AppendTruncated(Text(before, groups), g, n);
  }

  /** What the buffer holds once the first `i` entries are through. */
  function Kept(before: ByteString, strings: seq<Entry>, i: nat, bufSize: nat): ByteString
    requires i <= |strings| && bufSize > 0
  {
    if |before| >= bufSize then before else Take(Text(before, Groups(strings, i)), bufSize - 1)
  }

  /** The line of the group that entry `i` starts. */
  method AppendGroup(strings: seq<Entry>, i: nat, count: nat, out: array<Byte>, bufSize: nat, ghost before: ByteString)
    requires AreCStrings(strings) && i < |strings| && IsFirst(strings, i)
    requires count == Occurrences(strings, strings[i].value)
    requires bufSize <= out.Length && |CString(out[..])| < bufSize && NUL in out[..]
    requires CString(out[..]) == Kept(before, strings, i, bufSize)
    modifies out
    ensures NUL in out[..] && forall j :: bufSize <= j < out.Length ==> out[j] == old(out[j])
    ensures CString(out[..]) == Kept(before, strings, i + 1, bufSize)
  {
    ghost var was, n := CString(out[..]), bufSize - 1;
    assert was == Take(Text(before, Groups(strings, i)), n);
    TextStep(before, strings, i, n, was);
    var g := Group(strings[i].value, count);
    AppendTo(out, bufSize, g);
    assert CString(out[..]) == Appended(was, g, n);
  }

  /** The loop of util_format_duplicate_hardware: the first bufSize - 1 bytes of the text of the groups. */
  method AppendGroups(strings: seq<Entry>, out: array<Byte>, bufSize: nat)
    requires AreCStrings(strings) && |strings| <= 255
    requires bufSize <= out.Length && NUL in out[..]
    modifies out
    ensures NUL in out[..] && forall i :: bufSize <= i < out.Length ==> out[i] == old(out[i])
    ensures var before := old(CString(out[..]));
      CString(out[..]) == if |before| >= bufSize then before
                          else Take(Text(before, Groups(strings, |strings|)), bufSize - 1)
  {
    ghost var before := CString(out[..]);
    if bufSize == 0 {
      return;
    }
    for i := 0 to |strings|
      invariant NUL in out[..] && forall j :: bufSize <= j < out.Length ==> out[j] == old(out[j])
      invariant CString(out[..]) == Kept(before, strings, i, bufSize)
    {
      if strings[i].None? || strings[i].value == [] {
        continue;
      }
      var first, dupCount := CountFrom(strings, i);
      if !first {
        continue;
      }
      if IndexOf(out[..], NUL) >= bufSize {
        break;
      }
      AppendGroup(strings, i, dupCount, out, bufSize, before);
    }
  }

  /**
   * util_format_duplicate_hardware: the buffer ends up with the first bufSize - 1 bytes of the whole
   * listing, however many appends were cut off on the way.
   */
  method FormatDuplicates(strings: seq<Entry>, out: array<Byte>, bufSize: nat) returns (ghost listing: ByteString)
    requires AreCStrings(strings) && |strings| <= 255
    requires bufSize <= out.Length && NUL in out[..]
    modifies out
    ensures NUL in out[..] && forall i :: bufSize <= i < out.Length ==> out[i] == old(out[i])
    ensures listing == Text(old(CString(out[..])), Groups(strings, |strings|))
    ensures IsListing(listing, old(CString(out[..])), strings)
    ensures CString(out[..]) == if |old(CString(out[..]))| >= bufSize then old(CString(out[..]))
                                else Take(listing, bufSize - 1)
  {
    ghost var before := CString(out[..]);
    listing := Text(before, Groups(strings, |strings|));
    TextIsListing(before, strings);
    AppendGroups(strings, out, bufSize);
  }
}
