/** What the CPU name sanitiser of hardware.c keeps: nothing goes but what a pass is there to remove. */
module CpuNameWords {
  import opened Bytes
  import opened Sequences
  import opened CpuName

  // ----- Words --------------------------------------------------------------------------------------

  /** The blank-separated words of a string. */
  function Words(s: ByteString): (ws: seq<ByteString>)
    decreases |s|
  {
    if s == [] then []
    else if s[0] == 32 then Words(s[1..])
    else [Head(s)] + Words(Tail(s))
  }

  /** The text up to the first blank. */
  function Head(s: ByteString): ByteString {
    s[..IndexOf(s, 32)]
  }

  /** The text behind the first blank. */
  function Tail(s: ByteString): (t: ByteString)
    ensures s != [] ==> |t| < |s|
  {
    if IndexOf(s, 32) < |s| then s[IndexOf(s, 32) + 1..] else []
  }

  /** The words other than `w`. */
  function Without(ws: seq<ByteString>, w: ByteString): (r: seq<ByteString>) {
    if ws == [] then [] else (if ws[0] == w then [] else [ws[0]]) + Without(ws[1..], w)
  }

  lemma {:induction false} WithoutConcat(a: seq<ByteString>, b: seq<ByteString>, w: ByteString)
    ensures Without(a + b, w) == Without(a, w) + Without(b, w)
  {
    if a == [] {
      assert a + b == b;
    } else {
      assert (a + b)[1..] == a[1..] + b && (a + b)[0] == a[0];
      WithoutConcat(a[1..], b, w);
      Regroup(if a[0] == w then [] else [a[0]], Without(a[1..], w), Without(b, w));
    }
  }

  lemma {:induction false} WithoutNothing(ws: seq<ByteString>, w: ByteString)
    requires w !in ws
    ensures Without(ws, w) == ws
  {
    if ws != [] {
      WithoutNothing(ws[1..], w);
    }
  }

  lemma BlankFirst(rest: ByteString)
    ensures Words([32] + rest) == Words(rest)
  {
    assert ([32] + rest)[1..] == rest;
  }

  lemma WordAt(s: ByteString, n: nat)
    requires 0 < n <= |s| && 32 !in s[..n] && (n < |s| ==> s[n] == 32)
    ensures Words(s) == [s[..n]] + Words(if n < |s| then s[n + 1..] else [])
  {
    assert s[0] == s[..n][0];
    IndexOfIs(s, 32, n);
    assert Head(s) == s[..n] && Tail(s) == if n < |s| then s[n + 1..] else [];
  }

  lemma WordFirst(w: ByteString, rest: ByteString)
    requires w != [] && 32 !in w && (rest == [] || rest[0] == 32)
    ensures Words(w + rest) == [w] + Words(rest)
  {
    var s := w + rest;
    assert s[..|w|] == w;
    WordAt(s, |w|);
    if rest == [] {
      assert Words(rest) == [];
    } else {
      assert s[|w| + 1..] == rest[1..] && rest == [32] + rest[1..];
      BlankFirst(rest[1..]);
    }
  }

  predicate AreBlanks(s: ByteString) {
    forall i :: 0 <= i < |s| ==> s[i] == 32
  }

  lemma {:induction false} BlanksFirst(blanks: ByteString, rest: ByteString)
    requires AreBlanks(blanks)
    ensures Words(blanks + rest) == Words(rest)
  {
    if blanks == [] {
      assert blanks + rest == rest;
    } else {
      assert blanks + rest == [32] + (blanks[1..] + rest);
      BlankFirst(blanks[1..] + rest);
      BlanksFirst(blanks[1..], rest);
    }
  }

  lemma BlanksOnly(blanks: ByteString)
    requires AreBlanks(blanks)
    ensures Words(blanks) == []
  {
    BlanksFirst(blanks, []);
    assert blanks + [] == blanks;
  }

  /** No word lies across the seam of two strings. */
  predicate Seam(a: ByteString, b: ByteString) {
    a == [] || b == [] || a[|a| - 1] == 32 || b[0] == 32
  }

  lemma {:induction false} WordsConcat(a: ByteString, b: ByteString)
    requires Seam(a, b)
    ensures Words(a + b) == Words(a) + Words(b)
    decreases |a|
  {
    if a == [] {
      assert a + b == b;
    } else if b == [] {
      assert a + b == a;
    } else if a[0] == 32 {
      assert a == [32] + a[1..] && a + b == [32] + (a[1..] + b);
      BlankFirst(a[1..]);
      BlankFirst(a[1..] + b);
      WordsConcat(a[1..], b);
    } else {
      IndexOfBefore(a, 32);
      var n := IndexOf(a, 32);
      var w, rest := a[..n], a[n..];
      assert a == w + rest && a + b == w + (rest + b) && w[0] == a[0];
      WordFirst(w, rest);
      WordFirst(w, rest + b);
      WordsConcat(rest, b);
      Regroup([w], Words(rest), Words(b));
    }
  }

  lemma StandsLater(s: ByteString, w: ByteString, k: nat)
    requires 0 < k <= |s| && s[k - 1] == 32 && HasWord(s[k..], w)
    ensures HasWord(s, w)
  {
    var p: nat :| Standalone(s[k..], w, p);
    assert s[k..][p..p + |w|] == s[p + k..p + k + |w|];
    assert Standalone(s, w, p + k);
  }

  lemma StandsFirst(s: ByteString)
    ensures HasWord(s, s[..IndexOf(s, 32)])
  {
    assert Standalone(s, s[..IndexOf(s, 32)], 0);
  }

  lemma NoneOfNothing(w: ByteString)
    ensures w !in Words([])
  {
  }

  lemma InHeadOrTail(head: ByteString, tail: seq<ByteString>, ws: seq<ByteString>, w: ByteString)
    requires ws == [head] + tail && w in ws
    ensures w == head || w in tail
  {
  }

  lemma HeadOrTail(s: ByteString, w: ByteString)
    requires s != [] && s[0] != 32 && w in Words(s)
    ensures w == Head(s) || (IndexOf(s, 32) < |s| && w in Words(s[IndexOf(s, 32) + 1..]))
  {
    InHeadOrTail(Head(s), Words(Tail(s)), Words(s), w);
    if IndexOf(s, 32) == |s| {
      NoneOfNothing(w);
    }
  }

  lemma BehindBlank(s: ByteString)
    requires s != [] && s[0] == 32
    ensures Words(s) == Words(s[1..])
  {
  }

  /** A word stands at the front, or it is a word of what follows some blank. */
  lemma FrontOrLater(s: ByteString, w: ByteString) returns (k: nat)
    requires s != [] && w in Words(s)
    ensures HasWord(s, w) || (0 < k <= |s| && s[k - 1] == 32 && w in Words(s[k..]))
  {
    k := if s[0] == 32 then 1 else IndexOf(s, 32) + 1;
    if s[0] == 32 {
      BehindBlank(s);
    } else {
      HeadOrTail(s, w);
      StandsFirst(s);
    }
  }

  /** A word of the string stands in it between blanks or ends. */
  lemma {:induction false} WordStands(s: ByteString, w: ByteString)
    requires w in Words(s)
    ensures HasWord(s, w)
    decreases |s|
  {
    NoneOfNothing(w);
    var k := FrontOrLater(s, w);
    if !HasWord(s, w) {
      WordStands(s[k..], w);
      StandsLater(s, w, k);
    }
  }

  // ----- hw_remove_cpu_word -------------------------------------------------------------------------

  /** Inside the string the word goes with the blanks behind it. */
  lemma WithoutInside(a: ByteString, w: ByteString, blanks: ByteString, rest: ByteString)
    requires blanks != [] && AreBlanks(blanks) && (rest == [] || rest[0] != 32)
    ensures WithoutWord(a + w + blanks + rest, w, |a|) == a + rest
  {
    var s := a + w + blanks + rest;
    var e := |a| + |w| + |blanks|;
    AfterBlanks(s, |a| + |w|, e);
    assert s[..|a|] == a && s[e..] == rest;
  }

  lemma {:induction false} AfterBlanks(s: ByteString, p: nat, e: nat)
    requires p <= e <= |s| && (forall i :: p <= i < e ==> s[i] == 32) && (e < |s| ==> s[e] != 32)
    ensures BlanksAfter(s, p) == e
    decreases e - p
  {
    if p < e {
      AfterBlanks(s, p + 1, e);
    }
  }

  lemma {:induction false} BeforeBlanks(s: ByteString, p: nat, k: nat)
    requires k <= p <= |s| && (forall i :: k <= i < p ==> s[i] == 32) && (k > 0 ==> s[k - 1] != 32)
    ensures BlanksBefore(s, p) == k
  {
    if k < p {
      BeforeBlanks(s, p - 1, k);
    }
  }

  /** At the end of the string it goes with the blanks in front of it. */
  lemma WithoutAtEnd(front: ByteString, blanks: ByteString, w: ByteString)
    requires AreBlanks(blanks) && (front == [] || front[|front| - 1] != 32)
    ensures WithoutWord(front + blanks + w, w, |front| + |blanks|) == front
  {
    var s := front + blanks + w;
    BeforeBlanks(s, |front| + |blanks|, |front|);
    AfterBlanks(s, |s|, |s|);
    assert s[..|front|] == front && s[|s|..] == [];
  }

  lemma SkipStep(s: ByteString, w: ByteString, pos: nat, q: nat, r: ByteString)
    requires w != [] && pos <= |s| && q == Strstr(s, w, pos) && q < |s| && !Standalone(s, w, q)
    requires q + |w| <= |s| && RemoveWord(s, w, q + |w|) == r
    ensures RemoveWord(s, w, pos) == r
  {
    RemoveWordSkip(s, w, pos, q);
  }

  lemma NextStop(s: ByteString, w: ByteString, pos: nat, p: nat) returns (q: nat)
    requires NoOverlap(w) && pos <= p && Standalone(s, w, p) && CleanBefore(s, w, p)
    ensures p < |s| && pos <= q <= p && q == Strstr(s, w, pos)
    ensures q < p ==> !Standalone(s, w, q) && q + |w| <= p
  {
    q := Strstr(s, w, pos);
    if q < p {
      NextOccurrence(s, w, q, p);
    }
  }

  lemma {:induction false} SkipsTo(s: ByteString, w: ByteString, pos: nat, p: nat, r: ByteString)
    requires NoOverlap(w) && pos <= p && Standalone(s, w, p) && CleanBefore(s, w, p)
    requires forall i: nat :: i <= p && Strstr(s, w, i) == p ==> RemoveWord(s, w, i) == r
    ensures RemoveWord(s, w, pos) == r
    decreases p - pos
  {
    var q := NextStop(s, w, pos, p);
    if q < p {
      SkipsTo(s, w, q + |w|, p, r);
      SkipStep(s, w, pos, q, r);
    }
  }

  /** The first standalone word is taken out, and the search goes on where it stood. */
  lemma RemoveFirst(s: ByteString, w: ByteString, p: nat)
    requires NoOverlap(w) && Standalone(s, w, p) && CleanBefore(s, w, p)
    ensures RemoveWord(s, w, 0) == RemoveWord(WithoutWord(s, w, p), w, RangeStart(s, w, p))
  {
    var r := RemoveWord(WithoutWord(s, w, p), w, RangeStart(s, w, p));
    forall i: nat | i <= p && Strstr(s, w, i) == p
      ensures RemoveWord(s, w, i) == r
    {
      RemoveWordTake(s, w, i, p);
    }
    SkipsTo(s, w, 0, p, r);
  }

  /** Removing one standalone occurrence takes one such word from the words. */
  lemma WordsWithoutWord(s: ByteString, w: ByteString, p: nat)
    requires w != [] && 32 !in w && Standalone(s, w, p)
    ensures Words(s) == Words(s[..p]) + [w] + Words(s[p + |w|..])
    ensures Words(WithoutWord(s, w, p)) == Words(s[..p]) + Words(s[p + |w|..])
  {
    var a, b := s[..p], s[p + |w|..];
    assert s == a + (w + b);
    WordFirst(w, b);
    WordsConcat(a, w + b);
    Regroup(Words(a), [w], Words(b));
    if b != [] {
      WordsInside(s, w, p);
    } else {
      WordsAtEnd(s, w, p);
    }
  }

  lemma WordsInside(s: ByteString, w: ByteString, p: nat)
    requires w != [] && Standalone(s, w, p) && p + |w| < |s|
    ensures Words(WithoutWord(s, w, p)) == Words(s[..p]) + Words(s[p + |w|..])
  {
    var e := RangeEnd(s, w, p);
    var blanks, rest := s[p + |w|..e], s[e..];
    assert s[p + |w|..] == blanks + rest;
    WordsAround(s[..p], blanks, rest);
    assert WithoutWord(s, w, p) == s[..p] + rest;
  }

  lemma WordsAround(a: ByteString, blanks: ByteString, rest: ByteString)
    requires AreBlanks(blanks) && (a == [] || a[|a| - 1] == 32)
    ensures Words(a + rest) == Words(a) + Words(blanks + rest)
  {
    BlanksFirst(blanks, rest);
    WordsConcat(a, rest);
  }

  lemma WordsAtEnd(s: ByteString, w: ByteString, p: nat)
    requires w != [] && Standalone(s, w, p) && p + |w| == |s|
    ensures Words(WithoutWord(s, w, p)) == Words(s[..p]) + Words(s[p + |w|..])
  {
    var k := RangeStart(s, w, p);
    var front, blanks := s[..k], s[k..p];
    assert s[..p] == front + blanks;
    WordsConcat(front, blanks);
    BlanksOnly(blanks);
    assert WithoutWord(s, w, p) == front && s[p + |w|..] == [];
  }

  lemma RoundWords(s: ByteString, w: ByteString, p: nat)
    requires w != [] && 32 !in w && Standalone(s, w, p)
    ensures Without(Words(WithoutWord(s, w, p)), w) == Without(Words(s), w)
  {
    WordsWithoutWord(s, w, p);
    OneOfThem(Words(s[..p]), w, Words(s[p + |w|..]));
  }

  lemma {:induction false} RemoveWordOthers(s: ByteString, w: ByteString, pos: nat)
    requires pos <= |s| && w != [] && 32 !in w
    ensures Without(Words(RemoveWord(s, w, pos)), w) == Without(Words(s), w)
    decreases |s| - pos
  {
    var p := Strstr(s, w, pos);
    if p == |s| {
      RemoveWordNone(s, w, pos);
    } else {
      var alone := Standalone(s, w, p);
      var s' := if alone then WithoutWord(s, w, p) else s;
      var next := if alone then RangeStart(s, w, p) else p + |w|;
      RoundRest(s, pos, p, s', next, w);
      if alone {
        RoundWords(s, w, p);
      }
      RemoveWordOthers(s', w, next);
    }
  }

  lemma WithoutOnly(w: ByteString)
    ensures Without([w], w) == []
  {
    assert [w][1..] == [];
  }

  lemma OneOfThem(a: seq<ByteString>, w: ByteString, b: seq<ByteString>)
    ensures Without(a + [w] + b, w) == Without(a + b, w)
  {
    WithoutConcat(a + [w], b, w);
    WithoutConcat(a, [w], w);
    WithoutConcat(a, b, w);
    WithoutOnly(w);
    assert Without(a, w) + [] == Without(a, w);
  }

  /** The words that are left are those of the input other than the removed one, in order. */
  lemma RemoveWordWords(s: ByteString, w: ByteString)
    requires NoOverlap(w)
    ensures Words(RemoveWord(s, w, 0)) == Without(Words(s), w)
  {
    RemoveWordOthers(s, w, 0);
    RemoveWordRemoves(s, w, 0);
    if w in Words(RemoveWord(s, w, 0)) {
      WordStands(RemoveWord(s, w, 0), w);
    }
    WithoutNothing(Words(RemoveWord(s, w, 0)), w);
  }

  // ----- The other passes, byte by byte -----------------------------------------------------------------

  /** The first occurrence of `u`. */
  predicate FirstAt(s: ByteString, u: ByteString, p: nat) {
    OccursAt(s, u, p) && forall q :: 0 <= q < p ==> !OccursAt(s, u, q)
  }

  lemma StrstrIff(s: ByteString, u: ByteString, p: nat)
    requires u != []
    ensures FirstAt(s, u, p) <==> p < |s| && Strstr(s, u, 0) == p
    ensures !Occurs(s, u) <==> Strstr(s, u, 0) == |s|
  {
    var q := Strstr(s, u, 0);
    if q == |s| {
      assert forall i: nat :: !OccursAt(s, u, i);
    }
  }

  /** Up to the first blank behind the first "Gen" all goes, and nothing else; without such a blank nothing. */
  lemma GenerationGoes(s: ByteString, p: nat, i: nat)
    requires FirstAt(s, Ascii("Gen"), p) && p <= i <= |s| && 32 !in s[p..i] && (i < |s| ==> s[i] == 32)
    ensures DropGeneration(s) == if i < |s| then s[i + 1..] else s
  {
    StrstrIff(s, GEN, p);
    assert s[p..][..i - p] == s[p..i];
    IndexOfIs(s[p..], 32, i - p);
  }

  lemma NoGeneration(s: ByteString)
    requires !Occurs(s, Ascii("Gen"))
    ensures DropGeneration(s) == s
  {
    StrstrIff(s, GEN, 0);
  }

  /** The start of the word that holds position `p`: behind the last blank in front of it. */
  lemma {:induction false} WordStartIs(s: ByteString, p: nat, k: nat)
    requires k <= p <= |s| && 32 !in s[k..p] && (k > 0 ==> s[k - 1] == 32)
    ensures WordStart(s, p) == k
  {
    if k < p {
      assert s[p - 1] == s[k..p][p - 1 - k];
      assert s[k..p - 1] == s[k..p][..p - 1 - k];
      WordStartIs(s, p - 1, k);
    }
  }

  /** From the word that holds the suffix on all goes, with one blank in front of it, and nothing else. */
  lemma SuffixGoes(s: ByteString, u: ByteString, p: nat, k: nat)
    requires u != [] && FirstAt(s, u, p) && 0 < p
    requires k <= p && 32 !in s[k..p] && (k > 0 ==> s[k - 1] == 32)
    ensures TruncateSuffix(s, u) == if k > 0 then s[..k - 1] else []
  {
    StrstrIff(s, u, p);
    WordStartIs(s, p, k);
  }

  /** A name that starts with the suffix, or does not hold it, stays. */
  lemma NoSuffix(s: ByteString, u: ByteString)
    requires u != [] && (!Occurs(s, u) || OccursAt(s, u, 0))
    ensures TruncateSuffix(s, u) == s
  {
    StrstrIff(s, u, 0);
    if OccursAt(s, u, 0) {
      assert FirstAt(s, u, 0);
    }
  }

  /** From the first " @" on all goes, and nothing else. */
  lemma FrequencyGoes(s: ByteString, p: nat)
    requires p == |s| || FirstAt(s, Ascii(" @"), p)
    requires p == |s| ==> !Occurs(s, Ascii(" @"))
    ensures CutFrequency(s) == s[..p]
  {
    StrstrIff(s, AT, p);
  }

  /** The blanks at the end go, and nothing else. */
  lemma EndGoes(r: ByteString, blanks: ByteString)
    requires AreBlanks(blanks) && (r != [] ==> r[|r| - 1] != 32)
    ensures TrimEnd(r + blanks) == r
  {
    var s := r + blanks;
    BeforeBlanks(s, |s|, |r|);
    assert s[..|r|] == r;
  }

  // ----- What is kept ---------------------------------------------------------------------------------

  /** A word that ends the name: it holds a suffix or starts with "@". */
  ghost predicate EndsName(word: ByteString) {
    || Occurs(word, Ascii("with")) || Occurs(word, Ascii("-Core")) || Occurs(word, Ascii("Processor"))
    || (word != [] && word[0] == 64)
  }

  /** What follows position `k`: nothing but blanks, or first of all a word that ends the name. */
  ghost predicate IsEnd(s: ByteString, k: nat) {
    k <= |s| && CleanPrefix(s, k) && (Words(s[k..]) == [] || EndsName(Words(s[k..])[0]))
  }

  lemma WholeIsEnd(s: ByteString)
    ensures IsEnd(s, |s|) && s[..|s|] == s
  {
    assert s[|s|..] == [];
  }

  /** The end of a part of the name that is cut at an end is an end of the whole. */
  lemma EndOfPart(s: ByteString, k: nat, j: nat)
    requires IsEnd(s, k) && IsEnd(s[..k], j)
    ensures IsEnd(s, j) && s[..k][..j] == s[..j]
  {
    PrefixOfPrefix(s, k, j);
    var mid, rest := s[..k][j..], s[k..];
    assert s[j..] == mid + rest;
    WordsConcat(mid, rest);
  }

  lemma {:induction false} IndexAtLeast(s: ByteString, c: Byte, m: nat)
    requires m <= |s| && forall i :: 0 <= i < m ==> s[i] != c
    ensures IndexOf(s, c) >= m
  {
    if m > 0 {
      IndexAtLeast(s[1..], c, m - 1);
    }
  }

  lemma WordHolds(s: ByteString, u: ByteString, p: nat, k: nat)
    requires u != [] && 32 !in u && OccursAt(s, u, p) && k <= p && 32 !in s[k..p]
    ensures Words(s[k..]) != [] && Occurs(Words(s[k..])[0], u)
  {
    NoBlankInside(s, u, p);
    forall i | 0 <= i < p - k
      ensures s[k..][i] != 32
    {
      assert s[k..][i] == s[k..p][i];
    }
    OccursInRest(s, u, p, k);
    FirstWordHolds(s[k..], u, p - k);
  }

  lemma OccursInRest(s: ByteString, u: ByteString, p: nat, k: nat)
    requires OccursAt(s, u, p) && k <= p
    ensures OccursAt(s[k..], u, p - k)
  {
    var q := p - k;
    assert s[k..][q..q + |u|] == s[p..p + |u|];
  }

  lemma FirstWordHolds(t: ByteString, u: ByteString, q: nat)
    requires u != [] && OccursAt(t, u, q)
    requires forall i :: 0 <= i < q + |u| ==> t[i] != 32
    ensures Words(t) != [] && Occurs(Words(t)[0], u)
  {
    var n := IndexOf(t, 32);
    IndexAtLeast(t, 32, q + |u|);
    assert Words(t) == [Head(t)] + Words(Tail(t)) && Head(t) == t[..n];
    OccursInPrefix(t, n, u, q);
  }

  lemma BlankAt(s: ByteString, k: nat)
    requires k < |s| && s[k] == 32
    ensures Words(s[k..]) == Words(s[k + 1..])
  {
    assert s[k..][1..] == s[k + 1..];
  }

  lemma EndAtWord(s: ByteString, u: ByteString, p: nat, start: nat) returns (k: nat)
    requires u != [] && 32 !in u && OccursAt(s, u, p) && p <= |s| && start == WordStart(s, p)
    ensures k == (if start > 0 then start - 1 else 0) && CleanPrefix(s, k)
    ensures Words(s[k..]) != [] && Occurs(Words(s[k..])[0], u)
  {
    WordStartHolds(s, p);
    WordHolds(s, u, p, start);
    k := if start > 0 then start - 1 else 0;
    if start > 0 {
      BlankAt(s, k);
    }
  }

  lemma SuffixIsEnd(s: ByteString, u: ByteString) returns (k: nat)
    requires u == Ascii("with") || u == Ascii("-Core") || u == Ascii("Processor")
    ensures IsEnd(s, k) && TruncateSuffix(s, u) == s[..k]
  {
    k := TruncateEnd(s, u);
    if k == |s| {
      WholeIsEnd(s);
    }
  }

  lemma TruncateEnd(s: ByteString, u: ByteString) returns (k: nat)
    requires u != [] && 32 !in u
    ensures k <= |s| && TruncateSuffix(s, u) == s[..k] && CleanPrefix(s, k)
    ensures k == |s| || (Words(s[k..]) != [] && Occurs(Words(s[k..])[0], u))
  {
    var p := Strstr(s, u, 0);
    if p == |s| || p == 0 {
      k := |s|;
      assert s[..k] == s;
    } else {
      k := EndAtWord(s, u, p, WordStart(s, p));
    }
  }

  lemma {:induction false} WordStartHolds(s: ByteString, p: nat)
    requires p <= |s|
    ensures 32 !in s[WordStart(s, p)..p]
  {
    if p > 0 && s[p - 1] != 32 {
      WordStartHolds(s, p - 1);
      var k := WordStart(s, p);
      assert s[k..p] == s[k..p - 1] + [s[p - 1]];
    }
  }

  lemma FrequencyIsEnd(s: ByteString) returns (k: nat)
    ensures IsEnd(s, k) && CutFrequency(s) == s[..k]
  {
    k := Strstr(s, AT, 0);
    if k == |s| {
      WholeIsEnd(s);
    } else {
      var rest := s[k + 1..];
      assert s[k] == s[k..k + 2][0] && s[k + 1] == s[k..k + 2][1] && rest[0] == 64;
      BlankAt(s, k);
      assert Words(rest) == [Head(rest)] + Words(Tail(rest)) && IndexOf(rest, 32) > 0;
    }
  }

  lemma TrimIsEnd(s: ByteString) returns (k: nat)
    ensures IsEnd(s, k) && TrimEnd(s) == s[..k]
  {
    k := BlanksBefore(s, |s|);
    BlanksOnly(s[k..]);
  }

  /** All the cuts behind the word removal together are one cut, at an end of the name. */
  lemma TailIsEnd(s: ByteString) returns (k: nat)
    ensures IsEnd(s, k) && TrimEnd(CutFrequency(DropSuffixes(s))) == s[..k]
  {
    var k1 := SuffixIsEnd(s, WITH);
    var k2 := SuffixIsEnd(s[..k1], CORE);
    EndOfPart(s, k1, k2);
    var k3 := SuffixIsEnd(s[..k2], PROCESSOR);
    EndOfPart(s, k2, k3);
    var k4 := FrequencyIsEnd(s[..k3]);
    EndOfPart(s, k3, k4);
    k := TrimIsEnd(s[..k4]);
    EndOfPart(s, k4, k);
  }

  /** The words of the name without its marks that are neither CPU nor APU. */
  function Kept(s: ByteString): seq<ByteString> {
    Without(Without(Words(DropMarks(s)), Ascii("CPU")), Ascii("APU"))
  }

  lemma DropWordsWords(s: ByteString)
    ensures Words(DropWords(DropMarks(s))) == Kept(s)
  {
    TwoWords(DropMarks(s));
  }

  lemma TwoWords(t: ByteString)
    ensures Words(DropWords(t)) == Without(Without(Words(t), Ascii("CPU")), Ascii("APU"))
  {
    RemoveWordWords(t, CPU);
    RemoveWordWords(RemoveWord(t, CPU, 0), APU);
  }

  /**
   * Of the words of the name without its marks, CPU and APU, the sanitised name has the first `j`, and
   * the next one, if there is one, holds a suffix or starts with "@".
   */
  lemma SanitizeKeeps(s: ByteString) returns (j: nat)
    ensures j <= |Kept(s)| && Words(Sanitize(s)) == Kept(s)[..j]
    ensures j < |Kept(s)| ==> EndsName(Kept(s)[j])
  {
    if s == [] {
      NoWords();
      j := 0;
    } else {
      var t := DropWords(DropMarks(s));
      var k := TailIsEnd(t);
      DropWordsWords(s);
      j := WordsUpTo(t, k);
    }
  }

  lemma WordsUpTo(t: ByteString, k: nat) returns (j: nat)
    requires IsEnd(t, k)
    ensures j <= |Words(t)| && Words(t[..k]) == Words(t)[..j]
    ensures j < |Words(t)| ==> EndsName(Words(t)[j])
  {
    assert t == t[..k] + t[k..];
    WordsConcat(t[..k], t[k..]);
    j := |Words(t[..k])|;
  }

  lemma NoWords()
    ensures Sanitize([]) == [] && Kept([]) == [] && Words([]) == []
  {
    assert DropGeneration([]) == [] && DropMarks([]) == [];
  }
}
