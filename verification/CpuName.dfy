/** What the CPU name sanitiser of hardware.c computes on strings, and what it guarantees. */
module CpuName {
  import opened Bytes
  import opened Sequences

  // ----- Searching ----------------------------------------------------------------------------------

  predicate OccursAt(s: ByteString, w: ByteString, p: nat) {
    p + |w| <= |s| && s[p..p + |w|] == w
  }

  /** strstr from position `from`: the first occurrence, or |s|. */
  function Strstr(s: ByteString, w: ByteString, from: nat): (p: nat)
    requires from <= |s| && w != []
    ensures from <= p <= |s|
    ensures p < |s| ==> OccursAt(s, w, p)
    ensures forall q :: from <= q < p ==> !OccursAt(s, w, q)
    decreases |s| - from
  {
    if from == |s| || OccursAt(s, w, from) then from else Strstr(s, w, from + 1)
  }

  ghost predicate Occurs(s: ByteString, w: ByteString) {
    exists p: nat :: OccursAt(s, w, p)
  }

  /** An occurrence with a blank or an end of the string on either side. */
  predicate Standalone(s: ByteString, w: ByteString, p: nat) {
    && OccursAt(s, w, p)
    && (p == 0 || s[p - 1] == SPACE)
    && (p + |w| == |s| || s[p + |w|] == SPACE)
  }

  ghost predicate HasWord(s: ByteString, w: ByteString) {
    exists p: nat :: Standalone(s, w, p)
  }

  /** `s` without the bytes from `a` up to `b`. */
  function Cut(s: ByteString, a: nat, b: nat): ByteString
    requires a <= b <= |s|
  {
    s[..a] + s[b..]
  }

  // ----- The steps ----------------------------------------------------------------------------------

  const GEN: ByteString := Ascii("Gen")
  const REGISTERED: ByteString := Ascii("(R)")
  const TRADE_MARK: ByteString := Ascii("(TM)")
  const SMALL_TRADE_MARK: ByteString := Ascii("(tm)")
  const CPU: ByteString := Ascii("CPU")
  const APU: ByteString := Ascii("APU")
  const WITH: ByteString := Ascii("with")
  const CORE: ByteString := Ascii("-Core")
  const PROCESSOR: ByteString := Ascii("Processor")
  const AT: ByteString := Ascii(" @")

  /** Where the blanks in front of `p` start. */
  function BlanksBefore(s: ByteString, p: nat): (k: nat)
    requires p <= |s|
    ensures k <= p && (k > 0 ==> s[k - 1] != SPACE)
    ensures forall i :: k <= i < p ==> s[i] == SPACE
  {
    if p > 0 && s[p - 1] == SPACE then BlanksBefore(s, p - 1) else p
  }

  /** Where the blanks from `p` on end. */
  function BlanksAfter(s: ByteString, p: nat): (k: nat)
    requires p <= |s|
    ensures p <= k <= |s| && (k < |s| ==> s[k] != SPACE)
    ensures forall i :: p <= i < k ==> s[i] == SPACE
    decreases |s| - p
  {
    if p < |s| && s[p] == SPACE then BlanksAfter(s, p + 1) else p
  }

  /** The start of the removed range: at the end of the string it takes the blanks before the word. */
  function RangeStart(s: ByteString, w: ByteString, p: nat): (a: nat)
    requires p + |w| <= |s|
    ensures a <= p
  {
    if p + |w| == |s| then BlanksBefore(s, p) else p
  }

  /** The end of the removed range: elsewhere it takes the blanks after the word. */
  function RangeEnd(s: ByteString, w: ByteString, p: nat): (b: nat)
    requires p + |w| <= |s|
    ensures p + |w| <= b <= |s|
  {
    BlanksAfter(s, p + |w|)
  }

  function WithoutWord(s: ByteString, w: ByteString, p: nat): ByteString
    requires p + |w| <= |s|
  {
    Cut(s, RangeStart(s, w, p), RangeEnd(s, w, p))
  }

  /** hw_remove_cpu_word from position `pos` on. */
  function RemoveWord(s: ByteString, w: ByteString, pos: nat): ByteString
    requires pos <= |s| && w != []
    decreases |s| - pos
  {
    var p := Strstr(s, w, pos);
    if p == |s| then s
    else if !Standalone(s, w, p) then RemoveWord(s, w, p + |w|)
    else RemoveWord(WithoutWord(s, w, p), w, RangeStart(s, w, p))
  }

  /** The start of the word that holds position `p`. */
  function WordStart(s: ByteString, p: nat): (k: nat)
    requires p <= |s|
    ensures k <= p && (k > 0 ==> s[k - 1] == SPACE)
  {
    if p > 0 && s[p - 1] != SPACE then WordStart(s, p - 1) else p
  }

  /** hw_truncate_cpu_suffix. */
  function TruncateSuffix(s: ByteString, suffix: ByteString): ByteString
    requires suffix != []
  {
    var p := Strstr(s, suffix, 0);
    if p == |s| || p == 0 then s
    else
      var k := WordStart(s, p);
      s[..if k > 0 then k - 1 else 0]
  }

  /** Drops everything up to the first blank after "Gen". */
  function DropGeneration(s: ByteString): ByteString {
    var k := GenerationEnd(s);
    if k == |s| then s else s[k + 1..]
  }

  /** The first blank after "Gen", or |s|. */
  function GenerationEnd(s: ByteString): (k: nat)
    ensures k <= |s|
  {
    var p := Strstr(s, GEN, 0);
    if p == |s| then |s| else p + IndexOf(s[p..], SPACE)
  }

  /** Removes occurrences of a mark until there is none. */
  function DropMark(s: ByteString, mark: ByteString): ByteString
    requires mark != []
    decreases |s|
  {
    var p := Strstr(s, mark, 0);
    if p == |s| then s else DropMark(Cut(s, p, p + |mark|), mark)
  }

  function CutFrequency(s: ByteString): ByteString {
    s[..Strstr(s, AT, 0)]
  }

  function TrimEnd(s: ByteString): ByteString {
    s[..BlanksBefore(s, |s|)]
  }

  function DropMarks(s: ByteString): ByteString {
    DropMark(DropMark(DropMark(DropGeneration(s), REGISTERED), TRADE_MARK), SMALL_TRADE_MARK)
  }

  function DropWords(s: ByteString): ByteString {
    RemoveWord(RemoveWord(s, CPU, 0), APU, 0)
  }

  function DropSuffixes(s: ByteString): ByteString {
    TruncateSuffix(TruncateSuffix(TruncateSuffix(s, WITH), CORE), PROCESSOR)
  }

  /** hw_sanitize_cpu_name. */
  function Sanitize(s: ByteString): ByteString {
    if s == [] then s else TrimEnd(CutFrequency(DropSuffixes(DropWords(DropMarks(s)))))
  }

  // ----- Occurrences before and after a cut -----------------------------------------------------------

  lemma OccursInCut(s: ByteString, a: nat, b: nat, u: ByteString, q: nat)
    requires a <= b <= |s| && OccursAt(Cut(s, a, b), u, q)
    ensures q + |u| <= a ==> OccursAt(s, u, q)
    ensures q >= a ==> OccursAt(s, u, q + (b - a))
  {
    var s' := Cut(s, a, b);
    if q + |u| <= a {
      assert s'[q..q + |u|] == s[q..q + |u|];
    }
    if q >= a {
      var r := q + (b - a);
      assert s'[q..q + |u|] == s[r..r + |u|];
    }
  }

  lemma NoBlankInside(s: ByteString, u: ByteString, q: nat)
    requires OccursAt(s, u, q) && SPACE !in u
    ensures forall i :: q <= i < q + |u| ==> s[i] != SPACE
  {
    forall i | q <= i < q + |u|
      ensures s[i] != SPACE
    {
      assert s[i] == s[q..q + |u|][i - q] == u[i - q];
    }
  }

  /** Taking a standalone word out creates no occurrence of anything without blanks. */
  lemma OccursWithoutWord(s: ByteString, w: ByteString, p: nat, u: ByteString, q: nat)
    requires w != [] && Standalone(s, w, p) && u != [] && SPACE !in u
    requires OccursAt(WithoutWord(s, w, p), u, q)
    ensures q < RangeStart(s, w, p) ==> q + |u| <= RangeStart(s, w, p) && OccursAt(s, u, q)
    ensures q >= RangeStart(s, w, p) ==> OccursAt(s, u, q + (RangeEnd(s, w, p) - RangeStart(s, w, p)))
  {
    var a, b := RangeStart(s, w, p), RangeEnd(s, w, p);
    var s' := WithoutWord(s, w, p);
    NoBlankInside(s', u, q);
    OccursInCut(s, a, b, u, q);
    if q < a {
      if p + |w| == |s| {
        assert |s'| == a;
      } else {
        assert s'[a - 1] == s[p - 1] == SPACE;
      }
    }
  }

  /** Taking a standalone word out creates no standalone word, the same one or another. */
  lemma StandaloneWithoutWord(s: ByteString, w: ByteString, p: nat, u: ByteString, q: nat)
    requires w != [] && Standalone(s, w, p) && u != [] && SPACE !in u
    requires Standalone(WithoutWord(s, w, p), u, q)
    ensures q < RangeStart(s, w, p) ==> Standalone(s, u, q)
    ensures q >= RangeStart(s, w, p) ==> Standalone(s, u, q + (RangeEnd(s, w, p) - RangeStart(s, w, p)))
  {
    var a, b := RangeStart(s, w, p), RangeEnd(s, w, p);
    var s' := WithoutWord(s, w, p);
    NoBlankInside(s', u, q);
    OccursWithoutWord(s, w, p, u, q);
    assert forall i :: 0 <= i < a ==> s'[i] == s[i];
    assert forall i :: a <= i < |s'| ==> s'[i] == s[i + (b - a)];
    if p + |w| < |s| {
      assert b > p + |w| && s[b - 1] == SPACE;
    }
  }

  // ----- hw_remove_cpu_word leaves no standalone word and makes none --------------------------------

  /** No occurrence of `w` can overlap another: its first byte does not come again. */
  predicate NoOverlap(w: ByteString) {
    w != [] && SPACE !in w && forall i :: 0 < i < |w| ==> w[i] != w[0]
  }

  ghost predicate CleanBefore(s: ByteString, w: ByteString, pos: nat) {
    forall q :: 0 <= q < pos ==> !Standalone(s, w, q)
  }

  lemma NextOccurrence(s: ByteString, w: ByteString, p: nat, q: nat)
    requires NoOverlap(w) && OccursAt(s, w, p) && OccursAt(s, w, q) && p < q
    ensures p + |w| <= q
  {
    assert s[q] == s[q..q + |w|][0] == w[0];
    forall j | p < j < p + |w|
      ensures s[j] != w[0]
    {
      assert s[j] == s[p..p + |w|][j - p] == w[j - p];
    }
  }

  lemma SkippedClean(s: ByteString, w: ByteString, pos: nat, p: nat)
    requires NoOverlap(w) && pos <= p && OccursAt(s, w, p) && !Standalone(s, w, p)
    requires CleanBefore(s, w, pos)
    requires forall q :: pos <= q < p ==> !OccursAt(s, w, q)
    ensures CleanBefore(s, w, p + |w|)
  {
    forall q | p < q && OccursAt(s, w, q)
      ensures p + |w| <= q
    {
      NextOccurrence(s, w, p, q);
    }
  }

  lemma RemovedClean(s: ByteString, w: ByteString, pos: nat, p: nat)
    requires NoOverlap(w) && pos <= p && Standalone(s, w, p)
    requires CleanBefore(s, w, pos)
    requires forall q :: pos <= q < p ==> !OccursAt(s, w, q)
    ensures CleanBefore(WithoutWord(s, w, p), w, RangeStart(s, w, p))
  {
    forall q | 0 <= q < RangeStart(s, w, p)
      ensures !Standalone(WithoutWord(s, w, p), w, q)
    {
      if Standalone(WithoutWord(s, w, p), w, q) {
        StandaloneWithoutWord(s, w, p, w, q);
      }
    }
  }

  lemma NoneLeft(s: ByteString, w: ByteString, pos: nat)
    requires pos <= |s| && w != [] && Strstr(s, w, pos) == |s| && CleanBefore(s, w, pos)
    ensures !HasWord(s, w)
  {
    assert forall q: nat :: pos <= q ==> !OccursAt(s, w, q);
  }

  /** What is left to do from position `from` of `s` is what is left to do from position `next` of `s'`. */
  ghost predicate SameRest(s: ByteString, from: nat, s': ByteString, next: nat, w: ByteString)
    requires w != [] && from <= |s|
  {
    next <= |s'| && |s'| - next < |s| - from && RemoveWord(s', w, next) == RemoveWord(s, w, from)
  }

  lemma RemoveWordSkip(s: ByteString, w: ByteString, from: nat, p: nat)
    requires w != [] && from <= |s| && p == Strstr(s, w, from) && p < |s| && !Standalone(s, w, p)
    ensures SameRest(s, from, s, p + |w|, w)
  {
  }

  lemma RemoveWordTake(s: ByteString, w: ByteString, from: nat, p: nat)
    requires w != [] && from <= |s| && p == Strstr(s, w, from) && p < |s| && Standalone(s, w, p)
    ensures SameRest(s, from, WithoutWord(s, w, p), RangeStart(s, w, p), w)
  {
  }

  lemma RemoveWordNone(s: ByteString, w: ByteString, from: nat)
    requires w != [] && from <= |s| && Strstr(s, w, from) == |s|
    ensures RemoveWord(s, w, from) == s
  {
  }

  lemma RoundRest(s: ByteString, from: nat, pos: nat, s': ByteString, next: nat, w: ByteString)
    requires w != [] && from <= |s| && pos == Strstr(s, w, from) && pos < |s|
    requires if Standalone(s, w, pos) then s' == WithoutWord(s, w, pos) && next == RangeStart(s, w, pos)
             else s' == s && next == pos + |w|
    ensures SameRest(s, from, s', next, w)
  {
    if Standalone(s, w, pos) {
      RemoveWordTake(s, w, from, pos);
    } else {
      RemoveWordSkip(s, w, from, pos);
    }
  }

  lemma RoundClean(s: ByteString, w: ByteString, pos: nat, p: nat, s': ByteString, next: nat)
    requires pos <= |s| && NoOverlap(w) && p == Strstr(s, w, pos) && p < |s| && CleanBefore(s, w, pos)
    requires if Standalone(s, w, p) then s' == WithoutWord(s, w, p) && next == RangeStart(s, w, p)
             else s' == s && next == p + |w|
    ensures CleanBefore(s', w, next)
  {
    if Standalone(s, w, p) {
      RemovedClean(s, w, pos, p);
    } else {
      SkippedClean(s, w, pos, p);
    }
  }

  lemma {:induction false} RemoveWordRemoves(s: ByteString, w: ByteString, pos: nat)
    requires pos <= |s| && NoOverlap(w) && CleanBefore(s, w, pos)
    ensures !HasWord(RemoveWord(s, w, pos), w)
    decreases |s| - pos
  {
    var p := Strstr(s, w, pos);
    if p == |s| {
      NoneLeft(s, w, pos);
      RemoveWordNone(s, w, pos);
    } else {
      var alone := Standalone(s, w, p);
      var s' := if alone then WithoutWord(s, w, p) else s;
      var next := if alone then RangeStart(s, w, p) else p + |w|;
      RoundRest(s, pos, p, s', next, w);
      RoundClean(s, w, pos, p, s', next);
      RemoveWordRemoves(s', w, next);
    }
  }

  lemma WithoutWordHasWord(s: ByteString, w: ByteString, p: nat, u: ByteString)
    requires w != [] && Standalone(s, w, p) && u != [] && SPACE !in u && HasWord(WithoutWord(s, w, p), u)
    ensures HasWord(s, u)
  {
    var q: nat :| Standalone(WithoutWord(s, w, p), u, q);
    StandaloneWithoutWord(s, w, p, u, q);
    var d := RangeEnd(s, w, p) - RangeStart(s, w, p);
    assert Standalone(s, u, q) || Standalone(s, u, q + d);
  }

  lemma WithoutWordOccurs(s: ByteString, w: ByteString, p: nat, u: ByteString)
    requires w != [] && Standalone(s, w, p) && u != [] && SPACE !in u && Occurs(WithoutWord(s, w, p), u)
    ensures Occurs(s, u)
  {
    var q: nat :| OccursAt(WithoutWord(s, w, p), u, q);
    OccursWithoutWord(s, w, p, u, q);
    var d := RangeEnd(s, w, p) - RangeStart(s, w, p);
    assert OccursAt(s, u, q) || OccursAt(s, u, q + d);
  }

  lemma WithoutWordKeepsOut(s: ByteString, w: ByteString, p: nat, u: ByteString)
    requires w != [] && Standalone(s, w, p) && u != [] && SPACE !in u
    ensures !HasWord(s, u) ==> !HasWord(WithoutWord(s, w, p), u)
    ensures !Occurs(s, u) ==> !Occurs(WithoutWord(s, w, p), u)
  {
    if HasWord(WithoutWord(s, w, p), u) {
      WithoutWordHasWord(s, w, p, u);
    }
    if Occurs(WithoutWord(s, w, p), u) {
      WithoutWordOccurs(s, w, p, u);
    }
  }

  lemma {:induction false} RemoveWordKeepsOut(s: ByteString, w: ByteString, pos: nat, u: ByteString)
    requires pos <= |s| && w != [] && u != [] && SPACE !in u
    ensures !HasWord(s, u) ==> !HasWord(RemoveWord(s, w, pos), u)
    ensures !Occurs(s, u) ==> !Occurs(RemoveWord(s, w, pos), u)
    decreases |s| - pos
  {
    var p := Strstr(s, w, pos);
    if p < |s| && !Standalone(s, w, p) {
      RemoveWordKeepsOut(s, w, p + |w|, u);
    } else if p < |s| {
      WithoutWordKeepsOut(s, w, p, u);
      RemoveWordKeepsOut(WithoutWord(s, w, p), w, RangeStart(s, w, p), u);
    }
  }

  // ----- Prefixes ------------------------------------------------------------------------------------

  lemma OccursInPrefix(s: ByteString, k: nat, u: ByteString, q: nat)
    requires k <= |s|
    ensures OccursAt(s[..k], u, q) <==> q + |u| <= k && OccursAt(s, u, q)
  {
    if q + |u| <= k {
      assert s[..k][q..q + |u|] == s[q..q + |u|];
    }
  }

  /** A prefix that ends in front of a blank has no word the whole string does not have. */
  predicate CleanPrefix(s: ByteString, k: nat)
    requires k <= |s|
  {
    k == 0 || k == |s| || s[k] == SPACE
  }

  lemma PrefixKeepsOut(s: ByteString, k: nat, u: ByteString)
    requires k <= |s| && CleanPrefix(s, k) && u != []
    ensures !HasWord(s, u) ==> !HasWord(s[..k], u)
    ensures !Occurs(s, u) ==> !Occurs(s[..k], u)
  {
    if HasWord(s[..k], u) {
      var q: nat :| Standalone(s[..k], u, q);
      OccursInPrefix(s, k, u, q);
      assert Standalone(s, u, q);
    }
    if Occurs(s[..k], u) {
      var q: nat :| OccursAt(s[..k], u, q);
      OccursInPrefix(s, k, u, q);
    }
  }

  /** The suffix occurs only if the string starts with it. */
  ghost predicate OnlyAtStart(s: ByteString, u: ByteString) {
    Occurs(s, u) ==> OccursAt(s, u, 0)
  }

  lemma PrefixOnlyAtStart(s: ByteString, k: nat, u: ByteString)
    requires k <= |s| && OnlyAtStart(s, u)
    ensures OnlyAtStart(s[..k], u)
  {
    if Occurs(s[..k], u) {
      var q: nat :| OccursAt(s[..k], u, q);
      OccursInPrefix(s, k, u, q);
      OccursInPrefix(s, k, u, 0);
    }
  }

  /** Truncation cuts in front of a blank, and then the suffix is gone unless the string starts with it. */
  lemma TruncateIsPrefix(s: ByteString, suffix: ByteString) returns (k: nat)
    requires suffix != []
    ensures k <= |s| && CleanPrefix(s, k) && TruncateSuffix(s, suffix) == s[..k]
    ensures OnlyAtStart(s[..k], suffix)
  {
    var p := Strstr(s, suffix, 0);
    var start := WordStart(s, p);
    k := if p == |s| || p == 0 then |s| else if start > 0 then start - 1 else 0;
    assert s[..|s|] == s;
    if Occurs(s[..k], suffix) {
      var q: nat :| OccursAt(s[..k], suffix, q);
      OccursInPrefix(s, k, suffix, q);
      assert q >= p;
    }
  }

  // ----- The whole sanitiser --------------------------------------------------------------------------

  lemma {:induction false} DropMarkDrops(s: ByteString, mark: ByteString)
    requires mark != []
    ensures !Occurs(DropMark(s, mark), mark)
    decreases |s|
  {
    var p := Strstr(s, mark, 0);
    if p < |s| {
      DropMarkDrops(Cut(s, p, p + |mark|), mark);
    } else {
      assert forall q: nat :: !OccursAt(s, mark, q);
    }
  }

  lemma PrefixOfPrefix(s: ByteString, k: nat, j: nat)
    requires j <= k <= |s|
    ensures s[..k][..j] == s[..j]
    ensures CleanPrefix(s, k) && CleanPrefix(s[..k], j) ==> CleanPrefix(s, j)
  {
  }

  lemma CutFrequencyIsPrefix(s: ByteString) returns (k: nat)
    ensures k <= |s| && CleanPrefix(s, k) && CutFrequency(s) == s[..k] && !Occurs(s[..k], AT)
  {
    k := Strstr(s, AT, 0);
    assert k < |s| ==> s[k] == s[k..k + 2][0];
    if Occurs(s[..k], AT) {
      var q: nat :| OccursAt(s[..k], AT, q);
      OccursInPrefix(s, k, AT, q);
    }
  }

  /** After the three truncations, the frequency cut and the final trim, a clean prefix is left. */
  lemma TailIsPrefix(s: ByteString) returns (k: nat)
    ensures k <= |s| && CleanPrefix(s, k) && TrimEnd(CutFrequency(DropSuffixes(s))) == s[..k]
    ensures OnlyAtStart(s[..k], WITH) && OnlyAtStart(s[..k], CORE) && OnlyAtStart(s[..k], PROCESSOR)
    ensures !Occurs(s[..k], AT) && (k > 0 ==> s[k - 1] != SPACE)
  {
    var k1 := TruncateIsPrefix(s, WITH);
    var k2 := TruncateIsPrefix(s[..k1], CORE);
    PrefixOfPrefix(s, k1, k2);
    var k3 := TruncateIsPrefix(s[..k2], PROCESSOR);
    PrefixOfPrefix(s, k2, k3);
    var k4 := CutFrequencyIsPrefix(s[..k3]);
    PrefixOfPrefix(s, k3, k4);
    k := BlanksBefore(s[..k4], k4);
    PrefixOfPrefix(s, k4, k);
    PrefixOfPrefix(s, k1, k);
    PrefixOfPrefix(s, k2, k);
    PrefixOfPrefix(s, k3, k);
    PrefixOnlyAtStart(s[..k1], k, WITH);
    PrefixOnlyAtStart(s[..k2], k, CORE);
    PrefixOnlyAtStart(s[..k3], k, PROCESSOR);
    PrefixKeepsOut(s[..k4], k, AT);
  }

  /** Removing CPU and then APU leaves neither word; a mark that was gone stays gone. */
  lemma DropWordsDrops(s: ByteString)
    ensures !HasWord(DropWords(s), CPU) && !HasWord(DropWords(s), APU)
    ensures !Occurs(s, SMALL_TRADE_MARK) ==> !Occurs(DropWords(s), SMALL_TRADE_MARK)
  {
    var noCpu := RemoveWord(s, CPU, 0);
    RemoveWordRemoves(s, CPU, 0);
    RemoveWordKeepsOut(s, CPU, 0, SMALL_TRADE_MARK);
    RemoveWordRemoves(noCpu, APU, 0);
    RemoveWordKeepsOut(noCpu, APU, 0, CPU);
    RemoveWordKeepsOut(noCpu, APU, 0, SMALL_TRADE_MARK);
  }

  /**
   * What every sanitised name satisfies: no word CPU or APU, no "(tm)", no " @", no blank at the end,
   * and each marketing suffix only where the name starts with it.
   */
  lemma SanitizeGuarantees(s: ByteString)
    ensures var r := Sanitize(s);
      && !HasWord(r, Ascii("CPU")) && !HasWord(r, Ascii("APU"))
      && !Occurs(r, Ascii("(tm)")) && !Occurs(r, Ascii(" @"))
      && OnlyAtStart(r, Ascii("with")) && OnlyAtStart(r, Ascii("-Core")) && OnlyAtStart(r, Ascii("Processor"))
      && (r != [] ==> r[|r| - 1] != 32)
  {
    if s != [] {
      var marked := DropMarks(s);
      var words := DropWords(marked);
      DropMarkDrops(DropMark(DropMark(DropGeneration(s), REGISTERED), TRADE_MARK), SMALL_TRADE_MARK);
      DropWordsDrops(marked);
      var k := TailIsPrefix(words);
      PrefixKeepsOut(words, k, CPU);
      PrefixKeepsOut(words, k, APU);
      PrefixKeepsOut(words, k, SMALL_TRADE_MARK);
    }
  }

  // ----- Nothing is added or reordered ------------------------------------------------------------------

  lemma CutIsSubsequence(s: ByteString, a: nat, b: nat)
    requires a <= b <= |s|
    ensures IsSubsequence(Cut(s, a, b), s)
  {
    assert s[..b] == s[..a] + s[a..b] && s == s[..b] + s[b..];
    SubsequenceRefl(s[..a]);
    SubsequenceRefl(s[b..]);
    SubsequenceAppend(s[..a], s[..a], s[a..b]);
    SubsequenceConcat(s[..a], s[..b], s[b..], s[b..]);
  }

  lemma OfCut(d: ByteString, s: ByteString, a: nat, b: nat)
    requires a <= b <= |s| && IsSubsequence(d, Cut(s, a, b))
    ensures IsSubsequence(d, s)
  {
    CutIsSubsequence(s, a, b);
    SubsequenceTrans(d, Cut(s, a, b), s);
  }

  lemma SuffixIsSubsequence(s: ByteString, a: nat)
    requires a <= |s|
    ensures IsSubsequence(s[a..], s)
  {
    CutIsSubsequence(s, 0, a);
    assert Cut(s, 0, a) == s[a..];
  }

  lemma PrefixIsSubsequence(s: ByteString, k: nat)
    requires k <= |s|
    ensures IsSubsequence(s[..k], s)
  {
    CutIsSubsequence(s, k, |s|);
    assert Cut(s, k, |s|) == s[..k];
  }

  lemma DropMarkStep(s: ByteString, mark: ByteString, p: nat)
    requires mark != [] && p == Strstr(s, mark, 0) && p < |s|
    ensures p + |mark| <= |s| && DropMark(s, mark) == DropMark(Cut(s, p, p + |mark|), mark)
  {
  }

  lemma DropMarkNone(s: ByteString, mark: ByteString)
    requires mark != [] && Strstr(s, mark, 0) == |s|
    ensures DropMark(s, mark) == s
  {
  }

  lemma {:induction false} DropMarkIsSubsequence(s: ByteString, mark: ByteString)
    requires mark != []
    ensures IsSubsequence(DropMark(s, mark), s)
    decreases |s|
  {
    var p := Strstr(s, mark, 0);
    if p == |s| {
      DropMarkNone(s, mark);
      SubsequenceRefl(s);
    } else {
      DropMarkStep(s, mark, p);
      var s' := Cut(s, p, p + |mark|);
      DropMarkIsSubsequence(s', mark);
      OfCut(DropMark(s', mark), s, p, p + |mark|);
    }
  }

  lemma {:induction false} RemoveWordIsSubsequence(s: ByteString, w: ByteString, pos: nat)
    requires pos <= |s| && w != []
    ensures IsSubsequence(RemoveWord(s, w, pos), s)
    decreases |s| - pos
  {
    var p := Strstr(s, w, pos);
    if p == |s| {
      SubsequenceRefl(s);
    } else if !Standalone(s, w, p) {
      RemoveWordIsSubsequence(s, w, p + |w|);
    } else {
      var s' := WithoutWord(s, w, p);
      RemoveWordIsSubsequence(s', w, RangeStart(s, w, p));
      OfCut(RemoveWord(s', w, RangeStart(s, w, p)), s, RangeStart(s, w, p), RangeEnd(s, w, p));
    }
  }

  lemma DropGenerationIsSubsequence(s: ByteString)
    ensures IsSubsequence(DropGeneration(s), s)
  {
    var k := GenerationEnd(s);
    if k == |s| {
      SubsequenceRefl(s);
    } else {
      SuffixIsSubsequence(s, k + 1);
    }
  }

  lemma DropMarksIsSubsequence(s: ByteString)
    ensures IsSubsequence(DropMarks(s), s)
  {
    var g := DropGeneration(s);
    DropGenerationIsSubsequence(s);
    var a := DropMark(g, REGISTERED);
    var b := DropMark(a, TRADE_MARK);
    DropMarkIsSubsequence(g, REGISTERED);
    DropMarkIsSubsequence(a, TRADE_MARK);
    DropMarkIsSubsequence(b, SMALL_TRADE_MARK);
    SubsequenceTrans(a, g, s);
    SubsequenceTrans(b, a, s);
    SubsequenceTrans(DropMark(b, SMALL_TRADE_MARK), b, s);
  }

  /** The sanitised name is the input with some bytes left out. */
  lemma SanitizeIsSubsequence(s: ByteString)
    ensures IsSubsequence(Sanitize(s), s)
  {
    if s == [] {
      SubsequenceRefl(s);
    } else {
      var a := DropMarks(s);
      var b := RemoveWord(a, CPU, 0);
      var c := RemoveWord(b, APU, 0);
      DropMarksIsSubsequence(s);
      RemoveWordIsSubsequence(a, CPU, 0);
      RemoveWordIsSubsequence(b, APU, 0);
      var k := TailIsPrefix(c);
      PrefixIsSubsequence(c, k);
      SubsequenceTrans(b, a, s);
      SubsequenceTrans(c, b, s);
      SubsequenceTrans(Sanitize(s), c, s);
    }
  }

  // ----- Which names stay as they are ---------------------------------------------------------------------

  /** A "Gen" with a blank somewhere behind it. */
  ghost predicate HasGeneration(s: ByteString) {
    exists p: nat, i: nat :: OccursAt(s, GEN, p) && p <= i < |s| && s[i] == SPACE
  }

  /** Nothing in the name for the sanitiser to remove. */
  ghost predicate IsClean(s: ByteString) {
    && !HasGeneration(s)
    && !Occurs(s, REGISTERED) && !Occurs(s, TRADE_MARK) && !Occurs(s, SMALL_TRADE_MARK)
    && !HasWord(s, CPU) && !HasWord(s, APU)
    && OnlyAtStart(s, WITH) && OnlyAtStart(s, CORE) && OnlyAtStart(s, PROCESSOR)
    && !Occurs(s, AT) && (s != [] ==> s[|s| - 1] != SPACE)
  }

  lemma GenerationKept(s: ByteString)
    ensures DropGeneration(s) == s <==> !HasGeneration(s)
  {
    var p := Strstr(s, GEN, 0);
    var k := p + IndexOf(s[p..], SPACE);
    IndexOfBefore(s[p..], SPACE);
    if p < |s| && k < |s| {
      assert OccursAt(s, GEN, p) && s[k] == SPACE;
    } else {
      assert s[p..][..|s| - p] == s[p..];
      forall q: nat, i: nat | OccursAt(s, GEN, q) && q <= i < |s|
        ensures s[i] != SPACE
      {
        assert p <= q && s[i] == s[p..][i - p];
      }
    }
  }

  lemma {:induction false} WordKept(s: ByteString, w: ByteString, pos: nat)
    requires pos <= |s| && w != [] && !HasWord(s, w)
    ensures RemoveWord(s, w, pos) == s
    decreases |s| - pos
  {
    var p := Strstr(s, w, pos);
    if p < |s| {
      WordKept(s, w, p + |w|);
    }
  }

  lemma MarkKept(s: ByteString, mark: ByteString)
    requires mark != [] && !Occurs(s, mark)
    ensures DropMark(s, mark) == s
  {
    DropMarkNone(s, mark);
  }

  lemma SuffixKept(s: ByteString, suffix: ByteString)
    requires suffix != [] && OnlyAtStart(s, suffix)
    ensures TruncateSuffix(s, suffix) == s
  {
  }

  lemma EndKept(s: ByteString)
    requires !Occurs(s, AT) && (s != [] ==> s[|s| - 1] != SPACE)
    ensures CutFrequency(s) == s && TrimEnd(s) == s
  {
    assert s[..|s|] == s;
  }

  lemma CleanIsKept(s: ByteString)
    requires IsClean(s)
    ensures Sanitize(s) == s
  {
    GenerationKept(s);
    MarkKept(s, REGISTERED);
    MarkKept(s, TRADE_MARK);
    MarkKept(s, SMALL_TRADE_MARK);
    assert DropMarks(s) == s;
    WordKept(s, CPU, 0);
    WordKept(s, APU, 0);
    assert DropWords(s) == s;
    SuffixKept(s, WITH);
    SuffixKept(s, CORE);
    SuffixKept(s, PROCESSOR);
    assert DropSuffixes(s) == s;
    EndKept(s);
  }

  /** Every pass only drops bytes, so a name that comes out unchanged went through each pass unchanged. */
  lemma KeptPassByPass(s: ByteString)
    requires Sanitize(s) == s && s != []
    ensures DropGeneration(s) == s && DropMark(s, REGISTERED) == s && DropMark(s, TRADE_MARK) == s
  {
    var g := DropGeneration(s);
    var a := DropMark(g, REGISTERED);
    var b := DropMark(a, TRADE_MARK);
    var c := DropMark(b, SMALL_TRADE_MARK);
    var d := RemoveWord(c, CPU, 0);
    var e := RemoveWord(d, APU, 0);
    DropGenerationIsSubsequence(s);
    DropMarkIsSubsequence(g, REGISTERED);
    DropMarkIsSubsequence(a, TRADE_MARK);
    DropMarkIsSubsequence(b, SMALL_TRADE_MARK);
    RemoveWordIsSubsequence(c, CPU, 0);
    RemoveWordIsSubsequence(d, APU, 0);
    var k := TailIsPrefix(e);
    SubsequenceLength(g, s);
    SubsequenceLength(a, g);
    SubsequenceLength(b, a);
    SubsequenceLength(c, b);
    SubsequenceLength(d, c);
    SubsequenceLength(e, d);
  }

  /** A name comes out unchanged exactly when there is nothing in it to remove. */
  lemma KeptIffClean(s: ByteString)
    ensures Sanitize(s) == s <==> IsClean(s)
  {
    if IsClean(s) {
      CleanIsKept(s);
    } else if s != [] && Sanitize(s) == s {
      KeptPassByPass(s);
      GenerationKept(s);
      DropMarkDrops(s, REGISTERED);
      DropMarkDrops(s, TRADE_MARK);
      SanitizeGuarantees(s);
    }
  }
}
