/** Which marks survive the sanitiser of hardware.c: removing one kind can bring back another. */
module CpuNameMarks {
  import opened Bytes
  import opened CpuName

  const OPEN: Byte := 40
  const CLOSE: Byte := 41

  /** A bracketed text with no bracket inside, such as "(R)". */
  predicate IsMark(m: ByteString) {
    && |m| >= 3 && m[0] == OPEN && m[|m| - 1] == CLOSE
    && forall i :: 0 < i < |m| - 1 ==> m[i] != OPEN && m[i] != CLOSE
  }

  predicate AreMarks(ms: seq<ByteString>) {
    forall i :: 0 <= i < |ms| ==> IsMark(ms[i])
  }

  /** No byte inside the brackets of `w` occurs in `m`. */
  predicate Foreign(w: ByteString, m: ByteString) {
    IsMark(w) && IsMark(m) && forall i :: 0 < i < |w| - 1 ==> w[i] !in m
  }

  predicate ForeignToAll(w: ByteString, ms: seq<ByteString>) {
    IsMark(w) && forall i :: 0 <= i < |ms| ==> Foreign(w, ms[i])
  }

  // ----- The order of removals does not matter ---------------------------------------------------------

  lemma OccursBytes(s: ByteString, w: ByteString, p: nat)
    ensures OccursAt(s, w, p) <==> p + |w| <= |s| && forall j :: p <= j < p + |w| ==> s[j] == w[j - p]
  {
    if p + |w| <= |s| {
      var slice := s[p..p + |w|];
      assert forall i :: 0 <= i < |w| ==> slice[i] == s[p + i];
      if forall j :: p <= j < p + |w| ==> s[j] == w[j - p] {
        assert slice == w;
      } else {
        var j :| p <= j < p + |w| && s[j] != w[j - p];
        assert slice[j - p] != w[j - p];
      }
    }
  }

  /** Two occurrences of a mark do not overlap. */
  lemma MarksApart(z: ByteString, m: ByteString, p: nat, q: nat)
    requires IsMark(m) && OccursAt(z, m, p) && OccursAt(z, m, q) && p < q
    ensures p + |m| <= q
  {
    OccursBytes(z, m, p);
    OccursBytes(z, m, q);
    assert z[q] == OPEN;
    assert forall j :: p < j < p + |m| ==> z[j] != OPEN;
  }

  /** `z` without `n` bytes from position `p` on. */
  function Removed(z: ByteString, p: nat, n: nat): (r: ByteString)
    requires p + n <= |z|
    ensures |r| == |z| - n
  {
    z[..p] + z[p + n..]
  }

  /** An occurrence in front of a removed part stays, one behind it moves up. */
  lemma OccursAfterRemoval(z: ByteString, m: ByteString, q: nat, p: nat, n: nat, r: nat)
    requires p + n <= |z| && OccursAt(z, m, q)
    requires if q < p then q + |m| <= p && r == q else p + n <= q && r == q - n
    ensures OccursAt(Removed(z, p, n), m, r)
  {
    var z' := Removed(z, p, n);
    assert z'[r..r + |m|] == z[q..q + |m|];
  }

  lemma RemovalsCommute(z: ByteString, q: nat, p: nat, n: nat, r: nat)
    requires q + n <= p == r + n && p + n <= |z|
    ensures Removed(Removed(z, q, n), r, n) == Removed(Removed(z, p, n), q, n)
  {
  }

  lemma MarksInOrder(z: ByteString, m: ByteString, p: nat, q: nat)
    requires IsMark(m) && OccursAt(z, m, p) && OccursAt(z, m, q) && p != q
    ensures p + |m| <= q || q + |m| <= p
  {
    if p < q {
      MarksApart(z, m, p, q);
    } else {
      MarksApart(z, m, q, p);
    }
  }

  /** Some occurrence, no matter which. */
  ghost function Pick(z: ByteString, m: ByteString): (p: nat)
    requires Occurs(z, m)
    ensures OccursAt(z, m, p)
  {
    var p: nat :| OccursAt(z, m, p);
    p
  }

  /** `z` with occurrences of the mark taken out, in no particular order, until there is none. */
  ghost function Reduced(z: ByteString, m: ByteString): ByteString
    requires m != []
    decreases |z|
  {
    if Occurs(z, m) then Reduced(Removed(z, Pick(z, m), |m|), m) else z
  }

  /** Two occurrences taken out in either order: where the other one is after the first removal. */
  lemma RemovedTwice(z: ByteString, m: ByteString, p: nat, q: nat) returns (p': nat, q': nat)
    requires IsMark(m) && OccursAt(z, m, p) && OccursAt(z, m, q) && p != q
    ensures OccursAt(Removed(z, q, |m|), m, p') && OccursAt(Removed(z, p, |m|), m, q')
    ensures Removed(Removed(z, q, |m|), p', |m|) == Removed(Removed(z, p, |m|), q', |m|)
  {
    MarksInOrder(z, m, p, q);
    if p < q {
      p', q' := p, q - |m|;
      RemovalsCommute(z, p, q, |m|, q');
    } else {
      p', q' := p - |m|, q;
      RemovalsCommute(z, q, p, |m|, p');
    }
    OccursAfterRemoval(z, m, p, q, |m|, p');
    OccursAfterRemoval(z, m, q, p, |m|, q');
  }

  lemma ReducedStep(z: ByteString, m: ByteString)
    requires m != [] && Occurs(z, m)
    ensures Reduced(z, m) == Reduced(Removed(z, Pick(z, m), |m|), m)
  {
  }

  /** Whichever occurrence is taken out first, the same is left in the end. */
  lemma {:induction false} ReducedAny(z: ByteString, m: ByteString, p: nat)
    requires IsMark(m) && OccursAt(z, m, p)
    ensures Reduced(z, m) == Reduced(Removed(z, p, |m|), m)
    decreases |z|
  {
    var q := Pick(z, m);
    ReducedStep(z, m);
    if p != q {
      var p', q' := RemovedTwice(z, m, p, q);
      ReducedAny(Removed(z, q, |m|), m, p');
      ReducedAny(Removed(z, p, |m|), m, q');
    }
  }

  lemma ReducedCut(z: ByteString, m: ByteString, p: nat)
    requires IsMark(m) && p == Strstr(z, m, 0) && p < |z|
    ensures p + |m| <= |z| && Reduced(z, m) == Reduced(Cut(z, p, p + |m|), m)
  {
    ReducedAny(z, m, p);
    assert Removed(z, p, |m|) == Cut(z, p, p + |m|);
  }

  lemma ReducedFree(z: ByteString, m: ByteString)
    requires m != [] && Strstr(z, m, 0) == |z|
    ensures Reduced(z, m) == z
  {
    assert forall q: nat :: !OccursAt(z, m, q);
  }

  /** So the leftmost-first loop of the sanitiser leaves just that. */
  lemma {:induction false} DropMarkReduces(z: ByteString, m: ByteString)
    requires IsMark(m)
    ensures DropMark(z, m) == Reduced(z, m)
    decreases |z|
  {
    var p := Strstr(z, m, 0);
    if p < |z| {
      DropMarkStep(z, m, p);
      ReducedCut(z, m, p);
      DropMarkReduces(Cut(z, p, p + |m|), m);
    } else {
      DropMarkNone(z, m);
      ReducedFree(z, m);
    }
  }

  // ----- Erasing -----------------------------------------------------------------------------------

  /** Removes the marks of a list, one kind after another. */
  ghost function Strip(s: ByteString, ms: seq<ByteString>): ByteString
    requires AreMarks(ms)
    decreases |ms|
  {
    if ms == [] then s else Strip(Reduced(s, ms[0]), ms[1..])
  }

  /** Nothing is left of the string. */
  ghost predicate Erases(s: ByteString, ms: seq<ByteString>)
    requires AreMarks(ms)
  {
    Strip(s, ms) == []
  }

  predicate Bracketed(s: ByteString) {
    s != [] ==> s[0] == OPEN && s[|s| - 1] == CLOSE
  }

  lemma CutBracketed(s: ByteString, m: ByteString, p: nat)
    requires IsMark(m) && OccursAt(s, m, p) && Bracketed(Removed(s, p, |m|))
    ensures Bracketed(s)
  {
    OccursBytes(s, m, p);
    assert s[p] == OPEN && s[p + |m| - 1] == CLOSE;
  }

  lemma {:induction false} ReducedBracketed(s: ByteString, m: ByteString)
    requires IsMark(m) && Bracketed(Reduced(s, m))
    ensures Bracketed(s)
    decreases |s|
  {
    if Occurs(s, m) {
      ReducedBracketed(Removed(s, Pick(s, m), |m|), m);
      CutBracketed(s, m, Pick(s, m));
    }
  }

  /** What erases starts and ends with a bracket. */
  lemma {:induction false} ErasesBracketed(s: ByteString, ms: seq<ByteString>)
    requires AreMarks(ms) && Bracketed(Strip(s, ms))
    ensures Bracketed(s)
    decreases |ms|
  {
    if ms != [] {
      ErasesBracketed(Reduced(s, ms[0]), ms[1..]);
      ReducedBracketed(s, ms[0]);
    }
  }

  /** Which texts erase: a predicate on strings that closes on itself and does not see a mark `m`. */
  type Eraser = ByteString -> bool

  ghost predicate Closed(e: Eraser) {
    e([]) && forall u :: e(u) ==> Bracketed(u)
  }

  ghost predicate Blind(e: Eraser, m: ByteString)
    requires m != []
  {
    forall u, p: nat :: OccursAt(u, m, p) ==> (e(u) <==> e(Removed(u, p, |m|)))
  }

  ghost function Erasing(ms: seq<ByteString>): Eraser
    requires AreMarks(ms)
  {
    u => Erases(u, ms)
  }

  lemma {:induction false} NothingErases(ms: seq<ByteString>)
    requires AreMarks(ms)
    ensures Erases([], ms)
    decreases |ms|
  {
    if ms != [] {
      NothingErases(ms[1..]);
    }
  }

  lemma ErasingIsClosed(ms: seq<ByteString>)
    requires AreMarks(ms)
    ensures Closed(Erasing(ms))
  {
    NothingErases(ms);
    forall u | Erases(u, ms)
      ensures Bracketed(u)
    {
      ErasesBracketed(u, ms);
    }
  }

  lemma ErasingIsBlind(ms: seq<ByteString>)
    requires AreMarks(ms) && ms != []
    ensures Blind(Erasing(ms), ms[0])
  {
    forall u, p: nat | OccursAt(u, ms[0], p)
      ensures Erases(u, ms) <==> Erases(Removed(u, p, |ms[0]|), ms)
    {
      ReducedAny(u, ms[0], p);
    }
  }

  // ----- Spelling a mark with gaps that erase --------------------------------------------------------

  /** At the positions `ks` of `z` stand the bytes of `w`, with nothing but erasing text between them. */
  ghost predicate Spelling(z: ByteString, w: ByteString, e: Eraser, ks: seq<nat>) {
    && |ks| == |w|
    && (forall j :: 0 <= j < |w| ==> ks[j] < |z| && z[ks[j]] == w[j])
    && (forall j, k :: 0 <= j && k == j + 1 && k < |w| ==> ks[j] < ks[k] && e(z[ks[j] + 1..ks[k]]))
  }

  ghost predicate SpelledIn(z: ByteString, w: ByteString, e: Eraser) {
    exists ks :: Spelling(z, w, e, ks)
  }

  /** Somewhere in `s` the mark `w` is spelled with gaps that removing the marks `ms` erases. */
  ghost predicate Survives(s: ByteString, w: ByteString, ms: seq<ByteString>)
    requires AreMarks(ms)
  {
    SpelledIn(s, w, Erasing(ms))
  }

  /** `z'` is `z` without `n` bytes from `p` on. */
  ghost predicate Cutting(z: ByteString, z': ByteString, p: nat, n: nat) {
    && p + n <= |z| == |z'| + n
    && (forall i :: 0 <= i < p ==> z'[i] == z[i])
    && (forall i :: p <= i < |z'| ==> z'[i] == z[i + n])
  }

  lemma RemovedCuts(z: ByteString, p: nat, n: nat)
    requires p + n <= |z|
    ensures Cutting(z, Removed(z, p, n), p, n)
  {
  }

  /** Where a position behind the cut was before it. */
  function Before(k: nat, p: nat, n: nat): nat {
    if k < p then k else k + n
  }

  /** A gap from the byte `a` to the byte `b` that does not touch a mark: it erases with it just as without it. */
  lemma GapCut(z: ByteString, z': ByteString, e: Eraser, m: ByteString, p: nat, a: nat, b: nat)
    requires m != [] && Blind(e, m) && OccursAt(z, m, p) && Cutting(z, z', p, |m|) && a < b < |z'|
    ensures a + 1 <= b && Before(a, p, |m|) + 1 <= Before(b, p, |m|) < |z|
    ensures e(z[Before(a, p, |m|) + 1..Before(b, p, |m|)]) <==> e(z'[a + 1..b])
  {
    var c, d := Before(a, p, |m|) + 1, Before(b, p, |m|);
    if a < p <= b {
      var u, q := z[c..d], p - c;
      OccursBytes(z, m, p);
      OccursBytes(u, m, q);
      assert Removed(u, q, |m|) == z'[a + 1..b];
    } else {
      assert z[c..d] == z'[a + 1..b];
    }
  }

  /** Positions of `z'` taken back to `z` spell there what they spelled. */
  lemma SpellingCut(z: ByteString, z': ByteString, w: ByteString, e: Eraser, m: ByteString, p: nat,
                    ks: seq<nat>, js: seq<nat>)
    requires m != [] && Blind(e, m) && OccursAt(z, m, p) && Cutting(z, z', p, |m|)
    requires |ks| == |js| == |w| && forall j :: 0 <= j < |w| ==> js[j] < |z'| && ks[j] == Before(js[j], p, |m|)
    ensures Spelling(z, w, e, ks) <==> Spelling(z', w, e, js)
  {
    forall j, k | 0 <= j && k == j + 1 && k < |w|
      ensures js[j] < js[k] <==> ks[j] < ks[k]
      ensures js[j] < js[k] ==> (e(z[ks[j] + 1..ks[k]]) <==> e(z'[js[j] + 1..js[k]]))
    {
      if js[j] < js[k] {
        GapCut(z, z', e, m, p, js[j], js[k]);
      }
    }
  }

  lemma SpelledInserted(z: ByteString, w: ByteString, e: Eraser, m: ByteString, p: nat)
    requires m != [] && Blind(e, m) && OccursAt(z, m, p) && SpelledIn(Removed(z, p, |m|), w, e)
    ensures SpelledIn(z, w, e)
  {
    var z' := Removed(z, p, |m|);
    RemovedCuts(z, p, |m|);
    var js :| Spelling(z', w, e, js);
    var ks := seq(|js|, j requires 0 <= j < |js| => Before(js[j], p, |m|));
    SpellingCut(z, z', w, e, m, p, ks, js);
  }

  /** The first letter is an opening bracket; no mark starts there, as its second byte starts no gap. */
  lemma FirstApart(z: ByteString, w: ByteString, e: Eraser, m: ByteString, p: nat, ks: seq<nat>)
    requires Closed(e) && OccursAt(z, m, p) && Foreign(w, m) && Spelling(z, w, e, ks)
    ensures p + |m| <= ks[0] || ks[0] < p
  {
    OccursBytes(z, m, p);
    var i, k := ks[0], ks[1];
    assert e(z[i + 1..k]);
    assert k > i + 1 ==> z[i + 1..k][0] == z[i + 1];
  }

  /** The last letter is a closing bracket; no mark ends there, as its last byte but one ends no gap. */
  lemma LastApart(z: ByteString, w: ByteString, e: Eraser, m: ByteString, p: nat, ks: seq<nat>)
    requires Closed(e) && OccursAt(z, m, p) && Foreign(w, m) && Spelling(z, w, e, ks)
    ensures var k := ks[|w| - 1]; p + |m| <= k || k < p
  {
    OccursBytes(z, m, p);
    var i, k := ks[|w| - 2], ks[|w| - 1];
    assert e(z[i + 1..k]);
    assert k > i + 1 ==> z[i + 1..k][k - i - 2] == z[k - 1];
  }

  /** The letters in between do not occur in the mark. */
  lemma InnerApart(z: ByteString, w: ByteString, e: Eraser, m: ByteString, p: nat, ks: seq<nat>, j: nat)
    requires OccursAt(z, m, p) && Foreign(w, m) && Spelling(z, w, e, ks) && 0 < j < |w| - 1
    ensures p + |m| <= ks[j] || ks[j] < p
  {
    OccursBytes(z, m, p);
    assert z[ks[j]] == w[j];
  }

  lemma LettersApart(z: ByteString, w: ByteString, e: Eraser, m: ByteString, p: nat, ks: seq<nat>)
    requires Closed(e) && OccursAt(z, m, p) && Foreign(w, m) && Spelling(z, w, e, ks)
    ensures forall j :: 0 <= j < |w| ==> p + |m| <= ks[j] || ks[j] < p
  {
    FirstApart(z, w, e, m, p, ks);
    LastApart(z, w, e, m, p, ks);
    forall j | 0 < j < |w| - 1
      ensures p + |m| <= ks[j] || ks[j] < p
    {
      InnerApart(z, w, e, m, p, ks, j);
    }
  }

  lemma SpelledRemoved(z: ByteString, w: ByteString, e: Eraser, m: ByteString, p: nat)
    requires Foreign(w, m) && Closed(e) && Blind(e, m) && OccursAt(z, m, p) && SpelledIn(z, w, e)
    ensures SpelledIn(Removed(z, p, |m|), w, e)
  {
    var z' := Removed(z, p, |m|);
    RemovedCuts(z, p, |m|);
    var ks :| Spelling(z, w, e, ks);
    LettersApart(z, w, e, m, p, ks);
    var js := seq(|ks|, j requires 0 <= j < |ks| => if ks[j] < p then ks[j] else ks[j] - |m|);
    SpellingCut(z, z', w, e, m, p, ks, js);
  }

  /** Removing all marks of one kind neither makes nor spoils a spelling that is blind to them. */
  lemma {:induction false} SpelledReduced(z: ByteString, w: ByteString, e: Eraser, m: ByteString)
    requires Foreign(w, m) && Closed(e) && Blind(e, m)
    ensures SpelledIn(Reduced(z, m), w, e) <==> SpelledIn(z, w, e)
    decreases |z|
  {
    if Occurs(z, m) {
      var p := Pick(z, m);
      SpelledReduced(Removed(z, p, |m|), w, e, m);
      if SpelledIn(z, w, e) {
        SpelledRemoved(z, w, e, m, p);
      } else if SpelledIn(Removed(z, p, |m|), w, e) {
        SpelledInserted(z, w, e, m, p);
      }
    }
  }

  lemma {:induction false} ReducedIsFree(z: ByteString, m: ByteString)
    requires m != []
    ensures !Occurs(Reduced(z, m), m)
    decreases |z|
  {
    if Occurs(z, m) {
      ReducedIsFree(Removed(z, Pick(z, m), |m|), m);
    }
  }

  lemma FreeSlice(z: ByteString, m: ByteString, a: nat, b: nat)
    requires a <= b <= |z| && !Occurs(z, m)
    ensures !Occurs(z[a..b], m) && !Occurs(z[a..], m)
  {
    forall p: nat | a + p + |m| <= |z|
      ensures !OccursAt(z[a..], m, p) && !OccursAt(z[a..b], m, p)
    {
      OccursBytes(z, m, a + p);
      OccursBytes(z[a..], m, p);
      OccursBytes(z[a..b], m, p);
      assert !OccursAt(z, m, a + p);
    }
  }

  /** On the parts of `z` the two erasers say the same. */
  ghost predicate AgreeOn(z: ByteString, e: Eraser, f: Eraser) {
    forall a, b :: 0 <= a <= b <= |z| ==> (e(z[a..b]) <==> f(z[a..b]))
  }

  lemma SpelledAgree(z: ByteString, w: ByteString, e: Eraser, f: Eraser)
    requires AgreeOn(z, e, f) && SpelledIn(z, w, e)
    ensures SpelledIn(z, w, f)
  {
    var ks :| Spelling(z, w, e, ks);
    assert Spelling(z, w, f, ks);
  }

  /** In a string without the first mark, gaps erase without it too. */
  lemma SurvivesFree(z: ByteString, w: ByteString, ms: seq<ByteString>)
    requires AreMarks(ms) && ms != [] && !Occurs(z, ms[0])
    ensures Survives(z, w, ms) <==> Survives(z, w, ms[1..])
  {
    var e, f := Erasing(ms), Erasing(ms[1..]);
    forall a, b | 0 <= a <= b <= |z|
      ensures e(z[a..b]) <==> f(z[a..b])
    {
      FreeSlice(z, ms[0], a, b);
    }
    if SpelledIn(z, w, e) {
      SpelledAgree(z, w, e, f);
    }
    if SpelledIn(z, w, f) {
      SpelledAgree(z, w, f, e);
    }
  }

  lemma {:induction false} Consecutive(ks: seq<nat>, j: nat)
    requires j < |ks| && forall i, k :: 0 <= i && k == i + 1 && k < |ks| ==> ks[k] == ks[i] + 1
    ensures ks[j] == ks[0] + j
  {
    if j > 0 {
      Consecutive(ks, j - 1);
    }
  }

  /** With nothing to erase, spelling is occurring. */
  lemma SpelledPlain(z: ByteString, w: ByteString, e: Eraser)
    requires w != [] && forall u :: e(u) <==> u == []
    ensures SpelledIn(z, w, e) <==> Occurs(z, w)
  {
    if SpelledIn(z, w, e) {
      var ks :| Spelling(z, w, e, ks);
      forall i, k | 0 <= i && k == i + 1 && k < |ks|
        ensures ks[k] == ks[i] + 1
      {
        assert |z[ks[i] + 1..ks[k]]| == 0;
      }
      forall j | ks[0] <= j < ks[0] + |w|
        ensures j < |z| && z[j] == w[j - ks[0]]
      {
        Consecutive(ks, j - ks[0]);
      }
      Consecutive(ks, |w| - 1);
      OccursBytes(z, w, ks[0]);
    }
    if Occurs(z, w) {
      var p: nat :| OccursAt(z, w, p);
      OccursBytes(z, w, p);
      var ks := seq(|w|, j requires 0 <= j < |w| => p + j);
      assert Spelling(z, w, e, ks);
    }
  }

  lemma SurvivesPlain(z: ByteString, w: ByteString)
    requires w != []
    ensures Survives(z, w, []) <==> Occurs(z, w)
  {
    SpelledPlain(z, w, Erasing([]));
  }

  /**
   * Removing other kinds of marks, one after another, leaves an occurrence of `w` exactly where the
   * string spelled `w` with gaps that these removals erase completely.
   */
  lemma {:induction false} StripLeaves(z: ByteString, w: ByteString, ms: seq<ByteString>)
    requires AreMarks(ms) && ForeignToAll(w, ms)
    ensures Occurs(Strip(z, ms), w) <==> Survives(z, w, ms)
    decreases |ms|
  {
    if ms == [] {
      SurvivesPlain(z, w);
    } else {
      var z' := Reduced(z, ms[0]);
      StripLeaves(z', w, ms[1..]);
      ErasingIsClosed(ms);
      ErasingIsBlind(ms);
      SpelledReduced(z, w, Erasing(ms), ms[0]);
      ReducedIsFree(z, ms[0]);
      SurvivesFree(z', w, ms);
    }
  }

  // ----- The three marks of the sanitiser -----------------------------------------------------------------

  lemma MarkBytes()
    ensures REGISTERED == [40, 82, 41] && TRADE_MARK == [40, 84, 77, 41] && SMALL_TRADE_MARK == [40, 116, 109, 41]
  {
  }

  lemma TheMarks()
    ensures AreMarks([TRADE_MARK, SMALL_TRADE_MARK]) && ForeignToAll(REGISTERED, [TRADE_MARK, SMALL_TRADE_MARK])
    ensures AreMarks([SMALL_TRADE_MARK]) && ForeignToAll(TRADE_MARK, [SMALL_TRADE_MARK])
    ensures IsMark(REGISTERED) && SPACE !in REGISTERED && SPACE !in TRADE_MARK
  {
    MarkBytes();
  }

  /** The string after the first mark loop, and after the second. */
  function WithoutRegistered(s: ByteString): ByteString {
    DropMark(DropGeneration(s), REGISTERED)
  }

  function WithoutTradeMark(s: ByteString): ByteString {
    DropMark(WithoutRegistered(s), TRADE_MARK)
  }

  lemma StripOne(z: ByteString, m: ByteString)
    requires IsMark(m)
    ensures Strip(z, [m]) == DropMark(z, m)
  {
    DropMarkReduces(z, m);
    assert [m][1..] == [];
  }

  lemma StripTwo(z: ByteString, m: ByteString, n: ByteString)
    requires IsMark(m) && IsMark(n)
    ensures Strip(z, [m, n]) == DropMark(DropMark(z, m), n)
  {
    DropMarkReduces(z, m);
    assert [m, n][1..] == [n];
    StripOne(DropMark(z, m), n);
  }

  /** What the mark loops leave out stays out: no later pass makes a text without blanks. */
  lemma LaterPassesKeepOut(s: ByteString, u: ByteString)
    requires u != [] && SPACE !in u && !Occurs(DropMarks(s), u)
    ensures !Occurs(Sanitize(s), u)
  {
    var marked := DropMarks(s);
    var noCpu := RemoveWord(marked, CPU, 0);
    RemoveWordKeepsOut(marked, CPU, 0, u);
    RemoveWordKeepsOut(noCpu, APU, 0, u);
    var k := TailIsPrefix(DropWords(marked));
    PrefixKeepsOut(DropWords(marked), k, u);
  }

  /**
   * "(R)" is there after the mark loops exactly if, once the first loop is done, "(", "R" and ")" stand
   * in order with nothing between them but text that the "(TM)" loop and then the "(tm)" loop erase.
   */
  lemma RegisteredSurvives(s: ByteString)
    ensures AreMarks([TRADE_MARK, SMALL_TRADE_MARK])
    ensures Occurs(DropMarks(s), REGISTERED)
       <==> Survives(WithoutRegistered(s), REGISTERED, [TRADE_MARK, SMALL_TRADE_MARK])
    ensures !Survives(WithoutRegistered(s), REGISTERED, [TRADE_MARK, SMALL_TRADE_MARK])
        ==> !Occurs(Sanitize(s), REGISTERED)
  {
    TheMarks();
    StripTwo(WithoutRegistered(s), TRADE_MARK, SMALL_TRADE_MARK);
    StripLeaves(WithoutRegistered(s), REGISTERED, [TRADE_MARK, SMALL_TRADE_MARK]);
    if !Occurs(DropMarks(s), REGISTERED) {
      LaterPassesKeepOut(s, REGISTERED);
    }
  }

  /** The same for "(TM)", which only the "(tm)" loop can bring back. */
  lemma TradeMarkSurvives(s: ByteString)
    ensures AreMarks([SMALL_TRADE_MARK])
    ensures Occurs(DropMarks(s), TRADE_MARK) <==> Survives(WithoutTradeMark(s), TRADE_MARK, [SMALL_TRADE_MARK])
    ensures !Survives(WithoutTradeMark(s), TRADE_MARK, [SMALL_TRADE_MARK]) ==> !Occurs(Sanitize(s), TRADE_MARK)
  {
    TheMarks();
    StripOne(WithoutTradeMark(s), SMALL_TRADE_MARK);
    StripLeaves(WithoutTradeMark(s), TRADE_MARK, [SMALL_TRADE_MARK]);
    if !Occurs(DropMarks(s), TRADE_MARK) {
      LaterPassesKeepOut(s, TRADE_MARK);
    }
  }

  // ----- A test on the raw name -----------------------------------------------------------------------------

  /** No byte of `w` but the last has an opening bracket behind it. */
  ghost predicate Sealed(z: ByteString, w: ByteString) {
    forall i :: 0 <= i < |w| - 1 ==> !Occurs(z, [w[i], OPEN])
  }

  lemma PairStaysOut(z: ByteString, m: ByteString, p: nat, c: Byte)
    requires IsMark(m) && OccursAt(z, m, p) && Occurs(Removed(z, p, |m|), [c, OPEN])
    ensures Occurs(z, [c, OPEN])
  {
    var z' := Removed(z, p, |m|);
    var q: nat :| OccursAt(z', [c, OPEN], q);
    OccursBytes(z', [c, OPEN], q);
    OccursBytes(z, m, p);
    assert z'[q] == c && z'[q + 1] == OPEN && z[p] == OPEN;
    var r := if q < p then q else q + |m|;
    OccursBytes(z, [c, OPEN], r);
    assert OccursAt(z, [c, OPEN], r);
  }

  lemma MadeBehind(z: ByteString, m: ByteString, p: nat, w: ByteString, q: nat)
    requires IsMark(m) && OccursAt(z, m, p) && w != []
    requires OccursAt(Removed(z, p, |m|), w, q) && q < p < q + |w|
    ensures !Sealed(z, w)
  {
    var z', i := Removed(z, p, |m|), p - 1 - q;
    RemovedCuts(z, p, |m|);
    OccursBytes(z', w, q);
    OccursBytes(z, m, p);
    assert z[p - 1] == w[i] && z[p] == OPEN;
    OccursBytes(z, [w[i], OPEN], p - 1);
    assert Occurs(z, [w[i], OPEN]);
  }

  lemma OccursBeforeRemoval(z: ByteString, m: ByteString, p: nat, w: ByteString, q: nat)
    requires OccursAt(z, m, p) && OccursAt(Removed(z, p, |m|), w, q) && (q + |w| <= p || p <= q)
    ensures Occurs(z, w)
  {
    var r := if p <= q then q + |m| else q;
    RemovedCuts(z, p, |m|);
    OccursBytes(Removed(z, p, |m|), w, q);
    OccursBytes(z, w, r);
    assert OccursAt(z, w, r);
  }

  /** An occurrence that a removal makes has an opening bracket behind one of its bytes before. */
  lemma MadeAcross(z: ByteString, m: ByteString, p: nat, w: ByteString)
    requires IsMark(m) && OccursAt(z, m, p) && w != [] && Occurs(Removed(z, p, |m|), w)
    ensures Occurs(z, w) || !Sealed(z, w)
  {
    var q: nat :| OccursAt(Removed(z, p, |m|), w, q);
    if q < p < q + |w| {
      MadeBehind(z, m, p, w, q);
    } else {
      OccursBeforeRemoval(z, m, p, w, q);
    }
  }

  lemma {:induction false} SealedReduced(z: ByteString, m: ByteString, w: ByteString)
    requires IsMark(m) && w != [] && Sealed(z, w)
    ensures Sealed(Reduced(z, m), w) && (!Occurs(z, w) ==> !Occurs(Reduced(z, m), w))
    decreases |z|
  {
    if Occurs(z, m) {
      var p := Pick(z, m);
      var z' := Removed(z, p, |m|);
      forall i | 0 <= i < |w| - 1
        ensures !Occurs(z', [w[i], OPEN])
      {
        if Occurs(z', [w[i], OPEN]) {
          PairStaysOut(z, m, p, w[i]);
        }
      }
      if Occurs(z', w) {
        MadeAcross(z, m, p, w);
      }
      SealedReduced(z', m, w);
    }
  }

  /** Removing marks from a sealed string keeps it sealed and does not make `w`. */
  lemma SealedDrop(z: ByteString, m: ByteString, w: ByteString)
    requires IsMark(m) && w != [] && Sealed(z, w)
    ensures Sealed(DropMark(z, m), w) && (!Occurs(z, w) ==> !Occurs(DropMark(z, m), w))
  {
    DropMarkReduces(z, m);
    SealedReduced(z, m, w);
  }

  lemma SealedGeneration(s: ByteString, w: ByteString)
    requires Sealed(s, w)
    ensures Sealed(DropGeneration(s), w)
  {
    var k := GenerationEnd(s);
    forall i | 0 <= i < |w| - 1
      ensures !Occurs(DropGeneration(s), [w[i], OPEN])
    {
      if k < |s| {
        FreeSlice(s, [w[i], OPEN], k + 1, |s|);
      }
    }
  }

  /** A name in which no "(" follows "(" or "R" comes out without "(R)". */
  lemma NoRegisteredIfSealed(s: ByteString)
    requires Sealed(s, REGISTERED)
    ensures !Occurs(Sanitize(s), REGISTERED)
  {
    TheMarks();
    var g := DropGeneration(s);
    SealedGeneration(s, REGISTERED);
    SealedDrop(g, REGISTERED, REGISTERED);
    DropMarkDrops(g, REGISTERED);
    SealedDrop(WithoutRegistered(s), TRADE_MARK, REGISTERED);
    SealedDrop(WithoutTradeMark(s), SMALL_TRADE_MARK, REGISTERED);
    LaterPassesKeepOut(s, REGISTERED);
  }

  /** A name in which no "(" follows "(", "T" or "M" comes out without "(TM)". */
  lemma NoTradeMarkIfSealed(s: ByteString)
    requires Sealed(s, TRADE_MARK)
    ensures !Occurs(Sanitize(s), TRADE_MARK)
  {
    TheMarks();
    var g := DropGeneration(s);
    SealedGeneration(s, TRADE_MARK);
    SealedDrop(g, REGISTERED, TRADE_MARK);
    SealedDrop(WithoutRegistered(s), TRADE_MARK, TRADE_MARK);
    DropMarkDrops(WithoutRegistered(s), TRADE_MARK);
    SealedDrop(WithoutTradeMark(s), SMALL_TRADE_MARK, TRADE_MARK);
    LaterPassesKeepOut(s, TRADE_MARK);
  }

  // ----- Marks that do come back ------------------------------------------------------------------------

  lemma Differs(s: ByteString, w: ByteString, p: nat, i: nat)
    requires i < |w| && p + i < |s| && s[p + i] != w[i]
    ensures !OccursAt(s, w, p)
  {
    if p + |w| <= |s| {
      assert s[p..p + |w|][i] == s[p + i];
    }
  }

  lemma ByteMissing(s: ByteString, w: ByteString, i: nat)
    requires i < |w| && w[i] !in s
    ensures Strstr(s, w, 0) == |s| && !HasWord(s, w) && DropMark(s, w) == s
  {
    forall p: nat | p + |w| <= |s|
      ensures !OccursAt(s, w, p)
    {
      Differs(s, w, p, i);
    }
  }

  /** The marks are removed one kind after another: taking "(TM)" out can bring "(R)" back. */
  lemma RegisteredComesBack()
    ensures Sanitize(Ascii("((TM)R)")) == REGISTERED
  {
    var s, r := Ascii("((TM)R)"), REGISTERED;
    assert s == [40, 40, 84, 77, 41, 82, 41] && r == [40, 82, 41];
    RegisteredInside(s, r);
    MarkAlone(r);
  }

  lemma RegisteredInside(s: ByteString, r: ByteString)
    requires s == [40, 40, 84, 77, 41, 82, 41] && r == [40, 82, 41]
    ensures DropMarks(s) == r
  {
    ByteMissing(s, GEN, 0);
    RegisteredCut(s, r);
    ByteMissing(r, SMALL_TRADE_MARK, 1);
  }

  lemma RegisteredCut(s: ByteString, r: ByteString)
    requires s == [40, 40, 84, 77, 41, 82, 41] && r == [40, 82, 41]
    ensures DropMark(s, REGISTERED) == s && DropMark(s, TRADE_MARK) == r
  {
    forall p: nat | p + 3 <= |s|
      ensures !OccursAt(s, REGISTERED, p)
    {
      Differs(s, REGISTERED, p, if p < 2 then 1 else 0);
    }
    Differs(s, TRADE_MARK, 0, 1);
    assert |TRADE_MARK| == 4 && s[1..5] == TRADE_MARK;
    assert OccursAt(s, TRADE_MARK, 1);
    var p := Strstr(s, TRADE_MARK, 0);
    assert p == 1;
    assert Cut(s, p, p + |TRADE_MARK|) == r;
    ByteMissing(r, TRADE_MARK, 1);
  }

  /** Taking "(tm)" out can bring "(TM)" back. */
  lemma TradeMarkComesBack()
    ensures Sanitize(Ascii("((tm)TM)")) == TRADE_MARK
  {
    var s, r := Ascii("((tm)TM)"), TRADE_MARK;
    assert s == [40, 40, 116, 109, 41, 84, 77, 41] && r == [40, 84, 77, 41];
    TradeMarkInside(s, r);
    MarkAlone(r);
  }

  lemma TradeMarkInside(s: ByteString, r: ByteString)
    requires s == [40, 40, 116, 109, 41, 84, 77, 41] && r == [40, 84, 77, 41]
    ensures DropMarks(s) == r
  {
    ByteMissing(s, GEN, 0);
    ByteMissing(s, REGISTERED, 1);
    TradeMarkCut(s, r);
  }

  lemma TradeMarkCut(s: ByteString, r: ByteString)
    requires s == [40, 40, 116, 109, 41, 84, 77, 41] && r == [40, 84, 77, 41]
    ensures DropMark(s, TRADE_MARK) == s && DropMark(s, SMALL_TRADE_MARK) == r
  {
    forall p: nat | p + 4 <= |s|
      ensures !OccursAt(s, TRADE_MARK, p)
    {
      Differs(s, TRADE_MARK, p, if p < 2 then 1 else 0);
    }
    Differs(s, SMALL_TRADE_MARK, 0, 1);
    assert |SMALL_TRADE_MARK| == 4 && s[1..5] == SMALL_TRADE_MARK;
    assert OccursAt(s, SMALL_TRADE_MARK, 1);
    var p := Strstr(s, SMALL_TRADE_MARK, 0);
    assert p == 1;
    assert Cut(s, p, p + |SMALL_TRADE_MARK|) == r;
    ByteMissing(r, SMALL_TRADE_MARK, 1);
  }

  /** Nothing but a mark: the later passes find nothing in it. */
  lemma MarkAlone(r: ByteString)
    requires r == [40, 82, 41] || r == [40, 84, 77, 41]
    ensures DropWords(r) == r && DropSuffixes(r) == r && CutFrequency(r) == r && TrimEnd(r) == r
  {
    ByteMissing(r, CPU, 0);
    ByteMissing(r, APU, 0);
    WordKept(r, CPU, 0);
    WordKept(r, APU, 0);
    ByteMissing(r, WITH, 0);
    ByteMissing(r, CORE, 0);
    ByteMissing(r, PROCESSOR, 0);
    ByteMissing(r, AT, 0);
  }
}
