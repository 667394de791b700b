/** The CPU name sanitiser as it edits its NUL-terminated buffer in place. */
module CpuNameBuffer {
  import opened Bytes
  import opened CpuName

  /** The buffer holds a terminated string. */
  ghost predicate Terminated(buf: array<Byte>)
    reads buf
  {
    NUL in buf[..]
  }

  lemma StringBounds(bytes: ByteString)
    requires NUL in bytes
    ensures |CString(bytes)| < |bytes| && bytes[|CString(bytes)|] == NUL
    ensures NUL !in CString(bytes)
    ensures forall i :: 0 <= i < |CString(bytes)| ==> bytes[i] == CString(bytes)[i]
  {
    IndexOfBefore(bytes, NUL);
    assert bytes[..|bytes|] == bytes;
  }

  /** memmove(buf + a, buf + b, strlen(buf + b) + 1) on the string s: the bytes from a up to b go. */
  method MoveDown(buf: array<Byte>, a: nat, b: nat)
    requires Terminated(buf) && a <= b <= |CString(buf[..])|
    modifies buf
    ensures Terminated(buf) && CString(buf[..]) == Cut(old(CString(buf[..])), a, b)
  {
    ghost var was := buf[..];
    StringBounds(was);
    var n := IndexOf(buf[..], NUL);
    var d := b - a;
    for i := a to n + 1 - d
      invariant forall j :: 0 <= j < a ==> buf[j] == was[j]
      invariant forall j :: a <= j < i ==> buf[j] == was[j + d]
      invariant forall j :: i <= j < buf.Length ==> buf[j] == was[j]
    {
      buf[i] := buf[i + d];
    }
    Shifted(was, buf[..], a, b);
  }

  lemma Shifted(was: ByteString, now: ByteString, a: nat, b: nat)
    requires NUL in was && a <= b <= |CString(was)| < |was| && |now| == |was|
    requires forall j :: 0 <= j < a ==> now[j] == was[j]
    requires forall j :: a <= j < |CString(was)| + 1 - (b - a) ==> now[j] == was[j + (b - a)]
    ensures NUL in now && CString(now) == Cut(CString(was), a, b)
  {
    StringBounds(was);
    var s, k := CString(was), |CString(was)| - (b - a);
    assert now[..k] == Cut(s, a, b);
    assert now[k] == was[k + (b - a)] == NUL;
    forall c | c in Cut(s, a, b)
      ensures c in s
    {
      if c in s[..a] {
      } else {
        assert c in s[b..];
      }
    }
    IndexOfIs(now, NUL, k);
  }

  /** buf[k] = '\\0' inside the string. */
  method CutAt(buf: array<Byte>, k: nat)
    requires Terminated(buf) && k <= |CString(buf[..])|
    modifies buf
    ensures Terminated(buf) && CString(buf[..]) == old(CString(buf[..]))[..k]
  {
    ghost var was := buf[..];
    StringBounds(was);
    buf[k] := NUL;
    assert buf[..] == CString(was)[..k] + [NUL] + was[k + 1..];
    CStringOf(buf[..], CString(was)[..k], was[k + 1..]);
  }

  /** The two boundary tests of hw_remove_cpu_word. */
  method IsStandalone(buf: array<Byte>, word: ByteString, pos: nat) returns (alone: bool)
    requires Terminated(buf) && OccursAt(CString(buf[..]), word, pos)
    ensures alone == Standalone(CString(buf[..]), word, pos)
  {
    StringBounds(buf[..]);
    var leftBoundary := pos == 0 || buf[pos - 1] == SPACE;
    var rightBoundary := buf[pos + |word|] == NUL || buf[pos + |word|] == SPACE;
    ghost var s := CString(buf[..]);
    assert pos + |word| < |s| ==> s[pos + |word|] in s;
    alone := leftBoundary && rightBoundary;
  }

  /** The occurrence at `pos` is taken out, with the blanks on its free side. */
  method TakeOut(buf: array<Byte>, word: ByteString, pos: nat) returns (start: nat)
    requires Terminated(buf) && OccursAt(CString(buf[..]), word, pos)
    modifies buf
    ensures start == RangeStart(old(CString(buf[..])), word, pos)
    ensures Terminated(buf) && CString(buf[..]) == WithoutWord(old(CString(buf[..])), word, pos)
  {
    var end;
    start, end := FindRange(buf, pos, word);
    MoveDown(buf, start, end);
  }

  /** One round of hw_remove_cpu_word: the occurrence at `pos` is skipped or taken out. */
  method RemoveRound(buf: array<Byte>, word: ByteString, pos: nat, ghost s: ByteString)
    returns (next: nat, ghost s': ByteString)
    requires Terminated(buf) && s == CString(buf[..]) && OccursAt(s, word, pos)
    modifies buf
    ensures Terminated(buf) && s' == CString(buf[..])
    ensures if Standalone(s, word, pos) then s' == WithoutWord(s, word, pos) && next == RangeStart(s, word, pos)
            else s' == s && next == pos + |word|
  {
    var alone := IsStandalone(buf, word, pos);
    if alone {
      s' := WithoutWord(s, word, pos);
      next := TakeOut(buf, word, pos);
    } else {
      s' := s;
      next := pos + |word|;
    }
  }

  /** hw_remove_cpu_word. */
  method RemoveCpuWord(buf: array<Byte>, word: ByteString)
    requires Terminated(buf) && word != []
    modifies buf
    ensures Terminated(buf) && CString(buf[..]) == RemoveWord(old(CString(buf[..])), word, 0)
  {
    ghost var s := CString(buf[..]);
    ghost var goal := RemoveWord(s, word, 0);
    var from: nat := 0;
    var pos := Strstr(CString(buf[..]), word, 0);
    while pos < IndexOf(buf[..], NUL)
      invariant Terminated(buf) && s == CString(buf[..]) && from <= |s| && pos == Strstr(s, word, from)
      invariant RemoveWord(s, word, from) == goal
      decreases |s| - from
    {
      ghost var was, start := s, from;
      from, s := RemoveRound(buf, word, pos, s);
      RoundRest(was, start, pos, s, from, word);
      pos := Strstr(CString(buf[..]), word, from);
    }
    RemoveWordNone(s, word, from);
  }

  /** The two blank-skipping loops of hw_remove_cpu_word. */
  method FindRange(buf: array<Byte>, pos: nat, word: ByteString) returns (start: nat, end: nat)
    requires Terminated(buf) && pos + |word| <= |CString(buf[..])|
    ensures start == RangeStart(CString(buf[..]), word, pos) && end == RangeEnd(CString(buf[..]), word, pos)
  {
    ghost var s := CString(buf[..]);
    StringBounds(buf[..]);
    start, end := pos, pos + |word|;
    if buf[end] == NUL {
      while start > 0 && buf[start - 1] == SPACE
        invariant start <= pos && BlanksBefore(s, start) == BlanksBefore(s, pos)
      {
        start := start - 1;
      }
    } else {
      while buf[end] == SPACE
        invariant end <= |s| && BlanksAfter(s, end) == BlanksAfter(s, pos + |word|)
        decreases |s| - end
      {
        end := end + 1;
      }
    }
  }

  /** hw_truncate_cpu_suffix. */
  method TruncateCpuSuffix(buf: array<Byte>, suffix: ByteString)
    requires Terminated(buf) && suffix != []
    modifies buf
    ensures Terminated(buf) && CString(buf[..]) == TruncateSuffix(old(CString(buf[..])), suffix)
  {
    var s := CString(buf[..]);
    StringBounds(buf[..]);
    var garbage := Strstr(s, suffix, 0);
    if garbage == |s| || garbage == 0 {
      return;
    }
    ghost var p := garbage;
    while garbage > 0 && buf[garbage - 1] != SPACE
      invariant garbage <= p && WordStart(s, garbage) == WordStart(s, p)
    {
      garbage := garbage - 1;
    }
    if garbage > 0 {
      garbage := garbage - 1;
    }
    CutAt(buf, garbage);
  }

  /** The "Gen" prefix: everything up to the first blank behind it goes. */
  method RemoveGeneration(buf: array<Byte>)
    requires Terminated(buf)
    modifies buf
    ensures Terminated(buf) && CString(buf[..]) == DropGeneration(old(CString(buf[..])))
  {
    var s := CString(buf[..]);
    var garbage := Strstr(s, GEN, 0);
    if garbage < |s| {
      var space := garbage + IndexOf(s[garbage..], SPACE);
      if space < |s| {
        MoveDown(buf, 0, space + 1);
        assert Cut(s, 0, space + 1) == s[space + 1..];
      }
    }
  }

  /** The rounds of the prefix loop for one mark. */
  method RemoveMark(buf: array<Byte>, mark: ByteString)
    requires Terminated(buf) && mark != []
    modifies buf
    ensures Terminated(buf) && CString(buf[..]) == DropMark(old(CString(buf[..])), mark)
  {
    ghost var s := CString(buf[..]);
    ghost var goal := DropMark(s, mark);
    var garbage := Strstr(CString(buf[..]), mark, 0);
    while garbage < IndexOf(buf[..], NUL)
      invariant Terminated(buf) && s == CString(buf[..]) && garbage == Strstr(s, mark, 0)
      invariant DropMark(s, mark) == goal
      decreases |s|
    {
      DropMarkStep(s, mark, garbage);
      MoveDown(buf, garbage, garbage + |mark|);
      s := Cut(s, garbage, garbage + |mark|);
      garbage := Strstr(CString(buf[..]), mark, 0);
    }
    DropMarkNone(s, mark);
  }

  lemma TrimEndStep(s: ByteString, n: nat)
    requires n < |s| && |s| == n + 1 && s[n] == SPACE
    ensures TrimEnd(s) == TrimEnd(s[..n])
  {
    BlanksBeforePrefix(s, n, n);
  }

  lemma {:induction false} BlanksBeforePrefix(s: ByteString, n: nat, p: nat)
    requires p <= n <= |s|
    ensures BlanksBefore(s[..n], p) == BlanksBefore(s, p)
  {
    if p > 0 {
      BlanksBeforePrefix(s, n, p - 1);
    }
  }

  /** The last loop: blanks at the end of the string become terminators. */
  method TrimBlanks(buf: array<Byte>)
    requires Terminated(buf)
    modifies buf
    ensures Terminated(buf) && CString(buf[..]) == TrimEnd(old(CString(buf[..])))
  {
    ghost var goal := TrimEnd(CString(buf[..]));
    StringBounds(buf[..]);
    var len := IndexOf(buf[..], NUL);
    assert CString(buf[..])[..len] == CString(buf[..]);
    while len > 0 && buf[len - 1] == SPACE
      invariant Terminated(buf) && len == |CString(buf[..])| && TrimEnd(CString(buf[..])) == goal
    {
      StringBounds(buf[..]);
      ghost var s := CString(buf[..]);
      len := len - 1;
      TrimEndStep(s, len);
      CutAt(buf, len);
    }
    StringBounds(buf[..]);
    assert CString(buf[..])[..len] == CString(buf[..]);
  }

  /** The frequency cut. */
  method CutOffFrequency(buf: array<Byte>)
    requires Terminated(buf)
    modifies buf
    ensures Terminated(buf) && CString(buf[..]) == CutFrequency(old(CString(buf[..])))
  {
    ghost var s := CString(buf[..]);
    var frequency := Strstr(CString(buf[..]), AT, 0);
    if frequency < IndexOf(buf[..], NUL) {
      CutAt(buf, frequency);
    } else {
      assert s[..frequency] == s;
    }
  }

  method RemoveMarks(buf: array<Byte>)
    requires Terminated(buf)
    modifies buf
    ensures Terminated(buf) && CString(buf[..]) == DropMarks(old(CString(buf[..])))
  {
    RemoveGeneration(buf);
    RemoveMark(buf, REGISTERED);
    RemoveMark(buf, TRADE_MARK);
    RemoveMark(buf, SMALL_TRADE_MARK);
  }

  method RemoveWords(buf: array<Byte>)
    requires Terminated(buf)
    modifies buf
    ensures Terminated(buf) && CString(buf[..]) == DropWords(old(CString(buf[..])))
  {
    RemoveCpuWord(buf, CPU);
    RemoveCpuWord(buf, APU);
  }

  method TruncateSuffixes(buf: array<Byte>)
    requires Terminated(buf)
    modifies buf
    ensures Terminated(buf) && CString(buf[..]) == DropSuffixes(old(CString(buf[..])))
  {
    TruncateCpuSuffix(buf, WITH);
    TruncateCpuSuffix(buf, CORE);
    TruncateCpuSuffix(buf, PROCESSOR);
  }

  /** hw_sanitize_cpu_name. */
  method SanitizeCpuName(buf: array<Byte>)
    requires Terminated(buf)
    modifies buf
    ensures Terminated(buf) && CString(buf[..]) == Sanitize(old(CString(buf[..])))
  {
    StringBounds(buf[..]);
    if buf[0] == NUL {
      return;
    }
    RemoveMarks(buf);
    RemoveWords(buf);
    TruncateSuffixes(buf);
    CutOffFrequency(buf);
    TrimBlanks(buf);
  }
}
