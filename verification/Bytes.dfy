/** Bytes, C strings and the few character constants the rest of the project shares. */
module Bytes {

  type Byte = b: int | 0 <= b < 256
  type ByteString = seq<Byte>

  datatype Option<+T> = None | Some(value: T)

  const SIZE_MAX: nat := 0xFFFF_FFFF_FFFF_FFFF

  const NUL: Byte := 0
  const TAB: Byte := 9
  const LF: Byte := 10
  const CR: Byte := 13
  const SPACE: Byte := 32
  const HASH: Byte := 35

  /** The bytes of an ASCII text. */
  function Ascii(text: string): (s: ByteString)
    requires forall i :: 0 <= i < |text| ==> text[i] < '\U{80}'
    ensures |s| == |text| && forall i :: 0 <= i < |s| ==> s[i] == text[i] as int
  {
    seq(|text|, i requires 0 <= i < |text| => text[i] as int)
  }

  /** isspace() in the C locale. */
  predicate IsSpace(b: Byte) {
    b == SPACE || TAB <= b <= CR
  }

  /** strncmp(s, prefix, strlen(prefix)) == 0. */
  predicate StartsWith(s: ByteString, prefix: ByteString) {
    |prefix| <= |s| && s[..|prefix|] == prefix
  }

  /** The position of the first `c` in `s`, or |s| when there is none (memchr, strchr). */
  function IndexOf(s: ByteString, c: Byte): (n: nat)
    ensures n <= |s| && (n < |s| ==> s[n] == c)
  {
    if s == [] || s[0] == c then 0 else 1 + IndexOf(s[1..], c)
  }

  lemma {:induction false} IndexOfIs(s: ByteString, c: Byte, n: nat)
    requires n <= |s| && (n < |s| ==> s[n] == c)
    requires c !in s[..n]
    ensures IndexOf(s, c) == n
  {
    if n > 0 {
      assert s[0] == s[..n][0];
      assert s[..n][1..] == s[1..][..n - 1];
      IndexOfIs(s[1..], c, n - 1);
    }
  }

  lemma {:induction false} IndexOfBefore(s: ByteString, c: Byte)
    ensures c !in s[..IndexOf(s, c)]
  {
    if s != [] && s[0] != c {
      IndexOfBefore(s[1..], c);
      var n := IndexOf(s, c);
      assert s[..n] == [s[0]] + s[1..][..n - 1];
    }
  }

  /** The string a NUL-terminated buffer holds. */
  function CString(buffer: ByteString): (s: ByteString)
    ensures |s| <= |buffer|
  {
    buffer[..IndexOf(buffer, NUL)]
  }

  lemma CStringOf(buffer: ByteString, s: ByteString, rest: ByteString)
    requires buffer == s + [NUL] + rest && NUL !in s
    ensures CString(buffer) == s && NUL in buffer
  {
    assert buffer[..|s|] == s && buffer[|s|] == NUL;
    IndexOfIs(buffer, NUL, |s|);
  }

  /** At most the first `n` bytes: what snprintf keeps of a text. */
  function Take(s: ByteString, n: nat): (r: ByteString)
    ensures r <= s && |r| == if |s| <= n then |s| else n
  {
    if |s| <= n then s else s[..n]
  }

  /** Truncating after each append equals truncating once. */
  lemma TakeAppend(a: ByteString, b: ByteString, n: nat)
    ensures Take(Take(a, n) + b, n) == Take(a + b, n)
    ensures |Take(a, n)| <= n ==> Take(a, n) + Take(b, n - |Take(a, n)|) == Take(a + b, n)
  {
  }
}
