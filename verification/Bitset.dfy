/** The array-backed bitset of bitset.c, refining a set of numbers below its capacity. */
module Bitsets {
  import opened Bits

  const BITS_PER_BLOCK: nat := 32
  const WORD32: nat := 0x1_0000_0000

  type Word = w: nat | w < 0x1_0000_0000

  /** The members a block array stands for. */
  function Members(words: seq<Word>): set<nat> {
    set n | 0 <= n < |words| * 32 && Bit(words[n / 32], n % 32)
  }

  /** 1U << i. */
  function OneBit(i: nat): (w: Word)
    requires i < 32
  {
    Pow2Widths();
    Pow2Below(i, 32);
    Pow2(i)
  }

  lemma {:induction false} Pow2Below(i: nat, n: nat)
    requires i < n
    ensures Pow2(i) < Pow2(n)
  {
    if i + 1 < n {
      Pow2Below(i, n - 1);
    }
  }

  lemma {:induction false} OneBitBit(i: nat, j: nat)
    ensures Bit(Pow2(i), j) <==> i == j
  {
    if i == 0 {
      if j > 0 {
        BitZero(j - 1);
      }
    } else if j > 0 {
      OneBitBit(i - 1, j - 1);
    }
  }

  /** ~w on 32 bits. */
  function Complement(w: Word): Word {
    0xFFFF_FFFF - w
  }

  lemma {:induction false} ComplementBit(w: nat, n: nat, j: nat)
    requires w < Pow2(n) && j < n
    ensures Bit(Pow2(n) - 1 - w, j) <==> !Bit(w, j)
  {
    var c := Pow2(n) - 1 - w;
    assert c / 2 == Pow2(n - 1) - 1 - w / 2;
    if j > 0 {
      ComplementBit(w / 2, n - 1, j - 1);
    }
  }

  // ----- Population count ------------------------------------------------------------------------

  function PopCount(v: nat): nat {
    if v == 0 then 0 else v % 2 + PopCount(v / 2)
  }

  lemma ClearOdd(h: nat)
    ensures And(2 * h + 1, 2 * h) == 2 * h
    ensures PopCount(2 * h) == PopCount(2 * h + 1) - 1
  {
    AndSelf(h);
    assert (2 * h + 1) / 2 == h && (2 * h) / 2 == h;
  }

  lemma ClearEven(h: nat)
    requires h > 0
    ensures And(2 * h, 2 * h - 1) == 2 * And(h, h - 1)
    ensures PopCount(2 * h) == PopCount(h) && PopCount(2 * And(h, h - 1)) == PopCount(And(h, h - 1))
  {
    assert (2 * h) / 2 == h && (2 * h - 1) / 2 == h - 1 && (2 * h) % 2 == 0;
    assert (2 * And(h, h - 1)) / 2 == And(h, h - 1);
  }

  /** Kernighan's step: v & (v - 1) drops exactly one bit. */
  lemma {:induction false} ClearLowest(v: nat)
    requires v > 0
    ensures And(v, v - 1) < v
    ensures PopCount(And(v, v - 1)) == PopCount(v) - 1
  {
    var h := v / 2;
    if v % 2 == 1 {
      assert v == 2 * h + 1;
      ClearOdd(h);
    } else {
      assert v == 2 * h;
      ClearLowest(h);
      ClearEven(h);
    }
  }

  lemma {:induction false} AndSelf(v: nat)
    ensures And(v, v) == v
  {
    if v != 0 {
      AndSelf(v / 2);
    }
  }

  /** set_popcount32. */
  method PopCount32(value: Word) returns (count: nat)
    ensures count == PopCount(value)
  {
    var v: nat := value;
    count := 0;
    while v != 0
      invariant v <= value && count + PopCount(v) == PopCount(value)
      decreases v
    {
      ClearLowest(v);
      v := And(v, v - 1);
      count := count + 1;
    }
  }

  /** The number of set bits below position `n`. */
  function BitsBelow(v: nat, n: nat): nat {
    if n == 0 then 0 else v % 2 + BitsBelow(v / 2, n - 1)
  }

  lemma {:induction false} BitsBelowAll(v: nat, n: nat)
    requires v < Pow2(n)
    ensures BitsBelow(v, n) == PopCount(v)
  {
    if n > 0 {
      BitsBelowAll(v / 2, n - 1);
    }
  }

  lemma {:induction false} BitsBelowSnoc(v: nat, n: nat)
    ensures BitsBelow(v, n + 1) == BitsBelow(v, n) + if Bit(v, n) then 1 else 0
  {
    if n > 0 {
      BitsBelowSnoc(v / 2, n - 1);
    }
  }

  // ----- Members block by block ------------------------------------------------------------------

  /** The members below `n`. */
  function Below(words: seq<Word>, n: nat): set<nat>
    requires n <= |words| * 32
  {
    set m | 0 <= m < n && Bit(words[m / 32], m % 32)
  }

  lemma {:induction false} BlockCount(words: seq<Word>, b: nat, n: nat)
    requires b < |words| && n <= 32
    ensures |Below(words, b * 32 + n)| == |Below(words, b * 32)| + BitsBelow(words[b], n)
  {
    if n > 0 {
      var m := b * 32 + (n - 1);
      BlockCount(words, b, n - 1);
      BitsBelowSnoc(words[b], n - 1);
      assert m / 32 == b && m % 32 == n - 1;
      BelowSnoc(words, m);
    }
  }

  lemma BelowSnoc(words: seq<Word>, m: nat)
    requires m < |words| * 32
    ensures |Below(words, m + 1)| == |Below(words, m)| + if Bit(words[m / 32], m % 32) then 1 else 0
  {
    assert Below(words, m + 1) == Below(words, m) + if Bit(words[m / 32], m % 32) then {m} else {};
  }

  lemma BlockStep(words: seq<Word>, b: nat)
    requires b < |words|
    ensures |Below(words, (b + 1) * 32)| == |Below(words, b * 32)| + PopCount(words[b])
  {
    Pow2Widths();
    BlockCount(words, b, 32);
    BitsBelowAll(words[b], 32);
  }

  /** The 32-bit running total. */
  lemma TotalStep(words: seq<Word>, b: nat, total: nat)
    requires b < |words| && total == |Below(words, b * 32)| % WORD32
    ensures (total + PopCount(words[b])) % WORD32 == |Below(words, (b + 1) * 32)| % WORD32
  {
    BlockStep(words, b);
    SumMod(|Below(words, b * 32)|, PopCount(words[b]), WORD32);
  }

  lemma SumMod(a: nat, b: nat, m: nat)
    requires m > 0
    ensures (a % m + b) % m == (a + b) % m
  {
    var c := a % m + b;
    Distribute(a / m, c / m, m);
    ModUnique(a + b, m, a / m + c / m, c % m);
  }

  lemma Distribute(x: nat, y: nat, m: nat)
    ensures (x + y) * m == x * m + y * m
  {
  }

  /** The blocks after set_add. */
  function WithMember(words: seq<Word>, capacity: nat, num: nat): (r: seq<Word>)
    requires capacity <= |words| * 32
    ensures |r| == |words|
  {
    if num < capacity then words[num / 32 := OrWord(words[num / 32], OneBit(num % 32))] else words
  }

  class Bitset {
    var bits: array<Word>
    var capacity: nat

    /** The block array covers the capacity, and no bit beyond it is set. */
    ghost predicate Valid()
      reads this, bits
    {
      capacity <= bits.Length * 32 && forall n :: n in Members(bits[..]) ==> n < capacity
    }

    ghost function Contents(): set<nat>
      reads this, bits
    {
      Members(bits[..])
    }

    constructor (bits: array<Word>, capacity: nat)
      requires capacity <= bits.Length * 32 && forall i :: 0 <= i < bits.Length ==> bits[i] == 0
      ensures Valid() && Contents() == {} && this.bits == bits && this.capacity == capacity
    {
      this.bits, this.capacity := bits, capacity;
      new;
      forall n: nat | n < bits.Length * 32
        ensures !Bit(bits[..][n / 32], n % 32)
      {
        BitZero(n % 32);
      }
    }

    /** set_add: a number at or beyond the capacity is refused. */
    method Add(num: nat)
      requires Valid()
      modifies bits
      ensures Valid()
      ensures bits[..] == WithMember(old(bits[..]), capacity, num)
      ensures Contents() == if num < capacity then old(Contents()) + {num} else old(Contents())
    {
      if num < capacity {
        ghost var was := bits[..];
        bits[num / 32] := OrWord(bits[num / 32], OneBit(num % 32));
        assert bits[..] == WithMember(was, capacity, num);
        AddMember(was, num);
      }
    }

    /** set_remove. */
    method Remove(num: nat)
      requires Valid()
      modifies bits
      ensures Valid()
      ensures Contents() == if num < capacity then old(Contents()) - {num} else old(Contents())
    {
      if num < capacity {
        ghost var was := bits[..];
        bits[num / 32] := AndWord(bits[num / 32], Complement(OneBit(num % 32)));
        assert bits[..] == was[num / 32 := AndWord(was[num / 32], Complement(OneBit(num % 32)))];
        RemoveMember(was, num);
      }
    }

    /** set_contains. */
    method Has(num: nat) returns (found: bool)
      requires Valid()
      ensures found == (num in Contents())
    {
      if num < capacity {
        MaskNonZero(bits[num / 32], num % 32);
        return And(bits[num / 32], OneBit(num % 32)) != 0;
      }
      return false;
    }

    /** set_count_bits: the 32-bit number of members the looked-at blocks hold. */
    method CountBits(blocks: nat) returns (total: nat)
      requires Valid()
      ensures var looked := 32 * if blocks <= (capacity + 31) / 32 then blocks else (capacity + 31) / 32;
        total == |set n | n in Contents() && n < looked| % WORD32
      ensures blocks >= (capacity + 31) / 32 ==> total == |Contents()| % WORD32
    {
      var maxBlocks := capacity / BITS_PER_BLOCK;
      if capacity % BITS_PER_BLOCK != 0 {
        maxBlocks := maxBlocks + 1;
      }
      var looked := if blocks > maxBlocks then maxBlocks else blocks;
      total := 0;
      ghost var words := bits[..];
      assert Below(words, 0) == {};
      for i := 0 to looked
        invariant total == |Below(words, i * 32)| % WORD32
      {
        var n := PopCount32(bits[i]);
        TotalStep(words, i, total);
        total := (total + n) % WORD32;
      }
      BelowMembers(words, looked, capacity);
    }
  }

  lemma BelowMembers(words: seq<Word>, looked: nat, capacity: nat)
    requires looked <= |words| && forall n :: n in Members(words) ==> n < capacity
    ensures Below(words, looked * 32) == set n | n in Members(words) && n < 32 * looked
    ensures capacity <= looked * 32 ==> Below(words, looked * 32) == Members(words)
  {
  }

  function OrWord(a: Word, b: Word): Word {
    Pow2Widths();
    OrBound(a, b, 32);
    Or(a, b)
  }

  function AndWord(a: Word, b: Word): Word {
    AndBound(a, b);
    And(a, b)
  }

  lemma MaskNonZero(v: nat, i: nat)
    ensures And(v, Pow2(i)) != 0 <==> Bit(v, i)
  {
    OneBitBit(i, i);
    AndBit(v, Pow2(i), i);
    if Bit(v, i) {
      if And(v, Pow2(i)) == 0 {
        BitZero(i);
      }
    } else {
      forall j: nat
        ensures Bit(And(v, Pow2(i)), j) <==> Bit(0, j)
      {
        AndBit(v, Pow2(i), j);
        OneBitBit(i, j);
        BitZero(j);
      }
      BitsDetermine(And(v, Pow2(i)), 0);
    }
  }

  lemma AddMember(words: seq<Word>, num: nat)
    requires num < |words| * 32
    ensures Members(words[num / 32 := OrWord(words[num / 32], OneBit(num % 32))]) == Members(words) + {num}
  {
    var words' := words[num / 32 := OrWord(words[num / 32], OneBit(num % 32))];
    forall n: nat | n < |words| * 32
      ensures n in Members(words') <==> n in Members(words) || n == num
    {
      if n / 32 == num / 32 {
        OrBit(words[num / 32], OneBit(num % 32), n % 32);
        OneBitBit(num % 32, n % 32);
      }
    }
  }

  lemma RemoveMember(words: seq<Word>, num: nat)
    requires num < |words| * 32
    ensures Members(words[num / 32 := AndWord(words[num / 32], Complement(OneBit(num % 32)))]) == Members(words) - {num}
  {
    var words' := words[num / 32 := AndWord(words[num / 32], Complement(OneBit(num % 32)))];
    Pow2Widths();
    forall n: nat | n < |words| * 32
      ensures n in Members(words') <==> n in Members(words) && n != num
    {
      if n / 32 == num / 32 {
        AndBit(words[num / 32], Complement(OneBit(num % 32)), n % 32);
        ComplementBit(OneBit(num % 32), 32, n % 32);
        OneBitBit(num % 32, n % 32);
      }
    }
  }

  lemma {:induction false} NoBitBeyond(w: nat, n: nat, i: nat)
    requires w < Pow2(n) && n <= i
    ensures !Bit(w, i)
  {
    if n == 0 {
      BitZero(i);
    } else {
      NoBitBeyond(w / 2, n - 1, i - 1);
    }
  }

  /** Equally many words with the same members are the same words. */
  lemma MembersDetermine(a: seq<Word>, b: seq<Word>)
    requires |a| == |b| && Members(a) == Members(b)
    ensures a == b
  {
    Pow2Widths();
    forall w | 0 <= w < |a|
      ensures a[w] == b[w]
    {
      forall i: nat
        ensures Bit(a[w], i) <==> Bit(b[w], i)
      {
        if i < 32 {
          SameBit(a, b, w, i);
        } else {
          NoBitBeyond(a[w], 32, i);
          NoBitBeyond(b[w], 32, i);
        }
      }
      BitsDetermine(a[w], b[w]);
    }
  }

  lemma SameBit(a: seq<Word>, b: seq<Word>, w: nat, i: nat)
    requires |a| == |b| && Members(a) == Members(b) && w < |a| && i < 32
    ensures Bit(a[w], i) <==> Bit(b[w], i)
  {
    var n := w * 32 + i;
    assert n / 32 == w && n % 32 == i;
    assert n in Members(a) <==> n in Members(b);
  }
}
