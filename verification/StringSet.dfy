/** The open-addressing string set of hashtable.c, refining a mathematical set of strings. */
module StringSets {
  import opened Bytes
  import opened Bits
  import opened Sequences

  /** A C string: no NUL inside. */
  type Key = s: ByteString | NUL !in s

  const WORD: nat := SIZE_MAX + 1
  const FNV_OFFSET_BASIS: nat := 0xcbf29ce484222325
  const FNV_PRIME: nat := 0x100000001b3

  /** SIZE_MAX / sizeof(entry_t) where an address takes eight bytes. */
  const MAX_SLOTS: nat := SIZE_MAX / 8

  // ----- hash_key and next_pow2 ------------------------------------------------------------------

  /** 64-bit FNV-1a: xor in each byte, multiply modulo 2^64. */
  function Fnv1a(key: ByteString): (h: nat)
    ensures h < WORD
  {
    if key == [] then FNV_OFFSET_BASIS
    else Xor(Fnv1a(key[..|key| - 1]), key[|key| - 1]) * FNV_PRIME % WORD
  }

  method HashKey(key: Key) returns (hash: nat)
    ensures hash == Fnv1a(key) && hash < WORD
  {
    hash := FNV_OFFSET_BASIS;
    for i := 0 to |key|
      invariant hash == Fnv1a(key[..i])
    {
      assert key[..i + 1][..i] == key[..i];
      hash := Xor(hash, key[i]);
      hash := hash * FNV_PRIME % WORD;
    }
    assert key[..|key|] == key;
  }

  lemma {:induction false} Pow2Double(p: nat, res: nat)
    requires IsPow2(p) && IsPow2(res) && res < p
    ensures 2 * res <= p
  {
    if res > 1 {
      Pow2Double(p / 2, res / 2);
    }
  }

  lemma TopPow2()
    ensures IsPow2(SIZE_MAX / 2 + 1)
  {
    Pow2IsPow2(63);
    Pow2Widths();
  }

  lemma ShiftOne(res: nat)
    requires IsPow2(res) && res < SIZE_MAX / 2
    ensures IsPow2(res * 2) && res * 2 <= SIZE_MAX / 2 + 1 && res * 2 % WORD == res * 2 && res * 2 / 2 == res
  {
    TopPow2();
    Pow2Double(SIZE_MAX / 2 + 1, res);
  }

  lemma LeastPow2(res: nat, n: nat)
    requires IsPow2(res) && (res == 1 || res / 2 < n)
    ensures forall p :: IsPow2(p) && n <= p ==> res <= p
  {
    forall p | IsPow2(p) && n <= p
      ensures res <= p
    {
      if res > 1 {
        Pow2Double(p, res / 2);
      }
    }
  }

  /** The least power of two that is at least `n`; 0 when `n` exceeds SIZE_MAX / 2. The shift never wraps. */
  method NextPow2(n: nat) returns (res: nat)
    ensures n > SIZE_MAX / 2 <==> res == 0
    ensures res > 0 ==> IsPow2(res) && n <= res < WORD
    ensures res > 0 ==> forall p :: IsPow2(p) && n <= p ==> res <= p
  {
    if n > SIZE_MAX / 2 {
      return 0;
    }
    res := 1;
    while res < n
      invariant IsPow2(res) && res <= SIZE_MAX / 2 + 1
      invariant res == 1 || res / 2 < n
      decreases n - res
    {
      ShiftOne(res);
      res := res * 2 % WORD;
    }
    LeastPow2(res, n);
  }

  // ----- The probe sequence ------------------------------------------------------------------------

  /** The slot a key hashes to. */
  function Home(key: Key, capacity: nat): (i: nat)
    requires capacity > 0
    ensures i < capacity
  {
    Fnv1a(key) % capacity
  }

  /** The next slot of the cyclic walk. */
  function After(i: nat, capacity: nat): nat
    requires i < capacity
  {
    if i + 1 == capacity then 0 else i + 1
  }

  lemma AfterIsMasked(i: nat, capacity: nat)
    requires i < capacity && IsPow2(capacity)
    ensures And(i + 1, capacity - 1) == After(i, capacity)
  {
    MaskIsMod(i + 1, capacity);
    if i + 1 == capacity {
      ModUnique(i + 1, capacity, 1, 0);
    } else {
      ModUnique(i + 1, capacity, 0, i + 1);
    }
  }

  /** `x` lies on the cyclic walk from `from` to `to`, the latter excluded. */
  predicate Between(from: nat, x: nat, to: nat) {
    if from <= to then from <= x < to else x >= from || x < to
  }

  /** Steps of the cyclic walk from `i` to `e`. */
  function Distance(i: nat, e: nat, capacity: nat): nat
    requires i < capacity && e < capacity
  {
    if i <= e then e - i else e + capacity - i
  }

  type Slots = seq<Option<Key>>

  function Count(slots: Slots): (n: nat)
    ensures n <= |slots|
  {
    if slots == [] then 0 else Count(slots[..|slots| - 1]) + if slots[|slots| - 1].Some? then 1 else 0
  }

  function Keys(slots: Slots): set<Key> {
    set i | 0 <= i < |slots| && slots[i].Some? :: slots[i].value
  }

  ghost predicate NoDuplicates(slots: Slots) {
    forall i, j :: 0 <= i < j < |slots| && slots[i].Some? && slots[j].Some? ==> slots[i].value != slots[j].value
  }

  /** Every stored key can be reached from its home slot without crossing an empty slot. */
  ghost predicate Chained(slots: Slots) {
    forall i, x :: 0 <= i < |slots| && 0 <= x < |slots| && slots[i].Some? ==>
      Between(Home(slots[i].value, |slots|), x, i) ==> slots[x].Some?
  }

  ghost predicate Table(slots: Slots) {
    IsPow2(|slots|) && NoDuplicates(slots) && Chained(slots)
  }

  lemma {:induction false} EmptySlot(slots: Slots) returns (e: nat)
    requires Count(slots) < |slots|
    ensures e < |slots| && slots[e].None?
  {
    var n := |slots| - 1;
    if slots[n].None? {
      e := n;
    } else {
      e := EmptySlot(slots[..n]);
    }
  }

  lemma {:induction false} CountUpdate(slots: Slots, i: nat, key: Key)
    requires i < |slots| && slots[i].None?
    ensures Count(slots[i := Some(key)]) == Count(slots) + 1
  {
    var n := |slots| - 1;
    var slots' := slots[i := Some(key)];
    if i < n {
      assert slots'[..n] == slots[..n][i := Some(key)];
      CountUpdate(slots[..n], i, key);
    } else {
      assert slots'[..n] == slots[..n];
    }
  }

  lemma {:induction false} CountPrefix(slots: Slots, i: nat)
    requires i <= |slots|
    ensures Count(slots[..i]) <= Count(slots)
  {
    if i < |slots| {
      assert slots[..|slots| - 1][..i] == slots[..i];
      CountPrefix(slots[..|slots| - 1], i);
    } else {
      assert slots[..i] == slots;
    }
  }

  lemma {:induction false} NoneCounted(slots: Slots)
    requires forall i :: 0 <= i < |slots| ==> slots[i].None?
    ensures Count(slots) == 0
  {
    if slots != [] {
      NoneCounted(slots[..|slots| - 1]);
    }
  }

  lemma KeysSnoc(slots: Slots, last: Option<Key>)
    ensures Keys(slots + [last]) == Keys(slots) + if last.Some? then {last.value} else {}
  {
    var more := slots + [last];
    assert forall i :: 0 <= i < |slots| ==> more[i] == slots[i];
    assert more[|slots|] == last;
    forall k | k in Keys(slots)
      ensures k in Keys(more)
    {
      var i :| 0 <= i < |slots| && slots[i].Some? && slots[i].value == k;
      assert more[i] == slots[i];
    }
  }

  /** With distinct keys, the number of occupied slots is the number of keys. */
  lemma {:induction false} CountIsCardinality(slots: Slots)
    requires NoDuplicates(slots)
    ensures |Keys(slots)| == Count(slots)
  {
    if slots != [] {
      var init, last := slots[..|slots| - 1], slots[|slots| - 1];
      assert slots == init + [last];
      CountIsCardinality(init);
      KeysSnoc(init, last);
    }
  }

  /** Where an unbounded probe for `key` has got to: all slots from its home to `i` hold other keys. */
  ghost predicate Probed(slots: Slots, key: Key, i: nat)
    requires i < |slots|
  {
    forall x :: 0 <= x < |slots| && Between(Home(key, |slots|), x, i) ==> slots[x].Some? && slots[x] != Some(key)
  }

  /** A probe that ends in an empty slot proves the key absent. */
  lemma ProbeMisses(slots: Slots, key: Key, i: nat)
    requires Chained(slots) && i < |slots| && slots[i].None? && Probed(slots, key, i)
    ensures key !in Keys(slots)
  {
    forall x | 0 <= x < |slots| && x != i
      ensures slots[x] != Some(key)
    {
      assert Between(Home(key, |slots|), x, i) || Between(Home(key, |slots|), i, x);
    }
  }

  /** Filling the empty slot a probe ended in keeps every chain and adds one key. */
  lemma Insert(slots: Slots, key: Key, i: nat)
    requires Table(slots) && i < |slots| && slots[i].None? && key !in Keys(slots)
    requires forall x :: 0 <= x < |slots| && Between(Home(key, |slots|), x, i) ==> slots[x].Some?
    ensures Table(slots[i := Some(key)])
    ensures Keys(slots[i := Some(key)]) == Keys(slots) + {key}
    ensures Count(slots[i := Some(key)]) == Count(slots) + 1
  {
    var slots' := slots[i := Some(key)];
    CountUpdate(slots, i, key);
    assert forall x :: 0 <= x < |slots| ==> slots'[x] == if x == i then Some(key) else slots[x];
    assert slots'[i].Some?;
    forall k
      ensures k in Keys(slots') <==> k in Keys(slots) + {key}
    {
      if k in Keys(slots) {
        var j :| 0 <= j < |slots| && slots[j].Some? && slots[j].value == k;
        assert slots'[j] == slots[j];
      }
    }
  }

  // ----- The set itself ----------------------------------------------------------------------------

  /** One step of a probe: it never steps over an empty slot, so it gets closer to any of them. */
  lemma ProbeStep(slots: Slots, home: nat, i: nat, e: nat)
    requires home < |slots| && i < |slots| && e < |slots| && slots[e].None? && slots[i].Some?
    requires forall x :: 0 <= x < |slots| && Between(home, x, i) ==> slots[x].Some?
    ensures var next := After(i, |slots|);
      && (forall x :: 0 <= x < |slots| && Between(home, x, next) ==> Between(home, x, i) || x == i)
      && Distance(next, e, |slots|) < Distance(i, e, |slots|)
  {
  }

  /** strset_find_index on an array of slots: the walk has no counter, it ends at the key or an empty slot. */
  method FindIndex(entries: array<Option<Key>>, key: Key) returns (index: nat, ghost steps: nat)
    requires IsPow2(entries.Length) && Count(entries[..]) < entries.Length
    ensures steps < entries.Length
    ensures index < entries.Length && Probed(entries[..], key, index)
    ensures entries[index].None? || entries[index] == Some(key)
  {
    ghost var slots := entries[..];
    ghost var e := EmptySlot(slots);
    var hash := HashKey(key);
    MaskIsMod(hash, entries.Length);
    index, steps := And(hash, entries.Length - 1), 0;
    while entries[index].Some?
      invariant index < entries.Length && Probed(slots, key, index)
      invariant steps + Distance(index, e, entries.Length) < entries.Length
      decreases Distance(index, e, entries.Length)
    {
      if entries[index].value == key {
        return;
      }
      ProbeStep(slots, Home(key, |slots|), index, e);
      AfterIsMasked(index, entries.Length);
      index, steps := And(index + 1, entries.Length - 1), steps + 1;
    }
  }

  /** The inner loop of strset_resize: the first empty slot at or after the key's home. */
  method FindFree(entries: array<Option<Key>>, key: Key) returns (index: nat, ghost steps: nat)
    requires IsPow2(entries.Length) && Count(entries[..]) < entries.Length
    ensures steps < entries.Length
    ensures index < entries.Length && entries[index].None?
    ensures forall x :: 0 <= x < entries.Length && Between(Home(key, entries.Length), x, index) ==> entries[x].Some?
  {
    ghost var slots := entries[..];
    ghost var e := EmptySlot(slots);
    var hash := HashKey(key);
    MaskIsMod(hash, entries.Length);
    index, steps := And(hash, entries.Length - 1), 0;
    while entries[index].Some?
      invariant index < entries.Length && steps + Distance(index, e, entries.Length) < entries.Length
      invariant forall x :: 0 <= x < |slots| && Between(Home(key, |slots|), x, index) ==> slots[x].Some?
      decreases Distance(index, e, entries.Length)
    {
      ProbeStep(slots, Home(key, |slots|), index, e);
      AfterIsMasked(index, entries.Length);
      index, steps := And(index + 1, entries.Length - 1), steps + 1;
    }
  }

  /** The rehash loop of strset_resize: every key of `entries` lands in exactly one slot of `fresh`. */
  method Rehash(entries: array<Option<Key>>, slots: array<Option<Key>>)
    requires entries != slots && NoDuplicates(entries[..]) && Count(entries[..]) < slots.Length
    requires IsPow2(slots.Length) && forall i :: 0 <= i < slots.Length ==> slots[i].None?
    modifies slots
    ensures Table(slots[..]) && Keys(slots[..]) == Keys(entries[..]) && Count(slots[..]) == Count(entries[..])
  {
    NoneCounted(slots[..]);
    for i := 0 to entries.Length
      invariant Table(slots[..])
      invariant Keys(slots[..]) == Keys(entries[..i]) && Count(slots[..]) == Count(entries[..i])
    {
      PrefixStep(entries[..], i);
      if entries[i].Some? {
        var key := entries[i].value;
        CountPrefix(entries[..], i);
        var index, _ := FindFree(slots, key);
        ghost var was := slots[..];
        Insert(was, key, index);
        slots[index] := Some(key);
        assert slots[..] == was[index := Some(key)];
      }
    }
    assert entries[..entries.Length] == entries[..];
  }

  lemma PrefixStep(slots: Slots, i: nat)
    requires i < |slots| && NoDuplicates(slots)
    ensures Keys(slots[..i + 1]) == Keys(slots[..i]) + if slots[i].Some? then {slots[i].value} else {}
    ensures Count(slots[..i + 1]) == Count(slots[..i]) + if slots[i].Some? then 1 else 0
    ensures slots[i].Some? ==> slots[i].value !in Keys(slots[..i])
  {
    assert slots[..i + 1] == slots[..i] + [slots[i]];
    assert slots[..i + 1][..i] == slots[..i];
    KeysSnoc(slots[..i], slots[i]);
  }

  /** The largest power of two whose table size in bytes fits a size_t. */
  const LARGEST_TABLE: nat := 0x1000_0000_0000_0000

  lemma LargestTable()
    ensures IsPow2(LARGEST_TABLE)
  {
    Pow2IsPow2(60);
    Pow2Widths();
    assert Pow2(63) == 2 * Pow2(62) && Pow2(62) == 2 * Pow2(61) && Pow2(61) == 2 * Pow2(60);
  }

  /** The number of keys the set can hold: three quarters of the largest table. */
  const FULL: nat := LARGEST_TABLE / 4 * 3

  /** A table that is due to grow and cannot has the largest capacity. */
  lemma GrowthRefused(count: nat, capacity: nat)
    requires IsPow2(capacity) && capacity <= MAX_SLOTS && count * 4 <= capacity * 3
    ensures (count + 1) * 4 > capacity * 3 && capacity * 2 > MAX_SLOTS <==> count >= FULL
  {
    LargestTable();
    if capacity < LARGEST_TABLE {
      Pow2Double(LARGEST_TABLE, capacity);
    } else if capacity > LARGEST_TABLE {
      Pow2Double(capacity, LARGEST_TABLE);
    }
  }

  /** The size computations of strset_add do not wrap around. */
  lemma NoWrap(count: nat, capacity: nat)
    requires count * 4 <= capacity * 3 && capacity <= MAX_SLOTS
    ensures (count + 1) * 4 % WORD == (count + 1) * 4
    ensures capacity * 3 % WORD == capacity * 3 && capacity * 2 % WORD == capacity * 2
  {
  }

  /** What strset_add decides before it grows. */
  lemma Growth(count: nat, capacity: nat)
    requires IsPow2(capacity) && capacity <= MAX_SLOTS && count * 4 <= capacity * 3
    ensures (count + 1) * 4 % WORD > capacity * 3 % WORD <==> (count + 1) * 4 > capacity * 3
    ensures capacity <= SIZE_MAX / 2 && capacity * 2 % WORD == capacity * 2 && IsPow2(capacity * 2)
    ensures (count + 1) * 4 > capacity * 3 ==> (count < FULL <==> capacity * 2 <= MAX_SLOTS)
    ensures (count + 1) * 4 <= capacity * 3 ==> count < FULL
    ensures (count + 1) * 4 <= capacity * 2 * 3
  {
    NoWrap(count, capacity);
    GrowthRefused(count, capacity);
  }

  class StringSet {
    var entries: array<Option<Key>>
    var capacity: nat
    var count: nat

    ghost predicate Valid()
      reads this, entries
    {
      && entries.Length == capacity <= MAX_SLOTS
      && Table(entries[..])
      && count == Count(entries[..])
      && count * 4 <= capacity * 3
    }

    ghost function Contents(): set<Key>
      reads this, entries
    {
      Keys(entries[..])
    }

    constructor (capacity: nat)
      requires IsPow2(capacity) && capacity <= MAX_SLOTS
      ensures Valid() && fresh(entries) && Contents() == {} && count == 0 && this.capacity == capacity
    {
      this.capacity, this.count := capacity, 0;
      this.entries := new Option<Key>[capacity](_ => None);
      new;
      NoneCounted(entries[..]);
    }

    /** strset_create; calloc itself refuses an array whose size in bytes overflows. */
    static method Create(capacity: nat) returns (s: StringSet?)
      ensures s != null ==> fresh(s) && fresh(s.entries) && s.Valid() && s.Contents() == {} && s.count == 0
      ensures s != null ==> IsPow2(s.capacity) && capacity <= s.capacity
      ensures s != null <==> capacity <= LARGEST_TABLE
    {
      var c := NextPow2(capacity);
      LargestTable();
      if c > LARGEST_TABLE {
        Pow2Double(c, LARGEST_TABLE);
      }
      if c == 0 || c > MAX_SLOTS {
        return null;
      }
      s := new StringSet(c);
    }

    /** strset_resize. */
    method Resize(newCapacity: nat) returns (ok: bool)
      requires Valid() && IsPow2(newCapacity) && count * 4 <= newCapacity * 3
      modifies this
      ensures Valid() && Contents() == old(Contents()) && count == old(count)
      ensures ok == (newCapacity <= MAX_SLOTS)
      ensures if ok then capacity == newCapacity && fresh(entries) else capacity == old(capacity) && entries == old(entries)
    {
      if newCapacity > MAX_SLOTS {
        return false;
      }
      var newEntries := new Option<Key>[newCapacity](_ => None);
      Rehash(entries, newEntries);
      entries := newEntries;
      capacity := newCapacity;
      return true;
    }

    /**
     * The growth inside strset_add; false exactly when the set is full. The arithmetic is that of
     * size_t; in every reachable state it does not wrap.
     */
    method Grow() returns (ok: bool)
      requires Valid()
      modifies this
      ensures Valid() && (entries == old(entries) || fresh(entries)) && capacity >= old(capacity)
      ensures Contents() == old(Contents()) && count == old(count)
      ensures ok == (count < FULL) && (ok ==> (count + 1) * 4 <= capacity * 3)
    {
      Growth(count, capacity);
      if (count + 1) * 4 % WORD > capacity * 3 % WORD {
        if capacity > SIZE_MAX / 2 {
          return false;
        }
        ok := Resize(capacity * 2 % WORD);
      } else {
        ok := true;
      }
    }

    /** strset_add: true exactly when the key was new and the set not full. */
    method Add(key: Key) returns (added: bool)
      requires Valid()
      modifies this, entries
      ensures Valid() && (entries == old(entries) || fresh(entries))
      ensures added == (key !in old(Contents()) && |old(Contents())| < FULL)
      ensures Contents() == if added then old(Contents()) + {key} else old(Contents())
      ensures capacity >= old(capacity) && count == old(count) + if added then 1 else 0
    {
      CountIsCardinality(entries[..]);
      var ok := Grow();
      if !ok {
        return false;
      }
      added := Place(key);
    }

    /** The part of strset_add that follows the growth. */
    method Place(key: Key) returns (added: bool)
      requires Valid() && (count + 1) * 4 <= capacity * 3
      modifies `count, entries
      ensures Valid() && added == (key !in old(Contents()))
      ensures Contents() == old(Contents()) + {key} && count == old(count) + if added then 1 else 0
    {
      ghost var was := entries[..];
      var index, _ := FindIndex(entries, key);
      if entries[index].Some? {
        assert key in Keys(was);
        return false;
      }
      ProbeMisses(was, key, index);
      Insert(was, key, index);
      entries[index] := Some(key);
      assert entries[..] == was[index := Some(key)];
      count := count + 1;
      return true;
    }

    /** strset_contains is exact membership. */
    method Contains(key: Key) returns (found: bool)
      requires Valid()
      ensures found == (key in Contents())
    {
      var index, _ := FindIndex(entries, key);
      if entries[index].None? {
        ProbeMisses(entries[..], key, index);
      }
      found := entries[index].Some?;
    }

    /** strset_get_count is the cardinality. */
    method GetCount() returns (n: nat)
      requires Valid()
      ensures n == |Contents()|
    {
      CountIsCardinality(entries[..]);
      n := count;
    }
  }

  // ----- Whole runs ------------------------------------------------------------------------------

  datatype Op = AddKey(key: Key) | HasKey(key: Key)

  /** What a mathematical set that takes up to FULL keys answers. */
  function Answer(keys: set<Key>, op: Op): bool {
    if op.AddKey? then op.key !in keys && |keys| < FULL else op.key in keys
  }

  function Effect(keys: set<Key>, op: Op): set<Key> {
    if op.AddKey? && |keys| < FULL then keys + {op.key} else keys
  }

  function SetAnswers(keys: set<Key>, ops: seq<Op>): seq<bool>
    decreases |ops|
  {
    if ops == [] then [] else [Answer(keys, ops[0])] + SetAnswers(Effect(keys, ops[0]), ops[1..])
  }

  method Apply(s: StringSet, op: Op) returns (answer: bool)
    requires s.Valid()
    modifies s, s.entries
    ensures s.Valid() && (s.entries == old(s.entries) || fresh(s.entries))
    ensures answer == Answer(old(s.Contents()), op) && s.Contents() == Effect(old(s.Contents()), op)
  {
    match op
    case AddKey(key) => answer := s.Add(key);
    case HasKey(key) => answer := s.Contains(key);
  }

  /** Any sequence of calls is answered as by a set. */
  method Replay(s: StringSet, ops: seq<Op>) returns (answers: seq<bool>)
    requires s.Valid()
    modifies s, s.entries
    ensures s.Valid() && answers == SetAnswers(old(s.Contents()), ops)
  {
    answers := [];
    ghost var start := s.Contents();
    ghost var keys := start;
    for i := 0 to |ops|
      invariant s.Valid() && (s.entries == old(s.entries) || fresh(s.entries))
      invariant keys == s.Contents()
      invariant SetAnswers(start, ops) == answers + SetAnswers(keys, ops[i..])
    {
      var answer := Apply(s, ops[i]);
      assert ops[i..][1..] == ops[i + 1..];
      Regroup(answers, [answer], SetAnswers(s.Contents(), ops[i + 1..]));
      keys := s.Contents();
      answers := answers + [answer];
    }
  }
}
