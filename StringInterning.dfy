/**
  `SimpleStringInterner` (J2N/Text/StringExtensions.cs): the string pool
  behind `Intern` when the runtime has none. It is a hash table of
  `Entry` chains with a power-of-two number of buckets; a new string goes
  to the head of its chain, and a chain that has reached `maxChainLength`
  loses its oldest (last) entry.

  `string.GetHashCode` is the parameter `hashOf`. The bucket of hash `h`
  is `h & (cache.Length - 1)` in the source; it is written `h %
  cache.Length` here, which is the same number for a two's-complement `h`
  and a power-of-two length.
*/
module StringInterning {
  import opened TextTypes
  import Ordinal

  // ---------------------------------------------------------------------
  // NextHighestPowerOfTwo, on the 32-bit pattern of a C# `int`

  /** A single bit set. */
  predicate IsPowerOfTwoBits(v: bv32) {
    v != 0 && v & (v - 1) == 0
  }

  /** C# `>>` on an `int`: an arithmetic shift, copying the sign bit. */
  function Asr(b: bv32, k: bv32): bv32
    requires k < 32
  {
    if b & 0x8000_0000 == 0 then b >> k else !((!b) >> k)
  }

  /** One step `v |= v >> k`. */
  function OrShifted(v: bv32, k: bv32): bv32
    requires k < 32
  {
    v | Asr(v, k)
  }

  /** The five steps, which copy the highest set bit into every lower
      position. */
  function Smear(x: bv32): bv32 {
    OrShifted(OrShifted(OrShifted(OrShifted(OrShifted(x, 1), 2), 4), 8), 16)
  }

  lemma SmearPositive(x: bv32)
    requires x < 0x4000_0000
    ensures var r := Smear(x) + 1; IsPowerOfTwoBits(r) && r > x && (r >> 1) <= x && r <= 0x4000_0000
  {
  }

  lemma SmearHigh(x: bv32)
    requires 0x4000_0000 <= x < 0x8000_0000
    ensures Smear(x) == 0x7FFF_FFFF
  {
  }

  lemma SmearNegative(x: bv32)
    requires x >= 0x8000_0000
    ensures Smear(x) == 0xFFFF_FFFF
  {
  }

  /** `v` is what `NextHighestPowerOfTwo` promises for `value`: 0 stays 0;
      from 1 to 2^30, the least power of two not below `value`; above 2^30
      the sum overflows to `int.MinValue`; any other negative value gives
      0. */
  predicate IsNextPowerOfTwo(value: bv32, v: bv32) {
    && (value == 0 ==> v == 0)
    && (0 < value <= 0x4000_0000 ==> IsPowerOfTwoBits(v) && value <= v <= 0x4000_0000 && (v >> 1) < value)
    && (0x4000_0000 < value <= 0x8000_0000 ==> v == 0x8000_0000)
    && (0x8000_0000 < value ==> v == 0)
  }

  /** What the decrement, the smear and the increment compute, for every
      32-bit input. */
  lemma NextHighestPowerOfTwoBits(value: bv32)
    ensures IsNextPowerOfTwo(value, Smear(value - 1) + 1)
  {
    var x := value - 1;
    if x < 0x4000_0000 {
      SmearPositive(x);
    } else if x < 0x8000_0000 {
      SmearHigh(x);
    } else {
      SmearNegative(x);
    }
  }

  /** A power of two is its own next highest power of two. */
  lemma NextPowerOfTwoOfPowerOfTwo(value: bv32, v: bv32)
    requires IsNextPowerOfTwo(value, v)
    requires IsPowerOfTwoBits(value) && value <= 0x4000_0000
    ensures v == value
  {
  }

  /** The decrement, the smear and the increment as one function. */
  function NextPowerOfTwoBits(value: bv32): (v: bv32)
    ensures IsNextPowerOfTwo(value, v)
  {
    NextHighestPowerOfTwoBits(value);
    Smear(value - 1) + 1
  }

  /** `NextHighestPowerOfTwo(int)`, on the bit pattern of its argument. */
  method NextHighestPowerOfTwo(value: bv32) returns (v: bv32)
    ensures v == NextPowerOfTwoBits(value)
    ensures IsNextPowerOfTwo(value, v)
    ensures IsPowerOfTwoBits(value) && value <= 0x4000_0000 ==> v == value
  {
    v := value;
    v := v - 1;
    v := OrShifted(v, 1);
    v := OrShifted(v, 2);
    v := OrShifted(v, 4);
    v := OrShifted(v, 8);
    v := OrShifted(v, 16);
    v := v + 1;
    NextHighestPowerOfTwoBits(value);
    if IsPowerOfTwoBits(value) && value <= 0x4000_0000 {
      NextPowerOfTwoOfPowerOfTwo(value, v);
    }
  }

  /** `Math.Max(1, size)` for the signed value of `size`. */
  function BucketCount(size: bv32): (n: int)
    ensures n >= 1
    ensures 0 < size < 0x8000_0000 ==> n == size as int
    ensures !(0 < size < 0x8000_0000) ==> n == 1
  {
    if size == 0 || size >= 0x8000_0000 then 1 else size as int
  }

  /** `Math.Max(1, NextHighestPowerOfTwo(tableSize))`, the size of the
      constructor's bucket array. */
  method BucketCountFor(tableSize: bv32) returns (length: int)
    ensures length == TableLength(tableSize) && length >= 1
  {
    var size := NextHighestPowerOfTwo(tableSize);
    length := BucketCount(size);
  }

  /** The number of buckets the constructor allocates for `tableSize`. */
  function TableLength(tableSize: bv32): int {
    BucketCount(NextPowerOfTwoBits(tableSize))
  }

  /** The bucket count is the least power of two not below a table size
      from 1 to 2^30, and 1 for any other table size. */
  lemma TableLengthIs(tableSize: bv32)
    ensures 0 < tableSize <= 0x4000_0000 ==>
      var n := NextPowerOfTwoBits(tableSize);
      && IsPowerOfTwoBits(n) && tableSize <= n < 2 * tableSize
      && TableLength(tableSize) == n as int
    ensures !(0 < tableSize <= 0x4000_0000) ==> TableLength(tableSize) == 1
  {
  }

  // ---------------------------------------------------------------------
  // The pool

  /** A `string` instance. Its identity matters: interning hands back the
      pooled instance, not merely equal text. */
  class StringRef {
    const Value: Text

    constructor(value: Text)
      ensures Value == value
    {
      Value := value;
    }
  }

  /** A chain link: the pooled string, its hash, and the next (older)
      entry. */
  class Entry {
    const str: StringRef
    const hash: Int32
    var next: Entry?

    constructor(str: StringRef, hash: Int32, next: Entry?)
      ensures this.str == str && this.hash == hash && this.next == next
    {
      this.str := str;
      this.hash := hash;
      this.next := next;
    }
  }

  /** Index of the first entry of `chain` holding the text `t`, or -1. */
  function IndexOfText(chain: seq<Entry>, t: Text): (k: int)
    ensures -1 <= k < |chain|
    ensures k >= 0 ==> chain[k].str.Value == t && forall i :: 0 <= i < k ==> chain[i].str.Value != t
    ensures k == -1 ==> forall i :: 0 <= i < |chain| ==> chain[i].str.Value != t
  {
    if chain == [] then -1
    else if chain[0].str.Value == t then 0
    else
      var k := IndexOfText(chain[1..], t);
      if k == -1 then -1 else k + 1
  }

  /** A chain after a new head is pushed: the oldest entry goes once the
      chain already holds `maxChainLength` entries. */
  function Pushed(head: Entry, chain: seq<Entry>, maxChainLength: int): (r: seq<Entry>)
    requires |chain| > 0 || maxChainLength > 0
    ensures |r| == if |chain| >= maxChainLength then |chain| else |chain| + 1
    ensures r[0] == head
    ensures forall i :: 1 <= i < |r| ==> r[i] == chain[i - 1]
  {
    [head] + (if |chain| >= maxChainLength then chain[..|chain| - 1] else chain)
  }

  /** The entry after position `i` of a chain, or null after the last. */
  function Successor(chain: seq<Entry>, i: nat): Entry? {
    if i + 1 < |chain| then chain[i + 1] else null
  }

  /** What holds of the pooled entries whatever the heap: `n` buckets of at
      most `maxChainLength` entries, each entry in the bucket of its
      string's hash, and no text twice in a bucket. */
  ghost predicate ChainsWellFormed(chains: seq<seq<Entry>>, n: int, maxChainLength: int, hashOf: Text -> Int32) {
    && |chains| == n
    && (forall s :: 0 <= s < |chains| ==> |chains[s]| <= maxChainLength)
    && (forall s, i :: 0 <= s < |chains| && 0 <= i < |chains[s]| ==>
          chains[s][i].hash == hashOf(chains[s][i].str.Value) && chains[s][i].hash % n == s)
    && (forall s, i, j :: 0 <= s < |chains| && 0 <= i < j < |chains[s]| ==>
          chains[s][i].str.Value != chains[s][j].str.Value)
  }

  /** Pushing an entry whose text is new to its bucket keeps the chains
      well formed. */
  lemma PushedWellFormed(chains: seq<seq<Entry>>, n: int, maxChainLength: int, hashOf: Text -> Int32,
                         slot: int, entry: Entry)
    requires n >= 1 && maxChainLength >= 1 && ChainsWellFormed(chains, n, maxChainLength, hashOf)
    requires 0 <= slot < n
    requires entry.hash == hashOf(entry.str.Value) && entry.hash % n == slot
    requires IndexOfText(chains[slot], entry.str.Value) == -1
    ensures ChainsWellFormed(chains[slot := Pushed(entry, chains[slot], maxChainLength)], n, maxChainLength, hashOf)
  {
    var c := chains[slot];
    var p := Pushed(entry, c, maxChainLength);
    assert forall i :: 1 <= i < |p| ==> p[i] == c[i - 1];
  }

  class SimpleStringInterner {
    /** The buckets: the head of each chain, or null. */
    const cache: array<Entry?>
    const maxChainLength: int
    /** `string.GetHashCode`. */
    const hashOf: Text -> Int32
    /** The entries of each bucket, head first. */
    ghost var chains: seq<seq<Entry>>
    ghost var Repr: set<object>

    ghost predicate Valid()
      reads this, Repr
    {
      && cache in Repr
      && cache.Length >= 1
      && maxChainLength >= 2
      && ChainsWellFormed(chains, cache.Length, maxChainLength, hashOf)
      && (forall s, i :: 0 <= s < |chains| && 0 <= i < |chains[s]| ==> chains[s][i] in Repr)
      && (forall s :: 0 <= s < |chains| ==> cache[s] == if chains[s] == [] then null else chains[s][0])
      && (forall s, i {:trigger Successor(chains[s], i)} :: 0 <= s < |chains| && 0 <= i < |chains[s]| ==>
            chains[s][i].next == Successor(chains[s], i))
    }

    /** The bucket of a text. */
    function Slot(t: Text): (s: nat)
      requires cache.Length >= 1
      ensures s < cache.Length
    {
      hashOf(t) % cache.Length
    }

    /** The constructor: `max(1, NextHighestPowerOfTwo(tableSize))`
        buckets, where a negative result counts as less than 1, all empty,
        and chains of at least 2. */
    constructor(tableSize: bv32, maxChainLength: int, hashOf: Text -> Int32)
      ensures Valid() && fresh(Repr)
      ensures this.hashOf == hashOf
      ensures this.maxChainLength == if maxChainLength < 2 then 2 else maxChainLength
      ensures cache.Length == TableLength(tableSize)
      ensures forall s :: 0 <= s < |chains| ==> chains[s] == []
    {
      var length := BucketCountFor(tableSize);
      cache := new Entry?[length](_ => null);
      this.maxChainLength := if maxChainLength < 2 then 2 else maxChainLength;
      this.hashOf := hashOf;
      new;
      chains := seq(length, _ => []);
      Repr := {cache};
      EmptyTableValid();
    }

    /** A table whose buckets are all empty is well formed. */
    lemma EmptyTableValid()
      requires cache in Repr && cache.Length >= 1 && maxChainLength >= 2 && |chains| == cache.Length
      requires forall s :: 0 <= s < cache.Length ==> cache[s] == null && chains[s] == []
      ensures Valid()
    {
    }

    /** `Intern(s)`. If the bucket of `s` holds an entry with the same
        text, its string is returned and nothing changes. Otherwise `s` is
        pushed at the head of the bucket, dropping the oldest entry of a
        full chain, and `s` itself is returned. Either way the result has
        the text of `s`, and no chain grows beyond `maxChainLength`. */
    method Intern(s: StringRef) returns (r: StringRef)
      requires Valid()
      modifies this, Repr
      ensures Valid() && fresh(Repr - old(Repr))
      ensures r.Value == s.Value
      ensures var slot := Slot(s.Value);
        var k := IndexOfText(old(chains[slot]), s.Value);
        if k >= 0 then
          r == old(chains[slot][k].str) && chains == old(chains)
        else
          r == s && |chains[slot]| > 0 && fresh(chains[slot][0]) && chains[slot][0].str == s
          && chains == old(chains)[slot := Pushed(chains[slot][0], old(chains[slot]), maxChainLength)]
    {
      var h := hashOf(s.Value);
      var slot := h % cache.Length;
      var found, chainLength, nextToLast := Lookup(s, h, slot);
      if found != null {
        return found;
      }
      Insert(s, h, slot, chainLength, nextToLast);
      r := s;
    }

    /** Interning is idempotent: a second string with the same text gets
        back what the first call returned. */
    method InternTwice(s: StringRef, t: StringRef) returns (r1: StringRef, r2: StringRef)
      requires Valid() && s.Value == t.Value
      modifies this, Repr
      ensures Valid() && r1 == r2 && r1.Value == s.Value
    {
      r1 := Intern(s);
      ghost var slot := Slot(s.Value);
      assert IndexOfText(chains[slot], s.Value) >= 0;
      r2 := Intern(t);
    }

    /** The insertion half of `Intern`, once the scan found no entry with
        the text of `s`: a new entry at the head of the bucket, and the
        last entry cut off a full chain by clearing `nextToLast.next`. */
    method Insert(s: StringRef, h: Int32, slot: nat, chainLength: nat, nextToLast: Entry?)
      requires Valid() && h == hashOf(s.Value) && slot == Slot(s.Value)
      requires IndexOfText(chains[slot], s.Value) == -1
      requires chainLength == |chains[slot]|
      requires nextToLast == if |chains[slot]| >= 2 then chains[slot][|chains[slot]| - 2] else null
      modifies this, Repr
      ensures Valid() && fresh(Repr - old(Repr))
      ensures |chains[slot]| > 0 && fresh(chains[slot][0]) && chains[slot][0].str == s
      ensures chains == old(chains)[slot := Pushed(chains[slot][0], old(chains[slot]), maxChainLength)]
    {
      var first := cache[slot];
      var entry := new Entry(s, h, first);
      cache[slot] := entry;
      if chainLength >= maxChainLength && nextToLast != null {
        nextToLast.next := null;
      }
      chains := chains[slot := Pushed(entry, chains[slot], maxChainLength)];
      Repr := Repr + {entry};
      ValidAfterInsert(slot, entry, nextToLast);
    }

    /** The table after an insertion into bucket `slot` is valid again:
        the chains are well formed, every entry is in `Repr`, the bucket
        heads match the chains, and the links match them too. */
    twostate lemma ValidAfterInsert(slot: nat, new entry: Entry, new nextToLast: Entry?)
      requires old(Valid()) && slot < cache.Length
      requires entry.hash == hashOf(entry.str.Value) && entry.hash % cache.Length == slot
      requires IndexOfText(old(chains[slot]), entry.str.Value) == -1
      requires chains == old(chains)[slot := Pushed(entry, old(chains[slot]), maxChainLength)]
      requires Repr == old(Repr) + {entry}
      requires cache[..] == old(cache[..])[slot := entry]
      requires entry.next == old(cache[slot])
      requires nextToLast == if |old(chains[slot])| >= 2 then old(chains[slot][|chains[slot]| - 2]) else null
      requires nextToLast != null ==>
        nextToLast.next == if |old(chains[slot])| >= maxChainLength then null else old(nextToLast.next)
      requires forall x: Entry :: old(allocated(x)) && x != nextToLast ==> x.next == old(x.next)
      ensures Valid()
    {
      var chain := old(chains[slot]);
      PushedWellFormed(old(chains), cache.Length, maxChainLength, hashOf, slot, entry);
      assert forall t :: 0 <= t < cache.Length ==> cache[t] == if t == slot then entry else old(cache[t]);
      LinksAfterInsert(slot, entry, nextToLast);
      forall t, i | 0 <= t < |chains| && 0 <= i < |chains[t]|
        ensures chains[t][i] in Repr
      {
        if t == slot && i > 0 {
          assert chains[t][i] == chain[i - 1];
        }
      }
    }

    /** The links after an insertion into bucket `slot` whose only other
        write was the pruning of `nextToLast`: the new head points at the
        old head, the pruned entry is now the last of its chain, and every
        other entry keeps its successor. */
    twostate lemma LinksAfterInsert(slot: nat, new entry: Entry, new nextToLast: Entry?)
      requires old(Valid()) && slot < |old(chains)| && |chains| == |old(chains)|
      requires forall t :: 0 <= t < |chains| && t != slot ==> chains[t] == old(chains[t])
      requires chains[slot] == Pushed(entry, old(chains[slot]), maxChainLength)
      requires entry.next == if old(chains[slot]) == [] then null else old(chains[slot][0])
      requires |old(chains[slot])| == maxChainLength ==>
        nextToLast == old(chains[slot][|chains[slot]| - 2]) && nextToLast.next == null
      requires forall x: Entry :: old(allocated(x)) && (|old(chains[slot])| < maxChainLength || x != nextToLast) ==>
        x.next == old(x.next)
      ensures forall t, j :: 0 <= t < |chains| && 0 <= j < |chains[t]| ==>
        chains[t][j].next == Successor(chains[t], j)
    {
      var chain := old(chains[slot]);
      var pruned := |chain| == maxChainLength;
      forall j | 1 <= j < |chains[slot]|
        ensures chains[slot][j].next == Successor(chains[slot], j)
      {
        var x: Entry := chain[j - 1];
        assert chains[slot][j] == x;
        if pruned && j == |chain| - 1 {
          assert x == nextToLast;
        } else {
          assert x.next == old(x.next);
          assert Successor(chains[slot], j) == Successor(chain, j - 1);
        }
      }
    }

    /** The scan of bucket `slot` for the text of `s`: the pooled string
        with that text, or else the chain length and the entry before the
        last. */
    method Lookup(s: StringRef, h: Int32, slot: nat) returns (found: StringRef?, chainLength: nat, nextToLast: Entry?)
      requires Valid() && h == hashOf(s.Value) && slot == Slot(s.Value)
      ensures var k := IndexOfText(chains[slot], s.Value);
        && (found != null <==> k >= 0)
        && (k >= 0 ==> found == chains[slot][k].str)
      ensures found == null ==> chainLength == |chains[slot]|
      ensures found == null ==> nextToLast == if |chains[slot]| >= 2 then chains[slot][|chains[slot]| - 2] else null
    {
      ghost var chain := chains[slot];
      found, chainLength, nextToLast := ScanChain(cache[slot], chain, s, h, hashOf);
    }
  }

  /** The loop of `Intern` over one chain, from its head along the `next`
      links: the first entry whose string is `s` or has the same hash and
      the same text, or else the number of entries and the entry before
      the last. */
  method ScanChain(head: Entry?, ghost chain: seq<Entry>, s: StringRef, h: Int32, ghost hashOf: Text -> Int32)
    returns (found: StringRef?, chainLength: nat, nextToLast: Entry?)
    requires head == if chain == [] then null else chain[0]
    requires forall i {:trigger Successor(chain, i)} :: 0 <= i < |chain| ==> chain[i].next == Successor(chain, i)
    requires forall i :: 0 <= i < |chain| ==> chain[i].hash == hashOf(chain[i].str.Value)
    requires h == hashOf(s.Value)
    ensures var k := IndexOfText(chain, s.Value);
      && (found != null <==> k >= 0)
      && (k >= 0 ==> found == chain[k].str)
    ensures found == null ==> chainLength == |chain|
    ensures found == null ==> nextToLast == if |chain| >= 2 then chain[|chain| - 2] else null
  {
    var e := head;
    chainLength := 0;
    nextToLast := null;
    while e != null
      invariant 0 <= chainLength <= |chain|
      invariant e == if chainLength < |chain| then chain[chainLength] else null
      invariant forall i :: 0 <= i < chainLength ==> chain[i].str.Value != s.Value
      invariant nextToLast == NextToLastAfter(chain, chainLength)
      decreases |chain| - chainLength
    {
      assert e.next == Successor(chain, chainLength);
      if e.str == s || (e.hash == h && Ordinal.Compare(e.str.Value, s.Value) == 0) {
        IndexOfTextIs(chain, s.Value, chainLength);
        return e.str, chainLength, nextToLast;
      }
      chainLength := chainLength + 1;
      if e.next != null {
        nextToLast := e;
      }
      e := e.next;
    }
    found := null;
  }

  /** The `nextToLast` of the scan once it has passed `k` entries: the
      last of them whose `next` is not null. */
  function NextToLastAfter(chain: seq<Entry>, k: nat): Entry?
    requires k <= |chain|
  {
    if k >= 1 && |chain| >= 2 then chain[if k - 1 < |chain| - 2 then k - 1 else |chain| - 2] else null
  }

  /** The first entry with the text is found where the scan stops. */
  lemma IndexOfTextIs(chain: seq<Entry>, t: Text, k: int)
    requires 0 <= k < |chain| && chain[k].str.Value == t
    requires forall i :: 0 <= i < k ==> chain[i].str.Value != t
    ensures IndexOfText(chain, t) == k
  {
  }
}
