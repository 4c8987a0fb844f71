/** The chained hash map: pointer chains in a power-of-two table against a finite map. */
module HashMap {

  /** A `void*`; 0 is NULL. */
  type Ptr = nat

  // --- hashing --------------------------------------------------------------------------------

  /** The four steps of the secondary hash of `hashKey`, on 32 bits. */
  function Scramble(h: bv32): bv32 { h + !(h << 9) }
  function FoldFourteen(h: bv32): bv32 { h ^ (h >> 14) }
  function TimesSeventeen(h: bv32): bv32 { h + (h << 4) }
  function FoldTen(h: bv32): bv32 { h ^ (h >> 10) }

  function SpreadWord(h: bv32): bv32 {
    FoldTen(TimesSeventeen(FoldFourteen(Scramble(h))))
  }

  function Spread(h: bv32): nat {
    SpreadWord(h) as nat
  }

  /** The secondary hash loses nothing: different hash codes stay different. */
  lemma SpreadSeparates(a: bv32, b: bv32)
    requires SpreadWord(a) == SpreadWord(b)
    ensures a == b
  {
    hide Scramble, FoldFourteen, TimesSeventeen, FoldTen, TenUnfolded, FourteenUnfolded;
    FoldTenUnfolds(TimesSeventeen(FoldFourteen(Scramble(a))));
    FoldTenUnfolds(TimesSeventeen(FoldFourteen(Scramble(b))));
    OverSeventeen(FoldFourteen(Scramble(a)), FoldFourteen(Scramble(b)));
    FoldFourteenUnfolds(Scramble(a));
    FoldFourteenUnfolds(Scramble(b));
    Unscramble(a, b);
  }

  function TenUnfolded(h: bv32): bv32 { ((h ^ (h >> 10)) ^ (h >> 20)) ^ (h >> 30) }
  function FourteenUnfolded(h: bv32): bv32 { (h ^ (h >> 14)) ^ (h >> 28) }

  lemma FoldTenUnfolds(h: bv32)
    ensures TenUnfolded(FoldTen(h)) == h
  {
    hide TenUnfolded;
    UnfoldTen(h);
  }

  lemma UnfoldTen(h: bv32)
    ensures TenUnfolded(h ^ (h >> 10)) == h
  {
  }

  lemma FoldFourteenUnfolds(h: bv32)
    ensures FourteenUnfolded(FoldFourteen(h)) == h
  {
    hide FourteenUnfolded;
    UnfoldFourteen(h);
  }

  lemma UnfoldFourteen(h: bv32)
    ensures FourteenUnfolded(h ^ (h >> 14)) == h
  {
  }

  lemma OverSeventeen(a: bv32, b: bv32)
    requires TimesSeventeen(a) == TimesSeventeen(b)
    ensures a == b
  {
  }

  /** Bit by bit from the lowest, nine at a time. */
  lemma Unscramble(a: bv32, b: bv32)
    requires Scramble(a) == Scramble(b)
    ensures a == b
  {
    LowNine(a, b);
    LowEighteen(a, b);
    LowTwentySeven(a, b);
    ShiftedNine(a, b);
    Cancel(a, b, !(a << 9));
  }

  lemma LowNine(a: bv32, b: bv32)
    requires a + !(a << 9) == b + !(b << 9)
    ensures a & 0x1ff == b & 0x1ff
  {
  }

  lemma LowEighteen(a: bv32, b: bv32)
    requires a + !(a << 9) == b + !(b << 9) && a & 0x1ff == b & 0x1ff
    ensures a & 0x3ffff == b & 0x3ffff
  {
    assert (a << 9) & 0x3ffff == (b << 9) & 0x3ffff;
  }

  lemma LowTwentySeven(a: bv32, b: bv32)
    requires a + !(a << 9) == b + !(b << 9) && a & 0x3ffff == b & 0x3ffff
    ensures a & 0x7ffffff == b & 0x7ffffff
  {
    assert (a << 9) & 0x7ffffff == (b << 9) & 0x7ffffff;
  }

  lemma ShiftedNine(a: bv32, b: bv32)
    requires a & 0x7ffffff == b & 0x7ffffff
    ensures a << 9 == b << 9
  {
    assert a << 9 == (a & 0x7ffffff) << 9;
    assert b << 9 == (b & 0x7ffffff) << 9;
  }

  lemma Cancel(a: bv32, b: bv32, c: bv32)
    requires a + c == b + c
    ensures a == b
  {
  }

  /** Bitwise `&`, bit by bit. */
  function BitAnd(a: nat, b: nat): nat {
    if a == 0 || b == 0 then 0 else 2 * BitAnd(a / 2, b / 2) + (if a % 2 == 1 && b % 2 == 1 then 1 else 0)
  }

  predicate PowerOfTwo(n: nat) {
    n == 1 || (n > 1 && n % 2 == 0 && PowerOfTwo(n / 2))
  }

  /** `calculateIndex`. */
  function Index(bucketCount: nat, hash: nat): nat
    requires bucketCount > 0
  {
    BitAnd(hash, bucketCount - 1)
  }

  /** Masking with bucketCount - 1 is the remainder, because bucketCount is a power of two. */
  lemma {:induction false} IndexIsRemainder(bucketCount: nat, hash: nat)
    requires PowerOfTwo(bucketCount)
    ensures Index(bucketCount, hash) == hash % bucketCount
    decreases bucketCount
  {
    if bucketCount > 1 && hash > 0 {
      var half := bucketCount / 2;
      IndexIsRemainder(half, hash / 2);
      MaskHalves(half);
      HalvedRemainder(hash, half);
    } else if bucketCount > 1 {
      ZeroRemainder(bucketCount);
    }
  }

  lemma MaskHalves(half: nat)
    requires half > 0
    ensures (2 * half - 1) / 2 == half - 1 && (2 * half - 1) % 2 == 1
  {
  }

  lemma ZeroRemainder(n: nat)
    requires n > 0
    ensures 0 % n == 0
  {
  }

  lemma HalvedRemainder(hash: nat, half: nat)
    requires half > 0
    ensures 2 * (hash / 2 % half) + hash % 2 == hash % (2 * half)
  {
    var h, bit := hash / 2, hash % 2;
    var q, r := h / half, h % half;
    assert h == half * q + r;
    assert 2 * (half * q) == (2 * half) * q;
    RemainderUnique(hash, 2 * half, q, 2 * r + bit);
  }

  lemma RemainderUnique(a: int, n: int, q: int, r: int)
    requires n > 0 && a == n * q + r && 0 <= r < n
    ensures a % n == r
  {
    var q', r' := a / n, a % n;
    assert a == n * q' + r';
    assert n * (q' - q) == r - r' by { Distribute(n, q', q); }
    if q' > q {
      AtLeast(n, q' - q);
    } else if q' < q {
      AtLeast(n, q - q');
      Distribute(n, q, q');
    }
  }

  lemma Distribute(n: int, x: int, y: int)
    ensures n * (x - y) == n * x - n * y
  {
  }

  lemma AtLeast(n: int, k: int)
    requires n > 0 && k >= 1
    ensures n * k >= n
  {
  }

  lemma IndexInRange(bucketCount: nat, hash: nat)
    requires PowerOfTwo(bucketCount)
    ensures bucketCount > 0 && Index(bucketCount, hash) < bucketCount
  {
    IndexIsRemainder(bucketCount, hash);
  }

  // --- the finite map -------------------------------------------------------------------------

  /** The two callbacks a map is created with. */
  datatype Callbacks = Callbacks(hash: Ptr -> bv32, equals: (Ptr, Ptr) -> bool) {

    /** What hashmapCreate's callers promise: equals is an equivalence, and equal keys hash alike. */
    ghost predicate Lawful() {
      && (forall a :: equals(a, a))
      && (forall a, b :: equals(a, b) ==> equals(b, a) && hash(a) == hash(b))
      && (forall a, b, c :: equals(a, b) && equals(b, c) ==> equals(a, c))
    }

    function HashKey(key: Ptr): nat { Spread(hash(key)) }

    /** `equalKeys` on keys with their cached hashes. */
    predicate EqualKeys(a: Ptr, hashA: nat, b: Ptr, hashB: nat) {
      a == b || (hashA == hashB && equals(a, b))
    }
  }

  /** The key of m that is equivalent to key, if there is one. */
  ghost predicate Has(cb: Callbacks, m: map<Ptr, Ptr>, key: Ptr) {
    exists k :: k in m && cb.equals(k, key)
  }

  ghost function KeyIn(cb: Callbacks, m: map<Ptr, Ptr>, key: Ptr): (k: Ptr)
    requires Has(cb, m, key)
    ensures k in m && cb.equals(k, key)
  {
    var k :| k in m && cb.equals(k, key); k
  }

  /** Keys are pairwise inequivalent. */
  ghost predicate Distinct(cb: Callbacks, m: map<Ptr, Ptr>) {
    forall a, b :: a in m && b in m && cb.equals(a, b) ==> a == b
  }

  ghost function Lookup(cb: Callbacks, m: map<Ptr, Ptr>, key: Ptr): Ptr {
    if Has(cb, m, key) then m[KeyIn(cb, m, key)] else 0
  }

  /** Put keeps the key that is already stored. */
  ghost function PutIn(cb: Callbacks, m: map<Ptr, Ptr>, key: Ptr, value: Ptr): map<Ptr, Ptr> {
    if Has(cb, m, key) then m[KeyIn(cb, m, key) := value] else m[key := value]
  }

  ghost function RemoveFrom(cb: Callbacks, m: map<Ptr, Ptr>, key: Ptr): map<Ptr, Ptr> {
    if Has(cb, m, key) then m - {KeyIn(cb, m, key)} else m
  }

  lemma Equivalent(cb: Callbacks, a: Ptr, b: Ptr, c: Ptr)
    requires cb.Lawful()
    ensures cb.equals(a, a) && (cb.equals(a, b) <==> cb.equals(b, a))
    ensures cb.equals(a, b) ==> (cb.equals(a, c) <==> cb.equals(b, c)) && cb.hash(a) == cb.hash(b)
  {
    assert cb.equals(a, b) ==> cb.equals(b, a);
    assert cb.equals(b, a) ==> cb.equals(a, b);
  }

  lemma SameHash(cb: Callbacks, a: Ptr, b: Ptr)
    requires cb.Lawful() && cb.equals(a, b)
    ensures cb.HashKey(a) == cb.HashKey(b)
  {
    hide Spread;
  }

  lemma EqualKeysIsEquals(cb: Callbacks, a: Ptr, b: Ptr)
    requires cb.Lawful()
    ensures cb.EqualKeys(a, cb.HashKey(a), b, cb.HashKey(b)) <==> cb.equals(a, b)
  {
    hide Spread;
  }

  /** The stored key of an equivalent key is unique. */
  lemma StoredKey(cb: Callbacks, m: map<Ptr, Ptr>, key: Ptr, k: Ptr)
    requires cb.Lawful() && Distinct(cb, m) && k in m && cb.equals(k, key)
    ensures Has(cb, m, key) && KeyIn(cb, m, key) == k
  {
    hide cb.Lawful;
    var k' := KeyIn(cb, m, key);
    Equivalent(cb, k', key, k);
    Equivalent(cb, k, key, k');
  }

  /** The finite map is one: after a put every equivalent key finds the value and no other key changes. */
  lemma PutThenLookup(cb: Callbacks, m: map<Ptr, Ptr>, key: Ptr, value: Ptr, other: Ptr)
    requires cb.Lawful() && Distinct(cb, m)
    ensures var m' := PutIn(cb, m, key, value);
            && Distinct(cb, m')
            && |m'| == |m| + (if Has(cb, m, key) then 0 else 1)
            && Lookup(cb, m', other) == (if cb.equals(key, other) then value else Lookup(cb, m, other))
            && (Has(cb, m', other) <==> cb.equals(key, other) || Has(cb, m, other))
  {
    hide cb.Lawful;
    var m' := PutIn(cb, m, key, value);
    var stored := if Has(cb, m, key) then KeyIn(cb, m, key) else key;
    PutKeepsDistinct(cb, m, key, value);
    Equivalent(cb, key, key, key);
    assert stored in m' && cb.equals(stored, key) && m'[stored] == value;
    Equivalent(cb, stored, key, other);
    if cb.equals(key, other) {
      StoredKey(cb, m', other, stored);
    } else if Has(cb, m, other) {
      StoredKey(cb, m', other, KeyIn(cb, m, other));
    }
  }

  lemma PutKeepsDistinct(cb: Callbacks, m: map<Ptr, Ptr>, key: Ptr, value: Ptr)
    requires cb.Lawful() && Distinct(cb, m)
    ensures var m' := PutIn(cb, m, key, value);
            Distinct(cb, m') && |m'| == |m| + (if Has(cb, m, key) then 0 else 1)
  {
    hide cb.Lawful;
    var m' := PutIn(cb, m, key, value);
    if Has(cb, m, key) {
      assert m'.Keys == m.Keys;
    } else {
      NewKeyKeepsDistinct(cb, m, key, value);
    }
  }

  lemma NewKeyKeepsDistinct(cb: Callbacks, m: map<Ptr, Ptr>, key: Ptr, value: Ptr)
    requires cb.Lawful() && Distinct(cb, m) && !Has(cb, m, key)
    ensures key !in m && Distinct(cb, m[key := value]) && |m[key := value]| == |m| + 1
  {
    hide cb.Lawful;
    var m' := m[key := value];
    Equivalent(cb, key, key, key);
    assert m'.Keys == m.Keys + {key};
    forall a, b | a in m' && b in m' && cb.equals(a, b) ensures a == b {
      Equivalent(cb, a, b, a);
    }
  }

  lemma RemoveThenLookup(cb: Callbacks, m: map<Ptr, Ptr>, key: Ptr, other: Ptr)
    requires cb.Lawful() && Distinct(cb, m)
    ensures var m' := RemoveFrom(cb, m, key);
            && Distinct(cb, m')
            && |m'| == |m| - (if Has(cb, m, key) then 1 else 0)
            && Lookup(cb, m', other) == (if cb.equals(key, other) then 0 else Lookup(cb, m, other))
            && (Has(cb, m', other) <==> !cb.equals(key, other) && Has(cb, m, other))
  {
    hide cb.Lawful;
    var m' := RemoveFrom(cb, m, key);
    if Has(cb, m, key) {
      var stored := KeyIn(cb, m, key);
      assert m'.Keys == m.Keys - {stored};
      Equivalent(cb, stored, key, other);
      if Has(cb, m, other) {
        var k := KeyIn(cb, m, other);
        Equivalent(cb, k, other, stored);
        if k == stored {
          if Has(cb, m', other) {
            StoredKey(cb, m, other, KeyIn(cb, m', other));
          }
        } else {
          StoredKey(cb, m', other, k);
          if cb.equals(key, other) {
            Equivalent(cb, other, k, stored);
            StoredKey(cb, m, other, stored);
          }
        }
      }
    } else if Has(cb, m, other) {
      Equivalent(cb, key, other, KeyIn(cb, m, other));
      Equivalent(cb, KeyIn(cb, m, other), other, key);
    }
  }

  // --- chains ---------------------------------------------------------------------------------

  class Entry {
    const key: Ptr
    const hash: nat
    var value: Ptr
    var next: Entry?

    constructor (key: Ptr, hash: nat, value: Ptr)
      ensures this.key == key && this.hash == hash && this.value == value && next == null
    {
      this.key, this.hash, this.value, this.next := key, hash, value, null;
    }
  }

  ghost function Head(chain: seq<Entry>): Entry? {
    if chain == [] then null else chain[0]
  }

  ghost function LastOf(chain: seq<Entry>): Entry? {
    if chain == [] then null else chain[|chain| - 1]
  }

  ghost function After(chain: seq<Entry>, k: nat): Entry? {
    if k + 1 < |chain| then chain[k + 1] else null
  }

  /** The entries reached from head through next are those of chain. */
  ghost predicate Linked(head: Entry?, chain: seq<Entry>)
    reads chain`next
  {
    head == Head(chain) && forall k :: 0 <= k < |chain| ==> chain[k].next == After(chain, k)
  }

  ghost predicate NoDuplicates(chain: seq<Entry>) {
    forall j, k :: 0 <= j < k < |chain| ==> chain[j] != chain[k]
  }

  /** Every entry is in the chain of bucket hash & (bucketCount - 1), once, and nothing else is. */
  ghost predicate Partition(bucketCount: nat, entries: set<Entry>, chains: seq<seq<Entry>>) {
    && bucketCount == |chains| && PowerOfTwo(bucketCount)
    && (forall i :: 0 <= i < bucketCount ==> NoDuplicates(chains[i]))
    && (forall i, e :: 0 <= i < bucketCount && e in chains[i] ==> e in entries && Index(bucketCount, e.hash) == i)
    && (forall e :: e in entries ==>
          Index(bucketCount, e.hash) < bucketCount && e in chains[Index(bucketCount, e.hash)])
  }

  /** The buckets head the chains of such a partition. */
  ghost predicate Table(buckets: array<Entry?>, bucketCount: nat, entries: set<Entry>, chains: seq<seq<Entry>>)
    reads buckets, entries`next
  {
    && buckets.Length == bucketCount && Partition(bucketCount, entries, chains)
    && (forall i :: 0 <= i < bucketCount ==> Linked(buckets[i], chains[i]))
  }

  /** Linked, read off a snapshot of the next pointers instead of the heap. */
  ghost predicate LinkedBy(head: Entry?, chain: seq<Entry>, nexts: map<Entry, Entry?>) {
    head == Head(chain) && forall k :: 0 <= k < |chain| ==> chain[k] in nexts && nexts[chain[k]] == After(chain, k)
  }

  lemma Snapshot(head: Entry?, chain: seq<Entry>, nexts: map<Entry, Entry?>)
    requires Linked(head, chain) && forall e :: e in chain ==> e in nexts && nexts[e] == e.next
    ensures LinkedBy(head, chain, nexts)
  {
    forall k | 0 <= k < |chain| ensures chain[k] in nexts && nexts[chain[k]] == After(chain, k) {
      assert chain[k] in chain;
    }
  }

  lemma LinkedFrame(head: Entry?, chain: seq<Entry>, nexts: map<Entry, Entry?>)
    requires LinkedBy(head, chain, nexts) && forall e :: e in chain && e in nexts ==> e.next == nexts[e]
    ensures Linked(head, chain)
  {
    forall k | 0 <= k < |chain| ensures chain[k].next == After(chain, k) {
      assert chain[k] in chain;
    }
  }

  lemma LinkedAppend(head: Entry?, chain: seq<Entry>, nexts: map<Entry, Entry?>, e: Entry, head': Entry?)
    requires LinkedBy(head, chain, nexts) && NoDuplicates(chain) && e.next == null
    requires forall x :: x in chain && x in nexts && x != LastOf(chain) ==> x.next == nexts[x]
    requires if chain == [] then head' == e else head' == head && LastOf(chain).next == e
    ensures Linked(head', chain + [e])
  {
    forall k | 0 <= k < |chain| + 1 ensures (chain + [e])[k].next == After(chain + [e], k) {
      if k < |chain| - 1 {
        assert chain[k] in chain && chain[k] != LastOf(chain);
      }
    }
  }

  lemma NextInChain(head: Entry?, chain: seq<Entry>, nexts: map<Entry, Entry?>, pos: nat)
    requires LinkedBy(head, chain, nexts) && pos < |chain|
    ensures chain[pos] in nexts && nexts[chain[pos]] == After(chain, pos)
  {
  }

  lemma LinkedUnlink(head: Entry?, chain: seq<Entry>, nexts: map<Entry, Entry?>, pos: nat, head': Entry?)
    requires LinkedBy(head, chain, nexts) && NoDuplicates(chain) && pos < |chain|
    requires forall x :: x in chain && x in nexts && (pos > 0 ==> x != chain[pos - 1]) ==> x.next == nexts[x]
    requires if pos == 0 then head' == After(chain, 0) else head' == head && chain[pos - 1].next == After(chain, pos)
    ensures Linked(head', chain[..pos] + chain[pos + 1..])
  {
    var shorter := chain[..pos] + chain[pos + 1..];
    forall k | 0 <= k < |shorter| ensures shorter[k].next == After(shorter, k) {
      var j := if k < pos then k else k + 1;
      assert shorter[k] == chain[j] && chain[j] in chain;
    }
  }

  /** A snapshot of all chains of a table. */
  lemma SnapshotTable(buckets: array<Entry?>, bucketCount: nat, entries: set<Entry>, chains: seq<seq<Entry>>)
      returns (nexts: map<Entry, Entry?>)
    requires Table(buckets, bucketCount, entries, chains)
    ensures nexts.Keys == entries && forall e :: e in entries ==> nexts[e] == e.next
    ensures forall i :: 0 <= i < bucketCount ==> LinkedBy(buckets[i], chains[i], nexts)
  {
    hide Index, PowerOfTwo, NoDuplicates, Linked, LinkedBy;
    nexts := map e | e in entries :: e.next;
    forall i | 0 <= i < bucketCount ensures LinkedBy(buckets[i], chains[i], nexts) {
      Snapshot(buckets[i], chains[i], nexts);
    }
  }

  /** Represents, with the values of the entries read off a snapshot. */
  ghost predicate Pairs(cb: Callbacks, m: map<Ptr, Ptr>, at: map<Ptr, Entry>, size: nat, entries: set<Entry>,
                        values: map<Entry, Ptr>)
  {
    && cb.Lawful() && Distinct(cb, m)
    && at.Keys == m.Keys && size == |m| && values.Keys == entries
    && (forall k :: k in m ==> at[k] in entries && at[k].key == k && values[at[k]] == m[k])
    && (forall e :: e in entries ==> e.key in m && at[e.key] == e && e.hash == cb.HashKey(e.key))
  }

  lemma PairsAdd(cb: Callbacks, m: map<Ptr, Ptr>, at: map<Ptr, Entry>, size: nat, entries: set<Entry>,
                 values: map<Entry, Ptr>, e: Entry, value: Ptr)
    requires Pairs(cb, m, at, size, entries, values)
    requires e !in entries && !Has(cb, m, e.key) && e.hash == cb.HashKey(e.key)
    ensures Pairs(cb, m[e.key := value], at[e.key := e], size + 1, entries + {e}, values[e := value])
  {
    hide cb.Lawful, cb.HashKey, Distinct, Has;
    NewKeyKeepsDistinct(cb, m, e.key, value);
  }

  lemma PairsRemove(cb: Callbacks, m: map<Ptr, Ptr>, at: map<Ptr, Entry>, size: nat, entries: set<Entry>,
                    values: map<Entry, Ptr>, e: Entry)
    requires Pairs(cb, m, at, size, entries, values) && e in entries
    ensures size > 0 && Pairs(cb, m - {e.key}, at - {e.key}, size - 1, entries - {e}, values - {e})
  {
    hide cb.Lawful, cb.HashKey;
    assert (m - {e.key}).Keys == m.Keys - {e.key};
  }

  lemma PairsSet(cb: Callbacks, m: map<Ptr, Ptr>, at: map<Ptr, Entry>, size: nat, entries: set<Entry>,
                 values: map<Entry, Ptr>, e: Entry, value: Ptr)
    requires Pairs(cb, m, at, size, entries, values) && e in entries
    ensures Pairs(cb, m[e.key := value], at, size, entries, values[e := value])
  {
    hide cb.Lawful, cb.HashKey;
    assert m[e.key := value].Keys == m.Keys;
  }

  class Hashmap {
    var buckets: array<Entry?>
    var bucketCount: nat
    var size: nat
    const cb: Callbacks

    ghost var M: map<Ptr, Ptr>                 // the abstract map: stored key to value
    ghost var at: map<Ptr, Entry>              // the entry of each stored key
    ghost var entries: set<Entry>
    ghost var chains: seq<seq<Entry>>          // the entries of each bucket, in chain order

    ghost predicate Placed()
      reads `buckets, `bucketCount, `entries, `chains, buckets, entries`next
    {
      Table(buckets, bucketCount, entries, chains)
    }

    /** The entries are the pairs of M, under keys that are pairwise inequivalent. */
    ghost predicate Represents()
      reads `M, `at, `size, `entries, entries`value
    {
      Pairs(cb, M, at, size, entries, map e | e in entries :: e.value)
    }

    ghost predicate Valid()
      reads this, buckets, entries
    {
      Placed() && Represents()
    }

    /** `hashmapCreate`: the smallest power of two above initialCapacity * 4 / 3 buckets. */
    constructor (initialCapacity: nat, cb: Callbacks)
      requires cb.Lawful()
      ensures Valid() && fresh(buckets) && M == map[] && entries == {} && this.cb == cb
      ensures bucketCount > initialCapacity * 4 / 3
      ensures bucketCount == 1 || bucketCount / 2 <= initialCapacity * 4 / 3
    {
      this.cb := cb;
      M, at, entries := map[], map[], {};
      size := 0;
      var minimumBucketCount := initialCapacity * 4 / 3;
      var count := 1;
      while count <= minimumBucketCount
        invariant count > 0 && PowerOfTwo(count)
        invariant count == 1 || count / 2 <= minimumBucketCount
        decreases 2 * minimumBucketCount + 1 - count
      {
        DoublePower(count);
        count := count * 2;
      }
      bucketCount := count;
      buckets := new Entry?[count](_ => null);
      chains := seq(count, _ => []);
    }

    /** The walk along one chain, shared by every operation: prev is the entry whose next pointer leads to
        current (null for the bucket itself). */
    method Locate(key: Ptr) returns (hash: nat, index: nat, prev: Entry?, current: Entry?, ghost pos: nat)
      requires Valid()
      ensures hash == cb.HashKey(key) && index == Index(bucketCount, hash) < bucketCount == |chains|
      ensures pos <= |chains[index]|
      ensures prev == if pos == 0 then null else chains[index][pos - 1]
      ensures current == if pos < |chains[index]| then chains[index][pos] else null
      ensures current == null <==> !Has(cb, M, key)
      ensures current != null ==> current in entries && current.key in M && cb.equals(current.key, key)
                                  && KeyIn(cb, M, key) == current.key && M[current.key] == current.value
                                  && at[current.key] == current
    {
      hide cb.Lawful, cb.HashKey, cb.EqualKeys, Index, Valid, NoDuplicates, Distinct, Has, KeyIn;
      hash := cb.HashKey(key);
      BucketChain(hash);
      index := Index(bucketCount, hash);
      prev, current, pos := null, buckets[index], 0;
      ghost var chain := chains[index];
      NoMatchMeansNone(key);
      while current != null
        invariant pos <= |chain|
        invariant prev == if pos == 0 then null else chain[pos - 1]
        invariant current == if pos < |chain| then chain[pos] else null
        invariant forall j :: 0 <= j < pos ==> !cb.equals(chain[j].key, key)
        decreases |chain| - pos
      {
        EntryInChain(current, index);
        EqualKeysIsEquals(cb, current.key, key);
        if cb.EqualKeys(current.key, current.hash, key, hash) {
          StoredKey(cb, M, key, current.key);
          return;
        }
        prev, current := current, current.next;
        pos := pos + 1;
      }
      assert Unmatched(chain, key);
    }

    /** A bucket heads its chain. */
    lemma BucketChain(hash: nat)
      requires Valid()
      ensures Index(bucketCount, hash) < bucketCount == |chains| == buckets.Length
      ensures Linked(buckets[Index(bucketCount, hash)], chains[Index(bucketCount, hash)])
    {
      hide Index, Represents, NoDuplicates, Linked;
      IndexInRange(bucketCount, hash);
    }

    /** The entries of a chain are those of pairs of M. */
    lemma EntryInChain(e: Entry, index: nat)
      requires Valid() && index < |chains| && e in chains[index]
      ensures e in entries && e.key in M && at[e.key] == e && M[e.key] == e.value && e.hash == cb.HashKey(e.key)
      ensures cb.Lawful() && Distinct(cb, M)
    {
      hide cb.Lawful, cb.HashKey, Index, PowerOfTwo, NoDuplicates, Linked, Distinct;
    }

    /** The chain of a key's bucket holds the entry of its equivalent, if there is one. */
    lemma StoredInChain(key: Ptr)
      requires Valid()
      ensures Has(cb, M, key) ==>
                var index := Index(bucketCount, cb.HashKey(key));
                index < |chains| && exists e :: e in chains[index] && cb.equals(e.key, key)
    {
      hide cb.Lawful, cb.HashKey, Index, PowerOfTwo;
      if Has(cb, M, key) {
        var k := KeyIn(cb, M, key);
        SameHash(cb, k, key);
        var e := at[k];
        assert e in chains[Index(bucketCount, e.hash)] && cb.equals(e.key, key);
      }
    }

    /** No entry of the chain has an equivalent key. */
    predicate Unmatched(chain: seq<Entry>, key: Ptr)
      reads this, chain
    {
      forall j :: 0 <= j < |chain| ==> !cb.equals(chain[j].key, key)
    }

    lemma NoMatchMeansNone(key: Ptr)
      requires Valid()
      ensures var index := Index(bucketCount, cb.HashKey(key));
              index < |chains| && Unmatched(chains[index], key) ==> !Has(cb, M, key)
    {
      hide cb.Lawful, cb.HashKey, Index, PowerOfTwo, Has;
      StoredInChain(key);
    }

    /** `hashmapGet`: NULL for a missing key. */
    method Get(key: Ptr) returns (value: Ptr)
      requires Valid()
      ensures value == Lookup(cb, M, key)
    {
      var hash, index, prev, entry;
      ghost var pos;
      hash, index, prev, entry, pos := Locate(key);
      if entry != null {
        return entry.value;
      }
      return 0;
    }

    /** `hashmapContainsKey`. */
    method ContainsKey(key: Ptr) returns (found: bool)
      requires Valid()
      ensures found <==> Has(cb, M, key)
    {
      var hash, index, prev, entry;
      ghost var pos;
      hash, index, prev, entry, pos := Locate(key);
      return entry != null;
    }

    /** Entry e becomes the last of chain `index`, through the pointer that Locate stopped at. */
    method LinkLast(e: Entry, index: nat, prev: Entry?)
      requires Placed() && e !in entries && e.next == null && index == Index(bucketCount, e.hash) < bucketCount
      requires index < |chains| && prev == LastOf(chains[index])
      modifies this`chains, this`entries, buckets, entries
      ensures Placed() && entries == old(entries) + {e}
      ensures forall x :: x in entries ==> x.value == old(x.value)
    {
      hide Index, PowerOfTwo, NoDuplicates, Linked, LinkedBy, Partition;
      PartitionFacts(bucketCount, entries, chains);
      ghost var chain := chains[index];
      assert chain != [] ==> prev in chain;
      ghost var head := buckets[index];
      ghost var nexts := SnapshotTable(buckets, bucketCount, entries, chains);
      if prev == null {
        buckets[index] := e;
      } else {
        prev.next := e;
      }
      entries := entries + {e};
      chains := chains[index := chain + [e]];
      PartitionAdd(bucketCount, old(entries), old(chains), index, e, chain + [e]) by { OneLonger(chain, e); }
      forall i | 0 <= i < bucketCount ensures Linked(buckets[i], chains[i]) {
        if i != index {
          assert prev !in chains[i];
          LinkedFrame(buckets[i], chains[i], nexts);
        } else {
          LinkedAppend(head, chain, nexts, e, buckets[index]);
        }
      }
    }

    /** `expandIfNecessary`: above the 3/4 load every entry moves, unchanged, to a table twice the size;
        when the allocation fails everything stays. */
    method ExpandIfNecessary(callocOk: bool)
      requires Valid()
      modifies this, entries
      ensures Valid() && M == old(M) && entries == old(entries) && size == old(size)
      ensures buckets == old(buckets) || (fresh(buckets) && bucketCount != old(bucketCount))
      ensures bucketCount ==
              if size > old(bucketCount) * 3 / 4 && callocOk then 2 * old(bucketCount) else old(bucketCount)
    {
      hide cb.Lawful, cb.HashKey, Index, PowerOfTwo, Table;
      if size > bucketCount * 3 / 4 {
        var newBucketCount := bucketCount * 2;
        if !callocOk {
          return;
        }
        ghost var newChains;
        var newBuckets;
        newBuckets, newChains := MoveAll(newBucketCount);
        buckets, bucketCount := newBuckets, newBucketCount;
        chains := newChains;
      }
    }

    /** The relinking loops: every entry of the old table is pushed in front of its new chain. */
    method MoveAll(newBucketCount: nat) returns (newBuckets: array<Entry?>, ghost newChains: seq<seq<Entry>>)
      requires Placed() && newBucketCount == bucketCount * 2
      modifies entries
      ensures fresh(newBuckets) && Table(newBuckets, newBucketCount, entries, newChains)
      ensures bucketCount > 0 && forall e :: e in entries ==> e.value == old(e.value)
    {
      hide Index, PowerOfTwo, Table, NoDuplicates, Linked, LinkedBy;
      TableFacts(buckets, bucketCount, entries, chains);
      ghost var nexts := SnapshotTable(buckets, bucketCount, entries, chains);
      newBuckets, newChains := EmptyTable(newBucketCount);
      ghost var moved: set<Entry> := {};
      var i := 0;
      while i < bucketCount
        invariant 0 <= i <= bucketCount
        invariant forall e :: e in entries ==> e.value == old(e.value)
        invariant forall j, e :: i <= j < bucketCount && e in chains[j] ==> e.next == nexts[e]
        invariant moved <= entries && forall e :: e in entries ==> (e in moved <==> Index(bucketCount, e.hash) < i)
        invariant Table(newBuckets, newBucketCount, moved, newChains)
      {
        ghost var chain := chains[i];
        LinkedFrame(buckets[i], chain, nexts);
        newChains := MoveChain(chain, buckets[i], newBuckets, newBucketCount, moved, newChains);
        moved := moved + set e | e in chain;
        i := i + 1;
      }
      assert moved == entries;
    }

    /** Entry current leaves its chain: `*p = current->next`. */
    method Unlink(current: Entry, index: nat, prev: Entry?, ghost pos: nat)
      requires Placed() && current in entries && index < bucketCount && pos < |chains[index]|
      requires current == chains[index][pos] && prev == if pos == 0 then null else chains[index][pos - 1]
      modifies `chains, `entries, buckets, entries
      ensures Placed() && entries == old(entries) - {current}
      ensures forall x :: x in entries ==> x.value == old(x.value)
    {
      hide Index, PowerOfTwo, NoDuplicates, Linked, LinkedBy, Partition;
      PartitionFacts(bucketCount, entries, chains);
      ghost var chain := chains[index];
      assert pos > 0 ==> prev in chain;
      assert current in chain;
      ghost var head := buckets[index];
      ghost var nexts := SnapshotTable(buckets, bucketCount, entries, chains);
      NextInChain(head, chain, nexts, pos);
      if prev == null {
        buckets[index] := current.next;
      } else {
        prev.next := current.next;
      }
      entries := entries - {current};
      PartitionRemove(bucketCount, old(entries), chains, index, pos);
      chains := chains[index := chain[..pos] + chain[pos + 1..]];
      forall i | 0 <= i < bucketCount ensures Linked(buckets[i], chains[i]) {
        if i != index {
          assert prev !in chains[i];
          LinkedFrame(buckets[i], chains[i], nexts);
        } else {
          LinkedUnlink(head, chain, nexts, pos, buckets[index]);
        }
      }
    }

    /** `hashmapPut`: the old value of the key, or NULL. mallocOk and callocOk say whether the allocations
        of a new entry and of a larger table succeed. */
    method Put(key: Ptr, value: Ptr, mallocOk: bool, callocOk: bool) returns (oldValue: Ptr)
      requires Valid()
      modifies this, buckets, entries
      ensures Valid() && fresh(entries - old(entries)) && (buckets == old(buckets) || fresh(buckets))
      ensures bucketCount == old(bucketCount) ==> buckets == old(buckets)
      ensures oldValue == Lookup(cb, old(M), key)
      ensures M == if mallocOk || Has(cb, old(M), key) then PutIn(cb, old(M), key, value) else old(M)
      ensures bucketCount == GrownCount(old(bucketCount), old(size), size, callocOk)
    {
      hide cb.Lawful, Distinct, Has, Index, Placed, Represents;
      var hash, index, prev, current;
      ghost var pos;
      hash, index, prev, current, pos := Locate(key);
      if current == null {
        if !mallocOk {
          return 0;
        }
        Append(key, value, hash, index, prev);
        ExpandIfNecessary(callocOk);
        return 0;
      }
      oldValue := current.value;
      SetValue(current, value);
    }

    /** `current->value = value` for a stored entry. */
    method SetValue(current: Entry, value: Ptr)
      requires Valid() && current in entries
      modifies `M, current`value
      ensures Valid() && M == old(M)[current.key := value]
    {
      hide Placed, Pairs;
      ghost var values := map e | e in entries :: e.value;
      PairsSet(cb, M, at, size, entries, values, current, value);
      current.value := value;
      M := M[current.key := value];
      assert (map e | e in entries :: e.value) == values[current := value];
    }

    /** `hashmapMemoize`, for a callback that does not re-enter the map: the stored value, or the initial
        value, which is then stored. */
    method Memoize(key: Ptr, initialValue: Ptr -> Ptr, mallocOk: bool, callocOk: bool) returns (value: Ptr)
      requires Valid()
      modifies this, buckets, entries
      ensures Valid() && fresh(entries - old(entries)) && (buckets == old(buckets) || fresh(buckets))
      ensures bucketCount == old(bucketCount) ==> buckets == old(buckets)
      ensures Has(cb, old(M), key) ==> M == old(M) && value == Lookup(cb, old(M), key)
      ensures !Has(cb, old(M), key) ==>
                if mallocOk then M == PutIn(cb, old(M), key, value) && value == initialValue(key)
                else M == old(M) && value == 0
      ensures bucketCount == GrownCount(old(bucketCount), old(size), size, callocOk)
    {
      hide cb.Lawful, Distinct, Has, Index, Placed, Represents;
      var hash, index, prev, current;
      ghost var pos;
      hash, index, prev, current, pos := Locate(key);
      if current == null {
        if !mallocOk {
          return 0;
        }
        value := initialValue(key);
        Append(key, value, hash, index, prev);
        ExpandIfNecessary(callocOk);
        return value;
      }
      return current.value;
    }

    /** `hashmapRemove`: the value removed, or NULL. */
    method Remove(key: Ptr) returns (value: Ptr)
      requires Valid()
      modifies this, buckets, entries
      ensures Valid() && entries <= old(entries) && buckets == old(buckets) && bucketCount == old(bucketCount)
      ensures value == Lookup(cb, old(M), key)
      ensures M == RemoveFrom(cb, old(M), key)
    {
      hide cb.Lawful, cb.HashKey, Has, Index, Placed;
      var hash, index, prev, current;
      ghost var pos;
      hash, index, prev, current, pos := Locate(key);
      if current == null {
        return 0;
      }
      value := current.value;
      Discard(current, index, prev, pos);
    }

    /** The entry that Locate stopped at leaves the map. */
    method Discard(current: Entry, index: nat, prev: Entry?, ghost pos: nat)
      requires Valid() && current in entries && index < bucketCount && pos < |chains[index]|
      requires current == chains[index][pos] && prev == if pos == 0 then null else chains[index][pos - 1]
      modifies this, buckets, entries
      ensures Valid() && entries <= old(entries) && buckets == old(buckets) && bucketCount == old(bucketCount)
      ensures M == old(M) - {current.key}
    {
      hide Index, Placed, Pairs;
      ghost var values := map e | e in entries :: e.value;
      PairsRemove(cb, M, at, size, entries, values, current);
      Unlink(current, index, prev, pos);
      size := size - 1;
      M, at := M - {current.key}, at - {current.key};
      assert (map e | e in entries :: e.value) == values - {current};
    }

    /** A new pair under a key that no stored key is equivalent to. */
    method Append(key: Ptr, value: Ptr, hash: nat, index: nat, prev: Entry?)
      requires Valid() && !Has(cb, M, key)
      requires hash == cb.HashKey(key) && index == Index(bucketCount, hash) < bucketCount
      requires index < |chains| && prev == LastOf(chains[index])
      modifies this, buckets, entries
      ensures Valid() && fresh(entries - old(entries)) && buckets == old(buckets) && bucketCount == old(bucketCount)
      ensures M == old(M)[key := value] && size == old(size) + 1
    {
      hide cb.HashKey, Index, Placed, Has, Pairs;
      ghost var values := map x | x in entries :: x.value;
      var e := new Entry(key, hash, value);
      PairsAdd(cb, M, at, size, entries, values, e, value);
      LinkLast(e, index, prev);
      size := size + 1;
      M, at := M[key := value], at[key := e];
      assert (map x | x in entries :: x.value) == values[e := value];
    }
  }

  lemma PartitionFacts(bucketCount: nat, entries: set<Entry>, chains: seq<seq<Entry>>)
    requires Partition(bucketCount, entries, chains)
    ensures bucketCount == |chains| && PowerOfTwo(bucketCount)
    ensures forall i :: 0 <= i < bucketCount ==> NoDuplicates(chains[i])
    ensures forall i, e :: 0 <= i < bucketCount && e in chains[i] ==> e in entries && Index(bucketCount, e.hash) == i
  {
  }

  lemma PartitionAdd(bucketCount: nat, entries: set<Entry>, chains: seq<seq<Entry>>, index: nat, e: Entry,
                     longer: seq<Entry>)
    requires Partition(bucketCount, entries, chains) && index == Index(bucketCount, e.hash) < bucketCount
    requires NoDuplicates(longer) && forall x :: x in longer <==> x == e || x in chains[index]
    ensures Partition(bucketCount, entries + {e}, chains[index := longer])
  {
    hide NoDuplicates, Index, PowerOfTwo;
  }

  lemma PartitionRemove(bucketCount: nat, entries: set<Entry>, chains: seq<seq<Entry>>, index: nat, pos: nat)
    requires Partition(bucketCount, entries, chains) && index < bucketCount && pos < |chains[index]|
    ensures var chain := chains[index];
            Partition(bucketCount, entries - {chain[pos]}, chains[index := chain[..pos] + chain[pos + 1..]])
  {
    hide NoDuplicates, Index, PowerOfTwo;
    var chain := chains[index];
    var gone, shorter := chain[pos], chain[..pos] + chain[pos + 1..];
    var chains' := chains[index := shorter];
    OneShorter(chain, pos);
    assert forall x :: x in shorter <==> x in chain && x != gone;
    assert gone in chain && chains'[index] == shorter;
    forall i, e | 0 <= i < bucketCount && e in chains'[i]
      ensures e in entries - {gone} && Index(bucketCount, e.hash) == i
    {
      if i == index {
        assert e in shorter;
      } else {
        assert e in chains[i] && Index(bucketCount, gone.hash) == index;
      }
    }
  }

  lemma TableFacts(buckets: array<Entry?>, bucketCount: nat, entries: set<Entry>, chains: seq<seq<Entry>>)
    requires Table(buckets, bucketCount, entries, chains)
    ensures buckets.Length == bucketCount == |chains| && PowerOfTwo(bucketCount * 2) && bucketCount > 0
    ensures forall i :: 0 <= i < bucketCount ==> NoDuplicates(chains[i]) && Linked(buckets[i], chains[i])
    ensures forall i, e :: 0 <= i < bucketCount && e in chains[i] ==> e in entries && Index(bucketCount, e.hash) == i
    ensures forall e :: e in entries ==>
              Index(bucketCount, e.hash) < bucketCount && e in chains[Index(bucketCount, e.hash)]
  {
    hide Index, NoDuplicates, Linked;
    DoublePower(bucketCount);
  }

  method EmptyTable(bucketCount: nat) returns (buckets: array<Entry?>, ghost chains: seq<seq<Entry>>)
    requires PowerOfTwo(bucketCount)
    ensures fresh(buckets) && Table(buckets, bucketCount, {}, chains)
  {
    buckets := new Entry?[bucketCount](_ => null);
    chains := seq(bucketCount, _ => []);
  }

  /** `entry->next = newBuckets[index]; newBuckets[index] = entry`. */
  method PushFront(buckets: array<Entry?>, bucketCount: nat, ghost entries: set<Entry>, ghost chains: seq<seq<Entry>>,
                   e: Entry)
      returns (ghost chains': seq<seq<Entry>>)
    requires Table(buckets, bucketCount, entries, chains) && e !in entries
    modifies buckets, e`next
    ensures Table(buckets, bucketCount, entries + {e}, chains')
  {
    hide Index, PowerOfTwo, NoDuplicates, Partition, Linked, LinkedBy;
    PartitionFacts(bucketCount, entries, chains);
    IndexInRange(bucketCount, e.hash);
    var index := Index(bucketCount, e.hash);
    ghost var chain := chains[index];
    ghost var nexts := SnapshotTable(buckets, bucketCount, entries, chains);
    e.next := buckets[index];
    buckets[index] := e;
    chains' := chains[index := [e] + chain];
    PartitionAdd(bucketCount, entries, chains, index, e, [e] + chain) by { OneMoreInFront(chain, e); }
    forall i | 0 <= i < bucketCount ensures Linked(buckets[i], chains'[i]) {
      LinkedFrame(if i == index then e.next else buckets[i], chains[i], nexts);
      if i == index {
        LinkedInFront(e, chain);
      }
    }
  }

  /** The inner relinking loop: one whole chain moves. */
  method MoveChain(ghost chain: seq<Entry>, head: Entry?, buckets: array<Entry?>, bucketCount: nat,
                   ghost entries: set<Entry>, ghost chains: seq<seq<Entry>>)
      returns (ghost chains': seq<seq<Entry>>)
    requires Table(buckets, bucketCount, entries, chains)
    requires Linked(head, chain) && NoDuplicates(chain) && forall e :: e in chain ==> e !in entries
    modifies buckets, set e | e in chain
    ensures Table(buckets, bucketCount, entries + (set e | e in chain), chains')
    ensures forall e :: e in chain ==> e.value == old(e.value)
  {
    hide Table, NoDuplicates, Linked, After;
    ChainNexts(head, chain);
    chains' := chains;
    ghost var k := 0;
    ghost var moved := entries;
    var entry := head;
    assert chain[..0] == [];
    while entry != null
      invariant 0 <= k <= |chain| && entry == if k < |chain| then chain[k] else null
      invariant forall j :: 0 <= j < |chain| ==> chain[j].value == old(chain[j].value)
      invariant forall j :: k <= j < |chain| ==> chain[j].next == After(chain, j)
      invariant moved == entries + set e | e in chain[..k]
      invariant Table(buckets, bucketCount, moved, chains')
      decreases |chain| - k
    {
      var next := entry.next;
      NotBefore(chain, k);
      chains' := PushFront(buckets, bucketCount, moved, chains', entry);
      moved := moved + {entry};
      entry := next;
      k := k + 1;
    }
    assert chain[..k] == chain;
  }

  lemma ChainNexts(head: Entry?, chain: seq<Entry>)
    requires Linked(head, chain)
    ensures head == (if chain == [] then null else chain[0])
    ensures forall j :: 0 <= j < |chain| ==> chain[j].next == After(chain, j)
  {
  }

  lemma NotBefore(chain: seq<Entry>, k: nat)
    requires NoDuplicates(chain) && k < |chain|
    ensures chain[k] !in chain[..k] && forall j :: k < j < |chain| ==> chain[j] != chain[k]
    ensures After(chain, k) == if k + 1 < |chain| then chain[k + 1] else null
    ensures var more, less := chain[..k + 1], chain[..k];
            (set e | e in more) == (set e | e in less) + {chain[k]}
  {
    assert chain[..k + 1] == chain[..k] + [chain[k]];
  }

  lemma LinkedInFront(e: Entry, chain: seq<Entry>)
    requires Linked(e.next, chain)
    ensures Linked(e, [e] + chain)
  {
  }

  lemma OneMoreInFront(chain: seq<Entry>, e: Entry)
    requires NoDuplicates(chain) && e !in chain
    ensures NoDuplicates([e] + chain)
  {
  }

  /** The bucket count after an insertion: doubled when the new size exceeds 3/4 of it. */
  function GrownCount(bucketCount: nat, oldSize: nat, size: nat, callocOk: bool): nat {
    if oldSize < size && size > bucketCount * 3 / 4 && callocOk then 2 * bucketCount else bucketCount
  }

  lemma OneShorter(chain: seq<Entry>, pos: nat)
    requires NoDuplicates(chain) && pos < |chain|
    ensures NoDuplicates(chain[..pos] + chain[pos + 1..])
    ensures forall x :: x in chain[..pos] + chain[pos + 1..] <==> x in chain && x != chain[pos]
  {
  }

  lemma OneLonger(chain: seq<Entry>, e: Entry)
    requires NoDuplicates(chain) && e !in chain
    ensures NoDuplicates(chain + [e])
  {
  }

  lemma DoublePower(n: nat)
    requires PowerOfTwo(n)
    ensures PowerOfTwo(n * 2)
  {
  }

  // --- whole runs -----------------------------------------------------------------------------

  /** One call, with the outcome of the allocations it may make. */
  datatype Op =
    | PutOp(key: Ptr, value: Ptr, mallocOk: bool, callocOk: bool)
    | GetOp(key: Ptr)
    | ContainsOp(key: Ptr)
    | MemoizeOp(key: Ptr, initial: Ptr, mallocOk: bool, callocOk: bool)
    | RemoveOp(key: Ptr)

  /** The finite map after a call. */
  ghost function MapAfter(cb: Callbacks, m: map<Ptr, Ptr>, op: Op): map<Ptr, Ptr> {
    match op
    case PutOp(key, value, mallocOk, _) => if mallocOk || Has(cb, m, key) then PutIn(cb, m, key, value) else m
    case MemoizeOp(key, initial, mallocOk, _) => if mallocOk && !Has(cb, m, key) then PutIn(cb, m, key, initial) else m
    case RemoveOp(key) => RemoveFrom(cb, m, key)
    case _ => m
  }

  /** What a call on the finite map returns. */
  ghost function Answer(cb: Callbacks, m: map<Ptr, Ptr>, op: Op): Ptr {
    match op
    case ContainsOp(key) => if Has(cb, m, key) then 1 else 0
    case MemoizeOp(key, initial, mallocOk, _) =>
      if Has(cb, m, key) then Lookup(cb, m, key) else if mallocOk then initial else 0
    case _ => Lookup(cb, m, op.key)
  }

  ghost function MapAfterAll(cb: Callbacks, m: map<Ptr, Ptr>, ops: seq<Op>): map<Ptr, Ptr>
    decreases |ops|
  {
    if ops == [] then m else MapAfterAll(cb, MapAfter(cb, m, ops[0]), ops[1..])
  }

  ghost function Answers(cb: Callbacks, m: map<Ptr, Ptr>, ops: seq<Op>): seq<Ptr>
    decreases |ops|
  {
    if ops == [] then [] else [Answer(cb, m, ops[0])] + Answers(cb, MapAfter(cb, m, ops[0]), ops[1..])
  }

  /** The number of calls that may insert. */
  function Inserts(ops: seq<Op>): nat {
    if ops == [] then 0 else (if ops[0].PutOp? || ops[0].MemoizeOp? then 1 else 0) + Inserts(ops[1..])
  }

  predicate Allocates(op: Op) {
    (op.PutOp? || op.MemoizeOp?) ==> op.callocOk
  }

  method Perform(h: Hashmap, op: Op) returns (answer: Ptr)
    requires h.Valid()
    modifies h, h.buckets, h.entries
    ensures h.Valid() && fresh(h.entries - old(h.entries)) && (h.buckets == old(h.buckets) || fresh(h.buckets))
    ensures h.M == MapAfter(h.cb, old(h.M), op) && answer == Answer(h.cb, old(h.M), op)
    ensures Allocates(op) && old(h.size <= h.bucketCount * 3 / 4) ==> h.size <= h.bucketCount * 3 / 4
    ensures h.size <= old(h.size) + (if op.PutOp? || op.MemoizeOp? then 1 else 0)
    ensures h.size <= old(h.bucketCount) * 3 / 4 ==> h.bucketCount == old(h.bucketCount) && h.buckets == old(h.buckets)
  {
    hide h.cb.Lawful, Has, Lookup, PutIn, RemoveFrom, GrownCount, Distinct, h.Valid;
    ghost var m := h.M;
    ValidFacts(h);
    ghost var buckets := h.bucketCount;
    match op {
      case PutOp(key, value, mallocOk, callocOk) =>
        answer := h.Put(key, value, mallocOk, callocOk);
        PutKeepsDistinct(h.cb, m, key, value);
      case GetOp(key) => answer := h.Get(key);
      case ContainsOp(key) =>
        var found := h.ContainsKey(key);
        answer := if found then 1 else 0;
      case MemoizeOp(key, initial, mallocOk, callocOk) =>
        answer := h.Memoize(key, _ => initial, mallocOk, callocOk);
        PutKeepsDistinct(h.cb, m, key, initial);
      case RemoveOp(key) =>
        answer := h.Remove(key);
        RemoveThenLookup(h.cb, m, key, key);
    }
    ValidFacts(h);
    LoadStaysLow(buckets, |m|, h.size, Allocates(op));
    NoGrowthWithinLoad(buckets, |m|, h.size);
  }

  lemma ValidFacts(h: Hashmap)
    requires h.Valid()
    ensures h.bucketCount > 0 && h.size == |h.M| && h.cb.Lawful() && Distinct(h.cb, h.M)
  {
  }

  /** One more entry never overloads a table that grows when it should. */
  lemma LoadStaysLow(bucketCount: nat, oldSize: nat, size: nat, callocOk: bool)
    requires bucketCount > 0 && size <= oldSize + 1
    ensures callocOk && oldSize <= bucketCount * 3 / 4 ==>
              size <= GrownCount(bucketCount, oldSize, size, callocOk) * 3 / 4
  {
  }

  lemma NoGrowthWithinLoad(bucketCount: nat, oldSize: nat, size: nat)
    ensures size <= bucketCount * 3 / 4 ==>
              forall callocOk :: GrownCount(bucketCount, oldSize, size, callocOk) == bucketCount
  {
  }

  /** Every run of calls behaves as on the finite map, keeps the load at 3/4 while allocation succeeds, and does
      not rehash while even with all its insertions the load would stay at 3/4. */
  method Run(h: Hashmap, ops: seq<Op>) returns (answers: seq<Ptr>)
    requires h.Valid()
    modifies h, h.buckets, h.entries
    ensures h.Valid() && h.M == MapAfterAll(h.cb, old(h.M), ops) && answers == Answers(h.cb, old(h.M), ops)
    ensures (forall op :: op in ops ==> Allocates(op)) && old(h.size <= h.bucketCount * 3 / 4) ==>
              h.size <= h.bucketCount * 3 / 4
    ensures old(h.size) + Inserts(ops) <= old(h.bucketCount) * 3 / 4 ==>
              h.bucketCount == old(h.bucketCount) && h.buckets == old(h.buckets)
  {
    hide h.Valid, MapAfter, Answer, Allocates;
    answers := [];
    assert ops[0..] == ops;
    for i := 0 to |ops|
      invariant h.Valid() && fresh(h.entries - old(h.entries)) && (h.buckets == old(h.buckets) || fresh(h.buckets))
      invariant MapAfterAll(h.cb, h.M, ops[i..]) == MapAfterAll(h.cb, old(h.M), ops)
      invariant answers + Answers(h.cb, h.M, ops[i..]) == Answers(h.cb, old(h.M), ops)
      invariant (forall op :: op in ops ==> Allocates(op)) && old(h.size <= h.bucketCount * 3 / 4) ==>
                  h.size <= h.bucketCount * 3 / 4
      invariant h.size + Inserts(ops[i..]) <= old(h.size) + Inserts(ops)
      invariant old(h.size) + Inserts(ops) <= old(h.bucketCount) * 3 / 4 ==>
                  h.bucketCount == old(h.bucketCount) && h.buckets == old(h.buckets)
    {
      assert ops[i..][1..] == ops[i + 1..];
      var answer := Perform(h, ops[i]);
      answers := answers + [answer];
    }
  }

  /** A capacity leaves that room in the table it is created with. */
  lemma CapacityFits(initialCapacity: nat, bucketCount: nat)
    requires bucketCount > initialCapacity * 4 / 3
    ensures initialCapacity <= bucketCount * 3 / 4
  {
  }

  /** A new map behaves as the empty finite map does, and the first initialCapacity insertions never rehash: the
      table stays the smallest power of two it was created with. */
  method RunNew(initialCapacity: nat, cb: Callbacks, ops: seq<Op>) returns (h: Hashmap, answers: seq<Ptr>)
    requires cb.Lawful()
    ensures h.Valid() && fresh(h) && h.M == MapAfterAll(cb, map[], ops) && answers == Answers(cb, map[], ops)
    ensures Inserts(ops) <= initialCapacity ==>
              && h.bucketCount > initialCapacity * 4 / 3
              && (h.bucketCount == 1 || h.bucketCount / 2 <= initialCapacity * 4 / 3)
  {
    hide cb.Lawful, h.Valid;
    h := new Hashmap(initialCapacity, cb);
    ValidFacts(h);
    CapacityFits(initialCapacity, h.bucketCount);
    answers := Run(h, ops);
  }
}
