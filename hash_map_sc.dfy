/**
 * The separate-chaining hash map: a table of buckets, each a chain of
 * (key, value) pairs, where a key lives in the bucket `hash(key) % capacity`.
 * The chains stand for the linked lists of the source; the map's meaning is
 * `Contents()`, the map its buckets spell out.  A stored value may be None,
 * as a Python value may be None.
 */
module SeparateChaining {
  import opened Common
  import opened Primes
  import opened Chains

  class HashMap<K(==), V> {
    const hash: K -> nat
    var buckets: seq<seq<(K, Option<V>)>>
    var size: nat
    var capacity: nat

    /** The bucket of key k. */
    function Home(k: K): nat
      reads this
      requires capacity > 0
    {
      hash(k) % capacity
    }

    /** The map's invariant.  `capacity` is prime; the storage has
        `capacity` buckets, except that a table resized to capacity 2 keeps
        the 3 buckets its constructor allocated, the third of which stays
        empty; every pair sits in the bucket of its key and no key appears
        twice in a chain; `size` is the total chain length (which is also
        the number of keys, by `KeyCount`) and at most `capacity`. */
    ghost predicate Valid()
      reads this
    {
      && Prime(capacity)
      && (|buckets| == capacity || (capacity == 2 && |buckets| == 3 && buckets[2] == []))
      && Chained(buckets, hash, capacity)
      && size == TotalLength(buckets) && size <= capacity
    }

    /** The key-value map the buckets hold. */
    ghost function Contents(): map<K, Option<V>>
      reads this
    {
      BucketsMap(buckets)
    }

    /** A new, empty map whose capacity is the requested one rounded up to
        the next odd prime. */
    constructor (requested: nat, hash: K -> nat)
      ensures Valid() && this.hash == hash && size == 0 && Contents() == map[]
      ensures IsNextPrime(requested, capacity) && |buckets| == capacity
      ensures forall i :: 0 <= i < |buckets| ==> buckets[i] == []
    {
      var c := NextPrime(requested);
      this.hash := hash;
      capacity := c;
      buckets := seq(c, _ => []);
      size := 0;
      new;
      AllEmpty(buckets);
    }

    /** `get`: the value stored for key, or None when key is absent. */
    method Get(key: K) returns (r: Option<V>)
      requires Valid()
      ensures key in Contents() ==> r == Contents()[key]
      ensures key !in Contents() ==> r == None
    {
      var chain := buckets[hash(key) % capacity];
      var node := ChainFind(chain, key);
      Lookup(buckets, hash, capacity, key);
      if node.Some? {
        r := chain[node.value].1;
      } else {
        r := None;
      }
    }

    /** `contains_key`: whether key has a node in its bucket, even when the
        value stored there is None. */
    method ContainsKey(key: K) returns (r: bool)
      requires Valid()
      ensures r <==> key in Contents()
    {
      var chain := buckets[hash(key) % capacity];
      Lookup(buckets, hash, capacity, key);
      r := ChainFind(chain, key).Some?;
    }

    /** `put`: when the load factor is at least 1, first rebuild at twice
        the capacity; then overwrite the value of key's node, or add a node
        for key when there is none. */
    method Put(key: K, value: Option<V>)
      requires Valid()
      modifies this
      decreases size, 5
      ensures Valid()
      ensures Contents() == old(Contents())[key := value]
      ensures size == old(size) + (if key in old(Contents()) then 0 else 1)
      ensures !LoadAtLeast(old(size), old(capacity), 1, 1) ==> capacity == old(capacity)
      ensures LoadAtLeast(old(size), old(capacity), 1, 1) ==> IsNextPrime(2 * old(capacity), capacity)
    {
      if LoadAtLeast(size, capacity, 1, 1) {
        ResizeTable(capacity * 2);
      }
      var h := hash(key) % capacity;
      var chain := buckets[h];
      var node := ChainFind(chain, key);
      if node.Some? {
        SetValue(h, node.value, value);
      } else {
        InsertNode(h, key, value);
      }
    }

    /** The node at position j of bucket h takes value. */
    method SetValue(h: nat, j: nat, value: Option<V>)
      requires Valid() && h < capacity && j < |buckets[h]|
      modifies this
      ensures Valid() && capacity == old(capacity) && size == old(size)
      ensures old(buckets)[h][j].0 in old(Contents())
      ensures Contents() == old(Contents())[old(buckets)[h][j].0 := value]
    {
      var chain := buckets[h][j := (buckets[h][j].0, value)];
      TotalLengthUpdate(buckets, h, chain);
      SetValueKeeps(buckets, hash, capacity, h, j, value);
      buckets := buckets[h := chain];
    }

    /** A node for key, which its bucket h lacks, is added at the head of
        the chain. */
    method InsertNode(h: nat, key: K, value: Option<V>)
      requires Valid() && h == Home(key)
      requires !InChain(buckets[h], key) && size < capacity
      modifies this
      ensures Valid() && capacity == old(capacity) && size == old(size) + 1
      ensures key !in old(Contents()) && Contents() == old(Contents())[key := value]
    {
      var chain := [(key, value)] + buckets[h];
      TotalLengthUpdate(buckets, h, chain);
      InsertKeeps(buckets, hash, capacity, key, value);
      buckets := buckets[h := chain];
      size := size + 1;
    }

    /** `resize_table`: a request below 1 is ignored; otherwise the
        capacity becomes the request rounded up to the next odd prime (a
        request of exactly 2 is kept as 2), and every node is put, bucket by
        bucket, into a fresh map that then replaces the storage. */
    method ResizeTable(newCapacity: int)
      requires Valid()
      modifies this
      decreases size, 4
      ensures Valid()
      ensures Contents() == old(Contents()) && size == old(size)
      ensures newCapacity < 1 ==> buckets == old(buckets) && capacity == old(capacity)
      ensures newCapacity >= 1 ==> capacity >= newCapacity
      ensures 1 <= newCapacity && old(size) <= newCapacity ==>
        if newCapacity == 2 then capacity == 2 else IsNextPrime(newCapacity, capacity)
    {
      if newCapacity < 1 {
        return;
      }
      var table := Rehash(newCapacity);
      capacity := table.capacity;
      buckets := table.buckets;
      size := table.size;
    }

    /** The body of `resize_table` for a request of at least 1: a fresh map
        of the rounded-up capacity holding every node of this one. */
    method Rehash(newCapacity: nat) returns (table: HashMap<K, V>)
      requires Valid() && newCapacity >= 1
      decreases size, 3
      ensures fresh(table) && table.Valid() && table.hash == hash
      ensures table.Contents() == Contents() && table.size == size
      ensures table.capacity >= newCapacity
      ensures size <= newCapacity ==>
        if newCapacity == 2 then table.capacity == 2 else IsNextPrime(newCapacity, table.capacity)
    {
      var requested: nat := newCapacity;
      var isPrime := IsPrime(requested);
      if !isPrime {
        requested := NextPrime(requested);
      }
      table := new HashMap(requested, hash);
      if requested == 2 {
        NextPrimeOfTwo();
        NextPrimeUnique(2, 3, table.capacity);
        table.capacity := 2;
      } else {
        if isPrime {
          PrimeAboveTwoIsOdd(requested);
        }
        NextPrimeOfOddPrime(requested);
        NextPrimeUnique(requested, requested, table.capacity);
      }
      assert requested == 2 <==> newCapacity == 2;
      assert newCapacity != 2 ==> IsNextPrime(newCapacity, table.capacity);
      CopyInto(table, buckets, capacity);
    }

    /** The loops of `resize_table`: every node of the buckets b of this
        map, bucket by bucket, is put into the empty map table.  table grows
        only if it is too small for all of them. */
    method CopyInto(table: HashMap<K, V>, b: seq<seq<(K, Option<V>)>>, cap: nat)
      requires Chained(b, hash, cap) && cap <= |b|
      requires (forall i :: cap <= i < |b| ==> b[i] == []) && size == TotalLength(b)
      requires table != this && table.Valid() && table.hash == hash
      requires table.Contents() == map[] && table.size == 0
      modifies table
      decreases size, 2
      ensures table.Valid() && table.hash == hash
      ensures table.Contents() == BucketsMap(b) && table.size == size
      ensures table.capacity >= old(table.capacity)
      ensures size <= old(table.capacity) ==> table.capacity == old(table.capacity)
    {
      ghost var c0 := table.capacity;
      assert b[..0] == [];
      var x := 0;
      while x < cap
        invariant 0 <= x <= cap
        invariant table.Valid() && table.hash == hash
        invariant table.Contents() == BucketsMap(b[..x])
        invariant table.size == TotalLength(b[..x])
        invariant table.capacity >= c0
        invariant size <= c0 ==> table.capacity == c0
        modifies table
      {
        CopyBucket(table, b, cap, x);
        x := x + 1;
      }
      BucketsMapEmptyTail(b, cap);
      TotalLengthPrefix(b, cap);
    }

    /** One step of the outer loop of `resize_table`: the nodes of bucket
        x of b join those of the buckets before it in table. */
    method CopyBucket(table: HashMap<K, V>, b: seq<seq<(K, Option<V>)>>, cap: nat, x: nat)
      requires Chained(b, hash, cap) && cap <= |b| && size == TotalLength(b)
      requires table != this && table.Valid() && table.hash == hash && x < cap
      requires table.Contents() == BucketsMap(b[..x]) && table.size == TotalLength(b[..x])
      modifies table
      decreases size, 1
      ensures table.Valid() && table.hash == hash
      ensures table.Contents() == BucketsMap(b[..x + 1]) && table.size == TotalLength(b[..x + 1])
      ensures table.capacity >= old(table.capacity)
      ensures size <= old(table.capacity) ==> table.capacity == old(table.capacity)
    {
      TotalLengthPrefix(b, x + 1);
      PrefixStep(b, x);
      BucketReady(b, hash, cap, x);
      if |b[x]| > 0 {
        PutChain(table, b[x]);
      } else {
        assert BucketsMap(b[..x]) + map[] == BucketsMap(b[..x]);
      }
    }

    /** The inner loop of `resize_table`: every pair of chain, whose keys
        are distinct and new to table, is put into table in chain order. */
    method PutChain(table: HashMap<K, V>, chain: seq<(K, Option<V>)>)
      requires table != this && table.Valid() && table.hash == hash
      requires table.size + |chain| <= size
      requires forall j1, j2 :: 0 <= j1 < j2 < |chain| ==> chain[j1].0 != chain[j2].0
      requires forall j :: 0 <= j < |chain| ==> chain[j].0 !in table.Contents()
      modifies table
      decreases size, 0
      ensures table.Valid() && table.hash == hash
      ensures table.Contents() == old(table.Contents()) + ChainMap(chain)
      ensures table.size == old(table.size) + |chain|
      ensures table.capacity >= old(table.capacity)
      ensures old(table.size) + |chain| <= old(table.capacity) ==> table.capacity == old(table.capacity)
    {
      ghost var start := table.Contents();
      ghost var startSize := table.size;
      ghost var startCapacity := table.capacity;
      assert chain[..0] == [];
      assert start + map[] == start;
      var y := 0;
      while y < |chain|
        invariant 0 <= y <= |chain|
        invariant table.Valid() && table.hash == hash
        invariant table.Contents() == start + ChainMap(chain[..y])
        invariant table.size == startSize + y
        invariant table.capacity >= startCapacity
        invariant startSize + |chain| <= startCapacity ==> table.capacity == startCapacity
      {
        ChainMapExtend(start, chain, y);
        table.Put(chain[y].0, chain[y].1);
        y := y + 1;
      }
      assert chain[..y] == chain;
    }

    /** `remove`: the node for key, if any, leaves its bucket. */
    method Remove(key: K)
      requires Valid()
      modifies this
      ensures Valid() && capacity == old(capacity)
      ensures Contents() == old(Contents()) - {key}
      ensures size == old(size) - (if key in old(Contents()) then 1 else 0)
    {
      var h := hash(key) % capacity;
      var chain := buckets[h];
      var node := ChainFind(chain, key);
      if node.Some? {
        UnlinkNode(h, node.value);
      } else {
        Lookup(buckets, hash, capacity, key);
        assert Contents() - {key} == Contents();
      }
    }

    /** The node at position j of bucket h leaves its chain. */
    method UnlinkNode(h: nat, j: nat)
      requires Valid() && h < capacity && j < |buckets[h]|
      modifies this
      ensures Valid() && capacity == old(capacity) && size == old(size) - 1
      ensures old(buckets)[h][j].0 in old(Contents())
      ensures Contents() == old(Contents()) - {old(buckets)[h][j].0}
    {
      var rest := buckets[h][..j] + buckets[h][j + 1..];
      TotalLengthUpdate(buckets, h, rest);
      RemoveKeeps(buckets, hash, capacity, h, j);
      buckets := buckets[h := rest];
      size := size - 1;
    }

    /** `clear`: `capacity` empty buckets, nothing stored. */
    method Clear()
      requires Valid()
      modifies this
      ensures Valid() && capacity == old(capacity) && size == 0 && Contents() == map[]
      ensures |buckets| == capacity && forall i :: 0 <= i < |buckets| ==> buckets[i] == []
    {
      buckets := seq(capacity, _ => []);
      size := 0;
      AllEmpty(buckets);
    }

    /** `empty_buckets`: the number of the first `capacity` buckets whose
        chain is empty; all of them exactly when nothing is stored. */
    method EmptyBuckets() returns (r: nat)
      requires Valid()
      ensures capacity - size <= r <= capacity
      ensures r == capacity <==> size == 0
    {
      r := 0;
      var x := 0;
      while x < capacity
        invariant 0 <= x <= capacity
        invariant r <= x && r + TotalLength(buckets[..x]) >= x
        invariant r == x <==> TotalLength(buckets[..x]) == 0
      {
        assert buckets[..x + 1][..x] == buckets[..x];
        if |buckets[x]| == 0 {
          r := r + 1;
        }
        x := x + 1;
      }
      TotalLengthPrefix(buckets, capacity);
    }

    /** `get_keys_and_values`: every pair of every bucket, bucket by
        bucket.  The listing holds `size` pairs, each agreeing with the map,
        no key twice, and every key of the map. */
    method GetKeysAndValues() returns (kv: seq<(K, Option<V>)>)
      requires Valid()
      ensures |kv| == size
      ensures forall i :: 0 <= i < |kv| ==> kv[i].0 in Contents() && Contents()[kv[i].0] == kv[i].1
      ensures forall i1, i2 :: 0 <= i1 < i2 < |kv| ==> kv[i1].0 != kv[i2].0
      ensures forall k :: k in Contents() ==> InChain(kv, k)
      ensures kv == Flatten(buckets)
    {
      kv := [];
      assert buckets[..0] == [];
      var x := 0;
      while x < |buckets|
        invariant 0 <= x <= |buckets|
        invariant kv == Flatten(buckets[..x])
      {
        var bucket := buckets[x];
        assert buckets[..x + 1][..x] == buckets[..x];
        var y := 0;
        while y < |bucket|
          invariant 0 <= y <= |bucket|
          invariant kv == Flatten(buckets[..x]) + bucket[..y]
        {
          assert bucket[..y + 1] == bucket[..y] + [bucket[y]];
          kv := kv + [bucket[y]];
          y := y + 1;
        }
        assert bucket[..y] == bucket;
        x := x + 1;
      }
      assert buckets[..x] == buckets;
      FlattenLists(buckets, hash, capacity);
    }
  }

  /** After `put(k, v)`, `get(k)` answers v and the load factor is at
      most 1. */
  method PutThenGet<K(==), V>(m: HashMap<K, V>, key: K, value: Option<V>) returns (r: Option<V>)
    requires m.Valid()
    modifies m
    ensures m.Valid() && r == value && m.size <= m.capacity
  {
    m.Put(key, value);
    r := m.Get(key);
  }

  /** After `remove(k)`, `contains_key(k)` is false and every other key
      keeps its value. */
  method RemoveThenContains<K(==), V>(m: HashMap<K, V>, key: K) returns (r: bool)
    requires m.Valid()
    modifies m
    ensures m.Valid() && !r
    ensures forall k :: k != key && k in old(m.Contents()) ==> k in m.Contents() && m.Contents()[k] == old(m.Contents())[k]
  {
    m.Remove(key);
    r := m.ContainsKey(key);
  }
}
