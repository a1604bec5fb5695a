/**
 * The open-addressing hash map: a table of slots searched by quadratic
 * probing, with deletion by tombstone.
 *
 * A slot is `Empty` (never written) or holds an entry whose `tombstone`
 * flag marks it as deleted.  The map's `size` counts the live entries, that
 * is the entries that are not tombstones.
 */
module OpenAddressing {
  import opened Common
  import opened Primes

  datatype Slot<K, V> = Empty | Entry(key: K, value: Option<V>, tombstone: bool)

  predicate IsLive<K, V>(s: Slot<K, V>)
  {
    s.Entry? && !s.tombstone
  }

  predicate IsLiveKey<K(==), V>(s: Slot<K, V>, k: K)
  {
    IsLive(s) && s.key == k
  }

  /** Number of live entries in b. */
  function LiveCount<K, V>(b: seq<Slot<K, V>>): (n: nat)
    ensures n <= |b|
  {
    if b == [] then 0
    else LiveCount(b[..|b| - 1]) + (if IsLive(b[|b| - 1]) then 1 else 0)
  }

  /** The live (key, value) pairs of b in increasing slot index. */
  function LivePairs<K, V>(b: seq<Slot<K, V>>): (r: seq<(K, Option<V>)>)
    ensures |r| == LiveCount(b)
  {
    if b == [] then []
    else
      var last := b[|b| - 1];
      LivePairs(b[..|b| - 1]) + (if IsLive(last) then [(last.key, last.value)] else [])
  }

  /** The keys that have a live entry in b. */
  ghost function LiveKeys<K, V>(b: seq<Slot<K, V>>): set<K>
  {
    set i | 0 <= i < |b| && IsLive(b[i]) :: b[i].key
  }

  /** Slot i holds the first live entry for key k in slot order. */
  ghost predicate FirstLiveAt<K, V>(b: seq<Slot<K, V>>, k: K, i: int)
  {
    0 <= i < |b| && IsLiveKey(b[i], k) && forall j :: 0 <= j < i ==> !IsLiveKey(b[j], k)
  }

  /** No slot of b is a tombstone. */
  ghost predicate NoTombstones<K, V>(b: seq<Slot<K, V>>)
  {
    forall i :: 0 <= i < |b| ==> !(b[i].Entry? && b[i].tombstone)
  }

  /** b with every live entry for k turned into a tombstone. */
  ghost function Tombstoned<K, V>(b: seq<Slot<K, V>>, k: K): (r: seq<Slot<K, V>>)
    ensures |r| == |b|
  {
    seq(|b|, i requires 0 <= i < |b| =>
      if IsLiveKey(b[i], k) then b[i].(tombstone := true) else b[i])
  }

  // ---------------------------------------------------------------------
  // Quadratic probing
  // ---------------------------------------------------------------------

  /** The i-th slot probed for a key whose home slot is h0. */
  function Probe(h0: nat, i: nat, capacity: nat): (r: nat)
    requires capacity > 0
    ensures r < capacity
  {
    (h0 + i * i) % capacity
  }

  /** The probe loop stops at a slot that is empty, a tombstone, or holds k. */
  predicate Stops<K(==), V>(s: Slot<K, V>, k: K)
  {
    s.Empty? || s.tombstone || s.key == k
  }

  /** The probe for k from h0 first stops at its i-th step. */
  ghost predicate FirstStop<K, V>(b: seq<Slot<K, V>>, capacity: nat, h0: nat, k: K, i: nat)
    requires 0 < capacity <= |b|
  {
    && i < capacity && Stops(b[Probe(h0, i, capacity)], k)
    && forall j :: 0 <= j < i ==> !Stops(b[Probe(h0, j, capacity)], k)
  }

  /** The probe sequence repeats with period `capacity`, so a probe that has
      not stopped within `capacity` steps never stops. */
  lemma {:induction false} ProbeRepeats(h0: nat, i: nat, capacity: nat)
    requires capacity > 0
    ensures Probe(h0, i, capacity) == Probe(h0, i % capacity, capacity)
    decreases i
  {
    if i >= capacity {
      var j := i - capacity;
      var x := h0 + j * j;
      assert h0 + i * i == x + capacity * (2 * j + capacity);
      ModUnique(x, capacity, x / capacity, x % capacity);
      ModUnique(h0 + i * i, capacity, x / capacity + 2 * j + capacity, x % capacity);
      ModUnique(i, capacity, j / capacity + 1, j % capacity);
      ProbeRepeats(h0, j, capacity);
    } else {
      ModUnique(i, capacity, 0, i);
    }
  }

  /** A probe that does not stop within its first `capacity` steps never
      stops. */
  lemma NeverStops<K, V>(b: seq<Slot<K, V>>, capacity: nat, h0: nat, k: K)
    requires 0 < capacity <= |b|
    requires forall j :: 0 <= j < capacity ==> !Stops(b[Probe(h0, j, capacity)], k)
    ensures forall j: nat :: !Stops(b[Probe(h0, j, capacity)], k)
  {
    forall j: nat
      ensures !Stops(b[Probe(h0, j, capacity)], k)
    {
      ProbeRepeats(h0, j, capacity);
      var r := j % capacity;
      assert !Stops(b[Probe(h0, r, capacity)], k);
    }
  }

  // ---------------------------------------------------------------------
  // Lemmas about the slot functions
  // ---------------------------------------------------------------------

  lemma {:induction false} LiveCountUpdate<K, V>(b: seq<Slot<K, V>>, i: int, s: Slot<K, V>)
    requires 0 <= i < |b|
    ensures LiveCount(b[i := s]) ==
      LiveCount(b) - (if IsLive(b[i]) then 1 else 0) + (if IsLive(s) then 1 else 0)
    decreases |b|
  {
    var n := |b| - 1;
    if i < n {
      assert b[i := s][..n] == b[..n][i := s];
      LiveCountUpdate(b[..n], i, s);
    } else {
      assert b[i := s][..n] == b[..n];
    }
  }

  /** Slots beyond the first c that are all empty hold no live entry. */
  lemma {:induction false} LiveCountPrefix<K, V>(b: seq<Slot<K, V>>, c: nat)
    requires c <= |b|
    requires forall i :: c <= i < |b| ==> b[i].Empty?
    ensures LiveCount(b[..c]) == LiveCount(b)
    decreases |b|
  {
    if c < |b| {
      LiveCountPrefix(b[..|b| - 1], c);
      assert b[..|b| - 1][..c] == b[..c];
    } else {
      assert b[..c] == b;
    }
  }

  lemma {:induction false} LiveCountEmpty<K, V>(b: seq<Slot<K, V>>)
    requires forall i :: 0 <= i < |b| ==> b[i].Empty?
    ensures LiveCount(b) == 0
    decreases |b|
  {
    if b != [] {
      LiveCountEmpty(b[..|b| - 1]);
    }
  }

  /** A listed pair comes from a live slot. */
  lemma {:induction false} LivePairsWitness<K, V>(b: seq<Slot<K, V>>, p: (K, Option<V>)) returns (i: nat)
    requires p in LivePairs(b)
    ensures i < |b| && IsLive(b[i]) && (b[i].key, b[i].value) == p
    decreases |b|
  {
    var n := |b| - 1;
    if p in LivePairs(b[..n]) {
      i := LivePairsWitness(b[..n], p);
      assert b[..n][i] == b[i];
    } else {
      i := n;
    }
  }

  /** The entry of every live slot is listed. */
  lemma {:induction false} LivePairsAt<K, V>(b: seq<Slot<K, V>>, i: nat)
    requires i < |b| && IsLive(b[i])
    ensures (b[i].key, b[i].value) in LivePairs(b)
    decreases |b|
  {
    var n := |b| - 1;
    if i < n {
      LivePairsAt(b[..n], i);
      assert b[..n][i] == b[i];
    }
  }

  /** The pairs listed are exactly the live entries. */
  lemma LivePairsMembers<K, V>(b: seq<Slot<K, V>>, p: (K, Option<V>))
    ensures p in LivePairs(b) <==>
      exists i :: 0 <= i < |b| && IsLive(b[i]) && (b[i].key, b[i].value) == p
  {
    if p in LivePairs(b) {
      var i := LivePairsWitness(b, p);
    }
    forall i | 0 <= i < |b| && IsLive(b[i]) && (b[i].key, b[i].value) == p
      ensures p in LivePairs(b)
    {
      LivePairsAt(b, i);
    }
  }

  /** The keys of a sequence of pairs. */
  ghost function KeysOf<K, V>(ps: seq<(K, V)>): set<K>
  {
    set p | p in ps :: p.0
  }

  lemma LivePairsKeys<K, V>(b: seq<Slot<K, V>>)
    ensures KeysOf(LivePairs(b)) == LiveKeys(b)
  {
    forall k | k in LiveKeys(b)
      ensures k in KeysOf(LivePairs(b))
    {
      var i :| 0 <= i < |b| && IsLive(b[i]) && b[i].key == k;
      LivePairsMembers(b, (k, b[i].value));
    }
    forall k | k in KeysOf(LivePairs(b))
      ensures k in LiveKeys(b)
    {
      var p :| p in LivePairs(b) && p.0 == k;
      LivePairsMembers(b, p);
    }
  }

  /** The (key, value) pairs of the live entries of b, as a set. */
  ghost function LivePairSet<K, V>(b: seq<Slot<K, V>>): set<(K, Option<V>)>
  {
    set i | 0 <= i < |b| && IsLive(b[i]) :: (b[i].key, b[i].value)
  }

  /** The pairs of a listing, as a set. */
  ghost function PairsOf<K, V>(ps: seq<(K, V)>): set<(K, V)>
  {
    set p | p in ps
  }

  /** The listing of the live pairs holds exactly the pairs of the set. */
  lemma LivePairsSet<K, V>(b: seq<Slot<K, V>>)
    ensures PairsOf(LivePairs(b)) == LivePairSet(b)
  {
    forall p: (K, Option<V>)
      ensures p in PairsOf(LivePairs(b)) <==> p in LivePairSet(b)
    {
      LivePairsMembers(b, p);
      if p in LivePairs(b) {
        var i :| 0 <= i < |b| && IsLive(b[i]) && (b[i].key, b[i].value) == p;
        assert (b[i].key, b[i].value) in LivePairSet(b);
      }
    }
    assert PairsOf(LivePairs(b)) == LivePairSet(b);
  }

  /** Writing a live entry into one slot brings in its own pair and no
      other. */
  lemma LivePairSetWrite<K, V>(b: seq<Slot<K, V>>, s: int, k: K, v: Option<V>)
    requires 0 <= s < |b|
    ensures LivePairSet(b[s := Entry(k, v, false)]) <= LivePairSet(b) + {(k, v)}
  {
    var c := b[s := Entry(k, v, false)];
    forall p | p in LivePairSet(c)
      ensures p in LivePairSet(b) + {(k, v)}
    {
      var i :| 0 <= i < |c| && IsLive(c[i]) && (c[i].key, c[i].value) == p;
      if i != s {
        assert c[i] == b[i];
      }
    }
  }

  /** Storing a live entry for k where no live entry for another key was
      adds k to the live keys and removes none. */
  lemma LiveKeysStore<K, V>(b: seq<Slot<K, V>>, i: int, k: K, v: Option<V>)
    requires 0 <= i < |b| && (IsLive(b[i]) ==> b[i].key == k)
    ensures LiveKeys(b[i := Entry(k, v, false)]) == LiveKeys(b) + {k}
  {
    var b' := b[i := Entry(k, v, false)];
    forall x | x in LiveKeys(b)
      ensures x in LiveKeys(b')
    {
      var j :| 0 <= j < |b| && IsLive(b[j]) && b[j].key == x;
      if j != i {
        assert IsLive(b'[j]) && b'[j].key == x;
      } else {
        assert IsLive(b'[i]) && b'[i].key == x;
      }
    }
    assert IsLive(b'[i]) && b'[i].key == k;
  }

  lemma TombstonedKeys<K, V>(b: seq<Slot<K, V>>, k: K)
    ensures LiveKeys(Tombstoned(b, k)) == LiveKeys(b) - {k}
  {
    var t := Tombstoned(b, k);
    forall x | x in LiveKeys(b) - {k}
      ensures x in LiveKeys(t)
    {
      var j :| 0 <= j < |b| && IsLive(b[j]) && b[j].key == x;
      assert t[j] == b[j];
    }
  }

  /** Removing a key twice is the same as removing it once; removing an
      absent key changes nothing. */
  lemma TombstonedIdempotent<K, V>(b: seq<Slot<K, V>>, k: K)
    ensures Tombstoned(Tombstoned(b, k), k) == Tombstoned(b, k)
    ensures k !in LiveKeys(b) ==> Tombstoned(b, k) == b
  {
    if k !in LiveKeys(b) {
      forall i | 0 <= i < |b|
        ensures Tombstoned(b, k)[i] == b[i]
      {
        assert !IsLiveKey(b[i], k);
      }
    }
  }

  lemma KeysOfAppend<K, V>(ps: seq<(K, V)>, p: (K, V))
    ensures KeysOf(ps + [p]) == KeysOf(ps) + {p.0}
  {
    assert p in ps + [p];
    forall q | q in ps
      ensures q in ps + [p]
    {
    }
  }

  /** One more pair of a listing adds its key to the keys so far. */
  lemma KeysOfStep<K, V>(ps: seq<(K, V)>, i: nat)
    requires i < |ps|
    ensures KeysOf(ps[..i + 1]) == KeysOf(ps[..i]) + {ps[i].0}
  {
    assert ps[..i + 1] == ps[..i] + [ps[i]];
    KeysOfAppend(ps[..i], ps[i]);
  }

  /** One more pair of a listing adds it to the pairs so far. */
  lemma PairsOfStep<K, V>(ps: seq<(K, V)>, i: nat)
    requires i < |ps|
    ensures PairsOf(ps[..i + 1]) == PairsOf(ps[..i]) + {ps[i]}
  {
    assert ps[..i + 1] == ps[..i] + [ps[i]];
  }

  // ---------------------------------------------------------------------
  // The map
  // ---------------------------------------------------------------------

  class HashMap<K(==), V> {
    const hash: K -> nat
    var buckets: seq<Slot<K, V>>
    var size: nat
    var capacity: nat

    /** The map's invariant.  `capacity` is prime; the storage has
        `capacity` slots, except that a table resized to capacity 2 keeps the
        3 slots its constructor allocated, the third of which stays empty;
        `size` counts the live entries. */
    ghost predicate Valid()
      reads this
    {
      && Prime(capacity)
      && (|buckets| == capacity || (capacity == 2 && |buckets| == 3))
      && (forall i :: capacity <= i < |buckets| ==> buckets[i].Empty?)
      && size == LiveCount(buckets)
    }

    /** A new, empty map whose capacity is the requested one rounded up to
        the next odd prime. */
    constructor (requested: nat, hash: K -> nat)
      ensures Valid() && this.hash == hash && size == 0
      ensures IsNextPrime(requested, capacity) && |buckets| == capacity
      ensures forall i :: 0 <= i < |buckets| ==> buckets[i].Empty?
    {
      var c := NextPrime(requested);
      this.hash := hash;
      capacity := c;
      buckets := seq(c, _ => Empty);
      size := 0;
      new;
      LiveCountEmpty(buckets);
    }

    /** The iterator: a scan of the slots by index that yields every live
        entry, skipping empty slots and tombstones. */
    method Iterate() returns (items: seq<(K, Option<V>)>)
      requires Valid()
      ensures items == LivePairs(buckets)
      ensures |items| == size
    {
      items := [];
      var index := 0;
      while index < |buckets|
        invariant 0 <= index <= |buckets|
        invariant items == LivePairs(buckets[..index])
      {
        var s := buckets[index];
        assert buckets[..index + 1][..index] == buckets[..index];
        if IsLive(s) {
          items := items + [(s.key, s.value)];
        }
        index := index + 1;
      }
      assert buckets[..index] == buckets;
    }

    /** `get_keys_and_values`: the live (key, value) pairs in slot order. */
    method GetKeysAndValues() returns (kv: seq<(K, Option<V>)>)
      requires Valid()
      ensures kv == LivePairs(buckets) && |kv| == size
      ensures forall p :: p in kv <==>
        exists i :: 0 <= i < |buckets| && IsLive(buckets[i]) && (buckets[i].key, buckets[i].value) == p
    {
      kv := Iterate();
      forall p
        ensures p in kv <==>
          exists i :: 0 <= i < |buckets| && IsLive(buckets[i]) && (buckets[i].key, buckets[i].value) == p
      {
        LivePairsMembers(buckets, p);
      }
    }

    /** `get`: the value of the first live entry for key in slot order, or
        None when there is none. */
    method Get(key: K) returns (r: Option<V>)
      requires Valid()
      ensures key !in LiveKeys(buckets) ==> r == None
      ensures forall i :: FirstLiveAt(buckets, key, i) ==> r == buckets[i].value
    {
      var index := 0;
      while index < |buckets|
        invariant 0 <= index <= |buckets|
        invariant forall j :: 0 <= j < index ==> !IsLiveKey(buckets[j], key)
      {
        if IsLiveKey(buckets[index], key) {
          return buckets[index].value;
        }
        index := index + 1;
      }
      return None;
    }

    /** `contains_key`: whether `get` answers something other than None, so
        a key stored with the value None reads as absent. */
    method ContainsKey(key: K) returns (r: bool)
      requires Valid()
      ensures key !in LiveKeys(buckets) ==> !r
      ensures forall i :: FirstLiveAt(buckets, key, i) ==> (r <==> buckets[i].value.Some?)
    {
      var v := Get(key);
      r := v.Some?;
    }

    /** `remove`: every live entry for key becomes a tombstone, and size
        drops by one for each. */
    method Remove(key: K)
      requires Valid()
      modifies this
      ensures Valid() && capacity == old(capacity)
      ensures buckets == Tombstoned(old(buckets), key)
      ensures LiveKeys(buckets) == old(LiveKeys(buckets)) - {key}
      ensures key !in old(LiveKeys(buckets)) ==> buckets == old(buckets) && size == old(size)
      ensures key in old(LiveKeys(buckets)) ==> size < old(size)
    {
      ghost var b0 := buckets;
      var index := 0;
      while index < |buckets|
        invariant 0 <= index <= |buckets| == |b0|
        invariant forall j :: 0 <= j < index ==> buckets[j] == Tombstoned(b0, key)[j]
        invariant forall j :: index <= j < |buckets| ==> buckets[j] == b0[j]
        invariant size == LiveCount(buckets) && size <= old(size)
        invariant (exists j :: 0 <= j < index && IsLiveKey(b0[j], key)) ==> size < old(size)
        invariant capacity == old(capacity)
      {
        if IsLiveKey(buckets[index], key) {
          var dead := buckets[index].(tombstone := true);
          LiveCountUpdate(buckets, index, dead);
          buckets := buckets[index := dead];
          size := size - 1;
        }
        index := index + 1;
      }
      assert buckets == Tombstoned(b0, key);
      TombstonedKeys(b0, key);
      TombstonedIdempotent(b0, key);
      if key in LiveKeys(b0) {
        var j :| 0 <= j < |b0| && IsLive(b0[j]) && b0[j].key == key;
        assert IsLiveKey(b0[j], key);
      }
    }

    /** `clear`: a fresh storage of `capacity` empty slots. */
    method Clear()
      requires Valid()
      modifies this
      ensures Valid() && capacity == old(capacity) && size == 0
      ensures |buckets| == capacity && forall i :: 0 <= i < |buckets| ==> buckets[i].Empty?
      ensures LiveKeys(buckets) == {}
    {
      buckets := seq(capacity, _ => Empty);
      size := 0;
      LiveCountEmpty(buckets);
    }

    /** `empty_buckets`: the number of the first `capacity` slots that are
        empty or tombstones. */
    method EmptyBuckets() returns (r: nat)
      requires Valid()
      ensures r == capacity - size
    {
      r := 0;
      var index := 0;
      while index < capacity
        invariant 0 <= index <= capacity
        invariant r + LiveCount(buckets[..index]) == index
      {
        assert buckets[..index + 1][..index] == buckets[..index];
        if buckets[index].Empty? || buckets[index].tombstone {
          r := r + 1;
        }
        index := index + 1;
      }
      LiveCountPrefix(buckets, capacity);
    }

    /** The probe loop of `put`: probe h0, h0 + 1, h0 + 4, ... (mod
        capacity) from the key's home slot h0 until a slot is empty, a
        tombstone, or holds the key.  found is false exactly when no probe
        step ever stops, where the source loops forever; otherwise i is the
        first step that stops. */
    method FindStop(key: K) returns (found: bool, i: nat)
      requires Valid()
      ensures found ==> FirstStop(buckets, capacity, hash(key) % capacity, key, i)
      ensures !found ==> forall j: nat ::
        !Stops(buckets[Probe(hash(key) % capacity, j, capacity)], key)
    {
      var h0 := hash(key) % capacity;
      var slot := Probe(h0, 0, capacity);
      var count := 1;
      if buckets[slot].Empty? {
        return true, 0;
      }
      while buckets[slot].Entry?
        invariant 1 <= count <= capacity
        invariant slot == Probe(h0, count - 1, capacity)
        invariant forall j :: 0 <= j < count - 1 ==> !Stops(buckets[Probe(h0, j, capacity)], key)
        decreases capacity - count
      {
        if buckets[slot].key == key || buckets[slot].tombstone {
          return true, count - 1;
        }
        if count == capacity {
          NeverStops(buckets, capacity, h0, key);
          return false, 0;
        }
        slot := Probe(h0, count, capacity);
        count := count + 1;
      }
      return true, count - 1;
    }

    /** The probe-and-store half of `put`: store a live entry at the slot
        where the probe for the key first stops.  done is false exactly when
        the probe never stops, and then nothing changes. */
    method Store(key: K, value: Option<V>) returns (done: bool)
      requires Valid()
      modifies this
      ensures Valid() && capacity == old(capacity)
      ensures done <==> exists i :: FirstStop(old(buckets), capacity, hash(key) % capacity, key, i)
      ensures !done ==> buckets == old(buckets) && size == old(size)
      ensures !done ==> forall i: nat ::
        !Stops(old(buckets)[Probe(hash(key) % capacity, i, capacity)], key)
      ensures done ==> exists i ::
        && FirstStop(old(buckets), capacity, hash(key) % capacity, key, i)
        && buckets == old(buckets)[Probe(hash(key) % capacity, i, capacity) := Entry(key, value, false)]
      ensures done ==> LiveKeys(buckets) == old(LiveKeys(buckets)) + {key}
      ensures NoTombstones(old(buckets)) ==> NoTombstones(buckets)
      ensures size <= old(size) + 1
    {
      var i;
      done, i := FindStop(key);
      if !done {
        return;
      }
      Write(Probe(hash(key) % capacity, i, capacity), key, value);
    }

    /** `put`: when the load factor is at least 1/2, first rebuild at twice
        the capacity; then probe and store.  done is false exactly when the
        source would not return (its probe loop never stops). */
    method Put(key: K, value: Option<V>) returns (done: bool)
      requires Valid()
      modifies this
      decreases size, 5
      ensures Valid()
      ensures done ==> LiveKeys(buckets) == old(LiveKeys(buckets)) + {key}
      ensures done ==> exists i :: 0 <= i < |buckets| && buckets[i] == Entry(key, value, false)
      ensures !LoadAtLeast(old(size), old(capacity), 1, 2) ==>
        && capacity == old(capacity)
        && (done <==> exists i :: FirstStop(old(buckets), capacity, hash(key) % capacity, key, i))
        && (done ==> exists i ::
              && FirstStop(old(buckets), capacity, hash(key) % capacity, key, i)
              && buckets == old(buckets)[Probe(hash(key) % capacity, i, capacity) := Entry(key, value, false)])
      ensures LoadAtLeast(old(size), old(capacity), 1, 2) && done ==>
        IsNextPrime(2 * old(capacity), capacity) && NoTombstones(buckets)
      ensures done ==> 2 * size <= capacity + 1
      ensures NoTombstones(old(buckets)) ==> NoTombstones(buckets)
      ensures size <= old(size) + 1
      ensures done ==> LivePairSet(buckets) <= old(LivePairSet(buckets)) + {(key, value)}
      ensures !done ==> LiveKeys(buckets) == old(LiveKeys(buckets)) && LivePairSet(buckets) <= old(LivePairSet(buckets))
      ensures !done && !LoadAtLeast(old(size), old(capacity), 1, 2) ==> buckets == old(buckets) && size == old(size)
    {
      if LoadAtLeast(size, capacity, 1, 2) {
        done := Grow();
        if !done {
          return;
        }
      }
      ghost var b1 := buckets;
      done := Store(key, value);
      if done {
        ghost var i :| FirstStop(b1, capacity, hash(key) % capacity, key, i)
          && buckets == b1[Probe(hash(key) % capacity, i, capacity) := Entry(key, value, false)];
        assert buckets[Probe(hash(key) % capacity, i, capacity)] == Entry(key, value, false);
        LivePairSetWrite(b1, Probe(hash(key) % capacity, i, capacity), key, value);
      }
    }

    /** The growth step of `put`: at a load factor of at least 0.5 the
        table is rebuilt at twice the capacity, rounded up to the next odd
        prime, which leaves it less than half full. */
    method Grow() returns (done: bool)
      requires Valid() && LoadAtLeast(size, capacity, 1, 2)
      modifies this
      decreases size, 4
      ensures Valid()
      ensures !done ==> buckets == old(buckets) && size == old(size) && capacity == old(capacity)
      ensures done ==> LiveKeys(buckets) == old(LiveKeys(buckets)) && NoTombstones(buckets)
      ensures done ==> LivePairSet(buckets) <= old(LivePairSet(buckets))
      ensures done ==> IsNextPrime(2 * old(capacity), capacity)
      ensures done ==> size <= old(size) && 2 * size < capacity
    {
      LiveCountPrefix(buckets, capacity);
      assert size <= capacity && capacity != 1;
      done := ResizeTable(2 * capacity);
      if done {
        NextPrimeOfDouble(old(capacity), capacity);
      }
    }

    /** `resize_table`: a request below the current size is ignored;
        otherwise the capacity becomes the request rounded up to the next
        odd prime (a request of exactly 2 is kept as 2), and every live entry
        is put, in slot order, into a fresh table that then replaces the
        storage.  done is false when one of those puts would not return. */
    method ResizeTable(newCapacity: int) returns (done: bool)
      requires Valid()
      modifies this
      decreases size, 3
      ensures Valid()
      ensures newCapacity < old(size) ==>
        done && buckets == old(buckets) && size == old(size) && capacity == old(capacity)
      ensures !done ==> buckets == old(buckets) && size == old(size) && capacity == old(capacity)
      ensures newCapacity >= old(size) && done ==>
        && LiveKeys(buckets) == old(LiveKeys(buckets))
        && NoTombstones(buckets)
        && size <= old(size)
        && capacity >= newCapacity
        && LivePairSet(buckets) <= old(LivePairSet(buckets))
      ensures newCapacity >= old(size) && done && 2 * old(size) <= newCapacity ==>
        if newCapacity == 2 then capacity == 2 else IsNextPrime(newCapacity, capacity)
    {
      if newCapacity < size {
        return true;
      }
      var table;
      table, done := Rebuild(newCapacity);
      if done {
        capacity, buckets, size := table.capacity, table.buckets, table.size;
      }
    }

    /** The body of `resize_table` after the new table is made: every live
        entry, in slot order, is put into a fresh table of the requested
        capacity.  done is false when one of those puts would not return. */
    method Rebuild(newCapacity: nat) returns (table: HashMap<K, V>, done: bool)
      requires Valid() && newCapacity >= size
      decreases size, 2
      ensures fresh(table) && table.Valid() && table.hash == hash
      ensures done ==>
        && LiveKeys(table.buckets) == LiveKeys(buckets)
        && NoTombstones(table.buckets)
        && table.size <= size
        && table.capacity >= newCapacity
        && LivePairSet(table.buckets) <= LivePairSet(buckets)
      ensures done && 2 * size <= newCapacity ==>
        if newCapacity == 2 then table.capacity == 2 else IsNextPrime(newCapacity, table.capacity)
    {
      table := NewTable(newCapacity);
      var items := Iterate();
      done := PutAll(table, items);
      LivePairsKeys(buckets);
      LivePairsSet(buckets);
    }

    /** The loop of `resize_table`: put the listed pairs, in order, into
        the empty table.  The table ends up with exactly the listed keys,
        only listed pairs and no tombstone, and it grows only if the pairs
        fill half of it. */
    method PutAll(table: HashMap<K, V>, items: seq<(K, Option<V>)>) returns (done: bool)
      requires table.Valid() && table.size == 0 && |items| == size
      requires forall i :: 0 <= i < |table.buckets| ==> table.buckets[i].Empty?
      modifies table
      decreases size, 1
      ensures table.Valid()
      ensures done ==>
        && KeysOf(items) == LiveKeys(table.buckets)
        && LivePairSet(table.buckets) <= PairsOf(items)
        && NoTombstones(table.buckets)
        && table.size <= |items|
      ensures done ==> table.capacity >= old(table.capacity)
      ensures done && 2 * |items| <= old(table.capacity) ==> table.capacity == old(table.capacity)
    {
      var index := 0;
      while index < |items|
        invariant 0 <= index <= |items| == size
        invariant table.Valid()
        invariant KeysOf(items[..index]) == LiveKeys(table.buckets)
        invariant LivePairSet(table.buckets) <= PairsOf(items[..index])
        invariant NoTombstones(table.buckets)
        invariant table.size <= index
        invariant table.capacity >= old(table.capacity)
        invariant 2 * |items| <= old(table.capacity) ==> table.capacity == old(table.capacity)
      {
        KeysOfStep(items, index);
        PairsOfStep(items, index);
        var ok := PutInto(table, items[index].0, items[index].1);
        if !ok {
          return false;
        }
        index := index + 1;
      }
      assert items[..index] == items;
      done := true;
    }

    /** One step of the loop of `resize_table`: `put` into the new table,
        which adds the key to its live keys, brings in no tombstone, and
        grows it only when it is at least half full. */
    method PutInto(table: HashMap<K, V>, key: K, value: Option<V>) returns (ok: bool)
      requires table.Valid() && NoTombstones(table.buckets) && table.size < size
      modifies table
      decreases size, 0
      ensures table.Valid()
      ensures ok ==> LiveKeys(table.buckets) == old(LiveKeys(table.buckets)) + {key}
      ensures ok ==> NoTombstones(table.buckets) && table.size <= old(table.size) + 1
      ensures ok ==> table.capacity >= old(table.capacity)
      ensures !LoadAtLeast(old(table.size), old(table.capacity), 1, 2) ==> table.capacity == old(table.capacity)
      ensures ok ==> exists i :: 0 <= i < |table.buckets| && table.buckets[i] == Entry(key, value, false)
      ensures ok ==> LivePairSet(table.buckets) <= old(LivePairSet(table.buckets)) + {(key, value)}
    {
      ok := table.Put(key, value);
    }

    /** The fresh table of `resize_table`: the request rounded up to the
        next odd prime, except that a request of exactly 2 is kept as 2
        (over the 3 slots the constructor allocated). */
    method NewTable(newCapacity: nat) returns (table: HashMap<K, V>)
      ensures fresh(table) && table.Valid() && table.hash == hash && table.size == 0
      ensures forall i :: 0 <= i < |table.buckets| ==> table.buckets[i].Empty?
      ensures table.capacity >= newCapacity
      ensures if newCapacity == 2 then table.capacity == 2 else IsNextPrime(newCapacity, table.capacity)
    {
      var requested: nat := newCapacity;
      var isPrime := IsPrime(requested);
      if !isPrime {
        requested := NextPrime(requested);
      }
      table := new HashMap(requested, hash);
      if requested == 2 {
        NextPrimeOfTwo();
        NextPrimeUnique(2, 3, table.capacity);
        table.capacity := 2;
      } else {
        if isPrime {
          PrimeAboveTwoIsOdd(requested);
        }
        NextPrimeOfOddPrime(requested);
        NextPrimeUnique(requested, requested, table.capacity);
      }
      assert requested == 2 <==> newCapacity == 2;
    }

    /** Overwrite one slot that the probe stopped at with a live entry. */
    method Write(slot: nat, key: K, value: Option<V>)
      requires Valid() && slot < capacity
      requires Stops(buckets[slot], key)
      modifies this
      ensures Valid() && capacity == old(capacity)
      ensures buckets == old(buckets)[slot := Entry(key, value, false)]
      ensures LiveKeys(buckets) == old(LiveKeys(buckets)) + {key}
      ensures NoTombstones(old(buckets)) ==> NoTombstones(buckets)
      ensures size == old(size) + (if IsLive(old(buckets)[slot]) then 0 else 1)
    {
      LiveCountUpdate(buckets, slot, Entry(key, value, false));
      LiveKeysStore(buckets, slot, key, value);
      if !IsLive(buckets[slot]) {
        size := size + 1;
      }
      buckets := buckets[slot := Entry(key, value, false)];
    }
  }

  /** The probe's first stop is unique. */
  lemma FirstStopUnique<K, V>(b: seq<Slot<K, V>>, capacity: nat, h0: nat, k: K, i: nat, i0: nat)
    requires 0 < capacity <= |b| && i0 < capacity
    requires FirstStop(b, capacity, h0, k, i)
    requires Stops(b[Probe(h0, i0, capacity)], k)
    requires forall j :: 0 <= j < i0 ==> !Stops(b[Probe(h0, j, capacity)], k)
    ensures i == i0
  {
  }

  /** After `remove(k)`, `contains_key(k)` is false. */
  method RemoveThenContains<K(==), V>(m: HashMap<K, V>, key: K) returns (r: bool)
    requires m.Valid()
    modifies m
    ensures m.Valid() && !r
  {
    m.Remove(key);
    r := m.ContainsKey(key);
  }

  /** After `clear()`, no key is found and nothing is listed. */
  method ClearThenGet<K(==), V>(m: HashMap<K, V>, key: K) returns (r: Option<V>, kv: seq<(K, Option<V>)>)
    requires m.Valid()
    modifies m
    ensures m.Valid() && m.size == 0
    ensures r == None && kv == []
  {
    m.Clear();
    r := m.Get(key);
    kv := m.GetKeysAndValues();
  }

  lemma {:induction false} SevenIsPrime()
    ensures IsNextPrime(7, 7)
  {
    forall d | 2 <= d < 7
      ensures !Divides(d, 7)
    {
      assert 7 % d != 0;
    }
  }

  /** A `put` that does not grow the table stores at the probe's first stop. */
  method PutWithoutGrowth<K(==), V>(m: HashMap<K, V>, key: K, value: Option<V>, h0: nat, i0: nat)
    requires m.Valid() && !LoadAtLeast(m.size, m.capacity, 1, 2)
    requires m.hash(key) % m.capacity == h0 && FirstStop(m.buckets, m.capacity, h0, key, i0)
    modifies m
    ensures m.Valid() && m.capacity == old(m.capacity) && m.size <= old(m.size) + 1
    ensures m.buckets == old(m.buckets)[Probe(h0, i0, m.capacity) := Entry(key, value, false)]
  {
    var done := m.Put(key, value);
    ghost var i :| FirstStop(old(m.buckets), m.capacity, h0, key, i)
      && m.buckets == old(m.buckets)[Probe(h0, i, m.capacity) := Entry(key, value, false)];
    FirstStopUnique(old(m.buckets), m.capacity, h0, key, i, i0);
  }

  /** A new map with requested capacity 7 (a prime, so kept) in which every
      key hashes to 6. */
  method SevenSlotTable() returns (m: HashMap<string, int>)
    ensures fresh(m) && m.Valid() && m.size == 0
    ensures 6 < m.capacity == |m.buckets|
    ensures Probe(6, 0, m.capacity) == 6 && Probe(6, 1, m.capacity) == 0
    ensures m.hash("a") % m.capacity == 6 && m.hash("b") % m.capacity == 6
    ensures forall i :: 0 <= i < |m.buckets| ==> m.buckets[i].Empty?
  {
    m := new HashMap<string, int>(7, k => 6);
    SevenIsPrime();
    NextPrimeUnique(7, 7, m.capacity);
    assert Probe(6, 0, 7) == 6 && Probe(6, 1, 7) == 0;
  }

  /** The first half of the tombstone-reuse scenario below: "a" and "b"
      both hash to slot 6 of a 7-slot table; put("b", 1) fills slot 6,
      put("a", 1) probes on to slot (6 + 1) % 7 = 0, and remove("b") leaves
      a tombstone in slot 6. */
  method TombstoneOnProbePath() returns (m: HashMap<string, int>)
    ensures fresh(m) && m.Valid() && m.size <= 2
    ensures Probe(6, 0, m.capacity) == 6 && 6 < m.capacity == |m.buckets|
    ensures m.hash("a") % m.capacity == 6
    ensures m.buckets[0] == Entry("a", Some(1), false)
    ensures m.buckets[6] == Entry("b", Some(1), true)
  {
    m := SevenSlotTable();
    ghost var c := m.capacity;
    assert FirstStop(m.buckets, c, 6, "b", 0);
    PutWithoutGrowth(m, "b", Some(1), 6, 0);
    assert m.buckets[6] == Entry("b", Some(1), false) && m.buckets[0].Empty?;
    assert FirstStop(m.buckets, c, 6, "a", 1);
    PutWithoutGrowth(m, "a", Some(1), 6, 1);
    assert m.buckets[6] == Entry("b", Some(1), false) && m.buckets[0] == Entry("a", Some(1), false);
    m.Remove("b");
  }

  /** The tombstone-reuse quirk of `put`: in the table built above, "a" is
      live in slot 0 and slot 6, its home slot, is a tombstone.  put("a", 2)
      reuses the tombstone, leaving two live entries for "a", and `get("a")`,
      which scans in slot order, answers the stale 1 instead of 2. */
  method StaleValueAfterPut() returns (found: Option<int>)
    ensures found == Some(1)
  {
    var m := TombstoneOnProbePath();
    assert FirstStop(m.buckets, m.capacity, 6, "a", 0);
    PutWithoutGrowth(m, "a", Some(2), 6, 0);
    assert m.buckets[6] == Entry("a", Some(2), false) && m.buckets[0] == Entry("a", Some(1), false);
    assert FirstLiveAt(m.buckets, "a", 0);
    found := m.Get("a");
  }
}
