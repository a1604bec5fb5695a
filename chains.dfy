/**
 * The buckets of the separate-chaining map, as values.  A chain is a
 * sequence of (key, value) pairs standing for one bucket's linked list; a
 * table is a sequence of chains.  A table spells out a map: the pairs of
 * its chains.  This module states the layout a chaining table keeps and
 * proves what each update of one chain does to the map the table spells.
 */
module Chains {
  import opened Common

  // ---------------------------------------------------------------------
  // One chain
  // ---------------------------------------------------------------------

  /** Key k has a node in chain c. */
  ghost predicate InChain<K, V>(c: seq<(K, V)>, k: K)
  {
    c != [] && (c[0].0 == k || InChain(c[1..], k))
  }

  /** The position of the node holding key k in a chain (the linked list's
      `contains`), if any. */
  function ChainFind<K(==), V>(c: seq<(K, V)>, k: K): (r: Option<nat>)
    ensures r.Some? <==> InChain(c, k)
    ensures r.Some? ==> r.value < |c| && c[r.value].0 == k
    ensures r.None? ==> forall j :: 0 <= j < |c| ==> c[j].0 != k
  {
    if c == [] then None
    else if c[0].0 == k then Some(0)
    else match ChainFind(c[1..], k)
      case None => None
      case Some(j) => Some(j + 1)
  }

  /** A key in a chain sits at some position of it. */
  lemma {:induction false} InChainWitness<K, V>(c: seq<(K, V)>, k: K) returns (j: nat)
    requires InChain(c, k)
    ensures j < |c| && c[j].0 == k
    decreases |c|
  {
    if c[0].0 == k {
      j := 0;
    } else {
      j := InChainWitness(c[1..], k);
      j := j + 1;
    }
  }

  /** The key at any position of a chain is in it. */
  lemma {:induction false} InChainAt<K, V>(c: seq<(K, V)>, j: nat)
    requires j < |c|
    ensures InChain(c, c[j].0)
    decreases j
  {
    if j > 0 {
      InChainAt(c[1..], j - 1);
    }
  }

  /** The map a chain spells out, later pairs overriding earlier ones. */
  ghost function ChainMap<K, V>(c: seq<(K, V)>): map<K, V>
  {
    if c == [] then map[] else ChainMap(c[..|c| - 1])[c[|c| - 1].0 := c[|c| - 1].1]
  }

  /** A key no pair of c holds is not in the map c spells out. */
  lemma {:induction false} ChainMapAbsent<K, V>(c: seq<(K, V)>, k: K)
    requires forall j :: 0 <= j < |c| ==> c[j].0 != k
    ensures k !in ChainMap(c)
    decreases |c|
  {
    if c != [] {
      ChainMapAbsent(c[..|c| - 1], k);
    }
  }

  /** A key of the map a chain spells out sits at some position of it. */
  lemma {:induction false} ChainMapWitness<K, V>(c: seq<(K, V)>, k: K) returns (j: nat)
    requires k in ChainMap(c)
    ensures j < |c| && c[j].0 == k
    decreases |c|
  {
    var n := |c| - 1;
    if c[n].0 == k {
      j := n;
    } else {
      j := ChainMapWitness(c[..n], k);
    }
  }

  /** Putting the pairs of a chain with distinct keys into a map one by
      one: the next pair adds a key the map lacks so far. */
  lemma ChainMapExtend<K, V>(start: map<K, V>, c: seq<(K, V)>, y: nat)
    requires y < |c| && forall j1, j2 :: 0 <= j1 < j2 < |c| ==> c[j1].0 != c[j2].0
    requires c[y].0 !in start
    ensures c[y].0 !in start + ChainMap(c[..y])
    ensures start + ChainMap(c[..y + 1]) == (start + ChainMap(c[..y]))[c[y].0 := c[y].1]
  {
    ChainMapAbsent(c[..y], c[y].0);
    assert c[..y + 1][..y] == c[..y];
    MapUnionUpdate(start, ChainMap(c[..y]), c[y].0, c[y].1);
  }

  /** A chain with distinct keys spells out exactly its own pairs. */
  lemma {:induction false} ChainMapPairs<K, V>(c: seq<(K, V)>)
    requires forall j1, j2 :: 0 <= j1 < j2 < |c| ==> c[j1].0 != c[j2].0
    ensures forall k :: k in ChainMap(c) <==> InChain(c, k)
    ensures forall j :: 0 <= j < |c| ==> c[j].0 in ChainMap(c) && ChainMap(c)[c[j].0] == c[j].1
    decreases |c|
  {
    if c != [] {
      var n := |c| - 1;
      var p := c[..n];
      ChainMapPairs(p);
      forall k
        ensures k in ChainMap(c) <==> InChain(c, k)
      {
        if k in ChainMap(p) {
          var j := InChainWitness(p, k);
          assert c[j].0 == k;
          InChainAt(c, j);
        } else if k == c[n].0 {
          InChainAt(c, n);
        }
        if InChain(c, k) {
          var j := InChainWitness(c, k);
          if j < n {
            assert p[j].0 == k;
            InChainAt(p, j);
          }
        }
      }
      forall j | 0 <= j < |c|
        ensures c[j].0 in ChainMap(c) && ChainMap(c)[c[j].0] == c[j].1
      {
        if j < n {
          assert p[j] == c[j];
        }
      }
    }
  }

  // ---------------------------------------------------------------------
  // A table of chains
  // ---------------------------------------------------------------------

  /** The total number of pairs in all chains. */
  function TotalLength<T>(b: seq<seq<T>>): nat
  {
    if b == [] then 0 else TotalLength(b[..|b| - 1]) + |b[|b| - 1]|
  }

  /** The map a run of buckets spells out, bucket by bucket. */
  ghost function BucketsMap<K, V>(b: seq<seq<(K, V)>>): map<K, V>
  {
    if b == [] then map[] else BucketsMap(b[..|b| - 1]) + ChainMap(b[|b| - 1])
  }

  lemma {:induction false} TotalLengthUpdate<T>(b: seq<seq<T>>, i: int, c: seq<T>)
    requires 0 <= i < |b|
    ensures TotalLength(b[i := c]) == TotalLength(b) - |b[i]| + |c|
    decreases |b|
  {
    var n := |b| - 1;
    if i < n {
      assert b[i := c][..n] == b[..n][i := c];
      TotalLengthUpdate(b[..n], i, c);
    } else {
      assert b[i := c][..n] == b[..n];
    }
  }

  /** A prefix holds no more pairs than the whole, and exactly as many when
      the rest of the buckets are empty. */
  lemma {:induction false} TotalLengthPrefix<T>(b: seq<seq<T>>, x: nat)
    requires x <= |b|
    ensures TotalLength(b[..x]) <= TotalLength(b)
    ensures (forall i :: x <= i < |b| ==> b[i] == []) ==> TotalLength(b[..x]) == TotalLength(b)
    decreases |b|
  {
    if x < |b| {
      TotalLengthPrefix(b[..|b| - 1], x);
      assert b[..|b| - 1][..x] == b[..x];
    } else {
      assert b[..x] == b;
    }
  }

  /** Buckets that are all empty hold no pair and spell the empty map. */
  lemma {:induction false} AllEmpty<K, V>(b: seq<seq<(K, V)>>)
    requires forall i :: 0 <= i < |b| ==> b[i] == []
    ensures TotalLength(b) == 0 && BucketsMap(b) == map[]
    decreases |b|
  {
    if b != [] {
      AllEmpty(b[..|b| - 1]);
    }
  }

  /** Empty buckets past x add nothing to the map. */
  lemma {:induction false} BucketsMapEmptyTail<K, V>(b: seq<seq<(K, V)>>, x: nat)
    requires x <= |b| && forall i :: x <= i < |b| ==> b[i] == []
    ensures BucketsMap(b[..x]) == BucketsMap(b)
    decreases |b|
  {
    if x < |b| {
      var n := |b| - 1;
      BucketsMapEmptyTail(b[..n], x);
      assert b[..n][..x] == b[..x];
      assert BucketsMap(b[..n]) + map[] == BucketsMap(b[..n]);
    } else {
      assert b[..x] == b;
    }
  }

  /** One more bucket adds its pairs to both the count and the map. */
  lemma PrefixStep<K, V>(b: seq<seq<(K, V)>>, x: nat)
    requires x < |b|
    ensures TotalLength(b[..x + 1]) == TotalLength(b[..x]) + |b[x]|
    ensures BucketsMap(b[..x + 1]) == BucketsMap(b[..x]) + ChainMap(b[x])
  {
    assert b[..x + 1][..x] == b[..x];
  }

  // ---------------------------------------------------------------------
  // Facts about maps
  // ---------------------------------------------------------------------

  lemma MapUnionUpdate<K, V>(a: map<K, V>, b: map<K, V>, k: K, v: V)
    ensures (a + b)[k := v] == a + b[k := v]
  {
  }

  lemma MapsEqual<K, V>(a: map<K, V>, b: map<K, V>)
    requires forall k :: k in a <==> k in b
    requires forall k :: k in a ==> a[k] == b[k]
    ensures a == b
  {
  }

  // ---------------------------------------------------------------------
  // The layout of a chaining table
  // ---------------------------------------------------------------------

  /** The layout every chaining table keeps: each pair sits in the bucket
      of its key, and no key appears twice in a chain. */
  ghost predicate Chained<K, V>(b: seq<seq<(K, V)>>, hash: K -> nat, capacity: nat)
  {
    && capacity > 0
    && (forall i, j :: 0 <= i < |b| && 0 <= j < |b[i]| ==> hash(b[i][j].0) % capacity == i)
    && (forall i, j1, j2 :: 0 <= i < |b| && 0 <= j1 < j2 < |b[i]| ==> b[i][j1].0 != b[i][j2].0)
  }

  /** A chained table whose pairs are exactly those of m: every pair agrees
      with m, and every key of m has a node in its bucket. */
  ghost predicate Spells<K, V>(b: seq<seq<(K, V)>>, hash: K -> nat, capacity: nat, m: map<K, V>)
  {
    && Chained(b, hash, capacity)
    && (forall i, j :: 0 <= i < |b| && 0 <= j < |b[i]| ==> b[i][j].0 in m && m[b[i][j].0] == b[i][j].1)
    && (forall k :: k in m ==> hash(k) % capacity < |b| && InChain(b[hash(k) % capacity], k))
  }

  lemma ChainedPrefix<K, V>(b: seq<seq<(K, V)>>, hash: K -> nat, capacity: nat, x: nat)
    requires Chained(b, hash, capacity) && x <= |b|
    ensures Chained(b[..x], hash, capacity)
  {
    assert forall i :: 0 <= i < x ==> b[..x][i] == b[i];
  }

  /** The keys a bucket spells out all belong to that bucket. */
  lemma ChainKeysHome<K, V>(b: seq<seq<(K, V)>>, hash: K -> nat, capacity: nat, x: nat)
    requires Chained(b, hash, capacity) && x < |b|
    ensures forall k :: k in ChainMap(b[x]) ==> InChain(b[x], k) && hash(k) % capacity == x
  {
    ChainMapPairs(b[x]);
    forall k | k in ChainMap(b[x])
      ensures InChain(b[x], k) && hash(k) % capacity == x
    {
      assert InChain(b[x], k);
      var j := InChainWitness(b[x], k);
    }
  }

  /** A chained table spells out the map its buckets build. */
  lemma {:induction false} SpellsBucketsMap<K, V>(b: seq<seq<(K, V)>>, hash: K -> nat, capacity: nat)
    requires Chained(b, hash, capacity)
    ensures Spells(b, hash, capacity, BucketsMap(b))
    decreases |b|
  {
    if b != [] {
      var n := |b| - 1;
      var p := b[..n];
      ChainedPrefix(b, hash, capacity, n);
      SpellsBucketsMap(p, hash, capacity);
      SpellsStep(b, hash, capacity);
    }
  }

  /** The step of SpellsBucketsMap: the last bucket adds its own pairs. */
  lemma SpellsStep<K, V>(b: seq<seq<(K, V)>>, hash: K -> nat, capacity: nat)
    requires Chained(b, hash, capacity) && b != []
    requires Spells(b[..|b| - 1], hash, capacity, BucketsMap(b[..|b| - 1]))
    ensures Spells(b, hash, capacity, BucketsMap(b))
  {
    var n := |b| - 1;
    var p := b[..n];
    var c := b[n];
    ChainMapPairs(c);
    ChainKeysHome(b, hash, capacity, n);
    var m := BucketsMap(b);
    assert m == BucketsMap(p) + ChainMap(c);
    forall i, j | 0 <= i < |b| && 0 <= j < |b[i]|
      ensures b[i][j].0 in m && m[b[i][j].0] == b[i][j].1
    {
      if i < n {
        assert b[i][j] == p[i][j];
        assert hash(b[i][j].0) % capacity == i;
      }
    }
    forall k | k in m
      ensures hash(k) % capacity < |b| && InChain(b[hash(k) % capacity], k)
    {
      if k !in ChainMap(c) {
        assert k in BucketsMap(p);
        assert p[hash(k) % capacity] == b[hash(k) % capacity];
      }
    }
  }

  /** A chained table spells out one map only. */
  /** A chained table that spells out m has m as its map. */
  lemma SpellsMap<K, V>(b: seq<seq<(K, V)>>, hash: K -> nat, capacity: nat, m: map<K, V>)
    requires Spells(b, hash, capacity, m)
    ensures BucketsMap(b) == m
  {
    SpellsBucketsMap(b, hash, capacity);
    SpellsUnique(b, hash, capacity, m, BucketsMap(b));
  }

  lemma SpellsUnique<K, V>(b: seq<seq<(K, V)>>, hash: K -> nat, capacity: nat, m1: map<K, V>, m2: map<K, V>)
    requires Spells(b, hash, capacity, m1) && Spells(b, hash, capacity, m2)
    ensures m1 == m2
  {
    forall k | k in m1 || k in m2
      ensures k in m1 && k in m2 && m1[k] == m2[k]
    {
      var j := InChainWitness(b[hash(k) % capacity], k);
      assert b[hash(k) % capacity][j].0 == k;
    }
    MapsEqual(m1, m2);
  }

  /** In a chained table, a key is in the map exactly when its bucket has a
      node for it, and the map holds that node's value. */
  lemma Lookup<K, V>(b: seq<seq<(K, V)>>, hash: K -> nat, capacity: nat, key: K)
    requires Chained(b, hash, capacity) && hash(key) % capacity < |b|
    ensures key in BucketsMap(b) <==> InChain(b[hash(key) % capacity], key)
    ensures forall j :: 0 <= j < |b[hash(key) % capacity]| && b[hash(key) % capacity][j].0 == key ==>
      key in BucketsMap(b) && BucketsMap(b)[key] == b[hash(key) % capacity][j].1
  {
    SpellsBucketsMap(b, hash, capacity);
    if InChain(b[hash(key) % capacity], key) {
      var j := InChainWitness(b[hash(key) % capacity], key);
    }
  }

  /** Overwriting the value of a node keeps the layout and updates that key
      of the map. */
  lemma SetValueKeeps<K, V>(b: seq<seq<(K, V)>>, hash: K -> nat, capacity: nat, h: nat, j: nat, value: V)
    requires Chained(b, hash, capacity) && h < |b| && j < |b[h]|
    ensures b[h][j].0 in BucketsMap(b)
    ensures Chained(b[h := b[h][j := (b[h][j].0, value)]], hash, capacity)
    ensures BucketsMap(b[h := b[h][j := (b[h][j].0, value)]]) == BucketsMap(b)[b[h][j].0 := value]
  {
    SpellsBucketsMap(b, hash, capacity);
    var b' := b[h := b[h][j := (b[h][j].0, value)]];
    var m' := BucketsMap(b)[b[h][j].0 := value];
    SetPairs(b, hash, capacity, h, j, value, BucketsMap(b), b', m');
    SetCovers(b, hash, capacity, h, j, value, BucketsMap(b), b', m');
    SpellsMap(b', hash, capacity, m');
  }

  /** After overwriting the value of b[h][j], the layout is kept and every
      pair agrees with the map updated at that key. */
  lemma SetPairs<K, V>(b: seq<seq<(K, V)>>, hash: K -> nat, capacity: nat, h: nat, j: nat, value: V,
                       m: map<K, V>, b': seq<seq<(K, V)>>, m': map<K, V>)
    requires Spells(b, hash, capacity, m) && h < |b| && j < |b[h]|
    requires b' == b[h := b[h][j := (b[h][j].0, value)]] && m' == m[b[h][j].0 := value]
    ensures Chained(b', hash, capacity)
    ensures forall i, j' :: 0 <= i < |b'| && 0 <= j' < |b'[i]| ==> b'[i][j'].0 in m' && m'[b'[i][j'].0] == b'[i][j'].1
  {
    var key := b[h][j].0;
    assert forall i, j' :: 0 <= i < |b'| && 0 <= j' < |b'[i]| ==> b'[i][j'].0 == b[i][j'].0;
    forall i, j' | 0 <= i < |b'| && 0 <= j' < |b'[i]|
      ensures b'[i][j'].0 in m' && m'[b'[i][j'].0] == b'[i][j'].1
    {
      if i != h || j' != j {
        assert b'[i][j'] == b[i][j'];
        assert b[i][j'].0 != key by {
          if i == h {
            assert b[i][j'].0 != b[h][j].0;
          } else {
            assert hash(b[i][j'].0) % capacity != hash(key) % capacity;
          }
        }
      }
    }
  }

  /** After overwriting the value of b[h][j], every key of the map is
      still in its home bucket. */
  lemma SetCovers<K, V>(b: seq<seq<(K, V)>>, hash: K -> nat, capacity: nat, h: nat, j: nat, value: V,
                        m: map<K, V>, b': seq<seq<(K, V)>>, m': map<K, V>)
    requires Spells(b, hash, capacity, m) && h < |b| && j < |b[h]|
    requires b' == b[h := b[h][j := (b[h][j].0, value)]] && m' == m[b[h][j].0 := value]
    ensures forall k :: k in m' ==> hash(k) % capacity < |b'| && InChain(b'[hash(k) % capacity], k)
  {
    forall k | k in m'
      ensures hash(k) % capacity < |b'| && InChain(b'[hash(k) % capacity], k)
    {
      var jj := InChainWitness(b[hash(k) % capacity], k);
      assert b'[hash(k) % capacity][jj].0 == k;
      InChainAt(b'[hash(k) % capacity], jj);
    }
  }

  /** Adding a node at the head of its bucket for a key the bucket lacks
      keeps the layout and adds that key to the map. */
  lemma InsertKeeps<K, V>(b: seq<seq<(K, V)>>, hash: K -> nat, capacity: nat, key: K, value: V)
    requires Chained(b, hash, capacity)
    requires hash(key) % capacity < |b| && !InChain(b[hash(key) % capacity], key)
    ensures key !in BucketsMap(b)
    ensures Chained(b[hash(key) % capacity := [(key, value)] + b[hash(key) % capacity]], hash, capacity)
    ensures BucketsMap(b[hash(key) % capacity := [(key, value)] + b[hash(key) % capacity]])
      == BucketsMap(b)[key := value]
  {
    SpellsBucketsMap(b, hash, capacity);
    var h := hash(key) % capacity;
    var b' := b[h := [(key, value)] + b[h]];
    var m' := BucketsMap(b)[key := value];
    InsertedPairs(b, hash, capacity, key, value, h, BucketsMap(b), b', m');
    InsertedDistinct(b, hash, capacity, key, value, h, b');
    InsertedCovers(b, hash, capacity, key, value, h, BucketsMap(b), b', m');
    SpellsMap(b', hash, capacity, m');
  }

  /** After adding (key, value) at the head of its bucket, every pair stays
      in its home bucket and agrees with the map updated at key. */
  lemma InsertedPairs<K, V>(b: seq<seq<(K, V)>>, hash: K -> nat, capacity: nat, key: K, value: V, h: nat,
                            m: map<K, V>, b': seq<seq<(K, V)>>, m': map<K, V>)
    requires Spells(b, hash, capacity, m)
    requires h == hash(key) % capacity && h < |b| && !InChain(b[h], key)
    requires b' == b[h := [(key, value)] + b[h]]
    requires m' == m[key := value]
    ensures forall i, j :: 0 <= i < |b'| && 0 <= j < |b'[i]| ==>
      hash(b'[i][j].0) % capacity == i && b'[i][j].0 in m' && m'[b'[i][j].0] == b'[i][j].1
  {
    forall i, j | 0 <= i < |b'| && 0 <= j < |b'[i]|
      ensures hash(b'[i][j].0) % capacity == i
      ensures b'[i][j].0 in m' && m'[b'[i][j].0] == b'[i][j].1
    {
      if i != h || j > 0 {
        var o := if i == h then j - 1 else j;
        assert b'[i][j] == b[i][o];
        assert b[i][o].0 != key by {
          if i == h {
            InChainAt(b[h], o);
          } else {
            assert hash(b[i][o].0) % capacity == i;
          }
        }
      }
    }
  }

  /** After adding a key its bucket lacked, no bucket holds a key twice. */
  lemma InsertedDistinct<K, V>(b: seq<seq<(K, V)>>, hash: K -> nat, capacity: nat, key: K, value: V, h: nat,
                               b': seq<seq<(K, V)>>)
    requires Chained(b, hash, capacity)
    requires h == hash(key) % capacity && h < |b| && !InChain(b[h], key)
    requires b' == b[h := [(key, value)] + b[h]]
    ensures forall i, j1, j2 :: 0 <= i < |b'| && 0 <= j1 < j2 < |b'[i]| ==> b'[i][j1].0 != b'[i][j2].0
  {
    forall i, j1, j2 | 0 <= i < |b'| && 0 <= j1 < j2 < |b'[i]|
      ensures b'[i][j1].0 != b'[i][j2].0
    {
      if i == h {
        assert b'[i][j2] == b[h][j2 - 1];
        InChainAt(b[h], j2 - 1);
        if j1 > 0 {
          assert b'[i][j1] == b[h][j1 - 1];
        }
      }
    }
  }

  /** After adding (key, value), every key of the updated map is in its
      home bucket. */
  lemma InsertedCovers<K, V>(b: seq<seq<(K, V)>>, hash: K -> nat, capacity: nat, key: K, value: V, h: nat,
                             m: map<K, V>, b': seq<seq<(K, V)>>, m': map<K, V>)
    requires Spells(b, hash, capacity, m)
    requires h == hash(key) % capacity && h < |b|
    requires b' == b[h := [(key, value)] + b[h]]
    requires m' == m[key := value]
    ensures forall k :: k in m' ==> hash(k) % capacity < |b'| && InChain(b'[hash(k) % capacity], k)
  {
    forall k | k in m'
      ensures hash(k) % capacity < |b'| && InChain(b'[hash(k) % capacity], k)
    {
      if k == key {
        InChainAt(b'[h], 0);
      } else {
        var jj := InChainWitness(b[hash(k) % capacity], k);
        var at := if hash(k) % capacity == h then jj + 1 else jj;
        assert b'[hash(k) % capacity][at].0 == k;
        InChainAt(b'[hash(k) % capacity], at);
      }
    }
  }

  /** Unlinking a node keeps the layout and removes its key from the map. */
  lemma RemoveKeeps<K, V>(b: seq<seq<(K, V)>>, hash: K -> nat, capacity: nat, h: nat, j: nat)
    requires Chained(b, hash, capacity) && h < |b| && j < |b[h]|
    ensures b[h][j].0 in BucketsMap(b)
    ensures Chained(b[h := b[h][..j] + b[h][j + 1..]], hash, capacity)
    ensures BucketsMap(b[h := b[h][..j] + b[h][j + 1..]]) == BucketsMap(b) - {b[h][j].0}
  {
    SpellsBucketsMap(b, hash, capacity);
    var b' := b[h := b[h][..j] + b[h][j + 1..]];
    var m' := BucketsMap(b) - {b[h][j].0};
    RemovedPairs(b, hash, capacity, h, j, BucketsMap(b), b', m');
    RemovedDistinct(b, hash, capacity, h, j, b');
    RemovedCovers(b, hash, capacity, h, j, BucketsMap(b), b', m');
    SpellsMap(b', hash, capacity, m');
  }

  /** After unlinking b[h][j], every pair left stays in its home bucket and
      agrees with the map less the unlinked key. */
  lemma RemovedPairs<K, V>(b: seq<seq<(K, V)>>, hash: K -> nat, capacity: nat, h: nat, j: nat,
                           m: map<K, V>, b': seq<seq<(K, V)>>, m': map<K, V>)
    requires Spells(b, hash, capacity, m) && h < |b| && j < |b[h]|
    requires b' == b[h := b[h][..j] + b[h][j + 1..]] && m' == m - {b[h][j].0}
    ensures forall i, j' :: 0 <= i < |b'| && 0 <= j' < |b'[i]| ==>
      hash(b'[i][j'].0) % capacity == i && b'[i][j'].0 in m' && m'[b'[i][j'].0] == b'[i][j'].1
  {
    var key := b[h][j].0;
    forall i, j' | 0 <= i < |b'| && 0 <= j' < |b'[i]|
      ensures hash(b'[i][j'].0) % capacity == i
      ensures b'[i][j'].0 in m' && m'[b'[i][j'].0] == b'[i][j'].1
    {
      var o := if i == h && j' >= j then j' + 1 else j';
      assert b'[i][j'] == b[i][o];
      assert b[i][o].0 != key by {
        if i != h {
          assert hash(b[i][o].0) % capacity == i && hash(key) % capacity == h;
        }
      }
    }
  }

  /** After unlinking b[h][j], no bucket holds a key twice. */
  lemma RemovedDistinct<K, V>(b: seq<seq<(K, V)>>, hash: K -> nat, capacity: nat, h: nat, j: nat,
                              b': seq<seq<(K, V)>>)
    requires Chained(b, hash, capacity) && h < |b| && j < |b[h]|
    requires b' == b[h := b[h][..j] + b[h][j + 1..]]
    ensures forall i, j1, j2 :: 0 <= i < |b'| && 0 <= j1 < j2 < |b'[i]| ==> b'[i][j1].0 != b'[i][j2].0
  {
    forall i, j1, j2 | 0 <= i < |b'| && 0 <= j1 < j2 < |b'[i]|
      ensures b'[i][j1].0 != b'[i][j2].0
    {
      if i == h {
        assert b'[i][j1] == b[h][if j1 < j then j1 else j1 + 1];
        assert b'[i][j2] == b[h][if j2 < j then j2 else j2 + 1];
      }
    }
  }

  /** After unlinking b[h][j], every other key of the map is still in its
      home bucket. */
  lemma RemovedCovers<K, V>(b: seq<seq<(K, V)>>, hash: K -> nat, capacity: nat, h: nat, j: nat,
                            m: map<K, V>, b': seq<seq<(K, V)>>, m': map<K, V>)
    requires Spells(b, hash, capacity, m) && h < |b| && j < |b[h]|
    requires b' == b[h := b[h][..j] + b[h][j + 1..]] && m' == m - {b[h][j].0}
    ensures forall k :: k in m' ==> hash(k) % capacity < |b'| && InChain(b'[hash(k) % capacity], k)
  {
    forall k | k in m'
      ensures hash(k) % capacity < |b'| && InChain(b'[hash(k) % capacity], k)
    {
      var jj := InChainWitness(b[hash(k) % capacity], k);
      if hash(k) % capacity == h {
        assert jj != j;
        var at := if jj < j then jj else jj - 1;
        assert b'[h][at].0 == k;
        InChainAt(b'[h], at);
      } else {
        assert b'[hash(k) % capacity][jj].0 == k;
        InChainAt(b'[hash(k) % capacity], jj);
      }
    }
  }

  /** The pairs of bucket x have distinct keys, none of which the buckets
      before it spell out. */
  lemma BucketReady<K, V>(b: seq<seq<(K, V)>>, hash: K -> nat, capacity: nat, x: nat)
    requires Chained(b, hash, capacity) && x < |b|
    ensures forall j1, j2 :: 0 <= j1 < j2 < |b[x]| ==> b[x][j1].0 != b[x][j2].0
    ensures forall j :: 0 <= j < |b[x]| ==> b[x][j].0 !in BucketsMap(b[..x])
  {
    ChainedPrefix(b, hash, capacity, x);
    SpellsBucketsMap(b[..x], hash, capacity);
    forall j | 0 <= j < |b[x]|
      ensures b[x][j].0 !in BucketsMap(b[..x])
    {
      assert hash(b[x][j].0) % capacity == x;
    }
  }

  // ---------------------------------------------------------------------
  // Counting and listing the pairs
  // ---------------------------------------------------------------------

  /** A chain with distinct keys spells out a map with one key per pair. */
  lemma {:induction false} ChainMapSize<K, V>(c: seq<(K, V)>)
    requires forall j1, j2 :: 0 <= j1 < j2 < |c| ==> c[j1].0 != c[j2].0
    ensures |ChainMap(c)| == |c|
    decreases |c|
  {
    if c != [] {
      var n := |c| - 1;
      ChainMapSize(c[..n]);
      ChainMapAbsent(c[..n], c[n].0);
    }
  }

  /** In a chained table the number of keys is the number of pairs. */
  lemma {:induction false} KeyCount<K, V>(b: seq<seq<(K, V)>>, hash: K -> nat, capacity: nat)
    requires Chained(b, hash, capacity)
    ensures |BucketsMap(b)| == TotalLength(b)
    decreases |b|
  {
    if b != [] {
      var n := |b| - 1;
      var p := b[..n];
      ChainedPrefix(b, hash, capacity, n);
      KeyCount(p, hash, capacity);
      ChainMapSize(b[n]);
      BucketFresh(b, hash, capacity, n);
      DisjointUnionSize(BucketsMap(p), ChainMap(b[n]));
    }
  }

  /** In a chained table the keys of bucket n occur in no earlier
      bucket. */
  lemma BucketFresh<K, V>(b: seq<seq<(K, V)>>, hash: K -> nat, capacity: nat, n: nat)
    requires Chained(b, hash, capacity) && n < |b|
    ensures forall k :: k in BucketsMap(b[..n]) ==> k !in ChainMap(b[n])
  {
    ChainedPrefix(b, hash, capacity, n);
    SpellsBucketsMap(b[..n], hash, capacity);
    ChainKeysHome(b, hash, capacity, n);
    forall k | k in BucketsMap(b[..n])
      ensures k !in ChainMap(b[n])
    {
      assert hash(k) % capacity < n;
    }
  }

  /** Maps with disjoint keys: the union holds as many keys as both. */
  lemma DisjointUnionSize<K, V>(m1: map<K, V>, m2: map<K, V>)
    requires forall k :: k in m1 ==> k !in m2
    ensures |m1 + m2| == |m1| + |m2|
  {
    assert m1.Keys * m2.Keys == {};
    assert (m1 + m2).Keys == m1.Keys + m2.Keys;
    assert |m1.Keys + m2.Keys| == |m1.Keys| + |m2.Keys|;
  }

  /** The pairs of all chains, bucket by bucket, each chain in order. */
  function Flatten<T>(b: seq<seq<T>>): (r: seq<T>)
    ensures |r| == TotalLength(b)
  {
    if b == [] then [] else Flatten(b[..|b| - 1]) + b[|b| - 1]
  }

  /** The listing of a chained table: each pair agrees with the map, no
      key is listed twice, and every key of the map is listed. */
  ghost predicate Lists<K, V>(f: seq<(K, V)>, m: map<K, V>)
  {
    && (forall i :: 0 <= i < |f| ==> f[i].0 in m && m[f[i].0] == f[i].1)
    && (forall i1, i2 :: 0 <= i1 < i2 < |f| ==> f[i1].0 != f[i2].0)
    && (forall k :: k in m ==> InChain(f, k))
  }

  /** A chain with distinct keys lists the map it spells out. */
  lemma ChainLists<K, V>(c: seq<(K, V)>)
    requires forall j1, j2 :: 0 <= j1 < j2 < |c| ==> c[j1].0 != c[j2].0
    ensures Lists(c, ChainMap(c))
  {
    ChainMapPairs(c);
    forall k | k in ChainMap(c)
      ensures InChain(c, k)
    {
      var j := ChainMapWitness(c, k);
      InChainAt(c, j);
    }
  }

  /** Listings of two maps with no key in common join into a listing of
      their union. */
  lemma ListsAppend<K, V>(f1: seq<(K, V)>, m1: map<K, V>, f2: seq<(K, V)>, m2: map<K, V>)
    requires Lists(f1, m1) && Lists(f2, m2)
    requires forall k :: k in m1 ==> k !in m2
    ensures Lists(f1 + f2, m1 + m2)
  {
    var f := f1 + f2;
    forall i | 0 <= i < |f|
      ensures f[i].0 in m1 + m2 && (m1 + m2)[f[i].0] == f[i].1
    {
      if i < |f1| {
        assert f[i] == f1[i];
      } else {
        assert f[i] == f2[i - |f1|];
      }
    }
    forall i1, i2 | 0 <= i1 < i2 < |f|
      ensures f[i1].0 != f[i2].0
    {
      if i2 < |f1| {
        assert f[i1] == f1[i1] && f[i2] == f1[i2];
      } else if i1 >= |f1| {
        assert f[i1] == f2[i1 - |f1|] && f[i2] == f2[i2 - |f1|];
      } else {
        assert f[i1] == f1[i1] && f[i2] == f2[i2 - |f1|];
      }
    }
    forall k | k in m1 + m2
      ensures InChain(f, k)
    {
      if k in m2 {
        var j := InChainWitness(f2, k);
        assert f[|f1| + j] == f2[j];
        InChainAt(f, |f1| + j);
      } else {
        var j := InChainWitness(f1, k);
        assert f[j] == f1[j];
        InChainAt(f, j);
      }
    }
  }

  /** A chained table lists exactly the map it spells out. */
  lemma {:induction false} FlattenLists<K, V>(b: seq<seq<(K, V)>>, hash: K -> nat, capacity: nat)
    requires Chained(b, hash, capacity)
    ensures Lists(Flatten(b), BucketsMap(b))
    decreases |b|
  {
    if b != [] {
      var n := |b| - 1;
      var p := b[..n];
      ChainedPrefix(b, hash, capacity, n);
      FlattenLists(p, hash, capacity);
      SpellsBucketsMap(p, hash, capacity);
      ChainLists(b[n]);
      ChainKeysHome(b, hash, capacity, n);
      forall k | k in BucketsMap(p)
        ensures k !in ChainMap(b[n])
      {
        assert hash(k) % capacity < n;
      }
      ListsAppend(Flatten(p), BucketsMap(p), b[n], ChainMap(b[n]));
    }
  }
}
