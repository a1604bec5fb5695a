/**
 * `find_mode`: the most frequent values of a sequence and their frequency,
 * counted with a separate-chaining map of default capacity 11.
 */
module ModeFinder {
  import opened Common
  import opened Chains
  import opened SeparateChaining

  /** How often each value of s occurs, as the counting map holds it. */
  ghost function Tally<T>(s: seq<T>): map<T, Option<nat>>
  {
    map k | k in s :: Some(multiset(s)[k])
  }

  /** Counting one more value adds one to its tally (from nothing to 1 for
      a new value) and leaves the others alone. */
  lemma TallyStep<T>(s: seq<T>, x: T)
    ensures Tally(s + [x]) == Tally(s)[x := Some(multiset(s)[x] + 1)]
  {
    var t := s + [x];
    assert multiset(t) == multiset(s) + multiset{x};
    forall k
      ensures k in Tally(t) <==> k in Tally(s)[x := Some(multiset(s)[x] + 1)]
    {
      assert k in t <==> k in s || k == x;
    }
    MapsEqual(Tally(t), Tally(s)[x := Some(multiset(s)[x] + 1)]);
  }

  /** The keys of the pairs of f whose value is c, in order: the last loop
      of `find_mode`. */
  function KeysWith<T>(f: seq<(T, Option<nat>)>, c: nat): seq<T>
  {
    if f == [] then []
    else KeysWith(f[..|f| - 1], c) + (if f[|f| - 1].1 == Some(c) then [f[|f| - 1].0] else [])
  }

  /** A selected key comes from a pair with value c. */
  lemma {:induction false} KeysWithWitness<T>(f: seq<(T, Option<nat>)>, c: nat, y: T) returns (i: nat)
    requires y in KeysWith(f, c)
    ensures i < |f| && f[i].0 == y && f[i].1 == Some(c)
    decreases |f|
  {
    var n := |f| - 1;
    if y in KeysWith(f[..n], c) {
      i := KeysWithWitness(f[..n], c, y);
      assert f[..n][i] == f[i];
    } else {
      i := n;
    }
  }

  /** The key of every pair with value c is selected. */
  lemma {:induction false} KeysWithAt<T>(f: seq<(T, Option<nat>)>, c: nat, i: nat)
    requires i < |f| && f[i].1 == Some(c)
    ensures f[i].0 in KeysWith(f, c)
    decreases |f|
  {
    var n := |f| - 1;
    if i < n {
      KeysWithAt(f[..n], c, i);
      assert f[..n][i] == f[i];
    }
  }

  /** Selecting from pairs with distinct keys selects no key twice. */
  lemma {:induction false} KeysWithDistinct<T>(f: seq<(T, Option<nat>)>, c: nat)
    requires forall i1, i2 :: 0 <= i1 < i2 < |f| ==> f[i1].0 != f[i2].0
    ensures forall i, j :: 0 <= i < j < |KeysWith(f, c)| ==> KeysWith(f, c)[i] != KeysWith(f, c)[j]
    decreases |f|
  {
    if f != [] {
      var n := |f| - 1;
      var p := f[..n];
      KeysWithDistinct(p, c);
      if f[n].0 in KeysWith(p, c) {
        var i := KeysWithWitness(p, c, f[n].0);
        assert false;
      }
    }
  }

  /** The modes read off a listing of the tally of da: the keys whose count
      is frequency are exactly the values of da occurring frequency times. */
  lemma ModesExact<T>(da: seq<T>, kv: seq<(T, Option<nat>)>, frequency: nat)
    requires Lists(kv, Tally(da))
    ensures forall y :: y in KeysWith(kv, frequency) <==> y in da && multiset(da)[y] == frequency
  {
    forall y
      ensures y in KeysWith(kv, frequency) <==> y in da && multiset(da)[y] == frequency
    {
      if y in KeysWith(kv, frequency) {
        var i := KeysWithWitness(kv, frequency, y);
      }
      if y in da {
        var i := InChainWitness(kv, y);
        if multiset(da)[y] == frequency {
          KeysWithAt(kv, frequency, i);
        }
      }
    }
  }

  /** `find_mode`: count every value of da in a fresh map, take the largest
      count, then list the values having it.  The result is empty with
      frequency 0 for an empty input; otherwise frequency is the largest
      number of occurrences and modes holds each value occurring that
      often, once. */
  method FindMode<T(==)>(da: seq<T>, hash: T -> nat) returns (modes: seq<T>, frequency: nat)
    ensures modes == [] <==> da == []
    ensures da == [] ==> frequency == 0
    ensures forall y :: y in da ==> multiset(da)[y] <= frequency
    ensures forall y :: y in modes <==> y in da && multiset(da)[y] == frequency
    ensures forall i, j :: 0 <= i < j < |modes| ==> modes[i] != modes[j]
  {
    var counts := CountAll(da, hash);
    var kv := counts.GetKeysAndValues();
    assert Lists(kv, Tally(da));
    assert forall i :: 0 <= i < |kv| ==> kv[i].1.Some?;
    frequency := LargestCount(kv);
    modes := KeysWithCount(kv, frequency);
    ModesOfListing(da, kv, frequency);
  }

  /** The last two loops of `find_mode`, run over any listing of the
      tally, select the values of largest multiplicity, each once. */
  lemma ModesOfListing<T>(da: seq<T>, kv: seq<(T, Option<nat>)>, frequency: nat)
    requires Lists(kv, Tally(da))
    requires forall i :: 0 <= i < |kv| ==> kv[i].1.Some? && kv[i].1.value <= frequency
    requires kv != [] ==> exists i :: 0 <= i < |kv| && kv[i].1.value == frequency
    requires kv == [] ==> frequency == 0
    ensures KeysWith(kv, frequency) == [] <==> da == []
    ensures da == [] ==> frequency == 0
    ensures forall y :: y in da ==> multiset(da)[y] <= frequency
    ensures forall y :: y in KeysWith(kv, frequency) <==> y in da && multiset(da)[y] == frequency
    ensures forall i, j :: 0 <= i < j < |KeysWith(kv, frequency)| ==> KeysWith(kv, frequency)[i] != KeysWith(kv, frequency)[j]
  {
    ModesExact(da, kv, frequency);
    KeysWithDistinct(kv, frequency);
    forall y | y in da
      ensures multiset(da)[y] <= frequency
    {
      var i := InChainWitness(kv, y);
    }
    if da != [] {
      var i := InChainWitness(kv, da[0]);
      var j :| 0 <= j < |kv| && kv[j].1.value == frequency;
      KeysWithAt(kv, frequency, j);
    }
  }

  /** The first loop of `find_mode`: a fresh map of default capacity 11
      ends up holding the count of every value of da, and nothing else. */
  method CountAll<T(==)>(da: seq<T>, hash: T -> nat) returns (counts: HashMap<T, nat>)
    ensures fresh(counts) && counts.Valid() && counts.hash == hash
    ensures counts.Contents() == Tally(da)
  {
    counts := new HashMap<T, nat>(11, hash);
    var x := 0;
    while x < |da|
      invariant 0 <= x <= |da|
      invariant fresh(counts) && counts.Valid() && counts.hash == hash
      invariant counts.Contents() == Tally(da[..x])
    {
      assert da[..x + 1] == da[..x] + [da[x]];
      CountOne(counts, da[..x], da[x]);
      x := x + 1;
    }
    assert da[..x] == da;
  }

  /** The body of the first loop of `find_mode`: a value not yet in the
      map is put with count 1, otherwise its count goes up by one. */
  method CountOne<T>(counts: HashMap<T, nat>, s: seq<T>, v: T)
    requires counts.Valid() && counts.Contents() == Tally(s)
    modifies counts
    ensures counts.Valid() && counts.Contents() == Tally(s + [v])
  {
    TallyStep(s, v);
    var present := counts.ContainsKey(v);
    if !present {
      counts.Put(v, Some(1));
    } else {
      var c := counts.Get(v);
      counts.Put(v, Some(c.value + 1));
    }
  }

  /** The second loop of `find_mode`: the largest count of the listing, or
      0 when it is empty. */
  method LargestCount<T>(kv: seq<(T, Option<nat>)>) returns (frequency: nat)
    requires forall i :: 0 <= i < |kv| ==> kv[i].1.Some?
    ensures forall i :: 0 <= i < |kv| ==> kv[i].1.value <= frequency
    ensures kv != [] ==> exists i :: 0 <= i < |kv| && kv[i].1.value == frequency
    ensures kv == [] ==> frequency == 0
  {
    frequency := 0;
    ghost var at := 0;
    var x := 0;
    while x < |kv|
      invariant 0 <= x <= |kv|
      invariant forall i :: 0 <= i < x ==> kv[i].1.value <= frequency
      invariant x > 0 ==> at < x && kv[at].1.value == frequency
      invariant x == 0 ==> frequency == 0 && at == 0
    {
      if frequency < kv[x].1.value {
        frequency := kv[x].1.value;
        at := x;
      }
      x := x + 1;
    }
  }

  /** The third loop of `find_mode`: the keys of the listing whose count
      is frequency, in listing order. */
  method KeysWithCount<T>(kv: seq<(T, Option<nat>)>, frequency: nat) returns (modes: seq<T>)
    requires forall i :: 0 <= i < |kv| ==> kv[i].1.Some?
    ensures modes == KeysWith(kv, frequency)
  {
    modes := [];
    var x := 0;
    while x < |kv|
      invariant 0 <= x <= |kv|
      invariant modes == KeysWith(kv[..x], frequency)
    {
      assert kv[..x + 1][..x] == kv[..x];
      if kv[x].1.value == frequency {
        modes := modes + [kv[x].0];
      }
      x := x + 1;
    }
    assert kv[..x] == kv;
  }

  /** A non-empty sequence without repetitions whose every element is x
      is [x]. */
  lemma OnlyValue<T>(s: seq<T>, x: T)
    requires s != [] && forall y :: y in s ==> y == x
    requires forall i, j :: 0 <= i < j < |s| ==> s[i] != s[j]
    ensures s == [x]
  {
    assert s[0] in s && s[|s| - 1] in s;
    assert |s| == 1;
  }

  /** The example of `find_mode`'s documentation: one value occurs twice,
      three others once. */
  method FruitModes() returns (modes: seq<string>, frequency: nat)
    ensures modes == ["apple"] && frequency == 2
  {
    var da := ["apple", "apple", "grape", "melon", "peach"];
    modes, frequency := FindMode(da, (s: string) => |s|);
    var counts := multiset(da);
    assert counts == multiset{"apple", "apple", "grape", "melon", "peach"};
    assert counts["apple"] == 2 && counts["grape"] == 1 && counts["melon"] == 1 && counts["peach"] == 1;
    assert 2 <= frequency;
    forall y | y in modes
      ensures y == "apple"
    {
      assert y in da && counts[y] == frequency;
      assert y == "apple" || y == "grape" || y == "melon" || y == "peach";
    }
    assert modes != [] && modes[0] in modes;
    assert frequency == 2;
    OnlyValue(modes, "apple");
  }
}
