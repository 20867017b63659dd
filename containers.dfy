/**
 * The small containers of coding/util/etc.py: the `memoize` cache, a dict
 * that fills itself from a function on a missing key, and `multimap`, a
 * dict from keys to sets of values.
 */
module Containers {
  import opened Wrappers

  /** `memoize(f)`: a cache from argument tuples to `f`'s results (the
      tuple of `*args` is the type `A`). `IntegerFieldCache` in
      LegacyFields is the same decorator around a constructor that can fail. */
  class Memoize<A(==), R> {
    const f: A -> R
    var cache: map<A, R>

    /** Every cached value is what `f` gives for its key. */
    ghost predicate Valid()
      reads this
    {
      forall a :: a in cache ==> cache[a] == f(a)
    }

    constructor(f: A -> R)
      ensures this.f == f && cache == map[] && Valid()
    {
      this.f := f;
      cache := map[];
    }

    /** `__call__` looks the arguments up; `__missing__` computes, stores and
        returns `f(*args)`. A present key is answered from the cache, and no
        entry is ever changed or removed. */
    method Call(a: A) returns (r: R)
      requires Valid()
      modifies this
      ensures Valid()
      ensures r == f(a)
      ensures cache == old(cache)[a := r]
      ensures a in old(cache) ==> r == old(cache)[a] && cache == old(cache)
      ensures forall b :: b in old(cache) ==> b in cache && cache[b] == old(cache)[b]
    {
      if a in cache {
        r := cache[a];
        assert cache == cache[a := r];
        return;
      }
      r := f(a);
      cache := cache[a := r];
    }
  }

  /** The pairs `(k, v)` with `v` in the set under `k`. */
  function FlatPairs<K(==,!new), V(==,!new)>(m: map<K, set<V>>): (r: set<(K, V)>)
    ensures forall k, v :: (k, v) in r <==> k in m && v in m[k]
  {
    set k, v | k in m && v in m[k] :: (k, v)
  }

  /** The sizes of the value sets, added up key by key. */
  ghost function SizeSum<K(!new), V(!new)>(m: map<K, set<V>>): nat
    decreases |m.Keys|
  {
    if m == map[] then 0
    else
      var k :| k in m;
      assert |(m - {k}).Keys| < |m.Keys| by {
        assert m.Keys == (m - {k}).Keys + {k};
      }
      |m[k]| + SizeSum(m - {k})
  }

  /** The pairs under one key. */
  function Row<K(==,!new), V(==,!new)>(k: K, s: set<V>): set<(K, V)>
  {
    set v | v in s :: (k, v)
  }

  lemma {:induction false} RowSize<K(!new), V(!new)>(k: K, s: set<V>)
    ensures |Row(k, s)| == |s|
    decreases |s|
  {
    if s != {} {
      var v :| v in s;
      RowSize(k, s - {v});
      assert Row(k, s) == Row(k, s - {v}) + {(k, v)};
    }
  }

  /** Taking one key out removes exactly the pairs under it. */
  lemma FlatPairsSplit<K(!new), V(!new)>(m: map<K, set<V>>, k: K)
    requires k in m
    ensures |FlatPairs(m)| == |FlatPairs(m - {k})| + |m[k]|
  {
    assert FlatPairs(m) == FlatPairs(m - {k}) + Row(k, m[k]);
    assert FlatPairs(m - {k}) !! Row(k, m[k]);
    RowSize(k, m[k]);
  }

  /** There are as many pairs as the sizes of the sets add up to. */
  lemma {:induction false} SizeSumIsFlatCount<K(!new), V(!new)>(m: map<K, set<V>>)
    ensures SizeSum(m) == |FlatPairs(m)|
    decreases |m.Keys|
  {
    if m != map[] {
      var k :| k in m && SizeSum(m) == |m[k]| + SizeSum(m - {k});
      assert m.Keys == (m - {k}).Keys + {k};
      SizeSumIsFlatCount(m - {k});
      FlatPairsSplit(m, k);
    }
  }

  /** A list without repeats holding exactly the members of `s` has `|s|`
      entries: `flat_len` counts what `flat_items` yields. */
  lemma {:induction false} DistinctCount<T(!new)>(items: seq<T>, s: set<T>)
    requires forall p :: p in items <==> p in s
    requires forall i, j :: 0 <= i < j < |items| ==> items[i] != items[j]
    ensures |items| == |s|
    decreases |items|
  {
    if items != [] {
      var last := items[|items| - 1];
      var init := items[..|items| - 1];
      forall p
        ensures p in init <==> p in s - {last}
      {
        if p in init {
          var i :| 0 <= i < |init| && init[i] == p;
          assert items[i] == p;
        }
        if p in s - {last} {
          assert p in items;
          var i :| 0 <= i < |items| && items[i] == p;
          assert i < |items| - 1;
          assert init[i] == p;
        }
      }
      DistinctCount(init, s - {last});
    }
  }

  /** `multimap`: a `defaultdict(set)`, a map from keys to sets of values. */
  class Multimap<K(==,!new), V(==,!new)> {
    var entries: map<K, set<V>>

    constructor(init: map<K, set<V>>)
      ensures entries == init
    {
      entries := init;
    }

    /** `flat_items`: for every key and every value in its set, the pair
        `(k, v)`, each pair exactly once. */
    method FlatItems() returns (items: seq<(K, V)>)
      ensures forall p :: p in items <==> p in FlatPairs(entries)
      ensures forall i, j :: 0 <= i < j < |items| ==> items[i] != items[j]
      ensures |items| == |FlatPairs(entries)|
    {
      items := [];
      var rest := entries;
      while rest != map[]
        invariant forall k :: k in rest ==> k in entries && rest[k] == entries[k]
        invariant forall p :: p in items <==> p in FlatPairs(entries) && p.0 !in rest
        invariant forall i, j :: 0 <= i < j < |items| ==> items[i] != items[j]
        decreases |rest.Keys|
      {
        var k :| k in rest;
        var values := rest[k];
        while values != {}
          invariant values <= entries[k]
          invariant forall p :: p in items <==>
                      (p in FlatPairs(entries) && p.0 !in rest) || (p.0 == k && p.1 in entries[k] && p.1 !in values)
          invariant forall i, j :: 0 <= i < j < |items| ==> items[i] != items[j]
          decreases |values|
        {
          var v :| v in values;
          items := items + [(k, v)];
          values := values - {v};
        }
        assert rest.Keys == (rest - {k}).Keys + {k};
        rest := rest - {k};
      }
      DistinctCount(items, FlatPairs(entries));
    }

    /** `flat_len`: the sizes of the value sets added up, which is the
        number of pairs `flat_items` yields. */
    method FlatLen() returns (n: nat)
      ensures n == |FlatPairs(entries)|
      ensures n == SizeSum(entries)
    {
      n := 0;
      var rest := entries;
      while rest != map[]
        invariant n + |FlatPairs(rest)| == |FlatPairs(entries)|
        decreases |rest.Keys|
      {
        var k :| k in rest;
        FlatPairsSplit(rest, k);
        assert rest.Keys == (rest - {k}).Keys + {k};
        n := n + |rest[k]|;
        rest := rest - {k};
      }
      assert FlatPairs(rest) == {};
      SizeSumIsFlatCount(entries);
    }

    /** `flatten`: when every set is a singleton, the map from each key to its
        sole element; each set is emptied by `pop` on the way. On the first
        set of another size it raises, with the keys visited before already
        emptied (the order of the keys is the dict's and is left open). */
    method Flatten() returns (r: Result<map<K, V>, FlattenError>)
      modifies this
      ensures r.Ok? <==> forall k :: k in old(entries) ==> |old(entries)[k]| == 1
      ensures entries.Keys == old(entries).Keys
      ensures forall k :: k in entries ==>
                entries[k] == old(entries)[k] || (|old(entries)[k]| == 1 && entries[k] == {})
      ensures r.Ok? ==> r.value.Keys == old(entries).Keys
      ensures r.Ok? ==> forall k :: k in r.value ==> old(entries)[k] == {r.value[k]}
      ensures r.Ok? ==> forall k :: k in entries ==> entries[k] == {}
      ensures r.Ok? ==> FlatPairs(old(entries)) == set k | k in r.value :: (k, r.value[k])
      ensures r.Err? ==> exists k :: k in entries && |old(entries)[k]| != 1 && entries[k] == old(entries)[k]
    {
      ghost var before := entries;
      var popped := entries;
      var d := map[];
      var rest := entries.Keys;
      while rest != {}
        invariant rest <= popped.Keys && popped.Keys == before.Keys
        invariant forall k :: k in rest ==> popped[k] == before[k]
        invariant forall k :: k in popped && k !in rest ==> |before[k]| == 1 && popped[k] == {}
        invariant forall k :: k in d <==> k in popped && k !in rest
        invariant forall k :: k in d ==> before[k] == {d[k]}
        decreases |rest|
      {
        var k :| k in rest;
        var values := popped[k];
        if |values| != 1 {
          entries := popped;
          return Err(NameError);
        }
        var v :| v in values;
        assert values == {v} by {
          assert |values - {v}| == 0;
        }
        popped := popped[k := {}];
        d := d[k := v];
        rest := rest - {k};
      }
      entries := popped;
      SingletonPairs(old(entries), d);
      r := Ok(d);
    }
  }

  /** When every set is the singleton of what `d` has under its key, the
      pairs are exactly those of `d`. */
  lemma SingletonPairs<K(!new), V(!new)>(m: map<K, set<V>>, d: map<K, V>)
    requires m.Keys == d.Keys
    requires forall k :: k in d ==> m[k] == {d[k]}
    ensures FlatPairs(m) == set k | k in d :: (k, d[k])
  {
    forall p | p in FlatPairs(m)
      ensures p in set k | k in d :: (k, d[k])
    {
      assert p.1 in m[p.0];
    }
  }

  /** `flatten` raises `NotFlat(v)`, a name the module never defines, so
      what propagates is a `NameError`. */
  datatype FlattenError = NameError
}
