/**
 The earlier JavaScript draft of MaFP (index.js). It has only `map`,
 `mapToArray`, `filter`, `filterToArray` and `reduce`, and its `map` and
 `filter` return a plain Map (an OrderedMap here), not a MaFP.

 As in module Mafp, the draft holds the Map it extends as `base`; none of its
 traversals has a `modifies` clause, so the receiver is never changed.
 */
module MafpDraft {
  import opened Entries
  import opened BaseMap

  class MaFP<K(==), V> {
    /** The Map this draft extends. */
    const base: OrderedMap<K, V>

    ghost predicate Valid()
      reads base
    {
      base.Valid()
    }

    /** The entries in iteration order. */
    ghost function Entries(): (es: seq<(K, V)>)
      reads base
      requires Valid()
      ensures DistinctKeys(es)
    {
      base.Entries()
    }

    /** `new MaFP(args)`: the pairs are set one after another in array order. */
    constructor (args: seq<(K, V)>)
      ensures Valid() && fresh(base)
      ensures Entries() == FromPairs(args)
    {
      base := new OrderedMap();
      new;
      var i := 0;
      while i < |args|
        invariant 0 <= i <= |args|
        invariant Valid() && fresh(base)
        invariant Entries() == FromPairs(args[..i])
      {
        assert args[..i + 1][..i] == args[..i];
        Set(args[i].0, args[i].1);
        i := i + 1;
      }
      assert args[..|args|] == args;
    }

    /** The inherited `set`. */
    method Set(k: K, v: V)
      requires Valid()
      modifies base
      ensures Valid()
      ensures Entries() == Put(old(Entries()), k, v)
    {
      base.Set(k, v);
    }

    /** `map(fn)`: a new plain Map with the same keys in the same order, each
        value replaced by fn(value, key). */
    method Map<T>(fn: (V, K) -> T) returns (r: OrderedMap<K, T>)
      requires Valid()
      ensures fresh(r) && r.Valid()
      ensures r.Entries() == MapEntries(Entries(), fn)
    {
      ghost var es := Entries();
      r := new OrderedMap();
      var ks := base.keys;
      var i := 0;
      while i < |ks|
        invariant 0 <= i <= |ks|
        invariant fresh(r) && r.Valid()
        invariant r.Entries() == MapEntries(es[..i], fn)
      {
        var k := ks[i];
        var t := fn(base.m[k], k);
        MapStep(es, i, fn);
        PutAppends(r.Entries(), k, t);
        r.Set(k, t);
        i := i + 1;
      }
      assert es[..i] == es;
    }

    /** `mapToArray(fn)`: the [key, fn(value, key)] pairs in iteration order. */
    method MapToArray<T>(fn: (V, K) -> T) returns (r: seq<(K, T)>)
      requires Valid()
      ensures r == MapEntries(Entries(), fn)
    {
      ghost var es := Entries();
      r := [];
      var ks := base.keys;
      var i := 0;
      while i < |ks|
        invariant 0 <= i <= |ks|
        invariant r == MapEntries(es[..i], fn)
      {
        var k := ks[i];
        var v := base.m[k];
        MapStep(es, i, fn);
        r := r + [(k, fn(v, k))];
        i := i + 1;
      }
      assert es[..i] == es;
    }

    /** `filter(fn)`: a new plain Map holding the entries whose predicate
        holds, values unchanged, in their original order. */
    method Filter(fn: (V, K) -> bool) returns (r: OrderedMap<K, V>)
      requires Valid()
      ensures fresh(r) && r.Valid()
      ensures r.Entries() == FilterEntries(Entries(), fn)
    {
      ghost var es := Entries();
      r := new OrderedMap();
      var ks := base.keys;
      var i := 0;
      while i < |ks|
        invariant 0 <= i <= |ks|
        invariant fresh(r) && r.Valid()
        invariant r.Entries() == FilterEntries(es[..i], fn)
      {
        var k := ks[i];
        var v := base.m[k];
        FilterStep(es, i, fn);
        if fn(v, k) {
          PutAppends(r.Entries(), k, v);
          r.Set(k, v);
        }
        assert r.Entries() == FilterEntries(es[..i + 1], fn);
        i := i + 1;
      }
      assert es[..i] == es;
    }

    /** `filterToArray(fn)`: the [key, value] pairs whose predicate holds, in
        iteration order. */
    method FilterToArray(fn: (V, K) -> bool) returns (r: seq<(K, V)>)
      requires Valid()
      ensures r == FilterEntries(Entries(), fn)
    {
      ghost var es := Entries();
      r := [];
      var ks := base.keys;
      var i := 0;
      while i < |ks|
        invariant 0 <= i <= |ks|
        invariant r == FilterEntries(es[..i], fn)
      {
        var k := ks[i];
        var v := base.m[k];
        FilterStep(es, i, fn);
        if fn(v, k) {
          r := r + [(k, v)];
        }
        i := i + 1;
      }
      assert es[..i] == es;
    }

    /** `reduce(fn, accumulator)`: the left fold of fn over the entries in
        iteration order, starting from `accumulator`. */
    method Reduce<A>(fn: (A, V, K) -> A, accumulator: A) returns (r: A)
      requires Valid()
      ensures r == Fold(Entries(), fn, accumulator)
    {
      ghost var es := Entries();
      r := accumulator;
      var ks := base.keys;
      var i := 0;
      while i < |ks|
        invariant 0 <= i <= |ks|
        invariant Fold(es[i..], fn, r) == Fold(es, fn, accumulator)
      {
        var k := ks[i];
        var v := base.m[k];
        assert es[i..][1..] == es[i + 1..];
        r := fn(r, v, k);
        i := i + 1;
      }
    }
  }
}
