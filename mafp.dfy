/**
 MaFP (src/index.ts): a Map with native `map`, `filter`, `reduce`, `every` and
 `some`, and key/value views with `filterToArray`.

 MaFP extends the built-in Map; here it holds its Map as `base` and forwards
 `set` to it. Every traversal walks the entries in insertion order. None of
 them has a `modifies` clause, so none can change the receiver: results go into
 a freshly allocated map or a local sequence. Callbacks are total Dafny
 functions of (value, key); the third argument (the map itself) and `thisArg`
 are not modelled.
 */
module Mafp {
  import opened Entries
  import opened BaseMap

  class MaFP<K(==), V> {
    /** The Map this MaFP extends. */
    const base: OrderedMap<K, V>

    ghost predicate Valid()
      reads base
    {
      base.Valid()
    }

    /** The entries in iteration order. */
    ghost function Entries(): (es: seq<(K, V)>)
      reads base
      requires Valid()
      ensures DistinctKeys(es)
    {
      base.Entries()
    }

    /** `new MaFP(args)`: the tuples are set one after another in array order. */
    constructor (args: seq<(K, V)>)
      ensures Valid() && fresh(base)
      ensures Entries() == FromPairs(args)
    {
      base := new OrderedMap();
      new;
      var i := 0;
      while i < |args|
        invariant 0 <= i <= |args|
        invariant Valid() && fresh(base)
        invariant Entries() == FromPairs(args[..i])
      {
        assert args[..i + 1][..i] == args[..i];
        Set(args[i].0, args[i].1);
        i := i + 1;
      }
      assert args[..|args|] == args;
    }

    /** The inherited `set`. */
    method Set(k: K, v: V)
      requires Valid()
      modifies base
      ensures Valid()
      ensures Entries() == Put(old(Entries()), k, v)
    {
      base.Set(k, v);
    }

    /** `map(fn)`: a new MaFP with the same keys in the same order, each value
        replaced by fn(value, key). */
    method Map<T>(fn: (V, K) -> T) returns (r: MaFP<K, T>)
      requires Valid()
      ensures fresh(r) && fresh(r.base) && r.Valid()
      ensures r.Entries() == MapEntries(Entries(), fn)
    {
      ghost var es := Entries();
      r := new MaFP([]);
      var ks := base.keys;
      var i := 0;
      while i < |ks|
        invariant 0 <= i <= |ks|
        invariant fresh(r) && fresh(r.base) && r.Valid()
        invariant r.Entries() == MapEntries(es[..i], fn)
      {
        var k := ks[i];
        var t := fn(base.m[k], k);
        MapStep(es, i, fn);
        PutAppends(r.Entries(), k, t);
        r.Set(k, t);
        i := i + 1;
      }
      assert es[..i] == es;
    }

    /** `mapToArray(fn)`: the [key, fn(value, key)] pairs in iteration order,
        which are exactly the entries of `map(fn)`. */
    method MapToArray<T>(fn: (V, K) -> T) returns (r: seq<(K, T)>)
      requires Valid()
      ensures r == MapEntries(Entries(), fn)
    {
      ghost var es := Entries();
      r := [];
      var ks := base.keys;
      var i := 0;
      while i < |ks|
        invariant 0 <= i <= |ks|
        invariant r == MapEntries(es[..i], fn)
      {
        var k := ks[i];
        MapStep(es, i, fn);
        r := r + [(k, fn(base.m[k], k))];
        i := i + 1;
      }
      assert es[..i] == es;
    }

    /** `filter(fn)`: a new MaFP holding the entries whose predicate holds,
        values unchanged, in their original order. */
    method Filter(fn: (V, K) -> bool) returns (r: MaFP<K, V>)
      requires Valid()
      ensures fresh(r) && fresh(r.base) && r.Valid()
      ensures r.Entries() == FilterEntries(Entries(), fn)
    {
      ghost var es := Entries();
      r := new MaFP([]);
      var ks := base.keys;
      var i := 0;
      while i < |ks|
        invariant 0 <= i <= |ks|
        invariant fresh(r) && fresh(r.base) && r.Valid()
        invariant r.Entries() == FilterEntries(es[..i], fn)
      {
        var k := ks[i];
        var v := base.m[k];
        FilterStep(es, i, fn);
        if fn(v, k) {
          PutAppends(r.Entries(), k, v);
          r.Set(k, v);
        }
        assert r.Entries() == FilterEntries(es[..i + 1], fn);
        i := i + 1;
      }
      assert es[..i] == es;
    }

    /** `filterToArray(fn)`: the [key, value] pairs whose predicate holds, in
        iteration order, which are exactly the entries of `filter(fn)`. */
    method FilterToArray(fn: (V, K) -> bool) returns (r: seq<(K, V)>)
      requires Valid()
      ensures r == FilterEntries(Entries(), fn)
    {
      ghost var es := Entries();
      r := [];
      var ks := base.keys;
      var i := 0;
      while i < |ks|
        invariant 0 <= i <= |ks|
        invariant r == FilterEntries(es[..i], fn)
      {
        var k := ks[i];
        var v := base.m[k];
        FilterStep(es, i, fn);
        if fn(v, k) {
          r := r + [(k, v)];
        }
        i := i + 1;
      }
      assert es[..i] == es;
    }

    /** `reduce(fn, accumulator)`: the left fold of fn over the entries in
        iteration order, starting from `accumulator`. */
    method Reduce<A>(fn: (A, V, K) -> A, accumulator: A) returns (r: A)
      requires Valid()
      ensures r == Fold(Entries(), fn, accumulator)
    {
      ghost var es := Entries();
      r := accumulator;
      var ks := base.keys;
      var i := 0;
      while i < |ks|
        invariant 0 <= i <= |ks|
        invariant Fold(es[i..], fn, r) == Fold(es, fn, accumulator)
      {
        var k := ks[i];
        assert es[i..][1..] == es[i + 1..];
        r := fn(r, base.m[k], k);
        i := i + 1;
      }
    }

    /** `every(fn)`: false at the first entry whose predicate fails, true when
        every entry passes (or there is none). `visited` counts the calls of
        `fn`: no entry after the deciding one is looked at. */
    method Every(fn: (V, K) -> bool) returns (r: bool, ghost visited: nat)
      requires Valid()
      ensures r == All(Entries(), fn)
      ensures visited <= |Entries()|
      ensures r ==> visited == |Entries()|
      ensures !r ==> 0 < visited && !fn(Entries()[visited - 1].1, Entries()[visited - 1].0)
      ensures forall j :: 0 <= j < visited - 1 ==> fn(Entries()[j].1, Entries()[j].0)
    {
      ghost var es := Entries();
      var ks := base.keys;
      var i := 0;
      while i < |ks|
        invariant 0 <= i <= |ks|
        invariant forall j :: 0 <= j < i ==> fn(es[j].1, es[j].0)
      {
        var k := ks[i];
        if !fn(base.m[k], k) {
          return false, i + 1;
        }
        i := i + 1;
      }
      return true, i;
    }

    /** `some(fn)`: true at the first entry whose predicate holds, false when
        none does (or there is none). `visited` counts the calls of `fn`: no
        entry after the deciding one is looked at. */
    method Some(fn: (V, K) -> bool) returns (r: bool, ghost visited: nat)
      requires Valid()
      ensures r == Any(Entries(), fn)
      ensures visited <= |Entries()|
      ensures !r ==> visited == |Entries()|
      ensures r ==> 0 < visited && fn(Entries()[visited - 1].1, Entries()[visited - 1].0)
      ensures forall j :: 0 <= j < visited - 1 ==> !fn(Entries()[j].1, Entries()[j].0)
    {
      ghost var es := Entries();
      var ks := base.keys;
      var i := 0;
      while i < |ks|
        invariant 0 <= i <= |ks|
        invariant forall j :: 0 <= j < i ==> !fn(es[j].1, es[j].0)
      {
        var k := ks[i];
        if fn(base.m[k], k) {
          return true, i + 1;
        }
        i := i + 1;
      }
      return false, i;
    }

    /** `keys()`: a view of the keys that reads this map whenever it is used. */
    function Keys(): (view: KeyView<K, V>)
      ensures view.owner == this
    {
      KeyView(this)
    }

    /** `values()`: a view of the values that reads this map whenever it is used. */
    function Values(): (view: ValueView<K, V>)
      ensures view.owner == this
    {
      ValueView(this)
    }
  }

  /** The iterator returned by `keys()`, decorated with `filterToArray`. It holds
      the map itself, not a copy of its keys. */
  datatype KeyView<K(==), V> = KeyView(owner: MaFP<K, V>)
  {
    /** The keys of the owner, as they are now, whose predicate holds, in
        iteration order. */
    method FilterToArray(fn: K -> bool) returns (r: seq<K>)
      requires owner.Valid()
      ensures r == FilterSeq(KeysOf(owner.Entries()), fn)
    {
      var ks := owner.base.keys;
      r := [];
      var i := 0;
      while i < |ks|
        invariant 0 <= i <= |ks|
        invariant r == FilterSeq(ks[..i], fn)
      {
        FilterSeqStep(ks, i, fn);
        if fn(ks[i]) {
          r := r + [ks[i]];
        }
        i := i + 1;
      }
      assert ks[..i] == ks;
    }
  }

  /** The iterator returned by `values()`, decorated with `filterToArray`. It
      holds the map itself, not a copy of its values. */
  datatype ValueView<K(==), V> = ValueView(owner: MaFP<K, V>)
  {
    /** The values of the owner, as they are now, whose predicate holds, in
        iteration order. */
    method FilterToArray(fn: V -> bool) returns (r: seq<V>)
      requires owner.Valid()
      ensures r == FilterSeq(ValuesOf(owner.Entries()), fn)
    {
      ghost var vs := ValuesOf(owner.Entries());
      var ks := owner.base.keys;
      r := [];
      var i := 0;
      while i < |ks|
        invariant 0 <= i <= |ks|
        invariant r == FilterSeq(vs[..i], fn)
      {
        var v := owner.base.m[ks[i]];
        assert vs[i] == v;
        FilterSeqStep(vs, i, fn);
        if fn(v) {
          r := r + [v];
        }
        i := i + 1;
      }
      assert vs[..i] == vs;
    }
  }

  /** A key view taken before a `set` sees the key added afterwards: two calls
      of `filterToArray` on an unchanged map agree, and after `set` of a new key
      the next call also returns that key when it passes. */
  method KeyViewIsLive<K(==), V>(mp: MaFP<K, V>, k: K, v: V, fn: K -> bool)
    returns (first: seq<K>, second: seq<K>, afterSet: seq<K>)
    requires mp.Valid() && k !in KeysOf(mp.Entries())
    modifies mp.base
    ensures first == second
    ensures afterSet == first + if fn(k) then [k] else []
  {
    var view := mp.Keys();
    first := view.FilterToArray(fn);
    second := view.FilterToArray(fn);
    ghost var es := mp.Entries();
    ghost var ks := KeysOf(es);
    PutAppends(es, k, v);
    mp.Set(k, v);
    assert KeysOf(es + [(k, v)]) == ks + [k];
    FilterSeqAppend(ks, [k], fn);
    assert FilterSeq([k], fn) == if fn(k) then [k] else [] by {
      assert [k][1..] == [];
    }
    afterSet := view.FilterToArray(fn);
  }
}
