/**
 Pure specification of an insertion-ordered map, seen as the sequence of its
 entries in iteration order. Every traversal of MaFP is specified here as a
 function on that sequence, and the properties the library promises are
 proved as lemmas about those functions.
 */
module Entries {

  /** The keys of an entry sequence, in iteration order. */
  function KeysOf<K, V>(es: seq<(K, V)>): seq<K>
  {
    seq(|es|, i requires 0 <= i < |es| => es[i].0)
  }

  /** The values of an entry sequence, in iteration order. */
  function ValuesOf<K, V>(es: seq<(K, V)>): seq<V>
  {
    seq(|es|, i requires 0 <= i < |es| => es[i].1)
  }

  /** No key occurs twice: what a Map guarantees of its entries. */
  ghost predicate DistinctKeys<K, V>(es: seq<(K, V)>)
  {
    forall i, j :: 0 <= i < j < |es| ==> es[i].0 != es[j].0
  }

  /** The entries of a map given by its key order `ks` and its lookup table `m`. */
  function EntriesOf<K, V>(ks: seq<K>, m: map<K, V>): (es: seq<(K, V)>)
    requires forall k :: k in ks ==> k in m
    ensures KeysOf(es) == ks
    ensures forall i :: 0 <= i < |ks| ==> es[i] == (ks[i], m[ks[i]])
  {
    seq(|ks|, i requires 0 <= i < |ks| => (ks[i], m[ks[i]]))
  }

  // ---------------------------------------------------------------------------
  // set: append a new key, update an existing one in place
  // ---------------------------------------------------------------------------

  /** The entries after `set(k, v)`. */
  function Put<K(==), V>(es: seq<(K, V)>, k: K, v: V): seq<(K, V)>
  {
    if es == [] then [(k, v)]
    else if es[0].0 == k then [(k, v)] + es[1..]
    else [es[0]] + Put(es[1..], k, v)
  }

  /** `set` on a key that is not present appends the entry at the end. */
  lemma {:induction false} PutAppends<K, V>(es: seq<(K, V)>, k: K, v: V)
    requires k !in KeysOf(es)
    ensures Put(es, k, v) == es + [(k, v)]
  {
    if es != [] {
      assert KeysOf(es)[0] == es[0].0;
      assert KeysOf(es[1..]) == KeysOf(es)[1..];
      PutAppends(es[1..], k, v);
      assert es == [es[0]] + es[1..];
    }
  }

  /** `set` on a present key replaces the value and keeps the key's position. */
  lemma {:induction false} PutReplaces<K, V>(es: seq<(K, V)>, i: nat, k: K, v: V)
    requires i < |es| && es[i].0 == k
    requires forall j :: 0 <= j < i ==> es[j].0 != k
    ensures Put(es, k, v) == es[i := (k, v)]
  {
    if i > 0 {
      PutReplaces(es[1..], i - 1, k, v);
      assert es[i := (k, v)] == [es[0]] + es[1..][i - 1 := (k, v)];
    }
  }

  /** The entries after `set(k, v)` on a map with distinct keys: (k, v) plus
      every old entry of another key; the keys stay distinct. */
  lemma PutMembers<K, V>(es: seq<(K, V)>, k: K, v: V)
    requires DistinctKeys(es)
    ensures DistinctKeys(Put(es, k, v))
    ensures forall e :: e in Put(es, k, v) <==> e == (k, v) || (e in es && e.0 != k)
    ensures |Put(es, k, v)| == if k in KeysOf(es) then |es| else |es| + 1
  {
    if k in KeysOf(es) {
      var i :| 0 <= i < |es| && KeysOf(es)[i] == k;
      PutReplaces(es, i, k, v);
      var r := es[i := (k, v)];
      forall e ensures e in r <==> e == (k, v) || (e in es && e.0 != k) {
        if e in es && e.0 != k {
          var j :| 0 <= j < |es| && es[j] == e;
          assert r[j] == e;
        }
      }
    } else {
      PutAppends(es, k, v);
      var r := es + [(k, v)];
      forall i, j | 0 <= i < j < |r| ensures r[i].0 != r[j].0 {
        if j == |es| {
          assert KeysOf(es)[i] == r[i].0;
        }
      }
    }
  }

  /** The entries of `new Map(args)`: the pairs set one after another in array order. */
  function FromPairs<K(==), V>(args: seq<(K, V)>): seq<(K, V)>
    decreases |args|
  {
    if args == [] then []
    else
      var last := args[|args| - 1];
      Put(FromPairs(args[..|args| - 1]), last.0, last.1)
  }

  /** Pair i of `args` is the last one with its key. */
  ghost predicate LastWithKey<K, V>(args: seq<(K, V)>, i: nat)
    requires i < |args|
  {
    forall j :: i < j < |args| ==> args[j].0 != args[i].0
  }

  /** Some pair of `args` is `e` and no later pair has its key. */
  ghost predicate SetLast<K, V>(args: seq<(K, V)>, e: (K, V))
  {
    exists i :: 0 <= i < |args| && args[i] == e && LastWithKey(args, i)
  }

  /** Appending one pair `last`: `e` is set last in the longer array exactly when it
      is `last`, or it was set last before and has another key. */
  lemma SetLastSnoc<K, V>(init: seq<(K, V)>, last: (K, V), e: (K, V))
    ensures SetLast(init + [last], e) <==> e == last || (SetLast(init, e) && e.0 != last.0)
  {
    var args := init + [last];
    var n := |init|;
    if SetLast(args, e) {
      var i :| 0 <= i < |args| && args[i] == e && LastWithKey(args, i);
      if i < n {
        assert args[n] == last;
        assert init[i] == e;
        assert LastWithKey(init, i) by {
          forall j | i < j < |init| ensures init[j].0 != init[i].0 {
            assert init[j] == args[j];
          }
        }
      }
    }
    if e == last {
      assert args[n] == e && LastWithKey(args, n);
    } else if SetLast(init, e) && e.0 != last.0 {
      var i :| 0 <= i < |init| && init[i] == e && LastWithKey(init, i);
      assert args[i] == e && LastWithKey(args, i);
    }
  }

  /** A map built from pairs holds each of their keys once, and for each key
      the value of the LAST pair that has it. */
  lemma {:induction false} FromPairsLastWins<K, V>(args: seq<(K, V)>)
    ensures DistinctKeys(FromPairs(args))
    ensures forall e :: e in FromPairs(args) <==> SetLast(args, e)
  {
    if args != [] {
      var n := |args| - 1;
      var init, last := args[..n], args[n];
      assert args == init + [last];
      FromPairsLastWins(init);
      PutMembers(FromPairs(init), last.0, last.1);
      forall e ensures e in FromPairs(args) <==> SetLast(args, e) {
        SetLastSnoc(init, last, e);
      }
    }
  }

  /** The keys after `set(k, v)` on a map with distinct keys: unchanged when `k`
      is present, `k` appended when it is not. */
  lemma PutKeys<K, V>(es: seq<(K, V)>, k: K, v: V)
    requires DistinctKeys(es)
    ensures KeysOf(Put(es, k, v)) == if k in KeysOf(es) then KeysOf(es) else KeysOf(es) + [k]
  {
    if k in KeysOf(es) {
      var i :| 0 <= i < |es| && KeysOf(es)[i] == k;
      PutReplaces(es, i, k, v);
      assert KeysOf(es[i := (k, v)]) == KeysOf(es);
    } else {
      PutAppends(es, k, v);
      assert KeysOf(es + [(k, v)]) == KeysOf(es) + [k];
    }
  }

  /** The elements of `ks` at their first occurrence: each element is kept
      only when it does not occur earlier. */
  function FirstOccurrences<K(==)>(ks: seq<K>): seq<K>
    decreases |ks|
  {
    if ks == [] then []
    else
      var n := |ks| - 1;
      if ks[n] in ks[..n] then FirstOccurrences(ks[..n])
      else FirstOccurrences(ks[..n]) + [ks[n]]
  }

  /** Dropping repeated occurrences loses no element. */
  lemma {:induction false} FirstOccurrencesMembers<K>(ks: seq<K>)
    ensures forall x :: x in FirstOccurrences(ks) <==> x in ks
  {
    if ks != [] {
      var n := |ks| - 1;
      assert ks == ks[..n] + [ks[n]];
      FirstOccurrencesMembers(ks[..n]);
    }
  }

  /** A map built from pairs lists each key at the position of its FIRST
      occurrence among the pairs: a later pair with the same key updates the
      value in place and does not move the key. */
  lemma {:induction false} FromPairsFirstPosition<K, V>(args: seq<(K, V)>)
    ensures KeysOf(FromPairs(args)) == FirstOccurrences(KeysOf(args))
  {
    if args != [] {
      var n := |args| - 1;
      var init, last := args[..n], args[n];
      assert KeysOf(args)[..n] == KeysOf(init);
      assert KeysOf(args)[n] == last.0;
      FromPairsFirstPosition(init);
      FromPairsLastWins(init);
      FirstOccurrencesMembers(KeysOf(init));
      PutKeys(FromPairs(init), last.0, last.1);
    }
  }

  // ---------------------------------------------------------------------------
  // map / mapToArray
  // ---------------------------------------------------------------------------

  /** The entries of `map(fn)`: same keys in the same order, each value replaced by fn(value, key). */
  function MapEntries<K, V, T>(es: seq<(K, V)>, fn: (V, K) -> T): (r: seq<(K, T)>)
    ensures |r| == |es|
    ensures forall i :: 0 <= i < |es| ==> r[i] == (es[i].0, fn(es[i].1, es[i].0))
  {
    if es == [] then []
    else [(es[0].0, fn(es[0].1, es[0].0))] + MapEntries(es[1..], fn)
  }

  /** Mapping works entry by entry: a concatenation maps to the concatenation. */
  lemma {:induction false} MapAppend<K, V, T>(a: seq<(K, V)>, b: seq<(K, V)>, fn: (V, K) -> T)
    ensures MapEntries(a + b, fn) == MapEntries(a, fn) + MapEntries(b, fn)
  {
    if a != [] {
      assert (a + b)[0] == a[0];
      assert (a + b)[1..] == a[1..] + b;
      MapAppend(a[1..], b, fn);
    } else {
      assert a + b == b;
    }
  }

  /** One step of a loop that maps entries into a fresh map: the next key is new
      there, and the mapped prefix grows by the mapped entry. */
  lemma MapStep<K, V, T>(es: seq<(K, V)>, i: nat, fn: (V, K) -> T)
    requires DistinctKeys(es) && i < |es|
    ensures es[i].0 !in KeysOf(MapEntries(es[..i], fn))
    ensures MapEntries(es[..i + 1], fn) ==
      MapEntries(es[..i], fn) + [(es[i].0, fn(es[i].1, es[i].0))]
  {
    var r := MapEntries(es[..i], fn);
    forall j | 0 <= j < |r| ensures KeysOf(r)[j] != es[i].0 {
      assert r[j].0 == es[j].0;
    }
    assert es[..i + 1] == es[..i] + [es[i]];
    MapAppend(es[..i], [es[i]], fn);
  }

  /** Keys distinct before mapping stay distinct. */
  lemma MapKeepsDistinct<K, V, T>(es: seq<(K, V)>, fn: (V, K) -> T)
    requires DistinctKeys(es)
    ensures DistinctKeys(MapEntries(es, fn))
  {
    var r := MapEntries(es, fn);
    forall i, j | 0 <= i < j < |r| ensures r[i].0 != r[j].0 {
      assert r[i].0 == es[i].0 && r[j].0 == es[j].0;
    }
  }

  // ---------------------------------------------------------------------------
  // filter / filterToArray
  // ---------------------------------------------------------------------------

  /** The entries of `filter(p)`: those whose predicate holds, unchanged. */
  function FilterEntries<K, V>(es: seq<(K, V)>, p: (V, K) -> bool): (r: seq<(K, V)>)
    ensures |r| <= |es|
    ensures forall i :: 0 <= i < |r| ==> r[i] in es && p(r[i].1, r[i].0)
    ensures forall i :: 0 <= i < |es| && p(es[i].1, es[i].0) ==> es[i] in r
  {
    if es == [] then []
    else if p(es[0].1, es[0].0) then [es[0]] + FilterEntries(es[1..], p)
    else FilterEntries(es[1..], p)
  }

  /** Filtering works entry by entry: a concatenation filters to the concatenation. */
  lemma {:induction false} FilterAppend<K, V>(a: seq<(K, V)>, b: seq<(K, V)>, p: (V, K) -> bool)
    ensures FilterEntries(a + b, p) == FilterEntries(a, p) + FilterEntries(b, p)
  {
    if a != [] {
      assert (a + b)[0] == a[0];
      assert (a + b)[1..] == a[1..] + b;
      FilterAppend(a[1..], b, p);
    } else {
      assert a + b == b;
    }
  }

  /** Filtering keeps the relative order: two kept entries appear in the result
      in the order they had in the map. */
  lemma FilterKeepsOrder<K, V>(es: seq<(K, V)>, p: (V, K) -> bool, i: nat, j: nat)
    requires i < j < |es| && p(es[i].1, es[i].0) && p(es[j].1, es[j].0)
    ensures exists a, b :: (0 <= a < b < |FilterEntries(es, p)| &&
      FilterEntries(es, p)[a] == es[i] && FilterEntries(es, p)[b] == es[j])
  {
    var front, back := es[..j], es[j..];
    assert es == front + back;
    FilterAppend(front, back, p);
    var ff, fb := FilterEntries(front, p), FilterEntries(back, p);
    assert es[i] == front[i];
    var a :| 0 <= a < |ff| && ff[a] == es[i];
    assert back == [es[j]] + back[1..];
    assert fb[0] == es[j];
    assert FilterEntries(es, p)[a] == es[i];
    assert FilterEntries(es, p)[|ff|] == es[j];
  }

  /** A filtered map has distinct keys. */
  lemma {:induction false} FilterKeepsDistinct<K, V>(es: seq<(K, V)>, p: (V, K) -> bool)
    requires DistinctKeys(es)
    ensures DistinctKeys(FilterEntries(es, p))
  {
    if es != [] {
      FilterKeepsDistinct(es[1..], p);
      var tail := FilterEntries(es[1..], p);
      if p(es[0].1, es[0].0) {
        var r := [es[0]] + tail;
        forall i, j | 0 <= i < j < |r| ensures r[i].0 != r[j].0 {
          if i == 0 {
            assert r[j] in es[1..];
            var m :| 0 <= m < |es[1..]| && es[1..][m] == r[j];
            assert es[m + 1] == r[j];
          }
        }
      }
    }
  }

  /** One step of a loop that filters entries into a fresh map: the next key is
      new there, and the filtered prefix grows by the entry when it passes. */
  lemma FilterStep<K, V>(es: seq<(K, V)>, i: nat, p: (V, K) -> bool)
    requires DistinctKeys(es) && i < |es|
    ensures es[i].0 !in KeysOf(FilterEntries(es[..i], p))
    ensures FilterEntries(es[..i + 1], p) ==
      FilterEntries(es[..i], p) + if p(es[i].1, es[i].0) then [es[i]] else []
  {
    var r := FilterEntries(es[..i], p);
    forall j | 0 <= j < |r| ensures KeysOf(r)[j] != es[i].0 {
      assert r[j] in es[..i];
      var m :| 0 <= m < i && es[..i][m] == r[j];
      assert es[m] == r[j];
    }
    assert es[..i + 1] == es[..i] + [es[i]];
    FilterAppend(es[..i], [es[i]], p);
    assert FilterEntries([es[i]], p) == if p(es[i].1, es[i].0) then [es[i]] else [] by {
      assert [es[i]][1..] == [];
    }
  }

  /** The keys of `filter(p)` are the keys kept by filtering the key list. */
  lemma {:induction false} FilterKeys<K, V>(es: seq<(K, V)>, p: K -> bool)
    ensures KeysOf(FilterEntries(es, (v: V, k: K) => p(k))) == FilterSeq(KeysOf(es), p)
  {
    if es != [] {
      FilterKeys(es[1..], p);
      assert KeysOf(es) == [es[0].0] + KeysOf(es[1..]);
    }
  }

  /** The values of `filter(p)` are the values kept by filtering the value list. */
  lemma {:induction false} FilterValues<K, V>(es: seq<(K, V)>, p: V -> bool)
    ensures ValuesOf(FilterEntries(es, (v: V, k: K) => p(v))) == FilterSeq(ValuesOf(es), p)
  {
    if es != [] {
      FilterValues(es[1..], p);
      assert ValuesOf(es) == [es[0].1] + ValuesOf(es[1..]);
    }
  }

  /** The elements of a key or value list whose predicate holds, in order. */
  function FilterSeq<T>(s: seq<T>, p: T -> bool): (r: seq<T>)
    ensures |r| <= |s|
    ensures forall i :: 0 <= i < |r| ==> r[i] in s && p(r[i])
    ensures forall i :: 0 <= i < |s| && p(s[i]) ==> s[i] in r
  {
    if s == [] then []
    else if p(s[0]) then [s[0]] + FilterSeq(s[1..], p)
    else FilterSeq(s[1..], p)
  }

  /** Filtering a list works element by element. */
  lemma {:induction false} FilterSeqAppend<T>(a: seq<T>, b: seq<T>, p: T -> bool)
    ensures FilterSeq(a + b, p) == FilterSeq(a, p) + FilterSeq(b, p)
  {
    if a != [] {
      assert (a + b)[0] == a[0];
      assert (a + b)[1..] == a[1..] + b;
      FilterSeqAppend(a[1..], b, p);
    } else {
      assert a + b == b;
    }
  }

  /** One step of a loop that filters a key or value list into an array. */
  lemma FilterSeqStep<T>(s: seq<T>, i: nat, p: T -> bool)
    requires i < |s|
    ensures FilterSeq(s[..i + 1], p) == FilterSeq(s[..i], p) + if p(s[i]) then [s[i]] else []
  {
    assert s[..i + 1] == s[..i] + [s[i]];
    FilterSeqAppend(s[..i], [s[i]], p);
    assert FilterSeq([s[i]], p) == if p(s[i]) then [s[i]] else [] by {
      assert [s[i]][1..] == [];
    }
  }

  // ---------------------------------------------------------------------------
  // reduce
  // ---------------------------------------------------------------------------

  /** `reduce(fn, acc)`: fn applied to the accumulator and each entry in turn. */
  function Fold<K, V, A>(es: seq<(K, V)>, fn: (A, V, K) -> A, acc: A): A
  {
    if es == [] then acc
    else Fold(es[1..], fn, fn(acc, es[0].1, es[0].0))
  }

  /** Folding a concatenation folds the second part from the result of the first. */
  lemma {:induction false} FoldAppend<K, V, A>(a: seq<(K, V)>, b: seq<(K, V)>, fn: (A, V, K) -> A, acc: A)
    ensures Fold(a + b, fn, acc) == Fold(b, fn, Fold(a, fn, acc))
  {
    if a != [] {
      assert (a + b)[0] == a[0];
      assert (a + b)[1..] == a[1..] + b;
      FoldAppend(a[1..], b, fn, fn(acc, a[0].1, a[0].0));
    } else {
      assert a + b == b;
    }
  }

  /** The fold is a LEFT fold: the last entry is combined last. */
  lemma FoldLast<K, V, A>(es: seq<(K, V)>, fn: (A, V, K) -> A, acc: A)
    requires es != []
    ensures Fold(es, fn, acc) ==
      fn(Fold(es[..|es| - 1], fn, acc), es[|es| - 1].1, es[|es| - 1].0)
  {
    var n := |es| - 1;
    assert es == es[..n] + [es[n]];
    FoldAppend(es[..n], [es[n]], fn, acc);
  }

  /** A reducer that ignores the entries returns the initial accumulator. */
  lemma {:induction false} FoldIgnoringEntries<K, V, A>(es: seq<(K, V)>, fn: (A, V, K) -> A, acc: A)
    requires forall a, v, k :: fn(a, v, k) == a
    ensures Fold(es, fn, acc) == acc
  {
    if es != [] {
      FoldIgnoringEntries(es[1..], fn, fn(acc, es[0].1, es[0].0));
    }
  }

  // ---------------------------------------------------------------------------
  // every / some
  // ---------------------------------------------------------------------------

  /** `every(p)`: the predicate holds of every entry (true on an empty map). */
  function All<K, V>(es: seq<(K, V)>, p: (V, K) -> bool): (r: bool)
    ensures r <==> forall i :: 0 <= i < |es| ==> p(es[i].1, es[i].0)
  {
    if es == [] then true else p(es[0].1, es[0].0) && All(es[1..], p)
  }

  /** `some(p)`: the predicate holds of at least one entry (false on an empty map). */
  function Any<K, V>(es: seq<(K, V)>, p: (V, K) -> bool): (r: bool)
    ensures r <==> exists i :: 0 <= i < |es| && p(es[i].1, es[i].0)
  {
    if es == [] then false else p(es[0].1, es[0].0) || Any(es[1..], p)
  }

  /** every and some are dual: every(p) is not some(not p). */
  lemma {:induction false} AllAnyDual<K, V>(es: seq<(K, V)>, p: (V, K) -> bool)
    ensures All(es, p) == !Any(es, (v: V, k: K) => !p(v, k))
  {
    if es != [] {
      AllAnyDual(es[1..], p);
    }
  }
}
