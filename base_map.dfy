/**
 The built-in JavaScript `Map` that both drafts of MaFP extend: an
 insertion-ordered key/value store whose `set` appends a new key and updates an
 existing key in place.
 */
module BaseMap {
  import opened Entries

  datatype Option<T> = None | Some(value: T)

  class OrderedMap<K(==), V> {
    /** The keys in insertion order. */
    var keys: seq<K>
    /** The value stored for each key. */
    var m: map<K, V>

    /** Every key occurs once in `keys`, and `keys` lists exactly the keys of `m`. */
    ghost predicate Valid()
      reads this
    {
      && (forall i, j :: 0 <= i < j < |keys| ==> keys[i] != keys[j])
      && m.Keys == (set k | k in keys)
    }

    /** The entries in iteration order, as `for...of` and `forEach` visit them. */
    ghost function Entries(): (es: seq<(K, V)>)
      reads this
      requires Valid()
      ensures DistinctKeys(es)
      ensures KeysOf(es) == keys
      ensures forall i :: 0 <= i < |keys| ==> es[i] == (keys[i], m[keys[i]])
    {
      EntriesOf(keys, m)
    }

    /** `new Map()`. */
    constructor ()
      ensures Valid() && Entries() == []
    {
      keys := [];
      m := map[];
    }

    /** `map.set(k, v)`: a new key goes to the end, an existing key keeps its
        position and takes the new value. */
    method Set(k: K, v: V)
      requires Valid()
      modifies this
      ensures Valid()
      ensures Entries() == Put(old(Entries()), k, v)
      ensures keys == if k in old(keys) then old(keys) else old(keys) + [k]
    {
      ghost var es := Entries();
      if k in m {
        ghost var i :| 0 <= i < |keys| && keys[i] == k;
        PutReplaces(es, i, k, v);
        m := m[k := v];
        assert Entries() == es[i := (k, v)];
      } else {
        assert KeysOf(es) == keys;
        PutAppends(es, k, v);
        keys := keys + [k];
        m := m[k := v];
        assert Entries() == es + [(k, v)];
      }
    }

    /** `map.get(k)`: the value stored for `k`, or nothing when `k` is absent. */
    method Get(k: K) returns (r: Option<V>)
      requires Valid()
      ensures r.Some? <==> k in KeysOf(Entries())
      ensures r.Some? ==> (k, r.value) in Entries()
    {
      if k in m {
        r := Some(m[k]);
        ghost var i :| 0 <= i < |keys| && keys[i] == k;
        assert Entries()[i] == (k, r.value);
      } else {
        r := None;
      }
    }
  }
}
