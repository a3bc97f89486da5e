# MaFP in Dafny

MaFP is a JavaScript `Map` with functional traversals. It keeps the Map's
semantics: `set` of a new key appends it, `set` of an existing key updates the
value in place and keeps the key's position, and iteration follows insertion
order. On top of that it adds `map`, `mapToArray`, `filter`, `filterToArray`,
`reduce`, `every` and `some`. It also adds key and value views whose
`filterToArray` re-reads the live map on every call.

The repository holds two drafts of the class, and both are modelled:

- `src/index.ts`, the full TypeScript class, is module `Mafp` (`mafp.dfy`).
- `index.js`, the earlier JavaScript draft, is module `MafpDraft` (`mafp_draft.dfy`).
  Its `map` and `filter` return a plain Map rather than a MaFP.

Layout:

- `entries.dfy`, module `Entries`: the specification. A map is seen as its entry
  sequence `seq<(K, V)>` in iteration order. Each operation is a function on
  that sequence: `Put` for `set`, `FromPairs` for the constructor, `MapEntries`,
  `FilterEntries`, `FilterSeq` for the views, `Fold`, `All` and `Any`. The
  lemmas prove the promised properties of these functions.
- `base_map.dfy`, module `BaseMap`: class `OrderedMap`, the built-in Map that
  MaFP extends. It has a key order `keys: seq<K>` and a table `m: map<K, V>`.
  The invariant `Valid()` says the keys are distinct and are exactly the keys
  of `m`. Its constructor is `new Map()`, its `Set` is the inherited `set` that
  the MaFP constructors and traversals rely on, and its `Get` is the `get` the
  tests read results with.
- `mafp.dfy` and `mafp_draft.dfy`: class `MaFP` in each draft. Dafny has no
  inheritance between classes, so each MaFP holds its Map as `const base` and
  forwards `set` to it. Each traversal is a method with a loop over the keys in
  insertion order. It writes only into a freshly allocated map or a local
  sequence. No traversal has a `modifies` clause, so none can change the
  receiver. Each method's `ensures` ties its result to the specification
  function applied to the receiver's entries.
- `scenarios.dfy`, module `Scenarios`: the test suite's map
  {A: true, b: false, C: true, D: true} and what each operation gives on it.

Callbacks are total Dafny functions of `(value, key)`. Predicates return `bool`.

## Model

| member | source | states |
|---|---|---|
| `BaseMap.OrderedMap.Set` | src/index.ts:1 | the inherited Map `set`: the invariant is kept, a new key is appended at the end, an existing key keeps its position, and the new entries are `Put` of the old ones |
| `BaseMap.OrderedMap.Get` | test/index.test.ts:14-18 | `get(k)` returns a value exactly when `k` is a key of the map, and then `(k, value)` is one of its entries |
| `Entries.PutAppends` | src/index.ts:1 | `set` on an absent key appends the entry after all existing ones |
| `Entries.PutReplaces` | src/index.ts:1 | `set` on a present key replaces its value at the same position and leaves every other entry alone |
| `Entries.PutMembers` | src/index.ts:1 | after `set(k, v)` the keys stay distinct, the entries are `(k, v)` plus the old entries of other keys, and the size grows by one exactly when `k` was absent |
| `Entries.FromPairsLastWins` | src/index.ts:4-8 | a map built from tuples has distinct keys, and its entries are exactly the tuples that no later tuple overrides with the same key |
| `Entries.PutKeys` | src/index.ts:1 | after `set(k, v)` the key order is unchanged when `k` was present and has `k` appended when it was not |
| `Entries.FirstOccurrencesMembers` | src/index.ts:4-8 | keeping only first occurrences of the keys loses no key |
| `Entries.FromPairsFirstPosition` | src/index.ts:4-8 | a map built from tuples lists each key at the position of its first occurrence among the tuples, for every input |
| `Mafp.MaFP.constructor` | src/index.ts:4-8 | `new MaFP(args)` has as its entries the tuples set one after another in array order (`FromPairs`) |
| `Mafp.MaFP.Set` | src/index.ts:1 | the inherited `set` keeps the invariant and changes the entries as `Put` does |
| `Entries.MapEntries` | src/index.ts:10-14 | the mapped entries have one entry per input entry, at the same position, with the same key and value `fn(value, key)` |
| `Entries.MapAppend` | src/index.ts:10-14 | mapping works entry by entry in iteration order: a concatenation maps to the concatenation of the mapped parts |
| `Entries.MapKeepsDistinct` | src/index.ts:20-24 | mapping keeps the keys distinct, so the mapped entries are those of a valid map |
| `Entries.MapStep` | src/index.ts:10-14 | one step of the `forEach`: the next key is absent from the result built so far, and the result grows by the mapped entry |
| `Mafp.MaFP.Map` | src/index.ts:20-24 | `map(fn)` returns a fresh MaFP whose entries are `MapEntries` of the receiver's: the same keys in the same order with values `fn(value, key)` |
| `Mafp.MaFP.MapToArray` | src/index.ts:30-34 | `mapToArray(fn)` returns the `[key, fn(value, key)]` pairs in iteration order, which are exactly the entries of `map(fn)`; its length is the receiver's size |
| `Entries.FilterEntries` | src/index.ts:36-43 | the filtered entries are at most as many as the input; each of them is an input entry, value unchanged, whose predicate holds; every input entry whose predicate holds is kept, so every dropped entry fails it |
| `Entries.FilterAppend` | src/index.ts:36-43 | filtering works entry by entry in iteration order: a concatenation filters to the concatenation of the filtered parts |
| `Entries.FilterKeepsOrder` | src/index.ts:36-43 | two kept entries appear in the filtered entries in the order they had in the map |
| `Entries.FilterKeepsDistinct` | src/index.ts:49-53 | filtering keeps the keys distinct, so the filtered entries are those of a valid map |
| `Entries.FilterStep` | src/index.ts:40-42 | one step of the `forEach`: the next key is absent from the result built so far, and the result grows by the entry exactly when its predicate holds |
| `Mafp.MaFP.Filter` | src/index.ts:49-53 | `filter(fn)` returns a fresh MaFP whose entries are `FilterEntries` of the receiver's |
| `Mafp.MaFP.FilterToArray` | src/index.ts:59-63 | `filterToArray(fn)` returns the `[key, value]` pairs whose predicate holds, in iteration order, which are exactly the entries of `filter(fn)` |
| `Entries.FoldAppend` | src/index.ts:70-78 | reducing a concatenation reduces the second part starting from the result of the first |
| `Entries.FoldLast` | src/index.ts:74-76 | the reduction is a left fold: the last entry is combined last, with the result of reducing all earlier ones |
| `Entries.FoldIgnoringEntries` | src/index.ts:70-78 | a reducer that returns its accumulator unchanged gives back the initial accumulator, whatever the entries |
| `Mafp.MaFP.Reduce` | src/index.ts:70-78 | `reduce(fn, acc)` is the left fold `Fold` of `fn` over the entries in insertion order from `acc`, and so `acc` itself on an empty map |
| `Entries.All` | src/index.ts:85-92 | `every` holds exactly when the predicate holds of every entry, so it is true on an empty map |
| `Entries.Any` | src/index.ts:99-106 | `some` holds exactly when the predicate holds of some entry, so it is false on an empty map |
| `Entries.AllAnyDual` | src/index.ts:85-106 | `every(p)` is the negation of `some(not p)` |
| `Mafp.MaFP.Every` | src/index.ts:85-92 | `every(fn)` is `All` of the entries; when false, the last entry visited is the first that fails and all before it pass; when true, every entry was visited; nothing after the deciding entry is visited |
| `Mafp.MaFP.Some` | src/index.ts:99-106 | `some(fn)` is `Any` of the entries; when true, the last entry visited is the first that passes and all before it fail; when false, every entry was visited; nothing after the deciding entry is visited |
| `Entries.FilterSeq` | src/index.ts:129-136 | the filtered keys or values are at most as many as the input; each satisfies the predicate and comes from the input; every input element that satisfies it is kept |
| `Entries.FilterSeqAppend` | src/index.ts:131-135 | filtering a key or value list works element by element, in order |
| `Entries.FilterSeqStep` | src/index.ts:152-156 | one step of the view loop: the result grows by the element exactly when its predicate holds |
| `Entries.FilterKeys` | src/index.ts:125-144 | the keys view's `filterToArray(p)` equals the keys of `filter` with a predicate on the key only |
| `Entries.FilterValues` | src/index.ts:146-165 | the values view's `filterToArray(p)` equals the values of `filter` with a predicate on the value only |
| `Mafp.MaFP.Keys` | src/index.ts:125-126 | `keys()` returns a view bound to this map itself, not to a copy |
| `Mafp.MaFP.Values` | src/index.ts:146-147 | `values()` returns a view bound to this map itself, not to a copy |
| `Mafp.KeyView.FilterToArray` | src/index.ts:128-137 | the key view's `filterToArray(fn)` returns the owner's current keys that satisfy `fn`, in insertion order |
| `Mafp.ValueView.FilterToArray` | src/index.ts:149-158 | the value view's `filterToArray(fn)` returns the owner's current values that satisfy `fn`, in insertion order |
| `Mafp.KeyViewIsLive` | test/index.test.ts:69-78 | a key view re-reads the live map: two calls on an unchanged map agree, and after `set` of a new key a later call on the same view also returns that key when it passes |
| `BaseMap.OrderedMap.constructor` | index.js:14 | `new Map()`, the plain Map the draft's `map` and `filter` fill, is valid and has no entries |
| `MafpDraft.MaFP.Set` | index.js:1 | the inherited `set` of the draft keeps the invariant and changes the entries as `Put` does |
| `MafpDraft.MaFP.constructor` | index.js:2-4 | `new MaFP(args)` has as its entries the pairs set one after another in array order |
| `MafpDraft.MaFP.Map` | index.js:6-17 | `map(fn)` returns a fresh plain Map, not a MaFP, with the same keys in the same order and values `fn(value, key)` |
| `MafpDraft.MaFP.MapToArray` | index.js:19-23 | `mapToArray(fn)` returns `[key, fn(value, key)]` for every entry in iteration order, as many as the receiver's entries |
| `MafpDraft.MaFP.Filter` | index.js:25-38 | `filter(fn)` returns a fresh plain Map holding exactly the entries whose predicate holds, values unchanged, in order |
| `MafpDraft.MaFP.FilterToArray` | index.js:40-44 | `filterToArray(fn)` returns the entries of `filter(fn)` as `[key, value]` pairs in order |
| `MafpDraft.MaFP.Reduce` | index.js:46-52 | `reduce(fn, acc)` is the left fold of `fn` over the entries in insertion order from `acc` |
| `Scenarios.FilterSample` | test/index.test.ts:21-29 | on {A: true, b: false, C: true, D: true}, filtering by value gives `[[A, true], [C, true], [D, true]]` |
| `Scenarios.MapSample` | test/index.test.ts:39-48 | on the same map, mapping by negation gives `[[A, false], [b, true], [C, false], [D, false]]` |
| `Scenarios.ReduceSample` | test/index.test.ts:50-53 | on the same map, summing the values as 0/1 from 0 gives 3 |
| `Scenarios.EverySomeSample` | test/index.test.ts:55-67 | on the same map, `every` by value is false, `every` on non-empty keys is true, `some` by value is true, `some` on empty keys is false |
| `Scenarios.ViewSample` | test/index.test.ts:75-78 | on the same map, the keys other than `b` are `[A, C, D]` and the true values are `[true, true, true]` |

## Left out

- Set algebra (union, intersection, difference, symmetric difference, superset test) and clone: no core file defines them.
- Key and value views' `mapToArray`, `reduce`, `every` and `some`: test/index.test.ts:80-108 and 122-140 call them, but src/index.ts:125-165 attaches only `filterToArray`.
- The view as an iterator in its own right (single-use iterator state of `super.keys()`): runtime iterator machinery; a view here is a datatype holding its map.
- `_defineProperties` (src/index.ts:108-123): property-descriptor flags on a built-in iterator have no Dafny counterpart.
- `thisArg` of `every` and `some`: Dafny functions have no rebindable receiver.
- The third callback argument (the map itself): callbacks are pure functions of value and key; a callback that changes the map during a traversal is not modelled.
- JavaScript truthiness: predicates return `bool`, and `reduce` always takes an explicit initial accumulator (index.js `reduce` called without one would start from `undefined`).
- Key equality is Dafny `==`, not JavaScript's SameValueZero.
- Map operations that MaFP neither uses nor overrides (`delete`, `has`, `clear`, `size`) are not modelled.
- `Mafp.MaFP.Every`, `Mafp.MaFP.Some`: the number of callback calls is a ghost out-parameter; the source returns only the boolean.
- src/methods/filter.ts (an abandoned, commented-out mixin), the timing scripts and the console-logging demo scripts hold no logic of the core.
