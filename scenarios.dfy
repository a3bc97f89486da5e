/**
 The example map of the test suite, {A: true, b: false, C: true, D: true},
 and what each operation gives on it.
 */
module Scenarios {
  import opened Entries

  /** The entries of the test map, in insertion order. */
  const Sample: seq<(string, bool)> := [("A", true), ("b", false), ("C", true), ("D", true)]

  /** `filter((val) => val)` and `filterToArray((val) => val)` keep A, C and D in order. */
  lemma FilterSample()
    ensures FilterEntries(Sample, (v: bool, k: string) => v) == [("A", true), ("C", true), ("D", true)]
  {
  }

  /** `map((val) => !val)` negates every value and keeps the order. */
  lemma MapSample()
    ensures MapEntries(Sample, (v: bool, k: string) => !v)
      == [("A", false), ("b", true), ("C", false), ("D", false)]
  {
  }

  /** `reduce((acc, curr) => acc + Number(curr), 0)` counts the true values: 3.
      The same sum, written `acc + curr` on booleans, is the draft's example. */
  lemma ReduceSample()
    ensures Fold(Sample, (acc: int, v: bool, k: string) => acc + if v then 1 else 0, 0) == 3
  {
  }

  /** `every((val) => val)` is false, `every((_val, key) => !!key)` is true,
      `some((val) => val)` is true and `some((_val, key) => !key)` is false. */
  lemma EverySomeSample()
    ensures !All(Sample, (v: bool, k: string) => v)
    ensures All(Sample, (v: bool, k: string) => k != "")
    ensures Any(Sample, (v: bool, k: string) => v)
    ensures !Any(Sample, (v: bool, k: string) => k == "")
  {
  }

  /** `keys().filterToArray((val) => val != 'b')` is [A, C, D];
      `values().filterToArray((val) => val)` is [true, true, true]. */
  lemma ViewSample()
    ensures FilterSeq(KeysOf(Sample), (k: string) => k != "b") == ["A", "C", "D"]
    ensures FilterSeq(ValuesOf(Sample), (v: bool) => v) == [true, true, true]
  {
    var ks, vs := KeysOf(Sample), ValuesOf(Sample);
    assert ks == ["A", "b", "C", "D"];
    assert vs == [true, false, true, true];
    var kp, vp := (k: string) => k != "b", (v: bool) => v;
    assert ks[1..] == ["b", "C", "D"] && ks[2..] == ["C", "D"] && ks[3..] == ["D"] && ks[4..] == [];
    assert FilterSeq(ks[3..], kp) == ["D"];
    assert FilterSeq(ks[1..], kp) == ["C", "D"];
    assert vs[1..] == [false, true, true] && vs[2..] == [true, true] && vs[3..] == [true] && vs[4..] == [];
    assert FilterSeq(vs[2..], vp) == [true, true];
  }
}
