/** The order in which `Object.keys`, `Object.values` and `Object.entries`
    list the properties of an ordinary object (OrdinaryOwnPropertyKeys,
    section 10.1.11.1 of ECMA-262): array-index keys first in ascending
    numeric order, then the other string keys in the order they were added. */
module ObjectKeys {
  import opened JsValues
  import opened Sequences

  /** 2^32 - 1: array indices lie below it. */
  const IndexBound: nat := 4294967295

  /** The canonical decimal form of an integer in `[0, 2^32 - 2]`: digits
      only, no leading zero except for "0" itself. */
  predicate IsArrayIndex(k: string) {
    |k| > 0 && AllDigits(k) && (k[0] != '0' || |k| == 1) && DigitsValue(k) < IndexBound
  }

  predicate NotArrayIndex(k: string) {
    !IsArrayIndex(k)
  }

  /** The numeric value of an array-index key; 0 for other keys. */
  function IndexValue(k: string): int {
    if IsArrayIndex(k) then DigitsValue(k) else 0
  }

  function CompareIndexKeys(a: string, b: string): int {
    IndexValue(a) - IndexValue(b)
  }

  /** The property order of an object whose keys were added in the order
      `keys` (distinct keys). */
  function OwnKeyOrder(keys: seq<string>): (r: seq<string>)
    ensures multiset(r) == multiset(keys)
    ensures |r| == |keys|
  {
    var ix := Filter(keys, IsArrayIndex);
    var other := Filter(keys, NotArrayIndex);
    FilterPartitionMultiset(keys, IsArrayIndex, NotArrayIndex);
    var r := SortBy(ix, CompareIndexKeys) + other;
    assert |multiset(r)| == |r| && |multiset(keys)| == |keys|;
    r
  }

  /** Array-index keys come before all other keys, in ascending numeric
      order, and each group keeps its relative order for equal indices. */
  lemma OwnKeyOrderShape(keys: seq<string>)
    ensures var r := OwnKeyOrder(keys);
      forall i, j :: 0 <= i < j < |r| && IsArrayIndex(r[j]) ==> IsArrayIndex(r[i]) && IndexValue(r[i]) <= IndexValue(r[j])
  {
    var sorted := SortBy(Filter(keys, IsArrayIndex), CompareIndexKeys);
    var other := Filter(keys, NotArrayIndex);
    OwnKeyOrderFromParts(keys, Filter(keys, IsArrayIndex), sorted, other);
    SortedIndexKeys(Filter(keys, IsArrayIndex));
    IndicesFirst(sorted, other);
  }

  /** Sorting array-index keys leaves array-index keys in ascending order. */
  lemma SortedIndexKeys(ix: seq<string>)
    requires forall i :: 0 <= i < |ix| ==> IsArrayIndex(ix[i])
    ensures var sorted := SortBy(ix, CompareIndexKeys);
      (forall i :: 0 <= i < |sorted| ==> IsArrayIndex(sorted[i])) &&
      forall i, j :: 0 <= i < j < |sorted| ==> IndexValue(sorted[i]) <= IndexValue(sorted[j])
  {
    var sorted := SortBy(ix, CompareIndexKeys);
    SortByStable(ix, CompareIndexKeys, IndexValue, 0);
    forall i | 0 <= i < |sorted| ensures IsArrayIndex(sorted[i]) {
      assert sorted[i] in multiset(ix);
    }
  }

  /** Ascending array indices followed by other keys. */
  lemma IndicesFirst(sorted: seq<string>, other: seq<string>)
    requires forall i :: 0 <= i < |sorted| ==> IsArrayIndex(sorted[i])
    requires forall i, j :: 0 <= i < j < |sorted| ==> IndexValue(sorted[i]) <= IndexValue(sorted[j])
    requires forall i :: 0 <= i < |other| ==> NotArrayIndex(other[i])
    ensures var r := sorted + other;
      forall i, j :: 0 <= i < j < |r| && IsArrayIndex(r[j]) ==> IsArrayIndex(r[i]) && IndexValue(r[i]) <= IndexValue(r[j])
  {
  }

  /** The keys that are not array indices keep their insertion order. */
  lemma OwnKeyOrderKeepsOthers(keys: seq<string>)
    ensures Filter(OwnKeyOrder(keys), NotArrayIndex) == Filter(keys, NotArrayIndex)
  {
    var ix := Filter(keys, IsArrayIndex);
    var sorted := SortBy(ix, CompareIndexKeys);
    var other := Filter(keys, NotArrayIndex);
    FilterConcat(sorted, other, NotArrayIndex);
    forall i | 0 <= i < |sorted| ensures IsArrayIndex(sorted[i]) {
      assert sorted[i] in multiset(ix);
    }
    FilterEmpty(sorted, NotArrayIndex);
    FilterKeepsAll(Filter(keys, NotArrayIndex), NotArrayIndex);
  }

  /** Keys "b", "10", "02", "2" added in that order are listed as the
      indices "2", "10" followed by "b", "02": "02" has a leading zero and so
      is not an index. */
  lemma OwnKeyOrderExample()
    ensures OwnKeyOrder(["b", "10", "02", "2"]) == ["2", "10"] + ["b", "02"]
  {
    ExampleIndexKeys();
    ExampleOtherKeys();
    ExampleSort();
    OwnKeyOrderFromParts(["b", "10", "02", "2"], ["10", "2"], ["2", "10"], ["b", "02"]);
  }

  lemma OwnKeyOrderFromParts(keys: seq<string>, ix: seq<string>, sorted: seq<string>, other: seq<string>)
    requires Filter(keys, IsArrayIndex) == ix && SortBy(ix, CompareIndexKeys) == sorted
    requires Filter(keys, NotArrayIndex) == other
    ensures OwnKeyOrder(keys) == sorted + other
  {
  }

  lemma ExampleKinds()
    ensures IsArrayIndex("10") && IsArrayIndex("2") && !IsArrayIndex("02") && !IsArrayIndex("b")
    ensures IndexValue("10") == 10 && IndexValue("2") == 2
  {
    assert DigitsValue("10") == 10 by {
      assert "10"[..1] == "1";
    }
  }

  lemma ExampleIndexKeys()
    ensures Filter(["b", "10", "02", "2"], IsArrayIndex) == ["10", "2"]
  {
    ExampleKinds();
    var keys := ["b", "10", "02", "2"];
    assert keys[1..] == ["10", "02", "2"];
    assert keys[1..][1..] == ["02", "2"];
    assert keys[1..][1..][1..] == ["2"];
    assert Filter(["2"], IsArrayIndex) == ["2"];
    assert Filter(["02", "2"], IsArrayIndex) == ["2"];
  }

  lemma ExampleOtherKeys()
    ensures Filter(["b", "10", "02", "2"], NotArrayIndex) == ["b", "02"]
  {
    ExampleKinds();
    var keys := ["b", "10", "02", "2"];
    assert keys[1..] == ["10", "02", "2"];
    assert keys[1..][1..] == ["02", "2"];
    assert keys[1..][1..][1..] == ["2"];
    assert Filter(["2"], NotArrayIndex) == [];
    assert Filter(["02", "2"], NotArrayIndex) == ["02"];
  }

  lemma ExampleSort()
    ensures SortBy(["10", "2"], CompareIndexKeys) == ["2", "10"]
  {
    ExampleKinds();
    assert ["10", "2"][..1] == ["10"];
    assert SortBy(["10"], CompareIndexKeys) == ["10"];
    assert CompareIndexKeys("2", "10") < 0;
  }

  /** `Object.values(obj)` for an object whose own keys, in property order,
      are `keys`, stored as the dictionary `obj`. */
  method ValuesInOrder<V>(obj: map<string, V>, keys: seq<string>) returns (vs: seq<V>)
    requires forall m :: 0 <= m < |keys| ==> keys[m] in obj
    ensures |vs| == |keys| && forall m :: 0 <= m < |keys| ==> vs[m] == obj[keys[m]]
  {
    vs := [];
    var j := 0;
    while j < |keys|
      invariant 0 <= j <= |keys|
      invariant |vs| == j && forall m :: 0 <= m < j ==> vs[m] == obj[keys[m]]
    {
      vs := vs + [obj[keys[j]]];
      j := j + 1;
    }
  }
}
