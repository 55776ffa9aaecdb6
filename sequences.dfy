/** Generic sequence operations the dashboard code uses through JavaScript's
    Array methods: `filter`, order-preserving selection, first-occurrence
    de-duplication (a `Set` of seen keys), a stable comparator sort, and
    summation (`reduce` with `+`). */
module Sequences {

  datatype Option<T> = None | Some(value: T)

  /** `Array.prototype.filter`: the elements satisfying `p`, in order. */
  function Filter<T>(s: seq<T>, p: T -> bool): (r: seq<T>)
    ensures |r| <= |s|
    ensures forall i :: 0 <= i < |r| ==> r[i] in s && p(r[i])
    ensures forall i :: 0 <= i < |s| && p(s[i]) ==> s[i] in r
  {
    if s == [] then [] else (if p(s[0]) then [s[0]] else []) + Filter(s[1..], p)
  }

  lemma {:induction false} FilterConcat<T>(a: seq<T>, b: seq<T>, p: T -> bool)
    ensures Filter(a + b, p) == Filter(a, p) + Filter(b, p)
  {
    if a != [] {
      var head := if p(a[0]) then [a[0]] else [];
      ConsConcat(a, b);
      FilterCons(a[0], a[1..] + b, p);
      FilterCons(a[0], a[1..], p);
      FilterConcat(a[1..], b, p);
      assert Filter(a + b, p) == head + (Filter(a[1..], p) + Filter(b, p));
      assert Filter(a, p) == head + Filter(a[1..], p);
      ConcatAssociates(head, Filter(a[1..], p), Filter(b, p));
    } else {
      assert a + b == b;
    }
  }

  lemma SplitLast<T>(s: seq<T>)
    requires s != []
    ensures s == s[..|s| - 1] + [s[|s| - 1]]
  {
  }

  lemma ConsConcat<T>(a: seq<T>, b: seq<T>)
    requires a != []
    ensures a == [a[0]] + a[1..] && a + b == [a[0]] + (a[1..] + b)
  {
  }

  lemma FilterCons<T>(x: T, s: seq<T>, p: T -> bool)
    ensures Filter([x] + s, p) == (if p(x) then [x] else []) + Filter(s, p)
  {
    assert ([x] + s)[0] == x && ([x] + s)[1..] == s;
  }

  lemma ConcatAssociates<T>(a: seq<T>, b: seq<T>, c: seq<T>)
    ensures a + b + c == a + (b + c)
  {
  }

  /** Filtering one more element at the end adds it exactly when it passes. */
  lemma FilterSnoc<T>(s: seq<T>, x: T, p: T -> bool)
    ensures Filter(s + [x], p) == Filter(s, p) + (if p(x) then [x] else [])
  {
    FilterConcat(s, [x], p);
  }

  /** The positions of `s` whose element passes `p`. */
  ghost function PassingPositions<T>(s: seq<T>, p: T -> bool): set<int> {
    set i | 0 <= i < |s| && p(s[i])
  }

  lemma PassingPositionsSnoc<T>(s: seq<T>, p: T -> bool)
    requires s != []
    ensures |s| - 1 !in PassingPositions(s[..|s| - 1], p)
    ensures PassingPositions(s, p) ==
      PassingPositions(s[..|s| - 1], p) + (if p(s[|s| - 1]) then {|s| - 1} else {})
  {
  }

  /** A filter keeps one element per passing position. */
  lemma {:induction false} FilterLengthCounts<T>(s: seq<T>, p: T -> bool)
    ensures |Filter(s, p)| == |PassingPositions(s, p)|
    decreases |s|
  {
    if s == [] {
      assert PassingPositions(s, p) == {};
    } else {
      var n := |s| - 1;
      var init := s[..n];
      FilterLengthCounts(init, p);
      SplitLast(s);
      FilterSnoc(init, s[n], p);
      PassingPositionsSnoc(s, p);
    }
  }

  /** Every occurrence of a passing element survives, and no other. */
  lemma {:induction false} FilterMultiset<T>(s: seq<T>, p: T -> bool, x: T)
    ensures multiset(Filter(s, p))[x] == if p(x) then multiset(s)[x] else 0
  {
    if s != [] {
      assert s == [s[0]] + s[1..];
      FilterMultiset(s[1..], p, x);
    }
  }

  /** The elements kept by `p` and those kept by its negation split `s`. */
  lemma {:induction false} FilterPartitionLength<T>(s: seq<T>, p: T -> bool, q: T -> bool)
    requires forall x :: x in s ==> (q(x) <==> !p(x))
    ensures |Filter(s, p)| + |Filter(s, q)| == |s|
  {
    if s != [] {
      FilterPartitionLength(s[1..], p, q);
    }
  }

  lemma {:induction false} FilterPartitionMultiset<T>(s: seq<T>, p: T -> bool, q: T -> bool)
    requires forall x :: x in s ==> (q(x) <==> !p(x))
    ensures multiset(Filter(s, p)) + multiset(Filter(s, q)) == multiset(s)
  {
    if s != [] {
      assert s == [s[0]] + s[1..];
      FilterPartitionMultiset(s[1..], p, q);
    }
  }

  /** A filter keeps nothing exactly when no element satisfies the predicate. */
  lemma {:induction false} FilterEmpty<T>(s: seq<T>, p: T -> bool)
    ensures Filter(s, p) == [] <==> forall i :: 0 <= i < |s| ==> !p(s[i])
  {
    if s != [] {
      FilterEmpty(s[1..], p);
      assert forall i :: 1 <= i < |s| ==> s[i] == s[1..][i - 1];
    }
  }

  /** Filtering by a predicate that holds everywhere changes nothing. */
  lemma {:induction false} FilterKeepsAll<T>(s: seq<T>, p: T -> bool)
    requires forall x :: x in s ==> p(x)
    ensures Filter(s, p) == s
  {
    if s != [] {
      FilterKeepsAll(s[1..], p);
    }
  }

  /** Predicates that agree on `s` filter it alike. */
  lemma {:induction false} FilterCongruent<T>(s: seq<T>, p: T -> bool, q: T -> bool)
    requires forall x :: x in s ==> (p(x) <==> q(x))
    ensures Filter(s, p) == Filter(s, q)
  {
    if s != [] {
      FilterCongruent(s[1..], p, q);
    }
  }

  /** The elements of `s` whose flag in `mask` is set, in order. */
  function Select<T>(s: seq<T>, mask: seq<bool>): (r: seq<T>)
    requires |mask| == |s|
    ensures |r| <= |s|
  {
    if s == [] then [] else (if mask[0] then [s[0]] else []) + Select(s[1..], mask[1..])
  }

  /** `a` is `b` with some elements left out and the rest in their order. */
  ghost predicate IsSubsequence<T>(a: seq<T>, b: seq<T>) {
    exists mask: seq<bool> :: |mask| == |b| && Select(b, mask) == a
  }

  lemma {:induction false} SelectSnoc<T>(s: seq<T>, mask: seq<bool>, x: T, b: bool)
    requires |mask| == |s|
    ensures Select(s + [x], mask + [b]) == Select(s, mask) + (if b then [x] else [])
  {
    if s != [] {
      assert (s + [x])[1..] == s[1..] + [x];
      assert (mask + [b])[1..] == mask[1..] + [b];
      SelectSnoc(s[1..], mask[1..], x, b);
    }
  }

  lemma {:induction false} SelectByPredicate<T>(s: seq<T>, p: T -> bool, mask: seq<bool>)
    requires |mask| == |s| && forall i :: 0 <= i < |s| ==> mask[i] == p(s[i])
    ensures Select(s, mask) == Filter(s, p)
  {
    if s != [] {
      SelectByPredicate(s[1..], p, mask[1..]);
    }
  }

  /** A filter result is an order-preserving subsequence of its input. */
  lemma FilterIsSubsequence<T>(s: seq<T>, p: T -> bool)
    ensures IsSubsequence(Filter(s, p), s)
  {
    var mask := seq(|s|, i requires 0 <= i < |s| => p(s[i]));
    SelectByPredicate(s, p, mask);
  }

  /** Every sequence is a subsequence of itself. */
  lemma {:induction false} SubsequenceReflexive<T>(s: seq<T>)
    ensures IsSubsequence(s, s)
  {
    var mask := seq(|s|, i requires 0 <= i < |s| => true);
    SelectByPredicate(s, x => true, mask);
    FilterKeepsAll(s, x => true);
  }

  /** The mask that selects from `c` what `mb` selects from `Select(c, mc)`. */
  function ComposeMasks(mc: seq<bool>, mb: seq<bool>): (m: seq<bool>)
    ensures |m| == |mc|
  {
    if mc == [] then []
    else if mc[0] then [mb != [] && mb[0]] + ComposeMasks(mc[1..], if mb == [] then [] else mb[1..])
    else [false] + ComposeMasks(mc[1..], mb)
  }

  lemma {:induction false} SelectCompose<T>(c: seq<T>, mc: seq<bool>, mb: seq<bool>)
    requires |mc| == |c| && |mb| == |Select(c, mc)|
    ensures Select(Select(c, mc), mb) == Select(c, ComposeMasks(mc, mb))
  {
    if c != [] {
      var rest := Select(c[1..], mc[1..]);
      if mc[0] {
        SelectCompose(c[1..], mc[1..], mb[1..]);
        assert ([c[0]] + rest)[1..] == rest;
        var m := ComposeMasks(mc[1..], mb[1..]);
        assert ([mb[0]] + m)[1..] == m;
      } else {
        SelectCompose(c[1..], mc[1..], mb);
        var m := ComposeMasks(mc[1..], mb);
        assert Select(c, mc) == rest;
        assert ([false] + m)[1..] == m;
        assert Select(c, [false] + m) == Select(c[1..], m);
      }
    }
  }

  /** A subsequence of a subsequence is a subsequence. */
  lemma SubsequenceTransitive<T>(a: seq<T>, b: seq<T>, c: seq<T>)
    requires IsSubsequence(a, b) && IsSubsequence(b, c)
    ensures IsSubsequence(a, c)
  {
    var mb :| |mb| == |b| && a == Select(b, mb);
    var mc :| |mc| == |c| && b == Select(c, mc);
    SelectCompose(c, mc, mb);
  }

  /** `key` applied to every element of `s`, as a set. */
  function KeySet<T, K(==)>(s: seq<T>, key: T -> K): (ks: set<K>)
    ensures |ks| <= |s|
    ensures forall i :: 0 <= i < |s| ==> key(s[i]) in ks
  {
    if s == [] then {}
    else
      var ks0 := KeySet(s[..|s| - 1], key);
      assert forall i :: 0 <= i < |s| - 1 ==> s[..|s| - 1][i] == s[i];
      ks0 + {key(s[|s| - 1])}
  }

  /** Every key in the set comes from some element. */
  lemma {:induction false} KeySetWitness<T, K>(s: seq<T>, key: T -> K, k: K) returns (i: int)
    requires k in KeySet(s, key)
    ensures 0 <= i < |s| && key(s[i]) == k
  {
    var s0 := s[..|s| - 1];
    if key(s[|s| - 1]) == k {
      i := |s| - 1;
    } else {
      i := KeySetWitness(s0, key, k);
    }
  }

  lemma KeySetSnoc<T, K>(s: seq<T>, x: T, key: T -> K)
    ensures KeySet(s + [x], key) == KeySet(s, key) + {key(x)}
  {
    assert (s + [x])[..|s|] == s;
  }

  /** The element at `i` is the first one of `s` with its key. */
  ghost predicate IsFirstOccurrence<T, K>(s: seq<T>, i: int, key: T -> K)
    requires 0 <= i < |s|
  {
    forall m :: 0 <= m < i ==> key(s[m]) != key(s[i])
  }

  /** First-occurrence de-duplication by `key`, as a filter with a `Set` of the
      keys seen so far: an element is kept iff no earlier element has its key. */
  function DedupBy<T, K(==)>(s: seq<T>, key: T -> K): (r: seq<T>)
    ensures |r| <= |s|
    ensures KeySet(r, key) == KeySet(s, key)
    ensures forall i, j :: 0 <= i < j < |r| ==> key(r[i]) != key(r[j])
  {
    if s == [] then []
    else
      var d := DedupBy(s[..|s| - 1], key);
      var x := s[|s| - 1];
      KeySetSnoc(s[..|s| - 1], x, key);
      assert s[..|s| - 1] + [x] == s;
      if key(x) in KeySet(d, key) then d
      else
        KeySetSnoc(d, x, key);
        d + [x]
  }

  /** The de-duplicated sequence has one element per distinct key. */
  lemma {:induction false} DistinctKeysCardinality<T, K>(r: seq<T>, key: T -> K)
    requires forall i, j :: 0 <= i < j < |r| ==> key(r[i]) != key(r[j])
    ensures |KeySet(r, key)| == |r|
  {
    if r != [] {
      var r0 := r[..|r| - 1];
      DistinctKeysCardinality(r0, key);
      KeySetSnoc(r0, r[|r| - 1], key);
      assert r0 + [r[|r| - 1]] == r;
      if key(r[|r| - 1]) in KeySet(r0, key) {
        var i := KeySetWitness(r0, key, key(r[|r| - 1]));
        assert false;
      }
    }
  }

  lemma DedupByCardinality<T, K>(s: seq<T>, key: T -> K)
    ensures |DedupBy(s, key)| == |KeySet(s, key)|
  {
    DistinctKeysCardinality(DedupBy(s, key), key);
  }

  /** The flags of `DedupBy`: element `i` is kept iff it is a first occurrence. */
  ghost function FirstOccurrenceMask<T, K>(s: seq<T>, key: T -> K): (m: seq<bool>)
    ensures |m| == |s|
  {
    seq(|s|, i requires 0 <= i < |s| => IsFirstOccurrence(s, i, key))
  }

  /** De-duplicating one more element keeps it exactly when its key is new. */
  lemma DedupBySnoc<T, K>(s: seq<T>, x: T, key: T -> K)
    ensures DedupBy(s + [x], key) == if key(x) in KeySet(s, key) then DedupBy(s, key) else DedupBy(s, key) + [x]
  {
    assert (s + [x])[..|s|] == s;
  }

  /** `DedupBy` and `KeySet` of a prefix one element longer. */
  lemma DedupByPrefixStep<T, K>(s: seq<T>, i: int, key: T -> K)
    requires 0 <= i < |s|
    ensures DedupBy(s[..i + 1], key) ==
      if key(s[i]) in KeySet(s[..i], key) then DedupBy(s[..i], key) else DedupBy(s[..i], key) + [s[i]]
    ensures KeySet(s[..i + 1], key) ==
      if key(s[i]) in KeySet(s[..i], key) then KeySet(s[..i], key) else KeySet(s[..i], key) + {key(s[i])}
  {
    assert s[..i + 1] == s[..i] + [s[i]];
    DedupBySnoc(s[..i], s[i], key);
    KeySetSnoc(s[..i], s[i], key);
  }

  /** `s.filter(x => seen.has(key(x)) ? false : (seen.add(key(x)), true))`,
      with `seen` starting empty. */
  method FilterUnseen<T, K(==)>(s: seq<T>, key: T -> K) returns (kept: seq<T>)
    ensures kept == DedupBy(s, key)
  {
    kept := [];
    var seen: set<K> := {};
    var i := 0;
    while i < |s|
      invariant 0 <= i <= |s|
      invariant kept == DedupBy(s[..i], key)
      invariant seen == KeySet(s[..i], key)
    {
      var k := key(s[i]);
      DedupByPrefixStep(s, i, key);
      if k !in seen {
        seen := seen + {k};
        kept := kept + [s[i]];
      }
      assert kept == DedupBy(s[..i + 1], key) && seen == KeySet(s[..i + 1], key);
      i := i + 1;
    }
    assert s[..i] == s;
  }

  /** De-duplication keeps exactly the first occurrence of every key, in order. */
  lemma {:induction false} DedupByKeepsFirstOccurrences<T, K>(s: seq<T>, key: T -> K)
    ensures DedupBy(s, key) == Select(s, FirstOccurrenceMask(s, key))
  {
    if s != [] {
      var s0, x := s[..|s| - 1], s[|s| - 1];
      assert s0 + [x] == s;
      DedupByKeepsFirstOccurrences(s0, key);
      FirstOccurrenceMaskSnoc(s0, x, key);
      SelectSnoc(s0, FirstOccurrenceMask(s0, key), x, key(x) !in KeySet(s0, key));
      DedupBySnoc(s0, x, key);
    }
  }

  lemma FirstOccurrenceMaskSnoc<T, K>(s: seq<T>, x: T, key: T -> K)
    ensures FirstOccurrenceMask(s + [x], key) == FirstOccurrenceMask(s, key) + [key(x) !in KeySet(s, key)]
  {
    var m0, m := FirstOccurrenceMask(s, key), FirstOccurrenceMask(s + [x], key);
    forall i | 0 <= i < |s| ensures m[i] == m0[i] {
      assert forall n :: 0 <= n <= i ==> (s + [x])[n] == s[n];
    }
    if key(x) in KeySet(s, key) {
      var i := KeySetWitness(s, key, key(x));
      assert (s + [x])[i] == s[i];
      assert !m[|s|];
    } else {
      assert m[|s|] by {
        forall n | 0 <= n < |s| ensures key((s + [x])[n]) != key(x) {
          assert (s + [x])[n] == s[n];
        }
      }
    }
    assert m == m0 + [m[|s|]];
  }

  lemma DedupByIsSubsequence<T, K>(s: seq<T>, key: T -> K)
    ensures IsSubsequence(DedupBy(s, key), s)
  {
    DedupByKeepsFirstOccurrences(s, key);
  }

  /** Insertion step of a stable sort: `x` goes before the first element it
      compares strictly below, so it lands after every element it ties with. */
  function InsertBy<T>(x: T, s: seq<T>, cmp: (T, T) -> int): (r: seq<T>)
    ensures |r| == |s| + 1
    ensures multiset(r) == multiset(s) + multiset{x}
    ensures r[0] == x || (|s| > 0 && r[0] == s[0])
  {
    if s == [] then [x]
    else if cmp(x, s[0]) < 0 then [x] + s
    else
      var t := InsertBy(x, s[1..], cmp);
      assert s == [s[0]] + s[1..];
      [s[0]] + t
  }

  /** `Array.prototype.sort` with comparator `cmp`, modelled as a stable
      insertion sort that inserts the elements in their original order. */
  function SortBy<T>(s: seq<T>, cmp: (T, T) -> int): (r: seq<T>)
    ensures |r| == |s|
    ensures multiset(r) == multiset(s)
  {
    if s == [] then []
    else
      assert s == s[..|s| - 1] + [s[|s| - 1]];
      InsertBy(s[|s| - 1], SortBy(s[..|s| - 1], cmp), cmp)
  }

  function Sign(n: int): int {
    if n < 0 then -1 else if n > 0 then 1 else 0
  }

  /** Swapping the operands negates the comparator's verdict. */
  ghost predicate Antisymmetric<T(!new)>(cmp: (T, T) -> int) {
    forall a, b :: Sign(cmp(a, b)) == -Sign(cmp(b, a))
  }

  /** Every neighbouring pair is in comparator order. */
  ghost predicate AdjacentSorted<T>(s: seq<T>, cmp: (T, T) -> int) {
    forall i :: 0 <= i < |s| - 1 ==> cmp(s[i], s[i + 1]) <= 0
  }

  /** Every pair is in comparator order. */
  ghost predicate Sorted<T>(s: seq<T>, cmp: (T, T) -> int) {
    forall i, j :: 0 <= i < j < |s| ==> cmp(s[i], s[j]) <= 0
  }

  /** `cmp` is transitive on the elements of `s`. */
  ghost predicate TransitiveOn<T>(s: seq<T>, cmp: (T, T) -> int) {
    forall a, b, c :: a in s && b in s && c in s && cmp(a, b) <= 0 && cmp(b, c) <= 0 ==> cmp(a, c) <= 0
  }

  lemma {:induction false} InsertByAdjacentSorted<T(!new)>(x: T, s: seq<T>, cmp: (T, T) -> int)
    requires Antisymmetric(cmp) && AdjacentSorted(s, cmp)
    ensures AdjacentSorted(InsertBy(x, s, cmp), cmp)
  {
    if s != [] && cmp(x, s[0]) >= 0 {
      assert Sign(cmp(s[0], x)) == -Sign(cmp(x, s[0]));
      InsertByAdjacentSorted(x, s[1..], cmp);
    }
  }

  /** Whatever the comparator, as long as it is antisymmetric, the sort puts
      every neighbouring pair in order. */
  lemma {:induction false} SortByAdjacentSorted<T(!new)>(s: seq<T>, cmp: (T, T) -> int)
    requires Antisymmetric(cmp)
    ensures AdjacentSorted(SortBy(s, cmp), cmp)
  {
    if s != [] {
      SortByAdjacentSorted(s[..|s| - 1], cmp);
      InsertByAdjacentSorted(s[|s| - 1], SortBy(s[..|s| - 1], cmp), cmp);
    }
  }

  /** With a transitive comparator, neighbouring order is full order. */
  lemma {:induction false} AdjacentSortedIsSorted<T>(s: seq<T>, cmp: (T, T) -> int)
    requires AdjacentSorted(s, cmp) && TransitiveOn(s, cmp)
    ensures Sorted(s, cmp)
  {
    forall i, j | 0 <= i < j < |s| ensures cmp(s[i], s[j]) <= 0 {
      var k := i + 1;
      while k < j
        invariant i < k <= j
        invariant cmp(s[i], s[k]) <= 0
      {
        assert cmp(s[k], s[k + 1]) <= 0;
        k := k + 1;
      }
    }
  }

  /** The predicate "has key `k`". */
  function KeyIs<T>(key: T -> int, k: int): T -> bool {
    x => key(x) == k
  }

  lemma {:induction false} FilterKeyIsEmpty<T>(s: seq<T>, key: T -> int, k: int)
    requires forall i :: 0 <= i < |s| ==> key(s[i]) > k
    ensures Filter(s, KeyIs(key, k)) == []
  {
    if s != [] {
      FilterKeyIsEmpty(s[1..], key, k);
    }
  }

  /** The keys of `s` never decrease. */
  ghost predicate KeySorted<T>(s: seq<T>, key: T -> int) {
    forall i, j :: 0 <= i < j < |s| ==> key(s[i]) <= key(s[j])
  }

  lemma {:induction false} InsertByStable<T>(x: T, s: seq<T>, cmp: (T, T) -> int, key: T -> int, k: int)
    requires forall a, b :: cmp(a, b) == key(a) - key(b)
    requires KeySorted(s, key)
    ensures Filter(InsertBy(x, s, cmp), KeyIs(key, k)) == Filter(s, KeyIs(key, k)) + Filter([x], KeyIs(key, k))
  {
    var p := KeyIs(key, k);
    if s == [] {
      assert Filter(s, p) == [];
    } else if cmp(x, s[0]) < 0 {
      InsertByStableFront(x, s, key, k);
    } else {
      var t := s[1..];
      assert s == [s[0]] + t;
      InsertByStable(x, t, cmp, key, k);
      FilterConcat([s[0]], InsertBy(x, t, cmp), p);
      FilterConcat([s[0]], t, p);
      calc {
        Filter(InsertBy(x, s, cmp), p);
        Filter([s[0]] + InsertBy(x, t, cmp), p);
        Filter([s[0]], p) + Filter(InsertBy(x, t, cmp), p);
        Filter([s[0]], p) + (Filter(t, p) + Filter([x], p));
        (Filter([s[0]], p) + Filter(t, p)) + Filter([x], p);
        Filter(s, p) + Filter([x], p);
      }
    }
  }

  /** `x` keyed below all of `s` goes in front and is the only one of its key. */
  lemma InsertByStableFront<T>(x: T, s: seq<T>, key: T -> int, k: int)
    requires s != [] && key(x) < key(s[0]) && KeySorted(s, key)
    ensures Filter([x] + s, KeyIs(key, k)) == Filter(s, KeyIs(key, k)) + Filter([x], KeyIs(key, k))
  {
    var p := KeyIs(key, k);
    FilterConcat([x], s, p);
    if key(x) == k {
      FilterKeyIsEmpty(s, key, k);
    } else {
      assert Filter([x], p) == [];
    }
  }

  lemma AdjacentSortedIsKeySorted<T>(s: seq<T>, cmp: (T, T) -> int, key: T -> int)
    requires forall a, b :: cmp(a, b) == key(a) - key(b)
    requires AdjacentSorted(s, cmp)
    ensures KeySorted(s, key)
  {
    forall i, j | 0 <= i < j < |s| ensures key(s[i]) <= key(s[j]) {
      var n := i;
      while n < j
        invariant i <= n <= j
        invariant key(s[i]) <= key(s[n])
      {
        assert cmp(s[n], s[n + 1]) <= 0;
        n := n + 1;
      }
    }
  }

  /** Sorting by a key comparator is stable: for every key value, the elements
      with that key come out in their original relative order. */
  lemma SortByStable<T(!new)>(s: seq<T>, cmp: (T, T) -> int, key: T -> int, k: int)
    requires forall a, b :: cmp(a, b) == key(a) - key(b)
    ensures KeySorted(SortBy(s, cmp), key)
    ensures Filter(SortBy(s, cmp), KeyIs(key, k)) == Filter(s, KeyIs(key, k))
  {
    SortByKeySorted(s, cmp, key);
    SortByKeepsKeyOrder(s, cmp, key, k);
  }

  lemma KeyComparatorAntisymmetric<T(!new)>(cmp: (T, T) -> int, key: T -> int)
    requires forall a, b :: cmp(a, b) == key(a) - key(b)
    ensures Antisymmetric(cmp)
  {
    forall a, b ensures Sign(cmp(a, b)) == -Sign(cmp(b, a)) {
      assert cmp(a, b) == -cmp(b, a);
    }
  }

  lemma SortByKeySorted<T(!new)>(s: seq<T>, cmp: (T, T) -> int, key: T -> int)
    requires forall a, b :: cmp(a, b) == key(a) - key(b)
    ensures KeySorted(SortBy(s, cmp), key)
  {
    KeyComparatorAntisymmetric(cmp, key);
    SortByAdjacentSorted(s, cmp);
    AdjacentSortedIsKeySorted(SortBy(s, cmp), cmp, key);
  }

  lemma {:induction false} SortByKeepsKeyOrder<T(!new)>(s: seq<T>, cmp: (T, T) -> int, key: T -> int, k: int)
    requires forall a, b :: cmp(a, b) == key(a) - key(b)
    ensures Filter(SortBy(s, cmp), KeyIs(key, k)) == Filter(s, KeyIs(key, k))
  {
    if s != [] {
      var s0, x := s[..|s| - 1], s[|s| - 1];
      SortByKeepsKeyOrder(s0, cmp, key, k);
      SortByKeySorted(s0, cmp, key);
      InsertByStable(x, SortBy(s0, cmp), cmp, key, k);
      SplitLast(s);
      FilterConcat(s0, [x], KeyIs(key, k));
    }
  }

  /** The elements that tie with `t` under `cmp`. */
  function TiesWith<T>(cmp: (T, T) -> int, t: T): T -> bool {
    x => cmp(x, t) == 0
  }

  /** A transitive comparator stays transitive on any selection of elements. */
  lemma TransitiveOnSubset<T>(s: seq<T>, all: seq<T>, cmp: (T, T) -> int)
    requires TransitiveOn(all, cmp) && forall i :: 0 <= i < |s| ==> s[i] in all
    ensures TransitiveOn(s, cmp)
  {
  }

  /** An element that goes in front of a sorted sequence, strictly before its
      head, ties with none of the sequence's elements. */
  lemma FrontTiesNone<T(!new)>(x: T, s: seq<T>, cmp: (T, T) -> int, t: T, all: seq<T>)
    requires Antisymmetric(cmp) && TransitiveOn(all, cmp)
    requires s != [] && Sorted(s, cmp) && cmp(x, s[0]) < 0 && cmp(x, t) == 0
    requires x in all && t in all && forall i :: 0 <= i < |s| ==> s[i] in all
    ensures Filter(s, TiesWith(cmp, t)) == []
  {
    var h := s[0];
    assert Sign(cmp(t, x)) == -Sign(cmp(x, t));
    assert Sign(cmp(h, x)) == -Sign(cmp(x, h));
    forall i | 0 <= i < |s| ensures cmp(s[i], t) != 0 {
      var e := s[i];
      if i > 0 {
        assert cmp(h, e) <= 0;
      }
      assert cmp(e, t) <= 0 ==> cmp(h, t) <= 0;
      assert cmp(h, t) <= 0 ==> cmp(h, x) <= 0;
    }
    FilterEmpty(s, TiesWith(cmp, t));
  }

  /** Inserting into a sorted sequence puts `x` after every element it ties with. */
  lemma {:induction false} InsertByTies<T(!new)>(x: T, s: seq<T>, cmp: (T, T) -> int, t: T, all: seq<T>)
    requires Antisymmetric(cmp) && TransitiveOn(all, cmp) && Sorted(s, cmp)
    requires x in all && t in all && forall i :: 0 <= i < |s| ==> s[i] in all
    ensures Filter(InsertBy(x, s, cmp), TiesWith(cmp, t)) == Filter(s, TiesWith(cmp, t)) + Filter([x], TiesWith(cmp, t))
  {
    var p := TiesWith(cmp, t);
    if s == [] {
      assert Filter(s, p) == [];
    } else if cmp(x, s[0]) < 0 {
      FilterConcat([x], s, p);
      if p(x) {
        FrontTiesNone(x, s, cmp, t, all);
      } else {
        assert Filter([x], p) == [];
      }
    } else {
      var u := s[1..];
      assert s == [s[0]] + u;
      assert Sorted(u, cmp) by {
        forall i, j | 0 <= i < j < |u| ensures cmp(u[i], u[j]) <= 0 {
          assert u[i] == s[i + 1] && u[j] == s[j + 1];
        }
      }
      InsertByTies(x, u, cmp, t, all);
      FilterConcat([s[0]], InsertBy(x, u, cmp), p);
      FilterConcat([s[0]], u, p);
      ConcatAssociates(Filter([s[0]], p), Filter(u, p), Filter([x], p));
    }
  }

  /** With an antisymmetric comparator that is transitive on the elements, the
      sort is stable: the elements that tie with `t` keep their relative order. */
  lemma {:induction false} SortByTies<T(!new)>(s: seq<T>, cmp: (T, T) -> int, t: T, all: seq<T>)
    requires Antisymmetric(cmp) && TransitiveOn(all, cmp)
    requires t in all && forall i :: 0 <= i < |s| ==> s[i] in all
    ensures Filter(SortBy(s, cmp), TiesWith(cmp, t)) == Filter(s, TiesWith(cmp, t))
  {
    if s != [] {
      var s0, x := s[..|s| - 1], s[|s| - 1];
      assert forall i :: 0 <= i < |s0| ==> s0[i] == s[i];
      SortByTies(s0, cmp, t, all);
      var sorted := SortBy(s0, cmp);
      forall i | 0 <= i < |sorted| ensures sorted[i] in all {
        assert sorted[i] in multiset(s0);
      }
      SortByAdjacentSorted(s0, cmp);
      TransitiveOnSubset(sorted, all, cmp);
      AdjacentSortedIsSorted(sorted, cmp);
      InsertByTies(x, sorted, cmp, t, all);
      SplitLast(s);
      FilterConcat(s0, [x], TiesWith(cmp, t));
    }
  }

  /** `reduce((sum, x) => sum + f(x), 0)`. */
  function SumOver<T>(s: seq<T>, f: T -> int): int {
    if s == [] then 0 else f(s[0]) + SumOver(s[1..], f)
  }

  lemma {:induction false} SumOverConcat<T>(a: seq<T>, b: seq<T>, f: T -> int)
    ensures SumOver(a + b, f) == SumOver(a, f) + SumOver(b, f)
  {
    if a != [] {
      assert (a + b)[0] == a[0];
      assert (a + b)[1..] == a[1..] + b;
      SumOverConcat(a[1..], b, f);
      assert SumOver(a + b, f) == f(a[0]) + SumOver(a[1..] + b, f);
    } else {
      assert a + b == b;
    }
  }

  lemma {:induction false} SumOverInsertBy<T>(x: T, s: seq<T>, cmp: (T, T) -> int, f: T -> int)
    ensures SumOver(InsertBy(x, s, cmp), f) == f(x) + SumOver(s, f)
  {
    if s != [] && cmp(x, s[0]) >= 0 {
      SumOverInsertBy(x, s[1..], cmp, f);
    }
  }

  /** Sorting does not change a sum. */
  lemma {:induction false} SumOverSortBy<T>(s: seq<T>, cmp: (T, T) -> int, f: T -> int)
    ensures SumOver(SortBy(s, cmp), f) == SumOver(s, f)
  {
    if s != [] {
      var s0, x := s[..|s| - 1], s[|s| - 1];
      SumOverSortBy(s0, cmp, f);
      SumOverInsertBy(x, SortBy(s0, cmp), cmp, f);
      assert s == s0 + [x];
      SumOverConcat(s0, [x], f);
    }
  }

  /** The sum over `s` splits into the sums over the elements kept by `p` and by its negation. */
  lemma {:induction false} SumOverPartition<T>(s: seq<T>, p: T -> bool, q: T -> bool, f: T -> int)
    requires forall x :: x in s ==> (q(x) <==> !p(x))
    ensures SumOver(Filter(s, p), f) + SumOver(Filter(s, q), f) == SumOver(s, f)
  {
    if s != [] {
      SumOverPartition(s[1..], p, q, f);
      SumOverConcat(if p(s[0]) then [s[0]] else [], Filter(s[1..], p), f);
      SumOverConcat(if q(s[0]) then [s[0]] else [], Filter(s[1..], q), f);
    }
  }

  /** `slice(0, n)`. */
  function Take<T>(s: seq<T>, n: nat): (r: seq<T>)
    ensures |r| <= n && |r| <= |s|
    ensures r == s[..|r|]
    ensures |s| <= n ==> r == s
    ensures n <= |s| ==> |r| == n
  {
    if |s| <= n then s else s[..n]
  }

  /** `Array.prototype.slice(start, end)`: a negative bound counts from the
      end, and both bounds are clamped to `[0, |s|]`. */
  function JsSlice<T>(s: seq<T>, start: int, end: int): (r: seq<T>)
    ensures |r| <= |s|
    ensures 0 <= start <= end <= |s| ==> r == s[start..end]
    ensures 0 <= start <= |s| <= end ==> r == s[start..]
    ensures |s| <= start || (0 <= end <= start) ==> r == []
  {
    var len := |s|;
    var from := if start < 0 then Clamp(len + start, len) else Clamp(start, len);
    var to := if end < 0 then Clamp(len + end, len) else Clamp(end, len);
    if from < to then s[from..to] else []
  }

  /** `x` clamped to `[0, n]`. */
  function Clamp(x: int, n: nat): (r: nat)
    ensures r <= n
    ensures 0 <= x <= n ==> r == x
  {
    if x < 0 then 0 else if x > n then n else x
  }

  /** The set of elements of `s` (a JavaScript `Set` built from an array). */
  function ElementSet<T>(s: seq<T>): (r: set<T>)
    ensures |r| <= |s|
    ensures forall i :: 0 <= i < |s| ==> s[i] in r
    ensures forall x :: x in r ==> x in s
  {
    if s == [] then {}
    else
      var r0 := ElementSet(s[..|s| - 1]);
      assert s == s[..|s| - 1] + [s[|s| - 1]];
      r0 + {s[|s| - 1]}
  }

  /** No element occurs twice. */
  ghost predicate Distinct<T>(s: seq<T>) {
    forall i, j :: 0 <= i < j < |s| ==> s[i] != s[j]
  }

  lemma {:induction false} DistinctCounts<T>(s: seq<T>)
    requires Distinct(s)
    ensures forall x :: multiset(s)[x] <= 1
  {
    if s != [] {
      var s0, y := s[..|s| - 1], s[|s| - 1];
      assert s == s0 + [y];
      DistinctCounts(s0);
      assert y !in s0 by {
        forall i | 0 <= i < |s0| ensures s0[i] != y {
          assert s0[i] == s[i];
        }
      }
    }
  }

  lemma CountsDistinct<T>(s: seq<T>)
    requires forall x :: multiset(s)[x] <= 1
    ensures Distinct(s)
  {
    forall i, j | 0 <= i < j < |s| ensures s[i] != s[j] {
      assert s == s[..j] + s[j..];
      assert s[i] in multiset(s[..j]);
      assert s[j] in multiset(s[j..]);
      assert multiset(s)[s[j]] == multiset(s[..j])[s[j]] + multiset(s[j..])[s[j]];
    }
  }

  /** A permutation of a sequence without repetitions has none either. */
  lemma DistinctPermutation<T>(a: seq<T>, b: seq<T>)
    requires Distinct(a) && multiset(a) == multiset(b)
    ensures Distinct(b)
  {
    DistinctCounts(a);
    CountsDistinct(b);
  }
}
