/** The chart page's aggregations: the numeric-column list, the group-by-sum
    behind the bar, line and area charts, the frequency table behind the pie
    chart, and the overview tiles. */
module Visualizations {
  import opened JsValues
  import opened Sequences
  import opened Records
  import opened ObjectKeys

  /** `chartData` keeps the first ten groups. */
  const MaxBars: nat := 10
  /** `pieData` keeps the eight largest groups. */
  const MaxSlices: nat := 8
  /** The overview shows the first six columns. */
  const OverviewColumns: nat := 6

  // ---------------------------------------------------------------------
  // Numeric columns
  // ---------------------------------------------------------------------

  /** `typeof v === 'number' || !isNaN(Number(v))`. */
  predicate NumericValue(v: Value) {
    v.Num? || IsNumeric(v)
  }

  /** Some row holds a numeric value in column `col` (`data.some(...)`). */
  predicate IsNumericColumn(data: seq<Row>, col: string) {
    exists i :: 0 <= i < |data| && NumericValue(Get(data[i], col))
  }

  function NumericIn(data: seq<Row>): string -> bool {
    col => IsNumericColumn(data, col)
  }

  /** `numericColumns`: the columns, in order, for which some row is numeric. */
  function NumericColumns(data: seq<Row>): (r: seq<string>)
    ensures IsSubsequence(r, Columns(data))
    ensures forall c :: c in r <==> c in Columns(data) && IsNumericColumn(data, c)
  {
    FilterIsSubsequence(Columns(data), NumericIn(data));
    if data == [] then [] else Filter(Columns(data), NumericIn(data))
  }

  /** One row with `null`, `''`, a blank string or a boolean in a column is
      enough to make that column numeric, because `Number` maps all of them
      to a number; a missing property (`undefined`) is not. */
  lemma NullOrBlankMakesNumeric(data: seq<Row>, i: int, col: string)
    requires 0 <= i < |data| && col in Columns(data)
    requires Get(data[i], col) in {Null, Str(""), Str(" "), Bool(false), Bool(true)}
    ensures col in NumericColumns(data)
  {
    assert Trim(" ") == [] by {
      assert !HasContent(" ") by {
        assert forall k :: 0 <= k < |" "| ==> " "[k] == ' ';
      }
    }
    assert NumericValue(Get(data[i], col));
  }

  /** The test is `some`, not `every`: a text column with a single number in
      it counts as numeric. */
  lemma OneNumberMakesColumnNumeric()
    ensures var data := [[("a", Str("north"))], [("a", Num(3))]];
      NumericColumns(data) == ["a"]
  {
    var data := [[("a", Str("north"))], [("a", Num(3))]];
    assert Columns(data) == ["a"];
    assert Get(data[1], "a") == Num(3);
    assert IsNumericColumn(data, "a");
    assert ["a"][1..] == [];
  }

  // ---------------------------------------------------------------------
  // Groups
  // ---------------------------------------------------------------------

  /** `String(row[x])`: the group label of a row. */
  function Label(row: Row, x: string): string {
    ToJsString(Get(row, x))
  }

  /** `Number(row[y]) || 0`: the amount a row adds to its group. */
  function YValue(row: Row, y: string): int {
    NumberOrZero(Get(row, y))
  }

  function YOf(y: string): Row -> int {
    row => YValue(row, y)
  }

  function LabelIs(x: string, k: string): Row -> bool {
    row => Label(row, x) == k
  }

  /** Some row of `data` has label `k`. */
  ghost predicate LabelOccurs(data: seq<Row>, x: string, k: string) {
    exists i :: 0 <= i < |data| && Label(data[i], x) == k
  }

  /** The keys the `reduce` adds to `grouped`, in the order it adds them:
      a row's label is added unless it is already present. */
  function GroupKeys(data: seq<Row>, x: string): seq<string> {
    if data == [] then []
    else
      var ks := GroupKeys(data[..|data| - 1], x);
      var l := Label(data[|data| - 1], x);
      if l in ks then ks else ks + [l]
  }

  /** The rows with label `k`, in order. */
  function Group(data: seq<Row>, x: string, k: string): seq<Row> {
    if data == [] then []
    else
      var last := data[|data| - 1];
      Group(data[..|data| - 1], x, k) + if Label(last, x) == k then [last] else []
  }

  /** One more row adds its label at the end, unless the label is present. */
  lemma GroupKeysSnoc(data: seq<Row>, row: Row, x: string)
    ensures GroupKeys(data + [row], x) ==
      if Label(row, x) in GroupKeys(data, x) then GroupKeys(data, x) else GroupKeys(data, x) + [Label(row, x)]
  {
    assert (data + [row])[..|data|] == data;
  }

  lemma GroupSnoc(data: seq<Row>, row: Row, x: string, k: string)
    ensures Group(data + [row], x, k) == Group(data, x, k) + if Label(row, x) == k then [row] else []
  {
    assert (data + [row])[..|data|] == data;
  }

  /** No label is added twice. */
  lemma {:induction false} GroupKeysDistinct(data: seq<Row>, x: string)
    ensures Distinct(GroupKeys(data, x))
  {
    if data != [] {
      GroupKeysDistinct(data[..|data| - 1], x);
    }
  }

  /** The group keys are exactly the labels that occur. */
  lemma {:induction false} GroupKeysMembers(data: seq<Row>, x: string, k: string)
    ensures k in GroupKeys(data, x) <==> LabelOccurs(data, x, k)
  {
    if data != [] {
      var d0 := data[..|data| - 1];
      GroupKeysMembers(d0, x, k);
      LabelOccursSnoc(d0, data[|data| - 1], x, k);
      assert d0 + [data[|data| - 1]] == data;
    }
  }

  lemma LabelOccursSnoc(data: seq<Row>, row: Row, x: string, k: string)
    ensures LabelOccurs(data + [row], x, k) <==> LabelOccurs(data, x, k) || Label(row, x) == k
  {
    var d := data + [row];
    if LabelOccurs(d, x, k) {
      var i :| 0 <= i < |d| && Label(d[i], x) == k;
      if i < |data| {
        assert d[i] == data[i];
      }
    }
    if LabelOccurs(data, x, k) {
      var i :| 0 <= i < |data| && Label(data[i], x) == k;
      assert d[i] == data[i];
    }
    if Label(row, x) == k {
      assert d[|data|] == row;
    }
  }

  /** Every row's label is a group key. */
  lemma GroupKeysCover(data: seq<Row>, x: string)
    ensures forall i :: 0 <= i < |data| ==> Label(data[i], x) in GroupKeys(data, x)
  {
    forall i | 0 <= i < |data| ensures Label(data[i], x) in GroupKeys(data, x) {
      GroupKeysMembers(data, x, Label(data[i], x));
    }
  }

  /** A label has rows exactly when it is a group key. */
  lemma {:induction false} GroupEmptyIffAbsent(data: seq<Row>, x: string, k: string)
    ensures Group(data, x, k) == [] <==> k !in GroupKeys(data, x)
  {
    if data != [] {
      GroupEmptyIffAbsent(data[..|data| - 1], x, k);
    }
  }

  lemma {:induction false} GroupCons(row: Row, rest: seq<Row>, x: string, k: string)
    ensures Group([row] + rest, x, k) == (if Label(row, x) == k then [row] else []) + Group(rest, x, k)
  {
    if rest == [] {
      assert [row] + rest == [] + [row];
      GroupSnoc([], row, x, k);
    } else {
      var r0, last := rest[..|rest| - 1], rest[|rest| - 1];
      assert rest == r0 + [last];
      assert [row] + rest == ([row] + r0) + [last];
      GroupCons(row, r0, x, k);
      GroupSnoc([row] + r0, last, x, k);
      GroupSnoc(r0, last, x, k);
    }
  }

  // ---------------------------------------------------------------------
  // Group-by-sum (`chartData`)
  // ---------------------------------------------------------------------

  /** An entry `{ name, value, count }` of `grouped`. */
  datatype ChartPoint = ChartPoint(name: string, value: int, count: nat)

  function PointValue(p: ChartPoint): int {
    p.value
  }

  function PointCount(p: ChartPoint): int {
    p.count
  }

  /** The entry the `reduce` leaves for label `k`. */
  function Bucket(data: seq<Row>, x: string, y: string, k: string): ChartPoint {
    var g := Group(data, x, k);
    ChartPoint(k, SumOver(g, YOf(y)), |g|)
  }

  /** The entries for the keys `ks`, in that order. */
  function Buckets(data: seq<Row>, x: string, y: string, ks: seq<string>): (ps: seq<ChartPoint>)
    ensures |ps| == |ks| && forall m :: 0 <= m < |ks| ==> ps[m] == Bucket(data, x, y, ks[m])
  {
    if ks == [] then [] else [Bucket(data, x, y, ks[0])] + Buckets(data, x, y, ks[1..])
  }

  /** `Object.values(grouped)`: one entry per distinct label, in property
      order. */
  function AllBuckets(data: seq<Row>, x: string, y: string): seq<ChartPoint> {
    Buckets(data, x, y, OwnKeyOrder(GroupKeys(data, x)))
  }

  /** `chartData` with the corrected grouping: every label gets an entry,
      including labels that name inherited properties (see README, Findings). */
  function ChartSeries(data: seq<Row>, x: string, y: string): (r: seq<ChartPoint>)
    ensures |r| <= MaxBars
    ensures x == "" || y == "" || data == [] ==> r == []
    ensures !(x == "" || y == "" || data == []) ==>
      r <= AllBuckets(data, x, y) && |r| == if |GroupKeys(data, x)| < MaxBars then |GroupKeys(data, x)| else MaxBars
  {
    if x == "" || y == "" || data == [] then []
    else
      AllBucketsLength(data, x, y);
      Take(AllBuckets(data, x, y), MaxBars)
  }

  lemma AllBucketsLength(data: seq<Row>, x: string, y: string)
    ensures |AllBuckets(data, x, y)| == |GroupKeys(data, x)|
  {
  }

  lemma BucketSnoc(data: seq<Row>, row: Row, x: string, y: string, k: string)
    ensures Bucket(data + [row], x, y, k) ==
      if Label(row, x) == k then
        ChartPoint(k, Bucket(data, x, y, k).value + YValue(row, y), Bucket(data, x, y, k).count + 1)
      else Bucket(data, x, y, k)
  {
    GroupSnoc(data, row, x, k);
    SumOverConcat(Group(data, x, k), if Label(row, x) == k then [row] else [], YOf(y));
  }

  lemma BucketCons(row: Row, rest: seq<Row>, x: string, y: string, k: string)
    ensures Bucket([row] + rest, x, y, k) ==
      if Label(row, x) == k then
        ChartPoint(k, YValue(row, y) + Bucket(rest, x, y, k).value, Bucket(rest, x, y, k).count + 1)
      else Bucket(rest, x, y, k)
  {
    GroupCons(row, rest, x, k);
    SumOverConcat(if Label(row, x) == k then [row] else [], Group(rest, x, k), YOf(y));
  }

  lemma {:induction false} BucketsOfNoRows(x: string, y: string, ks: seq<string>)
    ensures SumOver(Buckets([], x, y, ks), PointCount) == 0
    ensures SumOver(Buckets([], x, y, ks), PointValue) == 0
  {
    if ks != [] {
      BucketsOfNoRows(x, y, ks[1..]);
    }
  }

  /** Putting one row in front adds it to the bucket of its label, if that
      label is among the (distinct) keys. */
  lemma {:induction false} BucketsCons(row: Row, rest: seq<Row>, x: string, y: string, ks: seq<string>)
    requires Distinct(ks)
    ensures SumOver(Buckets([row] + rest, x, y, ks), PointCount) ==
      SumOver(Buckets(rest, x, y, ks), PointCount) + if Label(row, x) in ks then 1 else 0
    ensures SumOver(Buckets([row] + rest, x, y, ks), PointValue) ==
      SumOver(Buckets(rest, x, y, ks), PointValue) + if Label(row, x) in ks then YValue(row, y) else 0
  {
    if ks != [] {
      var tail := ks[1..];
      assert Distinct(tail);
      BucketsCons(row, rest, x, y, tail);
      BucketCons(row, rest, x, y, ks[0]);
      assert Label(row, x) == ks[0] ==> Label(row, x) !in tail;
      assert Label(row, x) in ks <==> Label(row, x) == ks[0] || Label(row, x) in tail;
    }
  }

  /** Over keys that cover every label once, the counts add up to the number
      of rows and the values to the sum of `Number(y) || 0` over all rows. */
  lemma {:induction false} BucketsCover(data: seq<Row>, x: string, y: string, ks: seq<string>)
    requires Distinct(ks)
    requires forall i :: 0 <= i < |data| ==> Label(data[i], x) in ks
    ensures SumOver(Buckets(data, x, y, ks), PointCount) == |data|
    ensures SumOver(Buckets(data, x, y, ks), PointValue) == SumOver(data, YOf(y))
  {
    if data == [] {
      BucketsOfNoRows(x, y, ks);
    } else {
      assert data == [data[0]] + data[1..];
      BucketsCons(data[0], data[1..], x, y, ks);
      BucketsCover(data[1..], x, y, ks);
    }
  }

  /** The keys of `grouped`, in property order, are distinct and cover every
      label. */
  lemma OrderedKeysCover(data: seq<Row>, x: string)
    ensures var ks := OwnKeyOrder(GroupKeys(data, x));
      Distinct(ks) && forall i :: 0 <= i < |data| ==> Label(data[i], x) in ks
  {
    var gk := GroupKeys(data, x);
    var ks := OwnKeyOrder(gk);
    GroupKeysDistinct(data, x);
    DistinctPermutation(gk, ks);
    GroupKeysCover(data, x);
    forall i | 0 <= i < |data| ensures Label(data[i], x) in ks {
      assert Label(data[i], x) in multiset(gk);
    }
  }

  /** Before the cut to ten, the counts sum to the number of rows and the
      values sum to the column total. */
  lemma AllBucketsPartitionData(data: seq<Row>, x: string, y: string)
    ensures SumOver(AllBuckets(data, x, y), PointCount) == |data|
    ensures SumOver(AllBuckets(data, x, y), PointValue) == SumOver(data, YOf(y))
  {
    OrderedKeysCover(data, x);
    BucketsCover(data, x, y, OwnKeyOrder(GroupKeys(data, x)));
  }

  /** Entry `m` is the bucket of the `m`-th key in property order: it has at
      least one row and its count is the number of rows with its name. */
  lemma AllBucketsEntries(data: seq<Row>, x: string, y: string, m: int)
    requires 0 <= m < |AllBuckets(data, x, y)|
    ensures var p := AllBuckets(data, x, y)[m];
      p.name == OwnKeyOrder(GroupKeys(data, x))[m] && p.count >= 1 && p.count == |Group(data, x, p.name)|
  {
    var gk := GroupKeys(data, x);
    var ks := OwnKeyOrder(gk);
    assert ks[m] in multiset(gk);
    GroupEmptyIffAbsent(data, x, ks[m]);
  }

  /** The entries' names are exactly the labels that occur. */
  lemma AllBucketsNames(data: seq<Row>, x: string, y: string, k: string)
    ensures LabelOccurs(data, x, k) <==>
      exists m :: 0 <= m < |AllBuckets(data, x, y)| && AllBuckets(data, x, y)[m].name == k
  {
    var gk := GroupKeys(data, x);
    var ks := OwnKeyOrder(gk);
    assert AllBuckets(data, x, y) == Buckets(data, x, y, ks);
    GroupKeysMembers(data, x, k);
    PermutationMembers(gk, ks, k);
    BucketsNames(data, x, y, ks, k);
  }

  lemma PermutationMembers(a: seq<string>, b: seq<string>, k: string)
    requires multiset(a) == multiset(b)
    ensures k in a <==> k in b
  {
    assert k in a <==> k in multiset(a);
    assert k in b <==> k in multiset(b);
  }

  /** An entry is named `k` exactly when `k` is one of the keys. */
  lemma BucketsNames(data: seq<Row>, x: string, y: string, ks: seq<string>, k: string)
    ensures k in ks <==> exists m :: 0 <= m < |Buckets(data, x, y, ks)| && Buckets(data, x, y, ks)[m].name == k
  {
    var ps := Buckets(data, x, y, ks);
    if k in ks {
      var m :| 0 <= m < |ks| && ks[m] == k;
      assert ps[m].name == k;
    }
  }

  /** The `reduce` callback of `chartData`: create the entry of the row's
      label if it is missing, then add the row's amount to its value and one
      to its count. */
  function AddRow(acc: map<string, ChartPoint>, row: Row, x: string, y: string): map<string, ChartPoint> {
    var name := Label(row, x);
    var entry := if name in acc then acc[name] else ChartPoint(name, 0, 0);
    acc[name := ChartPoint(name, entry.value + YValue(row, y), entry.count + 1)]
  }

  /** The dictionary the `reduce` builds from the rows `rows`. */
  function Accumulate(rows: seq<Row>, x: string, y: string): map<string, ChartPoint> {
    if rows == [] then map[] else AddRow(Accumulate(rows[..|rows| - 1], x, y), rows[|rows| - 1], x, y)
  }

  /** The dictionary has an entry for exactly the labels that occur, and the
      entry of a label is its bucket: the number of rows with that label and
      the sum of their amounts. */
  lemma {:induction false} AccumulateIsBuckets(rows: seq<Row>, x: string, y: string)
    ensures forall k :: k in Accumulate(rows, x, y) <==> k in GroupKeys(rows, x)
    ensures forall k :: k in Accumulate(rows, x, y) ==> Accumulate(rows, x, y)[k] == Bucket(rows, x, y, k)
  {
    if rows != [] {
      var r0, row := rows[..|rows| - 1], rows[|rows| - 1];
      assert rows == r0 + [row];
      AccumulateIsBuckets(r0, x, y);
      GroupKeysSnoc(r0, row, x);
      var name := Label(row, x);
      if name !in Accumulate(r0, x, y) {
        GroupEmptyIffAbsent(r0, x, name);
      }
      forall k | k in Accumulate(rows, x, y) ensures Accumulate(rows, x, y)[k] == Bucket(rows, x, y, k) {
        BucketSnoc(r0, row, x, y, k);
      }
    }
  }

  lemma AccumulateHas(rows: seq<Row>, x: string, y: string, k: string)
    ensures k in Accumulate(rows, x, y) <==> k in GroupKeys(rows, x)
  {
    AccumulateIsBuckets(rows, x, y);
  }

  lemma AccumulateEntry(rows: seq<Row>, x: string, y: string, k: string)
    requires k in Accumulate(rows, x, y)
    ensures Accumulate(rows, x, y)[k] == Bucket(rows, x, y, k)
  {
    AccumulateIsBuckets(rows, x, y);
  }

  /** One more row of `data` updates the entry of its label and adds the
      label to the key order when the entry was missing. */
  lemma AccumulateStep(data: seq<Row>, i: int, x: string, y: string)
    requires 0 <= i < |data|
    ensures Accumulate(data[..i + 1], x, y) == AddRow(Accumulate(data[..i], x, y), data[i], x, y)
    ensures GroupKeys(data[..i + 1], x) ==
      if Label(data[i], x) in Accumulate(data[..i], x, y) then GroupKeys(data[..i], x) else GroupKeys(data[..i], x) + [Label(data[i], x)]
  {
    assert data[..i + 1][..i] == data[..i];
    AccumulateHas(data[..i], x, y, Label(data[i], x));
  }

  /** The `reduce` of `chartData`: a dictionary `acc` from label to entry,
      updated row by row, and `order`, the order in which its keys were
      added. */
  method GroupRows(data: seq<Row>, x: string, y: string) returns (acc: map<string, ChartPoint>, order: seq<string>)
    ensures acc == Accumulate(data, x, y) && order == GroupKeys(data, x)
  {
    acc := map[];
    order := [];
    var i := 0;
    while i < |data|
      invariant 0 <= i <= |data|
      invariant acc == Accumulate(data[..i], x, y)
      invariant order == GroupKeys(data[..i], x)
    {
      var row := data[i];
      var name := Label(row, x);
      AccumulateStep(data, i, x, y);
      if name !in acc {
        order := order + [name];
      }
      acc := AddRow(acc, row, x, y);
      i := i + 1;
    }
    assert data[..i] == data;
  }

  /** `chartData` with the corrected grouping: group the rows, then
      `Object.values(grouped).slice(0, 10)` (see README, Findings). */
  method ChartData(data: seq<Row>, x: string, y: string) returns (points: seq<ChartPoint>)
    ensures points == ChartSeries(data, x, y)
  {
    if x == "" || y == "" || |data| == 0 {
      return [];
    }
    var acc, order := GroupRows(data, x, y);
    var keys := OwnKeyOrder(order);
    OrderedKeysAccumulated(data, x, y);
    var values := ValuesInOrder(acc, keys);
    AccumulatedValues(data, x, y, values);
    points := Take(values, MaxBars);
  }

  /** Every key in property order has an entry in the dictionary. */
  lemma OrderedKeysAccumulated(data: seq<Row>, x: string, y: string)
    ensures var keys := OwnKeyOrder(GroupKeys(data, x));
      forall m :: 0 <= m < |keys| ==> keys[m] in Accumulate(data, x, y)
  {
    var keys := OwnKeyOrder(GroupKeys(data, x));
    forall m | 0 <= m < |keys| ensures keys[m] in Accumulate(data, x, y) {
      assert keys[m] in multiset(GroupKeys(data, x));
      AccumulateHas(data, x, y, keys[m]);
    }
  }

  /** The dictionary's values in property order are the buckets. */
  lemma AccumulatedValues(data: seq<Row>, x: string, y: string, values: seq<ChartPoint>)
    requires var keys := OwnKeyOrder(GroupKeys(data, x));
      |values| == |keys| &&
      forall m :: 0 <= m < |keys| ==> keys[m] in Accumulate(data, x, y) && values[m] == Accumulate(data, x, y)[keys[m]]
    ensures values == AllBuckets(data, x, y)
  {
    var keys := OwnKeyOrder(GroupKeys(data, x));
    forall m | 0 <= m < |keys| ensures values[m] == Bucket(data, x, y, keys[m]) {
      AccumulateEntry(data, x, y, keys[m]);
    }
  }

  /** The property names a plain object inherits from `Object.prototype`. */
  const InheritedNames: set<string> := {
    "constructor", "__defineGetter__", "__defineSetter__", "hasOwnProperty",
    "__lookupGetter__", "__lookupSetter__", "isPrototypeOf", "propertyIsEnumerable",
    "toString", "valueOf", "__proto__", "toLocaleString"
  }

  predicate OwnName(k: string) {
    k !in InheritedNames
  }

  /** `chartData` as written: `acc` starts as `{}`, so for a label such as
      "toString" the test `!acc[xValue]` sees the inherited method, no own
      entry is created, and the row's amounts go to the inherited value
      instead. Those labels never reach `Object.values(grouped)`. */
  function ChartSeriesAsWritten(data: seq<Row>, x: string, y: string): (r: seq<ChartPoint>)
    ensures |r| <= MaxBars
  {
    if x == "" || y == "" || data == [] then []
    else Take(Buckets(data, x, y, OwnKeyOrder(Filter(GroupKeys(data, x), OwnName))), MaxBars)
  }

  /** As written, no entry is named after an inherited property. */
  lemma AsWrittenOwnNamesOnly(data: seq<Row>, x: string, y: string)
    ensures var r := ChartSeriesAsWritten(data, x, y);
      forall m :: 0 <= m < |r| ==> OwnName(r[m].name)
  {
    if !(x == "" || y == "" || data == []) {
      var keys := OwnKeyOrder(Filter(GroupKeys(data, x), OwnName));
      var r := ChartSeriesAsWritten(data, x, y);
      assert r == Take(Buckets(data, x, y, keys), MaxBars);
      TakeBucketsNames(data, x, y, keys, MaxBars);
      forall m | 0 <= m < |r| ensures OwnName(r[m].name) {
        OwnKeyIsOwn(Filter(GroupKeys(data, x), OwnName), m);
      }
    }
  }

  /** Ordering the keys that pass `OwnName` keeps only such keys. */
  lemma OwnKeyIsOwn(own: seq<string>, m: int)
    requires forall i :: 0 <= i < |own| ==> OwnName(own[i])
    requires 0 <= m < |OwnKeyOrder(own)|
    ensures OwnName(OwnKeyOrder(own)[m])
  {
    assert OwnKeyOrder(own)[m] in multiset(own);
  }

  /** The first `n` entries are named by the first `n` keys. */
  lemma TakeBucketsNames(data: seq<Row>, x: string, y: string, keys: seq<string>, n: nat)
    ensures var r := Take(Buckets(data, x, y, keys), n);
      forall m :: 0 <= m < |r| ==> r[m].name == keys[m]
  {
  }

  /** A single row labelled "toString" vanishes from the chart as written,
      while every row belongs to some entry of `ChartSeries`. */
  lemma InheritedLabelVanishes()
    ensures var data := [[("k", Str("toString")), ("v", Num(5))]];
      ChartSeriesAsWritten(data, "k", "v") == [] &&
      ChartSeries(data, "k", "v") == [ChartPoint("toString", 5, 1)]
  {
    var data := [[("k", Str("toString")), ("v", Num(5))]];
    assert Get(data[0], "k") == Str("toString");
    assert Get(data[0], "v") == Num(5);
    assert GroupKeys(data, "k") == ["toString"] by {
      assert data[..0] == [];
    }
    assert !IsArrayIndex("toString");
    assert Filter(["toString"], OwnName) == [] by {
      assert ["toString"][1..] == [];
    }
    assert OwnKeyOrder(["toString"]) == ["toString"] by {
      assert ["toString"][1..] == [];
      assert Filter(["toString"], IsArrayIndex) == [];
      assert Filter(["toString"], NotArrayIndex) == ["toString"];
    }
    assert Group(data, "k", "toString") == data by {
      assert data[..0] == [];
    }
    assert SumOver(data, YOf("v")) == 5 by {
      assert data[1..] == [];
      assert YValue(data[0], "v") == 5;
    }
  }

  // ---------------------------------------------------------------------
  // Frequency table (`pieData`)
  // ---------------------------------------------------------------------

  /** An entry `{ name, value }` of `pieData`: a label and its number of rows. */
  datatype PieSlice = PieSlice(name: string, value: nat)

  function SliceValue(p: PieSlice): int {
    p.value
  }

  /** The sort key: the comparator `b.value - a.value` orders by it. */
  function SliceRank(p: PieSlice): int {
    -(p.value as int)
  }

  /** `(a, b) => b.value - a.value`. */
  function ByValueDesc(a: PieSlice, b: PieSlice): int {
    b.value - a.value
  }

  function Slices(data: seq<Row>, x: string, ks: seq<string>): (r: seq<PieSlice>)
    ensures |r| == |ks| && forall m :: 0 <= m < |ks| ==> r[m] == PieSlice(ks[m], |Group(data, x, ks[m])|)
  {
    if ks == [] then [] else [PieSlice(ks[0], |Group(data, x, ks[0])|)] + Slices(data, x, ks[1..])
  }

  /** `Object.entries(grouped).map(...)`, in property order. */
  function PieEntries(data: seq<Row>, x: string): seq<PieSlice> {
    Slices(data, x, OwnKeyOrder(GroupKeys(data, x)))
  }

  /** The entries after the (stable) sort by descending count. */
  function PieRanked(data: seq<Row>, x: string): seq<PieSlice> {
    SortBy(PieEntries(data, x), ByValueDesc)
  }

  /** `pieData`. */
  function PieSeries(data: seq<Row>, x: string): (r: seq<PieSlice>)
    ensures |r| <= MaxSlices
    ensures x == "" || data == [] ==> r == []
    ensures !(x == "" || data == []) ==>
      r <= PieRanked(data, x) && |r| == if |GroupKeys(data, x)| < MaxSlices then |GroupKeys(data, x)| else MaxSlices
  {
    if x == "" || data == [] then []
    else
      PieRankedLength(data, x);
      Take(PieRanked(data, x), MaxSlices)
  }

  lemma PieRankedLength(data: seq<Row>, x: string)
    ensures |PieRanked(data, x)| == |GroupKeys(data, x)|
  {
  }

  lemma {:induction false} SlicesCountBuckets(data: seq<Row>, x: string, y: string, ks: seq<string>)
    ensures SumOver(Slices(data, x, ks), SliceValue) == SumOver(Buckets(data, x, y, ks), PointCount)
  {
    if ks != [] {
      SlicesCountBuckets(data, x, y, ks[1..]);
    }
  }

  /** The ranked slices are in non-increasing order of count. */
  lemma PieRankedDescending(data: seq<Row>, x: string)
    ensures var r := PieRanked(data, x);
      forall i, j :: 0 <= i < j < |r| ==> r[i].value >= r[j].value
  {
    var r := PieRanked(data, x);
    RankedByCount(PieEntries(data, x), 0);
    assert KeySorted(r, SliceRank);
    forall i, j | 0 <= i < j < |r| ensures r[i].value >= r[j].value {
      assert SliceRank(r[i]) <= SliceRank(r[j]);
    }
  }

  /** Slices with the same count keep their `Object.entries` order. */
  lemma PieRankedStable(data: seq<Row>, x: string, c: nat)
    ensures Filter(PieRanked(data, x), CountIs(c)) == Filter(PieEntries(data, x), CountIs(c))
  {
    var e := PieEntries(data, x);
    var k := -(c as int);
    RankedByCount(e, k);
    CountIsRank(SortBy(e, ByValueDesc), c, k);
    CountIsRank(e, c, k);
  }

  /** The slices with count `c`. */
  function CountIs(c: nat): PieSlice -> bool {
    (s: PieSlice) => s.value == c
  }

  lemma CountIsRank(s: seq<PieSlice>, c: nat, k: int)
    requires k + c == 0
    ensures Filter(s, CountIs(c)) == Filter(s, KeyIs(SliceRank, k))
  {
    FilterCongruent(s, CountIs(c), KeyIs(SliceRank, k));
  }

  /** Sorting with `b.value - a.value` is sorting by `SliceRank`, stably. */
  lemma RankedByCount(entries: seq<PieSlice>, k: int)
    ensures KeySorted(SortBy(entries, ByValueDesc), SliceRank)
    ensures Filter(SortBy(entries, ByValueDesc), KeyIs(SliceRank, k)) == Filter(entries, KeyIs(SliceRank, k))
  {
    ByValueDescIsRankDifference();
    SortByStable(entries, ByValueDesc, SliceRank, k);
  }

  lemma ByValueDescIsRankDifference()
    ensures forall a, b :: ByValueDesc(a, b) == SliceRank(a) - SliceRank(b)
  {
  }

  /** Before the cut to eight, the counts sum to the number of rows. */
  lemma PieRankedSum(data: seq<Row>, x: string)
    ensures SumOver(PieRanked(data, x), SliceValue) == |data|
  {
    SumOverSortBy(PieEntries(data, x), ByValueDesc, SliceValue);
    SlicesCountBuckets(data, x, "", OwnKeyOrder(GroupKeys(data, x)));
    AllBucketsPartitionData(data, x, "");
  }

  /** Every slice stands for at least one row. */
  lemma PieRankedPositive(data: seq<Row>, x: string, m: int)
    requires 0 <= m < |PieRanked(data, x)|
    ensures PieRanked(data, x)[m].value >= 1
  {
    var entries := PieEntries(data, x);
    var r := PieRanked(data, x);
    assert r[m] in multiset(entries);
    var n :| 0 <= n < |entries| && entries[n] == r[m];
    var gk := GroupKeys(data, x);
    var ks := OwnKeyOrder(gk);
    assert ks[n] in multiset(gk);
    GroupEmptyIffAbsent(data, x, ks[n]);
  }

  /** The slices shown are the largest: none left out has a larger count than
      one shown. */
  lemma PieSeriesKeepsLargest(data: seq<Row>, x: string)
    requires x != "" && data != []
    ensures var r := PieRanked(data, x);
      var shown := PieSeries(data, x);
      forall i, j :: 0 <= i < |shown| <= j < |r| ==> shown[i].value >= r[j].value
  {
    PieRankedDescending(data, x);
  }

  /** The `reduce` callback of `pieData`: add one to the count of the row's
      label, starting from 0. */
  function AddCount(acc: map<string, nat>, row: Row, x: string): map<string, nat> {
    var name := Label(row, x);
    acc[name := (if name in acc then acc[name] else 0) + 1]
  }

  /** The dictionary the `reduce` of `pieData` builds from the rows `rows`. */
  function Tally(rows: seq<Row>, x: string): map<string, nat> {
    if rows == [] then map[] else AddCount(Tally(rows[..|rows| - 1], x), rows[|rows| - 1], x)
  }

  /** The tally has an entry for exactly the labels that occur, and it holds
      the number of rows with that label. */
  lemma {:induction false} TallyIsGroupSizes(rows: seq<Row>, x: string)
    ensures forall k :: k in Tally(rows, x) <==> k in GroupKeys(rows, x)
    ensures forall k :: k in Tally(rows, x) ==> Tally(rows, x)[k] == |Group(rows, x, k)|
  {
    if rows != [] {
      var r0, row := rows[..|rows| - 1], rows[|rows| - 1];
      assert rows == r0 + [row];
      TallyIsGroupSizes(r0, x);
      GroupKeysSnoc(r0, row, x);
      var name := Label(row, x);
      if name !in Tally(r0, x) {
        GroupEmptyIffAbsent(r0, x, name);
      }
      forall k | k in Tally(rows, x) ensures Tally(rows, x)[k] == |Group(rows, x, k)| {
        GroupSnoc(r0, row, x, k);
      }
    }
  }

  lemma TallyHas(rows: seq<Row>, x: string, k: string)
    ensures k in Tally(rows, x) <==> k in GroupKeys(rows, x)
  {
    TallyIsGroupSizes(rows, x);
  }

  lemma TallyEntry(rows: seq<Row>, x: string, k: string)
    requires k in Tally(rows, x)
    ensures Tally(rows, x)[k] == |Group(rows, x, k)|
  {
    TallyIsGroupSizes(rows, x);
  }

  /** One more row of `data` adds one to the count of its label and adds
      the label to the key order when it was missing. */
  lemma TallyStep(data: seq<Row>, i: int, x: string)
    requires 0 <= i < |data|
    ensures Tally(data[..i + 1], x) == AddCount(Tally(data[..i], x), data[i], x)
    ensures GroupKeys(data[..i + 1], x) ==
      if Label(data[i], x) in Tally(data[..i], x) then GroupKeys(data[..i], x) else GroupKeys(data[..i], x) + [Label(data[i], x)]
  {
    assert data[..i + 1][..i] == data[..i];
    TallyHas(data[..i], x, Label(data[i], x));
  }

  /** The `reduce` of `pieData`: `acc[value] = (acc[value] || 0) + 1` row by
      row, with `order` the order in which keys were added. */
  method TallyRows(data: seq<Row>, x: string) returns (acc: map<string, nat>, order: seq<string>)
    ensures acc == Tally(data, x) && order == GroupKeys(data, x)
  {
    acc := map[];
    order := [];
    var i := 0;
    while i < |data|
      invariant 0 <= i <= |data|
      invariant acc == Tally(data[..i], x)
      invariant order == GroupKeys(data[..i], x)
    {
      var name := Label(data[i], x);
      TallyStep(data, i, x);
      if name !in acc {
        order := order + [name];
      }
      acc := AddCount(acc, data[i], x);
      i := i + 1;
    }
    assert data[..i] == data;
  }

  /** `pieData`: tally the labels, list `Object.entries` in property order,
      sort by descending count, keep the first eight. */
  method PieData(data: seq<Row>, x: string) returns (slices: seq<PieSlice>)
    ensures slices == PieSeries(data, x)
  {
    if x == "" || |data| == 0 {
      return [];
    }
    var acc, order := TallyRows(data, x);
    var keys := OwnKeyOrder(order);
    OrderedKeysTallied(data, x);
    var counts := ValuesInOrder(acc, keys);
    var entries := seq(|keys|, m requires 0 <= m < |keys| => PieSlice(keys[m], counts[m]));
    TalliedEntries(data, x, entries);
    slices := Take(SortBy(entries, ByValueDesc), MaxSlices);
  }

  /** Every key in property order has a count in the tally. */
  lemma OrderedKeysTallied(data: seq<Row>, x: string)
    ensures var keys := OwnKeyOrder(GroupKeys(data, x));
      forall m :: 0 <= m < |keys| ==> keys[m] in Tally(data, x)
  {
    var keys := OwnKeyOrder(GroupKeys(data, x));
    forall m | 0 <= m < |keys| ensures keys[m] in Tally(data, x) {
      assert keys[m] in multiset(GroupKeys(data, x));
      TallyHas(data, x, keys[m]);
    }
  }

  /** Pairing each key in property order with its tally gives the entries. */
  lemma TalliedEntries(data: seq<Row>, x: string, entries: seq<PieSlice>)
    requires var keys := OwnKeyOrder(GroupKeys(data, x));
      |entries| == |keys| &&
      forall m :: 0 <= m < |keys| ==> keys[m] in Tally(data, x) && entries[m] == PieSlice(keys[m], Tally(data, x)[keys[m]])
    ensures entries == PieEntries(data, x)
  {
    var keys := OwnKeyOrder(GroupKeys(data, x));
    forall m | 0 <= m < |keys| ensures entries[m] == PieSlice(keys[m], |Group(data, x, keys[m])|) {
      TallyEntry(data, x, keys[m]);
    }
  }

  // ---------------------------------------------------------------------
  // Overview tiles
  // ---------------------------------------------------------------------

  /** An overview tile: the column total for a numeric column, the number of
      distinct values for any other. */
  datatype Tile = TotalTile(column: string, total: int) | UniqueTile(column: string, unique: nat)

  function OverviewTile(data: seq<Row>, col: string): Tile {
    if col in NumericColumns(data) then TotalTile(col, SumOver(data, YOf(col)))
    else UniqueTile(col, |ElementSet(Column(data, col))|)
  }

  function Tiles(data: seq<Row>, cols: seq<string>): (ts: seq<Tile>)
    ensures |ts| == |cols| && forall m :: 0 <= m < |cols| ==> ts[m] == OverviewTile(data, cols[m])
  {
    if cols == [] then [] else [OverviewTile(data, cols[0])] + Tiles(data, cols[1..])
  }

  /** The overview: one tile for each of the first six columns, a total
      exactly for the numeric ones. A total tile shows the column's sum of
      `Number(v) || 0`, any other tile the number of distinct values. */
  function Overview(data: seq<Row>): (ts: seq<Tile>)
    ensures |ts| == if |Columns(data)| < OverviewColumns then |Columns(data)| else OverviewColumns
    ensures forall m :: 0 <= m < |ts| ==>
      ts[m].column == Columns(data)[m] && (ts[m].TotalTile? <==> IsNumericColumn(data, Columns(data)[m]))
    ensures forall m :: 0 <= m < |ts| && ts[m].TotalTile? ==> ts[m].total == SumOver(data, YOf(ts[m].column))
    ensures forall m :: 0 <= m < |ts| && ts[m].UniqueTile? ==> ts[m].unique == |ElementSet(Column(data, ts[m].column))|
  {
    var cols := Take(Columns(data), OverviewColumns);
    TilesKinds(data, cols, Columns(data));
    TilesValues(data, cols);
    Tiles(data, cols)
  }

  /** Each tile shows its column's total or its distinct count. */
  lemma TilesValues(data: seq<Row>, cols: seq<string>)
    ensures forall m :: 0 <= m < |cols| && Tiles(data, cols)[m].TotalTile? ==>
      Tiles(data, cols)[m].total == SumOver(data, YOf(Tiles(data, cols)[m].column))
    ensures forall m :: 0 <= m < |cols| && Tiles(data, cols)[m].UniqueTile? ==>
      Tiles(data, cols)[m].unique == |ElementSet(Column(data, Tiles(data, cols)[m].column))|
  {
    var ts := Tiles(data, cols);
    forall m | 0 <= m < |cols|
      ensures ts[m].TotalTile? ==> ts[m].total == SumOver(data, YOf(ts[m].column))
      ensures ts[m].UniqueTile? ==> ts[m].unique == |ElementSet(Column(data, ts[m].column))|
    {
      assert ts[m] == OverviewTile(data, cols[m]);
    }
  }

  /** The tiles for a prefix `cols` of the columns: tile `m` is for column
      `m`, and it is a total exactly when that column is numeric. */
  lemma TilesKinds(data: seq<Row>, cols: seq<string>, all: seq<string>)
    requires all == Columns(data) && cols <= all
    ensures forall m :: 0 <= m < |cols| ==>
      Tiles(data, cols)[m].column == all[m] && (Tiles(data, cols)[m].TotalTile? <==> IsNumericColumn(data, all[m]))
  {
    var ts := Tiles(data, cols);
    forall m | 0 <= m < |cols|
      ensures ts[m].column == all[m] && (ts[m].TotalTile? <==> IsNumericColumn(data, all[m]))
    {
      assert cols[m] == all[m] && all[m] in all;
      TileKind(data, all[m]);
    }
  }

  lemma TileKind(data: seq<Row>, col: string)
    requires col in Columns(data)
    ensures OverviewTile(data, col).column == col
    ensures OverviewTile(data, col).TotalTile? <==> IsNumericColumn(data, col)
  {
  }

  /** A total tile shows the same number as the sum of the chart values with
      that column on the Y axis, whatever the X axis (before the cut to ten). */
  lemma OverviewTotalIsChartSum(data: seq<Row>, m: int, x: string)
    requires 0 <= m < |Overview(data)| && Overview(data)[m].TotalTile?
    ensures Overview(data)[m].total == SumOver(AllBuckets(data, x, Overview(data)[m].column), PointValue)
  {
    var ts := Overview(data);
    var cols := Take(Columns(data), OverviewColumns);
    assert ts[m] == OverviewTile(data, cols[m]);
    var col := cols[m];
    assert ts[m].total == SumOver(data, YOf(col));
    AllBucketsPartitionData(data, x, col);
  }

  /** A distinct-count tile shows between 1 and the number of rows. */
  lemma OverviewUniqueBounds(data: seq<Row>, m: int)
    requires 0 <= m < |Overview(data)| && Overview(data)[m].UniqueTile?
    ensures 1 <= Overview(data)[m].unique <= |data|
  {
    var col := Overview(data)[m].column;
    var vs := Column(data, col);
    assert data != [];
    assert vs[0] in ElementSet(vs);
  }
}
