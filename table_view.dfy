/** The data table's view pipeline: search filter, column sort, pager, and
    the per-column type badge and fill statistics. */
module TableView {
  import opened JsValues
  import opened Sequences
  import opened Records

  // ---------------------------------------------------------------- filter

  /** `t` occurs in `s` at position `i`. */
  predicate OccursAt(s: string, t: string, i: int) {
    0 <= i && i + |t| <= |s| && s[i..i + |t|] == t
  }

  /** `s.includes(t)`. */
  predicate Contains(s: string, t: string) {
    exists i :: 0 <= i <= |s| - |t| && OccursAt(s, t, i)
  }

  /** The text a value is searched by: `String(value).toLowerCase()`. */
  function SearchText(v: Value): string {
    Lower(ToJsString(v))
  }

  /** Some field value of `row` contains the lower-cased search term. */
  predicate MatchesSearch(row: Row, term: string) {
    exists i :: 0 <= i < |row| && Contains(SearchText(row[i].1), Lower(term))
  }

  function Matcher(term: string): Row -> bool {
    row => MatchesSearch(row, term)
  }

  /** `filteredData`: the rows matching the search term, in their order. */
  function FilterRows(data: seq<Row>, term: string): (r: seq<Row>)
    ensures IsSubsequence(r, data)
    ensures |r| <= |data|
    ensures forall i :: 0 <= i < |data| ==> (data[i] in r <==> MatchesSearch(data[i], term))
  {
    FilterIsSubsequence(data, Matcher(term));
    Filter(data, Matcher(term))
  }

  /** A matching row is kept as often as it occurs; others are dropped. */
  lemma FilterRowsMultiset(data: seq<Row>, term: string, row: Row)
    ensures multiset(FilterRows(data, term))[row] == if MatchesSearch(row, term) then multiset(data)[row] else 0
  {
    FilterMultiset(data, Matcher(term), row);
  }

  /** The search ignores the case of its term: a term and its lower-cased
      form select the same rows. */
  lemma SearchIgnoresTermCase(data: seq<Row>, term: string)
    ensures FilterRows(data, Lower(term)) == FilterRows(data, term)
  {
    LowerIdempotent(term);
    FilterCongruent(data, Matcher(Lower(term)), Matcher(term));
  }

  predicate HasAnyField(row: Row) {
    |row| > 0
  }

  /** With an empty search term, exactly the rows with at least one field survive. */
  lemma EmptySearchKeepsRowsWithFields(data: seq<Row>)
    ensures FilterRows(data, "") == Filter(data, HasAnyField)
  {
    forall row: Row | row in data
      ensures Matcher("")(row) <==> HasAnyField(row)
    {
      if |row| > 0 {
        var e: string := "";
        assert OccursAt(SearchText(row[0].1), Lower(e), 0);
      }
    }
    FilterCongruent(data, Matcher(""), HasAnyField);
  }

  // ------------------------------------------------------------------ sort

  datatype Direction = Asc | Desc

  /** The sort comparator on column `col`: numeric difference when both
      values are numbers, otherwise comparison of the lower-cased strings;
      `Desc` compares with the operands swapped. */
  function RowComparator(col: string, dir: Direction): (Row, Row) -> int {
    (a: Row, b: Row) =>
      var av, bv := Get(a, col), Get(b, col);
      if av.Num? && bv.Num? then
        (if dir == Asc then av.n - bv.n else bv.n - av.n)
      else
        var sa, sb := SearchText(av), SearchText(bv);
        if dir == Asc then CompareStrings(sa, sb) else CompareStrings(sb, sa)
  }

  /** Descending order is ascending order with the operands swapped. */
  lemma DescIsSwappedAsc(col: string, a: Row, b: Row)
    ensures RowComparator(col, Desc)(a, b) == RowComparator(col, Asc)(b, a)
  {
  }

  lemma ComparatorAntisymmetric(col: string, dir: Direction)
    ensures Antisymmetric(RowComparator(col, dir))
  {
    var cmp := RowComparator(col, dir);
    forall a, b ensures Sign(cmp(a, b)) == -Sign(cmp(b, a)) {
      CompareStringsAntisymmetric(SearchText(Get(a, col)), SearchText(Get(b, col)));
    }
  }

  /** `sortedData`: the filtered rows unchanged without a sort column;
      otherwise a rearrangement of them in which every neighbouring pair is
      in comparator order. */
  function SortRows(rows: seq<Row>, col: string, dir: Direction): (r: seq<Row>)
    ensures col == "" ==> r == rows
    ensures multiset(r) == multiset(rows)
    ensures col != "" ==> AdjacentSorted(r, RowComparator(col, dir))
  {
    if col == "" then rows
    else
      ComparatorAntisymmetric(col, dir);
      SortByAdjacentSorted(rows, RowComparator(col, dir));
      SortBy(rows, RowComparator(col, dir))
  }

  /** Column `col` holds a number in every row, or in none. */
  predicate UniformColumn(rows: seq<Row>, col: string) {
    (forall i :: 0 <= i < |rows| ==> Get(rows[i], col).Num?)
    || (forall i :: 0 <= i < |rows| ==> !Get(rows[i], col).Num?)
  }

  lemma {:induction false} ComparatorTransitive(rows: seq<Row>, col: string, dir: Direction)
    requires UniformColumn(rows, col)
    ensures TransitiveOn(rows, RowComparator(col, dir))
  {
    var cmp := RowComparator(col, dir);
    forall a, b, c | a in rows && b in rows && c in rows && cmp(a, b) <= 0 && cmp(b, c) <= 0
      ensures cmp(a, c) <= 0
    {
      var sa, sb, sc := SearchText(Get(a, col)), SearchText(Get(b, col)), SearchText(Get(c, col));
      if !Get(a, col).Num? || !Get(b, col).Num? || !Get(c, col).Num? {
        assert !Get(a, col).Num? && !Get(b, col).Num? && !Get(c, col).Num?;
        if dir == Asc {
          CompareStringsTransitive(sa, sb, sc);
        } else {
          CompareStringsTransitive(sc, sb, sa);
        }
      }
    }
  }

  /** When a column is all numbers or has no numbers, the sorted rows are in
      comparator order pairwise, not just neighbour by neighbour. */
  lemma SortRowsSortedWhenUniform(rows: seq<Row>, col: string, dir: Direction)
    requires col != "" && UniformColumn(rows, col)
    ensures Sorted(SortRows(rows, col, dir), RowComparator(col, dir))
  {
    var r := SortRows(rows, col, dir);
    forall i | 0 <= i < |r| ensures r[i] in rows {
      assert r[i] in multiset(rows);
    }
    assert UniformColumn(r, col) by {
      if forall i :: 0 <= i < |rows| ==> Get(rows[i], col).Num? {
        forall i | 0 <= i < |r| ensures Get(r[i], col).Num? {
          assert r[i] in rows;
        }
      } else {
        forall i | 0 <= i < |r| ensures !Get(r[i], col).Num? {
          assert r[i] in rows;
        }
      }
    }
    ComparatorTransitive(r, col, dir);
    AdjacentSortedIsSorted(r, RowComparator(col, dir));
  }

  /** When a column is all numbers or has no numbers, the sort is stable: the
      rows that tie with any row `t` come out in their original relative order. */
  lemma SortRowsStableWhenUniform(rows: seq<Row>, col: string, dir: Direction, t: Row)
    requires col != "" && UniformColumn(rows, col) && t in rows
    ensures Filter(SortRows(rows, col, dir), TiesWith(RowComparator(col, dir), t)) ==
      Filter(rows, TiesWith(RowComparator(col, dir), t))
  {
    ComparatorAntisymmetric(col, dir);
    ComparatorTransitive(rows, col, dir);
    SortByTies(rows, RowComparator(col, dir), t, rows);
  }

  /** In a column mixing numbers and strings the comparator is not an order:
      9 < 10 numerically, "10" < "5" and "5" < "9" as strings. */
  lemma MixedColumnComparatorCycles()
    ensures var cmp := RowComparator("v", Asc);
      var nine, ten, five := [("v", Num(9))], [("v", Num(10))], [("v", Str("5"))];
      cmp(nine, ten) < 0 && cmp(ten, five) < 0 && cmp(five, nine) < 0
  {
    assert IntToString(10) == "10" by {
      assert NatToString(10) == NatToString(1) + [DigitChar(0)];
    }
    assert IntToString(9) == "9";
  }

  // ----------------------------------------------------------------- pager

  const RowsPerPage: nat := 10

  /** `paginatedData` for page `page` (1-based). */
  function PageWindow<T>(s: seq<T>, page: int): (w: seq<T>)
    ensures |w| <= RowsPerPage
    ensures page >= 1 ==>
      var start := (page - 1) * RowsPerPage;
      w == s[Clamp(start, |s|)..Clamp(start + RowsPerPage, |s|)]
  {
    var start := (page - 1) * RowsPerPage;
    JsSlice(s, start, start + RowsPerPage)
  }

  /** `Math.ceil(n / rowsPerPage)`. */
  function TotalPages(n: nat): (p: nat)
    ensures p * RowsPerPage >= n
    ensures p == 0 || (p - 1) * RowsPerPage < n
  {
    (n + RowsPerPage - 1) / RowsPerPage
  }

  /** Pages `1..k` laid end to end. */
  function Pages<T>(s: seq<T>, k: nat): seq<T> {
    if k == 0 then [] else Pages(s, k - 1) + PageWindow(s, k)
  }

  lemma {:induction false} PagesPrefix<T>(s: seq<T>, k: nat)
    ensures Pages(s, k) == s[..Clamp(k * RowsPerPage, |s|)]
  {
    if k > 0 {
      PagesPrefix(s, k - 1);
      var a, b := Clamp((k - 1) * RowsPerPage, |s|), Clamp(k * RowsPerPage, |s|);
      assert s[..a] + s[a..b] == s[..b];
    }
  }

  /** Concatenating pages `1..totalPages` gives back every sorted row, in order. */
  lemma PagesCoverAll<T>(s: seq<T>)
    ensures Pages(s, TotalPages(|s|)) == s
  {
    PagesPrefix(s, TotalPages(|s|));
  }

  /** A page past the last one is empty. */
  lemma PageBeyondLastIsEmpty<T>(s: seq<T>, page: int)
    requires page > TotalPages(|s|)
    ensures PageWindow(s, page) == []
  {
  }

  /** A page holds rows of the sequence, each at most as often as it occurs there. */
  lemma PageWindowSubMultiset<T>(s: seq<T>, page: int)
    ensures multiset(PageWindow(s, page)) <= multiset(s)
  {
    var start := (page - 1) * RowsPerPage;
    var len := |s|;
    var from := if start < 0 then Clamp(len + start, len) else Clamp(start, len);
    var to := if start + RowsPerPage < 0 then Clamp(len + start + RowsPerPage, len) else Clamp(start + RowsPerPage, len);
    if from < to {
      assert s == s[..from] + s[from..to] + s[to..];
    }
  }

  /** The "Showing a to b of n" caption. */
  function ShowingFrom(page: int): int {
    (page - 1) * RowsPerPage + 1
  }

  function ShowingTo(page: int, n: nat): int {
    if page * RowsPerPage < n then page * RowsPerPage else n
  }

  /** On a page in range, the caption names exactly the rows of the window. */
  lemma CaptionMatchesWindow<T>(s: seq<T>, page: int)
    requires 1 <= page <= TotalPages(|s|)
    ensures PageWindow(s, page) == s[ShowingFrom(page) - 1..ShowingTo(page, |s|)]
  {
  }

  // ----------------------------------------------- column type and stats

  datatype ColumnType = NumberColumn | DateColumn | TextColumn

  const SampleSize: nat := 100

  /** The non-null values of `col` in the first 100 rows. */
  function SampleValues(data: seq<Row>, col: string): (vs: seq<Value>)
    ensures forall v :: v in vs <==> exists i :: 0 <= i < |data| && i < SampleSize && v == Get(data[i], col) && !IsNullish(v)
  {
    var sample := Column(Take(data, SampleSize), col);
    Filter(sample, NotNullish)
  }

  predicate NotNullish(v: Value) {
    !IsNullish(v)
  }

  /** `getColumnType`: `number` when every sampled value converts with
      `Number` (vacuously so for an empty sample), else `date` when every one
      parses with `Date.parse` (the parameter `dateParses`, applied to the
      value's string form), else `text`. */
  function ColumnTypeOf(data: seq<Row>, col: string, dateParses: string -> bool): (t: ColumnType)
    ensures t == NumberColumn <==> forall v :: v in SampleValues(data, col) ==> IsNumeric(v)
    ensures t == DateColumn <==>
      (exists v :: v in SampleValues(data, col) && !IsNumeric(v))
      && forall v :: v in SampleValues(data, col) ==> dateParses(ToJsString(v))
    ensures t == TextColumn <==>
      (exists v :: v in SampleValues(data, col) && !IsNumeric(v))
      && exists v :: v in SampleValues(data, col) && !dateParses(ToJsString(v))
  {
    var vs := SampleValues(data, col);
    if forall v :: v in vs ==> IsNumeric(v) then NumberColumn
    else if forall v :: v in vs ==> dateParses(ToJsString(v)) then DateColumn
    else TextColumn
  }

  /** Rows after the first 100 never influence the type. */
  lemma ColumnTypeIgnoresTail(data: seq<Row>, more: seq<Row>, col: string, dateParses: string -> bool)
    requires |data| >= SampleSize
    ensures ColumnTypeOf(data + more, col, dateParses) == ColumnTypeOf(data, col, dateParses)
  {
    assert Take(data + more, SampleSize) == Take(data, SampleSize);
  }

  /** A column whose sampled values are all null or undefined is typed `number`. */
  lemma AllNullSampleIsNumber(data: seq<Row>, col: string, dateParses: string -> bool)
    requires forall i :: 0 <= i < |data| && i < SampleSize ==> IsNullish(Get(data[i], col))
    ensures ColumnTypeOf(data, col, dateParses) == NumberColumn
  {
  }

  datatype ColumnStats = ColumnStats(unique: nat, filled: nat, total: nat, completion: JsNumber)

  /** The non-null values of `col` over all rows, in row order, each as
      often as it occurs. */
  function FilledValues(data: seq<Row>, col: string): (vs: seq<Value>)
    ensures |vs| <= |data|
    ensures forall v :: v in vs <==> exists i :: 0 <= i < |data| && v == Get(data[i], col) && !IsNullish(v)
    ensures IsSubsequence(vs, Column(data, col))
    ensures forall v :: multiset(vs)[v] == if IsNullish(v) then 0 else multiset(Column(data, col))[v]
  {
    var vs := Filter(Column(data, col), NotNullish);
    FilterIsSubsequence(Column(data, col), NotNullish);
    assert forall v :: multiset(vs)[v] == if IsNullish(v) then 0 else multiset(Column(data, col))[v] by {
      forall v ensures multiset(vs)[v] == if IsNullish(v) then 0 else multiset(Column(data, col))[v] {
        FilterMultiset(Column(data, col), NotNullish, v);
      }
    }
    vs
  }

  /** The rows whose `col` value is neither null nor undefined. */
  ghost function FilledRows(data: seq<Row>, col: string): set<int> {
    set i | 0 <= i < |data| && !IsNullish(Get(data[i], col))
  }

  /** `filled` counts the rows whose `col` value is neither null nor undefined. */
  lemma FilledCount(data: seq<Row>, col: string)
    ensures |FilledValues(data, col)| == |FilledRows(data, col)|
  {
    var c := Column(data, col);
    FilterLengthCounts(c, NotNullish);
    assert PassingPositions(c, NotNullish) == FilledRows(data, col);
  }

  /** `Math.round(x)` of the exact quotient `100 * filled / total`: the
      nearest integer, halves rounding up. */
  function RoundedPercent(filled: nat, total: nat): (c: nat)
    requires total > 0
    ensures 2 * total * c <= 200 * filled + total < 2 * total * (c + 1)
  {
    (200 * filled + total) / (2 * total)
  }

  lemma MulMonotonic(m: nat, a: nat, b: nat)
    requires a <= b
    ensures m * a <= m * b
  {
    var d := b - a;
    assert m * b == m * a + m * d;
  }

  lemma PercentAtMostHundred(filled: nat, total: nat)
    requires 0 < total && filled <= total
    ensures RoundedPercent(filled, total) <= 100
  {
    var c := RoundedPercent(filled, total);
    if c > 100 {
      MulMonotonic(2 * total, 101, c);
      assert false;
    }
  }

  /** `Math.round((filled / total) * 100)`: `NaN` for 0 / 0, otherwise the
      rounded percentage, between 0 and 100. */
  function Completion(filled: nat, total: nat): (c: JsNumber)
    requires filled <= total
    ensures total == 0 <==> c == NaN
    ensures c.Int? ==> 0 <= c.value <= 100
    ensures c.Int? ==> 2 * total * c.value <= 200 * filled + total < 2 * total * (c.value + 1)
  {
    if total == 0 then NaN
    else
      PercentAtMostHundred(filled, total);
      Int(RoundedPercent(filled, total))
  }

  /** `getColumnStats`: distinct and non-null counts, the row count and the
      rounded fill percentage, which is `NaN` for no rows (0 / 0). */
  function ColumnStatsOf(data: seq<Row>, col: string): (st: ColumnStats)
    ensures st.total == |data|
    ensures st.filled == |FilledValues(data, col)|
    ensures st.filled == |FilledRows(data, col)|
    ensures st.completion == Completion(st.filled, st.total)
    ensures st.unique == |ElementSet(FilledValues(data, col))|
    ensures st.unique <= st.filled <= st.total
    ensures st.total == 0 <==> st.completion == NaN
    ensures st.completion.Int? ==> 0 <= st.completion.value <= 100
  {
    var vs := FilledValues(data, col);
    var filled := |vs|;
    FilledCount(data, col);
    ColumnStats(|ElementSet(vs)|, filled, |data|, Completion(filled, |data|))
  }

  /** Headers are drawn only for non-empty data, so the percentage shown is
      always a number. */
  lemma RenderedCompletionIsNumber(data: seq<Row>, col: string)
    requires data != []
    ensures ColumnStatsOf(data, col).completion.Int?
  {
  }
}
