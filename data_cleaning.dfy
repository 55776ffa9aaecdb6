/** The cleaning pipeline: drop empty rows, drop duplicate rows, trim and
    collapse whitespace in text fields, fill missing fields with "N/A"; and
    the quality report that counts what the first stages would find. */
module DataCleaning {
  import opened JsValues
  import opened Sequences
  import opened Records

  /** The check boxes of the cleaning panel. */
  datatype CleaningOptions = CleaningOptions(
    removeEmptyRows: bool,
    trimWhitespace: bool,
    removeSpecialChars: bool,
    standardizeText: bool,
    removeDuplicates: bool,
    handleMissingValues: bool)

  /** The options the panel starts with. */
  const DefaultOptions := CleaningOptions(true, true, false, true, true, true)

  /** The text a missing field is filled with. */
  const Placeholder: string := "N/A"

  // ---------------------------------------------------------------------
  // Row filters
  // ---------------------------------------------------------------------

  /** A value that is falsy or whose string form is only whitespace. */
  predicate IsBlank(v: Value) {
    IsFalsy(v) || !HasContent(ToJsString(v))
  }

  /** `IsBlank` is the test `!val || String(val).trim() === ''`. */
  lemma IsBlankIsTrimEmpty(v: Value)
    ensures IsBlank(v) <==> IsFalsy(v) || Trim(ToJsString(v)) == []
  {
  }

  /** `Object.values(row).every(...)`: every value is blank; true of a row
      without properties. */
  predicate IsEmptyRow(row: Row) {
    forall i :: 0 <= i < |row| ==> IsBlank(row[i].1)
  }

  predicate NotEmptyRow(row: Row) {
    !IsEmptyRow(row)
  }

  /** Remove-empty: the rows that are not empty, in order. */
  function DropEmptyRows(data: seq<Row>): seq<Row> {
    Filter(data, NotEmptyRow)
  }

  /** Remove-empty keeps, in order, exactly the rows that are not empty. */
  lemma DropEmptyRowsKeepsNonEmpty(data: seq<Row>)
    ensures IsSubsequence(DropEmptyRows(data), data)
    ensures forall i :: 0 <= i < |DropEmptyRows(data)| ==> !IsEmptyRow(DropEmptyRows(data)[i])
    ensures forall i :: 0 <= i < |data| ==> (data[i] in DropEmptyRows(data) <==> !IsEmptyRow(data[i]))
    ensures forall r :: multiset(DropEmptyRows(data))[r] == if IsEmptyRow(r) then 0 else multiset(data)[r]
  {
    FilterIsSubsequence(data, NotEmptyRow);
    forall r ensures multiset(DropEmptyRows(data))[r] == if IsEmptyRow(r) then 0 else multiset(data)[r] {
      FilterMultiset(data, NotEmptyRow, r);
    }
  }

  /** What `JSON.stringify(row)` depends on: the properties in order, except
      those whose value is `undefined`, which it leaves out. */
  function Serialization(row: Row): (r: seq<Field>)
    ensures |r| <= |row|
    ensures forall i :: 0 <= i < |r| ==> !r[i].1.Undef?
    ensures forall f :: f in row && !f.1.Undef? ==> f in r
  {
    if row == [] then []
    else (if row[0].1.Undef? then [] else [row[0]]) + Serialization(row[1..])
  }

  predicate IsDefinedField(f: Field) {
    !f.1.Undef?
  }

  /** The serialization is the row with its `undefined` entries filtered
      out: every other entry is kept, in order, as often as it occurs. */
  lemma {:induction false} SerializationKeepsDefined(row: Row)
    ensures Serialization(row) == Filter(row, IsDefinedField)
    ensures IsSubsequence(Serialization(row), row)
    ensures forall f :: multiset(Serialization(row))[f] == if f.1.Undef? then 0 else multiset(row)[f]
  {
    if row != [] {
      SerializationKeepsDefined(row[1..]);
    }
    FilterIsSubsequence(row, IsDefinedField);
    forall f ensures multiset(Serialization(row))[f] == if f.1.Undef? then 0 else multiset(row)[f] {
      FilterMultiset(row, IsDefinedField, f);
    }
  }

  /** Remove-duplicates: the first row with each serialization, in order. */
  function DropDuplicateRows(data: seq<Row>): seq<Row> {
    DedupBy(data, Serialization)
  }

  /** Remove-duplicates keeps a subsequence of the rows with pairwise
      different serializations, and every serialization of the input still
      occurs. */
  lemma DropDuplicateRowsDistinct(data: seq<Row>)
    ensures IsSubsequence(DropDuplicateRows(data), data)
    ensures forall i, j :: 0 <= i < j < |DropDuplicateRows(data)| ==>
      Serialization(DropDuplicateRows(data)[i]) != Serialization(DropDuplicateRows(data)[j])
    ensures KeySet(DropDuplicateRows(data), Serialization) == KeySet(data, Serialization)
  {
    DedupByIsSubsequence(data, Serialization);
  }

  /** Remove-duplicates keeps exactly the rows whose serialization has not
      occurred before. */
  lemma DropDuplicateRowsKeepsFirst(data: seq<Row>)
    ensures DropDuplicateRows(data) == Select(data, FirstOccurrenceMask(data, Serialization))
  {
    DedupByKeepsFirstOccurrences(data, Serialization);
  }

  // ---------------------------------------------------------------------
  // Field rewrites
  // ---------------------------------------------------------------------

  /** Trim and standardize applied to one value: only strings change. */
  function CleanText(v: Value, trim: bool, standardize: bool): (r: Value)
    ensures !v.Str? ==> r == v
    ensures v.Str? ==> r.Str?
  {
    match v
    case Str(s) =>
      var t := if trim then Trim(s) else s;
      Str(if standardize then Collapse(t) else t)
    case _ => v
  }

  function CleanRow(row: Row, trim: bool, standardize: bool): (r: Row)
    ensures |r| == |row| && Keys(r) == Keys(row)
    ensures forall i :: 0 <= i < |row| ==> r[i].1 == CleanText(row[i].1, trim, standardize)
  {
    seq(|row|, i requires 0 <= i < |row| => (row[i].0, CleanText(row[i].1, trim, standardize)))
  }

  function CleanRows(rows: seq<Row>, trim: bool, standardize: bool): (r: seq<Row>)
    ensures |r| == |rows| && forall i :: 0 <= i < |rows| ==> r[i] == CleanRow(rows[i], trim, standardize)
  {
    seq(|rows|, i requires 0 <= i < |rows| => CleanRow(rows[i], trim, standardize))
  }

  /** `val === null || val === undefined || val === ''`. */
  predicate IsMissing(v: Value) {
    v == Null || v == Undef || v == Str("")
  }

  function FillValue(v: Value): (r: Value)
    ensures !IsMissing(r)
    ensures IsMissing(v) ==> r == Str(Placeholder)
    ensures !IsMissing(v) ==> r == v
  {
    if IsMissing(v) then Str(Placeholder) else v
  }

  function FillRow(row: Row): (r: Row)
    ensures |r| == |row| && Keys(r) == Keys(row)
    ensures forall i :: 0 <= i < |row| ==> r[i].1 == FillValue(row[i].1)
  {
    seq(|row|, i requires 0 <= i < |row| => (row[i].0, FillValue(row[i].1)))
  }

  function FillRows(rows: seq<Row>): (r: seq<Row>)
    ensures |r| == |rows| && forall i :: 0 <= i < |rows| ==> r[i] == FillRow(rows[i])
  {
    seq(|rows|, i requires 0 <= i < |rows| => FillRow(rows[i]))
  }

  // ---------------------------------------------------------------------
  // The pipeline
  // ---------------------------------------------------------------------

  /** The cleaned rows and the number of improvements the toast reports. */
  datatype Cleaned = Cleaned(rows: seq<Row>, changes: int)

  /** The rows the two row filters keep, in the order the pipeline runs them. */
  function KeptRows(data: seq<Row>, opts: CleaningOptions): seq<Row> {
    var s1 := if opts.removeEmptyRows then DropEmptyRows(data) else data;
    if opts.removeDuplicates then DropDuplicateRows(s1) else s1
  }

  /** The kept rows are a subsequence of the input. */
  lemma KeptRowsSubsequence(data: seq<Row>, opts: CleaningOptions)
    ensures IsSubsequence(KeptRows(data, opts), data)
  {
    var s1 := if opts.removeEmptyRows then DropEmptyRows(data) else data;
    if opts.removeEmptyRows {
      FilterIsSubsequence(data, NotEmptyRow);
    } else {
      SubsequenceReflexive(data);
    }
    if opts.removeDuplicates {
      DedupByIsSubsequence(s1, Serialization);
      SubsequenceTransitive(DropDuplicateRows(s1), s1, data);
    }
  }

  /** `cleanData`: the stages in order, each when its option is on.
      `changes` adds up the rows each row filter drops. */
  function Clean(data: seq<Row>, opts: CleaningOptions): Cleaned {
    var s1 := if opts.removeEmptyRows then DropEmptyRows(data) else data;
    var s2 := if opts.removeDuplicates then DropDuplicateRows(s1) else s1;
    var changes := (|data| - |s1|) + (|s1| - |s2|);
    var s3 := if opts.trimWhitespace || opts.standardizeText then CleanRows(s2, opts.trimWhitespace, opts.standardizeText) else s2;
    var s4 := if opts.handleMissingValues then FillRows(s3) else s3;
    Cleaned(s4, changes)
  }

  /** No row is added: the output has `|data| - changes` rows, `changes` is
      between 0 and `|data|`, and the rows the filters keep are a subsequence
      of the input. */
  lemma CleanCountsRemovedRows(data: seq<Row>, opts: CleaningOptions)
    ensures var c := Clean(data, opts);
      0 <= c.changes <= |data| && |c.rows| == |data| - c.changes
    ensures |Clean(data, opts).rows| == |KeptRows(data, opts)|
  {
  }

  /** Field rewrites change values only: output row `i` has the keys, in
      order, of the `i`-th row the filters keep. */
  lemma CleanKeepsKeys(data: seq<Row>, opts: CleaningOptions, i: int)
    requires 0 <= i < |Clean(data, opts).rows|
    ensures |KeptRows(data, opts)| == |Clean(data, opts).rows|
    ensures Keys(Clean(data, opts).rows[i]) == Keys(KeptRows(data, opts)[i])
  {
  }

  /** `removeSpecialChars` has no effect on the result. */
  lemma SpecialCharsOptionIgnored(data: seq<Row>, opts: CleaningOptions)
    ensures Clean(data, opts) == Clean(data, opts.(removeSpecialChars := !opts.removeSpecialChars))
  {
  }

  /** With handle-missing on, no field is `null`, `undefined` or `''`. */
  lemma CleanLeavesNoMissing(data: seq<Row>, opts: CleaningOptions)
    requires opts.handleMissingValues
    ensures forall i, j :: 0 <= i < |Clean(data, opts).rows| && 0 <= j < |Clean(data, opts).rows[i]| ==>
      !IsMissing(Clean(data, opts).rows[i][j].1)
  {
  }

  /** A cleaned text field is tidy. */
  lemma CleanTextTidy(v: Value)
    requires v.Str?
    ensures IsTidy(CleanText(v, true, true).s)
  {
    CollapseTrimIsTidy(v.s);
  }

  lemma PlaceholderTidy()
    ensures IsTidy(Placeholder)
  {
    VisibleIsNotWhitespace('N');
    VisibleIsNotWhitespace('/');
    VisibleIsNotWhitespace('A');
  }

  /** With trim and standardize on, every text field of the output has no
      leading or trailing whitespace and no two whitespace characters in a
      row, the placeholders included. */
  lemma CleanTextIsTidy(data: seq<Row>, opts: CleaningOptions, i: int, j: int)
    requires opts.trimWhitespace && opts.standardizeText
    requires 0 <= i < |Clean(data, opts).rows| && 0 <= j < |Clean(data, opts).rows[i]|
    requires Clean(data, opts).rows[i][j].1.Str?
    ensures IsTidy(Clean(data, opts).rows[i][j].1.s)
  {
    var s2: seq<Row> := KeptRows(data, opts);
    assert |s2| == |Clean(data, opts).rows|;
    var v := s2[i][j].1;
    var w := CleanText(v, true, true);
    if v.Str? {
      CleanTextTidy(v);
    }
    if opts.handleMissingValues && IsMissing(w) {
      PlaceholderTidy();
    }
  }

  lemma SpaceIsBlank()
    ensures IsBlank(Str(" "))
  {
    assert !HasContent(" ") by {
      SpaceIsWhitespace();
      assert " "[0] == ' ';
    }
  }

  lemma ContentIsNotBlank(s: string, i: int)
    requires 0 <= i < |s| && 33 <= s[i] as int <= 126
    ensures !IsBlank(Str(s))
  {
    VisibleIsNotWhitespace(s[i]);
    assert HasContent(s);
  }

  lemma BlankValues()
    ensures IsBlank(Num(0)) && IsBlank(Bool(false)) && IsBlank(Str(" "))
    ensures !IsBlank(Str("0")) && !IsBlank(Str("x")) && !IsBlank(Str(" x"))
  {
    SpaceIsBlank();
    ContentIsNotBlank("0", 0);
    ContentIsNotBlank("x", 0);
    ContentIsNotBlank(" x", 1);
  }

  lemma FilterOfThree<T>(a: T, b: T, c: T, p: T -> bool)
    ensures Filter([a, b, c], p) == (if p(a) then [a] else []) + (if p(b) then [b] else []) + (if p(c) then [c] else [])
  {
    assert [a, b, c][1..] == [b, c];
    FilterOfTwo(b, c, p);
  }

  lemma FilterOfTwo<T>(a: T, b: T, p: T -> bool)
    ensures Filter([a, b], p) == (if p(a) then [a] else []) + (if p(b) then [b] else [])
  {
    assert [a, b][1..] == [b];
  }

  lemma DedupByOfOne<T, K>(a: T, key: T -> K)
    ensures DedupBy([a], key) == [a] && KeySet([a], key) == {key(a)}
  {
    DedupBySnoc([], a, key);
    KeySetSnoc([], a, key);
    assert [] + [a] == [a];
  }

  lemma DedupByOfTwo<T, K>(a: T, b: T, key: T -> K)
    ensures DedupBy([a, b], key) == if key(a) == key(b) then [a] else [a, b]
  {
    DedupByOfOne(a, key);
    DedupBySnoc([a], b, key);
    assert [a] + [b] == [a, b];
  }

  lemma ZeroRowIsEmpty(row: Row)
    requires |row| == 3 && row[0].1 == Num(0) && row[1].1 == Bool(false) && row[2].1 == Str(" ")
    ensures IsEmptyRow(row)
  {
    SpaceIsBlank();
  }

  lemma TextRowIsNotEmpty(row: Row, s: string, i: int)
    requires |row| == 1 && row[0].1 == Str(s) && 0 <= i < |s| && 33 <= s[i] as int <= 126
    ensures !IsEmptyRow(row)
  {
    ContentIsNotBlank(s, i);
  }

  /** A row holding only `0`, `false` and blank strings counts as empty and is
      dropped, as is a row with no properties, while a row with "0" stays. */
  lemma FalsyValuesMakeRowsEmpty()
    ensures DropEmptyRows([[("n", Num(0)), ("b", Bool(false)), ("s", Str(" "))], [], [("s", Str("0"))]]) ==
      [[("s", Str("0"))]]
  {
    var zero: Row := [("n", Num(0)), ("b", Bool(false)), ("s", Str(" "))];
    var text: Row := [("s", Str("0"))];
    ZeroRowIsEmpty(zero);
    TextRowIsNotEmpty(text, "0", 0);
    FilterOfThree(zero, [], text, NotEmptyRow);
  }

  lemma TrimOfPlain()
    ensures Trim("x") == "x"
  {
    VisibleIsNotWhitespace('x');
    assert "x"[0] == 'x';
    assert TrimStart("x") == "x";
    assert TrimEnd("x") == "x";
  }

  lemma TrimOfSpaced()
    ensures Trim(" x") == "x"
  {
    SpaceIsWhitespace();
    assert " x"[0] == ' ';
    assert " x"[1..] == "x";
    assert TrimStart(" x") == TrimStart("x");
    TrimOfPlain();
  }

  lemma CollapseOfPlain()
    ensures Collapse("x") == "x"
  {
    VisibleIsNotWhitespace('x');
    assert "x"[0] == 'x';
    assert "x"[1..] == [];
  }

  lemma TextExamples()
    ensures Trim(" x") == "x" && Trim("x") == "x" && Collapse("x") == "x"
  {
    TrimOfSpaced();
    TrimOfPlain();
    CollapseOfPlain();
  }

  lemma SerializationOfOneField(row: Row)
    requires |row| == 1 && !row[0].1.Undef?
    ensures Serialization(row) == row
  {
    assert row[1..] == [];
  }

  lemma NonEmptyRowsKept(r1: Row, r2: Row)
    requires !IsEmptyRow(r1) && !IsEmptyRow(r2)
    ensures DropEmptyRows([r1, r2]) == [r1, r2]
  {
    FilterOfTwo(r1, r2, NotEmptyRow);
  }

  lemma DistinctRowsKept(r1: Row, r2: Row)
    requires Serialization(r1) != Serialization(r2)
    ensures DropDuplicateRows([r1, r2]) == [r1, r2]
  {
    DedupByOfTwo(r1, r2, Serialization);
  }

  lemma RepeatedRowKeptOnce(r: Row)
    ensures DropDuplicateRows([r, r]) == [r]
  {
    DedupByOfTwo(r, r, Serialization);
  }

  lemma CleanRowOfOneField(row: Row, key: string, s: string, t: string)
    requires row == [(key, Str(s))] && Collapse(Trim(s)) == t
    ensures CleanRow(row, true, true) == [(key, Str(t))]
  {
  }

  lemma FillRowOfText(row: Row, key: string, s: string)
    requires row == [(key, Str(s))] && s != ""
    ensures FillRow(row) == row
  {
  }

  /** The row `{a: " x"}`, and the row `{a: "x"}` that trim makes of it. */
  const SpacedRow: Row := [("a", Str(" x"))]
  const PlainRow: Row := [("a", Str("x"))]

  lemma ExampleRowsNotEmpty()
    ensures !IsEmptyRow(SpacedRow) && !IsEmptyRow(PlainRow)
  {
    TextRowIsNotEmpty(SpacedRow, " x", 1);
    TextRowIsNotEmpty(PlainRow, "x", 0);
  }

  lemma ExampleSerializationsDiffer()
    ensures Serialization(SpacedRow) != Serialization(PlainRow)
  {
    SerializationOfOneField(SpacedRow);
    SerializationOfOneField(PlainRow);
    assert |SpacedRow[0].1.s| == 2;
  }

  lemma ExampleRowRewrites()
    ensures CleanRow(SpacedRow, true, true) == PlainRow
    ensures CleanRow(PlainRow, true, true) == PlainRow
    ensures FillRow(PlainRow) == PlainRow
  {
    TextExamples();
    CleanRowOfOneField(SpacedRow, "a", " x", "x");
    CleanRowOfOneField(PlainRow, "a", "x", "x");
    FillRowOfText(PlainRow, "a", "x");
  }

  /** The stages `Clean` runs with the default options. */
  lemma CleanWithDefaults(data: seq<Row>, kept: seq<Row>, rows: seq<Row>)
    requires DropDuplicateRows(DropEmptyRows(data)) == kept
    requires FillRows(CleanRows(kept, true, true)) == rows
    ensures Clean(data, DefaultOptions) == Cleaned(rows, |data| - |kept|)
  {
  }

  lemma FirstRunKeepsBoth()
    ensures DropDuplicateRows(DropEmptyRows([SpacedRow, PlainRow])) == [SpacedRow, PlainRow]
  {
    ExampleRowsNotEmpty();
    NonEmptyRowsKept(SpacedRow, PlainRow);
    ExampleSerializationsDiffer();
    DistinctRowsKept(SpacedRow, PlainRow);
  }

  lemma FirstRunRewrites()
    ensures FillRows(CleanRows([SpacedRow, PlainRow], true, true)) == [PlainRow, PlainRow]
  {
    ExampleRowRewrites();
  }

  lemma SecondRunKeepsOne()
    ensures DropDuplicateRows(DropEmptyRows([PlainRow, PlainRow])) == [PlainRow]
  {
    ExampleRowsNotEmpty();
    NonEmptyRowsKept(PlainRow, PlainRow);
    RepeatedRowKeptOnce(PlainRow);
  }

  lemma SecondRunRewrites()
    ensures FillRows(CleanRows([PlainRow], true, true)) == [PlainRow]
  {
    ExampleRowRewrites();
  }

  lemma ExampleFirstRun()
    ensures Clean([SpacedRow, PlainRow], DefaultOptions) == Cleaned([PlainRow, PlainRow], 0)
  {
    FirstRunKeepsBoth();
    FirstRunRewrites();
    CleanWithDefaults([SpacedRow, PlainRow], [SpacedRow, PlainRow], [PlainRow, PlainRow]);
  }

  lemma ExampleSecondRun()
    ensures Clean([PlainRow, PlainRow], DefaultOptions) == Cleaned([PlainRow], 1)
  {
    SecondRunKeepsOne();
    SecondRunRewrites();
    CleanWithDefaults([PlainRow, PlainRow], [PlainRow], [PlainRow]);
  }

  /** Duplicates are removed before whitespace is trimmed, so cleaning twice
      can remove a row that the first run kept: `{a: " x"}, {a: "x"}` cleans
      to two copies of `{a: "x"}`, which clean to one. */
  lemma CleanIsNotIdempotent()
    ensures var once := Clean([SpacedRow, PlainRow], DefaultOptions);
      once.rows == [PlainRow, PlainRow] && Clean(once.rows, DefaultOptions).rows == [PlainRow]
  {
    ExampleFirstRun();
    ExampleSecondRun();
  }

  // ---------------------------------------------------------------------
  // The pipeline, as `cleanData` runs it
  // ---------------------------------------------------------------------

  /** The duplicate filter of `cleanData`, with its `seen` set of
      serializations. */
  method RemoveDuplicateRows(rows: seq<Row>) returns (kept: seq<Row>)
    ensures kept == DropDuplicateRows(rows)
  {
    kept := FilterUnseen(rows, Serialization);
  }

  /** The `forEach` over a row's keys for trim and standardize. */
  method CleanRowFields(row: Row, trim: bool, standardize: bool) returns (newRow: Row)
    ensures newRow == CleanRow(row, trim, standardize)
  {
    newRow := row;
    var j := 0;
    while j < |newRow|
      invariant 0 <= j <= |newRow| == |row|
      invariant forall m :: 0 <= m < j ==> newRow[m] == (row[m].0, CleanText(row[m].1, trim, standardize))
      invariant forall m :: j <= m < |row| ==> newRow[m] == row[m]
    {
      var key, value := newRow[j].0, newRow[j].1;
      if value.Str? {
        var text := value.s;
        if trim {
          text := Trim(text);
        }
        if standardize {
          text := Collapse(text);
        }
        newRow := newRow[j := (key, Str(text))];
      }
      j := j + 1;
    }
  }

  /** The `map` of trim and standardize over the rows. */
  method CleanTextFields(rows: seq<Row>, trim: bool, standardize: bool) returns (out: seq<Row>)
    ensures out == CleanRows(rows, trim, standardize)
  {
    out := [];
    var i := 0;
    while i < |rows|
      invariant 0 <= i <= |rows|
      invariant |out| == i && forall m :: 0 <= m < i ==> out[m] == CleanRow(rows[m], trim, standardize)
    {
      var newRow := CleanRowFields(rows[i], trim, standardize);
      out := out + [newRow];
      i := i + 1;
    }
  }

  /** The `forEach` over a row's keys that fills missing fields. */
  method FillRowFields(row: Row) returns (newRow: Row)
    ensures newRow == FillRow(row)
  {
    newRow := row;
    var j := 0;
    while j < |newRow|
      invariant 0 <= j <= |newRow| == |row|
      invariant forall m :: 0 <= m < j ==> newRow[m] == FillRow(row)[m]
      invariant forall m :: j <= m < |row| ==> newRow[m] == row[m]
    {
      var v := newRow[j].1;
      if v == Null || v == Undef || v == Str("") {
        newRow := newRow[j := (newRow[j].0, Str(Placeholder))];
      }
      j := j + 1;
    }
  }

  /** The `map` of handle-missing over the rows. */
  method FillMissingValues(rows: seq<Row>) returns (out: seq<Row>)
    ensures out == FillRows(rows)
  {
    out := [];
    var i := 0;
    while i < |rows|
      invariant 0 <= i <= |rows|
      invariant |out| == i && forall m :: 0 <= m < i ==> out[m] == FillRow(rows[m])
    {
      var newRow := FillRowFields(rows[i]);
      out := out + [newRow];
      i := i + 1;
    }
  }

  /** `cleanData`: `cleaned` and `changes` updated stage by stage. */
  method CleanData(data: seq<Row>, opts: CleaningOptions) returns (cleaned: seq<Row>, changes: int)
    ensures Cleaned(cleaned, changes) == Clean(data, opts)
  {
    cleaned := data;
    changes := 0;
    if opts.removeEmptyRows {
      var before := |cleaned|;
      cleaned := DropEmptyRows(cleaned);
      changes := changes + (before - |cleaned|);
    }
    if opts.removeDuplicates {
      var before := |cleaned|;
      cleaned := RemoveDuplicateRows(cleaned);
      changes := changes + (before - |cleaned|);
    }
    if opts.trimWhitespace || opts.standardizeText {
      cleaned := CleanTextFields(cleaned, opts.trimWhitespace, opts.standardizeText);
    }
    if opts.handleMissingValues {
      cleaned := FillMissingValues(cleaned);
    }
  }

  // ---------------------------------------------------------------------
  // Quality report
  // ---------------------------------------------------------------------

  /** The counters of `analyzeDataQuality`. */
  datatype QualityReport = QualityReport(
    totalRows: nat,
    emptyRows: nat,
    duplicateRows: int,
    whitespaceIssues: nat,
    missingValues: nat)

  /** `typeof val === 'string' && (val.startsWith(' ') || val.endsWith(' '))`. */
  predicate HasEdgeSpace(v: Value) {
    v.Str? && |v.s| > 0 && (v.s[0] == ' ' || v.s[|v.s| - 1] == ' ')
  }

  function EdgeSpaceCount(row: Row): int {
    |Filter(Values(row), HasEdgeSpace)|
  }

  function MissingCount(row: Row): int {
    |Filter(Values(row), IsMissing)|
  }

  lemma {:induction false} SumOverNonNegativeZero(s: seq<Row>, f: Row -> int)
    requires forall i :: 0 <= i < |s| ==> f(s[i]) >= 0
    ensures SumOver(s, f) >= 0
    ensures SumOver(s, f) == 0 <==> forall i :: 0 <= i < |s| ==> f(s[i]) == 0
  {
    if s != [] {
      SumOverNonNegativeZero(s[1..], f);
      assert forall i :: 1 <= i < |s| ==> s[1..][i - 1] == s[i];
    }
  }

  /** `analyzeDataQuality`, without its delay. */
  function Analyze(data: seq<Row>): QualityReport {
    SumOverNonNegativeZero(data, EdgeSpaceCount);
    SumOverNonNegativeZero(data, MissingCount);
    QualityReport(
      |data|,
      |Filter(data, IsEmptyRow)|,
      |data| - |KeySet(data, Serialization)|,
      SumOver(data, EdgeSpaceCount),
      SumOver(data, MissingCount))
  }

  /** `emptyRows` is the number of rows remove-empty drops from the raw data,
      and `duplicateRows` the number remove-duplicates drops; both lie between
      0 and `totalRows`. */
  lemma ReportPredictsRowFilters(data: seq<Row>)
    ensures Analyze(data).emptyRows == |data| - |DropEmptyRows(data)|
    ensures Analyze(data).duplicateRows == |data| - |DropDuplicateRows(data)|
    ensures 0 <= Analyze(data).emptyRows <= Analyze(data).totalRows
    ensures 0 <= Analyze(data).duplicateRows <= Analyze(data).totalRows
  {
    FilterPartitionLength(data, IsEmptyRow, NotEmptyRow);
    DedupByCardinality(data, Serialization);
  }

  /** A value the report counts as a whitespace issue is changed by trim, and
      the result is tidy when standardize is on too. */
  lemma WhitespaceIssueIsTrimmed(v: Value, standardize: bool)
    requires HasEdgeSpace(v)
    ensures CleanText(v, true, standardize) != v
    ensures standardize ==> IsTidy(CleanText(v, true, standardize).s)
  {
    EdgeSpaceIsTrimmed(v.s, standardize);
    if standardize {
      CollapseTrimIsTidy(v.s);
    }
  }

  lemma EdgeSpaceIsTrimmed(s: string, standardize: bool)
    requires |s| > 0 && (s[0] == ' ' || s[|s| - 1] == ' ')
    ensures (if standardize then Collapse(Trim(s)) else Trim(s)) != s
  {
    var t := Trim(s);
    if standardize {
      EdgesDiffer(s, Collapse(t));
    } else {
      EdgesDiffer(s, t);
    }
  }

  /** A string with a space at one end differs from one without whitespace
      at its ends. */
  lemma EdgesDiffer(s: string, r: string)
    requires |s| > 0 && (s[0] == ' ' || s[|s| - 1] == ' ')
    requires r == [] || (!IsWhitespace(r[0]) && !IsWhitespace(r[|r| - 1]))
    ensures r != s
  {
    SpaceIsWhitespace();
  }

  lemma MissingCountZero(row: Row)
    ensures MissingCount(row) == 0 <==> FillRow(row) == row
  {
    var vs := Values(row);
    FilterEmpty(vs, IsMissing);
    if FillRow(row) == row {
      forall i | 0 <= i < |vs| ensures !IsMissing(vs[i]) {
        assert FillRow(row)[i].1 == FillValue(row[i].1);
      }
    }
  }

  /** `missingValues` is 0 exactly when handle-missing would change nothing. */
  lemma ReportMissingValues(data: seq<Row>)
    ensures Analyze(data).missingValues == 0 <==> FillRows(data) == data
  {
    SumOverNonNegativeZero(data, MissingCount);
    forall i | 0 <= i < |data| ensures MissingCount(data[i]) == 0 <==> FillRow(data[i]) == data[i] {
      MissingCountZero(data[i]);
    }
    if FillRows(data) == data {
      assert forall i :: 0 <= i < |data| ==> FillRow(data[i]) == data[i];
    }
  }
}
