/** The data table's CSV export: the document text and the download name.
    A reader for the format is defined beside the writer so that the round
    trip can be stated. */
module CsvExport {
  import opened JsValues
  import opened Sequences
  import opened Records

  // ------------------------------------------------------ joining, splitting

  /** `parts.join(sep)`. */
  function Join(parts: seq<string>, sep: char): string
  {
    if parts == [] then ""
    else if |parts| == 1 then parts[0]
    else parts[0] + [sep] + Join(parts[1..], sep)
  }

  /** The position of the first `c` in `s`, or `|s|` when there is none. */
  function IndexOf(s: string, c: char): (i: nat)
    ensures i <= |s|
    ensures i < |s| ==> s[i] == c
    ensures forall k :: 0 <= k < i ==> s[k] != c
  {
    if s == [] then 0
    else if s[0] == c then 0
    else 1 + IndexOf(s[1..], c)
  }

  /** `s.split(c)`: the pieces between occurrences of `c`. */
  function Split(s: string, c: char): (r: seq<string>)
    ensures |r| > 0
    ensures forall i :: 0 <= i < |r| ==> c !in r[i]
    decreases |s|
  {
    var i := IndexOf(s, c);
    if i == |s| then [s] else [s[..i]] + Split(s[i + 1..], c)
  }

  /** Splitting a join gives back the parts, when none of them holds the separator. */
  lemma {:induction false} SplitJoin(parts: seq<string>, c: char)
    requires |parts| > 0
    requires forall i :: 0 <= i < |parts| ==> c !in parts[i]
    ensures Split(Join(parts, c), c) == parts
  {
    if |parts| > 1 {
      var s := Join(parts, c);
      var p0 := parts[0];
      assert s == p0 + [c] + Join(parts[1..], c);
      assert IndexOf(s, c) == |p0| by {
        assert s[|p0|] == c;
        forall k | 0 <= k < |p0| ensures s[k] != c {
          assert s[k] == p0[k];
        }
        IndexOfIsFirst(s, c, |p0|);
      }
      assert s[..|p0|] == p0;
      assert s[|p0| + 1..] == Join(parts[1..], c);
      SplitJoin(parts[1..], c);
    } else {
      assert c !in parts[0];
      IndexOfAbsent(parts[0], c);
    }
  }

  lemma {:induction false} IndexOfIsFirst(s: string, c: char, n: nat)
    requires n < |s| && s[n] == c && forall k :: 0 <= k < n ==> s[k] != c
    ensures IndexOf(s, c) == n
  {
    if n > 0 {
      IndexOfIsFirst(s[1..], c, n - 1);
    }
  }

  lemma {:induction false} IndexOfAbsent(s: string, c: char)
    requires c !in s
    ensures IndexOf(s, c) == |s|
  {
    if s != [] {
      IndexOfAbsent(s[1..], c);
    }
  }

  lemma {:induction false} JoinAvoids(parts: seq<string>, sep: char, c: char)
    requires c != sep && forall i :: 0 <= i < |parts| ==> c !in parts[i]
    ensures c !in Join(parts, sep)
  {
    if |parts| > 1 {
      JoinAvoids(parts[1..], sep, c);
    }
  }

  // ---------------------------------------------------------------- writing

  /** A string cell is quoted when it holds a comma or a double quote. */
  predicate NeedsQuoting(s: string) {
    ',' in s || '"' in s
  }

  /** `s.replace(/"/g, '""')`. */
  function DoubleQuotes(s: string): (r: string)
    ensures |r| >= |s|
    ensures forall c :: c in r ==> c in s
    ensures '"' !in s ==> r == s
  {
    if s == [] then []
    else (if s[0] == '"' then "\"\"" else [s[0]]) + DoubleQuotes(s[1..])
  }

  /** The text a cell stands for once read back: `''` for null and
      undefined, otherwise `String(value)`. */
  function CellText(v: Value): string {
    if IsNullish(v) then "" else ToJsString(v)
  }

  /** One CSV cell: a string holding `,` or `"` is wrapped in quotes with its
      quotes doubled; null and undefined become the empty cell; every other
      value is written as `String(value)`. */
  function EncodeCell(v: Value): (r: string)
    ensures v.Str? && NeedsQuoting(v.s) ==> r == "\"" + DoubleQuotes(v.s) + "\""
    ensures !(v.Str? && NeedsQuoting(v.s)) ==> r == CellText(v) && ',' !in r && '"' !in r
  {
    if v.Str? && NeedsQuoting(v.s) then "\"" + DoubleQuotes(v.s) + "\""
    else
      assert v.Num? ==> forall k :: 0 <= k < |ToJsString(v)| ==> ToJsString(v)[k] != ',' && ToJsString(v)[k] != '"';
      CellText(v)
  }

  /** The cells of one data line, one per header. */
  function RowCells(headers: seq<string>, row: Row): (cells: seq<string>)
    ensures |cells| == |headers|
    ensures forall i :: 0 <= i < |headers| ==> cells[i] == EncodeCell(Get(row, headers[i]))
  {
    seq(|headers|, i requires 0 <= i < |headers| => EncodeCell(Get(row, headers[i])))
  }

  function RowLine(headers: seq<string>, row: Row): string {
    Join(RowCells(headers, row), ',')
  }

  /** The CSV document: the header line (the first row's keys joined by
      commas, unescaped) and then one line per row, joined by newlines. */
  function CsvContent(data: seq<Row>): (text: string)
  {
    var headers := Columns(data);
    Join([Join(headers, ',')] + DataLines(headers, data), '\n')
  }

  datatype Download = Download(content: string, name: string)

  /** `handleExport`: nothing for an empty table; otherwise the document
      and the name it is saved under. */
  function HandleExport(data: seq<Row>, filename: string): (r: Option<Download>)
    ensures r == None <==> data == []
    ensures r.Some? ==> r.value.content == CsvContent(data) && r.value.name == ExportName(filename)
  {
    if data == [] then None else Some(Download(CsvContent(data), ExportName(filename)))
  }

  // ---------------------------------------------------------------- reading

  /** Reads a quoted field's body after its opening quote: `""` stands for
      one quote and a lone quote ends the field. Gives the text and what
      follows the closing quote, or nothing when the quote is never closed. */
  function ReadQuoted(s: string): (r: Option<(string, string)>)
    ensures r.Some? ==> |r.value.1| < |s|
  {
    if s == [] then None
    else if s[0] == '"' then
      if |s| >= 2 && s[1] == '"' then
        match ReadQuoted(s[2..])
        case None => None
        case Some(p) => Some(("\"" + p.0, p.1))
      else Some(("", s[1..]))
    else
      match ReadQuoted(s[1..])
      case None => None
      case Some(p) => Some(([s[0]] + p.0, p.1))
  }

  /** Reads one field from the front of a line: a quoted one, or the text up
      to the next comma. */
  function ReadField(s: string): (r: Option<(string, string)>)
    ensures r.Some? ==> |r.value.1| <= |s|
  {
    if s != [] && s[0] == '"' then ReadQuoted(s[1..])
    else
      var i := IndexOf(s, ',');
      Some((s[..i], s[i..]))
  }

  /** Reads a whole line into its fields; nothing when it is malformed. */
  function ReadFields(s: string): Option<seq<string>>
    decreases |s|
  {
    match ReadField(s)
    case None => None
    case Some(p) =>
      if p.1 == [] then Some([p.0])
      else if p.1[0] != ',' then None
      else
        match ReadFields(p.1[1..])
        case None => None
        case Some(fs) => Some([p.0] + fs)
  }

  /** Reads a document: one field list per line. */
  function ReadCsv(text: string): Option<seq<seq<string>>> {
    ReadLines(Split(text, '\n'))
  }

  function ReadLines(lines: seq<string>): Option<seq<seq<string>>> {
    if lines == [] then Some([])
    else
      match ReadFields(lines[0])
      case None => None
      case Some(fs) =>
        match ReadLines(lines[1..])
        case None => None
        case Some(rest) => Some([fs] + rest)
  }

  // ------------------------------------------------------------- round trip

  /** A field ends where the line ends or a comma follows. */
  predicate FieldBoundary(tail: string) {
    tail == [] || tail[0] == ','
  }

  lemma {:induction false} ReadQuotedRoundTrip(t: string, tail: string)
    requires FieldBoundary(tail)
    ensures ReadQuoted(DoubleQuotes(t) + "\"" + tail) == Some((t, tail))
  {
    if t != [] {
      var rest := DoubleQuotes(t[1..]) + "\"" + tail;
      ReadQuotedRoundTrip(t[1..], tail);
      QuotedCons(t, tail);
      assert t == [t[0]] + t[1..];
      if t[0] == '"' {
        ReadEscapedQuote(rest);
      } else {
        ReadPlainChar(t[0], rest);
      }
    } else {
      assert DoubleQuotes(t) + "\"" + tail == "\"" + tail;
      ReadClosingQuote(tail);
    }
  }

  lemma QuotedCons(t: string, tail: string)
    requires t != []
    ensures DoubleQuotes(t) + "\"" + tail ==
      (if t[0] == '"' then "\"\"" else [t[0]]) + (DoubleQuotes(t[1..]) + "\"" + tail)
  {
    var h := if t[0] == '"' then "\"\"" else [t[0]];
    var d := DoubleQuotes(t[1..]);
    DoubleQuotesCons(t);
    ConcatAssociates(h, d, "\"");
    ConcatAssociates(h, d + "\"", tail);
  }

  lemma DoubleQuotesCons(t: string)
    requires t != []
    ensures DoubleQuotes(t) == (if t[0] == '"' then "\"\"" else [t[0]]) + DoubleQuotes(t[1..])
  {
  }

  lemma ReadClosingQuote(tail: string)
    requires FieldBoundary(tail)
    ensures ReadQuoted("\"" + tail) == Some(("", tail))
  {
    var u := "\"" + tail;
    assert u[0] == '"' && u[1..] == tail;
  }

  /** `""` inside a quoted field reads as one quote. */
  lemma ReadEscapedQuote(rest: string)
    ensures var r := ReadQuoted(rest);
      ReadQuoted("\"\"" + rest) == if r.None? then None else Some(("\"" + r.value.0, r.value.1))
  {
    var u := "\"\"" + rest;
    assert u[0] == '"' && u[1] == '"' && u[2..] == rest;
  }

  /** Any other character inside a quoted field reads as itself. */
  lemma ReadPlainChar(c: char, rest: string)
    requires c != '"'
    ensures var r := ReadQuoted(rest);
      ReadQuoted([c] + rest) == if r.None? then None else Some(([c] + r.value.0, r.value.1))
  {
    var u := [c] + rest;
    assert u[0] == c && u[1..] == rest;
  }

  /** Reading an encoded cell gives back the cell's text and leaves the rest
      of the line. */
  lemma ReadCellRoundTrip(v: Value, tail: string)
    requires FieldBoundary(tail)
    ensures ReadField(EncodeCell(v) + tail) == Some((CellText(v), tail))
  {
    if v.Str? && NeedsQuoting(v.s) {
      ReadQuotedCell(v.s, tail);
    } else {
      ReadPlainRoundTrip(EncodeCell(v), tail);
    }
  }

  lemma ReadQuotedCell(s: string, tail: string)
    requires FieldBoundary(tail)
    ensures ReadField("\"" + DoubleQuotes(s) + "\"" + tail) == Some((s, tail))
  {
    var d := DoubleQuotes(s);
    ReadQuotedRoundTrip(s, tail);
    ConcatAssociates("\"", d, "\"");
    ConcatAssociates("\"", d + "\"", tail);
    ReadFieldQuoted(d + "\"" + tail);
  }

  /** A field that opens with a quote is read as a quoted field. */
  lemma ReadFieldQuoted(rest: string)
    ensures ReadField("\"" + rest) == ReadQuoted(rest)
  {
    assert "\""[0] == '"';
    assert ("\"" + rest)[0] == '"' && ("\"" + rest)[1..] == rest;
  }

  /** A field with no comma and no quote reads back as itself. */
  lemma ReadPlainRoundTrip(e: string, tail: string)
    requires FieldBoundary(tail) && ',' !in e && '"' !in e
    ensures ReadField(e + tail) == Some((e, tail))
  {
    var s := e + tail;
    if tail == [] {
      assert s == e;
      IndexOfAbsent(e, ',');
    } else {
      forall k | 0 <= k < |e| ensures s[k] != ',' {
        assert s[k] == e[k];
      }
      IndexOfIsFirst(s, ',', |e|);
    }
    assert s[..|e|] == e;
    if s != [] {
      assert s[0] != '"' by {
        if |e| > 0 { assert s[0] == e[0]; }
      }
    }
  }

  lemma ReadFieldsLast(s: string, f: string)
    requires ReadField(s) == Some((f, ""))
    ensures ReadFields(s) == Some([f])
  {
  }

  lemma ReadFieldsStep(s: string, f: string, rest: string, fs: seq<string>)
    requires ReadField(s) == Some((f, [','] + rest))
    requires ReadFields(rest) == Some(fs)
    ensures ReadFields(s) == Some([f] + fs)
  {
    assert ([','] + rest)[1..] == rest;
  }

  /** Reading a data line gives back the text of every cell. */
  lemma {:induction false} ReadLineRoundTrip(vs: seq<Value>)
    requires |vs| > 0
    ensures ReadFields(Join(EncodeAll(vs), ',')) == Some(TextAll(vs))
  {
    if |vs| == 1 {
      ReadLineOfOne(vs);
    } else {
      ReadLineRoundTrip(vs[1..]);
      ReadLineCons(vs);
    }
  }

  lemma ReadLineOfOne(vs: seq<Value>)
    requires |vs| == 1
    ensures ReadFields(Join(EncodeAll(vs), ',')) == Some(TextAll(vs))
  {
    var line := Join(EncodeAll(vs), ',');
    ReadCellRoundTrip(vs[0], "");
    assert line == EncodeCell(vs[0]) + "";
    ReadFieldsLast(line, CellText(vs[0]));
    assert TextAll(vs) == [CellText(vs[0])];
  }

  lemma ReadLineCons(vs: seq<Value>)
    requires |vs| > 1
    requires ReadFields(Join(EncodeAll(vs[1..]), ',')) == Some(TextAll(vs[1..]))
    ensures ReadFields(Join(EncodeAll(vs), ',')) == Some(TextAll(vs))
  {
    var rest := Join(EncodeAll(vs[1..]), ',');
    JoinCons(vs);
    ReadCellRoundTrip(vs[0], [','] + rest);
    ReadFieldsStep(EncodeCell(vs[0]) + ([','] + rest), CellText(vs[0]), rest, TextAll(vs[1..]));
    TextAllCons(vs);
  }

  lemma TextAllCons(vs: seq<Value>)
    requires vs != []
    ensures TextAll(vs) == [CellText(vs[0])] + TextAll(vs[1..])
  {
  }

  lemma JoinCons(vs: seq<Value>)
    requires |vs| > 1
    ensures Join(EncodeAll(vs), ',') == EncodeCell(vs[0]) + ([','] + Join(EncodeAll(vs[1..]), ','))
  {
    var cells := EncodeAll(vs);
    assert EncodeAll(vs[1..]) == cells[1..];
  }

  function EncodeAll(vs: seq<Value>): (r: seq<string>)
    ensures |r| == |vs| && forall i :: 0 <= i < |vs| ==> r[i] == EncodeCell(vs[i])
  {
    seq(|vs|, i requires 0 <= i < |vs| => EncodeCell(vs[i]))
  }

  function TextAll(vs: seq<Value>): (r: seq<string>)
    ensures |r| == |vs| && forall i :: 0 <= i < |vs| ==> r[i] == CellText(vs[i])
  {
    seq(|vs|, i requires 0 <= i < |vs| => CellText(vs[i]))
  }

  /** The texts of the cells of `row` under `headers`. */
  function RowTexts(headers: seq<string>, row: Row): (r: seq<string>)
    ensures |r| == |headers| && forall i :: 0 <= i < |headers| ==> r[i] == CellText(Get(row, headers[i]))
  {
    TextAll(seq(|headers|, i requires 0 <= i < |headers| => Get(row, headers[i])))
  }

  /** Header names the reader gives back unchanged. */
  predicate PlainHeader(h: string) {
    ',' !in h && '"' !in h && '\n' !in h
  }

  /** No cell text of the table spans lines. */
  predicate SingleLineCells(data: seq<Row>) {
    forall i, j :: 0 <= i < |data| && 0 <= j < |Columns(data)| ==> '\n' !in CellText(Get(data[i], Columns(data)[j]))
  }

  /** The data lines, one per row. */
  function DataLines(headers: seq<string>, data: seq<Row>): (lines: seq<string>)
    ensures |lines| == |data|
  {
    if data == [] then [] else [RowLine(headers, data[0])] + DataLines(headers, data[1..])
  }

  /** What the data lines read back as: per row, the text of each cell. */
  function DataTexts(headers: seq<string>, data: seq<Row>): (texts: seq<seq<string>>)
    ensures |texts| == |data|
  {
    if data == [] then [] else [RowTexts(headers, data[0])] + DataTexts(headers, data[1..])
  }

  /** An exported document reads back as the header line followed by one
      line per row holding the text of each of its cells under each header. */
  lemma ExportRoundTrip(data: seq<Row>)
    requires data != [] && |Columns(data)| > 0
    requires forall j :: 0 <= j < |Columns(data)| ==> PlainHeader(Columns(data)[j])
    requires SingleLineCells(data)
    ensures ReadCsv(CsvContent(data)) == Some([Columns(data)] + DataTexts(Columns(data), data))
  {
    var headers := Columns(data);
    var lines := [Join(headers, ',')] + DataLines(headers, data);
    assert CsvContent(data) == Join(lines, '\n');
    assert '\n' !in lines[0] by {
      JoinAvoids(headers, ',', '\n');
    }
    SingleLineData(headers, data);
    SplitJoin(lines, '\n');
    ReadHeaderLine(headers);
    ReadDataLines(headers, data);
    assert lines[1..] == DataLines(headers, data);
  }

  lemma {:induction false} SingleLineData(headers: seq<string>, data: seq<Row>)
    requires forall i, j :: 0 <= i < |data| && 0 <= j < |headers| ==> '\n' !in CellText(Get(data[i], headers[j]))
    ensures forall i :: 0 <= i < |data| ==> '\n' !in DataLines(headers, data)[i]
  {
    if data != [] {
      SingleLineRow(headers, data[0]);
      SingleLineData(headers, data[1..]);
      forall i | 0 <= i < |data| ensures '\n' !in DataLines(headers, data)[i] {
        if i > 0 {
          assert DataLines(headers, data)[i] == DataLines(headers, data[1..])[i - 1];
        }
      }
    }
  }

  lemma SingleLineRow(headers: seq<string>, row: Row)
    requires forall j :: 0 <= j < |headers| ==> '\n' !in CellText(Get(row, headers[j]))
    ensures '\n' !in RowLine(headers, row)
  {
    forall j | 0 <= j < |headers| ensures '\n' !in RowCells(headers, row)[j] {
      var v := Get(row, headers[j]);
      if v.Str? && NeedsQuoting(v.s) {
        assert '\n' !in DoubleQuotes(v.s);
      }
    }
    JoinAvoids(RowCells(headers, row), ',', '\n');
  }

  lemma ReadHeaderLine(headers: seq<string>)
    requires |headers| > 0 && forall j :: 0 <= j < |headers| ==> PlainHeader(headers[j])
    ensures ReadFields(Join(headers, ',')) == Some(headers)
  {
    var vs := seq(|headers|, j requires 0 <= j < |headers| => Str(headers[j]));
    assert EncodeAll(vs) == headers;
    assert TextAll(vs) == headers;
    ReadLineRoundTrip(vs);
  }

  lemma ReadRowLine(headers: seq<string>, row: Row)
    requires |headers| > 0
    ensures ReadFields(RowLine(headers, row)) == Some(RowTexts(headers, row))
  {
    var vs := seq(|headers|, j requires 0 <= j < |headers| => Get(row, headers[j]));
    assert EncodeAll(vs) == RowCells(headers, row);
    assert TextAll(vs) == RowTexts(headers, row);
    ReadLineRoundTrip(vs);
  }

  lemma {:induction false} ReadDataLines(headers: seq<string>, data: seq<Row>)
    requires |headers| > 0
    ensures ReadLines(DataLines(headers, data)) == Some(DataTexts(headers, data))
  {
    if data != [] {
      var lines := DataLines(headers, data);
      ReadRowLine(headers, data[0]);
      ReadDataLines(headers, data[1..]);
      assert lines[0] == RowLine(headers, data[0]);
      assert lines[1..] == DataLines(headers, data[1..]);
    }
  }

  // -------------------------------------------------------------- file name

  /** The position of the last `.` in `s`, or -1 when there is none. */
  function LastDot(s: string): (r: int)
    ensures -1 <= r < |s|
    ensures r >= 0 ==> s[r] == '.'
    ensures forall k :: r < k < |s| ==> s[k] != '.'
  {
    if s == [] then -1
    else if s[|s| - 1] == '.' then |s| - 1
    else LastDot(s[..|s| - 1])
  }

  /** The regular expression `/\.[^/.]+$/` matches at `i`: a dot followed by
      one or more characters, none a slash or a dot, up to the end. */
  predicate ExtensionAt(s: string, i: int) {
    0 <= i < |s| - 1 && s[i] == '.' && forall k :: i < k < |s| ==> s[k] != '/' && s[k] != '.'
  }

  /** `s.replace(/\.[^/.]+$/, '')`: drops the final extension, if any. */
  function StripExtension(s: string): (r: string)
    ensures forall i :: ExtensionAt(s, i) ==> r == s[..i]
    ensures (forall i :: !ExtensionAt(s, i)) ==> r == s
  {
    var i := LastDot(s);
    if 0 <= i < |s| - 1 && forall k :: i < k < |s| ==> s[k] != '/' then
      assert ExtensionAt(s, i);
      assert forall j :: ExtensionAt(s, j) ==> j == i;
      s[..i]
    else
      assert forall j :: ExtensionAt(s, j) ==> j == i;
      s
  }

  /** The download name: the file name without its extension, then `_export.csv`. */
  function ExportName(filename: string): (r: string)
    ensures |r| >= 11 && r[|r| - 11..] == "_export.csv"
    ensures r[..|r| - 11] == StripExtension(filename)
  {
    StripExtension(filename) + "_export.csv"
  }

  lemma ExportNameDropsExtension()
    ensures ExportName("sales.csv") == "sales_export.csv"
  {
    assert ExtensionAt("sales.csv", 5);
  }

  /** A dot before the last slash is not an extension. */
  lemma ExportNameKeepsDirectoryDot()
    ensures ExportName("data.v2/readme") == "data.v2/readme_export.csv"
  {
    var s := "data.v2/readme";
    forall i ensures !ExtensionAt(s, i) {
      if i < 7 {
        assert s[7] == '/';
      }
    }
  }
}
