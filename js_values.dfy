/** The scalar values a dashboard record holds and the JavaScript coercions
    the engine applies to them: `String(v)`, `Number(v)`, truthiness,
    `toLowerCase`, `trim`, `replace(/\s+/g, ' ')` and `localeCompare`. */
module JsValues {
  import Sequences

  /** A field value. Numbers are integer-valued (see README). */
  datatype Value = Null | Undef | Str(s: string) | Num(n: int) | Bool(b: bool)

  /** The result of `Number(v)`: `NaN`, or an integer. */
  datatype JsNumber = NaN | Int(value: int)

  /** `v == null` with loose equality: true of `null` and `undefined`. */
  predicate IsNullish(v: Value) {
    v.Null? || v.Undef?
  }

  /** `!v`: the falsy values among those the model has. */
  predicate IsFalsy(v: Value) {
    v == Null || v == Undef || v == Str("") || v == Num(0) || v == Bool(false)
  }

  predicate IsDigit(c: char) {
    '0' <= c <= '9'
  }

  predicate AllDigits(s: string) {
    forall i :: 0 <= i < |s| ==> IsDigit(s[i])
  }

  function DigitChar(d: nat): (c: char)
    requires d < 10
    ensures IsDigit(c) && (c as int) - ('0' as int) == d
  {
    (('0' as int) + d) as char
  }

  /** Decimal digits of `n`, most significant first, without leading zeros. */
  function NatToString(n: nat): (r: string)
    ensures |r| > 0 && AllDigits(r)
    ensures r[0] != '0' || n == 0
  {
    if n < 10 then [DigitChar(n)] else NatToString(n / 10) + [DigitChar(n % 10)]
  }

  /** The value of a string of decimal digits. */
  function DigitsValue(s: string): nat
    requires AllDigits(s)
  {
    if s == [] then 0
    else DigitsValue(s[..|s| - 1]) * 10 + ((s[|s| - 1] as int) - ('0' as int))
  }

  lemma {:induction false} NatToStringRoundTrip(n: nat)
    ensures DigitsValue(NatToString(n)) == n
  {
    if n >= 10 {
      var r := NatToString(n);
      assert r[..|r| - 1] == NatToString(n / 10);
      NatToStringRoundTrip(n / 10);
    }
  }

  /** `String(n)` for an integer-valued number. */
  function IntToString(n: int): (r: string)
    ensures |r| > 0
    ensures forall i :: 0 <= i < |r| ==> IsDigit(r[i]) || r[i] == '-'
  {
    if n < 0 then "-" + NatToString(-n) else NatToString(n)
  }

  /** `String(v)`. */
  function ToJsString(v: Value): string {
    match v
    case Null => "null"
    case Undef => "undefined"
    case Str(s) => s
    case Num(n) => IntToString(n)
    case Bool(b) => if b then "true" else "false"
  }

  /** The characters `trim` strips and `\s` matches: ECMA-262 WhiteSpace
      (tab, vertical tab, form feed, space, no-break space, byte order mark and
      the Unicode space separators) and LineTerminator (LF, CR, U+2028, U+2029). */
  predicate IsWhitespace(c: char) {
    InRanges(c as int, WhitespaceRanges)
  }

  /** The code points of those characters, as inclusive ranges. */
  const WhitespaceRanges: seq<(int, int)> := [
    (9, 13), (32, 32), (0xA0, 0xA0), (0x1680, 0x1680), (0x2000, 0x200A),
    (0x2028, 0x2029), (0x202F, 0x202F), (0x205F, 0x205F), (0x3000, 0x3000), (0xFEFF, 0xFEFF)]

  /** `n` lies in one of the inclusive ranges. */
  predicate InRanges(n: int, ranges: seq<(int, int)>) {
    ranges != [] && ((ranges[0].0 <= n <= ranges[0].1) || InRanges(n, ranges[1..]))
  }

  lemma {:induction false} OutsideRanges(n: int, ranges: seq<(int, int)>)
    requires forall i :: 0 <= i < |ranges| ==> n < ranges[i].0 || ranges[i].1 < n
    ensures !InRanges(n, ranges)
  {
    if ranges != [] {
      OutsideRanges(n, ranges[1..]);
    }
  }

  /** The visible ASCII characters, digits and the minus sign among them,
      are not whitespace. */
  lemma VisibleIsNotWhitespace(c: char)
    requires 33 <= c as int <= 126
    ensures !IsWhitespace(c)
  {
    OutsideRanges(c as int, WhitespaceRanges);
  }

  lemma SpaceIsWhitespace()
    ensures IsWhitespace(' ')
  {
    assert WhitespaceRanges[1..][0] == (32, 32);
  }

  /** Some character of `s` is not whitespace. */
  predicate HasContent(s: string) {
    exists i :: 0 <= i < |s| && !IsWhitespace(s[i])
  }

  /** `s` with its leading whitespace removed. */
  function TrimStart(s: string): (r: string)
    ensures |r| <= |s| && r == s[|s| - |r|..]
    ensures forall i :: 0 <= i < |s| - |r| ==> IsWhitespace(s[i])
    ensures r == [] || !IsWhitespace(r[0])
  {
    if s != [] && IsWhitespace(s[0]) then TrimStart(s[1..]) else s
  }

  /** `s` with its trailing whitespace removed. */
  function TrimEnd(s: string): (r: string)
    ensures |r| <= |s| && r == s[..|r|]
    ensures forall i :: |r| <= i < |s| ==> IsWhitespace(s[i])
    ensures r == [] || !IsWhitespace(r[|r| - 1])
  {
    if s != [] && IsWhitespace(s[|s| - 1]) then TrimEnd(s[..|s| - 1]) else s
  }

  /** `String.prototype.trim`: `s` without its leading and trailing whitespace;
      it is empty exactly when `s` is all whitespace. */
  function Trim(s: string): (r: string)
    ensures |r| <= |s|
    ensures r == [] || (!IsWhitespace(r[0]) && !IsWhitespace(r[|r| - 1]))
    ensures r == [] <==> !HasContent(s)
  {
    var t := TrimStart(s);
    TrimStartContent(s);
    TrimEndContent(t);
    var r := TrimEnd(t);
    assert r != [] ==> r[0] == t[0];
    r
  }

  lemma {:induction false} TrimStartContent(s: string)
    ensures HasContent(TrimStart(s)) <==> HasContent(s)
    decreases |s|
  {
    if s != [] && IsWhitespace(s[0]) {
      TrimStartContent(s[1..]);
      ConsContent(s[0], s[1..]);
      assert [s[0]] + s[1..] == s;
    }
  }

  lemma {:induction false} TrimEndContent(s: string)
    ensures HasContent(TrimEnd(s)) <==> HasContent(s)
    ensures TrimEnd(s) == [] <==> !HasContent(s)
    decreases |s|
  {
    if s != [] && IsWhitespace(s[|s| - 1]) {
      TrimEndContent(s[..|s| - 1]);
      SnocContent(s[..|s| - 1], s[|s| - 1]);
      assert s[..|s| - 1] + [s[|s| - 1]] == s;
    } else if s != [] {
      assert !IsWhitespace(s[|s| - 1]);
    }
  }

  /** Trimming twice is trimming once. */
  lemma TrimIdempotent(s: string)
    ensures Trim(Trim(s)) == Trim(s)
  {
    var r := Trim(s);
    assert TrimStart(r) == r;
    assert TrimEnd(r) == r;
  }

  lemma {:induction false} ConsContent(c: char, t: string)
    ensures HasContent([c] + t) <==> !IsWhitespace(c) || HasContent(t)
  {
    if !IsWhitespace(c) {
      assert !IsWhitespace(([c] + t)[0]);
    }
    if HasContent([c] + t) {
      var k :| 0 <= k < |[c] + t| && !IsWhitespace(([c] + t)[k]);
      if k > 0 { assert t[k - 1] == ([c] + t)[k]; }
    }
    if HasContent(t) {
      var k :| 0 <= k < |t| && !IsWhitespace(t[k]);
      assert ([c] + t)[k + 1] == t[k];
      assert !IsWhitespace(([c] + t)[k + 1]);
    }
  }

  lemma {:induction false} SnocContent(t: string, c: char)
    ensures HasContent(t + [c]) <==> HasContent(t) || !IsWhitespace(c)
  {
    if !IsWhitespace(c) {
      assert !IsWhitespace((t + [c])[|t|]);
    }
    if HasContent(t + [c]) {
      var k :| 0 <= k < |t + [c]| && !IsWhitespace((t + [c])[k]);
      if k < |t| { assert t[k] == (t + [c])[k]; }
    }
    if HasContent(t) {
      var k :| 0 <= k < |t| && !IsWhitespace(t[k]);
      assert (t + [c])[k] == t[k];
      assert !IsWhitespace((t + [c])[k]);
    }
  }

  /** `replace(/\s+/g, ' ')`: every maximal run of whitespace becomes one space.
      The result starts and ends with whitespace exactly when `s` does. */
  function Collapse(s: string): (r: string)
    ensures |r| <= |s|
    ensures |s| > 0 ==> |r| > 0 && (IsWhitespace(r[0]) <==> IsWhitespace(s[0]))
    ensures |s| > 0 ==> (IsWhitespace(r[|r| - 1]) <==> IsWhitespace(s[|s| - 1]))
    decreases |s|
  {
    if s == [] then []
    else if IsWhitespace(s[0]) then
      var t := TrimStart(s);
      assert t != [] ==> t[|t| - 1] == s[|s| - 1];
      [' '] + Collapse(t)
    else
      [s[0]] + Collapse(s[1..])
  }

  /** The only whitespace character in `s` is the plain space. */
  predicate OnlySpaces(s: string) {
    forall i :: 0 <= i < |s| ==> s[i] == ' ' || !IsWhitespace(s[i])
  }

  /** No two whitespace characters of `s` are adjacent. */
  predicate NoDoubleWhitespace(s: string) {
    forall i :: 0 <= i < |s| - 1 ==> !(IsWhitespace(s[i]) && IsWhitespace(s[i + 1]))
  }

  lemma {:induction false} ConsNormal(c: char, t: string)
    requires c == ' ' || !IsWhitespace(c)
    requires OnlySpaces(t) && NoDoubleWhitespace(t)
    requires t != [] && IsWhitespace(c) ==> !IsWhitespace(t[0])
    ensures OnlySpaces([c] + t) && NoDoubleWhitespace([c] + t)
  {
    var r := [c] + t;
    assert forall i :: 0 < i < |r| ==> r[i] == t[i - 1];
  }

  /** After collapsing, the only whitespace is a single space between
      non-whitespace characters. */
  lemma {:induction false} CollapseNormalizes(s: string)
    ensures OnlySpaces(Collapse(s)) && NoDoubleWhitespace(Collapse(s))
    decreases |s|
  {
    if s != [] {
      if IsWhitespace(s[0]) {
        var t := TrimStart(s);
        CollapseNormalizes(t);
        ConsNormal(' ', Collapse(t));
      } else {
        CollapseNormalizes(s[1..]);
        ConsNormal(s[0], Collapse(s[1..]));
      }
    }
  }

  /** Collapsing keeps a string blank or non-blank. */
  lemma {:induction false} CollapseContent(s: string)
    ensures HasContent(Collapse(s)) <==> HasContent(s)
    decreases |s|
  {
    if s != [] {
      if IsWhitespace(s[0]) {
        var t := TrimStart(s);
        CollapseContent(t);
        TrimStartContent(s);
        ConsContent(' ', Collapse(t));
      } else {
        CollapseContent(s[1..]);
        ConsContent(s[0], Collapse(s[1..]));
        ConsContent(s[0], s[1..]);
        assert s == [s[0]] + s[1..];
      }
    }
  }

  predicate NotWhitespace(c: char) {
    !IsWhitespace(c)
  }

  /** Trimming the start drops only whitespace. */
  lemma TrimStartKeepsContentChars(s: string)
    ensures Sequences.Filter(TrimStart(s), NotWhitespace) == Sequences.Filter(s, NotWhitespace)
  {
    var t := TrimStart(s);
    var w := s[..|s| - |t|];
    assert s == w + t;
    Sequences.FilterConcat(w, t, NotWhitespace);
    Sequences.FilterEmpty(w, NotWhitespace);
  }

  /** Collapsing keeps the non-whitespace characters, in order. */
  lemma {:induction false} CollapseKeepsContentChars(s: string)
    ensures Sequences.Filter(Collapse(s), NotWhitespace) == Sequences.Filter(s, NotWhitespace)
    decreases |s|
  {
    if s != [] {
      if IsWhitespace(s[0]) {
        var t := TrimStart(s);
        CollapseKeepsContentChars(t);
        TrimStartKeepsContentChars(s);
        SpaceIsWhitespace();
        Sequences.FilterCons(' ', Collapse(t), NotWhitespace);
      } else {
        CollapseKeepsContentChars(s[1..]);
        Sequences.FilterCons(s[0], Collapse(s[1..]), NotWhitespace);
        Sequences.FilterCons(s[0], s[1..], NotWhitespace);
        assert s == [s[0]] + s[1..];
      }
    }
  }

  lemma {:induction false} TrimStartConcat(x: string, y: string)
    requires HasContent(x)
    ensures TrimStart(x + y) == TrimStart(x) + y
    decreases |x|
  {
    assert (x + y)[0] == x[0];
    if IsWhitespace(x[0]) {
      ConsContent(x[0], x[1..]);
      assert x == [x[0]] + x[1..];
      assert (x + y)[1..] == x[1..] + y;
      TrimStartConcat(x[1..], y);
    }
  }

  /** A leading whitespace run becomes one space. */
  lemma CollapseWhitespaceHead(s: string)
    requires s != [] && IsWhitespace(s[0])
    ensures Collapse(s) == [' '] + Collapse(TrimStart(s))
  {
  }

  /** A leading non-whitespace character is kept. */
  lemma CollapseContentHead(s: string)
    requires s != [] && !IsWhitespace(s[0])
    ensures Collapse(s) == [s[0]] + Collapse(s[1..])
  {
  }

  /** A string ending in a non-whitespace character collapses on its own:
      no whitespace run crosses its end. */
  lemma {:induction false} CollapseConcat(x: string, y: string)
    requires x == [] || !IsWhitespace(x[|x| - 1])
    ensures Collapse(x + y) == Collapse(x) + Collapse(y)
    decreases |x|
  {
    if x == [] {
      assert x + y == y;
    } else {
      var xy := x + y;
      assert xy[0] == x[0];
      if IsWhitespace(x[0]) {
        assert HasContent(x);
        TrimStartConcat(x, y);
        var t := TrimStart(x);
        assert t[|t| - 1] == x[|x| - 1];
        CollapseConcat(t, y);
        CollapseWhitespaceHead(xy);
        CollapseWhitespaceHead(x);
        Sequences.ConcatAssociates([' '], Collapse(t), Collapse(y));
      } else {
        assert xy[1..] == x[1..] + y;
        CollapseConcat(x[1..], y);
        CollapseContentHead(xy);
        CollapseContentHead(x);
        Sequences.ConcatAssociates([x[0]], Collapse(x[1..]), Collapse(y));
      }
    }
  }

  /** A whitespace run followed by a non-whitespace character (or the end)
      becomes one space. */
  lemma CollapseRun(w: string, b: string)
    requires w != [] && forall i :: 0 <= i < |w| ==> IsWhitespace(w[i])
    requires b == [] || !IsWhitespace(b[0])
    ensures Collapse(w + b) == [' '] + Collapse(b)
  {
    var s := w + b;
    assert s[0] == w[0];
    TrimStartRun(w, b);
    CollapseWhitespaceHead(s);
  }

  lemma {:induction false} TrimStartRun(w: string, b: string)
    requires forall i :: 0 <= i < |w| ==> IsWhitespace(w[i])
    requires b == [] || !IsWhitespace(b[0])
    ensures TrimStart(w + b) == b
    decreases |w|
  {
    if w == [] {
      assert w + b == b;
    } else {
      var s := w + b;
      assert s[0] == w[0];
      assert s[1..] == w[1..] + b;
      TrimStartRun(w[1..], b);
    }
  }

  /** Between two non-whitespace characters, a whitespace run of any length
      and kind becomes exactly one space. */
  lemma CollapseSeparator(a: string, w: string, b: string)
    requires a == [] || !IsWhitespace(a[|a| - 1])
    requires w != [] && forall i :: 0 <= i < |w| ==> IsWhitespace(w[i])
    requires b == [] || !IsWhitespace(b[0])
    ensures Collapse(a + w + b) == Collapse(a) + [' '] + Collapse(b)
  {
    var wb := w + b;
    Sequences.ConcatAssociates(a, w, b);
    CollapseConcat(a, wb);
    CollapseRun(w, b);
    Sequences.ConcatAssociates(Collapse(a), [' '], Collapse(b));
  }

  /** A cleaned text field is "tidy": no leading or trailing whitespace and no
      two whitespace characters in a row. */
  predicate IsTidy(s: string) {
    (s == [] || (!IsWhitespace(s[0]) && !IsWhitespace(s[|s| - 1])))
    && NoDoubleWhitespace(s)
  }

  /** Trimming and then collapsing whitespace yields a tidy string. */
  lemma CollapseTrimIsTidy(s: string)
    ensures IsTidy(Collapse(Trim(s)))
  {
    CollapseNormalizes(Trim(s));
  }

  /** The decimal-integer subset of the StringNumericLiteral grammar `Number`
      accepts, after trimming: an optional sign followed by decimal digits.
      A blank string is zero. Anything else reads as `NaN`. */
  function ParseNumber(s: string): JsNumber {
    var t := Trim(s);
    if t == [] then Int(0)
    else if t[0] == '-' || t[0] == '+' then
      var d := t[1..];
      if d != [] && AllDigits(d) then Int(if t[0] == '-' then -(DigitsValue(d) as int) else DigitsValue(d)) else NaN
    else if AllDigits(t) then Int(DigitsValue(t))
    else NaN
  }

  /** `Number(v)`. */
  function ToNumber(v: Value): JsNumber {
    match v
    case Null => Int(0)
    case Undef => NaN
    case Bool(b) => Int(if b then 1 else 0)
    case Num(n) => Int(n)
    case Str(s) => ParseNumber(s)
  }

  /** `!isNaN(Number(v))`. */
  predicate IsNumeric(v: Value) {
    ToNumber(v).Int?
  }

  /** `Number(v) || 0`: the number, or zero for `NaN`. */
  function NumberOrZero(v: Value): int {
    match ToNumber(v)
    case NaN => 0
    case Int(n) => n
  }

  lemma NoWhitespaceInDigits(s: string)
    requires forall i :: 0 <= i < |s| ==> IsDigit(s[i]) || s[i] == '-'
    ensures Trim(s) == s
  {
    if s != [] {
      VisibleIsNotWhitespace(s[0]);
      VisibleIsNotWhitespace(s[|s| - 1]);
    }
    assert TrimStart(s) == s;
    assert TrimEnd(s) == s;
  }

  /** `Number(String(n)) === n` for every integer `n`. */
  lemma NumberOfStringRoundTrip(n: int)
    ensures ToNumber(Str(IntToString(n))) == Int(n)
  {
    var r := IntToString(n);
    NoWhitespaceInDigits(r);
    if n < 0 {
      assert r[1..] == NatToString(-n);
      NatToStringRoundTrip(-n);
    } else {
      NatToStringRoundTrip(n);
    }
  }

  /** `toLowerCase` on the ASCII letters; other characters are unchanged. */
  function LowerChar(c: char): char {
    if 'A' <= c <= 'Z' then ((c as int) + 32) as char else c
  }

  function Lower(s: string): (r: string)
    ensures |r| == |s| && forall i :: 0 <= i < |s| ==> r[i] == LowerChar(s[i])
  {
    seq(|s|, i requires 0 <= i < |s| => LowerChar(s[i]))
  }

  /** Lower-casing twice is lower-casing once. */
  lemma LowerIdempotent(s: string)
    ensures Lower(Lower(s)) == Lower(s)
  {
  }

  /** String comparison as the model's `localeCompare`: the lexicographic order
      on characters, a total order; negative, zero or positive. */
  function CompareStrings(a: string, b: string): (r: int)
    ensures -1 <= r <= 1
  {
    if a == [] && b == [] then 0
    else if a == [] then -1
    else if b == [] then 1
    else if a[0] < b[0] then -1
    else if a[0] > b[0] then 1
    else CompareStrings(a[1..], b[1..])
  }

  lemma {:induction false} CompareStringsAntisymmetric(a: string, b: string)
    ensures CompareStrings(a, b) == -CompareStrings(b, a)
  {
    if a != [] && b != [] && a[0] == b[0] {
      CompareStringsAntisymmetric(a[1..], b[1..]);
    }
  }

  lemma {:induction false} CompareStringsZero(a: string, b: string)
    ensures CompareStrings(a, b) == 0 <==> a == b
  {
    if a != [] && b != [] && a[0] == b[0] {
      CompareStringsZero(a[1..], b[1..]);
      assert a == [a[0]] + a[1..] && b == [b[0]] + b[1..];
    }
  }

  lemma {:induction false} CompareStringsTransitive(a: string, b: string, c: string)
    requires CompareStrings(a, b) <= 0 && CompareStrings(b, c) <= 0
    ensures CompareStrings(a, c) <= 0
  {
    if a != [] && b != [] && c != [] && a[0] == b[0] && b[0] == c[0] {
      CompareStringsTransitive(a[1..], b[1..], c[1..]);
    }
  }
}
