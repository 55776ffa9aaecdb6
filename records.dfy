/** Records as the dashboard holds them: a row is a plain object, written as
    its own enumerable properties in property order, and a dataset is a
    sequence of rows. The column list is the key list of the first row. */
module Records {
  import opened JsValues

  type Field = (string, Value)
  type Row = seq<Field>

  /** `Object.keys(row)`. */
  function Keys(row: Row): (ks: seq<string>)
    ensures |ks| == |row| && forall i :: 0 <= i < |row| ==> ks[i] == row[i].0
  {
    seq(|row|, i requires 0 <= i < |row| => row[i].0)
  }

  /** `Object.values(row)`. */
  function Values(row: Row): (vs: seq<Value>)
    ensures |vs| == |row| && forall i :: 0 <= i < |row| ==> vs[i] == row[i].1
  {
    seq(|row|, i requires 0 <= i < |row| => row[i].1)
  }

  /** The position of the first property named `key` at or after `from`,
      or -1 when there is none. */
  function KeyIndexFrom(row: Row, key: string, from: nat): (r: int)
    requires from <= |row|
    ensures -1 <= r < |row|
    ensures r == -1 ==> forall i :: from <= i < |row| ==> row[i].0 != key
    ensures r >= 0 ==> from <= r && row[r].0 == key && forall j :: from <= j < r ==> row[j].0 != key
    decreases |row| - from
  {
    if from == |row| then -1
    else if row[from].0 == key then from
    else KeyIndexFrom(row, key, from + 1)
  }

  /** `row[key]`: the value of the (first) property named `key`, or
      `undefined` when the row has no such property. */
  function Get(row: Row, key: string): (v: Value)
    ensures (forall i :: 0 <= i < |row| ==> row[i].0 != key) ==> v == Undef
    ensures forall i :: 0 <= i < |row| && row[i].0 == key && (forall j :: 0 <= j < i ==> row[j].0 != key)
              ==> v == row[i].1
  {
    var i := KeyIndexFrom(row, key, 0);
    if i < 0 then Undef else row[i].1
  }

  /** The column list: the keys of the first record, or none for no data. */
  function Columns(data: seq<Row>): (cs: seq<string>)
    ensures data == [] ==> cs == []
    ensures data != [] ==> cs == Keys(data[0])
  {
    if data == [] then [] else Keys(data[0])
  }

  /** The column of values `data.map(row => row[key])`. */
  function Column(data: seq<Row>, key: string): (vs: seq<Value>)
    ensures |vs| == |data| && forall i :: 0 <= i < |data| ==> vs[i] == Get(data[i], key)
  {
    seq(|data|, i requires 0 <= i < |data| => Get(data[i], key))
  }
}
