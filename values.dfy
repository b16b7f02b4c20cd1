/** The values a parsed open-data feed carries, the tables pandas builds from
    them, and the equality pandas and Python use when filtering and grouping. */
module Values {

  /** One cell of a parsed CSV or GeoJSON feed. */
  datatype Value =
    | Str(s: string)
    | Int(i: int)
    | Real(r: real)                     // a float cell
    | Missing                           // NaN or None
    | Obj(fields: map<string, Value>)   // a nested JSON object (a Python dict)
    | List(items: seq<Value>)           // a nested JSON array

  /** A row seen as a dict from column label to value. */
  type Record = map<string, Value>

  /** The exceptions the core can raise, plus the empty selection. */
  datatype Error =
    | KeyError(key: string)   // a column or dict key that does not exist
    | TypeError               // subscripting a value that is not a dict
    | ValueError              // int() of text that is not an integer literal
    | NoMatches               // the filter kept no row

  datatype Result<T> = Ok(value: T) | Err(error: Error)

  datatype Option<T> = None | Some(value: T)

  /** A dataframe: column labels and one row of cells per record. */
  datatype Table = Table(columns: seq<string>, rows: seq<seq<Value>>)

  predicate Distinct(s: seq<string>) {
    forall i, j :: 0 <= i < j < |s| ==> s[i] != s[j]
  }

  /** Column labels are unique (read_csv and read_json both guarantee it)
      and every row has one cell per column. */
  predicate WellFormed(t: Table) {
    Distinct(t.columns) && forall row :: row in t.rows ==> |row| == |t.columns|
  }

  function IndexOf(s: seq<string>, x: string): (i: nat)
    requires x in s
    ensures i < |s| && s[i] == x
    ensures forall j :: 0 <= j < i ==> s[j] != x
  {
    if s[0] == x then 0 else 1 + IndexOf(s[1..], x)
  }

  /** The dict view of a row whose cells carry these labels: a later label
      overrides an earlier equal one, as repeated dict assignment does. */
  function RecordOf(labels: seq<string>, values: seq<Value>): (m: Record)
    requires |labels| == |values|
    decreases |labels|
  {
    if labels == [] then map[]
    else
      var n := |labels| - 1;
      RecordOf(labels[..n], values[..n])[labels[n] := values[n]]
  }

  /** Growing a row prefix by one cell sets one more entry of its record. */
  lemma RecordSnoc(labels: seq<string>, values: seq<Value>, i: nat)
    requires |labels| == |values| && i < |labels|
    ensures RecordOf(labels[..i + 1], values[..i + 1]) == RecordOf(labels[..i], values[..i])[labels[i] := values[i]]
  {
    assert labels[..i + 1][..i] == labels[..i] && values[..i + 1][..i] == values[..i];
  }

  /** Setting a label that is then removed leaves no trace. */
  lemma DropOverride(m: Record, l: string, v: Value, drop: set<string>)
    requires l in drop
    ensures m[l := v] - drop == m - drop
  {
  }

  /** Setting a label that is kept commutes with removing the others. */
  lemma KeepOverride(m: Record, l: string, v: Value, drop: set<string>)
    requires l !in drop
    ensures (m - drop)[l := v] == m[l := v] - drop
  {
  }

  /** A row's record has exactly the row's labels as keys. */
  lemma {:induction false} RecordKeys(labels: seq<string>, values: seq<Value>)
    requires |labels| == |values|
    ensures RecordOf(labels, values).Keys == set l | l in labels
    decreases |labels|
  {
    if labels != [] {
      var n := |labels| - 1;
      RecordKeys(labels[..n], values[..n]);
      assert labels == labels[..n] + [labels[n]];
    }
  }

  /** With unique labels, the record maps each label to the cell at its position. */
  lemma {:induction false} RecordAt(labels: seq<string>, values: seq<Value>, j: nat)
    requires |labels| == |values| && Distinct(labels) && j < |labels|
    ensures labels[j] in RecordOf(labels, values) && RecordOf(labels, values)[labels[j]] == values[j]
    decreases |labels|
  {
    var n := |labels| - 1;
    if j < n {
      assert Distinct(labels[..n]) by {
        forall a, b | 0 <= a < b < n ensures labels[..n][a] != labels[..n][b] {
          assert labels[a] != labels[b];
        }
      }
      RecordAt(labels[..n], values[..n], j);
      assert labels[j] != labels[n];
    }
  }

  /** Every row of a well-formed table has one cell per column. */
  lemma RowWidth(t: Table, i: nat)
    requires WellFormed(t) && i < |t.rows|
    ensures |t.rows[i]| == |t.columns|
  {
    assert t.rows[i] in t.rows;
  }

  /** The record of row `i` of a well-formed table. */
  function Rec(t: Table, i: nat): (m: Record)
    requires WellFormed(t) && i < |t.rows|
    ensures forall l :: l in m <==> l in t.columns
  {
    RowWidth(t, i);
    RecordKeys(t.columns, t.rows[i]);
    RecordOf(t.columns, t.rows[i])
  }

  /** The scalar a lookup compares a column with, after the caller's coercion:
      str, int or float. */
  datatype Key = KStr(s: string) | KInt(n: int) | KReal(x: real)

  predicate Numeric(v: Value) {
    v.Int? || v.Real?
  }

  function AsReal(v: Value): real
    requires Numeric(v)
  {
    if v.Int? then v.i as real else v.r
  }

  /** pandas' elementwise `column == scalar`: numbers compare by value across
      int and float, a string only equals the same string, and a missing cell
      equals nothing. */
  predicate Matches(v: Value, k: Key) {
    match k
    case KStr(s) => v == Str(s)
    case KInt(n) => Numeric(v) && AsReal(v) == n as real
    case KReal(x) => Numeric(v) && AsReal(v) == x
  }

  /** Python's `==` on group keys: numbers compare by value across int and
      float, other values structurally. */
  predicate KeyEq(a: Value, b: Value) {
    if Numeric(a) && Numeric(b) then AsReal(a) == AsReal(b) else a == b
  }
}
