/** The dataframe column operations the feed setup relies on: selecting
    columns while reading, assigning a column, and dropping columns. */
module Frames {
  import opened Values

  /** The labels not in `drop`, in their original order. */
  function KeepColumns(labels: seq<string>, drop: set<string>): (r: seq<string>)
    ensures forall l :: l in r <==> l in labels && l !in drop
    decreases |labels|
  {
    if labels == [] then []
    else
      var n := |labels| - 1;
      assert labels == labels[..n] + [labels[n]];
      KeepColumns(labels[..n], drop) + (if labels[n] in drop then [] else [labels[n]])
  }

  /** The cells of a row that sit under a kept label. */
  function KeepValues(labels: seq<string>, values: seq<Value>, drop: set<string>): (r: seq<Value>)
    requires |labels| == |values|
    ensures |r| == |KeepColumns(labels, drop)|
    decreases |labels|
  {
    if labels == [] then []
    else
      var n := |labels| - 1;
      KeepValues(labels[..n], values[..n], drop) + (if labels[n] in drop then [] else [values[n]])
  }

  lemma {:induction false} KeepColumnsDistinct(labels: seq<string>, drop: set<string>)
    requires Distinct(labels)
    ensures Distinct(KeepColumns(labels, drop))
    decreases |labels|
  {
    if labels != [] {
      var n := |labels| - 1;
      assert Distinct(labels[..n]) by {
        forall a, b | 0 <= a < b < n ensures labels[..n][a] != labels[..n][b] {
          assert labels[a] != labels[b];
        }
      }
      KeepColumnsDistinct(labels[..n], drop);
      assert labels[n] !in labels[..n] by {
        forall a | 0 <= a < n ensures labels[..n][a] != labels[n] {
          assert labels[a] != labels[n];
        }
      }
    }
  }

  /** Selecting columns keeps exactly the record minus the dropped labels. */
  lemma {:induction false} KeepRecord(labels: seq<string>, values: seq<Value>, drop: set<string>)
    requires |labels| == |values|
    ensures RecordOf(KeepColumns(labels, drop), KeepValues(labels, values, drop)) == RecordOf(labels, values) - drop
    decreases |labels|
  {
    if labels != [] {
      var n := |labels| - 1;
      KeepRecord(labels[..n], values[..n], drop);
      KeepRecordStep(labels, values, drop);
    }
  }

  /** One label more: the inductive step of KeepRecord. */
  lemma KeepRecordStep(labels: seq<string>, values: seq<Value>, drop: set<string>)
    requires |labels| == |values| && labels != []
    requires var n := |labels| - 1;
      RecordOf(KeepColumns(labels[..n], drop), KeepValues(labels[..n], values[..n], drop))
      == RecordOf(labels[..n], values[..n]) - drop
    ensures RecordOf(KeepColumns(labels, drop), KeepValues(labels, values, drop)) == RecordOf(labels, values) - drop
  {
    var n := |labels| - 1;
    var kc, kv := KeepColumns(labels[..n], drop), KeepValues(labels[..n], values[..n], drop);
    var before := RecordOf(labels[..n], values[..n]);
    assert RecordOf(labels, values) == before[labels[n] := values[n]];
    if labels[n] in drop {
      assert KeepColumns(labels, drop) == kc && KeepValues(labels, values, drop) == kv;
      DropOverride(before, labels[n], values[n], drop);
    } else {
      var c, v := kc + [labels[n]], kv + [values[n]];
      assert KeepColumns(labels, drop) == c && KeepValues(labels, values, drop) == v;
      assert c[..|c| - 1] == kc && v[..|v| - 1] == kv;
      assert RecordOf(c, v) == (before - drop)[labels[n] := values[n]];
      KeepOverride(before, labels[n], values[n], drop);
    }
  }

  /** The columns whose label is not in `drop`, with their cells. */
  function Project(t: Table, drop: set<string>): (r: Table)
    requires WellFormed(t)
    ensures WellFormed(r) && |r.rows| == |t.rows|
    ensures forall l :: l in r.columns <==> l in t.columns && l !in drop
  {
    KeepColumnsDistinct(t.columns, drop);
    var rows := seq(|t.rows|, i requires 0 <= i < |t.rows| =>
                  RowWidth(t, i); KeepValues(t.columns, t.rows[i], drop));
    Table(KeepColumns(t.columns, drop), rows)
  }

  /** Every row of a projection is the original row's record minus the dropped labels. */
  lemma ProjectRecord(t: Table, drop: set<string>, i: nat)
    requires WellFormed(t) && i < |t.rows|
    ensures |t.rows[i]| == |t.columns|
    ensures |Project(t, drop).rows[i]| == |Project(t, drop).columns|
    ensures RecordOf(Project(t, drop).columns, Project(t, drop).rows[i]) == RecordOf(t.columns, t.rows[i]) - drop
  {
    RowWidth(t, i);
    KeepRecord(t.columns, t.rows[i], drop);
  }

  /** Every row of a projection, as a record. */
  lemma ProjectRecords(t: Table, drop: set<string>)
    requires WellFormed(t)
    ensures forall i :: 0 <= i < |t.rows| ==> Rec(Project(t, drop), i) == Rec(t, i) - drop
  {
    forall i | 0 <= i < |t.rows| ensures Rec(Project(t, drop), i) == Rec(t, i) - drop {
      ProjectRecord(t, drop, i);
    }
  }

  /** `df[name] = values`: an existing column is overwritten where it stands,
      a new one is appended after the others. */
  function WithColumn(t: Table, name: string, values: seq<Value>): (r: Table)
    requires WellFormed(t) && |values| == |t.rows|
    ensures WellFormed(r) && |r.rows| == |t.rows|
    ensures forall l :: l in r.columns <==> l in t.columns || l == name
  {
    if name in t.columns then
      var j := IndexOf(t.columns, name);
      var rows := seq(|t.rows|, i requires 0 <= i < |t.rows| =>
                    RowWidth(t, i); t.rows[i][j := values[i]]);
      assert forall row :: row in rows ==> |row| == |t.columns|;
      Table(t.columns, rows)
    else
      var rows := seq(|t.rows|, i requires 0 <= i < |t.rows| => t.rows[i] + [values[i]]);
      assert forall row :: row in rows ==> |row| == |t.columns| + 1 by {
        forall row | row in rows ensures |row| == |t.columns| + 1 {
          var i :| 0 <= i < |rows| && rows[i] == row;
          RowWidth(t, i);
        }
      }
      Table(t.columns + [name], rows)
  }

  /** Overwriting one cell of a row with unique labels overwrites one entry of its record. */
  lemma {:induction false} UpdateRecord(labels: seq<string>, values: seq<Value>, j: nat, v: Value)
    requires |labels| == |values| && Distinct(labels) && j < |labels|
    ensures RecordOf(labels, values[j := v]) == RecordOf(labels, values)[labels[j] := v]
    decreases |labels|
  {
    var n := |labels| - 1;
    assert Distinct(labels[..n]) by {
      forall a, b | 0 <= a < b < n ensures labels[..n][a] != labels[..n][b] {
        assert labels[a] != labels[b];
      }
    }
    if j < n {
      UpdateRecord(labels[..n], values[..n], j, v);
      assert values[j := v][..n] == values[..n][j := v];
      assert labels[j] != labels[n];
    } else {
      assert values[j := v][..n] == values[..n];
    }
  }

  /** Every row after a column assignment is the old row's record with `name` set. */
  lemma WithColumnRecord(t: Table, name: string, values: seq<Value>, i: nat)
    requires WellFormed(t) && |values| == |t.rows| && i < |t.rows|
    ensures |t.rows[i]| == |t.columns|
    ensures |WithColumn(t, name, values).rows[i]| == |WithColumn(t, name, values).columns|
    ensures RecordOf(WithColumn(t, name, values).columns, WithColumn(t, name, values).rows[i])
      == RecordOf(t.columns, t.rows[i])[name := values[i]]
  {
    RowWidth(t, i);
    var r := WithColumn(t, name, values);
    assert r.rows[i] in r.rows;
    if name in t.columns {
      UpdateRecord(t.columns, t.rows[i], IndexOf(t.columns, name), values[i]);
    } else {
      var c, v := t.columns + [name], t.rows[i] + [values[i]];
      assert c[..|c| - 1] == t.columns && v[..|v| - 1] == t.rows[i];
    }
  }

  /** The first of `names` that is not a column, if any. */
  function MissingLabel(names: seq<string>, columns: seq<string>): (r: Option<string>)
    ensures r.None? <==> forall l :: l in names ==> l in columns
    ensures r.Some? ==> r.value in names && r.value !in columns
  {
    if names == [] then None
    else if names[0] !in columns then Some(names[0])
    else MissingLabel(names[1..], columns)
  }

  /** `df.drop(names, axis=1)`: a KeyError when one of the labels is not a
      column, the projection without them otherwise. */
  function Drop(t: Table, names: seq<string>): (r: Result<Table>)
    requires WellFormed(t)
    ensures r.Err? <==> exists l :: l in names && l !in t.columns
    ensures r.Err? ==> r.error.KeyError? && r.error.key in names && r.error.key !in t.columns
    ensures r.Ok? ==> r.value == Project(t, set l | l in names)
  {
    match MissingLabel(names, t.columns)
    case Some(l) => Err(KeyError(l))
    case None => Ok(Project(t, set l | l in names))
  }

  /** A dataframe that is updated in place. */
  class Frame {
    var columns: seq<string>
    var rows: seq<seq<Value>>

    constructor (t: Table)
      ensures Snapshot() == t
    {
      columns := t.columns;
      rows := t.rows;
    }

    /** The frame's current contents as a table value. */
    function Snapshot(): Table
      reads this
    {
      Table(columns, rows)
    }

    /** `df[name] = values`, in place. */
    method SetColumn(name: string, values: seq<Value>)
      requires WellFormed(Snapshot()) && |values| == |rows|
      modifies this
      ensures Snapshot() == WithColumn(old(Snapshot()), name, values)
    {
      var t := Snapshot();
      var cur := rows;
      if name in columns {
        var j := IndexOf(columns, name);
        rows := seq(|cur|, i requires 0 <= i < |cur| =>
                  RowWidth(t, i); cur[i][j := values[i]]);
      } else {
        rows := seq(|cur|, i requires 0 <= i < |cur| => cur[i] + [values[i]]);
        columns := columns + [name];
      }
    }
  }
}
