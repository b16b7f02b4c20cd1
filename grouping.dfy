/** The record reshaping and grouping behind every lookup: split a row into
    its key and the rest, keep the rows whose key field equals the requested
    value, and group the rest by key into `{field, total, datos}` envelopes. */
module Grouping {
  import opened Values

  /** The label under which the split row carries its other fields. */
  const Resultados := "resultados"

  /** The key value of a row: its cell under `name`, or "" when it has none. */
  function KeyOf(labels: seq<string>, values: seq<Value>, name: string): Value
    requires |labels| == |values|
  {
    var rec := RecordOf(labels, values);
    if name in rec then rec[name] else Str("")
  }

  /** `_to_dict(row, name)`: walks the row's cells in order, moving every cell
      whose label is not `name` into `res` and remembering the one that is;
      returns the two-entry series `{name: value, "resultados": res}`. */
  method ToDict(index: seq<string>, values: seq<Value>, name: string) returns (out: map<string, Value>)
    requires |index| == |values|
    ensures out.Keys == {name, Resultados}
    ensures name != Resultados ==> |out| == 2 && out[name] == KeyOf(index, values, name)
    ensures out[Resultados] == Obj(RecordOf(index, values) - {name})
    ensures name !in out[Resultados].fields
    ensures name != Resultados ==>
      out == map[name := SplitRow(index, values, name).key, Resultados := Obj(SplitRow(index, values, name).resultados)]
  {
    var res: map<string, Value> := map[];
    var value := Str("");
    var i := 0;
    while i < |values|
      invariant 0 <= i <= |values|
      invariant res == RecordOf(index[..i], values[..i]) - {name}
      invariant value == KeyOf(index[..i], values[..i], name)
    {
      RecordSnoc(index, values, i);
      if index[i] != name {
        KeepOverride(RecordOf(index[..i], values[..i]), index[i], values[i], {name});
        res := res[index[i] := values[i]];
      } else {
        DropOverride(RecordOf(index[..i], values[..i]), index[i], values[i], {name});
        value := values[i];
      }
      i := i + 1;
    }
    assert index[..i] == index && values[..i] == values;
    out := map[name := value][Resultados := Obj(res)];
  }

  /** One row after `_to_dict`: its key value and its other fields. */
  datatype Entry = Entry(key: Value, resultados: Record)

  function SplitRow(labels: seq<string>, values: seq<Value>, name: string): Entry
    requires |labels| == |values|
  {
    Entry(KeyOf(labels, values, name), RecordOf(labels, values) - {name})
  }

  /** `df.apply(lambda row: _to_dict(row, name), axis=1)` */
  function SplitRows(labels: seq<string>, rows: seq<seq<Value>>, name: string): (r: seq<Entry>)
    requires forall row :: row in rows ==> |row| == |labels|
    ensures |r| == |rows|
  {
    seq(|rows|, i requires 0 <= i < |rows| => assert rows[i] in rows; SplitRow(labels, rows[i], name))
  }

  /** `df[df[field] == value]` on the rows, with `j` the field's column. */
  function FilterRows(rows: seq<seq<Value>>, j: nat, k: Key): (r: seq<seq<Value>>)
    requires forall row :: row in rows ==> j < |row|
    ensures forall row :: row in r ==> row in rows
  {
    if rows == [] then []
    else (if Matches(rows[0][j], k) then [rows[0]] else []) + FilterRows(rows[1..], j, k)
  }

  /** The number of rows whose cell at `j` matches. */
  function CountMatching(rows: seq<seq<Value>>, j: nat, k: Key): nat
    requires forall row :: row in rows ==> j < |row|
  {
    if rows == [] then 0
    else (if Matches(rows[0][j], k) then 1 else 0) + CountMatching(rows[1..], j, k)
  }

  /** Exactly the matching rows survive, as many as there are. */
  lemma {:induction false} FilterRowsSound(rows: seq<seq<Value>>, j: nat, k: Key)
    requires forall row :: row in rows ==> j < |row|
    ensures forall row :: row in FilterRows(rows, j, k) ==> Matches(row[j], k)
    ensures forall row :: row in rows && Matches(row[j], k) ==> row in FilterRows(rows, j, k)
    ensures |FilterRows(rows, j, k)| == CountMatching(rows, j, k)
  {
    if rows != [] {
      FilterRowsSound(rows[1..], j, k);
      forall row | row in rows && Matches(row[j], k) ensures row in FilterRows(rows, j, k) {
        if row != rows[0] {
          assert row in rows[1..];
        }
      }
    }
  }

  /** No row matches exactly when the count is zero. */
  lemma {:induction false} CountZero(rows: seq<seq<Value>>, j: nat, k: Key)
    requires forall row :: row in rows ==> j < |row|
    ensures CountMatching(rows, j, k) == 0 <==> forall i :: 0 <= i < |rows| ==> !Matches(rows[i][j], k)
  {
    if rows != [] {
      CountZero(rows[1..], j, k);
      assert forall i :: 1 <= i < |rows| ==> rows[i] == rows[1..][i - 1];
    }
  }

  /** One `{field: key, total, datos}` envelope. */
  datatype Group = Group(key: Value, total: nat, datos: seq<Record>)

  /** Files an entry under the first group with an equal key, or opens a new group. */
  function Insert(gs: seq<Group>, e: Entry): (r: seq<Group>)
    decreases |gs|
  {
    if gs == [] then [Group(e.key, 1, [e.resultados])]
    else if KeyEq(gs[0].key, e.key) then
      [gs[0].(total := gs[0].total + 1, datos := gs[0].datos + [e.resultados])] + gs[1..]
    else [gs[0]] + Insert(gs[1..], e)
  }

  /** `groupby(field).agg(total=count, datos=list)`, groups in order of first appearance. */
  function GroupBy(es: seq<Entry>): seq<Group>
    decreases |es|
  {
    if es == [] then [] else Insert(GroupBy(es[..|es| - 1]), es[|es| - 1])
  }

  /** The resultados of the entries whose key equals `k`, in input order. */
  function Members(es: seq<Entry>, k: Value): seq<Record>
    decreases |es|
  {
    if es == [] then []
    else
      var n := |es| - 1;
      Members(es[..n], k) + (if KeyEq(es[n].key, k) then [es[n].resultados] else [])
  }

  /** `gs` is a grouping of `es`: each group's total counts its datos, which
      are never empty; its datos are the members with its key, in input
      order; no two groups have equal keys; and every entry belongs to some
      group. */
  ghost predicate GroupsOf(gs: seq<Group>, es: seq<Entry>) {
    TotalsCount(gs) && DatosAreMembers(gs, es) && KeysDistinct(gs) && Covers(gs, es)
  }

  ghost predicate TotalsCount(gs: seq<Group>) {
    forall i :: 0 <= i < |gs| ==> gs[i].total == |gs[i].datos| && gs[i].datos != []
  }

  ghost predicate DatosAreMembers(gs: seq<Group>, es: seq<Entry>) {
    forall i :: 0 <= i < |gs| ==> gs[i].datos == Members(es, gs[i].key)
  }

  ghost predicate KeysDistinct(gs: seq<Group>) {
    forall i, j :: 0 <= i < j < |gs| ==> !KeyEq(gs[i].key, gs[j].key)
  }

  /** No group has a key equal to `k`. */
  ghost predicate Ungrouped(gs: seq<Group>, k: Value) {
    forall i :: 0 <= i < |gs| ==> !KeyEq(gs[i].key, k)
  }

  ghost predicate Covers(gs: seq<Group>, es: seq<Entry>) {
    forall k :: Ungrouped(gs, k) ==> Members(es, k) == []
  }

  lemma InsertHit(gs: seq<Group>, e: Entry, i: nat)
    requires i < |gs| && KeyEq(gs[i].key, e.key)
    requires forall j :: 0 <= j < i ==> !KeyEq(gs[j].key, e.key)
    ensures Insert(gs, e) == gs[i := gs[i].(total := gs[i].total + 1, datos := gs[i].datos + [e.resultados])]
    decreases i
  {
    if i > 0 {
      InsertHit(gs[1..], e, i - 1);
    }
  }

  lemma InsertMiss(gs: seq<Group>, e: Entry)
    requires Ungrouped(gs, e.key)
    ensures Insert(gs, e) == gs + [Group(e.key, 1, [e.resultados])]
    decreases |gs|
  {
    if gs != [] {
      InsertMiss(gs[1..], e);
    }
  }

  /** GroupBy builds a grouping of its input. */
  lemma {:induction false} GroupByCorrect(es: seq<Entry>)
    ensures GroupsOf(GroupBy(es), es)
    decreases |es|
  {
    if es != [] {
      var n := |es| - 1;
      GroupByCorrect(es[..n]);
      InsertKeepsGroups(GroupBy(es[..n]), es[..n], es[n], es);
    }
  }

  /** Inserting one more entry extends a grouping of the earlier entries. */
  lemma InsertKeepsGroups(gs: seq<Group>, es: seq<Entry>, e: Entry, es': seq<Entry>)
    requires GroupsOf(gs, es) && es' == es + [e]
    ensures GroupsOf(Insert(gs, e), es')
  {
    if !Ungrouped(gs, e.key) {
      var i :| 0 <= i < |gs| && KeyEq(gs[i].key, e.key);
      var first := FirstHit(gs, e, i);
      InsertHit(gs, e, first);
      HitKeepsGroups(gs, es, e, es', first);
    } else {
      InsertMiss(gs, e);
      MissKeepsGroups(gs, es, e, es');
    }
  }

  /** The first group whose key equals the entry's. */
  lemma FirstHit(gs: seq<Group>, e: Entry, i: nat) returns (first: nat)
    requires i < |gs| && KeyEq(gs[i].key, e.key)
    ensures first <= i && KeyEq(gs[first].key, e.key)
    ensures forall j :: 0 <= j < first ==> !KeyEq(gs[j].key, e.key)
  {
    first := 0;
    while !KeyEq(gs[first].key, e.key)
      invariant first <= i
      invariant forall j :: 0 <= j < first ==> !KeyEq(gs[j].key, e.key)
      decreases i - first
    {
      first := first + 1;
    }
  }

  lemma MembersSnoc(es: seq<Entry>, e: Entry, es': seq<Entry>, k: Value)
    requires es' == es + [e]
    ensures Members(es', k) == Members(es, k) + (if KeyEq(e.key, k) then [e.resultados] else [])
  {
    assert es'[..|es|] == es;
  }

  lemma KeyEqSymmetric(a: Value, b: Value)
    ensures KeyEq(a, b) == KeyEq(b, a)
  {
  }

  lemma KeyEqTransitive(a: Value, b: Value, c: Value)
    ensures KeyEq(a, b) && KeyEq(b, c) ==> KeyEq(a, c)
  {
  }

  lemma HitKeepsGroups(gs: seq<Group>, es: seq<Entry>, e: Entry, es': seq<Entry>, i: nat)
    requires GroupsOf(gs, es) && es' == es + [e]
    requires i < |gs| && KeyEq(gs[i].key, e.key)
    ensures GroupsOf(gs[i := gs[i].(total := gs[i].total + 1, datos := gs[i].datos + [e.resultados])], es')
  {
    var gs' := gs[i := gs[i].(total := gs[i].total + 1, datos := gs[i].datos + [e.resultados])];
    assert TotalsCount(gs') by {
      forall m | 0 <= m < |gs'| ensures gs'[m].total == |gs'[m].datos| && gs'[m].datos != [] {
        assert m != i ==> gs'[m] == gs[m];
      }
    }
    assert KeysDistinct(gs') by {
      forall a, b | 0 <= a < b < |gs'| ensures !KeyEq(gs'[a].key, gs'[b].key) {
        assert gs'[a].key == gs[a].key && gs'[b].key == gs[b].key;
      }
    }
    assert DatosAreMembers(gs', es') by {
      forall m | 0 <= m < |gs'| ensures gs'[m].datos == Members(es', gs'[m].key) {
        HitDatos(gs, es, e, es', i, m);
      }
    }
    assert Covers(gs', es') by {
      forall k | Ungrouped(gs', k) ensures Members(es', k) == [] {
        HitCovers(gs, es, e, es', i, k);
      }
    }
  }

  lemma HitDatos(gs: seq<Group>, es: seq<Entry>, e: Entry, es': seq<Entry>, i: nat, m: nat)
    requires DatosAreMembers(gs, es) && KeysDistinct(gs) && es' == es + [e]
    requires i < |gs| && KeyEq(gs[i].key, e.key) && m < |gs|
    ensures var gs' := gs[i := gs[i].(total := gs[i].total + 1, datos := gs[i].datos + [e.resultados])];
      gs'[m].datos == Members(es', gs'[m].key)
  {
    MembersSnoc(es, e, es', gs[m].key);
    KeyEqSymmetric(e.key, gs[m].key);
    if m != i {
      KeyEqSymmetric(e.key, gs[i].key);
      KeyEqTransitive(gs[m].key, e.key, gs[i].key);
      KeyEqSymmetric(gs[m].key, gs[i].key);
      assert m < i ==> !KeyEq(gs[m].key, gs[i].key);
      assert i < m ==> !KeyEq(gs[i].key, gs[m].key);
    }
  }

  lemma HitCovers(gs: seq<Group>, es: seq<Entry>, e: Entry, es': seq<Entry>, i: nat, k: Value)
    requires Covers(gs, es) && es' == es + [e]
    requires i < |gs| && KeyEq(gs[i].key, e.key)
    requires Ungrouped(gs[i := gs[i].(total := gs[i].total + 1, datos := gs[i].datos + [e.resultados])], k)
    ensures Members(es', k) == []
  {
    var gs' := gs[i := gs[i].(total := gs[i].total + 1, datos := gs[i].datos + [e.resultados])];
    MembersSnoc(es, e, es', k);
    assert Ungrouped(gs, k) by {
      forall m | 0 <= m < |gs| ensures !KeyEq(gs[m].key, k) {
        assert gs'[m].key == gs[m].key;
      }
    }
    KeyEqTransitive(gs[i].key, e.key, k);
    assert !KeyEq(gs'[i].key, k);
  }

  lemma MissKeepsGroups(gs: seq<Group>, es: seq<Entry>, e: Entry, es': seq<Entry>)
    requires GroupsOf(gs, es) && es' == es + [e]
    requires Ungrouped(gs, e.key)
    ensures GroupsOf(gs + [Group(e.key, 1, [e.resultados])], es')
  {
    var gs' := gs + [Group(e.key, 1, [e.resultados])];
    assert TotalsCount(gs');
    assert KeysDistinct(gs') by {
      forall i, j | 0 <= i < j < |gs'| ensures !KeyEq(gs'[i].key, gs'[j].key) {
        if j == |gs| {
          assert !KeyEq(gs[i].key, e.key);
        }
      }
    }
    assert DatosAreMembers(gs', es') by {
      forall m | 0 <= m < |gs'| ensures gs'[m].datos == Members(es', gs'[m].key) {
        MissDatos(gs, es, e, es', m);
      }
    }
    assert Covers(gs', es') by {
      forall k | Ungrouped(gs', k) ensures Members(es', k) == [] {
        MissCovers(gs, es, e, es', k);
      }
    }
  }

  lemma MissDatos(gs: seq<Group>, es: seq<Entry>, e: Entry, es': seq<Entry>, m: nat)
    requires DatosAreMembers(gs, es) && Covers(gs, es) && es' == es + [e]
    requires Ungrouped(gs, e.key) && m <= |gs|
    ensures var gs' := gs + [Group(e.key, 1, [e.resultados])];
      gs'[m].datos == Members(es', gs'[m].key)
  {
    var gs' := gs + [Group(e.key, 1, [e.resultados])];
    MembersSnoc(es, e, es', gs'[m].key);
    if m < |gs| {
      KeyEqSymmetric(e.key, gs[m].key);
    } else {
      assert Members(es, e.key) == [];
    }
  }

  lemma MissCovers(gs: seq<Group>, es: seq<Entry>, e: Entry, es': seq<Entry>, k: Value)
    requires Covers(gs, es) && es' == es + [e]
    requires Ungrouped(gs + [Group(e.key, 1, [e.resultados])], k)
    ensures Members(es', k) == []
  {
    var gs' := gs + [Group(e.key, 1, [e.resultados])];
    MembersSnoc(es, e, es', k);
    assert !KeyEq(gs'[|gs|].key, k);
    assert Ungrouped(gs, k) by {
      forall m | 0 <= m < |gs| ensures !KeyEq(gs[m].key, k) {
        assert gs'[m].key == gs[m].key;
      }
    }
  }

  /** The resultados of a sequence of entries, in order. */
  function Results(es: seq<Entry>): (r: seq<Record>)
    ensures |r| == |es|
  {
    seq(|es|, i requires 0 <= i < |es| => es[i].resultados)
  }

  /** When every key equals the first, there is a single group: the first
      key, a total of all entries, and all their resultados in order. */
  lemma {:induction false} GroupByUniform(es: seq<Entry>)
    requires es != []
    requires forall i :: 0 <= i < |es| ==> KeyEq(es[0].key, es[i].key)
    ensures GroupBy(es) == [Group(es[0].key, |es|, Results(es))]
    decreases |es|
  {
    var n := |es| - 1;
    assert es[..n][..|es[..n]|] == es[..n];
    if n > 0 {
      GroupByUniform(es[..n]);
      var g := Group(es[0].key, n, Results(es[..n]));
      assert KeyEq(g.key, es[n].key);
      assert Insert([g], es[n]) == [g.(total := n + 1, datos := g.datos + [es[n].resultados])];
      assert Results(es[..n]) + [es[n].resultados] == Results(es);
    } else {
      assert GroupBy(es[..0]) == [];
      assert Results(es) == [es[0].resultados];
    }
  }

  /** The other fields of every row whose `field` cell matches, in input order. */
  function MatchingResults(labels: seq<string>, rows: seq<seq<Value>>, field: string, k: Key): seq<Record>
    requires field in labels && forall row :: row in rows ==> |row| == |labels|
  {
    if rows == [] then []
    else
      var rec := RecordOf(labels, rows[0]);
      (if field in rec && Matches(rec[field], k) then [rec - {field}] else []) + MatchingResults(labels, rows[1..], field, k)
  }

  /** `_get_json_by_field(df, field, value)`: filter, split, group. A field
      that is not a column raises KeyError. An empty selection is kept apart
      as NoMatches. */
  function GetJsonByField(t: Table, field: string, value: Key): Result<seq<Group>>
    requires WellFormed(t) && field != Resultados
  {
    if field !in t.columns then Err(KeyError(field))
    else
      var survivors := FilterRows(t.rows, IndexOf(t.columns, field), value);
      if survivors == [] then Err(NoMatches)
      else Ok(GroupBy(SplitRows(t.columns, survivors, field)))
  }

  /** Under unique labels, a row's cell at the field's column is its key value. */
  lemma KeyAtIndex(labels: seq<string>, values: seq<Value>, field: string)
    requires |labels| == |values| && Distinct(labels) && field in labels
    ensures KeyOf(labels, values, field) == values[IndexOf(labels, field)]
    ensures field in RecordOf(labels, values) && RecordOf(labels, values)[field] == values[IndexOf(labels, field)]
  {
    RecordAt(labels, values, IndexOf(labels, field));
  }

  lemma SplitRowsAppend(labels: seq<string>, a: seq<seq<Value>>, b: seq<seq<Value>>, name: string)
    requires forall row :: row in a + b ==> |row| == |labels|
    ensures SplitRows(labels, a + b, name) == SplitRows(labels, a, name) + SplitRows(labels, b, name)
  {
  }

  lemma ResultsAppend(a: seq<Entry>, b: seq<Entry>)
    ensures Results(a + b) == Results(a) + Results(b)
  {
  }

  /** Splitting the surviving rows gives the other fields of the matching
      rows, and keys that match the requested value. */
  lemma {:induction false} SplitSurvivors(labels: seq<string>, rows: seq<seq<Value>>, field: string, k: Key)
    requires Distinct(labels) && field in labels && forall row :: row in rows ==> |row| == |labels|
    ensures Results(SplitRows(labels, FilterRows(rows, IndexOf(labels, field), k), field))
            == MatchingResults(labels, rows, field, k)
    ensures forall e :: e in SplitRows(labels, FilterRows(rows, IndexOf(labels, field), k), field) ==> Matches(e.key, k)
  {
    var j := IndexOf(labels, field);
    if rows != [] {
      SplitSurvivors(labels, rows[1..], field, k);
      KeyAtIndex(labels, rows[0], field);
      var rest := FilterRows(rows[1..], j, k);
      var head := if Matches(rows[0][j], k) then [rows[0]] else [];
      assert FilterRows(rows, j, k) == head + rest;
      SplitRowsAppend(labels, head, rest, field);
      ResultsAppend(SplitRows(labels, head, field), SplitRows(labels, rest, field));
      var rec := RecordOf(labels, rows[0]);
      assert Results(SplitRows(labels, head, field)) == if field in rec && Matches(rec[field], k) then [rec - {field}] else [];
    }
  }

  /** What a lookup returns: a KeyError exactly when the field is not a
      column; NoMatches exactly when no row matches; otherwise one group
      whose key matches the requested value, whose total is the number of
      matching rows, and whose datos are their other fields in input order. */
  lemma GetJsonByFieldSpec(t: Table, field: string, value: Key)
    requires WellFormed(t) && field != Resultados
    ensures field !in t.columns <==> GetJsonByField(t, field, value) == Err(KeyError(field))
    ensures field in t.columns ==>
      (GetJsonByField(t, field, value) == Err(NoMatches) <==> CountMatching(t.rows, IndexOf(t.columns, field), value) == 0)
    ensures GetJsonByField(t, field, value).Ok? ==>
      var gs := GetJsonByField(t, field, value).value;
      && |gs| == 1
      && Matches(gs[0].key, value)
      && gs[0].total == |gs[0].datos| == CountMatching(t.rows, IndexOf(t.columns, field), value)
      && gs[0].datos == MatchingResults(t.columns, t.rows, field, value)
  {
    if field in t.columns {
      var j := IndexOf(t.columns, field);
      var survivors := FilterRows(t.rows, j, value);
      FilterRowsSound(t.rows, j, value);
      if survivors != [] {
        var es := SplitRows(t.columns, survivors, field);
        SplitSurvivors(t.columns, t.rows, field, value);
        assert es[0] in es;
        forall i | 0 <= i < |es| ensures KeyEq(es[0].key, es[i].key) {
          assert es[i] in es;
        }
        GroupByUniform(es);
      }
    }
  }

  /** With the field a column, a lookup succeeds exactly when some row's
      field matches the requested value. */
  lemma GetJsonByFieldFound(t: Table, field: string, value: Key)
    requires WellFormed(t) && field != Resultados && field in t.columns
    ensures GetJsonByField(t, field, value).Ok? <==>
      exists i :: 0 <= i < |t.rows| && Matches(Rec(t, i)[field], value)
  {
    var j := IndexOf(t.columns, field);
    GetJsonByFieldSpec(t, field, value);
    CountZero(t.rows, j, value);
    forall i | 0 <= i < |t.rows| ensures Rec(t, i)[field] == t.rows[i][j] {
      RowWidth(t, i);
      RecordAt(t.columns, t.rows[i], j);
    }
  }

  /** Every entry of a selection has the row's fields other than `field`. */
  lemma {:induction false} MatchingResultsKeys(labels: seq<string>, rows: seq<seq<Value>>, field: string, k: Key)
    requires field in labels && forall row :: row in rows ==> |row| == |labels|
    ensures forall d :: d in MatchingResults(labels, rows, field, k) ==> d.Keys == (set l | l in labels) - {field}
  {
    if rows != [] {
      MatchingResultsKeys(labels, rows[1..], field, k);
      RecordKeys(labels, rows[0]);
    }
  }

  /** A successful lookup holds one group whose key matches the requested
      value, counting its entries, each with every column except `field`. */
  lemma GetJsonByFieldGroup(t: Table, field: string, value: Key)
    requires WellFormed(t) && field != Resultados
    ensures GetJsonByField(t, field, value).Ok? ==>
      var gs := GetJsonByField(t, field, value).value;
      && |gs| == 1 && Matches(gs[0].key, value) && gs[0].total == |gs[0].datos|
      && forall d :: d in gs[0].datos ==> d.Keys == (set l | l in t.columns) - {field}
  {
    GetJsonByFieldSpec(t, field, value);
    if field in t.columns {
      MatchingResultsKeys(t.columns, t.rows, field, value);
    }
  }
}
