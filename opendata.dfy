/** The feed setup and the lookups of the open-data client: the stops feed
    without its unused columns, the bus feed with `lastUpdate` lifted out of
    `properties`, and one lookup per key field, each with its key coercion.
    The downloads are replaced by the feeds as parsed tables. */
module OpenData {
  import opened Values
  import opened Frames
  import opened Grouping
  import Coercion

  /** The stops feed columns that are never read. */
  const CsvUseless: seq<string> :=
    ["lineas", "codLinea", "codLineaStrSin", "codLineaStr", "observaciones", "avisoSinHorarioEs",
     "avisoSinHorarioEn", "tagsAccesibilidad", "fechaInicioDemanda", "fechaFinDemanda", "linea", "espera"]

  const Properties := "properties"
  const GeometryName := "geometry_name"
  /** The bus feed columns dropped once `lastUpdate` is lifted out. */
  const GeojsonUseless: seq<string> := [Properties, GeometryName]
  const LastUpdate := "lastUpdate"
  const LastUpdateKey := "last_update"

  const UserCodLinea := "userCodLinea"
  const CodParada := "codParada"
  const CodBus := "codBus"
  const CodLinea := "codLinea"

  /** `_setup_csv_dataframe()`: the stops feed read with every column except
      the unused ones. */
  function SetupCsvFrame(feed: Table): (t: Table)
    requires WellFormed(feed)
    ensures WellFormed(t) && |t.rows| == |feed.rows|
    ensures forall l :: l in t.columns <==> l in feed.columns && l !in CsvUseless
    ensures forall i :: 0 <= i < |t.rows| ==> Rec(t, i) == Rec(feed, i) - set l | l in CsvUseless
  {
    ProjectRecords(feed, set l | l in CsvUseless);
    Project(feed, set l | l in CsvUseless)
  }

  /** `x["last_update"]` on one `properties` cell: a KeyError for a dict
      without the key, a TypeError for anything that is not a dict. */
  function LastUpdateOf(x: Value): Result<Value>
  {
    if !x.Obj? then Err(TypeError)
    else if LastUpdateKey in x.fields then Ok(x.fields[LastUpdateKey])
    else Err(KeyError(LastUpdateKey))
  }

  /** `df["properties"].apply(lambda x: x["last_update"])`: the first failing
      cell's error, or every cell's timestamp in order. */
  function LastUpdates(cells: seq<Value>): (r: Result<seq<Value>>)
    ensures r.Ok? <==> forall i :: 0 <= i < |cells| ==> cells[i].Obj? && LastUpdateKey in cells[i].fields
    ensures r.Ok? ==>
      && |r.value| == |cells|
      && forall i :: 0 <= i < |cells| ==> r.value[i] == cells[i].fields[LastUpdateKey]
  {
    if cells == [] then Ok([])
    else match LastUpdateOf(cells[0])
      case Err(e) => Err(e)
      case Ok(v) =>
        match LastUpdates(cells[1..])
        case Err(e) => Err(e)
        case Ok(vs) => Ok([v] + vs)
  }

  /** The cells of column `j`, top to bottom. */
  function Column(t: Table, j: nat): (cells: seq<Value>)
    requires WellFormed(t) && j < |t.columns|
    ensures |cells| == |t.rows|
  {
    seq(|t.rows|, i requires 0 <= i < |t.rows| => RowWidth(t, i); t.rows[i][j])
  }

  /** What `_setup_geojson_dataframe()` makes of the parsed bus feed. */
  function GeojsonReshape(feed: Table): Result<Table>
    requires WellFormed(feed)
  {
    if Properties !in feed.columns then Err(KeyError(Properties))
    else
      match LastUpdates(Column(feed, IndexOf(feed.columns, Properties)))
      case Err(e) => Err(e)
      case Ok(stamps) => Drop(WithColumn(feed, LastUpdate, stamps), GeojsonUseless)
  }

  /** `_setup_geojson_dataframe()`: adds the `lastUpdate` column to the frame
      in place, then drops `properties` and `geometry_name`. */
  method SetupGeojsonFrame(feed: Table) returns (r: Result<Table>)
    requires WellFormed(feed)
    ensures r == GeojsonReshape(feed)
  {
    var df := new Frame(feed);
    if Properties !in df.columns {
      return Err(KeyError(Properties));
    }
    var stamps := LastUpdates(Column(df.Snapshot(), IndexOf(df.columns, Properties)));
    if stamps.Err? {
      return Err(stamps.error);
    }
    df.SetColumn(LastUpdate, stamps.value);
    r := Drop(df.Snapshot(), GeojsonUseless);
  }

  /** The reshape succeeds exactly when both dropped columns exist and every
      `properties` cell is a dict with `last_update`; each record then has
      that timestamp as `lastUpdate` and no `properties` or `geometry_name`,
      every other field unchanged. */
  lemma GeojsonReshapeSpec(feed: Table)
    requires WellFormed(feed)
    ensures Properties !in feed.columns ==> GeojsonReshape(feed) == Err(KeyError(Properties))
    ensures GeojsonReshape(feed).Ok? <==>
      && Properties in feed.columns && GeometryName in feed.columns
      && forall i :: 0 <= i < |feed.rows| ==>
           Rec(feed, i)[Properties].Obj? && LastUpdateKey in Rec(feed, i)[Properties].fields
    ensures GeojsonReshape(feed).Ok? ==>
      var t := GeojsonReshape(feed).value;
      && WellFormed(t) && |t.rows| == |feed.rows|
      && (forall l :: l in t.columns <==> (l in feed.columns || l == LastUpdate) && l != Properties && l != GeometryName)
      && forall i :: 0 <= i < |t.rows| ==>
           Rec(t, i) == (Rec(feed, i) - {Properties, GeometryName})[LastUpdate := Rec(feed, i)[Properties].fields[LastUpdateKey]]
  {
    GeojsonReshapeOk(feed);
    GeojsonReshapeColumns(feed);
    GeojsonReshapeRecords(feed);
  }

  lemma GeojsonReshapeOk(feed: Table)
    requires WellFormed(feed)
    ensures GeojsonReshape(feed).Ok? <==>
      && Properties in feed.columns && GeometryName in feed.columns
      && forall i :: 0 <= i < |feed.rows| ==>
           Rec(feed, i)[Properties].Obj? && LastUpdateKey in Rec(feed, i)[Properties].fields
  {
    if Properties in feed.columns {
      PropertiesColumn(feed);
    }
  }

  lemma GeojsonReshapeColumns(feed: Table)
    requires WellFormed(feed)
    ensures GeojsonReshape(feed).Ok? ==>
      var t := GeojsonReshape(feed).value;
      && WellFormed(t) && |t.rows| == |feed.rows|
      && (forall l :: l in t.columns <==> (l in feed.columns || l == LastUpdate) && l != Properties && l != GeometryName)
  {
  }

  lemma GeojsonReshapeRecords(feed: Table)
    requires WellFormed(feed)
    ensures GeojsonReshape(feed).Ok? ==>
      && Properties in feed.columns
      && forall i :: 0 <= i < |feed.rows| ==>
           && Rec(feed, i)[Properties].Obj? && LastUpdateKey in Rec(feed, i)[Properties].fields
           && |GeojsonReshape(feed).value.rows| == |feed.rows|
           && Rec(GeojsonReshape(feed).value, i)
              == (Rec(feed, i) - {Properties, GeometryName})[LastUpdate := Rec(feed, i)[Properties].fields[LastUpdateKey]]
  {
    if Properties in feed.columns {
      var cells := Column(feed, IndexOf(feed.columns, Properties));
      PropertiesColumn(feed);
      var stamps := LastUpdates(cells);
      if stamps.Ok? && GeometryName in feed.columns {
        ReshapeRows(feed, stamps.value);
        assert GeojsonReshape(feed) == Ok(Project(WithColumn(feed, LastUpdate, stamps.value), {Properties, GeometryName}));
      }
    }
  }

  /** The `properties` column holds each record's `properties` cell. */
  lemma PropertiesColumn(feed: Table)
    requires WellFormed(feed) && Properties in feed.columns
    ensures var cells := Column(feed, IndexOf(feed.columns, Properties));
      forall i :: 0 <= i < |feed.rows| ==> cells[i] == Rec(feed, i)[Properties]
  {
    var j := IndexOf(feed.columns, Properties);
    forall i | 0 <= i < |feed.rows| ensures Column(feed, j)[i] == Rec(feed, i)[Properties] {
      RowWidth(feed, i);
      RecordAt(feed.columns, feed.rows[i], j);
    }
  }

  /** Setting `lastUpdate`, then dropping both unused columns, row by row. */
  lemma ReshapeRows(feed: Table, stamps: seq<Value>)
    requires WellFormed(feed) && |stamps| == |feed.rows|
    ensures var drop := set l | l in GeojsonUseless;
      && drop == {Properties, GeometryName}
      && forall i :: 0 <= i < |feed.rows| ==>
           Rec(Project(WithColumn(feed, LastUpdate, stamps), drop), i) == (Rec(feed, i) - drop)[LastUpdate := stamps[i]]
  {
    var drop := set l | l in GeojsonUseless;
    assert drop == {Properties, GeometryName};
    var w := WithColumn(feed, LastUpdate, stamps);
    ProjectRecords(w, drop);
    forall i | 0 <= i < |feed.rows| ensures Rec(w, i) == Rec(feed, i)[LastUpdate := stamps[i]] {
      WithColumnRecord(feed, LastUpdate, stamps, i);
    }
    forall i | 0 <= i < |feed.rows| ensures (Rec(feed, i) - drop)[LastUpdate := stamps[i]] == Rec(feed, i)[LastUpdate := stamps[i]] - drop {
      KeepOverride(Rec(feed, i), LastUpdate, stamps[i], drop);
    }
  }

  /** A field the reshape neither adds nor drops keeps its column and its cells. */
  lemma ReshapeKeepsField(feed: Table, field: string)
    requires WellFormed(feed) && GeojsonReshape(feed).Ok?
    requires field != Properties && field != GeometryName && field != LastUpdate
    ensures var t := GeojsonReshape(feed).value;
      && WellFormed(t) && |t.rows| == |feed.rows|
      && (field in t.columns <==> field in feed.columns)
      && (field in feed.columns ==> forall i :: 0 <= i < |t.rows| ==> Rec(t, i)[field] == Rec(feed, i)[field])
  {
    GeojsonReshapeSpec(feed);
  }

  /** `get_stop_by_line_code(line_code)`: the stops whose `userCodLinea` is
      the text `line_code`. */
  function StopsByLineCode(stops: Table, lineCode: string): Result<seq<Group>>
    requires WellFormed(stops)
  {
    GetJsonByField(SetupCsvFrame(stops), UserCodLinea, KStr(lineCode))
  }

  /** The fields a stop lookup reports for each stop. */
  ghost function StopFields(stops: Table, key: string): set<string>
  {
    (set l | l in stops.columns) - (set l | l in CsvUseless) - {key}
  }

  /** A line lookup finds something exactly when some stop has that line
      code; it then holds one group keyed by the code, counting its stops,
      each with every kept field except the code. */
  lemma StopsByLineCodeSpec(stops: Table, lineCode: string)
    requires WellFormed(stops)
    ensures UserCodLinea !in stops.columns <==> StopsByLineCode(stops, lineCode) == Err(KeyError(UserCodLinea))
    ensures UserCodLinea in stops.columns ==>
      (StopsByLineCode(stops, lineCode).Ok? <==>
        exists i :: 0 <= i < |stops.rows| && Rec(stops, i)[UserCodLinea] == Str(lineCode))
    ensures StopsByLineCode(stops, lineCode).Ok? ==>
      var gs := StopsByLineCode(stops, lineCode).value;
      && |gs| == 1 && gs[0].key == Str(lineCode) && gs[0].total == |gs[0].datos|
      && forall d :: d in gs[0].datos ==> d.Keys == StopFields(stops, UserCodLinea)
  {
    StopLookupMissing(stops, UserCodLinea, KStr(lineCode));
    if UserCodLinea in stops.columns {
      StopLookupFound(stops, UserCodLinea, KStr(lineCode));
    }
    if StopsByLineCode(stops, lineCode).Ok? {
      StopLookupGroup(stops, UserCodLinea, KStr(lineCode));
    }
  }

  /** A stop lookup raises KeyError exactly when the field is not a column. */
  lemma StopLookupMissing(stops: Table, field: string, k: Key)
    requires WellFormed(stops) && field !in CsvUseless && field != Resultados
    ensures field !in stops.columns <==> GetJsonByField(SetupCsvFrame(stops), field, k) == Err(KeyError(field))
  {
    GetJsonByFieldSpec(SetupCsvFrame(stops), field, k);
  }

  /** A stop lookup finds something exactly when some stop's field matches. */
  lemma StopLookupFound(stops: Table, field: string, k: Key)
    requires WellFormed(stops) && field !in CsvUseless && field != Resultados && field in stops.columns
    ensures GetJsonByField(SetupCsvFrame(stops), field, k).Ok? <==>
      exists i :: 0 <= i < |stops.rows| && Matches(Rec(stops, i)[field], k)
  {
    GetJsonByFieldFound(SetupCsvFrame(stops), field, k);
  }

  /** What a successful stop lookup holds. */
  lemma StopLookupGroup(stops: Table, field: string, k: Key)
    requires WellFormed(stops) && field !in CsvUseless && field != Resultados
    ensures GetJsonByField(SetupCsvFrame(stops), field, k).Ok? ==>
      var gs := GetJsonByField(SetupCsvFrame(stops), field, k).value;
      && |gs| == 1 && Matches(gs[0].key, k) && gs[0].total == |gs[0].datos|
      && forall d :: d in gs[0].datos ==> d.Keys == StopFields(stops, field)
  {
    var t := SetupCsvFrame(stops);
    GetJsonByFieldGroup(t, field, k);
    assert (set l | l in t.columns) == (set l | l in stops.columns) - (set l | l in CsvUseless);
  }

  /** `get_stop_by_stop_code(stop_code)`: `int(stop_code)`, a ValueError for
      text that is not an integer, then the stops with that `codParada`. */
  function StopsByStopCode(stops: Table, stopCode: string): Result<seq<Group>>
    requires WellFormed(stops)
  {
    match Coercion.ParseInt(stopCode)
    case None => Err(ValueError)
    case Some(n) => GetJsonByField(SetupCsvFrame(stops), CodParada, KInt(n))
  }

  /** A stop-code lookup raises ValueError exactly for text `int()` rejects;
      given a number it finds something exactly when some stop has that
      code, and then holds one group whose key equals the number. */
  lemma StopsByStopCodeSpec(stops: Table, stopCode: string)
    requires WellFormed(stops)
    ensures StopsByStopCode(stops, stopCode) == Err(ValueError) <==> Coercion.ParseInt(stopCode).None?
    ensures Coercion.ParseInt(stopCode).Some? && CodParada !in stops.columns ==>
      StopsByStopCode(stops, stopCode) == Err(KeyError(CodParada))
    ensures Coercion.ParseInt(stopCode).Some? && CodParada in stops.columns ==>
      (StopsByStopCode(stops, stopCode).Ok? <==>
        exists i :: 0 <= i < |stops.rows| && Matches(Rec(stops, i)[CodParada], KInt(Coercion.ParseInt(stopCode).value)))
    ensures StopsByStopCode(stops, stopCode).Ok? ==>
      var gs := StopsByStopCode(stops, stopCode).value;
      && |gs| == 1 && Matches(gs[0].key, KInt(Coercion.ParseInt(stopCode).value)) && gs[0].total == |gs[0].datos|
      && forall d :: d in gs[0].datos ==> d.Keys == StopFields(stops, CodParada)
  {
    match Coercion.ParseInt(stopCode)
    case None =>
    case Some(n) =>
      StopLookupMissing(stops, CodParada, KInt(n));
      if CodParada in stops.columns {
        StopLookupFound(stops, CodParada, KInt(n));
      }
      StopLookupGroup(stops, CodParada, KInt(n));
  }

  /** The fields a bus lookup reports for each bus. */
  ghost function BusFields(feed: Table, key: string): set<string>
  {
    ((set l | l in feed.columns) + {LastUpdate}) - {Properties, GeometryName, key}
  }

  /** A lookup on the reshaped bus feed, by a field the reshape keeps. */
  function BusLookup(feed: Table, field: string, k: Key): Result<seq<Group>>
    requires WellFormed(feed) && field != Resultados
  {
    match GeojsonReshape(feed)
    case Err(e) => Err(e)
    case Ok(t) => GeojsonReshapeSpec(feed); GetJsonByField(t, field, k)
  }

  /** A bus lookup by a kept field finds something exactly when the reshape
      succeeds and some bus's field matches; it then holds one group whose
      key matches, counting its buses, each with `lastUpdate`, without
      `properties`, `geometry_name` or the key field. */
  lemma BusLookupSpec(feed: Table, field: string, k: Key)
    requires WellFormed(feed) && field != Resultados
    requires field != Properties && field != GeometryName && field != LastUpdate
    ensures GeojsonReshape(feed).Err? ==> BusLookup(feed, field, k) == Err(GeojsonReshape(feed).error)
    ensures GeojsonReshape(feed).Ok? && field !in feed.columns ==> BusLookup(feed, field, k) == Err(KeyError(field))
    ensures GeojsonReshape(feed).Ok? && field in feed.columns ==>
      (BusLookup(feed, field, k).Ok? <==> exists i :: 0 <= i < |feed.rows| && Matches(Rec(feed, i)[field], k))
    ensures BusLookup(feed, field, k).Ok? ==>
      var gs := BusLookup(feed, field, k).value;
      && |gs| == 1 && Matches(gs[0].key, k) && gs[0].total == |gs[0].datos|
      && forall d :: d in gs[0].datos ==> d.Keys == BusFields(feed, field)
  {
    if GeojsonReshape(feed).Ok? {
      ReshapeKeepsField(feed, field);
      GetJsonByFieldSpec(GeojsonReshape(feed).value, field, k);
      if field in feed.columns {
        BusLookupFound(feed, field, k);
      }
      BusLookupGroup(feed, field, k);
    }
  }

  lemma BusLookupFound(feed: Table, field: string, k: Key)
    requires WellFormed(feed) && field != Resultados && GeojsonReshape(feed).Ok? && field in feed.columns
    requires field != Properties && field != GeometryName && field != LastUpdate
    ensures BusLookup(feed, field, k).Ok? <==> exists i :: 0 <= i < |feed.rows| && Matches(Rec(feed, i)[field], k)
  {
    var t := GeojsonReshape(feed).value;
    ReshapeKeepsField(feed, field);
    GetJsonByFieldFound(t, field, k);
  }

  lemma BusLookupGroup(feed: Table, field: string, k: Key)
    requires WellFormed(feed) && field != Resultados && GeojsonReshape(feed).Ok?
    ensures BusLookup(feed, field, k).Ok? ==>
      var gs := BusLookup(feed, field, k).value;
      && |gs| == 1 && Matches(gs[0].key, k) && gs[0].total == |gs[0].datos|
      && forall d :: d in gs[0].datos ==> d.Keys == BusFields(feed, field)
  {
    var t := GeojsonReshape(feed).value;
    GeojsonReshapeColumns(feed);
    GetJsonByFieldGroup(t, field, k);
    assert (set l | l in t.columns) - {field} == BusFields(feed, field);
  }

  /** `get_location_by_bus_code(bus_code)` as written: the text is compared
      with the `codBus` column as it is. */
  function LocationByBusCodeAsWritten(feed: Table, busCode: string): Result<seq<Group>>
    requires WellFormed(feed)
  {
    BusLookup(feed, CodBus, KStr(busCode))
  }

  /** `get_location_by_line_code(line_code)` as written: the text is compared
      with the `codLinea` column as it is. */
  function LocationByLineCodeAsWritten(feed: Table, lineCode: string): Result<seq<Group>>
    requires WellFormed(feed)
  {
    BusLookup(feed, CodLinea, KStr(lineCode))
  }

  /** A text key never equals a number, so a lookup by text on a column of
      numbers finds nothing, whatever the text. */
  lemma TextKeyOnNumbersFindsNothing(feed: Table, field: string, code: string)
    requires WellFormed(feed) && field != Resultados
    requires field != Properties && field != GeometryName && field != LastUpdate
    requires forall i :: 0 <= i < |feed.rows| && field in Rec(feed, i) ==> Numeric(Rec(feed, i)[field])
    ensures !BusLookup(feed, field, KStr(code)).Ok?
  {
    BusLookupSpec(feed, field, KStr(code));
  }

  /** With numeric bus codes, the as-written bus lookup never finds a bus. */
  lemma BusCodeAsWrittenFindsNothing(feed: Table, busCode: string)
    requires WellFormed(feed)
    requires forall i :: 0 <= i < |feed.rows| && CodBus in Rec(feed, i) ==> Numeric(Rec(feed, i)[CodBus])
    ensures !LocationByBusCodeAsWritten(feed, busCode).Ok?
  {
    TextKeyOnNumbersFindsNothing(feed, CodBus, busCode);
  }

  /** With numeric line codes, the as-written line lookup never finds a bus. */
  lemma LineCodeAsWrittenFindsNothing(feed: Table, lineCode: string)
    requires WellFormed(feed)
    requires forall i :: 0 <= i < |feed.rows| && CodLinea in Rec(feed, i) ==> Numeric(Rec(feed, i)[CodLinea])
    ensures !LocationByLineCodeAsWritten(feed, lineCode).Ok?
  {
    TextKeyOnNumbersFindsNothing(feed, CodLinea, lineCode);
  }

  /** The bus lookup with the integer coercion of the bus-code route. */
  function LocationByBusCode(feed: Table, busCode: int): Result<seq<Group>>
    requires WellFormed(feed)
  {
    BusLookup(feed, CodBus, KInt(busCode))
  }

  /** The line lookup with the float coercion of the line-code route. */
  function LocationByLineCode(feed: Table, lineCode: real): Result<seq<Group>>
    requires WellFormed(feed)
  {
    BusLookup(feed, CodLinea, KReal(lineCode))
  }

  /** Once the key is coerced, a bus with that numeric code is found:
      the lookup succeeds exactly when some bus's `codBus` equals it. */
  lemma LocationByBusCodeSpec(feed: Table, busCode: int)
    requires WellFormed(feed) && GeojsonReshape(feed).Ok? && CodBus in feed.columns
    ensures LocationByBusCode(feed, busCode).Ok? <==>
      exists i :: 0 <= i < |feed.rows| && Numeric(Rec(feed, i)[CodBus]) && AsReal(Rec(feed, i)[CodBus]) == busCode as real
    ensures LocationByBusCode(feed, busCode).Ok? ==>
      var gs := LocationByBusCode(feed, busCode).value;
      && |gs| == 1 && Matches(gs[0].key, KInt(busCode)) && gs[0].total == |gs[0].datos|
      && forall d :: d in gs[0].datos ==> d.Keys == BusFields(feed, CodBus)
  {
    BusLookupSpec(feed, CodBus, KInt(busCode));
  }

  /** Once the key is coerced, a bus on that numeric line is found: the
      lookup succeeds exactly when some bus's `codLinea` equals it. */
  lemma LocationByLineCodeSpec(feed: Table, lineCode: real)
    requires WellFormed(feed) && GeojsonReshape(feed).Ok? && CodLinea in feed.columns
    ensures LocationByLineCode(feed, lineCode).Ok? <==>
      exists i :: 0 <= i < |feed.rows| && Numeric(Rec(feed, i)[CodLinea]) && AsReal(Rec(feed, i)[CodLinea]) == lineCode
    ensures LocationByLineCode(feed, lineCode).Ok? ==>
      var gs := LocationByLineCode(feed, lineCode).value;
      && |gs| == 1 && Matches(gs[0].key, KReal(lineCode)) && gs[0].total == |gs[0].datos|
      && forall d :: d in gs[0].datos ==> d.Keys == BusFields(feed, CodLinea)
  {
    BusLookupSpec(feed, CodLinea, KReal(lineCode));
  }
}
