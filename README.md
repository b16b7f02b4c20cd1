# RoomTrackr open-data lookups in Dafny

RoomTrackr serves Málaga's public bus data. Its client module `app/requests/opendata.py` does three things:

- it downloads two feeds: the bus stops as CSV and the live bus positions as GeoJSON;
- it reshapes each feed into a pandas dataframe;
- it answers lookups by one key field: the line or stop code of a stop, or the bus or line code of a bus.

Every lookup has the same shape:

1. keep the rows whose key field equals the requested value (`df[df[field] == value]`);
2. split each row into its key and a `resultados` dict of its other fields (`_to_dict`);
3. group by the key into envelopes `{field: key, total: count, datos: [resultados, …]}`.

This project models that pipeline on values and proves what it computes.

- `values.dfy` (module `Values`) defines the data.
  - Cells are strings, ints, floats (as reals), missing values, nested dicts and lists.
  - A dataframe is a `Table` of unique column labels and rectangular rows. `Rec(t, i)` is row `i` seen as a dict.
  - Three errors are modelled: a `KeyError` for a missing label or dict key, a `TypeError` for subscripting a non-dict, and a `ValueError` for `int()` of a non-number.
  - `Matches` is pandas' elementwise `==` against a scalar: int and float compare by value, and a string equals only itself. `KeyEq` is the key equality the group-by uses: Python's `==` on numbers and strings, structural on other cells (see Left out).
- `frames.dfy` (module `Frames`) holds the dataframe operations the setup uses:
  - `Project`: reading with a column filter.
  - `WithColumn`: `df[name] = values`. The class `Frame` does this assignment in place (`SetColumn`).
  - `Drop`: `df.drop(labels, axis=1)`, which raises KeyError for a missing label.
- `grouping.dfy` (module `Grouping`) holds the lookup pipeline:
  - `_to_dict` as the loop method `ToDict`;
  - the row filter;
  - a general group-by whose correctness is stated as an invariant (`GroupsOf`);
  - `_get_json_by_field` as `GetJsonByField`.
- `coercion.dfy` (module `Coercion`) models Python's `int(text)` and `str(n)` on decimal integers. The stop-code lookup applies `int()` to its argument.
- `opendata.dfy` (module `OpenData`) holds the two feed setups and the four lookups.
  - The GeoJSON setup is a method that builds a `Frame` and updates it in place. It is proved equal to the function `GeojsonReshape`.
  - The bus lookups appear twice: once as written, and once with the coercion their HTTP routes apply (see Findings).

The downloads, `read_csv`/`read_json`, `to_json`/`json.loads` and the HTTP routers are replaced by the feeds as already-parsed tables and by the grouped values.

## Model

| member | source | states |
|---|---|---|
| Grouping.ToDict | app/requests/opendata.py:55-63 | The result has exactly the keys `name` and `"resultados"`. `name` maps to the row's cell under that label, or `""` when the row has none. `"resultados"` maps to the dict of every other label of the row, with a later label winning. It never contains `name`. When `name` is not `"resultados"`, the two entries are exactly `SplitRow`'s key and resultados, the per-row split the lookup pipeline uses. |
| Grouping.SplitRow | app/requests/opendata.py:55-63 | The pure split of one row, `{name: key, "resultados": rest}`. `ToDict`'s contract proves the loop computes it. |
| Grouping.SplitRows | app/requests/opendata.py:69 | One split entry per row, in row order. Its contents are stated via `ToDict` and `GetJsonByFieldSpec`. |
| Grouping.FilterRows | app/requests/opendata.py:67 | The filter keeps only rows of its input. `FilterRowsSound` proves exactly the matching rows survive. |
| Grouping.FilterRowsSound | app/requests/opendata.py:67 | Every surviving row matches the value, every matching row survives, and the number of survivors is the number of matches. |
| Grouping.CountZero | app/requests/opendata.py:67 | No row matches exactly when the match count is zero. |
| Grouping.GroupBy | app/requests/opendata.py:70-71 | The group-by into `{key, total, datos}` groups. `GroupByCorrect` and `GroupByUniform` state what it computes. |
| Grouping.GroupByCorrect | app/requests/opendata.py:70-71 | The group-by yields a grouping of its input. Each group's `total` is the length of its `datos`, which is never empty. Its `datos` are the `resultados` of exactly the entries whose key equals the group key, in input order. No two groups have equal keys, and every entry falls in some group. |
| Grouping.GroupByUniform | app/requests/opendata.py:69-71 | When all keys equal the first, there is exactly one group: the first key, a total of all entries, and all their `resultados` in order. |
| Grouping.GetJsonByField | app/requests/opendata.py:66-73 | The lookup itself: KeyError for a missing field, then filter, split and group. `GetJsonByFieldSpec`, `GetJsonByFieldFound` and `GetJsonByFieldGroup` state its contract. |
| Grouping.GetJsonByFieldSpec | app/requests/opendata.py:66-73 | A field that is not a column raises KeyError naming it. When it is a column, the selection is empty exactly when no row matches. Otherwise there is one group: its key matches the value, its `total` equals the number of matching rows and the length of `datos`, and `datos` are those rows without the field, in row order. |
| Grouping.GetJsonByFieldFound | app/requests/opendata.py:66-73 | When the field is a column, the lookup yields groups exactly when some row's field matches the value. |
| Grouping.GetJsonByFieldGroup | app/requests/opendata.py:66-73 | A successful lookup holds one group whose key matches. Its total is its number of entries, and each entry has exactly the table's columns except the key field. |
| Grouping.MatchingResultsKeys | app/requests/opendata.py:69 | Each selected entry has as keys exactly the row's labels minus the key field. |
| Frames.Project | app/requests/opendata.py:50-51 | Reading with a column filter keeps a well-formed table with the same number of rows, whose columns are exactly the kept ones. |
| Frames.ProjectRecords | app/requests/opendata.py:50-51 | Each row of the projection, as a dict, is the original row's dict minus the dropped labels. |
| Frames.KeepRecord | app/requests/opendata.py:50-51 | Keeping the cells under the kept labels yields exactly the row's dict minus the dropped labels. |
| OpenData.SetupCsvFrame | app/requests/opendata.py:46-52 | The stops table keeps every row. Its columns are exactly the feed's columns outside the twelve unused ones. Each stop's dict is the feed's dict minus those twelve fields. |
| Frames.WithColumn | app/requests/opendata.py:94 | After the column assignment, the table is well formed with the same rows, and its columns are the old ones plus `name`. |
| Frames.WithColumnRecord | app/requests/opendata.py:94 | After the column assignment, each row's dict is the old dict with `name` set to that row's new value. An existing column is overwritten, not duplicated. |
| Frames.Frame.SetColumn | app/requests/opendata.py:94 | The in-place assignment leaves the frame holding exactly the table `WithColumn` computes from its old contents. |
| Frames.Drop | app/requests/opendata.py:95 | Dropping fails exactly when some label is not a column. The KeyError then names such a label. Otherwise the result is the projection without those labels. |
| OpenData.LastUpdateOf | app/requests/opendata.py:94 | `x["last_update"]` on one cell: TypeError for a non-dict, KeyError for a dict without the key. `LastUpdates` states the column-wide result. |
| OpenData.LastUpdates | app/requests/opendata.py:94 | The per-cell `x["last_update"]` succeeds exactly when every cell is a dict holding `last_update`. It then returns one timestamp per row, each the `last_update` of that row's cell. |
| OpenData.SetupGeojsonFrame | app/requests/opendata.py:90-97 | The in-place setup returns exactly `GeojsonReshape(feed)`, the functional reshape. |
| OpenData.GeojsonReshape | app/requests/opendata.py:90-97 | The reshape as a function of the feed. `GeojsonReshapeSpec` states its contract. |
| OpenData.GeojsonReshapeSpec | app/requests/opendata.py:90-97 | A missing `properties` column raises KeyError. The reshape succeeds exactly when `properties` and `geometry_name` are both columns and every `properties` cell is a dict with `last_update`. Each bus's dict is then the feed dict without `properties` and `geometry_name`, with `lastUpdate` set to that timestamp. The columns are the feed's, plus `lastUpdate`, minus the two dropped ones. |
| OpenData.ReshapeKeepsField | app/requests/opendata.py:94-95 | A field other than `properties`, `geometry_name` and `lastUpdate` keeps its column and every cell through the reshape. |
| OpenData.StopsByLineCode | app/requests/opendata.py:76-80 | The line-code lookup on the stops table. `StopsByLineCodeSpec` states its contract. |
| OpenData.StopsByLineCodeSpec | app/requests/opendata.py:76-80 | Without a `userCodLinea` column the lookup raises KeyError. Otherwise it finds stops exactly when some stop's `userCodLinea` is the given text. It then holds one group keyed by that text, whose total counts its stops. Each stop carries every kept field but `userCodLinea`. |
| OpenData.StopsByStopCode | app/requests/opendata.py:83-87 | The stop-code lookup: `int()` of the text, then the lookup on `codParada`. `StopsByStopCodeSpec` states its contract. |
| OpenData.StopsByStopCodeSpec | app/requests/opendata.py:83-87 | The lookup raises ValueError exactly when `int()` rejects the text. Given an integer and no `codParada` column, it raises KeyError naming `codParada`. Given an integer and a `codParada` column, it finds stops exactly when some stop's `codParada` equals that integer. It then holds one group whose key equals it, whose total counts its stops. Each stop carries every kept field but `codParada`. |
| Coercion.ParseInt | app/requests/opendata.py:87 | `int(text)` on ASCII text: ValueError (`None`) unless the text is surrounding whitespace, an optional sign and a digit run. `ParseIntRoundTrip` and `ParseIntAccepts` state its contract. |
| Coercion.StripBounds | app/requests/opendata.py:87 | The whitespace `int()` ignores: the kept text is a slice with whitespace on either side of it and none at its ends. |
| Coercion.ParseIntRoundTrip | app/requests/opendata.py:87 | `int(str(n)) == n` for every integer `n`. |
| Coercion.ParseIntAccepts | app/requests/opendata.py:87 | A text `int()` accepts contains a digit and only whitespace, digits, underscores and signs. Anything else is a ValueError. |
| OpenData.BusLookup | app/requests/opendata.py:104-115 | A lookup on the reshaped bus feed, passing a reshape error through. `BusLookupSpec` states its contract. |
| OpenData.BusLookupSpec | app/requests/opendata.py:104-115 | A bus lookup passes any reshape error through. After a successful reshape, a key field that is not a column raises KeyError naming it. Otherwise it finds buses exactly when some bus's field matches. It then holds one group whose key matches, with a total that counts its buses. Each bus has `lastUpdate` and every other feed field except `properties`, `geometry_name` and the key. |
| OpenData.LocationByBusCodeAsWritten | app/requests/opendata.py:104-108 | The bus-code lookup as written, with the text key. `BusCodeAsWrittenFindsNothing` states what it misses. |
| OpenData.LocationByLineCodeAsWritten | app/requests/opendata.py:111-115 | The line-code lookup as written, with the text key. `LineCodeAsWrittenFindsNothing` states what it misses. |
| OpenData.BusCodeAsWrittenFindsNothing | app/requests/opendata.py:104-108 | As written, the text bus code is compared with `codBus` as it is. When every `codBus` cell is a number, the lookup never succeeds, whatever the text. |
| OpenData.LineCodeAsWrittenFindsNothing | app/requests/opendata.py:111-115 | As written, the text line code is compared with `codLinea` as it is. When every `codLinea` cell is a number, the lookup never succeeds, whatever the text. |
| OpenData.TextKeyOnNumbersFindsNothing | app/requests/opendata.py:104-115 | A text key never selects a row of a column whose cells are all numbers. |
| OpenData.LocationByBusCode | app/requests/opendata.py:104-108 | The bus-code lookup with an integer key. `LocationByBusCodeSpec` states its contract. |
| OpenData.LocationByLineCode | app/requests/opendata.py:111-115 | The line-code lookup with a float key. `LocationByLineCodeSpec` states its contract. |
| OpenData.LocationByBusCodeSpec | app/requests/opendata.py:104-108 | With the bus code coerced to an integer, the lookup finds buses exactly when some bus's numeric `codBus` equals it. It then holds one matching group whose total counts its buses, each without `properties`, `geometry_name` or `codBus`. |
| OpenData.LocationByLineCodeSpec | app/requests/opendata.py:111-115 | With the line code coerced to a float, the lookup finds buses exactly when some bus's numeric `codLinea` equals it. It then holds one matching group whose total counts its buses, each without `properties`, `geometry_name` or `codLinea`. |

## Left out

- The downloads (`requests.get`, headers, its exception handlers), `.env` loading and the AEMET forecast call are not modelled. The feeds enter as parsed tables.
- `pd.read_csv` and `pd.read_json` parsing, and the `to_json`/`json.loads` round trip at the end of `_get_json_by_field`, are not modelled. Cells arrive with their parsed types, and the groups are returned as values.
- The HTTP routers and the `utils.utils` helpers they import (haversine, nearby search) are not part of this model.
- Floats are Dafny reals. The precision lost converting large ints to float64 in pandas comparisons is not modelled.
- Coercion.ParseInt: models `int()` on ASCII text only. It strips space and tab through carriage return, as `int()` does for ASCII text. Python also accepts Unicode digits and whitespace, and for non-ASCII text it also strips `\x1c`-`\x1f`.
- Coercion.ParseIntRoundTrip: states `int(str(n)) == n` for every integer. Python 3.11 and later refuse conversions of more than 4300 digits by default, which is not modelled.
- Grouping.GetJsonByFieldSpec: an empty selection is reported as a distinct `NoMatches` outcome. It is not claimed to equal the `[]` pandas may produce (or the error it may raise) when grouping an empty frame.
- Grouping.GetJsonByFieldSpec: requires the key field not to be `"resultados"`. With that name, `_to_dict` would overwrite the key with the dict of other fields, and the group-by on a dict column would raise TypeError.
- Grouping.GetJsonByFieldSpec: a key field named `"total"` or `"datos"` collides with the aggregate columns. pandas then leaves the key out of the envelope; the model still reports a keyed group. None of the four lookups uses such a field.
- Grouping.GroupBy: pandas' group-by drops missing (NaN) keys and raises on dict keys, while the model groups `Missing` keys together and compares dict keys structurally. After the filter a key always matches a string or number, so the four lookups never reach either case.
- Grouping.SplitRows: `apply(axis=1)` builds each row as a Series. When all of a frame's columns are numeric, pandas makes that Series float, turning int cells and keys into floats. The model keeps each cell's own type.
- Grouping.GroupBy: groups come in order of first appearance, where pandas sorts them. After the filter at most one group exists, so the order never shows.
- Grouping.ToDict: the dicts are maps, so the key order of the produced JSON objects is not modelled.
- Values.WellFormed: duplicate column labels are excluded. `read_csv` and `read_json` never produce them.
- Grouping.GetJsonByFieldSpec: `total` uses pandas `count`, which skips missing values. The `resultados` cells are never missing, so it is modelled as the length.

## Findings

| source | as written | input that shows it | evidently intended | confidence | as-written member | corrected member |
|---|---|---|---|---|---|---|
| app/requests/opendata.py:104-108 | `get_location_by_bus_code` compares the numeric `codBus` column with the caller's string unchanged | a feed whose `codBus` cells are all integers and the bus code `"123"`: `codBus == "123"` is false on every row, so no bus is ever found | compare with `int(bus_code)`, as the route in `app/routers/bus_locations.py:45-50` does | not executed; medium (depends on the feed's numeric types) | OpenData.BusCodeAsWrittenFindsNothing | OpenData.LocationByBusCodeSpec |
| app/requests/opendata.py:111-115 | `get_location_by_line_code` compares the numeric `codLinea` with a string | a feed whose `codLinea` cells are all numbers and the line code `"1"` | compare with `float(line_code)`, as the route in `app/routers/bus_locations.py:37-42` does | not executed; medium | OpenData.LineCodeAsWrittenFindsNothing | OpenData.LocationByLineCodeSpec |
