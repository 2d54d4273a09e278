# Metro metrics API core, modelled in Dafny

The repository serves census-tract "inclusive growth" metrics for metro
counties from one SQLite table, `metro_metrics`. A one-off script loads that
table from a cleaned CSV. A small query layer runs parameterised SELECTs. A
handful of read-only HTTP handlers shape the rows they get back. SQLite does
the selecting, sorting and averaging. This model covers the logic the
repository itself contributes:

- `values.dfy` (module `PyValues`): the values the sqlite3 driver hands to
  Python (None, int, float, str), rows as dicts, and Python's `int()` on a
  column value (truncation toward zero on floats).
- `database.dfy` (module `Database`): parameter normalisation, the copy of
  `sqlite3.Row` objects into dicts, and `query_db`. `QueryDb` is a method
  that opens a `Connection` object, runs one statement through it and
  returns it; the connection's `isOpen` field shows it closed on every
  path. The module also covers `fetch_all` and `fetch_one`. The SQLite engine is a function parameter: it either returns
  the fetched rows or raises.
- `app.dfy` (module `App`): the handlers. `fetch_all` is a function
  parameter; each handler is the shaping of the fetched rows into a 200
  body, a 404, or a 500 when reading a row raises (`KeyError`, or `int()`
  on None or on text). The handlers cover:
  - the distinct counties;
  - the distinct years, dropping None;
  - the per-county summary;
  - the tract time series;
  - `metrics_for_county`. It is a method because it grows its SQL text and
    its parameter list step by step. Its contract proves the two stay
    aligned.
- `load_data.dfy` (module `LoadData`): the ingestion script. The steps are:
  - the missing-column check over the eleven `rename_map` headers;
  - the rename, and the projection onto the `rename_map` values (pandas
    `df[list]` semantics: every column carrying a wanted label, in the
    order asked for; every wanted label must be present, since pandas
    raises KeyError otherwise, and after a passed check they all are);
  - drop, create and append on a `Store` object whose `tables` map the
    script rewrites.

`GET /metrics/county/{county_name}` answers 404 ("No data for this
county/year.") whenever the query returns no rows, including for a known
county whose year filter matches nothing (src/backend/app.py:115-116). The
repository's test accepts either 404 or 200 for that case
(tests/test_app.py:60-63); the model follows the code.

## Model

| member | source | states |
|---|---|---|
| PyValues.Truncate | src/backend/app.py:45 | `int()` of a float truncates toward zero: the result lies within one of the input, on the zero side |
| PyValues.IntOf | src/backend/app.py:45 | `int(v)` succeeds exactly on INTEGER and REAL values, giving the integer itself or the truncated float |
| PyValues.TruncateMonotone | src/backend/app.py:45 | truncation never reverses the order of two numbers |
| Database.NormalizeParams | src/backend/database.py:39-45 | None stays None and is the only input giving None; a dict, list or tuple comes back unchanged; any other value v (never None, which is `PNone`) becomes the 1-tuple (v,); the result is never a bare value |
| Database.NormalizeIdempotent | src/backend/database.py:39-45 | normalising twice is normalising once |
| Database.RowToDict | src/backend/database.py:63 | `dict(row)` has a key for every column name and no other keys; each key maps to the value of the first column with that name |
| Database.CopyRows | src/backend/database.py:62-63 | one dict per fetched row, in fetch order, each the dict of its row |
| Database.BindingFor | src/backend/database.py:55-60 | the statement runs without parameters exactly when normalisation yields None, otherwise with the normalised parameters |
| Database.QueryResult | src/backend/database.py:52-65 | `query_db` raises exactly when the engine raises, with the engine's error; otherwise it returns as many dicts as rows were fetched |
| Database.Connection.constructor | src/backend/database.py:8-14 | a new connection is open, on the given engine, with nothing executed |
| Database.Connection.Execute | src/backend/database.py:57-60 | executing records exactly one statement with its binding and returns the engine's outcome for it |
| Database.Connection.Close | src/backend/database.py:64-65 | closing leaves the connection closed and its statement record unchanged |
| Database.QueryDb | src/backend/database.py:52-65 | one statement is run, unbound exactly when the normalised params are None. The connection is closed afterwards, whether or not the engine raised. The result is the engine's error, or the rows copied into dicts in order |
| Database.FetchAll | src/backend/database.py:68-72 | `fetch_all` returns exactly what `query_db` returns |
| Database.FetchOne | src/backend/database.py:79-80 | `fetch_one` fails exactly when `query_db` fails, with the same error; otherwise it gives None exactly when there are no rows, and the first row otherwise |
| App.ListCounties | src/backend/app.py:37-38 | never a 404; succeeds exactly when every row has a `county` key, giving one value per row, in row order, the row's own `county`; otherwise the KeyError for `county` |
| App.ListYears | src/backend/app.py:44-45 | never a 404; succeeds exactly when every row has a `year` that is None or numeric. The result has one entry per non-None year value, in row order: entry k is `int()` of the k-th non-None year of the rows (the plain filter `NonNullYears`) |
| App.ListYearsAtLeast | src/backend/app.py:45 | when every numeric year of the rows is at least x, every year returned is at least `int(x)` |
| App.ListYearsAppend | src/backend/app.py:45 | the comprehension works row by row in order: the years of `a + b` are those of `a` followed by those of `b`, and the first unreadable row decides the failure |
| App.ListYearsSorted | src/backend/app.py:44-45 | when the rows arrive in ascending year order (`ORDER BY year`), the years returned are sorted |
| App.IntOfIsTruncation | src/backend/app.py:45 | `int()` of a numeric year is the truncation of its numeric value |
| App.YearsOf | src/backend/app.py:75 | `[int(r["year"]) for r in rows]` succeeds exactly when every row has a convertible year, giving one year per row, position by position |
| App.SummaryByCounty | src/backend/app.py:69-77 | 404 with "County not found or no data." exactly when no row came back. Otherwise a 200 exactly when every year converts, with the county echoed, `years[i]` equal to `int(rows[i]["year"])`, as many years as metrics, and the rows as the metrics |
| App.SummaryYearsIncrease | src/backend/app.py:66-77 | with one INTEGER year per group in ascending order, the summary succeeds and its years strictly increase |
| App.PlaceholdersAppend | src/backend/app.py:102-111 | the placeholders of a concatenation are those of its parts added up |
| App.UnfilteredText | src/backend/app.py:102-111 | the base text followed by the ordering has one placeholder, no year clause, starts with the base text and ends with the ordering |
| App.FilteredText | src/backend/app.py:102-111 | the base text followed by the year clause and the ordering has two placeholders, the year clause right after the base text, and ends with the ordering |
| App.BuildCountyQuery | src/backend/app.py:88-111 | `params[0]` is the county. There are two params exactly when a year is given, and then `params[1]` is the year. The `?` count of the SQL equals `len(params)`. The SQL contains ` AND year = ?` exactly when a year is given, starts with the base statement and ends with ` ORDER BY year, census_tract_fips;` |
| App.ShapeCountyMetrics | src/backend/app.py:115-123 | 404 with "No data for this county/year." exactly when no row came back; otherwise the county and year echoed, `count == len(rows)` and the rows unchanged; never a 500 |
| App.MetricsForCounty | src/backend/app.py:88-123 | the response is the shaping of exactly the rows `fetch_all` returns for the statement and `tuple(params)` it sent. The county comes first and the year second when given. There are as many placeholders as parameters. The year clause is present exactly when a year is given, and the statement ends with the ordering |
| App.MetricsForTract | src/backend/app.py:148-156 | 404 with "No data for this census tract." exactly when no row came back; otherwise the tract id echoed and the rows unchanged; never a 500 |
| LoadData.RenameMapDistinct | src/backend/load_data.py:14-30 | `rename_map` pairs eleven distinct headers with eleven distinct columns |
| LoadData.TargetsAreSchema | src/backend/load_data.py:14-30 | the `rename_map` values, in order, are the columns of `CREATE TABLE metro_metrics` |
| LoadData.Missing | src/backend/load_data.py:33 | the comprehension keeps exactly the keys absent from the columns, in key order |
| LoadData.MissingColumns | src/backend/load_data.py:33-35 | the check passes exactly when every `rename_map` header is present; otherwise it lists every absent header, and only those, in `rename_map` order |
| LoadData.Renamed | src/backend/load_data.py:38 | a `rename_map` key is relabelled with a `rename_map` value; any other column keeps its label |
| LoadData.RenamedKey | src/backend/load_data.py:14-30 | the k-th key is relabelled with the k-th value |
| LoadData.Rename | src/backend/load_data.py:38 | renaming relabels each column in place and keeps every row |
| LoadData.IndicesOf | src/backend/load_data.py:39 | selecting one label takes only columns carrying that label |
| LoadData.IndicesComplete | src/backend/load_data.py:39 | selecting one label misses no column carrying it |
| LoadData.IndicesAscending | src/backend/load_data.py:39 | selecting one label takes its columns left to right, each once |
| LoadData.SingleIndex | src/backend/load_data.py:39 | a label carried by one column selects that column alone |
| LoadData.SelectionOfUnique | src/backend/load_data.py:39 | when each wanted label is carried by exactly one column, the selection has exactly the wanted labels, in the order asked for |
| LoadData.Selection | src/backend/load_data.py:39 | the positions `df[wanted]` takes are columns of the frame, each carrying one of the wanted labels |
| LoadData.PickAppend | src/backend/load_data.py:39 | selecting by a concatenation of positions concatenates the selections |
| LoadData.Project | src/backend/load_data.py:39 | with every wanted label present (pandas raises KeyError otherwise), the projection keeps every row, cut to the selected positions, and stays rectangular |
| LoadData.TargetsPresent | src/backend/load_data.py:33-39 | after a passed check, every `rename_map` value labels a column of the renamed frame, so the projection finds them all |
| LoadData.Prepared | src/backend/load_data.py:38-39 | after a passed check, the renamed and projected frame keeps every CSV row, stays rectangular, and has only `rename_map` values as columns |
| LoadData.PreparedColumns | src/backend/load_data.py:38-39 | after a passed check, rename and projection leave exactly the eleven `rename_map` values as columns, in map order, and keep the row count |
| LoadData.RenamedOnce | src/backend/load_data.py:38-39 | after a passed check, each `rename_map` value labels exactly one column, the one that carried its key |
| LoadData.Store.Connect | src/backend/load_data.py:42-43 | connecting opens one more connection and changes no table |
| LoadData.Store.DropTableIfExists | src/backend/load_data.py:47 | the named table is gone and every other table is unchanged |
| LoadData.Store.CreateTable | src/backend/load_data.py:49-65 | an empty table with the given columns is added exactly when none of that name exists |
| LoadData.Store.AppendFrame | src/backend/load_data.py:68 | the frame's rows are appended exactly when its columns are the table's; otherwise nothing changes |
| LoadData.Store.CommitAndClose | src/backend/load_data.py:70-71 | the connection ends closed |
| LoadData.Store.Reload | src/backend/load_data.py:42-71 | `metro_metrics` ends up holding the frame's rows when the frame fits the table, and no rows otherwise, whatever it held before. No other table changes. One connection is opened, and it is closed exactly when the append succeeded |
| LoadData.Store.Ingest | src/backend/load_data.py:33-72 | the outcome and the new tables are those of `IngestOutcome` and `IngestedTables`. A failed check opens no connection and changes no table. Otherwise exactly one connection is opened, and it is left open only when the insert raised |
| LoadData.IngestOutcome | src/backend/load_data.py:33-72 | `main` raises the missing-column error exactly when a header is missing, listing all of them; the reported count is the number of CSV rows |
| LoadData.IngestedTables | src/backend/load_data.py:33-68 | a failed check leaves every table as it was; a passed one leaves `metro_metrics` with the table schema and no other table changed |
| LoadData.LoadedTables | src/backend/load_data.py:47-68 | after a passed check the tables are the old ones with `metro_metrics` replaced |
| LoadData.CleanCsvLoads | src/backend/load_data.py:38-72 | a clean CSV always loads. `metro_metrics` then holds exactly the prepared rows, and the printed count equals both the rows inserted and the CSV rows |
| LoadData.IngestReplaces | src/backend/load_data.py:47-68 | what `metro_metrics` holds after a load does not depend on what it held before |
| LoadData.IngestIdempotent | src/backend/load_data.py:47-68 | loading the same CSV twice leaves the same tables as loading it once |
| LoadData.IngestTwice | src/backend/load_data.py:47-72 | two runs of the script on one store report the same outcome, and the second leaves the tables as the first did |

## Left out

- SQLite itself is not modelled. That covers DISTINCT, ORDER BY, WHERE matching, GROUP BY and AVG, and the text of the statements other than the one `metrics_for_county` builds. `fetch_all` and the engine are function parameters; the ordering they promise appears only as a hypothesis (`App.ListYearsSorted`, `App.SummaryYearsIncrease`).
- App.MetricsForCounty: the `fetch_all` parameter always returns rows. A database error raised inside it, which FastAPI turns into a 500, is modelled only at the query layer (`Database.QueryDb`).
- BLOB columns are not modelled: `Value` has no case for the `bytes` sqlite3 returns for them. No column of `metro_metrics` is declared BLOB.
- PyValues.Truncate: a float is a Dafny `real`, so infinite and NaN floats are not modelled; `int()` of an infinite or NaN REAL `year` would raise in Python (a 500), and the model has no such value.
- Averaged scores are floats computed by SQLite; the model carries them as opaque `Real` values.
- The `/health` route, src/backend/main.py and src/backend/config.py (constant responses, settings and path resolution) are not part of this model. The same holds for the `get_db` dependency (src/backend/database.py:17-28), the CORS middleware, and FastAPI's 422 rejection of a non-integer `year`.
- The Streamlit frontend is not part of this model.
- App.ListCounties: `response_model=List[str]` validation of the returned values is not modelled. A None county would fail validation as a 500; the model returns the values as they are.
- PyValues.IntOf: a TEXT value is treated as `int()` failing. SQLite hands text back only when it could not read the value as a number, so `int()` of numeric text is not modelled.
- Database.Params: a scalar parameter is one of the column value kinds (int, float, str); other Python objects passed as a lone parameter are not modelled.
- Database.RowToDict: the case-insensitive name lookup of `sqlite3.Row` is not modelled; names are matched exactly.
- The 64-bit limit on integers bound as SQL parameters is not modelled.
- `sqlite3.connect` failures are not modelled: the connection always opens. The same goes for the `get_connection` settings (path, `row_factory`).
- LoadData.Store.AppendFrame: pandas `to_sql(if_exists="append")` inserts by column name. The model accepts a frame only when its columns equal the table's, in order, and treats every other frame as raising. After a passed check this is the frame the script builds (`LoadData.PreparedColumns`). The model does not cover a CSV that already carries one of the new labels under a header outside `rename_map`, since the projection then yields a repeated label.
- `pd.read_csv` and the CSV file are not modelled: the frame is an input, with distinct labels (pandas de-duplicates repeated headers) and rows as wide as the header. Column types and values are not converted.
- Transactions are not modelled: `commit` and `close` are one step. The final `print` is represented by the count in `Loaded`.
