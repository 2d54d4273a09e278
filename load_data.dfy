/** The one-off ingestion script: check that every expected CSV header is
    there, rename and keep the eleven table columns, then drop, recreate and
    fill `metro_metrics`. Reading the file is left to the caller (the frame
    is an input); the database is a `Store` object whose table map the
    script rewrites. */
module LoadData {
  import opened PyValues

  const TableName: string := "metro_metrics"

  /** `rename_map.keys()`: the CSV headers the script expects, in the
      dict's insertion order. */
  const SourceColumns: seq<string> := [
    "Census Tract FIPS code", "County", "State", "Year",
    "Inclusive Growth Score", "Economy", "Place", "Community",
    "Net Occupancy Score", "Affordable Housing Score", "Internet Access Score"
  ]

  /** `rename_map.values()`: the table column each header becomes, in the
      same order. */
  const TargetColumns: seq<string> := [
    "census_tract_fips", "county", "state", "year",
    "inclusive_growth_score", "economy_score", "place_score", "community_score",
    "net_occupancy_score", "affordable_housing_score", "internet_access_score"
  ]

  /** The columns of `CREATE TABLE metro_metrics`, in declaration order. */
  const Schema: seq<string> := [
    "census_tract_fips", "county", "state", "year",
    "inclusive_growth_score", "economy_score", "place_score", "community_score",
    "net_occupancy_score", "affordable_housing_score", "internet_access_score"
  ]

  predicate Distinct(s: seq<string>)
  {
    forall i, j :: 0 <= i < j < |s| ==> s[i] != s[j]
  }

  /** `rename_map` pairs eleven different headers with eleven different
      columns. */
  lemma RenameMapDistinct()
    ensures |SourceColumns| == |TargetColumns| == 11
    ensures Distinct(SourceColumns) && Distinct(TargetColumns)
  {
  }

  /** The script renames to exactly the columns the table is created with. */
  lemma TargetsAreSchema()
    ensures TargetColumns == Schema
  {
  }

  /** The position of `x` in `s`. */
  function IndexIn(s: seq<string>, x: string): (k: nat)
    requires x in s
    ensures k < |s| && s[k] == x
    ensures forall j :: 0 <= j < k ==> s[j] != x
  {
    if s[0] == x then 0 else 1 + IndexIn(s[1..], x)
  }

  // ---------------------------------------------------------------------
  // The frame `pd.read_csv` returns

  /** A data frame: its column labels and its rows. */
  datatype Frame = Frame(columns: seq<string>, rows: seq<seq<Value>>)

  /** Every row is as wide as the header. */
  predicate Rectangular(f: Frame)
  {
    forall r :: r in f.rows ==> |r| == |f.columns|
  }

  /** What `read_csv` hands over: a rectangular frame whose labels differ
      (it gives repeated headers distinct labels). */
  predicate WellFormed(f: Frame)
  {
    Distinct(f.columns) && Rectangular(f)
  }

  // ---------------------------------------------------------------------
  // The safety check

  /** `[col for col in keys if col not in columns]`. */
  function Missing(keys: seq<string>, columns: seq<string>): (m: seq<string>)
    ensures forall c :: c in m <==> c in keys && c !in columns
    ensures IsSubsequence(m, keys)
  {
    if keys == [] then []
    else
      var rest := Missing(keys[1..], columns);
      if keys[0] in columns then rest
      else
        assert ([keys[0]] + rest)[1..] == rest;
        [keys[0]] + rest
  }

  /** `a` is `b` with some elements left out and the rest kept in order. */
  predicate IsSubsequence(a: seq<string>, b: seq<string>)
    decreases |b|
  {
    if a == [] then true
    else if b == [] then false
    else if a[0] == b[0] then IsSubsequence(a[1..], b[1..])
    else IsSubsequence(a, b[1..])
  }

  /** The headers the script reports, all of them at once, in `rename_map`
      order. */
  function MissingColumns(columns: seq<string>): (m: seq<string>)
    ensures m == [] <==> forall c :: c in SourceColumns ==> c in columns
    ensures forall c :: c in m <==> c in SourceColumns && c !in columns
    ensures IsSubsequence(m, SourceColumns)
  {
    var m := Missing(SourceColumns, columns);
    assert m != [] ==> m[0] in m;
    m
  }

  // ---------------------------------------------------------------------
  // `df.rename(columns=rename_map)` and `df[list(rename_map.values())]`

  /** The new label of one column under `rename_map`: its value when the
      column is a key, the column itself otherwise. */
  function Renamed(column: string): (newLabel: string)
    ensures column !in SourceColumns ==> newLabel == column
    ensures column in SourceColumns ==> newLabel in TargetColumns
  {
    if column in SourceColumns then TargetColumns[IndexIn(SourceColumns, column)] else column
  }

  /** Each key is renamed to the value at its own position. */
  lemma RenamedKey(k: nat)
    requires k < |SourceColumns|
    ensures Renamed(SourceColumns[k]) == TargetColumns[k]
  {
    RenameMapDistinct();
  }

  /** `df.rename(columns=rename_map)`: labels change, rows do not. */
  function Rename(f: Frame): (g: Frame)
    ensures |g.columns| == |f.columns| && g.rows == f.rows
    ensures forall i :: 0 <= i < |f.columns| ==> g.columns[i] == Renamed(f.columns[i])
    ensures Rectangular(f) ==> Rectangular(g)
  {
    Frame(seq(|f.columns|, i requires 0 <= i < |f.columns| => Renamed(f.columns[i])), f.rows)
  }

  /** The positions of the columns labelled `wanted`, left to right. */
  function IndicesOf(columns: seq<string>, wanted: string): (ix: seq<nat>)
    ensures forall k :: 0 <= k < |ix| ==> ix[k] < |columns| && columns[ix[k]] == wanted
    ensures wanted !in columns ==> ix == []
  {
    if columns == [] then []
    else
      var n := |columns| - 1;
      var prefix := columns[..n];
      var before := IndicesOf(prefix, wanted);
      var last: seq<nat> := if columns[n] == wanted then [n] else [];
      assert forall k :: 0 <= k < |before| ==> (before + last)[k] == before[k];
      before + last
  }

  /** `df[wanted]` misses no column labelled `wanted`. */
  lemma {:induction false} IndicesComplete(columns: seq<string>, wanted: string, i: nat)
    requires i < |columns| && columns[i] == wanted
    ensures i in IndicesOf(columns, wanted)
  {
    var n := |columns| - 1;
    if i < n {
      IndicesComplete(columns[..n], wanted, i);
    }
  }

  /** Strictly increasing positions. */
  predicate Ascending(ix: seq<nat>)
  {
    forall k, l :: 0 <= k < l < |ix| ==> ix[k] < ix[l]
  }

  /** ... and takes them left to right, each once. */
  lemma {:induction false} IndicesAscending(columns: seq<string>, wanted: string)
    ensures Ascending(IndicesOf(columns, wanted))
  {
    if columns != [] {
      var n := |columns| - 1;
      var before := IndicesOf(columns[..n], wanted);
      IndicesAscending(columns[..n], wanted);
      var last: seq<nat> := if columns[n] == wanted then [n] else [];
      var ix := IndicesOf(columns, wanted);
      assert ix == before + last;
      forall k, l | 0 <= k < l < |ix| ensures ix[k] < ix[l] {
        if l < |before| {
          assert ix[k] == before[k] && ix[l] == before[l];
        } else {
          assert ix[k] == before[k] < n == ix[l];
        }
      }
    }
  }

  /** A label carried by exactly one column is found at that column only. */
  lemma {:induction false} SingleIndex(columns: seq<string>, wanted: string, p: nat)
    requires p < |columns| && columns[p] == wanted
    requires forall i :: 0 <= i < |columns| && columns[i] == wanted ==> i == p
    ensures IndicesOf(columns, wanted) == [p]
  {
    var n := |columns| - 1;
    var prefix := columns[..n];
    if p == n {
      assert wanted !in prefix;
      assert IndicesOf(columns, wanted) == [] + [n];
    } else {
      SingleIndex(prefix, wanted, p);
      assert IndicesOf(columns, wanted) == [p] + [];
    }
  }

  /** The positions `df[wanted]` takes: for each wanted label in turn, every
      column carrying it. */
  function Selection(columns: seq<string>, wanted: seq<string>): (sel: seq<nat>)
    ensures forall k :: 0 <= k < |sel| ==> sel[k] < |columns| && columns[sel[k]] in wanted
  {
    if wanted == [] then []
    else
      var first := IndicesOf(columns, wanted[0]);
      var rest := Selection(columns, wanted[1..]);
      assert forall k :: 0 <= k < |rest| ==> columns[rest[k]] in wanted by {
        assert forall x :: x in wanted[1..] ==> x in wanted;
      }
      first + rest
  }

  function Pick<T>(row: seq<T>, sel: seq<nat>): (picked: seq<T>)
    requires forall k :: 0 <= k < |sel| ==> sel[k] < |row|
    ensures |picked| == |sel|
    ensures forall k :: 0 <= k < |sel| ==> picked[k] == row[sel[k]]
  {
    seq(|sel|, k requires 0 <= k < |sel| => row[sel[k]])
  }

  /** When every wanted label is carried by exactly one column, `df[wanted]`
      has exactly the wanted labels, in the order asked for. */
  lemma {:induction false} SelectionOfUnique(columns: seq<string>, wanted: seq<string>)
    requires forall k :: 0 <= k < |wanted| ==> |IndicesOf(columns, wanted[k])| == 1
    ensures Pick(columns, Selection(columns, wanted)) == wanted
  {
    if wanted != [] {
      assert forall k :: 0 <= k < |wanted[1..]| ==> wanted[1..][k] == wanted[k + 1];
      SelectionOfUnique(columns, wanted[1..]);
      var first := IndicesOf(columns, wanted[0]);
      var rest := Selection(columns, wanted[1..]);
      assert Selection(columns, wanted) == first + rest;
      PickAppend(columns, first, rest);
      assert Pick(columns, first) == [wanted[0]];
      assert wanted == [wanted[0]] + wanted[1..];
    }
  }

  /** Picking by a concatenation of positions concatenates the picks. */
  lemma PickAppend<T>(row: seq<T>, a: seq<nat>, b: seq<nat>)
    requires forall k :: 0 <= k < |a| ==> a[k] < |row|
    requires forall k :: 0 <= k < |b| ==> b[k] < |row|
    ensures Pick(row, a + b) == Pick(row, a) + Pick(row, b)
  {
    var ab := a + b;
    assert forall k :: 0 <= k < |ab| ==> ab[k] < |row|;
    assert forall k :: 0 <= k < |ab| ==> Pick(row, ab)[k] == (Pick(row, a) + Pick(row, b))[k];
  }

  /** `df[wanted]`: the selected columns of every row. */
  function Project(f: Frame, wanted: seq<string>): (g: Frame)
    requires Rectangular(f)
    requires forall k :: 0 <= k < |wanted| ==> wanted[k] in f.columns
    ensures |g.rows| == |f.rows|
    ensures g.columns == Pick(f.columns, Selection(f.columns, wanted))
    ensures forall i :: 0 <= i < |f.rows| ==> g.rows[i] == Pick(f.rows[i], Selection(f.columns, wanted))
    ensures Rectangular(g)
  {
    var sel := Selection(f.columns, wanted);
    Frame(Pick(f.columns, sel),
          seq(|f.rows|, i requires 0 <= i < |f.rows| => Pick(f.rows[i], sel)))
  }

  /** The frame the script writes: renamed, then cut down to the
      `rename_map` values. */
  function Prepared(csv: Frame): (g: Frame)
    requires Rectangular(csv) && MissingColumns(csv.columns) == []
    ensures |g.rows| == |csv.rows| && Rectangular(g)
    ensures forall k :: 0 <= k < |g.columns| ==> g.columns[k] in TargetColumns
  {
    TargetsPresent(csv);
    Project(Rename(csv), TargetColumns)
  }

  /** Once every `rename_map` key is a CSV header, every `rename_map` value
      labels a column of the renamed frame, so `df[list(...)]` finds them
      all. */
  lemma TargetsPresent(csv: Frame)
    requires MissingColumns(csv.columns) == []
    ensures forall k :: 0 <= k < |TargetColumns| ==> TargetColumns[k] in Rename(csv).columns
  {
    forall k | 0 <= k < |TargetColumns| ensures TargetColumns[k] in Rename(csv).columns {
      var p := IndexIn(csv.columns, SourceColumns[k]);
      RenamedKey(k);
      assert Rename(csv).columns[p] == TargetColumns[k];
    }
  }

  /** No CSV column that keeps its name already carries one of the new
      labels (if one did, the renamed frame would hold that label twice). */
  predicate NoCollision(columns: seq<string>)
  {
    forall i :: 0 <= i < |columns| && columns[i] !in SourceColumns ==> columns[i] !in TargetColumns
  }

  /** After the check has passed, renaming and projecting leave exactly the
      eleven `rename_map` values as columns, in map order, and keep every
      row. */
  lemma PreparedColumns(csv: Frame)
    requires WellFormed(csv)
    requires MissingColumns(csv.columns) == []
    requires NoCollision(csv.columns)
    ensures Prepared(csv).columns == TargetColumns
    ensures |Prepared(csv).rows| == |csv.rows|
  {
    var renamed := Rename(csv).columns;
    forall k | 0 <= k < |TargetColumns| ensures |IndicesOf(renamed, TargetColumns[k])| == 1 {
      RenamedOnce(csv, k);
    }
    SelectionOfUnique(renamed, TargetColumns);
  }

  /** After the rename, the `k`-th `rename_map` value labels exactly one
      column: the one that carried the `k`-th key. */
  lemma RenamedOnce(csv: Frame, k: nat)
    requires WellFormed(csv)
    requires MissingColumns(csv.columns) == []
    requires NoCollision(csv.columns)
    requires k < |TargetColumns|
    ensures IndicesOf(Rename(csv).columns, TargetColumns[k]) == [IndexIn(csv.columns, SourceColumns[k])]
  {
    RenameMapDistinct();
    var renamed := Rename(csv).columns;
    var p := IndexIn(csv.columns, SourceColumns[k]);
    RenamedKey(k);
    forall i | 0 <= i < |renamed| && renamed[i] == TargetColumns[k] ensures i == p {
      var c := csv.columns[i];
      if c in SourceColumns {
        var j := IndexIn(SourceColumns, c);
        RenamedKey(j);
        assert TargetColumns[j] == TargetColumns[k];
        assert c == SourceColumns[k];
      }
    }
    SingleIndex(renamed, TargetColumns[k], p);
  }

  // ---------------------------------------------------------------------
  // The database file

  /** A table: its declared columns and its rows, each in declaration
      order. */
  datatype Table = Table(schema: seq<string>, rows: seq<seq<Value>>)

  /** What `main` ends with: the `ValueError` of the check, the exception
      `to_sql` raises when the frame does not fit the table, or the count
      it prints. */
  datatype Outcome = MissingColumnsError(missing: seq<string>) | InsertFailed | Loaded(count: nat)

  /** The SQLite file the script writes: its tables by name, how many
      connections have been opened on it and whether the last is open. */
  class Store {
    var tables: map<string, Table>
    var connections: nat
    var connectionOpen: bool

    constructor (tables: map<string, Table>)
      ensures this.tables == tables && connections == 0 && !connectionOpen
    {
      this.tables := tables;
      connections := 0;
      connectionOpen := false;
    }

    /** `sqlite3.connect`. */
    method Connect()
      modifies this
      ensures tables == old(tables) && connections == old(connections) + 1 && connectionOpen
    {
      connections := connections + 1;
      connectionOpen := true;
    }

    /** `DROP TABLE IF EXISTS name`. */
    method DropTableIfExists(name: string)
      requires connectionOpen
      modifies this`tables
      ensures tables == old(tables) - {name}
    {
      tables := tables - {name};
    }

    /** `CREATE TABLE name (...)`: fails when the table exists. */
    method CreateTable(name: string, schema: seq<string>) returns (created: bool)
      requires connectionOpen
      modifies this`tables
      ensures created <==> name !in old(tables)
      ensures tables == if created then old(tables)[name := Table(schema, [])] else old(tables)
    {
      created := name !in tables;
      if created {
        tables := tables[name := Table(schema, [])];
      }
    }

    /** `df.to_sql(name, conn, if_exists="append", index=False)` into an
        existing table: the rows go in when the frame's columns are the
        table's; otherwise the insert raises and nothing is added. */
    method AppendFrame(name: string, f: Frame) returns (appended: bool)
      requires connectionOpen && name in tables
      modifies this`tables
      ensures appended <==> f.columns == old(tables)[name].schema
      ensures tables == if appended
                        then old(tables)[name := Table(f.columns, old(tables)[name].rows + f.rows)]
                        else old(tables)
    {
      var t := tables[name];
      appended := f.columns == t.schema;
      if appended {
        tables := tables[name := Table(t.schema, t.rows + f.rows)];
      }
    }

    /** `conn.commit()` then `conn.close()`. */
    method CommitAndClose()
      modifies this`connectionOpen
      ensures !connectionOpen
    {
      connectionOpen := false;
    }

    /** The database half of `main`: connect, drop and recreate
        `metro_metrics`, append the frame, commit and close. The table ends
        up holding the frame's rows when they fit it and nothing otherwise;
        when the append raises, the connection is never closed. No other
        table changes. */
    method Reload(df: Frame) returns (appended: bool)
      modifies this
      ensures appended <==> df.columns == Schema
      ensures tables == old(tables)[TableName := Table(Schema, if appended then df.rows else [])]
      ensures connections == old(connections) + 1
      ensures connectionOpen <==> !appended
    {
      ghost var before := tables;
      Connect();
      DropTableIfExists(TableName);
      var created := CreateTable(TableName, Schema);
      ReplaceEntry(before, TableName, Table(Schema, []));
      appended := AppendFrame(TableName, df);
      if appended {
        assert [] + df.rows == df.rows;
        OverwriteEntry(before, TableName, Table(Schema, []), Table(Schema, df.rows));
        CommitAndClose();
      }
    }

    /** `main`: the check comes first and touches nothing; then the table is
        dropped, recreated and filled, so that it ends up holding exactly
        the prepared rows whatever it held before. When the insert fails the
        exception escapes with the connection still open, after the drop and
        the create: the table is left empty. */
    method Ingest(csv: Frame) returns (outcome: Outcome)
      requires WellFormed(csv)
      modifies this
      ensures outcome == IngestOutcome(csv)
      ensures tables == IngestedTables(old(tables), csv)
      ensures outcome.MissingColumnsError? ==>
                connections == old(connections) && connectionOpen == old(connectionOpen)
      ensures !outcome.MissingColumnsError? ==> connections == old(connections) + 1
      ensures outcome.Loaded? ==> !connectionOpen
      ensures outcome.InsertFailed? ==> connectionOpen
    {
      var missing := MissingColumns(csv.columns);
      if missing != [] {
        return MissingColumnsError(missing);
      }

      var df := Rename(csv);
      TargetsPresent(csv);
      df := Project(df, TargetColumns);
      assert df == Prepared(csv);

      ghost var before := tables;
      var appended := Reload(df);
      LoadedTables(before, csv, if appended then df.rows else []);
      if !appended {
        return InsertFailed;
      }
      outcome := Loaded(|df.rows|);
    }
  }

  /** Dropping an entry and then adding it back is replacing it. */
  lemma ReplaceEntry<K, V>(m: map<K, V>, k: K, v: V)
    ensures (m - {k})[k := v] == m[k := v]
  {
    assert ((m - {k})[k := v]).Keys == m[k := v].Keys;
  }

  /** Writing an entry twice keeps the second value. */
  lemma OverwriteEntry<K, V>(m: map<K, V>, k: K, v: V, w: V)
    ensures m[k := v][k := w] == m[k := w]
  {
    assert m[k := v][k := w].Keys == m[k := w].Keys;
  }

  /** After a clean check, `metro_metrics` is the only table the script
      changes, and it ends up holding `rows`. */
  lemma LoadedTables(before: map<string, Table>, csv: Frame, rows: seq<seq<Value>>)
    requires WellFormed(csv) && MissingColumns(csv.columns) == []
    requires rows == LoadedRows(csv)
    ensures IngestedTables(before, csv) == before[TableName := Table(Schema, rows)]
  {
  }

  /** What `main` reports for a given CSV. */
  function IngestOutcome(csv: Frame): (o: Outcome)
    requires WellFormed(csv)
    ensures o.MissingColumnsError? <==> MissingColumns(csv.columns) != []
    ensures o.MissingColumnsError? ==> o.missing == MissingColumns(csv.columns)
    ensures o.Loaded? ==> o.count == |csv.rows|
  {
    var missing := MissingColumns(csv.columns);
    if missing != [] then MissingColumnsError(missing)
    else if Prepared(csv).columns == Schema then Loaded(|Prepared(csv).rows|)
    else InsertFailed
  }

  /** The tables after `main` has run on a CSV. */
  function IngestedTables(tables: map<string, Table>, csv: Frame): (after: map<string, Table>)
    requires WellFormed(csv)
    ensures MissingColumns(csv.columns) != [] ==> after == tables
    ensures MissingColumns(csv.columns) == [] ==> TableName in after && after[TableName].schema == Schema
    ensures forall name :: name in after && name != TableName ==> name in tables
    ensures forall name :: name in tables && name != TableName ==> name in after && after[name] == tables[name]
  {
    if MissingColumns(csv.columns) != [] then tables
    else
      var loaded := LoadedRows(csv);
      tables[TableName := Table(Schema, loaded)]
  }

  /** The rows `metro_metrics` holds after the drop, the create and the
      append: the prepared rows when the frame fits the table, none when
      the append raised. */
  function LoadedRows(csv: Frame): seq<seq<Value>>
    requires Rectangular(csv) && MissingColumns(csv.columns) == []
  {
    var df := Prepared(csv);
    if df.columns == Schema then df.rows else []
  }

  /** A clean CSV is always loaded: the frame fits the table the script
      creates, and the count printed is the number of rows inserted, which
      is the number of CSV rows. */
  lemma CleanCsvLoads(tables: map<string, Table>, csv: Frame)
    requires WellFormed(csv)
    requires MissingColumns(csv.columns) == [] && NoCollision(csv.columns)
    ensures IngestOutcome(csv) == Loaded(|csv.rows|)
    ensures IngestedTables(tables, csv)[TableName].rows == Prepared(csv).rows
    ensures |IngestedTables(tables, csv)[TableName].rows| == |csv.rows|
  {
    PreparedColumns(csv);
    TargetsAreSchema();
  }

  /** The load replaces instead of accumulating: what `metro_metrics` holds
      afterwards does not depend on what it held before. */
  lemma IngestReplaces(before1: map<string, Table>, before2: map<string, Table>, csv: Frame)
    requires WellFormed(csv)
    requires MissingColumns(csv.columns) == []
    ensures IngestedTables(before1, csv)[TableName] == IngestedTables(before2, csv)[TableName]
  {
  }

  /** Running the script twice on the same CSV gives the same tables as
      running it once. */
  lemma IngestIdempotent(tables: map<string, Table>, csv: Frame)
    requires WellFormed(csv)
    ensures IngestedTables(IngestedTables(tables, csv), csv) == IngestedTables(tables, csv)
  {
    if MissingColumns(csv.columns) == [] {
      var t := Table(Schema, LoadedRows(csv));
      LoadedTables(tables, csv, t.rows);
      LoadedTables(tables[TableName := t], csv, t.rows);
      OverwriteEntry(tables, TableName, t, t);
    }
  }

  /** Two runs of `main` on one store: same report, and the second leaves
      the tables as the first left them. */
  method IngestTwice(store: Store, csv: Frame) returns (first: Outcome, second: Outcome)
    requires WellFormed(csv)
    modifies store
    ensures first == second
    ensures store.tables == IngestedTables(old(store.tables), csv)
  {
    first := store.Ingest(csv);
    second := store.Ingest(csv);
    IngestIdempotent(old(store.tables), csv);
  }
}
