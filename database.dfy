/** The query layer: parameter normalisation, one connection per query that
    is closed on every exit path, and the copy of driver rows into dicts.
    The SQLite engine itself is a parameter (`Engine`): what a statement
    fetches is its business, not this layer's. */
module Database {
  import opened PyValues

  /** The Python value a caller passes as `params`. */
  datatype Params =
    | PNone                                // None
    | PDict(named: map<string, Value>)     // dict: named parameters
    | PList(items: seq<Value>)             // list: positional parameters
    | PTuple(items: seq<Value>)            // tuple: positional parameters
    | PScalar(v: Scalar)                   // any other single value

  /** A single value other than None: None itself is `PNone`. */
  type Scalar = v: Value | !v.Null? witness Int(0)

  /** `_normalize_params`: None stays None, a dict or a list or a tuple is
      passed through untouched, and a lone value becomes a 1-tuple. */
  function NormalizeParams(p: Params): (r: Params)
    ensures r.PNone? <==> p.PNone?
    ensures !r.PScalar?
    ensures !p.PScalar? ==> r == p
    ensures p.PScalar? ==> r == PTuple([p.v])
  {
    match p
    case PNone => PNone
    case PDict(_) => p
    case PList(_) => p
    case PTuple(_) => p
    case PScalar(v) => PTuple([v])
  }

  /** Normalising is idempotent: its result is never a bare value, and
      everything that is not a bare value is left alone. */
  lemma NormalizeIdempotent(p: Params)
    ensures NormalizeParams(NormalizeParams(p)) == NormalizeParams(p)
  {
  }

  /** How `cursor.execute` was called: `execute(query)` or
      `execute(query, params)`. */
  datatype Binding = Unbound | BoundTo(params: Params)

  datatype Statement = Statement(query: string, binding: Binding)

  /** One column of a `sqlite3.Row`: its name in the cursor description and
      its value. */
  datatype Cell = Cell(name: string, value: Value)

  type SqlRow = seq<Cell>

  /** What the engine does with one `execute` followed by `fetchall`:
      either the fetched rows, or the exception it raises. */
  datatype ExecOutcome = Fetched(rows: seq<SqlRow>) | Raised(error: string)

  type Engine = (string, Binding) -> ExecOutcome

  /** `dict(row)` for a `sqlite3.Row`: one key per column name; when two
      columns share a name, the lookup by name finds the first of them. */
  function RowToDict(cells: SqlRow): (d: Row)
    ensures forall i :: 0 <= i < |cells| ==> cells[i].name in d
    ensures forall k :: k in d ==> exists i :: 0 <= i < |cells| && cells[i].name == k
    ensures forall i :: 0 <= i < |cells| && FirstNamed(cells, i) ==> d[cells[i].name] == cells[i].value
  {
    if cells == [] then map[]
    else
      var rest := RowToDict(cells[1..]);
      assert forall i :: 1 <= i < |cells| && FirstNamed(cells, i) ==> FirstNamed(cells[1..], i - 1);
      rest[cells[0].name := cells[0].value]
  }

  /** Column `i` is the first column of the row with its name. */
  predicate FirstNamed(cells: SqlRow, i: int)
    requires 0 <= i < |cells|
  {
    forall j :: 0 <= j < i ==> cells[j].name != cells[i].name
  }

  /** `[dict(r) for r in rows]`: one dict per fetched row, in fetch order. */
  function CopyRows(rows: seq<SqlRow>): (dicts: seq<Row>)
    ensures |dicts| == |rows|
    ensures forall i :: 0 <= i < |rows| ==> dicts[i] == RowToDict(rows[i])
  {
    if rows == [] then [] else [RowToDict(rows[0])] + CopyRows(rows[1..])
  }

  /** The binding `query_db` uses: none exactly when normalisation yields
      None, the normalised parameters otherwise. */
  function BindingFor(params: Params): (b: Binding)
    ensures b.Unbound? <==> params.PNone?
    ensures b.BoundTo? ==> b.params == NormalizeParams(params)
  {
    var norm := NormalizeParams(params);
    if norm.PNone? then Unbound else BoundTo(norm)
  }

  /** What `query_db(query, params)` returns, or the exception it lets
      escape. */
  function QueryResult(engine: Engine, query: string, params: Params): (r: Result<seq<Row>, string>)
    ensures engine(query, BindingFor(params)).Raised? <==> r.Failure?
    ensures r.Failure? ==> r.error == engine(query, BindingFor(params)).error
    ensures r.Success? ==> |r.value| == |engine(query, BindingFor(params)).rows|
  {
    match engine(query, BindingFor(params))
    case Raised(e) => Failure(e)
    case Fetched(rows) => Success(CopyRows(rows))
  }

  /** A connection opened by `get_connection`. The cursor is folded into
      it; `executed` records the statements run through it. */
  class Connection {
    const engine: Engine
    var isOpen: bool
    var executed: seq<Statement>

    constructor (engine: Engine)
      ensures this.engine == engine && isOpen && executed == []
    {
      this.engine := engine;
      isOpen := true;
      executed := [];
    }

    method Execute(query: string, binding: Binding) returns (outcome: ExecOutcome)
      requires isOpen
      modifies this
      ensures isOpen && executed == old(executed) + [Statement(query, binding)]
      ensures outcome == engine(query, binding)
    {
      executed := executed + [Statement(query, binding)];
      outcome := engine(query, binding);
    }

    method Close()
      modifies this
      ensures !isOpen && executed == old(executed)
    {
      isOpen := false;
    }
  }

  /** `query_db`: open a connection, run exactly one statement (without
      parameters exactly when normalisation gives None), copy every fetched
      row into a dict, and close the connection whether or not the engine
      raised. */
  method QueryDb(engine: Engine, query: string, params: Params)
    returns (result: Result<seq<Row>, string>, conn: Connection)
    ensures !conn.isOpen
    ensures conn.engine == engine
    ensures NormalizeParams(params).PNone? ==> conn.executed == [Statement(query, Unbound)]
    ensures !NormalizeParams(params).PNone? ==>
              conn.executed == [Statement(query, BoundTo(NormalizeParams(params)))]
    ensures result == QueryResult(engine, query, params)
    ensures result.Failure? <==> engine(query, BindingFor(params)).Raised?
    ensures result.Success? ==>
              var fetched := engine(query, BindingFor(params)).rows;
              |result.value| == |fetched| &&
              forall i :: 0 <= i < |fetched| ==> result.value[i] == RowToDict(fetched[i])
  {
    conn := new Connection(engine);
    var norm := NormalizeParams(params);
    var outcome;
    if norm.PNone? {
      outcome := conn.Execute(query, Unbound);
    } else {
      outcome := conn.Execute(query, BoundTo(norm));
    }
    match outcome {
      case Raised(e) =>
        result := Failure(e);
      case Fetched(rows) =>
        result := Success(CopyRows(rows));
    }
    // the `finally` clause: runs on the raising path as well
    conn.Close();
  }

  /** `fetch_all`: exactly what `query_db` returns. */
  method FetchAll(engine: Engine, query: string, params: Params)
    returns (result: Result<seq<Row>, string>)
    ensures result == QueryResult(engine, query, params)
  {
    var conn;
    result, conn := QueryDb(engine, query, params);
  }

  /** `fetch_one`: the first row `query_db` returns, or None when it returns
      none. */
  method FetchOne(engine: Engine, query: string, params: Params)
    returns (result: Result<Option<Row>, string>)
    ensures result.Failure? <==> QueryResult(engine, query, params).Failure?
    ensures result.Failure? ==> result.error == QueryResult(engine, query, params).error
    ensures result.Success? ==>
              (result.value.None? <==> QueryResult(engine, query, params).value == [])
    ensures result.Success? && result.value.Some? ==>
              result.value.value == QueryResult(engine, query, params).value[0]
  {
    var rows := FetchAll(engine, query, params);
    match rows {
      case Failure(e) =>
        result := Failure(e);
      case Success(rs) =>
        result := Success(if rs != [] then Some(rs[0]) else None);
    }
  }
}
