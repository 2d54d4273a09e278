/** The HTTP handlers of the read-only API. Each handler's query goes to
    `fetch_all`; what comes back is an input here (`rows`), and the handler
    is the shaping of those rows into a response. Only `/metrics/county`
    builds its statement step by step, so only it is a method. */
module App {
  import opened PyValues
  import Database

  /** What goes wrong while a handler reads the fetched rows: `r["x"]` on a
      row without that key (KeyError), or `int(v)` on a value that is not a
      number (TypeError on None, ValueError on text). Either ends as a 500. */
  datatype Fault = MissingKey(key: string) | NotAnInteger(v: Value)

  /** A handler's outcome: a 200 with a body, an `HTTPException(404)`, or an
      exception the framework turns into a 500. */
  datatype Response<+T> = Ok(body: T) | NotFound(detail: string) | Internal(fault: Fault)

  /** `fetch_all` as the handlers see it: a statement and its parameters in,
      the rows out. */
  type FetchAll = (string, Database.Params) -> seq<Row>

  // ---------------------------------------------------------------------
  // GET /counties

  /** `[r["county"] for r in rows]`. */
  function ListCounties(rows: seq<Row>): (r: Response<seq<Value>>)
    ensures !r.NotFound?
    ensures r.Ok? <==> forall i :: 0 <= i < |rows| ==> "county" in rows[i]
    ensures r.Ok? ==> |r.body| == |rows|
    ensures r.Ok? ==> forall i :: 0 <= i < |rows| ==> r.body[i] == rows[i]["county"]
    ensures r.Internal? ==> r.fault == MissingKey("county")
  {
    if rows == [] then Ok([])
    else if "county" !in rows[0] then Internal(MissingKey("county"))
    else
      var rest := ListCounties(rows[1..]);
      if rest.Ok? then Ok([rows[0]["county"]] + rest.body) else rest
  }

  // ---------------------------------------------------------------------
  // GET /years

  /** The row's year can be read by `list_years`: present, and None or a
      number. */
  predicate YearReadable(row: Row)
  {
    "year" in row && (row["year"].Null? || IntOf(row["year"]).Some?)
  }

  /** `[r["year"] for r in rows if r["year"] is not None]`: the year
      values `list_years` keeps, in row order, before `int` is applied. */
  function NonNullYears(rows: seq<Row>): seq<Value>
  {
    if rows == [] then []
    else
      var v := if "year" in rows[0] && !rows[0]["year"].Null? then [rows[0]["year"]] else [];
      v + NonNullYears(rows[1..])
  }

  /** `[int(r["year"]) for r in rows if r["year"] is not None]`. */
  function ListYears(rows: seq<Row>): (r: Response<seq<int>>)
    ensures !r.NotFound?
    ensures r.Ok? <==> forall i :: 0 <= i < |rows| ==> YearReadable(rows[i])
    ensures r.Ok? ==> |r.body| == |NonNullYears(rows)|
    ensures r.Ok? ==> forall k :: 0 <= k < |r.body| ==> Some(r.body[k]) == IntOf(NonNullYears(rows)[k])
  {
    if rows == [] then Ok([])
    else if "year" !in rows[0] then Internal(MissingKey("year"))
    else
      var v := rows[0]["year"];
      if v.Null? then
        ListYears(rows[1..])
      else if IntOf(v).None? then Internal(NotAnInteger(v))
      else
        var n := IntOf(v).value;
        var rest := ListYears(rows[1..]);
        if rest.Ok? then
          assert NonNullYears(rows) == [v] + NonNullYears(rows[1..]);
          assert forall k :: 0 < k < |rest.body| + 1 ==> ([n] + rest.body)[k] == rest.body[k - 1];
          Ok([n] + rest.body)
        else rest
  }

  /** The first failure of two consecutive stretches of rows, or both
      bodies one after the other. */
  function Concat(a: Response<seq<int>>, b: Response<seq<int>>): Response<seq<int>>
  {
    match a
    case Ok(x) => (match b case Ok(y) => Ok(x + y) case _ => b)
    case _ => a
  }

  /** `list_years` works row by row, in row order: the years of `a + b` are
      the years of `a` followed by those of `b`, and the first row that
      cannot be read decides the failure. */
  lemma {:induction false} ListYearsAppend(a: seq<Row>, b: seq<Row>)
    ensures ListYears(a + b) == Concat(ListYears(a), ListYears(b))
    decreases |a|
  {
    if a == [] {
      assert a + b == b;
      if ListYears(b).Ok? {
        assert [] + ListYears(b).body == ListYears(b).body;
      }
    } else {
      assert (a + b)[1..] == a[1..] + b;
      ListYearsAppend(a[1..], b);
      if "year" in a[0] && !a[0]["year"].Null? && IntOf(a[0]["year"]).Some? {
        var n := IntOf(a[0]["year"]).value;
        match ListYears(a[1..]) {
          case Ok(x) =>
            match ListYears(b) {
              case Ok(y) => assert [n] + (x + y) == ([n] + x) + y;
              case _ =>
            }
          case _ =>
        }
      }
    }
  }

  /** A year value as a number, for values `int` accepts. */
  function NumberOf(v: Value): real
    requires v.Int? || v.Real?
  {
    if v.Int? then v.i as real else v.r
  }

  /** The non-None years of the rows never decrease (what
      `ORDER BY year` delivers for numeric years). */
  predicate YearsAscending(rows: seq<Row>)
  {
    forall i, j ::
      (0 <= i < j < |rows| && "year" in rows[i] && "year" in rows[j] &&
       (rows[i]["year"].Int? || rows[i]["year"].Real?) &&
       (rows[j]["year"].Int? || rows[j]["year"].Real?)) ==>
        NumberOf(rows[i]["year"]) <= NumberOf(rows[j]["year"])
  }

  predicate Sorted(s: seq<int>)
  {
    forall i, j :: 0 <= i < j < |s| ==> s[i] <= s[j]
  }

  /** When the rows come back in ascending year order, so do the years
      `list_years` returns. */
  lemma {:induction false} ListYearsSorted(rows: seq<Row>)
    requires YearsAscending(rows)
    requires ListYears(rows).Ok?
    ensures Sorted(ListYears(rows).body)
  {
    if rows != [] {
      assert YearsAscending(rows[1..]) by {
        forall i, j | 0 <= i < j < |rows[1..]|
          ensures rows[1..][i] == rows[i + 1] && rows[1..][j] == rows[j + 1]
        {
        }
      }
      ListYearsSorted(rows[1..]);
      var v := rows[0]["year"];
      if !v.Null? {
        var n := IntOf(v).value;
        var rest := ListYears(rows[1..]).body;
        assert ListYears(rows).body == [n] + rest;
        var later: seq<Row> := rows[1..];
        forall i | 0 <= i < |later| && "year" in later[i] && (later[i]["year"].Int? || later[i]["year"].Real?)
          ensures NumberOf(v) <= NumberOf(later[i]["year"])
        {
          assert later[i] == rows[i + 1];
        }
        ListYearsAtLeast(rows[1..], NumberOf(v));
        IntOfIsTruncation(v);
        SortedCons(n, rest);
      }
    }
  }

  /** Rows whose numeric years are all at least `x` yield years no smaller
      than `int(x)`. */
  lemma {:induction false} ListYearsAtLeast(rows: seq<Row>, x: real)
    requires ListYears(rows).Ok?
    requires forall i :: 0 <= i < |rows| && "year" in rows[i] && (rows[i]["year"].Int? || rows[i]["year"].Real?) ==>
               x <= NumberOf(rows[i]["year"])
    ensures forall k :: 0 <= k < |ListYears(rows).body| ==> Truncate(x) <= ListYears(rows).body[k]
  {
    if rows != [] {
      forall i | 0 <= i < |rows[1..]| && "year" in rows[1..][i] && (rows[1..][i]["year"].Int? || rows[1..][i]["year"].Real?)
        ensures x <= NumberOf(rows[1..][i]["year"])
      {
        assert rows[1..][i] == rows[i + 1];
      }
      ListYearsAtLeast(rows[1..], x);
      var v := rows[0]["year"];
      if !v.Null? {
        IntOfIsTruncation(v);
        TruncateMonotone(x, NumberOf(v));
        assert ListYears(rows).body == [IntOf(v).value] + ListYears(rows[1..]).body;
      }
    }
  }

  /** A sorted sequence stays sorted under a head no larger than any of
      its elements. */
  lemma SortedCons(n: int, rest: seq<int>)
    requires Sorted(rest)
    requires forall k :: 0 <= k < |rest| ==> n <= rest[k]
    ensures Sorted([n] + rest)
  {
    var s := [n] + rest;
    forall i, j | 0 <= i < j < |s| ensures s[i] <= s[j] {
      assert s[j] == rest[j - 1];
      if i > 0 {
        assert s[i] == rest[i - 1];
      }
    }
  }

  /** `int` of a numeric value truncates its numeric value. */
  lemma IntOfIsTruncation(v: Value)
    requires v.Int? || v.Real?
    ensures IntOf(v) == Some(Truncate(NumberOf(v)))
  {
  }

  // ---------------------------------------------------------------------
  // GET /summary/county/{county_name}

  datatype Summary = Summary(county: string, years: seq<int>, metrics: seq<Row>)

  const SummaryMissing: string := "County not found or no data."

  /** The row's year can go through `int(r["year"])`. */
  predicate YearConvertible(row: Row)
  {
    "year" in row && IntOf(row["year"]).Some?
  }

  /** `[int(r["year"]) for r in rows]`: every row, None included. */
  function YearsOf(rows: seq<Row>): (r: Result<seq<int>, Fault>)
    ensures r.Success? <==> forall i :: 0 <= i < |rows| ==> YearConvertible(rows[i])
    ensures r.Success? ==> |r.value| == |rows|
    ensures r.Success? ==> forall i :: 0 <= i < |rows| ==> IntOf(rows[i]["year"]) == Some(r.value[i])
  {
    if rows == [] then Success([])
    else if "year" !in rows[0] then Failure(MissingKey("year"))
    else match IntOf(rows[0]["year"])
      case None => Failure(NotAnInteger(rows[0]["year"]))
      case Some(n) =>
        match YearsOf(rows[1..])
        case Success(rest) => Success([n] + rest)
        case Failure(f) => Failure(f)
  }

  /** `summary_by_county` after its GROUP BY query: 404 when no group came
      back; otherwise the county echoed, one year per row in row order, and
      the rows themselves as the metrics. A group whose year is None makes
      `int` raise. */
  function SummaryByCounty(countyName: string, rows: seq<Row>): (r: Response<Summary>)
    ensures r.NotFound? <==> rows == []
    ensures r.NotFound? ==> r.detail == SummaryMissing
    ensures r.Ok? <==> rows != [] && forall i :: 0 <= i < |rows| ==> YearConvertible(rows[i])
    ensures r.Ok? ==> r.body.county == countyName && r.body.metrics == rows
    ensures r.Ok? ==> |r.body.years| == |r.body.metrics|
    ensures r.Ok? ==> forall i :: 0 <= i < |rows| ==> Some(r.body.years[i]) == IntOf(rows[i]["year"])
  {
    if rows == [] then NotFound(SummaryMissing)
    else match YearsOf(rows)
      case Success(years) => Ok(Summary(countyName, years, rows))
      case Failure(f) => Internal(f)
  }

  /** With one INTEGER year per group in ascending order (GROUP BY year
      ORDER BY year), the summary's years strictly increase. */
  lemma SummaryYearsIncrease(countyName: string, rows: seq<Row>)
    requires rows != []
    requires forall i :: 0 <= i < |rows| ==> "year" in rows[i] && rows[i]["year"].Int?
    requires forall i, j :: 0 <= i < j < |rows| ==> rows[i]["year"].i < rows[j]["year"].i
    ensures SummaryByCounty(countyName, rows).Ok?
    ensures forall i, j :: 0 <= i < j < |rows| ==>
              SummaryByCounty(countyName, rows).body.years[i] < SummaryByCounty(countyName, rows).body.years[j]
  {
    var r := SummaryByCounty(countyName, rows);
    forall i | 0 <= i < |rows| ensures r.body.years[i] == rows[i]["year"].i {
      assert IntOf(rows[i]["year"]) == Some(rows[i]["year"].i);
    }
  }

  // ---------------------------------------------------------------------
  // GET /metrics/county/{county_name}?year=...

  datatype CountyMetrics = CountyMetrics(county: string, year: Option<int>, count: nat, rows: seq<Row>)

  const CountyMissing: string := "No data for this county/year."

  /** The statement text up to the county placeholder, line by line as it
      stands in the handler: the column list, then the county filter. */
  const CountySelect: string := CountyColumns + CountyWhere

  const CountyColumns: string := CountyKeyColumns + CountyScoreColumns + CountyFrom

  const CountyKeyColumns: string :=
    "\n        SELECT\n"
    + "            census_tract_fips,\n"
    + "            county,\n"
    + "            state,\n"
    + "            year,\n"

  /** The score and its three subscores, then the housing and access
      scores. */
  const CountyScoreColumns: string := CountyGrowthColumns + CountyHousingColumns

  const CountyGrowthColumns: string :=
    "            inclusive_growth_score,\n"
    + "            economy_score,\n"
    + "            place_score,\n"
    + "            community_score,\n"

  const CountyHousingColumns: string :=
    "            net_occupancy_score,\n"
    + "            affordable_housing_score,\n"
    + "            internet_access_score\n"

  const CountyFrom: string := "        FROM metro_metrics\n"

  const CountyWhere: string := "        WHERE county = "

  /** `base_sql` before any clause is appended. */
  const CountyBaseSql: string := CountySelect + "?" + "\n    "

  const YearClause: string := " AND year = ?"

  const OrderClause: string := " ORDER BY year, census_tract_fips;"

  /** The number of `?` placeholders in a statement. */
  function Placeholders(s: string): nat
  {
    if s == [] then 0 else (if s[0] == '?' then 1 else 0) + Placeholders(s[1..])
  }

  lemma {:induction false} PlaceholdersAppend(a: string, b: string)
    ensures Placeholders(a + b) == Placeholders(a) + Placeholders(b)
  {
    if a == [] {
      assert a + b == b;
    } else {
      assert (a + b)[1..] == a[1..] + b;
      PlaceholdersAppend(a[1..], b);
    }
  }

  lemma {:induction false} PlaceholdersAbsent(s: string)
    requires '?' !in s
    ensures Placeholders(s) == 0
  {
    if s != [] {
      PlaceholdersAbsent(s[1..]);
    }
  }

  /** A statement text with one placeholder. */
  lemma OnePlaceholder(head: string, tail: string)
    requires '?' !in head && '?' !in tail
    ensures Placeholders(head + "?" + tail) == 1
  {
    PlaceholdersAppend(head + "?", tail);
    PlaceholdersAppend(head, "?");
    PlaceholdersAbsent(head);
    PlaceholdersAbsent(tail);
  }

  predicate OccursAt(s: string, t: string, i: int)
  {
    0 <= i && i + |t| <= |s| && s[i..i + |t|] == t
  }

  ghost predicate Contains(s: string, t: string)
  {
    exists i :: OccursAt(s, t, i)
  }

  predicate EndsWith(s: string, t: string)
  {
    |t| <= |s| && s[|s| - |t|..] == t
  }

  /** A text whose only `?` is preceded, four characters back, by something
      other than the `r` of `year` holds no year clause. */
  lemma NoYearClause(head: string, tail: string)
    requires '?' !in head && '?' !in tail
    requires |head| >= 4 && head[|head| - 4] != 'r'
    ensures !Contains(head + "?" + tail, YearClause)
  {
    var s := head + "?" + tail;
    assert YearClause[8] == 'r' && YearClause[12] == '?' && |YearClause| == 13;
    forall i | 0 <= i && i + 13 <= |s| ensures !OccursAt(s, YearClause, i) {
      if i + 12 == |head| {
        assert s[i + 8] == head[|head| - 4];
        assert s[i..i + 13][8] != YearClause[8];
      } else if i + 12 < |head| {
        assert s[i + 12] == head[i + 12];
        assert s[i..i + 13][12] != YearClause[12];
      } else {
        assert s[i + 12] == tail[i + 12 - |head| - 1];
        assert s[i..i + 13][12] != YearClause[12];
      }
    }
  }

  /** The text of the county statement before any clause: no `?` before
      the county's, and `county = ` (not `year = `) in front of it. */
  lemma CountySelectText()
    ensures '?' !in CountySelect
    ensures |CountySelect| >= 4 && CountySelect[|CountySelect| - 4] == 'y'
  {
    ColumnsText();
    WhereText();
    assert CountySelect[|CountySelect| - 4] == CountyWhere[|CountyWhere| - 4];
  }

  lemma ColumnsText()
    ensures '?' !in CountyColumns
  {
    KeyColumnsText();
    ScoreColumnsText();
    FromText();
  }

  lemma KeyColumnsText()
    ensures '?' !in CountyKeyColumns
  {
  }

  lemma ScoreColumnsText()
    ensures '?' !in CountyScoreColumns
  {
    GrowthColumnsText();
    HousingColumnsText();
  }

  lemma GrowthColumnsText()
    ensures '?' !in CountyGrowthColumns
  {
  }

  lemma HousingColumnsText()
    ensures '?' !in CountyHousingColumns
  {
  }

  lemma FromText()
    ensures '?' !in CountyFrom
  {
  }

  lemma WhereText()
    ensures '?' !in CountyWhere
    ensures |CountyWhere| >= 4 && CountyWhere[|CountyWhere| - 4] == 'y'
  {
  }

  /** The clauses appended to it: only the year clause holds a `?`, at its
      end. */
  lemma ClauseText()
    ensures '?' !in "\n    " && '?' !in OrderClause
    ensures '?' !in " AND year = " && YearClause == " AND year = " + "?"
  {
  }

  /** The query of `metrics_for_county`, grown the way the handler grows it:
      the county is always bound, ` AND year = ?` and the year are appended
      together when a year is given, and the ordering closes the statement.
      Placeholders and parameters stay aligned. */
  method BuildCountyQuery(countyName: string, year: Option<int>)
    returns (sql: string, params: seq<Value>)
    ensures |params| == (if year.Some? then 2 else 1)
    ensures params[0] == Text(countyName)
    ensures year.Some? ==> params[1] == Int(year.value)
    ensures Placeholders(sql) == |params|
    ensures Contains(sql, YearClause) <==> year.Some?
    ensures |CountyBaseSql| <= |sql| && sql[..|CountyBaseSql|] == CountyBaseSql
    ensures EndsWith(sql, OrderClause)
  {
    sql := CountyBaseSql;
    params := [Text(countyName)];

    if year.Some? {
      sql := sql + YearClause;
      params := params + [Int(year.value)];
    }

    sql := sql + OrderClause;

    CountySelectText();
    ClauseText();
    if year.Some? {
      FilteredText(CountySelect, "\n    ", CountyBaseSql, " AND year = ", YearClause, OrderClause, sql);
    } else {
      UnfilteredText(CountySelect, "\n    ", CountyBaseSql, OrderClause, sql);
    }
  }

  /** A base text with one placeholder, then a clause ending in a second
      one, then a tail without any. */
  lemma FilteredText(head: string, middle: string, base: string,
                     clauseHead: string, clause: string, tail: string, s: string)
    requires '?' !in head && '?' !in middle && '?' !in clauseHead && '?' !in tail
    requires base == head + "?" + middle && clause == clauseHead + "?"
    requires s == base + clause + tail
    ensures Placeholders(s) == 2
    ensures OccursAt(s, clause, |base|)
    ensures |base| <= |s| && s[..|base|] == base
    ensures EndsWith(s, tail)
  {
    assert s[|base|..|base| + |clause|] == clause;
    OnePlaceholder(head, middle);
    OnePlaceholder(clauseHead, "");
    assert clauseHead + "?" + "" == clause;
    PlaceholdersAbsent(tail);
    PlaceholdersAppend(base, clause);
    PlaceholdersAppend(base + clause, tail);
  }

  /** A base text with one placeholder, not preceded by `year = `, then a
      tail without any. */
  lemma UnfilteredText(head: string, middle: string, base: string, tail: string, s: string)
    requires '?' !in head && '?' !in middle && '?' !in tail
    requires |head| >= 4 && head[|head| - 4] != 'r'
    requires base == head + "?" + middle && s == base + tail
    ensures Placeholders(s) == 1
    ensures !Contains(s, YearClause)
    ensures |base| <= |s| && s[..|base|] == base
    ensures EndsWith(s, tail)
  {
    assert s == head + "?" + (middle + tail);
    assert '?' !in middle + tail;
    OnePlaceholder(head, middle + tail);
    NoYearClause(head, middle + tail);
  }

  /** `metrics_for_county` after its query: 404 exactly when no row came
      back (even for a known county whose year filter matched nothing);
      otherwise the inputs echoed, the row count and the rows untouched. */
  function ShapeCountyMetrics(countyName: string, year: Option<int>, rows: seq<Row>): (r: Response<CountyMetrics>)
    ensures !r.Internal?
    ensures r.NotFound? <==> rows == []
    ensures r.NotFound? ==> r.detail == CountyMissing
    ensures r.Ok? ==> r.body.county == countyName && r.body.year == year
    ensures r.Ok? ==> r.body.count == |rows| && r.body.rows == rows
  {
    if rows == [] then NotFound(CountyMissing)
    else Ok(CountyMetrics(countyName, year, |rows|, rows))
  }

  /** The whole handler: build the statement, pass it with `tuple(params)`
      to `fetch_all`, shape the rows. `sql` and `params` are what it sent. */
  method MetricsForCounty(fetchAll: FetchAll, countyName: string, year: Option<int>)
    returns (r: Response<CountyMetrics>, sql: string, params: seq<Value>)
    ensures |params| == (if year.Some? then 2 else 1) && params[0] == Text(countyName)
    ensures year.Some? ==> params[1] == Int(year.value)
    ensures Placeholders(sql) == |params|
    ensures Contains(sql, YearClause) <==> year.Some?
    ensures EndsWith(sql, OrderClause)
    ensures r == ShapeCountyMetrics(countyName, year, fetchAll(sql, Database.PTuple(params)))
  {
    sql, params := BuildCountyQuery(countyName, year);
    var rows := fetchAll(sql, Database.PTuple(params));
    r := ShapeCountyMetrics(countyName, year, rows);
  }

  // ---------------------------------------------------------------------
  // GET /metrics/tract/{census_tract_fips}

  datatype TractSeries = TractSeries(censusTractFips: string, rows: seq<Row>)

  const TractMissing: string := "No data for this census tract."

  /** `metrics_for_tract` after its query: 404 exactly when no row came
      back; otherwise the tract id echoed with the rows untouched. */
  function MetricsForTract(censusTractFips: string, rows: seq<Row>): (r: Response<TractSeries>)
    ensures !r.Internal?
    ensures r.NotFound? <==> rows == []
    ensures r.NotFound? ==> r.detail == TractMissing
    ensures r.Ok? ==> r.body.censusTractFips == censusTractFips && r.body.rows == rows
  {
    if rows == [] then NotFound(TractMissing)
    else Ok(TractSeries(censusTractFips, rows))
  }
}
