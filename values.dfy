/** Python-side values that flow between the SQLite driver, the query layer
    and the HTTP handlers. */
module PyValues {

  /** A column value as the sqlite3 driver hands it to Python:
      NULL becomes None, INTEGER an int, REAL a float, TEXT a str. */
  datatype Value = Null | Int(i: int) | Real(r: real) | Text(s: string)

  /** A fetched row after `dict(row)`: column name to value. */
  type Row = map<string, Value>

  datatype Option<+T> = None | Some(value: T)

  datatype Result<+T, +E> = Success(value: T) | Failure(error: E)

  /** Python's `int(x)` on a float: truncation toward zero. */
  function Truncate(x: real): (n: int)
    ensures 0.0 <= x ==> 0 <= n && n as real <= x < n as real + 1.0
    ensures x < 0.0 ==> n <= 0 && n as real - 1.0 < x <= n as real
  {
    if 0.0 <= x then x.Floor else -((-x).Floor)
  }

  /** Python's `int(v)` on a column value. `int(None)` raises TypeError;
      a TEXT value reaching a column of INTEGER affinity is text SQLite
      could not read as a number, so `int` raises ValueError on it. */
  function IntOf(v: Value): (r: Option<int>)
    ensures r.Some? <==> v.Int? || v.Real?
    ensures v.Int? ==> r == Some(v.i)
    ensures v.Real? ==> r == Some(Truncate(v.r))
  {
    match v
    case Int(i) => Some(i)
    case Real(x) => Some(Truncate(x))
    case _ => None
  }

  /** Truncation toward zero never reverses the order of two numbers. */
  lemma TruncateMonotone(x: real, y: real)
    requires x <= y
    ensures Truncate(x) <= Truncate(y)
  {
    if 0.0 <= x {
      assert x.Floor <= y.Floor;
    } else if y < 0.0 {
      assert (-y).Floor <= (-x).Floor;
    }
  }
}
