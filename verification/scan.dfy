/**
 * Reading a result set: `db.Query` either fails or yields rows of column
 * values, and `rows.Scan` copies one row into typed Go variables, with
 * `database/sql`'s conversions. A reader fails as a whole on the first row
 * that does not scan; a scan error never leaves a partial list.
 *
 * The readers never consult `rows.Err()` after their `rows.Next()` loop, so
 * an error that stops the iteration early looks to them exactly like the
 * end of the result set. `ResultSet(rows)` is therefore the rows the driver
 * delivered before iteration stopped, for whatever reason.
 */
module Scan {
  import opened Results
  import opened Decimal
  import opened Rows

  /** A column value as the driver delivers it. */
  datatype Cell = Null | IntCell(i: int) | TextCell(s: string)

  /** The type of the Go variable a column is scanned into. */
  datatype Kind = IntKind | TextKind

  /** What `db.Query` returned; `rows` are the rows `rows.Next()` yields. */
  datatype QueryResult = QueryError(cause: string) | ResultSet(rows: seq<seq<Cell>>)

  /** Scanning one value: NULL fits neither an `int` nor a `string`; a
      number read into a `string` becomes its decimal text; a text read into
      an `int` must be a decimal number. */
  function ScanCell(c: Cell, k: Kind): (r: Option<Value>)
    ensures r.Some? ==> (k == IntKind <==> r.value.Int?)
    ensures c.Null? ==> r.None?
  {
    match (c, k)
    case (Null, _) => None
    case (IntCell(i), IntKind) => Some(Int(i))
    case (IntCell(i), TextKind) => Some(Str(Itoa(i)))
    case (TextCell(s), TextKind) => Some(Str(s))
    case (TextCell(s), IntKind) =>
      match ParseDecimal(s)
      case Some(i) => Some(Int(i))
      case None => None
  }

  predicate Scans(cells: seq<Cell>, kinds: seq<Kind>)
  {
    |cells| == |kinds| && forall k :: 0 <= k < |kinds| ==> ScanCell(cells[k], kinds[k]).Some?
  }

  /** `rows.Scan`: every destination receives its column, or the row fails. */
  function ScanValues(cells: seq<Cell>, kinds: seq<Kind>): (r: Option<seq<Value>>)
    ensures r.Some? <==> Scans(cells, kinds)
    ensures r.Some? ==>
      && |r.value| == |kinds|
      && forall k :: 0 <= k < |kinds| ==> r.value[k] == ScanCell(cells[k], kinds[k]).value
  {
    if Scans(cells, kinds) then
      Some(seq(|kinds|, k requires 0 <= k < |kinds| => ScanCell(cells[k], kinds[k]).value))
    else
      None
  }

  /** The first column that does not scan. */
  function BadColumn(cells: seq<Cell>, kinds: seq<Kind>, from: nat): (r: nat)
    requires |cells| == |kinds| && from <= |kinds|
    requires exists k :: from <= k < |kinds| && ScanCell(cells[k], kinds[k]).None?
    ensures from <= r < |kinds| && ScanCell(cells[r], kinds[r]).None?
    decreases |kinds| - from
  {
    if ScanCell(cells[from], kinds[from]).None? then from else BadColumn(cells, kinds, from + 1)
  }

  /** The cause `rows.Scan` reports for a row that does not scan. */
  function ScanCause(cells: seq<Cell>, kinds: seq<Kind>): string
    requires !Scans(cells, kinds)
  {
    if |cells| != |kinds| then
      "sql: expected " + Itoa(|cells|) + " destination arguments in Scan, not " + Itoa(|kinds|)
    else
      "sql: Scan error on column index " + Itoa(BadColumn(cells, kinds, 0))
  }

  /** Scanning every row of a result set in order; the first row that does
      not scan decides the error. */
  function ScanAll(rows: seq<seq<Cell>>, kinds: seq<Kind>): (r: Result<seq<seq<Value>>>)
    ensures r.Success? <==> forall k :: 0 <= k < |rows| ==> Scans(rows[k], kinds)
    ensures r.Success? ==>
      && |r.value| == |rows|
      && forall k :: 0 <= k < |rows| ==> r.value[k] == ScanValues(rows[k], kinds).value
    ensures r.Failure? ==> r.error.ScanFailed?
    decreases |rows|
  {
    if |rows| == 0 then Success([])
    else
      var last := rows[|rows| - 1];
      match ScanAll(rows[..|rows| - 1], kinds)
      case Failure(e) => Failure(e)
      case Success(vs) =>
        match ScanValues(last, kinds)
        case None => Failure(ScanFailed(ScanCause(last, kinds)))
        case Some(v) => Success(vs + [v])
  }

  /** The first row of a result set that does not scan. */
  predicate FirstBadRow(rows: seq<seq<Cell>>, kinds: seq<Kind>, i: int)
  {
    && 0 <= i < |rows|
    && !Scans(rows[i], kinds)
    && forall k :: 0 <= k < i ==> Scans(rows[k], kinds)
  }

  /** A failed scan reports the first row that does not scan. */
  lemma {:induction false} ScanAllFailure(rows: seq<seq<Cell>>, kinds: seq<Kind>)
    requires ScanAll(rows, kinds).Failure?
    ensures exists i ::
      && FirstBadRow(rows, kinds, i)
      && ScanAll(rows, kinds).error == ScanFailed(ScanCause(rows[i], kinds))
    decreases |rows|
  {
    var pre := rows[..|rows| - 1];
    if ScanAll(pre, kinds).Failure? {
      ScanAllFailure(pre, kinds);
      var i :| FirstBadRow(pre, kinds, i) && ScanAll(pre, kinds).error == ScanFailed(ScanCause(pre[i], kinds));
      assert ScanAll(rows, kinds).error == ScanAll(pre, kinds).error;
      assert rows[i] == pre[i];
      assert FirstBadRow(rows, kinds, i) by {
        forall k | 0 <= k < i
          ensures Scans(rows[k], kinds)
        {
          assert rows[k] == pre[k];
        }
      }
    } else {
      var i := |rows| - 1;
      assert FirstBadRow(rows, kinds, i) by {
        forall k | 0 <= k < i
          ensures Scans(rows[k], kinds)
        {
          assert rows[k] == pre[k];
        }
      }
    }
  }

  /** Running a query and scanning its rows: a query error is wrapped as
      `failed to fetch match`, a scan error as `failed to scan match row`,
      and either gives no rows at all. */
  function Read(q: QueryResult, kinds: seq<Kind>): (r: Result<seq<seq<Value>>>)
    ensures q.QueryError? ==> r == Failure(QueryFailed(q.cause))
    ensures q.ResultSet? ==> (r.Success? <==> forall k :: 0 <= k < |q.rows| ==> Scans(q.rows[k], kinds))
    ensures q.ResultSet? && r.Failure? ==> r.error.ScanFailed?
    ensures r.Success? ==>
      && |r.value| == |q.rows|
      && forall k :: 0 <= k < |r.value| ==>
           && |r.value[k]| == |kinds|
           && r.value[k] == ScanValues(q.rows[k], kinds).value
  {
    match q
    case QueryError(c) => Failure(QueryFailed(c))
    case ResultSet(rows) => ScanAll(rows, kinds)
  }

  /** Text cells for the given texts, in order. */
  function TextCells(ss: seq<string>): (r: seq<Cell>)
    ensures |r| == |ss| && forall k :: 0 <= k < |ss| ==> r[k] == TextCell(ss[k])
  {
    seq(|ss|, k requires 0 <= k < |ss| => TextCell(ss[k]))
  }

  /** `n` string destinations. */
  function TextKinds(n: nat): (r: seq<Kind>)
    ensures |r| == n && forall k :: 0 <= k < n ==> r[k] == TextKind
  {
    seq(n, k => TextKind)
  }

  /** The value a cell carries when it already has its destination's type. */
  function Plain(c: Cell): Value
    requires !c.Null?
  {
    match c
    case IntCell(i) => Int(i)
    case TextCell(s) => Str(s)
  }

  predicate Fits(c: Cell, k: Kind)
  {
    (c.IntCell? && k == IntKind) || (c.TextCell? && k == TextKind)
  }

  /** A row whose cells already have their destinations' types scans to
      those very values. */
  lemma ScanFitting(cells: seq<Cell>, kinds: seq<Kind>)
    requires |cells| == |kinds|
    requires forall k :: 0 <= k < |kinds| ==> Fits(cells[k], kinds[k])
    ensures ScanValues(cells, kinds).Some?
    ensures forall k :: 0 <= k < |kinds| ==> ScanValues(cells, kinds).value[k] == Plain(cells[k])
  {
    assert Scans(cells, kinds);
  }

  /** A NULL in any column fails the row. */
  lemma NullFailsRow(cells: seq<Cell>, kinds: seq<Kind>, k: int)
    requires 0 <= k < |cells| && cells[k].Null?
    ensures !Scans(cells, kinds)
  {
    if |cells| == |kinds| {
      assert ScanCell(cells[k], kinds[k]).None?;
    }
  }

  /** All or nothing: one bad row anywhere fails the whole read, whatever
      surrounds it. */
  lemma BadRowFailsRead(a: seq<seq<Cell>>, bad: seq<Cell>, b: seq<seq<Cell>>, kinds: seq<Kind>)
    requires !Scans(bad, kinds)
    ensures Read(ResultSet(a + [bad] + b), kinds).Failure?
  {
    var rows := a + [bad] + b;
    assert rows[|a|] == bad;
  }
}
