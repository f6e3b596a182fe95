/**
 * `import_calendar_from_csv`: read a wide shift grid (the month in the first
 * row, a day-of-week header in the second, then one row per employee with
 * one cell per day of the month) and produce one record per filled cell.
 */
module CalendarImport {
  import opened Wrappers
  import opened Dates
  import opened Shifts

  /** The year the importer assumes for every date it builds. */
  const IMPORT_YEAR := 2024

  /**
   * A cell below the two header rows: the employee id in its row, its
   * 0-based position in `row[1:]` (so day `column + 1`), and its text.
   */
  datatype Cell = Cell(employeeId: string, column: nat, shift: string)

  /** The cells of a row: its first field is the employee id, the fields after it the days. */
  function RowCells(row: seq<string>): seq<Cell>
  {
    if row == [] then [] else CellsOf(row[0], row[1..])
  }

  /** The cells of employee `id` for the texts `shifts`, numbered from column 0. */
  function CellsOf(id: string, shifts: seq<string>): (cs: seq<Cell>)
    ensures |cs| == |shifts|
  {
    if shifts == [] then [] else CellsOf(id, shifts[..|shifts| - 1]) + [Cell(id, |shifts| - 1, shifts[|shifts| - 1])]
  }

  lemma {:induction false} CellsOfAt(id: string, shifts: seq<string>, i: nat)
    requires i < |shifts|
    ensures CellsOf(id, shifts)[i] == Cell(id, i, shifts[i])
  {
    var n := |shifts| - 1;
    if i < n {
      CellsOfAt(id, shifts[..n], i);
    }
  }

  /** The cells of the first `k` rows of `body`, row by row and left to right within a row. */
  function GridCells(body: seq<seq<string>>, k: nat): seq<Cell>
    requires k <= |body|
  {
    if k == 0 then [] else GridCells(body, k - 1) + RowCells(body[k - 1])
  }

  /** Where the cell at row `r`, column `j` (j >= 1, the employee id is column 0) sits in the cells of `body`. */
  function CellIndex(body: seq<seq<string>>, r: nat, j: nat): int
    requires r <= |body|
  {
    |GridCells(body, r)| + j - 1
  }

  /** The cells of rows `k` to `m - 1` of the body. */
  function GridSpan(body: seq<seq<string>>, k: nat, m: nat): seq<Cell>
    requires k <= m <= |body|
    decreases m - k
  {
    if k == m then [] else GridSpan(body, k, m - 1) + RowCells(body[m - 1])
  }

  /** The cells of fewer rows start the cells of more rows. */
  lemma {:induction false} GridCellsSpan(body: seq<seq<string>>, k: nat, m: nat)
    requires k <= m <= |body|
    ensures GridCells(body, m) == GridCells(body, k) + GridSpan(body, k, m)
  {
    if k < m {
      GridCellsSpan(body, k, m - 1);
      var front, mid, last := GridCells(body, k), GridSpan(body, k, m - 1), RowCells(body[m - 1]);
      assert GridCells(body, m) == front + mid + last;
      assert GridSpan(body, k, m) == mid + last;
      assert front + mid + last == front + (mid + last);
    }
  }

  /** The cell at row `r`, column `j` of the body is at CellIndex(body, r, j). */
  lemma GridCellAt(body: seq<seq<string>>, r: nat, j: nat)
    requires r < |body| && 1 <= j < |body[r]|
    ensures 0 <= CellIndex(body, r, j) < |GridCells(body, |body|)|
    ensures GridCells(body, |body|)[CellIndex(body, r, j)] == Cell(body[r][0], j - 1, body[r][j])
  {
    GridCellsSplit(body, r);
    RowCellAt(body[r], j);
    IndexInMiddle(GridCells(body, r), RowCells(body[r]), GridSpan(body, r + 1, |body|), j - 1);
  }

  /** The cells of the whole body: those of the rows before row `r`, then row `r`'s, then the rest. */
  lemma GridCellsSplit(body: seq<seq<string>>, r: nat)
    requires r < |body|
    ensures GridCells(body, |body|) == GridCells(body, r) + RowCells(body[r]) + GridSpan(body, r + 1, |body|)
  {
    GridCellsSpan(body, r + 1, |body|);
  }

  /** Field `j` of a row, after the employee id, is its cell `j - 1`. */
  lemma RowCellAt(row: seq<string>, j: nat)
    requires 1 <= j < |row|
    ensures |RowCells(row)| == |row| - 1 && RowCells(row)[j - 1] == Cell(row[0], j - 1, row[j])
  {
    CellsOfAt(row[0], row[1..], j - 1);
  }

  /** An element of `row` inside `before + row + after`. */
  lemma IndexInMiddle<T>(before: seq<T>, row: seq<T>, after: seq<T>, k: nat)
    requires k < |row|
    ensures (before + row + after)[|before| + k] == row[k]
  {
  }

  /** Cells are listed row by row, and left to right within a row. */
  lemma CellIndexIncreasing(body: seq<seq<string>>, r1: nat, j1: nat, r2: nat, j2: nat)
    requires r1 < |body| && 1 <= j1 < |body[r1]|
    requires r2 < |body| && 1 <= j2 < |body[r2]|
    requires r1 < r2 || (r1 == r2 && j1 < j2)
    ensures CellIndex(body, r1, j1) < CellIndex(body, r2, j2)
  {
    if r1 < r2 {
      GridCellsSpan(body, r1 + 1, r2);
    }
  }

  /** Every cell of the first `k` rows comes from one of those rows and a column after the employee id. */
  lemma {:induction false} GridCellFrom(body: seq<seq<string>>, k: nat, p: nat)
    requires k <= |body| && p < |GridCells(body, k)|
    ensures exists r, j :: 0 <= r < k && 1 <= j < |body[r]| && CellIndex(body, r, j) == p
  {
    if p < |GridCells(body, k - 1)| {
      GridCellFrom(body, k - 1, p);
    } else {
      var j := p - |GridCells(body, k - 1)| + 1;
      assert CellIndex(body, k - 1, j) == p;
    }
  }

  // ---------------------------------------------------------------------
  // One cell, one record.

  /**
   * `datetime.strptime(f"{month_name} {day} 2024", "%b %d %Y")`: the date
   * exists when the month name is one `%b` reads and the day fits the month
   * in 2024.
   */
  function ImportDate(monthName: string, day: int): Option<Date>
  {
    CellDate(MonthFromAbbreviation(monthName), day)
  }

  /** The date of day `day` of the month `%b` read, if any, in 2024. */
  function CellDate(month: Option<int>, day: int): (r: Option<Date>)
    ensures r.Some? ==> IsValidDate(r.value)
  {
    match month
    case None => None
    case Some(m) => if 1 <= m <= 12 && 1 <= day <= DaysInMonth(IMPORT_YEAR, m) then Some(Date(IMPORT_YEAR, m, day)) else None
  }

  /** The importer accepts exactly the days of a known month of 2024; February has 29. */
  lemma ImportDateAccepts(monthName: string, day: int)
    ensures ImportDate(monthName, day).Some?
            <==> MonthFromAbbreviation(monthName).Some? && 1 <= day <= DaysInMonth(IMPORT_YEAR, MonthFromAbbreviation(monthName).value)
    ensures ImportDate(monthName, day).Some? ==>
              var d := ImportDate(monthName, day).value;
              IsValidDate(d) && d == Date(IMPORT_YEAR, MonthFromAbbreviation(monthName).value, day)
    ensures MonthFromAbbreviation(monthName) == Some(2) ==> (ImportDate(monthName, day).Some? <==> 1 <= day <= 29)
  {
  }

  /** A filled cell whose date does not exist: the import raises on it. */
  predicate BadCell(month: Option<int>, c: Cell)
  {
    c.shift != "" && CellDate(month, c.column + 1).None?
  }

  /** The cells that are not empty, in order. */
  function FilledCells(cells: seq<Cell>): seq<Cell>
  {
    if cells == [] then []
    else FilledCells(cells[..|cells| - 1]) + (if cells[|cells| - 1].shift != "" then [cells[|cells| - 1]] else [])
  }

  /** The record a good filled cell becomes. */
  predicate RecordOfCell(month: Option<int>, c: Cell, x: Shift)
  {
    CellDate(month, c.column + 1).Some?
    && x == Shift(c.employeeId, FormatIsoDate(CellDate(month, c.column + 1).value), c.shift)
  }

  /**
   * The records of `cells` in order, or the failure at the first filled
   * cell whose date does not exist; `month` is what `%b` reads from
   * `monthName`.
   */
  function Collect(monthName: string, month: Option<int>, cells: seq<Cell>): Result<seq<Shift>, Error>
  {
    if cells == [] then Ok([])
    else
      var n := |cells| - 1;
      Step(monthName, month, Collect(monthName, month, cells[..n]), cells[n])
  }

  /**
   * One cell after the records so far: a failure stays, an empty cell adds
   * nothing, a filled cell adds its record or fails when its date does not
   * exist.
   */
  function Step(monthName: string, month: Option<int>, sofar: Result<seq<Shift>, Error>, c: Cell): Result<seq<Shift>, Error>
  {
    match sofar
    case Err(e) => Err(e)
    case Ok(records) =>
      if c.shift == "" then Ok(records)
      else match CellDate(month, c.column + 1)
        case None => Err(InvalidDate(monthName, c.column + 1))
        case Some(d) => Ok(records + [Shift(c.employeeId, FormatIsoDate(d), c.shift)])
  }

  /** Collecting fails exactly when a filled cell has no date. */
  lemma {:induction false} CollectFails(monthName: string, month: Option<int>, cells: seq<Cell>)
    ensures Collect(monthName, month, cells).Err? <==> exists i :: 0 <= i < |cells| && BadCell(month, cells[i])
  {
    if cells != [] {
      CollectFails(monthName, month, cells[..|cells| - 1]);
      CollectLastFails(monthName, month, cells);
      BadCellSnoc(month, cells, cells[..|cells| - 1]);
    }
  }

  /** One more cell fails the collection when the cells before it failed or it is bad itself. */
  lemma CollectLastFails(monthName: string, month: Option<int>, cells: seq<Cell>)
    requires cells != []
    ensures Collect(monthName, month, cells).Err?
            <==> Collect(monthName, month, cells[..|cells| - 1]).Err? || BadCell(month, cells[|cells| - 1])
  {
  }

  lemma BadCellSnoc(month: Option<int>, cells: seq<Cell>, front: seq<Cell>)
    requires cells != [] && front == cells[..|cells| - 1]
    ensures (exists i :: 0 <= i < |cells| && BadCell(month, cells[i]))
            <==> (exists i :: 0 <= i < |front| && BadCell(month, front[i])) || BadCell(month, cells[|cells| - 1])
  {
    if exists i :: 0 <= i < |cells| && BadCell(month, cells[i]) {
      var i :| 0 <= i < |cells| && BadCell(month, cells[i]);
      if i < |cells| - 1 {
        assert BadCell(month, front[i]);
      }
    }
    if exists i :: 0 <= i < |cells| - 1 && BadCell(month, front[i]) {
      var i :| 0 <= i < |cells| - 1 && BadCell(month, front[i]);
      assert BadCell(month, cells[i]);
    }
  }

  /** The failure reports the day of the first filled cell that has no date. */
  lemma {:induction false} CollectFirstError(monthName: string, month: Option<int>, cells: seq<Cell>, i: int)
    requires 0 <= i < |cells| && BadCell(month, cells[i])
    requires forall i' :: 0 <= i' < i ==> !BadCell(month, cells[i'])
    ensures Collect(monthName, month, cells) == Err(InvalidDate(monthName, cells[i].column + 1))
  {
    var n := |cells| - 1;
    var front := cells[..n];
    if i < n {
      assert forall i' :: 0 <= i' < i ==> front[i'] == cells[i'];
      CollectFirstError(monthName, month, front, i);
    } else {
      CollectFails(monthName, month, front);
      assert forall i' :: 0 <= i' < n ==> front[i'] == cells[i'];
    }
  }

  /** Collecting succeeds with one record per filled cell, in the order of the cells. */
  lemma {:induction false} CollectRecords(monthName: string, month: Option<int>, cells: seq<Cell>)
    requires Collect(monthName, month, cells).Ok?
    ensures var recs := Collect(monthName, month, cells).value;
            |recs| == |FilledCells(cells)|
            && forall k :: 0 <= k < |recs| ==> RecordOfCell(month, FilledCells(cells)[k], recs[k])
  {
    if cells != [] {
      var n := |cells| - 1;
      var front, c := cells[..n], cells[n];
      assert Collect(monthName, month, front).Ok?;
      CollectRecords(monthName, month, front);
      var before := Collect(monthName, month, front).value;
      var recs := Collect(monthName, month, cells).value;
      if c.shift != "" {
        var x := Shift(c.employeeId, FormatIsoDate(CellDate(month, c.column + 1).value), c.shift);
        assert recs == before + [x] && RecordOfCell(month, c, x);
        assert FilledCells(cells) == FilledCells(front) + [c];
      } else {
        assert recs == before && FilledCells(cells) == FilledCells(front);
      }
    }
  }

  /** The filled cell at position `p` becomes the record after those of the filled cells before it. */
  lemma CollectRecordAt(monthName: string, month: Option<int>, cells: seq<Cell>, p: int)
    requires Collect(monthName, month, cells).Ok? && 0 <= p < |cells| && cells[p].shift != ""
    ensures |FilledCells(cells[..p])| < |Collect(monthName, month, cells).value|
    ensures RecordOfCell(month, cells[p], Collect(monthName, month, cells).value[|FilledCells(cells[..p])|])
  {
    FilledCellAt(cells, p);
    CollectRecords(monthName, month, cells);
  }

  lemma {:induction false} CollectErrPersists(monthName: string, month: Option<int>, cells: seq<Cell>, more: seq<Cell>)
    requires Collect(monthName, month, cells).Err?
    ensures Collect(monthName, month, cells + more) == Collect(monthName, month, cells)
  {
    if more != [] {
      var n := |more| - 1;
      CollectErrPersists(monthName, month, cells, more[..n]);
      var all := cells + more;
      assert all[..|all| - 1] == cells + more[..n];
      assert Collect(monthName, month, all[..|all| - 1]).Err?;
    } else {
      assert cells + more == cells;
    }
  }

  /** Collecting one more cell: the step the import's inner loop takes. */
  lemma CollectSnoc(monthName: string, month: Option<int>, cells: seq<Cell>, c: Cell)
    ensures Collect(monthName, month, cells + [c]) == Step(monthName, month, Collect(monthName, month, cells), c)
  {
    assert (cells + [c])[..|cells|] == cells;
  }

  // ---------------------------------------------------------------------
  // The same records row by row, as the two nested loops build them.

  /** The records after the cells of employee `id` for the first `k` texts of `shifts`, starting from `sofar`. */
  function RowFold(monthName: string, month: Option<int>, sofar: Result<seq<Shift>, Error>,
                   id: string, shifts: seq<string>, k: nat): Result<seq<Shift>, Error>
    requires k <= |shifts|
  {
    if k == 0 then sofar
    else Step(monthName, month, RowFold(monthName, month, sofar, id, shifts, k - 1), Cell(id, k - 1, shifts[k - 1]))
  }

  /** The records after one more row; an empty row adds nothing. */
  function RowResult(monthName: string, month: Option<int>, sofar: Result<seq<Shift>, Error>, row: seq<string>): Result<seq<Shift>, Error>
  {
    if row == [] then sofar else RowFold(monthName, month, sofar, row[0], row[1..], |row| - 1)
  }

  /** The records after the first `n` rows of the body. */
  function RowsFold(monthName: string, month: Option<int>, body: seq<seq<string>>, n: nat): Result<seq<Shift>, Error>
    requires n <= |body|
  {
    if n == 0 then Ok([]) else RowResult(monthName, month, RowsFold(monthName, month, body, n - 1), body[n - 1])
  }

  /** An empty cell adds nothing to the fold over a row. */
  lemma RowFoldSkip(monthName: string, month: Option<int>, sofar: Result<seq<Shift>, Error>,
                    id: string, shifts: seq<string>, i: nat, records: seq<Shift>)
    requires i < |shifts| && RowFold(monthName, month, sofar, id, shifts, i) == Ok(records) && shifts[i] == ""
    ensures RowFold(monthName, month, sofar, id, shifts, i + 1) == Ok(records)
  {
  }

  /** A filled cell whose date does not exist makes the fold over a row raise for its day. */
  lemma RowFoldRaise(monthName: string, month: Option<int>, sofar: Result<seq<Shift>, Error>,
                     id: string, shifts: seq<string>, i: nat, records: seq<Shift>)
    requires i < |shifts| && RowFold(monthName, month, sofar, id, shifts, i) == Ok(records)
    requires shifts[i] != "" && CellDate(month, i + 1).None?
    ensures RowFold(monthName, month, sofar, id, shifts, i + 1) == Err(InvalidDate(monthName, i + 1))
  {
  }

  /** A filled cell whose date exists adds its record to the fold over a row. */
  lemma RowFoldRecord(monthName: string, month: Option<int>, sofar: Result<seq<Shift>, Error>,
                      id: string, shifts: seq<string>, i: nat, records: seq<Shift>)
    requires i < |shifts| && RowFold(monthName, month, sofar, id, shifts, i) == Ok(records)
    requires shifts[i] != "" && CellDate(month, i + 1).Some?
    ensures RowFold(monthName, month, sofar, id, shifts, i + 1)
            == Ok(records + [Shift(id, FormatIsoDate(CellDate(month, i + 1).value), shifts[i])])
  {
  }

  /** Within a row, once a cell has raised, the cells after it change nothing. */
  lemma {:induction false} RowFoldErr(monthName: string, month: Option<int>, sofar: Result<seq<Shift>, Error>,
                                      id: string, shifts: seq<string>, k: nat, m: nat)
    requires k <= m <= |shifts| && RowFold(monthName, month, sofar, id, shifts, k).Err?
    ensures RowFold(monthName, month, sofar, id, shifts, m) == RowFold(monthName, month, sofar, id, shifts, k)
  {
    if k < m {
      RowFoldErr(monthName, month, sofar, id, shifts, k, m - 1);
    }
  }

  /** Once a row has raised, the rows after it change nothing. */
  lemma {:induction false} RowsFoldErr(monthName: string, month: Option<int>, body: seq<seq<string>>, n: nat, m: nat)
    requires n <= m <= |body| && RowsFold(monthName, month, body, n).Err?
    ensures RowsFold(monthName, month, body, m) == RowsFold(monthName, month, body, n)
  {
    if n < m {
      RowsFoldErr(monthName, month, body, n, m - 1);
      var row := body[m - 1];
      if row != [] {
        RowFoldErr(monthName, month, RowsFold(monthName, month, body, m - 1), row[0], row[1..], 0, |row| - 1);
      }
    }
  }

  /** Folding a row after some cells is collecting those cells followed by the row's cells. */
  lemma {:induction false} RowFoldCollect(monthName: string, month: Option<int>, before: seq<Cell>,
                                          id: string, shifts: seq<string>, k: nat)
    requires k <= |shifts|
    ensures RowFold(monthName, month, Collect(monthName, month, before), id, shifts, k)
            == Collect(monthName, month, before + CellsOf(id, shifts[..k]))
  {
    if k == 0 {
      assert before + CellsOf(id, shifts[..0]) == before;
    } else {
      var c := Cell(id, k - 1, shifts[k - 1]);
      RowFoldCollect(monthName, month, before, id, shifts, k - 1);
      assert shifts[..k][..k - 1] == shifts[..k - 1];
      assert before + CellsOf(id, shifts[..k]) == (before + CellsOf(id, shifts[..k - 1])) + [c];
      CollectSnoc(monthName, month, before + CellsOf(id, shifts[..k - 1]), c);
    }
  }

  /** Folding one row after some cells is collecting those cells followed by the row's cells. */
  lemma RowResultCollect(monthName: string, month: Option<int>, before: seq<Cell>, row: seq<string>)
    ensures RowResult(monthName, month, Collect(monthName, month, before), row)
            == Collect(monthName, month, before + RowCells(row))
  {
    if row == [] {
      assert before + RowCells(row) == before;
    } else {
      RowFoldCollect(monthName, month, before, row[0], row[1..], |row| - 1);
      assert row[1..][..|row| - 1] == row[1..];
    }
  }

  /** Row by row, the nested loops collect exactly the cells of the grid, in order. */
  lemma {:induction false} RowsFoldCollect(monthName: string, month: Option<int>, body: seq<seq<string>>, n: nat)
    requires n <= |body|
    ensures RowsFold(monthName, month, body, n) == Collect(monthName, month, GridCells(body, n))
  {
    if n > 0 {
      RowsFoldCollect(monthName, month, body, n - 1);
      RowResultCollect(monthName, month, GridCells(body, n - 1), body[n - 1]);
    }
  }

  /** The index in FilledCells(cells) of the filled cell at position p. */
  lemma {:induction false} FilledCellAt(cells: seq<Cell>, p: nat)
    requires p < |cells| && cells[p].shift != ""
    ensures |FilledCells(cells[..p])| < |FilledCells(cells)|
    ensures FilledCells(cells)[|FilledCells(cells[..p])|] == cells[p]
    ensures forall q :: p < q <= |cells| ==> |FilledCells(cells[..p])| < |FilledCells(cells[..q])|
  {
    var n := |cells| - 1;
    assert cells[..|cells|] == cells;
    if p < n {
      FilledCellAt(cells[..n], p);
      assert cells[..n][..p] == cells[..p];
      forall q | p < q <= |cells|
        ensures |FilledCells(cells[..p])| < |FilledCells(cells[..q])|
      {
        if q <= n {
          assert cells[..n][..q] == cells[..q];
        }
      }
    } else {
      assert cells[..p] == cells[..n];
    }
  }

  /** Each filled cell is a cell with a shift, at the index FilledCellAt names. */
  lemma {:induction false} FilledCellFrom(cells: seq<Cell>, k: nat)
    requires k < |FilledCells(cells)|
    ensures exists p :: 0 <= p < |cells| && cells[p].shift != "" && |FilledCells(cells[..p])| == k
  {
    var n := |cells| - 1;
    if k < |FilledCells(cells[..n])| {
      FilledCellFrom(cells[..n], k);
      var p :| 0 <= p < n && cells[..n][p].shift != "" && |FilledCells(cells[..n][..p])| == k;
      assert cells[..n][..p] == cells[..p];
    } else {
      assert cells[n].shift != "";
    }
  }

  // ---------------------------------------------------------------------
  // The whole grid.

  /**
   * What `import_calendar_from_csv` returns for a file with these rows: the
   * month name comes from the first row, the second row is skipped, and the
   * rows after them are read cell by cell.
   */
  function ImportSpec(rows: seq<seq<string>>): Result<seq<Shift>, Error>
  {
    if rows == [] then Err(MissingMonthRow)
    else if rows[0] == [] then Err(EmptyMonthRow)
    else if |rows| < 2 then Err(MissingWeekdayRow)
    else Collect(rows[0][0], MonthFromAbbreviation(rows[0][0]), GridCells(rows[2..], |rows| - 2))
  }

  /**
   * The loops of `import_calendar_from_csv`: every non-empty row after the
   * two header rows, every non-empty cell after the employee id, one
   * appended record each, until a date fails to parse.
   */
  method ImportCalendarFromCsv(rows: seq<seq<string>>) returns (r: Result<seq<Shift>, Error>)
    ensures r == ImportSpec(rows)
  {
    if |rows| == 0 {
      return Err(MissingMonthRow);
    }
    var monthYear := rows[0];
    if |monthYear| == 0 {
      return Err(EmptyMonthRow);
    }
    var monthName := monthYear[0];
    // `%b` reads the same month from the name for every cell, so it is read once.
    var month := MonthFromAbbreviation(monthName);
    if |rows| < 2 {
      return Err(MissingWeekdayRow);
    }
    // The second row, the days of the week, is read and never used.
    r := ImportRows(monthName, month, rows[2..]);
    RowsFoldCollect(monthName, month, rows[2..], |rows[2..]|);
    ImportSpecOfGrid(rows);
  }

  /**
   * The outer loop of `import_calendar_from_csv` over the rows after the
   * two header rows, stopping at the first row whose import fails.
   */
  method ImportRows(monthName: string, month: Option<int>, body: seq<seq<string>>) returns (r: Result<seq<Shift>, Error>)
    ensures r == RowsFold(monthName, month, body, |body|)
  {
    var calendarData: seq<Shift> := [];
    var n := 0;
    while n < |body|
      invariant 0 <= n <= |body|
      invariant RowsFold(monthName, month, body, n) == Ok(calendarData)
    {
      var step := ImportRow(monthName, month, calendarData, body[n]);
      if step.Err? {
        RowsFoldErr(monthName, month, body, n + 1, |body|);
        return step;
      }
      calendarData := step.value;
      n := n + 1;
    }
    return Ok(calendarData);
  }

  /**
   * The inner loop of `import_calendar_from_csv` over one row: skip an
   * empty row, otherwise append one record per filled cell after the
   * employee id, and stop at the first date that does not parse.
   */
  method ImportRow(monthName: string, month: Option<int>, calendarData: seq<Shift>, row: seq<string>)
    returns (r: Result<seq<Shift>, Error>)
    ensures r == RowResult(monthName, month, Ok(calendarData), row)
  {
    if |row| == 0 {
      return Ok(calendarData);
    }
    var employeeId := row[0];
    var shifts := row[1..];
    var records := calendarData;
    for i := 0 to |shifts|
      invariant RowFold(monthName, month, Ok(calendarData), employeeId, shifts, i) == Ok(records)
    {
      var shift := shifts[i];
      if shift != "" {
        var day := i + 1;
        var date := CellDate(month, day);
        if date.None? {
          RowFoldRaise(monthName, month, Ok(calendarData), employeeId, shifts, i, records);
          RowFoldErr(monthName, month, Ok(calendarData), employeeId, shifts, i + 1, |shifts|);
          return Err(InvalidDate(monthName, day));
        }
        RowFoldRecord(monthName, month, Ok(calendarData), employeeId, shifts, i, records);
        records := records + [Shift(employeeId, FormatIsoDate(date.value), shift)];
      } else {
        RowFoldSkip(monthName, month, Ok(calendarData), employeeId, shifts, i, records);
      }
    }
    return Ok(records);
  }

  // ---------------------------------------------------------------------
  // What the import promises.

  /** With both header rows present, the import collects the cells of the rows below them. */
  lemma ImportSpecOfGrid(rows: seq<seq<string>>)
    requires |rows| >= 2 && rows[0] != []
    ensures ImportSpec(rows) == Collect(rows[0][0], MonthFromAbbreviation(rows[0][0]), GridCells(rows[2..], |rows[2..]|))
  {
  }

  /** The day-of-week row never affects the result. */
  lemma ImportIgnoresWeekdayRow(rows: seq<seq<string>>, other: seq<string>)
    requires |rows| >= 2
    ensures ImportSpec(rows[1 := other]) == ImportSpec(rows)
  {
    assert rows[1 := other][2..] == rows[2..];
  }

  /**
   * A filled cell of the body, at row `r` and column `j` (day j). For a
   * file `rows`, the body is `rows[2..]`, the rows after the month row and
   * the weekday row, so body row `r` is row `r + 2` of the file.
   */
  predicate FilledAt(body: seq<seq<string>>, r: int, j: int)
  {
    0 <= r < |body| && 1 <= j < |body[r]| && body[r][j] != ""
  }

  /** A failed collection of the grid names a filled cell whose date does not exist. */
  lemma GridBadCellOfFailure(monthName: string, month: Option<int>, body: seq<seq<string>>)
    requires Collect(monthName, month, GridCells(body, |body|)).Err?
    ensures exists r, j :: FilledAt(body, r, j) && CellDate(month, j).None?
  {
    var cells := GridCells(body, |body|);
    CollectFails(monthName, month, cells);
    var i :| 0 <= i < |cells| && BadCell(month, cells[i]);
    GridCellFrom(body, |body|, i);
    var r, j :| 0 <= r < |body| && 1 <= j < |body[r]| && CellIndex(body, r, j) == i;
    GridCellAt(body, r, j);
    assert FilledAt(body, r, j) && CellDate(month, j).None?;
  }

  /** A filled cell whose date does not exist makes the collection of the grid fail. */
  lemma GridFailureOfBadCell(monthName: string, month: Option<int>, body: seq<seq<string>>, r: int, j: int)
    requires FilledAt(body, r, j) && CellDate(month, j).None?
    ensures Collect(monthName, month, GridCells(body, |body|)).Err?
  {
    var cells := GridCells(body, |body|);
    GridCellAt(body, r, j);
    assert BadCell(month, cells[CellIndex(body, r, j)]);
    CollectFails(monthName, month, cells);
  }

  /**
   * Given the header rows, the import fails exactly when some filled cell
   * names a day that does not exist: an unknown month name, or a day past
   * the end of the month in 2024.
   */
  lemma ImportFailsIffBadCell(rows: seq<seq<string>>)
    requires |rows| >= 2 && rows[0] != []
    ensures ImportSpec(rows).Err?
            <==> exists r, j :: FilledAt(rows[2..], r, j) && ImportDate(rows[0][0], j).None?
  {
    var body, name := rows[2..], rows[0][0];
    var month := MonthFromAbbreviation(name);
    ImportSpecOfGrid(rows);
    if ImportSpec(rows).Err? {
      GridBadCellOfFailure(name, month, body);
      var r, j :| FilledAt(body, r, j) && CellDate(month, j).None?;
      assert ImportDate(name, j).None?;
    }
    if exists r, j :: FilledAt(body, r, j) && ImportDate(name, j).None? {
      var r, j :| FilledAt(body, r, j) && ImportDate(name, j).None?;
      GridFailureOfBadCell(name, month, body, r, j);
    }
  }

  /** How many filled cells come before the cell at row `r`, column `j` of the body: the position of its record. */
  function GridRecordIndex(body: seq<seq<string>>, r: nat, j: nat): nat
    requires r < |body| && 1 <= j < |body[r]|
  {
    GridCellAt(body, r, j);
    |FilledCells(GridCells(body, |body|)[..CellIndex(body, r, j)])|
  }

  /**
   * Each filled cell becomes one record: the row's employee id, the date
   * `2024-<month>-<j>` in `%Y-%m-%d` form, and the cell's text.
   */
  lemma ImportRecordOfCell(rows: seq<seq<string>>, r: int, j: int)
    requires ImportSpec(rows).Ok? && |rows| >= 2 && FilledAt(rows[2..], r, j)
    ensures var recs, k := ImportSpec(rows).value, GridRecordIndex(rows[2..], r, j);
            k < |recs| && RecordOfCell(MonthFromAbbreviation(rows[0][0]), Cell(rows[2..][r][0], j - 1, rows[2..][r][j]), recs[k])
  {
    ImportSpecOfGrid(rows);
    GridRecordOfCell(rows[0][0], MonthFromAbbreviation(rows[0][0]), rows[2..], r, j);
  }

  /** A record's date text reads back as its cell's date. */
  lemma RecordDateParses(month: Option<int>, c: Cell, x: Shift)
    requires RecordOfCell(month, c, x)
    ensures ParseIsoDate(x.date) == CellDate(month, c.column + 1)
  {
    FormatThenParse(CellDate(month, c.column + 1).value);
  }

  /** The record of the filled cell at row `r`, column `j` of the body, once collecting succeeds. */
  lemma GridRecordOfCell(monthName: string, month: Option<int>, body: seq<seq<string>>, r: nat, j: nat)
    requires Collect(monthName, month, GridCells(body, |body|)).Ok?
    requires FilledAt(body, r, j)
    ensures var recs := Collect(monthName, month, GridCells(body, |body|)).value;
            var k := GridRecordIndex(body, r, j);
            k < |recs| && RecordOfCell(month, Cell(body[r][0], j - 1, body[r][j]), recs[k])
  {
    var cells := GridCells(body, |body|);
    var p := CellIndex(body, r, j);
    GridCellAt(body, r, j);
    CollectRecordAt(monthName, month, cells, p);
  }

  /** Records come out in row order, and left to right within a row. */
  lemma RecordsKeepGridOrder(body: seq<seq<string>>, r1: int, j1: int, r2: int, j2: int)
    requires FilledAt(body, r1, j1) && FilledAt(body, r2, j2)
    requires r1 < r2 || (r1 == r2 && j1 < j2)
    ensures GridRecordIndex(body, r1, j1) < GridRecordIndex(body, r2, j2)
  {
    var cells := GridCells(body, |body|);
    CellIndexIncreasing(body, r1, j1, r2, j2);
    GridCellAt(body, r1, j1);
    GridCellAt(body, r2, j2);
    FilledCellAt(cells, CellIndex(body, r1, j1));
  }

  /** Every record of a collected grid comes from a filled cell of it. */
  lemma GridRecordsComeFromCells(monthName: string, month: Option<int>, body: seq<seq<string>>, k: int)
    requires Collect(monthName, month, GridCells(body, |body|)).Ok?
    requires 0 <= k < |Collect(monthName, month, GridCells(body, |body|)).value|
    ensures exists r, j :: FilledAt(body, r, j) && GridRecordIndex(body, r, j) == k
  {
    var cells := GridCells(body, |body|);
    CollectRecords(monthName, month, cells);
    FilledCellFrom(cells, k);
    var p :| 0 <= p < |cells| && cells[p].shift != "" && |FilledCells(cells[..p])| == k;
    GridCellFrom(body, |body|, p);
    var r, j :| 0 <= r < |body| && 1 <= j < |body[r]| && CellIndex(body, r, j) == p;
    GridCellAt(body, r, j);
    assert FilledAt(body, r, j) && GridRecordIndex(body, r, j) == k;
  }

  /**
   * Every record comes from a filled cell below the header rows: the import
   * emits nothing for empty rows or empty cells.
   */
  lemma ImportRecordsComeFromCells(rows: seq<seq<string>>, k: int)
    requires ImportSpec(rows).Ok? && 0 <= k < |ImportSpec(rows).value|
    ensures |rows| >= 2 && exists r, j :: FilledAt(rows[2..], r, j) && GridRecordIndex(rows[2..], r, j) == k
  {
    ImportSpecOfGrid(rows);
    GridRecordsComeFromCells(rows[0][0], MonthFromAbbreviation(rows[0][0]), rows[2..], k);
  }

  /**
   * A July grid with one employee row `E001,AL,,EC`: the 1st and the 3rd
   * become records, the empty 2nd does not.
   */
  lemma ImportJulyExample()
    ensures ImportSpec([["Jul"], ["", "Mon", "Tue", "Wed"], ["E001", "AL", "", "EC"]])
            == Ok([Shift("E001", "2024-07-01", "AL"), Shift("E001", "2024-07-03", "EC")])
  {
    var rows := [["Jul"], ["", "Mon", "Tue", "Wed"], ["E001", "AL", "", "EC"]];
    var body := [["E001", "AL", "", "EC"]];
    JulyMonth();
    ImportSpecOfGrid(rows);
    assert rows[0][0] == "Jul" && rows[2..] == body;
    RowsFoldCollect("Jul", Some(7), body, 1);
    JulyGrid();
  }

  /** `%b` reads "Jul" as month 7. */
  lemma JulyMonth()
    ensures MonthFromAbbreviation("Jul") == Some(7)
  {
    AbbreviationsAreRecognised(7);
    assert MONTH_ABBREVIATIONS[6] == "Jul";
  }

  /** The body of the July example, row by row. */
  lemma JulyGrid()
    ensures RowsFold("Jul", Some(7), [["E001", "AL", "", "EC"]], 1)
            == Ok([Shift("E001", "2024-07-01", "AL"), Shift("E001", "2024-07-03", "EC")])
  {
    var body := [["E001", "AL", "", "EC"]];
    assert RowsFold("Jul", Some(7), body, 1) == RowFold("Jul", Some(7), Ok([]), "E001", body[0][1..], 3);
    assert body[0][1..] == ["AL", "", "EC"];
    JulyRow();
  }

  /** The employee row of the July example, cell by cell. */
  lemma JulyRow()
    ensures RowFold("Jul", Some(7), Ok([]), "E001", ["AL", "", "EC"], 3)
            == Ok([Shift("E001", "2024-07-01", "AL"), Shift("E001", "2024-07-03", "EC")])
  {
    var shifts, m := ["AL", "", "EC"], Some(7);
    var first, second := Shift("E001", "2024-07-01", "AL"), Shift("E001", "2024-07-03", "EC");
    assert CellDate(m, 1) == Some(Date(2024, 7, 1));
    assert CellDate(m, 3) == Some(Date(2024, 7, 3));
    assert FormatIsoDate(Date(2024, 7, 1)) == "2024-07-01";
    assert FormatIsoDate(Date(2024, 7, 3)) == "2024-07-03";
    assert RowFold("Jul", m, Ok([]), "E001", shifts, 0) == Ok([]);
    assert [] + [first] == [first];
    assert RowFold("Jul", m, Ok([]), "E001", shifts, 1) == Ok([first]);
    assert RowFold("Jul", m, Ok([]), "E001", shifts, 2) == Ok([first]);
    assert [first] + [second] == [first, second];
  }
}
