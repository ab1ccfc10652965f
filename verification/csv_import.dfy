/** `import_csv_to_db`: the CSV is read into a frame, two legacy column
    names are renamed, the status `Opened` is rewritten to `Open`, and the
    rows are inserted one at a time.  A row whose insert fails is counted
    and skipped; the others stay in the table. */
module CsvImport {
  import opened Common
  import opened QueryIds
  import opened Tickets

  /** A CSV as pandas holds it: column names and rows of cells, an empty
      cell (NaN) being `None`. */
  datatype Frame = Frame(columns: seq<string>, rows: seq<seq<Option<string>>>)

  /** The first position of `name` among the columns. */
  function IndexOf(cols: seq<string>, name: string): (r: Option<nat>)
    ensures r.None? <==> name !in cols
    ensures r.Some? ==> r.value < |cols| && cols[r.value] == name && name !in cols[..r.value]
  {
    if cols == [] then None
    else if cols[0] == name then Some(0)
    else
      match IndexOf(cols[1..], name)
      case None => None
      case Some(i) =>
        assert cols[..i + 1] == [cols[0]] + cols[1..][..i];
        Some(i + 1)
  }

  /** `df.rename(columns={from: to})` for one pair. */
  function RenameColumn(cols: seq<string>, from: string, to: string): (r: seq<string>)
    ensures |r| == |cols|
  {
    seq(|cols|, i requires 0 <= i < |cols| => if cols[i] == from then to else cols[i])
  }

  /** `df.rename(columns={"date_raised": "query_created_time",
      "date_closed": "query_closed_time"})`: each legacy name is replaced by
      its new one and every other column keeps its name and place. */
  function RenameColumns(cols: seq<string>): (r: seq<string>)
    ensures |r| == |cols|
    ensures forall i :: 0 <= i < |cols| ==>
              r[i] == (if cols[i] == "date_raised" then "query_created_time"
                       else if cols[i] == "date_closed" then "query_closed_time"
                       else cols[i])
  {
    RenameColumn(RenameColumn(cols, "date_raised", "query_created_time"), "date_closed", "query_closed_time")
  }

  /** Renaming leaves every other column name where it was, and the new
      name is found where the old one was. */
  lemma RenameKeepsOthers(cols: seq<string>, from: string, to: string)
    ensures forall i :: 0 <= i < |cols| && cols[i] != from ==> RenameColumn(cols, from, to)[i] == cols[i]
    ensures from in cols && to !in cols ==> IndexOf(RenameColumn(cols, from, to), to) == IndexOf(cols, from)
    ensures from != to ==> from !in RenameColumn(cols, from, to)
  {
    var r := RenameColumn(cols, from, to);
    if from in cols && to !in cols {
      var i := IndexOf(cols, from).value;
      assert r[i] == to;
      assert forall j :: 0 <= j < i ==> r[..i][j] == r[j] && r[j] == cols[j] && cols[j] == cols[..i][j];
      assert to !in r[..i];
      var k := IndexOf(r, to).value;
      assert r[k] == to;
      assert !(k < i);
    }
  }

  /** When `b` stands in `ys` exactly where `a` stands in `xs`, the first
      `b` of `ys` is where the first `a` of `xs` is. */
  lemma {:induction false} IndexOfMatched(xs: seq<string>, ys: seq<string>, a: string, b: string)
    requires |xs| == |ys|
    requires forall i :: 0 <= i < |xs| ==> (ys[i] == b <==> xs[i] == a)
    ensures IndexOf(ys, b) == IndexOf(xs, a)
    decreases |xs|
  {
    if xs != [] && xs[0] != a {
      assert forall i :: 0 <= i < |xs| - 1 ==> xs[1..][i] == xs[i + 1] && ys[1..][i] == ys[i + 1];
      IndexOfMatched(xs[1..], ys[1..], a, b);
    }
  }

  /** A file that does not already use the new names finds its time
      columns where the legacy `date_raised` and `date_closed` were (and
      finds none where there were none). */
  lemma LegacyDateColumnsRenamed(cols: seq<string>)
    requires "query_created_time" !in cols && "query_closed_time" !in cols
    ensures IndexOf(RenameColumns(cols), "query_created_time") == IndexOf(cols, "date_raised")
    ensures IndexOf(RenameColumns(cols), "query_closed_time") == IndexOf(cols, "date_closed")
  {
    var r := RenameColumns(cols);
    IndexOfMatched(cols, r, "date_raised", "query_created_time");
    IndexOfMatched(cols, r, "date_closed", "query_closed_time");
  }

  const Opened: string := "Opened"

  /** `replace({"Opened": "Open"})` on one cell: only that exact value
      changes. */
  function NormaliseStatus(v: Option<string>): (r: Option<string>)
    ensures r != v <==> v == Some(Opened)
    ensures r != Some(Opened)
    ensures v == Some(Opened) ==> r == Some(StatusOpen)
  {
    if v == Some(Opened) then Some(StatusOpen) else v
  }

  lemma NormaliseStatusIdempotent(v: Option<string>)
    ensures NormaliseStatus(NormaliseStatus(v)) == NormaliseStatus(v)
  {
  }

  /** The same replacement over one column of every row. */
  function NormaliseColumn(rows: seq<seq<Option<string>>>, idx: nat): (r: seq<seq<Option<string>>>)
    ensures |r| == |rows|
    ensures forall i :: 0 <= i < |rows| ==> |r[i]| == |rows[i]|
    ensures forall i, j :: 0 <= i < |rows| && 0 <= j < |rows[i]| && j != idx ==> r[i][j] == rows[i][j]
    ensures forall i :: 0 <= i < |rows| && idx < |rows[i]| ==> r[i][idx] == NormaliseStatus(rows[i][idx])
  {
    seq(|rows|, i requires 0 <= i < |rows| =>
      if idx < |rows[i]| then rows[i][idx := NormaliseStatus(rows[i][idx])] else rows[i])
  }

  /** Normalising a normalised column changes nothing, and no cell of the
      column is left `Opened`. */
  lemma NormaliseColumnIdempotent(rows: seq<seq<Option<string>>>, idx: nat)
    ensures NormaliseColumn(NormaliseColumn(rows, idx), idx) == NormaliseColumn(rows, idx)
    ensures forall i :: 0 <= i < |rows| && idx < |rows[i]| ==> NormaliseColumn(rows, idx)[i][idx] != Some(Opened)
  {
    var once := NormaliseColumn(rows, idx);
    var twice := NormaliseColumn(once, idx);
    forall i | 0 <= i < |rows|
      ensures twice[i] == once[i]
    {
      if idx < |rows[i]| {
        NormaliseStatusIdempotent(rows[i][idx]);
      }
    }
  }

  datatype ImportError = MissingColumn(name: string)

  /** The preparation before the loop: rename the legacy columns, then
      read `df["status"]`, `df["query_created_time"]` and
      `df["query_closed_time"]`, each of which raises `KeyError` (ending the
      import before any insert) when the column is absent. */
  function Prepare(f: Frame): (r: Result<Frame, ImportError>)
    ensures r.Success? <==>
              && "status" in RenameColumns(f.columns)
              && "query_created_time" in RenameColumns(f.columns)
              && "query_closed_time" in RenameColumns(f.columns)
    ensures r.Failure? && "status" !in RenameColumns(f.columns) ==> r.error == MissingColumn("status")
    ensures r.Success? ==> r.value.columns == RenameColumns(f.columns) && |r.value.rows| == |f.rows|
    ensures r.Success? ==> forall i :: 0 <= i < |f.rows| ==> |r.value.rows[i]| == |f.rows[i]|
    ensures r.Success? ==> r.value.rows == NormaliseColumn(f.rows, IndexOf(RenameColumns(f.columns), "status").value)
  {
    var cols := RenameColumns(f.columns);
    match IndexOf(cols, "status")
    case None => Failure(MissingColumn("status"))
    case Some(s) =>
      if "query_created_time" !in cols then Failure(MissingColumn("query_created_time"))
      else if "query_closed_time" !in cols then Failure(MissingColumn("query_closed_time"))
      else Success(Frame(cols, NormaliseColumn(f.rows, s)))
  }

  /** After preparing, no status cell reads `Opened`. */
  lemma PreparedHasNoOpened(f: Frame)
    requires Prepare(f).Success?
    ensures forall i :: 0 <= i < |f.rows| ==>
              Cell(Prepare(f).value.columns, Prepare(f).value.rows[i], "status") != Some(Some(Opened))
  {
    var s := IndexOf(RenameColumns(f.columns), "status").value;
    NormaliseColumnIdempotent(f.rows, s);
  }

  /** `row[name]`: `None` when the frame has no such column (a `KeyError`),
      otherwise the cell, a short row reading as empty. */
  function Cell(cols: seq<string>, row: seq<Option<string>>, name: string): (r: Option<Option<string>>)
    ensures r.None? <==> name !in cols
  {
    match IndexOf(cols, name)
    case None => None
    case Some(i) => Some(if i < |row| then row[i] else None)
  }

  /** The id a row asks for: `None` without a `query_id` column, `""` for
      an empty cell (NULL when the driver accepts the NaN, so the trigger
      fires). */
  function IdCell(cols: seq<string>, row: seq<Option<string>>): Option<string> {
    match Cell(cols, row, "query_id")
    case None => None
    case Some(v) => Some(if v.Some? then v.value else "")
  }

  predicate NeedsTrigger(cols: seq<string>, row: seq<Option<string>>) {
    IdCell(cols, row) == Some("")
  }

  /** Ids the model covers: empty, or of the `Q` + digits shape. */
  predicate IdShapeOk(cols: seq<string>, row: seq<Option<string>>) {
    IdCell(cols, row).None? || IdCell(cols, row).value == "" || IsQId(IdCell(cols, row).value)
  }

  /** The cells each row reads with `row[...]`, in the order it reads them. */
  const RequiredFields: seq<string> :=
    ["query_id", "client_email", "client_mobile", "query_heading", "query_description"]

  datatype RowError = MissingField(name: string) | MissingValueRejected | Refused(error: InsertError)

  /** The tuple handed to `cursor.execute` for one row.  The five fields
      read with `row[...]` must exist; status and the times are read with
      `row.get`, status defaulting to `Open`; a time is parsed by `parse`,
      `None` standing for NaT.  A missing value is written `None` here;
      whether the driver takes it as NULL is decided by `TryRow`. */
  function ToTicket(cols: seq<string>, row: seq<Option<string>>, parse: string -> Option<int>)
    : (r: Result<Ticket, RowError>)
    ensures r.Success? <==>
              forall name :: name in RequiredFields ==> name in cols
    ensures r.Success? ==> Some(r.value.queryId) == IdCell(cols, row)
    ensures r.Success? ==> r.value.status == (if "status" in cols then Cell(cols, row, "status").value
                                              else Some(StatusOpen))
    ensures r.Success? ==> && r.value.email == Cell(cols, row, "client_email").value
                           && r.value.mobile == Cell(cols, row, "client_mobile").value
                           && r.value.heading == Cell(cols, row, "query_heading").value
                           && r.value.description == Cell(cols, row, "query_description").value
    ensures r.Success? ==> && r.value.created == Time(Cell(cols, row, "query_created_time"), parse)
                           && r.value.closed == Time(Cell(cols, row, "query_closed_time"), parse)
  {
    if "query_id" !in cols then Failure(MissingField("query_id"))
    else if "client_email" !in cols then Failure(MissingField("client_email"))
    else if "client_mobile" !in cols then Failure(MissingField("client_mobile"))
    else if "query_heading" !in cols then Failure(MissingField("query_heading"))
    else if "query_description" !in cols then Failure(MissingField("query_description"))
    else
      Success(Ticket(
        IdCell(cols, row).value,
        Cell(cols, row, "client_email").value,
        Cell(cols, row, "client_mobile").value,
        Cell(cols, row, "query_heading").value,
        Cell(cols, row, "query_description").value,
        match Cell(cols, row, "status") case None => Some(StatusOpen) case Some(v) => v,
        Time(Cell(cols, row, "query_created_time"), parse),
        Time(Cell(cols, row, "query_closed_time"), parse)))
  }

  function Time(cell: Option<Option<string>>, parse: string -> Option<int>): Option<int> {
    match cell
    case Some(Some(text)) => parse(text)
    case _ => None
  }

  /** What the import takes from outside.  `parse` is `pd.to_datetime(...,
      errors="coerce")` on one cell, `None` standing for NaT.  `acceptsNaN`
      is the database driver's verdict on a row that hands it a pandas
      missing value: `true` when it stores them as NULL, `false` when
      `cursor.execute` raises. */
  datatype Io = Io(parse: string -> Option<int>, acceptsNaN: seq<Option<string>> -> bool)

  /** A time cell that `pd.to_datetime(..., errors="coerce")` turns into
      NaT: empty, or not parsable.  A column the frame lacks reads as
      `None` through `row.get`, which is no NaT. */
  predicate IsNaT(cell: Option<Option<string>>, parse: string -> Option<int>) {
    match cell
    case Some(None) => true
    case Some(Some(text)) => parse(text).None?
    case None => false
  }

  /** The row hands the driver a pandas missing value rather than `None`:
      an empty cell (NaN) among the five `row[...]` fields or the status, or
      a creation or closing time that is NaT.  The closing time's
      `.where(notna(), None)` does not help: on a datetime column pandas
      fills the gap with NaT again. */
  predicate HandsOverMissing(cols: seq<string>, row: seq<Option<string>>, parse: string -> Option<int>) {
    || (exists i :: 0 <= i < |RequiredFields| && Cell(cols, row, RequiredFields[i]) == Some(None))
    || Cell(cols, row, "status") == Some(None)
    || IsNaT(Cell(cols, row, "query_created_time"), parse)
    || IsNaT(Cell(cols, row, "query_closed_time"), parse)
  }

  /** The row's id can be handled: shaped as the model covers, and when it
      is empty the trigger has stored ids to read. */
  predicate RowModelled(t: Table, cols: seq<string>, row: seq<Option<string>>) {
    IdShapeOk(cols, row) && (NeedsTrigger(cols, row) ==> TriggerDefined(t))
  }

  /** The `try` body for one row: build the tuple, then insert it. */
  function TryRow(t: Table, cols: seq<string>, row: seq<Option<string>>, io: Io)
    : (r: Result<Table, RowError>)
    requires RowModelled(t, cols, row)
    ensures r.Success? <==> (&& ToTicket(cols, row, io.parse).Success?
                             && (HandsOverMissing(cols, row, io.parse) ==> io.acceptsNaN(row))
                             && ValidStatus(ToTicket(cols, row, io.parse).value.status)
                             && AssignedId(t, ToTicket(cols, row, io.parse).value.queryId) !in Ids(t))
    ensures r.Success? ==> |r.value| == |t| + 1 && r.value[..|t|] == t
    ensures r.Success? ==> r.value[|t|] == ToTicket(cols, row, io.parse).value.(
                             queryId := AssignedId(t, ToTicket(cols, row, io.parse).value.queryId))
    ensures r.Success? && Schema(t) ==> Schema(r.value)
    ensures r.Success? && WellFormedIds(t) ==> WellFormedIds(r.value)
  {
    match ToTicket(cols, row, io.parse)
    case Failure(e) => Failure(e)
    case Success(ticket) =>
      if HandsOverMissing(cols, row, io.parse) && !io.acceptsNaN(row) then Failure(MissingValueRejected)
      else
      match Insert(t, ticket)
      case Failure(e) => Failure(Refused(e))
      case Success(t') => Success(t')
  }

  /** A row that hands the driver no NaN or NaT (every cell filled and both
      times parsable, or a time column absent) fares the same whatever the
      driver does with missing values. */
  lemma CompleteRowIgnoresDriver(t: Table, cols: seq<string>, row: seq<Option<string>>,
                                  parse: string -> Option<int>,
                                  a1: seq<Option<string>> -> bool, a2: seq<Option<string>> -> bool)
    requires RowModelled(t, cols, row)
    requires !HandsOverMissing(cols, row, parse)
    ensures TryRow(t, cols, row, Io(parse, a1)) == TryRow(t, cols, row, Io(parse, a2))
  {
  }

  /** A row whose empty cell the driver refuses is skipped, whatever else
      it holds: an open ticket with an empty closing time among them. */
  lemma RejectedMissingValueFails(t: Table, cols: seq<string>, row: seq<Option<string>>, io: Io)
    requires RowModelled(t, cols, row)
    requires HandsOverMissing(cols, row, io.parse) && !io.acceptsNaN(row)
    ensures TryRow(t, cols, row, io).Failure?
  {
  }

  /** The state of the loop: the table and the two counters. */
  datatype Report = Report(table: Table, success: nat, fail: nat)

  /** One pass of the loop body: `success += 1` with the row stored, or
      `fail += 1` with the table as it was. */
  function Step(rep: Report, cols: seq<string>, row: seq<Option<string>>, io: Io)
    : (r: Report)
    requires RowModelled(rep.table, cols, row)
    ensures r.success + r.fail == rep.success + rep.fail + 1
    ensures r.success >= rep.success
    ensures |r.table| == |rep.table| + r.success - rep.success
    ensures r.table[..|rep.table|] == rep.table
    ensures TryRow(rep.table, cols, row, io).Success? ==>
              r == Report(TryRow(rep.table, cols, row, io).value, rep.success + 1, rep.fail)
    ensures TryRow(rep.table, cols, row, io).Failure? ==> r == Report(rep.table, rep.success, rep.fail + 1)
  {
    match TryRow(rep.table, cols, row, io)
    case Success(t') => Report(t', rep.success + 1, rep.fail)
    case Failure(_) => Report(rep.table, rep.success, rep.fail + 1)
  }

  /** What the import may assume of the table and the rows. */
  predicate ImportModelled(t: Table, cols: seq<string>, rows: seq<seq<Option<string>>>) {
    && WellFormedIds(t)
    && (forall i :: 0 <= i < |rows| ==> IdShapeOk(cols, rows[i]))
    && (|t| > 0 || forall i :: 0 <= i < |rows| ==> !NeedsTrigger(cols, rows[i]))
  }

  /** The whole loop over `rows`, starting from `start`.  Every row is
      counted once, as a success or a failure; the table only grows, by
      exactly the successes, keeps what it held before and keeps the
      schema's constraints. */
  function Fold(start: Report, cols: seq<string>, rows: seq<seq<Option<string>>>,
                io: Io): (r: Report)
    requires ImportModelled(start.table, cols, rows)
    ensures r.success + r.fail == start.success + start.fail + |rows|
    ensures r.success >= start.success
    ensures |r.table| == |start.table| + r.success - start.success
    ensures r.table[..|start.table|] == start.table
    ensures WellFormedIds(r.table)
    ensures Schema(start.table) ==> Schema(r.table)
    decreases |rows|
  {
    if rows == [] then
      assert start.table[..|start.table|] == start.table;
      start
    else
      var front := rows[..|rows| - 1];
      var last := rows[|rows| - 1];
      var mid := Fold(start, cols, front, io);
      assert RowModelled(mid.table, cols, last) by {
        assert last == rows[|rows| - 1];
        if NeedsTrigger(cols, last) {
          assert |start.table| > 0;
          assert |mid.table| >= |start.table|;
        }
      }
      var r := Step(mid, cols, last, io);
      StepKeeps(mid, cols, last, io);
      assert r.table[..|start.table|] == r.table[..|mid.table|][..|start.table|];
      r
  }

  /** The loop over one more row is one more step. */
  lemma FoldSnoc(start: Report, cols: seq<string>, rows: seq<seq<Option<string>>>,
                 row: seq<Option<string>>, io: Io)
    requires ImportModelled(start.table, cols, rows + [row])
    ensures ImportModelled(start.table, cols, rows)
    ensures RowModelled(Fold(start, cols, rows, io).table, cols, row)
    ensures Fold(start, cols, rows + [row], io) == Step(Fold(start, cols, rows, io), cols, row, io)
  {
    assert (rows + [row])[..|rows|] == rows;
    assert forall i :: 0 <= i < |rows| ==> rows[i] == (rows + [row])[i];
    assert (rows + [row])[|rows|] == row;
  }

  lemma StepKeeps(rep: Report, cols: seq<string>, row: seq<Option<string>>, io: Io)
    requires RowModelled(rep.table, cols, row)
    ensures WellFormedIds(rep.table) ==> WellFormedIds(Step(rep, cols, row, io).table)
    ensures Schema(rep.table) ==> Schema(Step(rep, cols, row, io).table)
    ensures Step(rep, cols, row, io).success >= rep.success
  {
  }

  lemma ImportModelledPrefix(t: Table, cols: seq<string>, rows: seq<seq<Option<string>>>, n: nat)
    requires ImportModelled(t, cols, rows) && n <= |rows|
    ensures ImportModelled(t, cols, rows[..n])
  {
  }

  /** A row that fails is skipped: the table stays as it was, the failure
      counter goes up by one, and the loop carries on with the next row. */
  lemma FailedRowSkipped(start: Report, cols: seq<string>, rows: seq<seq<Option<string>>>,
                         row: seq<Option<string>>, io: Io)
    requires ImportModelled(start.table, cols, rows + [row])
    requires ImportModelled(start.table, cols, rows)
    requires RowModelled(Fold(start, cols, rows, io).table, cols, row)
    requires TryRow(Fold(start, cols, rows, io).table, cols, row, io).Failure?
    ensures Fold(start, cols, rows + [row], io).table == Fold(start, cols, rows, io).table
    ensures Fold(start, cols, rows + [row], io).success == Fold(start, cols, rows, io).success
    ensures Fold(start, cols, rows + [row], io).fail == Fold(start, cols, rows, io).fail + 1
  {
    assert (rows + [row])[..|rows|] == rows;
  }

  /** Re-importing a file whose every id is already stored adds nothing:
      each row fails on the primary key, whatever else it holds. */
  lemma {:induction false} ReimportAddsNothing(start: Report, cols: seq<string>,
                                               rows: seq<seq<Option<string>>>, io: Io)
    requires ImportModelled(start.table, cols, rows)
    requires forall i :: 0 <= i < |rows| ==>
               IdCell(cols, rows[i]).Some? && IdCell(cols, rows[i]).value != ""
               && IdCell(cols, rows[i]).value in Ids(start.table)
    ensures Fold(start, cols, rows, io).table == start.table
    ensures Fold(start, cols, rows, io).success == start.success
    ensures Fold(start, cols, rows, io).fail == start.fail + |rows|
    decreases |rows|
  {
    if rows != [] {
      var front := rows[..|rows| - 1];
      assert forall i :: 0 <= i < |front| ==> front[i] == rows[i];
      ReimportAddsNothing(start, cols, front, io);
    }
  }

  /** The loop, as written: one `try` per row, in file order. */
  method ImportRows(t: Table, cols: seq<string>, rows: seq<seq<Option<string>>>,
                    io: Io) returns (rep: Report)
    requires ImportModelled(t, cols, rows)
    ensures rep == Fold(Report(t, 0, 0), cols, rows, io)
    ensures rep.success + rep.fail == |rows|
    ensures |rep.table| == |t| + rep.success && rep.table[..|t|] == t
    ensures Schema(t) ==> Schema(rep.table)
  {
    rep := Report(t, 0, 0);
    var i := 0;
    while i < |rows|
      invariant 0 <= i <= |rows|
      invariant ImportModelled(t, cols, rows[..i])
      invariant rep == Fold(Report(t, 0, 0), cols, rows[..i], io)
      decreases |rows| - i
    {
      var row := rows[i];
      ImportModelledPrefix(t, cols, rows, i + 1);
      assert rows[..i + 1] == rows[..i] + [row];
      FoldSnoc(Report(t, 0, 0), cols, rows[..i], row, io);
      rep := Step(rep, cols, row, io);
      i := i + 1;
    }
    assert rows[..|rows|] == rows;
  }

  /** The whole import: a missing status or time column ends it before any
      insert, with the table untouched; otherwise every row is tried. */
  method ImportCsv(f: Frame, t: Table, io: Io) returns (r: Result<Report, ImportError>)
    requires ImportModelled(t, RenameColumns(f.columns), f.rows)
    ensures r.Failure? <==> Prepare(f).Failure?
    ensures r.Success? ==> r.value.success + r.value.fail == |f.rows|
    ensures r.Success? ==> |r.value.table| == |t| + r.value.success && r.value.table[..|t|] == t
    ensures r.Success? && Schema(t) ==> Schema(r.value.table)
    ensures r.Success? ==> && Prepare(f).Success?
                           && ImportModelled(t, Prepare(f).value.columns, Prepare(f).value.rows)
                           && r.value == Fold(Report(t, 0, 0), Prepare(f).value.columns, Prepare(f).value.rows, io)
  {
    var prepared := Prepare(f);
    if prepared.Failure? {
      r := Failure(prepared.error);
    } else {
      var g := prepared.value;
      PreparedModelled(f, t);
      var rep := ImportRows(t, g.columns, g.rows, io);
      r := Success(rep);
    }
  }

  /** Preparing keeps what the import may assume of the rows. */
  lemma PreparedModelled(f: Frame, t: Table)
    requires ImportModelled(t, RenameColumns(f.columns), f.rows)
    requires Prepare(f).Success?
    ensures ImportModelled(t, Prepare(f).value.columns, Prepare(f).value.rows)
  {
    PrepareKeepsIds(f);
  }

  /** Preparing never touches the `query_id` cells. */
  lemma PrepareKeepsIds(f: Frame)
    requires Prepare(f).Success?
    ensures forall i :: 0 <= i < |f.rows| ==>
              IdCell(Prepare(f).value.columns, Prepare(f).value.rows[i])
              == IdCell(RenameColumns(f.columns), f.rows[i])
  {
    var cols := RenameColumns(f.columns);
    var s := IndexOf(cols, "status").value;
    match IndexOf(cols, "query_id")
    case None =>
    case Some(q) =>
      assert q != s;
  }
}
