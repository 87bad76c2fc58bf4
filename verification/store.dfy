/**
 Full-table persistence. Saving clears the sheet and writes the header row
 followed by one row of eleven text cells per record; loading reads the data
 rows back as records keyed by the header (gspread's `get_all_records`) and
 wraps them in a frame (a pandas DataFrame: column labels plus rows). Both
 front ends share these pieces; they differ only in how an empty read is
 turned into a frame.
 */
module Store {
  import opened Records
  import opened Lifecycle

  /** Sheet contents, row by row. */
  type Grid = seq<seq<string>>

  /** What one read of the sheet produced: its records, or a failure (any exception). */
  datatype Fetch = Fetched(records: Table) | Unavailable

  /** An in-memory frame: its column labels and its rows. */
  datatype Frame = Frame(columns: seq<string>, rows: Table)

  /** What one button press leaves behind: the grid written to the sheet, if any, and the outcome shown. */
  datatype Response = Response(written: Option<Grid>, outcome: Outcome)

  /** Cell `k` of a sheet row; a row shorter than the header reads as blank there. */
  function Cell(c: seq<string>, k: nat): string {
    if k < |c| then c[k] else ""
  }

  /** A data row read under the fixed header. */
  function FromCells(c: seq<string>): Record {
    Record(Cell(c, 0), Cell(c, 1), Cell(c, 2), Cell(c, 3), Cell(c, 4), Cell(c, 5),
           Cell(c, 6), Cell(c, 7), Cell(c, 8), Cell(c, 9), Cell(c, 10))
  }

  /** A record as one sheet row, one cell per column of the header. */
  function Cells(x: Record): (c: seq<string>)
    ensures |c| == |Columns|
    ensures c[1] == x.serial && c[4] == x.status
    ensures FromCells(c) == x
  {
    [x.model, x.serial, x.partNo, x.courier, x.status, x.sentAt, x.client,
     x.sentAttachment, x.receivedAt, x.returnCourier, x.returnAttachment]
  }

  /** The data rows under the header row, as records. */
  function ReadRecords(g: Grid): (t: Table)
    ensures |g| > 0 ==> |t| == |g| - 1
    ensures |g| <= 1 ==> t == []
    ensures forall i :: 0 <= i < |t| ==> t[i].serial == Cell(g[i + 1], 1) && t[i].status == Cell(g[i + 1], 4)
  {
    if |g| == 0 then [] else seq(|g| - 1, i requires 0 <= i < |g| - 1 => FromCells(g[i + 1]))
  }

  /** The whole sheet after a save: the header row, then every record in order. */
  function Save(t: Table): (g: Grid)
    ensures |g| == |t| + 1
    ensures g[0] == Columns
    ensures ReadRecords(g) == t
  {
    [Columns] + seq(|t|, i requires 0 <= i < |t| => Cells(t[i]))
  }

  /** The key column of a frame, or None where pandas raises KeyError because the frame has no 序列号 column. */
  function KeyedRows(fr: Frame): (r: Option<Table>)
    ensures r.Some? <==> SerialColumn in fr.columns
    ensures r.Some? ==> r.value == fr.rows
    ensures fr.columns == Columns ==> r == Some(fr.rows)
    ensures fr.columns == [] ==> r == None
  {
    if SerialColumn in fr.columns then Some(fr.rows) else None
  }

  /** Write the table back after a transition, which the pages do only when it succeeded. */
  function Commit(step: Step): (r: Response)
    ensures r.outcome == step.outcome
    ensures r.written.Some? <==> step.outcome == Success
    ensures r.written.Some? ==> |r.written.value| > 0 && r.written.value[0] == Columns && ReadRecords(r.written.value) == step.table
  {
    if step.outcome == Success then Response(Some(Save(step.table)), Success)
    else Response(None, step.outcome)
  }
}
