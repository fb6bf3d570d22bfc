/** Slide table layout (main in csv_to_powerpoint.py): the records read
    back from the CSV file are laid into a table of len(rows) rows and as
    many columns as the longest record; cell (i, j) receives field j of
    record i, and the trailing cells of short records keep the blank text a
    new table cell starts with. The presentation object is modelled by a
    two-dimensional array of cell texts. */
module SlideTable {

  /** The text of a cell that has never been written. */
  const Blank: string := ""

  /** The longest record's length; 0 when there are no records. */
  function MaxRowLength(rows: seq<seq<string>>): nat
  {
    if rows == [] then 0
    else
      var m := MaxRowLength(rows[..|rows| - 1]);
      if |rows[|rows| - 1]| > m then |rows[|rows| - 1]| else m
  }

  /** MaxRowLength is the maximum: no record is longer, and some record is
      that long when there is any record at all. */
  lemma {:induction false} MaxRowLengthIsMaximum(rows: seq<seq<string>>)
    ensures forall i :: 0 <= i < |rows| ==> |rows[i]| <= MaxRowLength(rows)
    ensures rows == [] ==> MaxRowLength(rows) == 0
    ensures rows != [] ==> exists i :: 0 <= i < |rows| && |rows[i]| == MaxRowLength(rows)
  {
    if rows != [] {
      var pre := rows[..|rows| - 1];
      MaxRowLengthIsMaximum(pre);
      assert forall i :: 0 <= i < |pre| ==> pre[i] == rows[i];
      if pre != [] && MaxRowLength(rows) == MaxRowLength(pre) {
        var k :| 0 <= k < |pre| && |pre[k]| == MaxRowLength(pre);
        assert |rows[k]| == MaxRowLength(rows);
      }
    }
  }

  /** The running-maximum loop that sizes the table. */
  method LongestRow(rows: seq<seq<string>>) returns (longest: nat)
    ensures longest == MaxRowLength(rows)
    ensures forall i :: 0 <= i < |rows| ==> |rows[i]| <= longest
    ensures rows == [] ==> longest == 0
    ensures rows != [] ==> exists i :: 0 <= i < |rows| && |rows[i]| == longest
  {
    longest := 0;
    for k := 0 to |rows|
      invariant longest == MaxRowLength(rows[..k])
    {
      assert rows[..k + 1][..k] == rows[..k];
      if |rows[k]| > longest {
        longest := |rows[k]|;
      }
    }
    assert rows[..|rows|] == rows;
    MaxRowLengthIsMaximum(rows);
  }

  /** What cell (i, j) shows once the table is filled: field j of record i
      when the record has one, the blank text otherwise. */
  function CellText(rows: seq<seq<string>>, i: nat, j: nat): string
    requires i < |rows|
  {
    if j < |rows[i]| then rows[i][j] else Blank
  }

  /** Row i of the filled table, read across all of its columns. */
  function TableRow(rows: seq<seq<string>>, i: nat): seq<string>
    requires i < |rows|
  {
    seq(MaxRowLength(rows), (j: int) requires 0 <= j => CellText(rows, i, j))
  }

  /** The first |rows[i]| cells of table row i are record i: no field is
      lost or cut off, and the padding after them is blank. */
  lemma TableRowRecoversRecord(rows: seq<seq<string>>, i: nat)
    requires i < |rows|
    ensures |rows[i]| <= |TableRow(rows, i)|
    ensures TableRow(rows, i)[..|rows[i]|] == rows[i]
    ensures forall j :: |rows[i]| <= j < |TableRow(rows, i)| ==> TableRow(rows, i)[j] == Blank
  {
    MaxRowLengthIsMaximum(rows);
  }

  /** Each record read back from the filled table: row i, cut to the
      record's own length. */
  function ReadBack(rows: seq<seq<string>>): seq<seq<string>>
  {
    seq(|rows|, (i: int) requires 0 <= i < |rows| =>
      seq(|rows[i]|, (j: int) requires 0 <= j => CellText(rows, i, j)))
  }

  /** Reading the records back from the table gives exactly the records,
      and every cell read lies inside the table's columns. */
  lemma ReadBackIsRecords(rows: seq<seq<string>>)
    ensures ReadBack(rows) == rows
    ensures forall i :: 0 <= i < |rows| ==> |rows[i]| <= MaxRowLength(rows)
  {
    MaxRowLengthIsMaximum(rows);
    forall i | 0 <= i < |rows|
      ensures ReadBack(rows)[i] == rows[i]
    {
    }
  }

  /** The outcome of sizing and filling the slide table. The presentation
      library divides the table's height and width by its row and column
      counts, so a table with no rows or no columns is refused. */
  datatype Layout = Table(cells: array2<string>) | ZeroSizedTable

  /** Sizes a table of len(rows) by the longest record, all cells blank,
      then writes each record's fields into its row, left to right. Every
      write is in bounds (the array accesses are checked). With no records,
      or only empty ones, no table can be created. */
  method FillTable(rows: seq<seq<string>>) returns (r: Layout)
    ensures r.ZeroSizedTable? <==> (|rows| == 0 || MaxRowLength(rows) == 0)
    ensures r.Table? ==> fresh(r.cells)
    ensures r.Table? ==>
      r.cells.Length0 == |rows| && r.cells.Length1 == MaxRowLength(rows)
    ensures r.Table? ==>
      forall i, j :: 0 <= i < r.cells.Length0 && 0 <= j < r.cells.Length1 ==>
        r.cells[i, j] == CellText(rows, i, j)
  {
    var longest := LongestRow(rows);
    if |rows| == 0 || longest == 0 {
      return ZeroSizedTable;
    }
    var table := new string[|rows|, longest]((i, j) => Blank);
    for i := 0 to |rows|
      invariant forall r, c :: 0 <= r < i && 0 <= c < longest ==>
        table[r, c] == CellText(rows, r, c)
      invariant forall r, c :: i <= r < |rows| && 0 <= c < longest ==>
        table[r, c] == Blank
    {
      for j := 0 to |rows[i]|
        invariant forall r, c :: 0 <= r < i && 0 <= c < longest ==>
          table[r, c] == CellText(rows, r, c)
        invariant forall c :: 0 <= c < j ==> table[i, c] == rows[i][c]
        invariant forall c :: j <= c < longest ==> table[i, c] == Blank
        invariant forall r, c :: i < r < |rows| && 0 <= c < longest ==>
          table[r, c] == Blank
      {
        table[i, j] := rows[i][j];
      }
    }
    r := Table(table);
  }
}
