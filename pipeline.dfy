/** The two halves joined: the rows written by convert_table_data_to_csv
    are the records the slide script reads back, one record per row in
    order, and are laid into the slide table. */
module Pipeline {
  import opened RowReconstruction
  import SlideTable

  /** When grouping succeeds, reading the slide table back row by row,
      each row cut to its record's length, and joining the rows gives the
      detected texts in input order: every detection is shown exactly once
      and in order. Every cell read lies inside the table, and the table can
      be created (it has at least one row and one column) exactly when there
      was at least one detection. */
  lemma {:induction false} DetectionsReachSlide(ds: seq<Detection>, rows: seq<seq<string>>)
    requires Reconstruct(ds) == Ok(rows)
    ensures Flatten(SlideTable.ReadBack(rows)) == Texts(ds)
    ensures forall i :: 0 <= i < |rows| ==> |rows[i]| <= SlideTable.MaxRowLength(rows)
    ensures (|rows| == 0 || SlideTable.MaxRowLength(rows) == 0) <==> ds == []
  {
    NoLossNoDuplication(ds);
    ReconstructSucceedsIff(ds);
    RowsNonEmpty(ds);
    SlideTable.ReadBackIsRecords(rows);
    if ds != [] {
      assert |rows[0]| >= 1;
    }
  }
}
