# Table rows from OCR detections, and their slide layout

This project models the two parts of the PDF-table-to-slide scripts that
carry logic of their own:

- **Row reconstruction** (`convert_table_data_to_csv`, pdf_to_csv.py). The
  OCR engine's detections arrive in the engine's order, each with four
  corner points and a text. One forward pass keeps a running baseline
  (initially 0). A detection whose bottom-left y lies strictly more than 20
  pixels below the baseline opens a new row and becomes the new baseline.
  Every detection's text is then appended to the last row. If the first
  detection's y is at most 20, no row exists when its text is appended, and
  the source raises `IndexError`.
- **Slide table layout** (`main`, csv_to_powerpoint.py). The records read
  back from the CSV file are laid into a table with one row per record and
  as many columns as the longest record. A running-maximum loop finds that
  width. Cell (i, j) receives field j of record i, and trailing cells of
  short records stay blank.

Files:

- `row_reconstruction.dfy` (module `RowReconstruction`): a detection is
  `Detection(bottomLeftY, text)`. `ConvertTableData` is the loop as written:
  it keeps the row list and the baseline in local variables and returns
  `Ok(rows)` or `Err(NoOpenRow)` for the `IndexError`. It is proved equal to
  the value-level definition `Reconstruct`, a left fold of one loop iteration
  (`Step`). The properties are lemmas about `Reconstruct`, stated against
  reference definitions that do not look at the row list: `Texts` (the input
  texts in order), `Flatten` (a table's cells, row after row),
  `BaselineAfter` (the baseline computed by the threshold test alone) and
  `OpenerCount` (how many detections pass the test).
- `slide_table.dfy` (module `SlideTable`): the slide table is an
  `array2<string>` that starts blank. `LongestRow` is the running-maximum loop,
  and `FillTable` sizes the table and runs the nested fill loop. A table
  with no rows or no columns is refused, as the presentation library's
  `add_table` divides the table's size by both counts.
- `pipeline.dfy` (module `Pipeline`): joins the two. The CSV written by the
  first script is taken to be read back by the second as the same records
  in the same order.

Two behaviours of the code are worth stating outright, since a reader
might expect otherwise:

- An empty detection list is not an error: the row pass returns an empty
  row list, and the CSV file written is empty (`ReconstructSucceedsIff`).
  The slide script then cannot create a table from it (`FillTable`).
- The first row is never created explicitly. A first detection whose
  bottom-left y is at most 20 does not clear the initial baseline 0, no row
  exists yet, and the append raises `IndexError`. For example, bottoms
  `[10, 12, 35, 37, 60]` give no rows at all, not three
  (`LowFirstDetectionFails`).

## Model

| member | source | states |
|---|---|---|
| RowReconstruction.ConvertTableData | pdf_to_csv.py:146-154 | The loop computes exactly `Reconstruct(ds)`. It succeeds iff the input is empty or the first y exceeds 20. On success the rows, read in order, are the input texts, and no row is empty. |
| RowReconstruction.ReconstructSucceedsIff | pdf_to_csv.py:147-153 | The pass raises its `IndexError` iff the first detection's y is at most 20 (baseline 0). Empty input gives an empty row list without error. A successful non-empty pass yields at least one row. |
| RowReconstruction.RunErrPersists | pdf_to_csv.py:153 | Once the append fails on some prefix of the input, the whole pass fails: the exception ends it. |
| RowReconstruction.NoLossNoDuplication | pdf_to_csv.py:149-153 | On success, concatenating the rows gives the detections' texts in input order, so the cell count equals the detection count. |
| RowReconstruction.RowsNonEmpty | pdf_to_csv.py:150-153 | On success, every row holds at least one text, because a new row immediately receives the text that opened it. |
| RowReconstruction.RowCountIsOpenerCount | pdf_to_csv.py:150-152 | On success, the number of rows equals the number of detections that pass the threshold test, so it is at most the number of detections. |
| RowReconstruction.RunTracksBaseline | pdf_to_csv.py:148-151 | The baseline the loop keeps equals the baseline computed by the threshold test alone, independently of the rows. |
| RowReconstruction.NewRowExactlyWhenGapExceeds | pdf_to_csv.py:150-153 | After a non-empty successful prefix, a further detection opens a new row (holding only its text, and becoming the baseline) iff its y exceeds the baseline by strictly more than 20. Otherwise (a gap of exactly 20 or a negative gap included) its text is appended to the last row, the other rows are unchanged and the baseline stays. |
| RowReconstruction.BaselineIsLastOpenerY | pdf_to_csv.py:148-151 | The baseline is 0 while no detection has passed the test. Otherwise it is the y of the last detection that passed it. |
| RowReconstruction.TwoRowsExample | pdf_to_csv.py:149-153 | Bottoms 100, 102, 140 with texts A, B, C give `[["A","B"],["C"]]`. |
| RowReconstruction.LowFirstDetectionFails | pdf_to_csv.py:148-153 | Bottoms 10, 12, 35, 37, 60 end in the `IndexError`, because 10 does not clear baseline 0 by more than 20. |
| RowReconstruction.StrictThresholdExample | pdf_to_csv.py:150 | A gap of exactly 20 keeps the detection in the row. A gap of 21 opens a new row. |
| RowReconstruction.RowsNotSortedByY | pdf_to_csv.py:149-153 | Rows come out in first-appearance order, not sorted by y: bottoms 100, 200, 130 give `[["A"],["B","C"]]`. |
| SlideTable.MaxRowLengthIsMaximum | csv_to_powerpoint.py:23-26 | The longest-row length bounds every record's length. It is 0 with no records, and otherwise some record has exactly that length. |
| SlideTable.LongestRow | csv_to_powerpoint.py:22-26 | The running-maximum loop returns the longest record's length: no record is longer, some record is that long, and it is 0 when there are no records. |
| SlideTable.TableRowRecoversRecord | csv_to_powerpoint.py:29-33 | A table row is at least as wide as its record. Its first `len(record)` cells are the record's fields in order, and the rest are blank. |
| SlideTable.ReadBackIsRecords | csv_to_powerpoint.py:29-33 | Reading each table row back, cut to its record's length, gives exactly the records. Every such cell lies within the table's columns. |
| SlideTable.FillTable | csv_to_powerpoint.py:22-33 | No table is created iff there are no records or every record is empty, since `add_table` then divides by zero. Otherwise the table has `len(rows)` rows and as many columns as the longest record. Cell (i, j) holds `rows[i][j]` when `j < len(rows[i])` and is blank otherwise. Every write is within the table's bounds. |
| Pipeline.DetectionsReachSlide | csv_to_powerpoint.py:14-33 | When grouping succeeds, the slide table read back row by row (each row cut to its record's length) and joined gives the detected texts in input order, so each detection is shown exactly once. Every cell read is in bounds. The table can be created exactly when there was at least one detection. |

## Left out

- Page rasterisation (`extract_image_from_pdf`), de-skewing (`correct_skew`) and gridline removal (`remove_table_lines`): these are image processing done by foreign libraries, on pixels and floating-point angles.
- The OCR engine (`extract_text_image`): an opaque library. Only the shape of its output enters the model: a detection reduced to its bottom-left y and its text. The other three corners are never read by the row pass.
- Detection coordinates are modelled as integers. The OCR engine may report them as floating-point values, and the model does not cover fractional y values.
- The presentation library's own code is not part of this model. Only its refusal of a table with zero rows or zero columns, which `add_table` hits as a division by zero, is modelled (`FillTable`).
- The CSV write (`convert_to_csv`) and the CSV read in csv_to_powerpoint.py: quoting and escaping belong to Python's `csv` module. The model takes the records read back to be the rows written, one record per row, in order.
- Pickling of detections, `process_pdf_to_image`, both `main` functions' fixed paths, and the presentation plumbing (`Presentation`, `add_slide`, table geometry, `save`): file I/O and library calls. The slide table is modelled as a 2-D array of cell texts that start blank.
