/** Row reconstruction: groups OCR detections, in the order the text
    detector reports them, into table rows by the vertical position of each
    detection's bottom-left corner (convert_table_data_to_csv in
    pdf_to_csv.py). A single forward pass keeps a running baseline; a
    detection more than RowGap pixels below the baseline opens a new row and
    becomes the new baseline, and every detection's text goes into the last
    row. */
module RowReconstruction {

  /** The fixed pixel threshold of the row test. */
  const RowGap: int := 20

  /** One OCR result: the y coordinate of its bottom-left corner (the fourth
      corner of its quadrilateral) and the recognised text. */
  datatype Detection = Detection(bottomLeftY: int, text: string)

  /** The only failure of the pass: a detection joins "the last row" while
      no row exists yet (an IndexError in the source). */
  datatype GroupError = NoOpenRow

  datatype Result<T> = Ok(value: T) | Err(error: GroupError)

  /** The state carried between detections: the rows built so far and the
      current baseline. */
  datatype Grouping = Grouping(rows: seq<seq<string>>, baseline: int)

  function Last<T>(s: seq<T>): T
    requires s != []
  {
    s[|s| - 1]
  }

  function DropLast<T>(s: seq<T>): seq<T>
    requires s != []
  {
    s[..|s| - 1]
  }

  /** The row test: strictly more than RowGap below the baseline. */
  predicate OpensRow(d: Detection, baseline: int)
  {
    d.bottomLeftY - baseline > RowGap
  }

  /** One iteration of the loop body, on values. */
  function Step(g: Grouping, d: Detection): Result<Grouping>
  {
    if OpensRow(d, g.baseline) then
      Ok(Grouping(g.rows + [[d.text]], d.bottomLeftY))
    else if g.rows == [] then
      Err(NoOpenRow)
    else
      Ok(Grouping(DropLast(g.rows) + [Last(g.rows) + [d.text]], g.baseline))
  }

  /** The state after the pass has consumed all of ds, in order. */
  function Run(ds: seq<Detection>): Result<Grouping>
  {
    if ds == [] then Ok(Grouping([], 0))
    else match Run(DropLast(ds))
      case Err(e) => Err(e)
      case Ok(g) => Step(g, Last(ds))
  }

  /** The rows the pass produces for ds, or the error it stops with. */
  function Reconstruct(ds: seq<Detection>): Result<seq<seq<string>>>
  {
    match Run(ds)
    case Err(e) => Err(e)
    case Ok(g) => Ok(g.rows)
  }

  // ---------------------------------------------------------------------
  // Reference definitions, independent of the row list.

  /** The texts of the detections, in input order. */
  function Texts(ds: seq<Detection>): (r: seq<string>)
    ensures |r| == |ds|
    ensures forall i :: 0 <= i < |ds| ==> r[i] == ds[i].text
  {
    if ds == [] then [] else Texts(DropLast(ds)) + [Last(ds).text]
  }

  /** All cells of a table, row after row. */
  function Flatten(rows: seq<seq<string>>): seq<string>
  {
    if rows == [] then [] else Flatten(DropLast(rows)) + Last(rows)
  }

  /** The baseline after the threshold test has seen all of ds; it does not
      depend on whether a row list exists. */
  function BaselineAfter(ds: seq<Detection>): int
  {
    if ds == [] then 0
    else
      var b := BaselineAfter(DropLast(ds));
      if OpensRow(Last(ds), b) then Last(ds).bottomLeftY else b
  }

  /** Detection i passes the threshold test against the baseline left by
      the detections before it. */
  predicate Opens(ds: seq<Detection>, i: int)
    requires 0 <= i < |ds|
  {
    OpensRow(ds[i], BaselineAfter(ds[..i]))
  }

  /** How many detections of ds pass the threshold test. */
  function OpenerCount(ds: seq<Detection>): (n: nat)
    ensures n <= |ds|
  {
    if ds == [] then 0
    else OpenerCount(DropLast(ds)) + (if Opens(ds, |ds| - 1) then 1 else 0)
  }

  // ---------------------------------------------------------------------
  // The loop, as the source writes it.

  /** Groups the detections into rows in one forward pass; the CSV write
      that follows in the source is not part of this method. */
  method ConvertTableData(ds: seq<Detection>) returns (r: Result<seq<seq<string>>>)
    ensures r == Reconstruct(ds)
    ensures r.Ok? <==> (ds == [] || OpensRow(ds[0], 0))
    ensures r.Ok? ==> Flatten(r.value) == Texts(ds)
    ensures r.Ok? ==> forall i :: 0 <= i < |r.value| ==> r.value[i] != []
  {
    var rows: seq<seq<string>> := [];
    var rowHeight := 0;
    var i := 0;
    while i < |ds|
      invariant 0 <= i <= |ds|
      invariant Run(ds[..i]) == Ok(Grouping(rows, rowHeight))
    {
      assert DropLast(ds[..i + 1]) == ds[..i];
      ghost var before := Grouping(rows, rowHeight);
      var d := ds[i];
      if d.bottomLeftY - rowHeight > RowGap {
        rowHeight := d.bottomLeftY;
        rows := rows + [[]];
        assert rows[..|rows| - 1] == before.rows;
      }
      if rows == [] {
        RunErrPersists(ds, i + 1);
        r := Err(NoOpenRow);
        ReconstructSucceedsIff(ds);
        return;
      }
      var current := rows[|rows| - 1];
      rows := rows[..|rows| - 1] + [current + [d.text]];
      if OpensRow(d, before.baseline) {
        assert current + [d.text] == [d.text];
      }
      assert Step(before, d) == Ok(Grouping(rows, rowHeight));
      i := i + 1;
    }
    assert ds[..i] == ds;
    r := Ok(rows);
    ReconstructSucceedsIff(ds);
    NoLossNoDuplication(ds);
    RowsNonEmpty(ds);
  }

  // ---------------------------------------------------------------------
  // Properties of the pass.

  lemma {:induction false} RunErrPersists(ds: seq<Detection>, j: nat)
    requires j <= |ds|
    requires Run(ds[..j]).Err?
    ensures Run(ds).Err?
  {
    if j == |ds| {
      assert ds[..j] == ds;
    } else {
      assert DropLast(ds)[..j] == ds[..j];
      RunErrPersists(DropLast(ds), j);
    }
  }

  /** The pass fails exactly when the first detection does not clear the
      initial baseline 0 by more than RowGap; the empty input succeeds. When
      it succeeds on a non-empty input there is at least one row. */
  lemma {:induction false} ReconstructSucceedsIff(ds: seq<Detection>)
    ensures Reconstruct(ds).Ok? <==> (ds == [] || OpensRow(ds[0], 0))
    ensures ds == [] ==> Reconstruct(ds) == Ok([])
    ensures Reconstruct(ds).Ok? && ds != [] ==> Reconstruct(ds).value != []
  {
    if ds != [] && DropLast(ds) != [] {
      ReconstructSucceedsIff(DropLast(ds));
      assert DropLast(ds)[0] == ds[0];
      if Run(DropLast(ds)).Ok? {
        assert Run(DropLast(ds)).value.rows != [];
      }
    } else if ds != [] {
      assert Run(DropLast(ds)) == Ok(Grouping([], 0));
      assert ds[0] == Last(ds);
    }
  }

  /** The baseline the pass keeps is the one the threshold test alone
      computes. */
  lemma {:induction false} RunTracksBaseline(ds: seq<Detection>)
    ensures Run(ds).Ok? ==> Run(ds).value.baseline == BaselineAfter(ds)
  {
    if ds != [] {
      RunTracksBaseline(DropLast(ds));
    }
  }

  lemma FlattenSnoc(rows: seq<seq<string>>, row: seq<string>)
    ensures Flatten(rows + [row]) == Flatten(rows) + row
  {
  }

  /** No loss and no duplication: the rows, read one after the other, are
      exactly the detected texts in input order, so the number of cells is
      the number of detections. */
  lemma {:induction false} NoLossNoDuplication(ds: seq<Detection>)
    ensures Reconstruct(ds).Ok? ==>
      Flatten(Reconstruct(ds).value) == Texts(ds) &&
      |Flatten(Reconstruct(ds).value)| == |ds|
  {
    if ds != [] {
      NoLossNoDuplication(DropLast(ds));
      if Run(DropLast(ds)).Ok? {
        var g := Run(DropLast(ds)).value;
        var t := Last(ds).text;
        if OpensRow(Last(ds), g.baseline) {
          FlattenSnoc(g.rows, [t]);
        } else if g.rows != [] {
          FlattenSnoc(DropLast(g.rows), Last(g.rows) + [t]);
          FlattenSnoc(DropLast(g.rows), Last(g.rows));
          assert DropLast(g.rows) + [Last(g.rows)] == g.rows;
        }
      }
    }
  }

  /** Every row holds at least one cell: a row is opened only together with
      the text that opened it. */
  lemma {:induction false} RowsNonEmpty(ds: seq<Detection>)
    ensures Reconstruct(ds).Ok? ==>
      forall i :: 0 <= i < |Reconstruct(ds).value| ==> Reconstruct(ds).value[i] != []
  {
    if ds != [] {
      RowsNonEmpty(DropLast(ds));
    }
  }

  /** One row per detection that passes the threshold test; hence never
      more rows than detections. */
  lemma {:induction false} RowCountIsOpenerCount(ds: seq<Detection>)
    ensures Reconstruct(ds).Ok? ==>
      |Reconstruct(ds).value| == OpenerCount(ds) <= |ds|
  {
    if ds != [] {
      RowCountIsOpenerCount(DropLast(ds));
      RunTracksBaseline(DropLast(ds));
      assert ds[..|ds| - 1] == DropLast(ds);
    }
  }

  /** Appending one detection d to a successfully grouped non-empty input:
      d opens a new row (holding only its text, and becoming the baseline)
      exactly when it lies strictly more than RowGap below the current
      baseline; otherwise, including a gap of exactly RowGap or a negative
      gap, its text joins the last row and the baseline stays put. */
  lemma NewRowExactlyWhenGapExceeds(ds: seq<Detection>, d: Detection)
    requires ds != [] && Reconstruct(ds).Ok?
    ensures Reconstruct(ds + [d]).Ok?
    ensures var rows, rows' := Reconstruct(ds).value, Reconstruct(ds + [d]).value;
      if d.bottomLeftY - BaselineAfter(ds) > RowGap then
        rows' == rows + [[d.text]] &&
        BaselineAfter(ds + [d]) == d.bottomLeftY
      else
        |rows'| == |rows| &&
        rows'[..|rows| - 1] == rows[..|rows| - 1] &&
        rows'[|rows| - 1] == rows[|rows| - 1] + [d.text] &&
        BaselineAfter(ds + [d]) == BaselineAfter(ds)
  {
    assert DropLast(ds + [d]) == ds;
    ReconstructSucceedsIff(ds);
    RunTracksBaseline(ds);
  }

  lemma OpensInPrefix(ds: seq<Detection>, j: int)
    requires 0 <= j < |ds| - 1
    ensures Opens(ds, j) == Opens(DropLast(ds), j)
  {
    assert ds[..j] == DropLast(ds)[..j];
  }

  /** No detection of ds passes the threshold test. */
  predicate NoOpener(ds: seq<Detection>)
  {
    forall i :: 0 <= i < |ds| ==> !Opens(ds, i)
  }

  /** Detection k is the last one of ds that passes the threshold test. */
  predicate IsLastOpener(ds: seq<Detection>, k: int)
  {
    0 <= k < |ds| && Opens(ds, k) && forall j :: k < j < |ds| ==> !Opens(ds, j)
  }

  /** The baseline changes only when a row is opened, and then becomes the
      y of the detection that opened it: it is 0 while no detection has
      passed the test, and otherwise the y of the last one that did. */
  lemma {:induction false} BaselineIsLastOpenerY(ds: seq<Detection>)
    ensures (NoOpener(ds) && BaselineAfter(ds) == 0) ||
            exists k :: IsLastOpener(ds, k) && BaselineAfter(ds) == ds[k].bottomLeftY
  {
    if ds != [] {
      var n := |ds| - 1;
      var pre := DropLast(ds);
      assert ds[..n] == pre;
      BaselineIsLastOpenerY(pre);
      forall j | 0 <= j < n
        ensures Opens(ds, j) == Opens(pre, j)
      {
        OpensInPrefix(ds, j);
      }
      if Opens(ds, n) {
        assert IsLastOpener(ds, n);
      } else if NoOpener(pre) && BaselineAfter(pre) == 0 {
        assert NoOpener(ds);
      } else {
        var k :| IsLastOpener(pre, k) && BaselineAfter(pre) == pre[k].bottomLeftY;
        assert IsLastOpener(ds, k);
      }
    }
  }

  // ---------------------------------------------------------------------
  // Concrete inputs.

  lemma RunSnoc(ds: seq<Detection>, d: Detection)
    ensures Run(ds + [d]) == if Run(ds).Err? then Run(ds) else Step(Run(ds).value, d)
  {
  }

  /** Bottoms at 100, 102 and 140 group into two rows. */
  lemma TwoRowsExample()
    ensures Reconstruct([Detection(100, "A"), Detection(102, "B"), Detection(140, "C")])
         == Ok([["A", "B"], ["C"]])
  {
    var a, b, c := Detection(100, "A"), Detection(102, "B"), Detection(140, "C");
    RunSnoc([], a);
    assert [] + [a] == [a] && [] + [["A"]] == [["A"]];
    RunSnoc([a], b);
    assert [a] + [b] == [a, b] && ["A"] + ["B"] == ["A", "B"];
    assert [["A"]][..0] + [["A", "B"]] == [["A", "B"]];
    RunSnoc([a, b], c);
    assert [a, b] + [c] == [a, b, c] && [["A", "B"]] + [["C"]] == [["A", "B"], ["C"]];
  }

  /** A first detection with y <= RowGap finds no row to join, whatever
      follows it. */
  lemma LowFirstDetectionFails()
    ensures Reconstruct([Detection(10, "a"), Detection(12, "b"), Detection(35, "c"),
                         Detection(37, "d"), Detection(60, "e")]) == Err(NoOpenRow)
  {
    var ds := [Detection(10, "a"), Detection(12, "b"), Detection(35, "c"),
               Detection(37, "d"), Detection(60, "e")];
    RunSnoc([], ds[0]);
    assert [] + [ds[0]] == ds[..1];
    RunErrPersists(ds, 1);
  }

  /** The test is strict: a gap of exactly RowGap stays in the row, one
      more pixel opens a new one. */
  lemma StrictThresholdExample()
    ensures Reconstruct([Detection(100, "A"), Detection(120, "B")]) == Ok([["A", "B"]])
    ensures Reconstruct([Detection(100, "A"), Detection(121, "B")]) == Ok([["A"], ["B"]])
  {
    var a, b, b' := Detection(100, "A"), Detection(120, "B"), Detection(121, "B");
    RunSnoc([], a);
    assert [] + [a] == [a] && [] + [["A"]] == [["A"]];
    RunSnoc([a], b);
    assert [a] + [b] == [a, b] && ["A"] + ["B"] == ["A", "B"];
    assert [["A"]][..0] + [["A", "B"]] == [["A", "B"]];
    RunSnoc([a], b');
    assert [a] + [b'] == [a, b'] && [["A"]] + [["B"]] == [["A"], ["B"]];
  }

  /** Rows follow first appearance, not y: a detection above the current
      baseline joins the current row. */
  lemma RowsNotSortedByY()
    ensures Reconstruct([Detection(100, "A"), Detection(200, "B"), Detection(130, "C")])
         == Ok([["A"], ["B", "C"]])
  {
    var a, b, c := Detection(100, "A"), Detection(200, "B"), Detection(130, "C");
    RunSnoc([], a);
    assert [] + [a] == [a] && [] + [["A"]] == [["A"]];
    RunSnoc([a], b);
    assert [a] + [b] == [a, b] && [["A"]] + [["B"]] == [["A"], ["B"]];
    RunSnoc([a, b], c);
    assert [a, b] + [c] == [a, b, c] && ["B"] + ["C"] == ["B", "C"];
    assert [["A"], ["B"]][..1] == [["A"]];
    assert [["A"]] + [["B", "C"]] == [["A"], ["B", "C"]];
  }
}
