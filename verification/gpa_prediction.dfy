/** The POST branch of the prediction page (home in Predicting_gpa.py):
    preprocess the upload, feed the training subject columns to the
    regressor, and assemble one result row per student together with the
    eligible / at-risk counts. */
module GpaPrediction {
  import opened Wrappers
  import opened Seqs
  import opened Text
  import opened GpaBand
  import opened GpaFeatures

  // ------------------------------------------------------ model columns

  /** Line 32: the stored training columns without 'GPA', in stored order. */
  function SubjectCols(stored: seq<string>): (cols: seq<string>)
    ensures forall c :: c in cols <==> c in stored && c != "GPA"
    ensures |cols| <= |stored|
  {
    if stored == [] then []
    else (if stored[0] != "GPA" then [stored[0]] else []) + SubjectCols(stored[1..])
  }

  /** The subject columns keep the stored order: each one comes from a
      later stored position than the one before it. */
  lemma {:induction false} SubjectColsInOrder(stored: seq<string>, i: nat, j: nat)
    requires i < j < |SubjectCols(stored)|
    ensures exists a, b :: 0 <= a < b < |stored| && stored[a] == SubjectCols(stored)[i]
                                                 && stored[b] == SubjectCols(stored)[j]
  {
    var rest := SubjectCols(stored[1..]);
    if stored[0] != "GPA" {
      assert SubjectCols(stored) == [stored[0]] + rest;
      if i == 0 {
        assert rest[j - 1] in stored[1..];
        var b :| 0 <= b < |stored[1..]| && stored[1..][b] == rest[j - 1];
        assert stored[b + 1] == SubjectCols(stored)[j];
      } else {
        SubjectColsInOrder(stored[1..], i - 1, j - 1);
        var a, b :| 0 <= a < b < |stored[1..]| && stored[1..][a] == rest[i - 1] && stored[1..][b] == rest[j - 1];
        assert stored[a + 1] == SubjectCols(stored)[i] && stored[b + 1] == SubjectCols(stored)[j];
      }
    } else {
      assert SubjectCols(stored) == rest;
      SubjectColsInOrder(stored[1..], i, j);
      var a, b :| 0 <= a < b < |stored[1..]| && stored[1..][a] == rest[i] && stored[1..][b] == rest[j];
      assert stored[a + 1] == rest[i] && stored[b + 1] == rest[j];
    }
  }

  /** Distinct stored columns give distinct subject columns. */
  lemma {:induction false} SubjectColsDistinct(stored: seq<string>)
    requires Distinct(stored)
    ensures Distinct(SubjectCols(stored))
  {
    if stored != [] {
      assert forall i, j :: 0 <= i < j < |stored[1..]| ==> stored[1..][i] == stored[i + 1] && stored[1..][j] == stored[j + 1];
      SubjectColsDistinct(stored[1..]);
      var rest := SubjectCols(stored[1..]);
      assert forall k :: 0 <= k < |stored[1..]| ==> stored[1..][k] != stored[0];
      assert stored[0] !in rest;
    }
  }

  /** Line 100: the columns whose lower-case name is 'course' are dropped. */
  predicate IsCourseColumn(c: string)
  {
    Lower(c) == "course"
  }

  function DropCourseColumns(f: Frame): (g: Frame)
    ensures forall c :: c in g.columns <==> c in f.columns && !IsCourseColumn(c)
    ensures |g.rows| == |f.rows|
    ensures forall i :: 0 <= i < |f.rows| ==>
      && g.rows[i].emplid == f.rows[i].emplid && g.rows[i].name == f.rows[i].name
      && forall c :: !IsCourseColumn(c) ==>
           (c in g.rows[i].cells <==> c in f.rows[i].cells)
           && (c in f.rows[i].cells ==> g.rows[i].cells[c] == f.rows[i].cells[c])
  {
    Frame(set c | c in f.columns && !IsCourseColumn(c),
          seq(|f.rows|, i requires 0 <= i < |f.rows| =>
            f.rows[i].(cells := map c | c in f.rows[i].cells && !IsCourseColumn(c) :: f.rows[i].cells[c])))
  }

  /** Line 102, one row of X_new: the row's cells in subject-column order. */
  function Features(r: Row, cols: seq<string>): (x: seq<real>)
    requires forall c :: c in cols ==> c in r.cells
    ensures |x| == |cols|
    ensures forall j :: 0 <= j < |cols| ==> x[j] == r.cells[cols[j]]
  {
    seq(|cols|, j requires 0 <= j < |cols| => r.cells[cols[j]])
  }

  // ----------------------------------------------------------- results

  /** One line of the results table (lines 108–110). */
  datatype ResultRow = ResultRow(emplid: string, name: string, gpaRange: string, predictedGpa: real)

  /** The results table and the two bar heights of the chart (lines 114–115). */
  datatype Report = Report(results: seq<ResultRow>, countPass: nat, countFail: nat)

  predicate Eligible(p: real)
  {
    p >= PassMark
  }

  predicate AtRisk(p: real)
  {
    p < PassMark
  }

  predicate UpperBand(band: string)
  {
    band in Labels[2..]
  }

  /** Lines 108–115: pair each row with the band of its unrounded
      prediction and its rounded value, and count the predictions on each
      side of 2.0. */
  function Assemble(rows: seq<Row>, preds: seq<real>, round3: real -> real): (rep: Report)
    requires |preds| == |rows|
    ensures |rep.results| == |rows|
    ensures forall i :: 0 <= i < |rows| ==>
      rep.results[i] == ResultRow(rows[i].emplid, rows[i].name, GpaRange(preds[i]), round3(preds[i]))
    ensures rep.countPass + rep.countFail == |rows|
    ensures rep.countPass == Count(BandColumn(rep.results), UpperBand)
  {
    var results := seq(|rows|, i requires 0 <= i < |rows| =>
      ResultRow(rows[i].emplid, rows[i].name, GpaRange(preds[i]), round3(preds[i])));
    PassAndFailCoverAll(preds);
    PassCountIsUpperBands(preds);
    assert BandColumn(results) == Bands(preds);
    Report(results, Count(preds, Eligible), Count(preds, AtRisk))
  }

  /** The 'Estimated GPA Range' column of the results. */
  function BandColumn(results: seq<ResultRow>): (bands: seq<string>)
    ensures |bands| == |results|
  {
    seq(|results|, i requires 0 <= i < |results| => results[i].gpaRange)
  }

  /** Line 109: the band of each prediction; it is one of the upper four
      exactly when the prediction reaches the pass mark. */
  function Bands(preds: seq<real>): (bands: seq<string>)
    ensures |bands| == |preds|
    ensures forall i :: 0 <= i < |preds| ==> bands[i] in Labels
    ensures forall i :: 0 <= i < |preds| ==> (bands[i] in Labels[2..] <==> preds[i] >= PassMark)
  {
    UpperBandsAt(preds);
    seq(|preds|, i requires 0 <= i < |preds| => GpaRange(preds[i]))
  }

  /** EligibleIffUpperBand at every prediction. */
  lemma UpperBandsAt(preds: seq<real>)
    ensures forall i :: 0 <= i < |preds| ==> (GpaRange(preds[i]) in Labels[2..] <==> preds[i] >= PassMark)
  {
    forall i | 0 <= i < |preds| ensures GpaRange(preds[i]) in Labels[2..] <==> preds[i] >= PassMark {
      EligibleIffUpperBand(preds[i]);
    }
  }

  /** count_pass + count_fail is the number of predictions. */
  lemma {:induction false} PassAndFailCoverAll(preds: seq<real>)
    ensures Count(preds, Eligible) + Count(preds, AtRisk) == |preds|
  {
    if preds != [] {
      PassAndFailCoverAll(preds[1..]);
    }
  }

  /** count_pass counts exactly the rows whose band is "2.0 – 2.5" or above. */
  lemma {:induction false} PassCountIsUpperBands(preds: seq<real>)
    ensures Count(preds, Eligible) == Count(Bands(preds), UpperBand)
  {
    if preds != [] {
      PassCountIsUpperBands(preds[1..]);
      EligibleIffUpperBand(preds[0]);
      assert Bands(preds)[1..] == Bands(preds[1..]);
    }
  }

  // -------------------------------------------------------------- home

  /** The column of X_new that a stored column names, for row i. */
  function ModelInput(p: Frame, cols: seq<string>, i: nat): (x: seq<real>)
    requires i < |p.rows| && MeansNonZero(p, cols) && forall c :: c in cols ==> c in p.columns
  {
    Features(NormalisedRow(p, i, cols), cols)
  }

  /** What the regressor is given for student i: one value per subject
      column, in the stored order, each the rescaled pivot cell and 0 where
      the student had no mark for that course. */
  lemma ModelInputSpec(p: Frame, cols: seq<string>, i: nat)
    requires i < |p.rows| && MeansNonZero(p, cols) && forall c :: c in cols ==> c in p.columns
    ensures |ModelInput(p, cols, i)| == |cols|
    ensures forall j :: 0 <= j < |cols| ==>
      ModelInput(p, cols, i)[j] == Rescale(p.rows[i], cols[j], ColumnMean(p, cols[j]))
    ensures forall j :: 0 <= j < |cols| && cols[j] !in p.rows[i].cells ==> ModelInput(p, cols, i)[j] == 0.0
  {
    forall j | 0 <= j < |cols| && cols[j] !in p.rows[i].cells
      ensures ModelInput(p, cols, i)[j] == 0.0
    {
      ImputedCellIsZero(p, i, cols, cols[j]);
    }
  }

  /** Lines 100–115 on the preprocessed frame `data` of the pivot p:
      drop the 'course' columns, select the subject columns (KeyError when
      one of them was dropped), predict each row and assemble the report. */
  method PredictRows(p: Frame, data: Frame, cols: seq<string>,
                     predict: seq<real> -> real, round3: real -> real)
    returns (res: Result<Report, PreprocessError>)
    requires MeansNonZero(p, cols) && forall c :: c in cols ==> c in p.columns
    requires data.columns == p.columns && |data.rows| == |p.rows|
    requires forall i :: 0 <= i < |p.rows| ==> data.rows[i] == NormalisedRow(p, i, cols)
    ensures res.Err? <==> exists c :: c in cols && IsCourseColumn(c)
    ensures res.Err? ==> res.error.column in cols && IsCourseColumn(res.error.column)
    ensures res.Ok? ==>
      && |res.value.results| == |p.rows|
      && forall i :: 0 <= i < |p.rows| ==>
           var pred := predict(ModelInput(p, cols, i));
           res.value.results[i] == ResultRow(p.rows[i].emplid, p.rows[i].name, GpaRange(pred), round3(pred))
    ensures res.Ok? ==> res.value.countPass + res.value.countFail == |res.value.results|
    ensures res.Ok? ==> res.value.countPass == Count(BandColumn(res.value.results), UpperBand)
  {
    var frame := DropCourseColumns(data);
    var missing := FirstMissing(cols, frame.columns);
    if missing.Some? {
      return Err(KeyError(missing.value));
    }
    var rows := frame.rows;
    forall i | 0 <= i < |rows|
      ensures forall c :: c in cols ==> c in rows[i].cells
      ensures Features(rows[i], cols) == ModelInput(p, cols, i)
      ensures rows[i].emplid == p.rows[i].emplid && rows[i].name == p.rows[i].name
    {
      DroppedRowFeatures(p, data, cols, i);
    }
    var preds := seq(|rows|, i requires 0 <= i < |rows| => predict(Features(rows[i], cols)));
    var report := Assemble(rows, preds, round3);
    forall i | 0 <= i < |p.rows|
      ensures report.results[i]
           == ResultRow(p.rows[i].emplid, p.rows[i].name, GpaRange(predict(ModelInput(p, cols, i))),
                        round3(predict(ModelInput(p, cols, i))))
    {
      assert preds[i] == predict(ModelInput(p, cols, i));
    }
    res := Ok(report);
  }

  /** Lines 97–115: the prediction request from the uploaded records to the
      report. Fails with KeyError when a subject column is missing from the
      upload or is itself a dropped 'course' column. */
  method PredictGpa(raw: seq<RawRecord>, parse: string -> Option<real>, stored: seq<string>,
                    predict: seq<real> -> real, round3: real -> real)
    returns (res: Result<Report, PreprocessError>)
    requires Distinct(stored)
    requires MeansNonZero(PivotOf(raw, parse), SubjectCols(stored))
    ensures var p := PivotOf(raw, parse); var cols := SubjectCols(stored);
      res.Err? <==> exists c :: c in cols && (c !in p.columns || IsCourseColumn(c))
    ensures var p := PivotOf(raw, parse); var cols := SubjectCols(stored);
      res.Ok? ==>
        && (forall c :: c in cols ==> c in p.columns)
        && |res.value.results| == |p.rows|
        && forall i :: 0 <= i < |p.rows| ==>
             var pred := predict(ModelInput(p, cols, i));
             res.value.results[i] == ResultRow(p.rows[i].emplid, p.rows[i].name, GpaRange(pred), round3(pred))
    ensures res.Ok? ==> res.value.countPass + res.value.countFail == |res.value.results|
    ensures res.Ok? ==> res.value.countPass == Count(BandColumn(res.value.results), UpperBand)
  {
    var cols := SubjectCols(stored);
    SubjectColsDistinct(stored);
    var data := PreprocessInput(raw, parse, cols);
    if data.Err? {
      return Err(data.error);
    }
    res := PredictRows(PivotOf(raw, parse), data.value, cols, predict, round3);
  }

  /** After line 100 a row still holds every subject column, and its
      subject cells are the normalised ones. */
  lemma DroppedRowFeatures(p: Frame, data: Frame, cols: seq<string>, i: nat)
    requires MeansNonZero(p, cols) && forall c :: c in cols ==> c in p.columns && !IsCourseColumn(c)
    requires |data.rows| == |p.rows| && i < |p.rows| && data.rows[i] == NormalisedRow(p, i, cols)
    ensures forall c :: c in cols ==> c in DropCourseColumns(data).rows[i].cells
    ensures Features(DropCourseColumns(data).rows[i], cols) == ModelInput(p, cols, i)
    ensures DropCourseColumns(data).rows[i].emplid == p.rows[i].emplid
    ensures DropCourseColumns(data).rows[i].name == p.rows[i].name
  {
  }

}
