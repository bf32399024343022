/** The POST branch of the continuing-students page (home in
    continuing_students.py, lines 52–157): the ordered validation of the
    two uploads, the strip / rename / merge / select / sort / fill steps that
    build the display table, and the continuing / non-continuing counts
    over the stripped student identifiers. */
module ContinuingReport {
  import opened Wrappers
  import opened Text
  import opened Seqs
  import opened ContinuingHelpers
  import opened ContinuingTable

  // ------------------------------------------------------- validation

  /** An uploaded file: its name, and the frame read_excel makes of it, or
      None when the file cannot be read. */
  datatype Upload = Upload(filename: string, content: Option<Frame>)

  /** Why the page sends the user back (or, for the last two, fails with a
      KeyError). */
  datatype UploadError =
    | MissingFile                         // line 59
    | WrongFileNames                      // line 64
    | InvalidFileType                     // line 69
    | Unreadable                          // line 77
    | MissingIdColumns                    // line 82
    | RenameFailed                        // line 95
    | MissingJoinKey                      // line 99: df2 has no rmit_student_id
    | NoOverlap                           // line 103
    | MissingDisplayColumn(column: string) // line 116

  const CurrentName: string := "current_students.xlsx"
  const FutureName: string := "future_students.xlsx"
  const StudentNo: string := "Student No"
  const ApplicationIdHeader: string := "application id"
  const IdKey: string := "rmit_student_id"
  const ApplicationId: string := "application_id"

  /** request.files.get(...) is None for an absent field, and a FileStorage
      whose file name is empty is falsy (line 58). */
  predicate Present(f: Option<Upload>)
  {
    f.Some? && f.value.filename != ""
  }

  predicate NamesMatch(f1: Upload, f2: Upload)
  {
    f1.filename == CurrentName && f2.filename == FutureName
  }

  predicate Readable(f1: Upload, f2: Upload)
  {
    f1.content.Some? && f2.content.Some?
  }

  /** Line 81, on the headers as read, before the strip. */
  predicate HasIdColumns(a: Frame, b: Frame)
  {
    StudentNo in a.columns && ApplicationIdHeader in b.columns
  }

  /** Lines 58–83: the checks in source order; the first that fails decides
      the answer. The extension check never decides it, and two sheets are
      handed on only when both files were given under the expected names,
      could be read, and carry the identifier headers. */
  function Validate(f1: Option<Upload>, f2: Option<Upload>): (r: Result<(Frame, Frame), UploadError>)
    ensures r.Err? ==> r.error in {MissingFile, WrongFileNames, Unreadable, MissingIdColumns}
    ensures r.Ok? ==>
      && Present(f1) && Present(f2) && NamesMatch(f1.value, f2.value) && Readable(f1.value, f2.value)
      && r.value == (f1.value.content.value, f2.value.content.value)
      && HasIdColumns(r.value.0, r.value.1)
  {
    AllowedFileAcceptsFormNames();
    if !Present(f1) || !Present(f2) then Err(MissingFile)
    else if !NamesMatch(f1.value, f2.value) then Err(WrongFileNames)
    else if !AllowedFile(f1.value.filename) || !AllowedFile(f2.value.filename) then Err(InvalidFileType)
    else if !Readable(f1.value, f2.value) then Err(Unreadable)
    else if !HasIdColumns(f1.value.content.value, f2.value.content.value) then Err(MissingIdColumns)
    else Ok((f1.value.content.value, f2.value.content.value))
  }

  /** Each error is returned exactly when its check fails and every earlier
      one passes; the extension check can never fail, because the only
      names that pass the check before it end in .xlsx. */
  lemma ValidationOrder(f1: Option<Upload>, f2: Option<Upload>)
    ensures Validate(f1, f2) == Err(MissingFile) <==> !Present(f1) || !Present(f2)
    ensures Validate(f1, f2) == Err(WrongFileNames) <==>
      Present(f1) && Present(f2) && !NamesMatch(f1.value, f2.value)
    ensures Validate(f1, f2) != Err(InvalidFileType)
    ensures Validate(f1, f2) == Err(Unreadable) <==>
      Present(f1) && Present(f2) && NamesMatch(f1.value, f2.value) && !Readable(f1.value, f2.value)
    ensures Validate(f1, f2) == Err(MissingIdColumns) <==>
      Present(f1) && Present(f2) && NamesMatch(f1.value, f2.value) && Readable(f1.value, f2.value)
      && !HasIdColumns(f1.value.content.value, f2.value.content.value)
    ensures Validate(f1, f2).Ok? <==>
      Present(f1) && Present(f2) && NamesMatch(f1.value, f2.value) && Readable(f1.value, f2.value)
      && HasIdColumns(f1.value.content.value, f2.value.content.value)
  {
    AllowedFileAcceptsFormNames();
  }

  /** Lines 86–91 on one sheet: headers stripped, then one renamed. */
  function Prepared(f: Frame, from: string, to: string): Frame
  {
    Sheet(RenameAll(StripAll(f.columns), from, to), f.rows)
  }

  /** Once the check of line 81 has passed, the check of line 94 passes
      too: neither header has whitespace around it, so the strip keeps it
      and the rename turns it into the identifier. */
  lemma RenameCheckPasses(a: Frame, b: Frame)
    requires HasIdColumns(a, b)
    ensures IdKey in Prepared(a, StudentNo, IdKey).columns
    ensures ApplicationId in Prepared(b, ApplicationIdHeader, ApplicationId).columns
  {
    RenameAfterStrip(a.columns, StudentNo, IdKey);
    RenameAfterStrip(b.columns, ApplicationIdHeader, ApplicationId);
  }

  // ---------------------------------------------------- display table

  /** Lines 107–113. */
  const DisplayCols: seq<string> := [
    "application_id", "applicant_id", "rmit_student_id",
    "Currently enrolled program plan", "Currently enrolled program name",
    "College", "forename", "surname", "change_of_program",
    "admit_term", "plan_code", "plan_name", "campus",
    "commencement_date", "application_status", "fund_source"
  ]

  /** The display names line 117 gives them. */
  const DisplayHeaders: seq<string> := [
    "Application ID", "Applicant ID", "RMIT Student ID",
    "Currently Enrolled Program Plan", "Currently Enrolled Program Name",
    "College", "Forename", "Surname", "Change of Program",
    "Admit Term", "Plan Code", "Plan Name", "Campus",
    "Commencement Date", "Application Status", "Fund Source"
  ]

  const ProgramNameHeading: string := "Currently Enrolled Program Name"
  const ForenameHeading: string := "Forename"
  const ChangeOfProgramHeading: string := "Change of Program"

  lemma DisplayHeaderAt(i: nat)
    requires i < |DisplayCols|
    ensures BeautifyColumn(DisplayCols[i]) == DisplayHeaders[i]
  {
    if i == 3 {
      assert DisplayCols[3] == "Currently enrolled program plan";
      assert DisplayHeaders[3] == "Currently Enrolled Program Plan";
      ProgramPlanHeader();
    } else if i == 4 {
      assert DisplayCols[4] == "Currently enrolled program name";
      assert DisplayHeaders[4] == "Currently Enrolled Program Name";
      ProgramNameHeader();
    } else if i == 5 || i == 7 || i == 12 {
      OneWordHeaders();
    } else if i == 6 {
      assert DisplayCols[6] == "forename" && DisplayHeaders[6] == "Forename";
      ForenameHeader();
    } else if i == 2 || i == 8 {
      OverrideHeaders();
    } else {
      OverrideHeaderAt(i);
    }
  }

  /** The columns of lines 107–113 whose display names are overrides. */
  lemma OverrideHeaderAt(i: nat)
    requires i < |DisplayCols| && (i <= 1 || 9 <= i <= 11 || i >= 13)
    ensures BeautifyColumn(DisplayCols[i]) == DisplayHeaders[i]
  {
    MoreOverrideHeaders();
    if i <= 1 {
      assert DisplayCols[i] == ["application_id", "applicant_id"][i];
      assert DisplayHeaders[i] == ["Application ID", "Applicant ID"][i];
    } else if i <= 11 {
      assert DisplayCols[i] == ["admit_term", "plan_code", "plan_name"][i - 9];
      assert DisplayHeaders[i] == ["Admit Term", "Plan Code", "Plan Name"][i - 9];
    } else {
      assert DisplayCols[i] == ["commencement_date", "application_status", "fund_source"][i - 13];
      assert DisplayHeaders[i] == ["Commencement Date", "Application Status", "Fund Source"][i - 13];
    }
  }

  /** beautify_column turns each selected column into its display name. */
  lemma DisplayHeadersSpec()
    ensures |DisplayHeaders| == |DisplayCols|
    ensures forall i :: 0 <= i < |DisplayCols| ==> BeautifyColumn(DisplayCols[i]) == DisplayHeaders[i]
  {
    forall i | 0 <= i < |DisplayCols| ensures BeautifyColumn(DisplayCols[i]) == DisplayHeaders[i] {
      DisplayHeaderAt(i);
    }
  }

  /** Beautifying the display columns one by one gives the display names. */
  lemma BeautifiedDisplayCols(cs: seq<string>)
    requires |cs| == |DisplayCols|
    requires forall i :: 0 <= i < |cs| ==> cs[i] == BeautifyColumn(DisplayCols[i])
    ensures cs == DisplayHeaders
  {
    DisplayHeadersSpec();
  }

  lemma DisplayHeadersDistinct()
    ensures Distinct(DisplayHeaders)
  {
  }

  /** The sort labels of line 120 and the fill label of line 123 name
      columns 4, 6 and 8 of the display header: the first of them is
      found there, as Python's list.index finds it. */
  lemma ProgramNameLabel(cs: seq<string>)
    requires cs == DisplayHeaders
    ensures ProgramNameHeading in cs && FirstIndex(cs, ProgramNameHeading) == 4
  {
    assert cs[4] == ProgramNameHeading;
    FirstIndexUnique(cs, ProgramNameHeading, 4);
  }

  lemma ForenameLabel(cs: seq<string>)
    requires cs == DisplayHeaders
    ensures ForenameHeading in cs && FirstIndex(cs, ForenameHeading) == 6
  {
    assert cs[6] == ForenameHeading;
    FirstIndexUnique(cs, ForenameHeading, 6);
  }

  lemma ChangeOfProgramLabel(cs: seq<string>)
    requires cs == DisplayHeaders
    ensures ChangeOfProgramHeading in cs && FirstIndex(cs, ChangeOfProgramHeading) == 8
  {
    assert cs[8] == ChangeOfProgramHeading;
    FirstIndexUnique(cs, ChangeOfProgramHeading, 8);
  }

  /** Lines 116–124 on the merged frame: the display columns under their
      display names, sorted by program name (column 4) and forename
      (column 6), with missing "Change of Program" cells (column 8) filled
      with "N". */
  function DisplayTable(m: Frame): (t: Frame)
    requires forall c :: c in DisplayCols ==> c in m.columns
    ensures t.columns == DisplayHeaders && |t.rows| == |m.rows|
    ensures forall i :: 0 <= i < |t.rows| ==> |t.rows[i]| == |DisplayHeaders|
  {
    Sheet(DisplayHeaders, DisplayRows(Select(m, DisplayCols).rows))
  }

  /** The rows of the display table: sorted by columns 4 and 6, then
      column 8 filled with "N". */
  function DisplayRows(rows: seq<Row>): (r: seq<Row>)
    requires forall i :: 0 <= i < |rows| ==> |rows[i]| == |DisplayCols|
    ensures |r| == |rows|
    ensures forall i :: 0 <= i < |r| ==> |r[i]| == |DisplayCols|
  {
    var sorted := SortBy(rows, RowOrder(4, 6));
    assert |sorted| == |multiset(sorted)| == |rows|;
    SortedRowsWidth(rows, |DisplayCols|, RowOrder(4, 6));
    FillRows(sorted, 8, "N")
  }

  // ---------------------------------------------------------- counting

  /** One stripped identifier as line 128 makes it: astype(str) prints a
      missing cell as "nan". */
  function IdText(c: Cell): string
  {
    match c
    case Value(s) => Strip(s)
    case Missing => Strip("nan")
  }

  /** Lines 128–129: set(df[key].astype(str).str.strip()): exactly the
      stripped identifiers of the rows, so it is empty only for a sheet
      without rows. */
  function IdSet(f: Frame, key: string): (ids: set<string>)
    requires key in f.columns
    ensures forall i :: 0 <= i < |f.rows| ==> IdText(f.rows[i][FirstIndex(f.columns, key)]) in ids
    ensures forall x :: x in ids ==> exists i :: 0 <= i < |f.rows| && x == IdText(f.rows[i][FirstIndex(f.columns, key)])
    ensures ids == {} <==> f.rows == []
  {
    var k := FirstIndex(f.columns, key);
    var ids := set i | 0 <= i < |f.rows| :: IdText(f.rows[i][k]);
    assert f.rows != [] ==> IdText(f.rows[0][k]) in ids;
    ids
  }

  datatype Counts = Counts(continuing: nat, nonContinuing: int, percent: real)

  /** Lines 130–134 and 157. */
  function CountsOf(ids1: set<string>, ids2: set<string>): (c: Counts)
    ensures c.continuing == |ids1 * ids2|
    ensures c.nonContinuing >= 0 && c.continuing + c.nonContinuing == |ids1 + ids2|
    ensures 0.0 <= c.percent <= 100.0
    ensures ids1 + ids2 == {} ==> c.percent == 0.0
    ensures c.continuing > 0 ==> c.percent > 0.0
  {
    var cont := |ids1 * ids2|;
    var all := |ids1 + ids2|;
    assert all == |ids1 - ids2| + |ids2 - ids1| + cont;
    var non := all - cont;
    if cont + non > 0 then
      ShareBounds(cont, cont + non);
      Counts(cont, non, (cont as real / (cont + non) as real) * 100.0)
    else
      Counts(cont, non, 0.0)
  }

  /** A share of a positive whole, in percent, lies between 0 and 100 and
      is positive when the part is. */
  lemma ShareBounds(x: nat, y: nat)
    requires 0 < y && x <= y
    ensures 0.0 <= (x as real / y as real) * 100.0 <= 100.0
    ensures x > 0 ==> (x as real / y as real) * 100.0 > 0.0
  {
    var q := x as real / y as real;
    assert q * (y as real) == x as real;
  }

  /** A share of a positive whole is 100 percent only when it is all of it. */
  lemma FullShare(x: nat, y: nat)
    requires 0 < y && x <= y
    ensures (x as real / y as real) * 100.0 == 100.0 <==> x == y
  {
    var q := x as real / y as real;
    assert q * (y as real) == x as real;
    if x < y {
      assert q < 1.0;
    }
  }

  /** The non-continuing students are those in exactly one of the two
      sheets, and the percentage is 100 exactly when both sheets hold the
      same non-empty set of identifiers. */
  lemma CountsMeaning(ids1: set<string>, ids2: set<string>)
    ensures CountsOf(ids1, ids2).nonContinuing == |(ids1 - ids2) + (ids2 - ids1)|
    ensures CountsOf(ids1, ids2).percent == 100.0 <==> ids1 == ids2 && ids1 != {}
  {
    var a, b := ids1 - ids2, ids2 - ids1;
    assert a * b == {};
    var c := CountsOf(ids1, ids2);
    var all := |ids1 + ids2|;
    if all > 0 {
      FullShare(c.continuing, all);
      if c.continuing == all {
        assert |a| + |b| == 0;
        assert ids1 == ids2;
      }
    }
    if ids1 == ids2 && ids1 != {} {
      assert ids1 * ids2 == ids1 + ids2;
    }
  }

  // ------------------------------------------------------------- home

  datatype Page = Page(table: Frame, counts: Counts)

  /** What the page answers for two validated sheets (lines 86–157): the
      rename check of line 94 fails exactly when a renamed identifier is
      missing; past it, the answer is that of the merged sheets. */
  function SheetsOutcome(a: Frame, b: Frame): (r: Result<Page, UploadError>)
    ensures r.Err? ==>
      r.error == RenameFailed || r.error == MissingJoinKey || r.error == NoOverlap || r.error.MissingDisplayColumn?
    ensures r.Ok? ==> r.value.table.columns == DisplayHeaders && r.value.table.rows != []
    ensures var d1 := Prepared(a, StudentNo, IdKey);
      var d2 := Prepared(b, ApplicationIdHeader, ApplicationId);
      && (r == Err(RenameFailed) <==> IdKey !in d1.columns || ApplicationId !in d2.columns)
      && (IdKey in d1.columns && ApplicationId in d2.columns ==> r == MergedOutcome(d1, d2))
  {
    var d1 := Prepared(a, StudentNo, IdKey);
    var d2 := Prepared(b, ApplicationIdHeader, ApplicationId);
    if IdKey !in d1.columns || ApplicationId !in d2.columns then Err(RenameFailed)
    else MergedOutcome(d1, d2)
  }

  /** Lines 99–157 on the renamed sheets: the merge fails without a key in
      the second sheet, an empty merge and a missing display column are
      rejected, and otherwise the page shows the table and the counts. */
  function MergedOutcome(d1: Frame, d2: Frame): (r: Result<Page, UploadError>)
    requires IdKey in d1.columns
    ensures r.Err? ==> r.error == MissingJoinKey || r.error == NoOverlap || r.error.MissingDisplayColumn?
    ensures r == Err(MissingJoinKey) <==> IdKey !in d2.columns
    ensures IdKey in d2.columns ==> (r == Err(NoOverlap) <==> Merge(d1, d2, IdKey).rows == [])
    ensures r.Ok? ==> r.value.table.columns == DisplayHeaders && r.value.table.rows != []
    ensures IdKey in d2.columns && Merge(d1, d2, IdKey).rows != [] ==>
      (r.Ok? <==> forall c :: c in DisplayCols ==> c in Merge(d1, d2, IdKey).columns)
    ensures r.Err? && r.error.MissingDisplayColumn? ==>
      && IdKey in d2.columns
      && r.error.column in DisplayCols && r.error.column !in Merge(d1, d2, IdKey).columns
      && forall j :: 0 <= j < FirstIndex(DisplayCols, r.error.column) ==> DisplayCols[j] in Merge(d1, d2, IdKey).columns
    ensures r.Ok? ==> IdKey in d2.columns && r.value.counts == CountsOf(IdSet(d1, IdKey), IdSet(d2, IdKey))
  {
    if IdKey !in d2.columns then Err(MissingJoinKey)
    else
      var m := Merge(d1, d2, IdKey);
      if m.rows == [] then Err(NoOverlap)
      else
        match FirstMissing(DisplayCols, set c | c in m.columns)
        case Some(c) => Err(MissingDisplayColumn(c))
        case None => Ok(Page(DisplayTable(m), CountsOf(IdSet(d1, IdKey), IdSet(d2, IdKey))))
  }

  /** What the page answers for two uploads: the extension check of line
      68 and the rename check of line 94 never decide it; a failed upload
      check is the answer, and otherwise the answer is that of the merged,
      renamed sheets. */
  function HomeOutcome(f1: Option<Upload>, f2: Option<Upload>): (r: Result<Page, UploadError>)
    ensures r != Err(InvalidFileType) && r != Err(RenameFailed)
    ensures r.Ok? ==> r.value.table.columns == DisplayHeaders && r.value.table.rows != []
    ensures Validate(f1, f2).Err? ==> r == Err(Validate(f1, f2).error)
    ensures Validate(f1, f2).Ok? ==>
      var d1 := Prepared(Validate(f1, f2).value.0, StudentNo, IdKey);
      var d2 := Prepared(Validate(f1, f2).value.1, ApplicationIdHeader, ApplicationId);
      IdKey in d1.columns && ApplicationId in d2.columns && r == MergedOutcome(d1, d2)
  {
    match Validate(f1, f2)
    case Err(e) => Err(e)
    case Ok((a, b)) =>
      RenameCheckPasses(a, b);
      SheetsPassRenameCheck(a, b);
      SheetsOutcome(a, b)
  }

  /** Lines 86–157 on two validated sheets, changing the frames in place
      as the page does. */
  method ReportFromSheets(a: Frame, b: Frame) returns (r: Result<Page, UploadError>)
    ensures r == SheetsOutcome(a, b)
  {
    var df1 := new Table(a);
    var df2 := new Table(b);
    df1.StripColumns();
    df2.StripColumns();
    df1.RenameColumn(StudentNo, IdKey);
    df2.RenameColumn(ApplicationIdHeader, ApplicationId);
    ghost var d1 := Prepared(a, StudentNo, IdKey);
    ghost var d2 := Prepared(b, ApplicationIdHeader, ApplicationId);
    assert df1.Contents() == d1 && df2.Contents() == d2;
    if IdKey !in df1.columns || ApplicationId !in df2.columns {
      return Err(RenameFailed);
    }
    if IdKey !in df2.columns {
      return Err(MissingJoinKey);
    }
    var merged := Merge(df1.Contents(), df2.Contents(), IdKey);
    if merged.rows == [] {
      return Err(NoOverlap);
    }
    var missing := FirstMissing(DisplayCols, set c | c in merged.columns);
    if missing.Some? {
      return Err(MissingDisplayColumn(missing.value));
    }
    var table := BuildDisplayTable(merged);
    var ids1 := IdSet(df1.Contents(), IdKey);
    var ids2 := IdSet(df2.Contents(), IdKey);
    r := Ok(Page(table, CountsOf(ids1, ids2)));
  }

  /** Lines 116–117: the display columns of the merged frame, as a new
      frame whose headers are then beautified in place. */
  method NewDisplayFrame(merged: Frame) returns (finalDf: Table)
    requires forall c :: c in DisplayCols ==> c in merged.columns
    ensures fresh(finalDf) && finalDf.Valid()
    ensures finalDf.columns == DisplayHeaders && finalDf.rows == Select(merged, DisplayCols).rows
  {
    finalDf := new Table(Select(merged, DisplayCols));
    finalDf.BeautifyHeaders();
    BeautifiedDisplayCols(finalDf.columns);
  }

  /** Line 120: the display frame sorted by its program name and forename
      labels. */
  method SortDisplay(finalDf: Table)
    requires finalDf.Valid() && finalDf.columns == DisplayHeaders
    modifies finalDf
    ensures finalDf.Valid() && finalDf.columns == DisplayHeaders
    ensures finalDf.rows == SortBy(old(finalDf.rows), RowOrder(4, 6))
  {
    var cs := finalDf.columns;
    ProgramNameLabel(cs);
    ForenameLabel(cs);
    finalDf.SortRows(FirstIndex(cs, ProgramNameHeading), FirstIndex(cs, ForenameHeading));
  }

  /** Lines 123–124: the "Change of Program" label, which the display
      frame carries, filled with "N". */
  method FillDisplay(finalDf: Table)
    requires finalDf.Valid() && finalDf.columns == DisplayHeaders
    modifies finalDf
    ensures finalDf.Valid() && finalDf.columns == DisplayHeaders
    ensures finalDf.rows == FillRows(old(finalDf.rows), 8, "N")
  {
    var cs := finalDf.columns;
    ChangeOfProgramLabel(cs);
    if ChangeOfProgramHeading in cs {
      finalDf.FillColumn(FirstIndex(cs, ChangeOfProgramHeading), "N");
    }
  }

  /** Lines 116–124: the display frame built and changed in place. */
  method BuildDisplayTable(merged: Frame) returns (t: Frame)
    requires forall c :: c in DisplayCols ==> c in merged.columns
    ensures t == DisplayTable(merged)
  {
    var finalDf := NewDisplayFrame(merged);
    SortDisplay(finalDf);
    FillDisplay(finalDf);
    t := finalDf.Contents();
  }

  /** The whole POST branch (lines 52–157). */
  method Home(f1: Option<Upload>, f2: Option<Upload>) returns (r: Result<Page, UploadError>)
    ensures r == HomeOutcome(f1, f2)
  {
    var v := Validate(f1, f2);
    if v.Err? {
      return Err(v.error);
    }
    r := ReportFromSheets(v.value.0, v.value.1);
  }

  // -------------------------------------------------------- properties

  /** Once the identifier columns are there, the rename check never fails. */
  lemma SheetsPassRenameCheck(a: Frame, b: Frame)
    requires HasIdColumns(a, b)
    ensures SheetsOutcome(a, b) != Err(RenameFailed)
  {
    RenameCheckPasses(a, b);
  }

  /** The rows of the display table: ordered by program name then
      forename, none with a missing "Change of Program", and a permutation
      of the selected merged rows with that cell filled, one per merged
      row. */
  lemma DisplayTableSpec(m: Frame)
    requires forall c :: c in DisplayCols ==> c in m.columns
    ensures var t := DisplayTable(m);
      && t.columns == DisplayHeaders
      && |t.rows| == |m.rows|
      && SortedBy(t.rows, RowOrder(4, 6))
      && (forall i :: 0 <= i < |t.rows| ==> t.rows[i][8] != Missing)
      && (forall i :: 0 <= i < |t.rows| ==>
            exists j :: 0 <= j < |m.rows| && t.rows[i] == FillRow(Select(m, DisplayCols).rows[j], 8, "N"))
      && multiset(t.rows) == multiset(FillRows(Select(m, DisplayCols).rows, 8, "N"))
  {
    SortThenFill(Select(m, DisplayCols).rows, |DisplayCols|, 4, 6, 8, "N");
  }

  lemma MergedOutcomeOk(d1: Frame, d2: Frame)
    requires IdKey in d1.columns && MergedOutcome(d1, d2).Ok?
    ensures IdKey in d2.columns
    ensures forall c :: c in DisplayCols ==> c in Merge(d1, d2, IdKey).columns
    ensures MergedOutcome(d1, d2).value ==
      Page(DisplayTable(Merge(d1, d2, IdKey)), CountsOf(IdSet(d1, IdKey), IdSet(d2, IdKey)))
  {
  }

  /** The page for two sheets that pass every check. */
  lemma SheetsOutcomeOk(a: Frame, b: Frame)
    requires SheetsOutcome(a, b).Ok?
    ensures var d1 := Prepared(a, StudentNo, IdKey);
      var d2 := Prepared(b, ApplicationIdHeader, ApplicationId);
      && IdKey in d1.columns && IdKey in d2.columns
      && (forall c :: c in DisplayCols ==> c in Merge(d1, d2, IdKey).columns)
      && SheetsOutcome(a, b).value ==
           Page(DisplayTable(Merge(d1, d2, IdKey)), CountsOf(IdSet(d1, IdKey), IdSet(d2, IdKey)))
  {
    var d1 := Prepared(a, StudentNo, IdKey);
    var d2 := Prepared(b, ApplicationIdHeader, ApplicationId);
    assert SheetsOutcome(a, b) == MergedOutcome(d1, d2);
    MergedOutcomeOk(d1, d2);
  }

  /** Every student listed in the display table has an identifier that
      occurs in the identifier column of both renamed sheets. */
  lemma DisplayedKeysInBoth(d1: Frame, d2: Frame)
    requires IdKey in d1.columns && IdKey in d2.columns
    requires forall c :: c in DisplayCols ==> c in Merge(d1, d2, IdKey).columns
    ensures var t := DisplayTable(Merge(d1, d2, IdKey));
      forall i :: 0 <= i < |t.rows| ==>
        && |t.rows[i]| > 2
        && t.rows[i][2] in KeyCells(d1, FirstIndex(d1.columns, IdKey))
        && t.rows[i][2] in KeyCells(d2, FirstIndex(d2.columns, IdKey))
  {
    var m := Merge(d1, d2, IdKey);
    var ks1 := KeyCells(d1, FirstIndex(d1.columns, IdKey));
    var ks2 := KeyCells(d2, FirstIndex(d2.columns, IdKey));
    assert DisplayCols[2] == IdKey;
    MergedKeyColumn(d1, d2, IdKey);
    DisplayTableSpec(m);
    SelectedKeysIn(m, DisplayCols, DisplayTable(m).rows, 8, "N", 2, ks1, ks2);
  }

  /** A key shared by both sheets puts an identifier in both identifier
      sets, so the continuing count is at least one. */
  lemma SharedKeyCounts(d1: Frame, d2: Frame, key: Cell)
    requires IdKey in d1.columns && IdKey in d2.columns
    requires key in KeyCells(d1, FirstIndex(d1.columns, IdKey))
    requires key in KeyCells(d2, FirstIndex(d2.columns, IdKey))
    ensures CountsOf(IdSet(d1, IdKey), IdSet(d2, IdKey)).continuing >= 1
    ensures CountsOf(IdSet(d1, IdKey), IdSet(d2, IdKey)).percent > 0.0
  {
    var k1 := FirstIndex(d1.columns, IdKey);
    var k2 := FirstIndex(d2.columns, IdKey);
    var ids1 := IdSet(d1, IdKey);
    var ids2 := IdSet(d2, IdKey);
    var i1 :| 0 <= i1 < |d1.rows| && KeyCells(d1, k1)[i1] == key;
    var i2 :| 0 <= i2 < |d2.rows| && KeyCells(d2, k2)[i2] == key;
    assert IdText(key) in ids1 * ids2;
  }

  /** The page built from two prepared sheets lists only students of both
      sheets and counts at least one continuing student. */
  lemma MergedPageStudentsContinue(d1: Frame, d2: Frame)
    requires IdKey in d1.columns && MergedOutcome(d1, d2).Ok?
    ensures var page := MergedOutcome(d1, d2).value;
      && IdKey in d2.columns
      && (forall i :: 0 <= i < |page.table.rows| ==>
            && |page.table.rows[i]| > 2
            && page.table.rows[i][2] in KeyCells(d1, FirstIndex(d1.columns, IdKey))
            && page.table.rows[i][2] in KeyCells(d2, FirstIndex(d2.columns, IdKey)))
      && page.counts.continuing >= 1 && page.counts.percent > 0.0
  {
    MergedOutcomeOk(d1, d2);
    var m := Merge(d1, d2, IdKey);
    DisplayedKeysInBoth(d1, d2);
    DisplayTableSpec(m);
    assert m.rows != [];
    var t := DisplayTable(m);
    SharedKeyCounts(d1, d2, t.rows[0][2]);
  }

  /** Every student listed on the page occurs in both sheets, and a page
      that is shown counts at least one continuing student. */
  lemma PageStudentsContinue(a: Frame, b: Frame)
    requires SheetsOutcome(a, b).Ok?
    ensures var d1 := Prepared(a, StudentNo, IdKey);
      var d2 := Prepared(b, ApplicationIdHeader, ApplicationId);
      var page := SheetsOutcome(a, b).value;
      && IdKey in d1.columns && IdKey in d2.columns
      && (forall i :: 0 <= i < |page.table.rows| ==>
            && |page.table.rows[i]| > 2
            && page.table.rows[i][2] in KeyCells(d1, FirstIndex(d1.columns, IdKey))
            && page.table.rows[i][2] in KeyCells(d2, FirstIndex(d2.columns, IdKey)))
      && page.counts.continuing >= 1 && page.counts.percent > 0.0
  {
    var d1 := Prepared(a, StudentNo, IdKey);
    var d2 := Prepared(b, ApplicationIdHeader, ApplicationId);
    SheetsOutcomeOk(a, b);
    assert SheetsOutcome(a, b) == MergedOutcome(d1, d2);
    MergedPageStudentsContinue(d1, d2);
  }
}
