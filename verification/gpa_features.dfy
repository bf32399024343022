/** preprocess_input of Predicting_gpa.py: from long-format mark records
    (Emplid, Name, Course, Mark) to one row per student whose training
    subject columns are rescaled by their batch mean. */
module GpaFeatures {
  import opened Wrappers
  import opened Seqs
  import opened Text

  /** A Mark cell as the spreadsheet reader delivers it. */
  datatype RawMark = NumberCell(number: real) | TextCell(text: string) | EmptyCell

  /** One uploaded row, projected to the four columns preprocess_input keeps. */
  datatype RawRecord = RawRecord(emplid: string, name: string, course: string, mark: RawMark)

  /** A row after pd.to_numeric: the mark is a number, or missing (NaN). */
  datatype MarkRecord = MarkRecord(emplid: string, name: string, course: string, mark: Option<real>)

  /** The index of a pivot row. */
  datatype Student = Student(emplid: string, name: string)

  /** A row of the wide frame: the student and, by course, the cells that
      hold a number (a course missing from `cells` is NaN). */
  datatype Row = Row(emplid: string, name: string, cells: map<string, real>)

  /** The wide frame: its course columns and its rows. */
  datatype Frame = Frame(columns: set<string>, rows: seq<Row>)

  /** `data[col]` on a column the frame lacks. */
  datatype PreprocessError = KeyError(column: string)

  // ---------------------------------------------------------------- marks

  /** pd.to_numeric(errors='coerce') on one cell; `parse` is its reading of
      text, which gives None where pandas gives NaN. */
  function ToNumeric(m: RawMark, parse: string -> Option<real>): Option<real>
  {
    match m
    case NumberCell(v) => Some(v)
    case TextCell(s) => parse(s)
    case EmptyCell => None
  }

  /** One coerced record per record: the keys are kept, a number stays that
      number and an empty cell becomes missing. */
  function Coerce(rs: seq<RawRecord>, parse: string -> Option<real>): (r: seq<MarkRecord>)
    ensures |r| == |rs|
    ensures forall i :: 0 <= i < |rs| ==>
      r[i].emplid == rs[i].emplid && r[i].name == rs[i].name && r[i].course == rs[i].course
    ensures forall i :: 0 <= i < |rs| && rs[i].mark.NumberCell? ==> r[i].mark == Some(rs[i].mark.number)
    ensures forall i :: 0 <= i < |rs| && rs[i].mark.EmptyCell? ==> r[i].mark.None?
  {
    seq(|rs|, i requires 0 <= i < |rs| =>
      MarkRecord(rs[i].emplid, rs[i].name, rs[i].course, ToNumeric(rs[i].mark, parse)))
  }

  /** A record whose mark is a number. */
  function Marked(r: MarkRecord): bool
  {
    r.mark.Some?
  }

  /** Whether a record's mark is the number x. */
  function MarkIs(x: real): MarkRecord -> bool
  {
    (r: MarkRecord) => r.mark == Some(x)
  }

  /** The marks that are present, in row order: what Series.median sees;
      one value per marked record, each as often as records carry it. */
  function PresentMarks(rs: seq<MarkRecord>): (xs: seq<real>)
    ensures forall x :: x in xs <==> exists i :: 0 <= i < |rs| && rs[i].mark == Some(x)
    ensures |xs| == Count(rs, Marked)
    ensures forall x :: multiset(xs)[x] == Count(rs, MarkIs(x))
  {
    if rs == [] then []
    else
      assert forall i :: 0 < i < |rs| ==> rs[i] == rs[1..][i - 1];
      (if rs[0].mark.Some? then [rs[0].mark.value] else []) + PresentMarks(rs[1..])
  }

  function RealLe(a: real, b: real): bool
  {
    a <= b
  }

  function AtMost(m: real): real -> bool
  {
    x => x <= m
  }

  function AtLeast(m: real): real -> bool
  {
    x => x >= m
  }

  /** Series.median(): NaN (None) for no values; otherwise the middle sorted
      value, or the average of the two middle ones. */
  function Median(xs: seq<real>): (m: Option<real>)
    ensures m.None? <==> xs == []
  {
    if xs == [] then None
    else
      var s := SortBy(xs, RealLe);
      assert |s| == |multiset(s)| == |multiset(xs)| == |xs|;
      Some(Middle(s))
  }

  /** The middle of sorted values. */
  function Middle(s: seq<real>): real
    requires s != []
  {
    var n := |s|;
    if n % 2 == 1 then s[n / 2] else (s[n / 2 - 1] + s[n / 2]) / 2.0
  }

  lemma RealLeTotalPreorder()
    ensures TotalPreorder(RealLe)
  {
  }

  /** The median of sorted values splits them in halves. */
  lemma MedianOfSorted(s: seq<real>, m: real)
    requires s != [] && SortedBy(s, RealLe) && m == Middle(s)
    ensures 2 * Count(s, AtMost(m)) >= |s| && 2 * Count(s, AtLeast(m)) >= |s|
  {
    var n := |s|;
    if n % 2 == 1 {
      assert forall i :: 0 <= i <= n / 2 ==> RealLe(s[i], s[n / 2]);
      assert forall i :: n / 2 <= i < n ==> RealLe(s[n / 2], s[i]);
      CountAtLeastPrefix(s, n / 2 + 1, AtMost(m));
      CountAtLeastSuffix(s, n / 2, AtLeast(m));
    } else {
      assert RealLe(s[n / 2 - 1], s[n / 2]);
      assert forall i :: 0 <= i < n / 2 ==> RealLe(s[i], s[n / 2 - 1]);
      assert forall i :: n / 2 <= i < n ==> RealLe(s[n / 2], s[i]);
      CountAtLeastPrefix(s, n / 2, AtMost(m));
      CountAtLeastSuffix(s, n / 2, AtLeast(m));
    }
  }

  /** The median splits the values in halves: at least half of them are at
      or below it and at least half at or above it. */
  lemma MedianSplitsValues(xs: seq<real>)
    requires xs != []
    ensures var m := Median(xs).value;
      2 * Count(xs, AtMost(m)) >= |xs| && 2 * Count(xs, AtLeast(m)) >= |xs|
  {
    var m := Median(xs).value;
    var s := SortBy(xs, RealLe);
    RealLeTotalPreorder();
    SortBySorted(xs, RealLe);
    assert |s| == |multiset(s)| == |xs|;
    assert m == Middle(s);
    MedianOfSorted(s, m);
    CountPermutation(xs, s, AtMost(m));
    CountPermutation(xs, s, AtLeast(m));
  }

  /** Every missing mark becomes `fill`; present marks stay. */
  function FillMarks(rs: seq<MarkRecord>, fill: Option<real>): seq<MarkRecord>
  {
    seq(|rs|, i requires 0 <= i < |rs| => if rs[i].mark.Some? then rs[i] else rs[i].(mark := fill))
  }

  /** Lines 51–54: drop exact-duplicate rows, coerce Mark to numbers, and
      fill every mark that is not a number with the median of the rest.
      One record per distinct raw row; either every mark is then a number,
      or (no mark was numeric, so the median is NaN) none is. */
  function CleanMarks(raw: seq<RawRecord>, parse: string -> Option<real>): (r: seq<MarkRecord>)
    ensures |r| == |Dedup(raw)|
    ensures (forall i :: 0 <= i < |r| ==> r[i].mark.Some?) || (forall i :: 0 <= i < |r| ==> r[i].mark.None?)
  {
    var coerced := Coerce(Dedup(raw), parse);
    var present := PresentMarks(coerced);
    FillMarks(coerced, Median(present))
  }

  /** The one value every non-numeric mark is replaced with. */
  function BatchMedian(raw: seq<RawRecord>, parse: string -> Option<real>): Option<real>
  {
    Median(PresentMarks(Coerce(Dedup(raw), parse)))
  }

  /** Line 54 as the source does it: Series.fillna(inplace=True) on the Mark
      column. */
  method FillMissing(marks: array<Option<real>>, fill: Option<real>)
    modifies marks
    ensures forall i :: 0 <= i < marks.Length ==>
      marks[i] == if old(marks[i]).Some? then old(marks[i]) else fill
  {
    for i := 0 to marks.Length
      invariant forall j :: 0 <= j < i ==> marks[j] == if old(marks[j]).Some? then old(marks[j]) else fill
      invariant forall j :: i <= j < marks.Length ==> marks[j] == old(marks[j])
    {
      if marks[i].None? {
        marks[i] := fill;
      }
    }
  }

  /** The cleaned batch keeps one copy of each distinct raw row, in order
      of first occurrence; numeric marks are unchanged and every other mark
      becomes the same batch median. */
  lemma CleanMarksSpec(raw: seq<RawRecord>, parse: string -> Option<real>)
    ensures var d := Dedup(raw); var rs := CleanMarks(raw, parse);
      && |rs| == |d|
      && (forall r :: r in d <==> r in raw)
      && (forall i :: 0 <= i < |d| ==>
            && rs[i].emplid == d[i].emplid && rs[i].name == d[i].name && rs[i].course == d[i].course
            && rs[i].mark == (if ToNumeric(d[i].mark, parse).Some? then ToNumeric(d[i].mark, parse)
                              else BatchMedian(raw, parse)))
  {
  }

  /** When any mark is numeric, no mark is missing after cleaning. */
  lemma CleanMarksComplete(raw: seq<RawRecord>, parse: string -> Option<real>)
    requires exists r :: r in raw && ToNumeric(r.mark, parse).Some?
    ensures forall i :: 0 <= i < |CleanMarks(raw, parse)| ==> CleanMarks(raw, parse)[i].mark.Some?
  {
    var r :| r in raw && ToNumeric(r.mark, parse).Some?;
    var d := Dedup(raw);
    var c := Coerce(d, parse);
    assert r in d;
    var k :| 0 <= k < |d| && d[k] == r;
    assert c[k].mark == Some(ToNumeric(r.mark, parse).value);
    assert ToNumeric(r.mark, parse).value in PresentMarks(c);
    var med := Median(PresentMarks(c));
    assert med.Some?;
    FilledMarksPresent(c, med);
  }

  /** Filling with a present value leaves no mark missing. */
  lemma FilledMarksPresent(rs: seq<MarkRecord>, fill: Option<real>)
    requires fill.Some?
    ensures forall i :: 0 <= i < |FillMarks(rs, fill)| ==> FillMarks(rs, fill)[i].mark.Some?
  {
  }

  // ---------------------------------------------------------------- pivot

  function StudentOf(r: MarkRecord): Student
  {
    Student(r.emplid, r.name)
  }

  /** Python's order on the (Emplid, Name) tuples that pivot_table sorts
      its rows by. */
  function StudentLe(a: Student, b: Student): bool
  {
    if a.emplid != b.emplid then LexLe(a.emplid, b.emplid) else LexLe(a.name, b.name)
  }

  lemma StudentLeTotalPreorder()
    ensures TotalPreorder(StudentLe)
  {
    forall a: Student, b: Student ensures StudentLe(a, b) || StudentLe(b, a) {
      LexLeTotal(a.emplid, b.emplid);
      LexLeTotal(a.name, b.name);
    }
    forall a: Student, b: Student, c: Student | StudentLe(a, b) && StudentLe(b, c)
      ensures StudentLe(a, c)
    {
      StudentLeTransitive(a, b, c);
    }
  }

  lemma StudentLeTransitive(a: Student, b: Student, c: Student)
    requires StudentLe(a, b) && StudentLe(b, c)
    ensures StudentLe(a, c)
  {
    if a.emplid != b.emplid && b.emplid != c.emplid {
      LexLeTransitive(a.emplid, b.emplid, c.emplid);
      if a.emplid == c.emplid {
        LexLeAntisymmetric(a.emplid, b.emplid);
      }
    } else if a.emplid == b.emplid && b.emplid == c.emplid {
      LexLeTransitive(a.name, b.name, c.name);
    }
  }

  lemma StudentLeAntisymmetric(a: Student, b: Student)
    requires StudentLe(a, b) && StudentLe(b, a)
    ensures a == b
  {
    if a.emplid != b.emplid {
      LexLeAntisymmetric(a.emplid, b.emplid);
    } else {
      LexLeAntisymmetric(a.name, b.name);
    }
  }

  /** The students of the records that hold a mark, with repetitions. */
  function StudentsWithMarks(rs: seq<MarkRecord>): (ss: seq<Student>)
    ensures forall s :: s in ss <==> exists i :: 0 <= i < |rs| && rs[i].mark.Some? && StudentOf(rs[i]) == s
  {
    if rs == [] then []
    else
      assert forall i :: 0 < i < |rs| ==> rs[i] == rs[1..][i - 1];
      (if rs[0].mark.Some? then [StudentOf(rs[0])] else []) + StudentsWithMarks(rs[1..])
  }

  /** Record r holds a mark of student s for course c. */
  predicate MarkOf(r: MarkRecord, s: Student, c: string)
  {
    StudentOf(r) == s && r.course == c && r.mark.Some?
  }

  /** One student's cells: aggfunc='first' keeps, per course, the first
      mark that is present. */
  function FirstMarks(rs: seq<MarkRecord>, s: Student): map<string, real>
  {
    if rs == [] then map[]
    else
      var rest := FirstMarks(rs[1..], s);
      if StudentOf(rs[0]) == s && rs[0].mark.Some? then rest[rs[0].course := rs[0].mark.value] else rest
  }

  /** The row order pivot_table gives: each student once, sorted. */
  function PivotStudents(rs: seq<MarkRecord>): seq<Student>
  {
    SortBy(Dedup(StudentsWithMarks(rs)), StudentLe)
  }

  /** Lines 56–65: pivot_table(index=['Emplid', 'Name'], columns='Course',
      values='Mark', aggfunc='first').reset_index(). pivot_table leaves out
      NaN marks, so a student or course with no present mark gets no row or
      column. */
  function Pivot(rs: seq<MarkRecord>): (f: Frame)
    ensures f.columns == MarkedCourses(rs) && |f.rows| == |PivotStudents(rs)|
    ensures forall k, c :: 0 <= k < |f.rows| && c in f.rows[k].cells ==> c in f.columns
  {
    var students := PivotStudents(rs);
    FirstMarksCourses(rs);
    Frame(MarkedCourses(rs),
          seq(|students|, k requires 0 <= k < |students| =>
            Row(students[k].emplid, students[k].name, FirstMarks(rs, students[k]))))
  }

  /** The courses of the records that hold a mark. */
  function MarkedCourses(rs: seq<MarkRecord>): set<string>
  {
    set r | r in rs && r.mark.Some? :: r.course
  }

  /** A student's first marks are all for courses some record has a mark
      in. */
  lemma FirstMarksCourses(rs: seq<MarkRecord>)
    ensures forall s, c :: c in FirstMarks(rs, s) ==> c in MarkedCourses(rs)
  {
    forall s, c | c in FirstMarks(rs, s) ensures c in MarkedCourses(rs) {
      FirstMarksSpec(rs, s, c);
      var i :| 0 <= i < |rs| && MarkOf(rs[i], s, c);
      assert rs[i] in rs;
    }
  }

  /** The pivot of the cleaned batch (lines 50–65): one row per distinct
      (Emplid, Name) of the upload, since the median fill leaves no mark
      missing; when no mark reads as a number the median is NaN, nothing
      is filled and the frame is empty. */
  function PivotOf(raw: seq<RawRecord>, parse: string -> Option<real>): (f: Frame)
    ensures |f.rows| == if AnyNumericMark(raw, parse) then |RawStudents(raw)| else 0
  {
    PivotRowsAreStudents(CleanMarks(raw, parse));
    if AnyNumericMark(raw, parse) then
      MarkedStudentsOfFilled(raw, parse);
      Pivot(CleanMarks(raw, parse))
    else
      MarkedStudentsOfUnfilled(raw, parse);
      Pivot(CleanMarks(raw, parse))
  }

  lemma {:induction false} FirstMarksSpec(rs: seq<MarkRecord>, s: Student, c: string)
    ensures c in FirstMarks(rs, s) <==> exists i :: 0 <= i < |rs| && MarkOf(rs[i], s, c)
    ensures c in FirstMarks(rs, s) ==>
      exists i :: 0 <= i < |rs| && MarkOf(rs[i], s, c) && FirstMarks(rs, s)[c] == rs[i].mark.value
        && forall j :: 0 <= j < i ==> !MarkOf(rs[j], s, c)
  {
    if rs != [] {
      FirstMarksSpec(rs[1..], s, c);
      assert forall i :: 0 < i < |rs| ==> rs[i] == rs[1..][i - 1];
      if MarkOf(rs[0], s, c) {
        assert FirstMarks(rs, s)[c] == rs[0].mark.value;
      } else if c in FirstMarks(rs, s) {
        assert c in FirstMarks(rs[1..], s);
        var i :| 0 <= i < |rs[1..]| && MarkOf(rs[1..][i], s, c) && FirstMarks(rs[1..], s)[c] == rs[1..][i].mark.value
          && forall j :: 0 <= j < i ==> !MarkOf(rs[1..][j], s, c);
        assert MarkOf(rs[i + 1], s, c);
      }
    }
  }

  function RowStudent(r: Row): Student
  {
    Student(r.emplid, r.name)
  }

  /** The students with a present mark, each once, sorted. */
  lemma {:induction false} PivotStudentsSpec(rs: seq<MarkRecord>)
    ensures var ss := PivotStudents(rs);
      && |ss| == |MarkedStudents(rs)|
      && (set s | s in ss) == MarkedStudents(rs)
      && SortedBy(ss, StudentLe) && Distinct(ss)
  {
    var ws := StudentsWithMarks(rs);
    var d := Dedup(ws);
    var ss := PivotStudents(rs);
    StudentLeTotalPreorder();
    SortBySorted(d, StudentLe);
    DistinctPermutation(d, ss);
    DedupLength(ws);
    assert (set x | x in ws) == MarkedStudents(rs);
    assert |ss| == |multiset(ss)| == |d|;
    forall s ensures s in ss <==> s in d {
      assert s in ss <==> s in multiset(ss);
      assert s in d <==> s in multiset(d);
    }
  }

  /** The students who have at least one present mark. */
  function MarkedStudents(rs: seq<MarkRecord>): set<Student>
  {
    set i | 0 <= i < |rs| && rs[i].mark.Some? :: StudentOf(rs[i])
  }

  /** The pivot has exactly one row per student with a mark, in strictly
      increasing (Emplid, Name) order. */
  lemma PivotRowsAreStudents(rs: seq<MarkRecord>)
    ensures var f := Pivot(rs);
      && (set k | 0 <= k < |f.rows| :: RowStudent(f.rows[k])) == MarkedStudents(rs)
      && |f.rows| == |MarkedStudents(rs)|
      && (forall k, l :: 0 <= k < l < |f.rows| ==>
            StudentLe(RowStudent(f.rows[k]), RowStudent(f.rows[l])) && RowStudent(f.rows[k]) != RowStudent(f.rows[l]))
  {
    var f := Pivot(rs);
    PivotRowStudents(rs);
    PivotStudentsSpec(rs);
    RowsOfStudents(f.rows, PivotStudents(rs), MarkedStudents(rs));
  }

  /** Row k of the pivot is the k-th pivot student's. */
  lemma PivotRowStudents(rs: seq<MarkRecord>)
    ensures var f := Pivot(rs); var ss := PivotStudents(rs);
      && |f.rows| == |ss|
      && forall k :: 0 <= k < |ss| ==> RowStudent(f.rows[k]) == ss[k]
  {
  }

  /** Rows that carry, in order, the students of a sorted duplicate-free
      sequence of a set carry each student of that set once, in order. */
  lemma RowsOfStudents(rows: seq<Row>, ss: seq<Student>, marked: set<Student>)
    requires |rows| == |ss| && forall k :: 0 <= k < |ss| ==> RowStudent(rows[k]) == ss[k]
    requires (set s | s in ss) == marked && |ss| == |marked|
    requires SortedBy(ss, StudentLe) && Distinct(ss)
    ensures (set k | 0 <= k < |rows| :: RowStudent(rows[k])) == marked
    ensures |rows| == |marked|
    ensures forall k, l :: 0 <= k < l < |rows| ==>
      StudentLe(RowStudent(rows[k]), RowStudent(rows[l])) && RowStudent(rows[k]) != RowStudent(rows[l])
  {
    var rowSet := set k | 0 <= k < |rows| :: RowStudent(rows[k]);
    forall s | s in rowSet ensures s in ss {
      var k :| 0 <= k < |rows| && s == RowStudent(rows[k]);
      assert s == ss[k];
    }
    forall s | s in ss ensures s in rowSet {
      var k :| 0 <= k < |ss| && ss[k] == s;
      assert RowStudent(rows[k]) == s;
    }
    assert rowSet == (set s | s in ss);
    forall k, l | 0 <= k < l < |rows|
      ensures StudentLe(RowStudent(rows[k]), RowStudent(rows[l])) && RowStudent(rows[k]) != RowStudent(rows[l])
    {
      assert StudentLe(ss[k], ss[l]) && ss[k] != ss[l];
    }
  }

  /** A pivot cell holds the first present mark of that student and course,
      and is missing when the student has no mark for the course. */
  lemma PivotCellIsFirstMark(rs: seq<MarkRecord>, k: nat, c: string)
    requires k < |Pivot(rs).rows|
    ensures var row := Pivot(rs).rows[k]; var s := RowStudent(row);
      && (c in row.cells <==> exists i :: 0 <= i < |rs| && MarkOf(rs[i], s, c))
      && (c in row.cells ==>
            exists i :: 0 <= i < |rs| && MarkOf(rs[i], s, c) && row.cells[c] == rs[i].mark.value
              && forall j :: 0 <= j < i ==> !MarkOf(rs[j], s, c))
  {
    var students := PivotStudents(rs);
    assert Pivot(rs).rows[k].cells == FirstMarks(rs, students[k]);
    assert RowStudent(Pivot(rs).rows[k]) == students[k];
    FirstMarksSpec(rs, students[k], c);
  }

  /** Every cell lies in a column, and every column has a present cell. */
  lemma PivotColumnsHaveValues(rs: seq<MarkRecord>)
    ensures var f := Pivot(rs);
      && (forall k, c :: 0 <= k < |f.rows| && c in f.rows[k].cells ==> c in f.columns)
      && (forall c :: c in f.columns ==> exists k :: 0 <= k < |f.rows| && c in f.rows[k].cells)
  {
    var f := Pivot(rs);
    var students := PivotStudents(rs);
    PivotRowsAreStudents(rs);
    forall k, c | 0 <= k < |f.rows| && c in f.rows[k].cells ensures c in f.columns {
      PivotCellIsFirstMark(rs, k, c);
    }
    forall c | c in f.columns ensures exists k :: 0 <= k < |f.rows| && c in f.rows[k].cells {
      var r :| r in rs && r.mark.Some? && r.course == c;
      var i :| 0 <= i < |rs| && rs[i] == r;
      var s := StudentOf(r);
      assert s in MarkedStudents(rs);
      assert s in (set k | 0 <= k < |f.rows| :: RowStudent(f.rows[k]));
      var k :| 0 <= k < |f.rows| && RowStudent(f.rows[k]) == s;
      PivotCellIsFirstMark(rs, k, c);
      assert MarkOf(rs[i], s, c);
    }
  }

  // -------------------------------------------------------- normalisation

  /** The present values of column c, top to bottom: Series.dropna(). */
  function ColumnValues(rows: seq<Row>, c: string): seq<real>
  {
    if rows == [] then [] else CellValues(rows[0], c) + ColumnValues(rows[1..], c)
  }

  /** The cell of column c in r, if it holds a number. */
  function CellValues(r: Row, c: string): seq<real>
  {
    if c in r.cells then [r.cells[c]] else []
  }

  /** Series.mean() of the present values; pandas gives NaN for none, which
      MeansNonZero rules out. */
  function Mean(xs: seq<real>): real
  {
    if xs == [] then 0.0 else Sum(xs) / (|xs| as real)
  }

  function ColumnMean(f: Frame, c: string): real
  {
    Mean(ColumnValues(f.rows, c))
  }

  /** Every subject column the frame has has a non-zero mean: line 72
      divides by it. */
  predicate MeansNonZero(f: Frame, cols: seq<string>)
  {
    forall c :: c in cols && c in f.columns ==> ColumnMean(f, c) != 0.0
  }

  /** Lines 71–72 on one cell: a missing cell is filled with mu, and the
      cell becomes (v - mu) / mu. */
  function Rescale(r: Row, c: string, mu: real): real
    requires mu != 0.0
  {
    ((if c in r.cells then r.cells[c] else mu) - mu) / mu
  }

  /** Row i after the loop of lines 69–72 over cols. */
  function NormalisedRow(f: Frame, i: nat, cols: seq<string>): (r: Row)
    requires i < |f.rows| && MeansNonZero(f, cols)
    requires forall c :: c in cols ==> c in f.columns
    ensures forall c :: c in cols ==> c in r.cells
  {
    f.rows[i].(cells := f.rows[i].cells + map c | c in cols :: Rescale(f.rows[i], c, ColumnMean(f, c)))
  }

  lemma {:induction false} ColumnValuesAgree(a: seq<Row>, b: seq<Row>, c: string)
    requires |a| == |b|
    requires forall i :: 0 <= i < |a| ==> (c in a[i].cells <==> c in b[i].cells)
    requires forall i :: 0 <= i < |a| && c in a[i].cells ==> a[i].cells[c] == b[i].cells[c]
    ensures ColumnValues(a, c) == ColumnValues(b, c)
  {
    if a != [] {
      ColumnValuesAgree(a[1..], b[1..], c);
    }
  }

  /** One more column of the loop of lines 69–72 adds exactly one cell. */
  lemma NormalisedRowStep(f: Frame, i: nat, cols: seq<string>, col: string)
    requires i < |f.rows| && MeansNonZero(f, cols + [col])
    requires forall c :: c in cols + [col] ==> c in f.columns
    ensures MeansNonZero(f, cols)
    ensures var r := NormalisedRow(f, i, cols);
      NormalisedRow(f, i, cols + [col]) == r.(cells := r.cells[col := Rescale(f.rows[i], col, ColumnMean(f, col))])
  {
    assert forall c :: c in cols ==> c in cols + [col];
    var row := f.rows[i];
    var m1 := map c | c in cols :: Rescale(row, c, ColumnMean(f, c));
    var m2 := map c | c in cols + [col] :: Rescale(row, c, ColumnMean(f, c));
    assert m2.Keys == m1.Keys + {col};
    MergeExtend(row.cells, m1, m2, col);
  }

  /** Merging in a map with one more key is merging, then setting it. */
  lemma MergeExtend(a: map<string, real>, m1: map<string, real>, m2: map<string, real>, k: string)
    requires m2.Keys == m1.Keys + {k}
    requires forall c :: c in m1 ==> m2[c] == m1[c]
    ensures a + m2 == (a + m1)[k := m2[k]]
  {
    assert m2 == m1[k := m2[k]];
  }

  /** A column of cols holds its rescaled value. */
  lemma NormalisedCellInside(f: Frame, i: nat, cols: seq<string>, c: string)
    requires i < |f.rows| && MeansNonZero(f, cols)
    requires forall c :: c in cols ==> c in f.columns
    requires c in cols
    ensures NormalisedRow(f, i, cols).cells[c] == Rescale(f.rows[i], c, ColumnMean(f, c))
  {
  }

  /** A column outside cols keeps its cells. */
  lemma NormalisedCellOutside(f: Frame, i: nat, cols: seq<string>, c: string)
    requires i < |f.rows| && MeansNonZero(f, cols)
    requires forall c :: c in cols ==> c in f.columns
    requires c !in cols
    ensures c in NormalisedRow(f, i, cols).cells <==> c in f.rows[i].cells
    ensures c in f.rows[i].cells ==> NormalisedRow(f, i, cols).cells[c] == f.rows[i].cells[c]
  {
  }

  /** Rows that agree on a cell rescale it alike. */
  lemma RescaleAgree(a: Row, b: Row, c: string, mu: real)
    requires mu != 0.0
    requires (c in a.cells <==> c in b.cells) && (c in a.cells ==> a.cells[c] == b.cells[c])
    ensures Rescale(a, c, mu) == Rescale(b, c, mu)
  {
  }

  lemma NormalisedRowExtend(p: Frame, row: Row, i: nat, done: seq<string>, col: string)
    requires i < |p.rows| && col !in done
    requires MeansNonZero(p, done + [col]) && forall c :: c in done + [col] ==> c in p.columns
    requires MeansNonZero(p, done) && forall c :: c in done ==> c in p.columns
    requires row == NormalisedRow(p, i, done)
    ensures row.(cells := row.cells[col := Rescale(row, col, ColumnMean(p, col))]) == NormalisedRow(p, i, done + [col])
  {
    var mu := ColumnMean(p, col);
    NormalisedCellOutside(p, i, done, col);
    RescaleAgree(row, p.rows[i], col, mu);
    NormalisedRowStep(p, i, done, col);
  }

  /** Lines 71–72 on a whole column: fill with mu, then rescale by mu. */
  function RescaleColumn(rows: seq<Row>, col: string, mu: real): (r: seq<Row>)
    requires mu != 0.0
    ensures |r| == |rows|
    ensures forall i :: 0 <= i < |rows| ==>
      r[i] == rows[i].(cells := rows[i].cells[col := Rescale(rows[i], col, mu)])
  {
    seq(|rows|, i requires 0 <= i < |rows| => rows[i].(cells := rows[i].cells[col := Rescale(rows[i], col, mu)]))
  }

  /** The state of the frame after the first k passes of the loop of
      lines 69–72 over cols. */
  ghost predicate NormalisedUpTo(p: Frame, rows: seq<Row>, cols: seq<string>, k: nat)
  {
    && k <= |cols|
    && (forall c :: c in cols[..k] ==> c in p.columns)
    && MeansNonZero(p, cols[..k])
    && |rows| == |p.rows|
    && forall i :: 0 <= i < |rows| ==> rows[i] == NormalisedRow(p, i, cols[..k])
  }

  /** One pass of the loop: the mean is taken over the column as the
      earlier passes left it, which they did not touch. */
  lemma NormaliseLoopStep(p: Frame, rows: seq<Row>, cols: seq<string>, k: nat)
    requires Distinct(cols) && MeansNonZero(p, cols)
    requires NormalisedUpTo(p, rows, cols, k) && k < |cols| && cols[k] in p.columns
    ensures Mean(ColumnValues(rows, cols[k])) == ColumnMean(p, cols[k]) != 0.0
    ensures NormalisedUpTo(p, RescaleColumn(rows, cols[k], ColumnMean(p, cols[k])), cols, k + 1)
  {
    var col := cols[k];
    var done := cols[..k];
    LoopStepPrepared(p, rows, cols, k);
    NormaliseColumnStep(p, rows, done, col);
    UpToExtend(p, RescaleColumn(rows, col, ColumnMean(p, col)), cols, k);
  }

  /** What the first k passes leave is what one more pass starts from. */
  lemma LoopStepPrepared(p: Frame, rows: seq<Row>, cols: seq<string>, k: nat)
    requires Distinct(cols) && MeansNonZero(p, cols)
    requires NormalisedUpTo(p, rows, cols, k) && k < |cols| && cols[k] in p.columns
    ensures |rows| == |p.rows| && cols[k] !in cols[..k]
    ensures MeansNonZero(p, cols[..k] + [cols[k]]) && forall c :: c in cols[..k] + [cols[k]] ==> c in p.columns
    ensures MeansNonZero(p, cols[..k]) && forall c :: c in cols[..k] ==> c in p.columns
    ensures forall i :: 0 <= i < |rows| ==> rows[i] == NormalisedRow(p, i, cols[..k])
  {
    assert forall c :: c in cols[..k] + [cols[k]] ==> c in cols;
  }

  /** Rows that are normalised over the first k + 1 columns satisfy the
      state after k + 1 passes. */
  lemma UpToExtend(p: Frame, next: seq<Row>, cols: seq<string>, k: nat)
    requires k < |cols| && |next| == |p.rows|
    requires MeansNonZero(p, cols[..k] + [cols[k]]) && forall c :: c in cols[..k] + [cols[k]] ==> c in p.columns
    requires forall i :: 0 <= i < |next| ==> next[i] == NormalisedRow(p, i, cols[..k] + [cols[k]])
    ensures NormalisedUpTo(p, next, cols, k + 1)
  {
    assert cols[..k + 1] == cols[..k] + [cols[k]];
  }

  /** One pass of the loop over all rows. */
  lemma NormaliseColumnStep(p: Frame, rows: seq<Row>, done: seq<string>, col: string)
    requires |rows| == |p.rows| && col !in done
    requires MeansNonZero(p, done + [col]) && forall c :: c in done + [col] ==> c in p.columns
    requires MeansNonZero(p, done) && forall c :: c in done ==> c in p.columns
    requires forall i :: 0 <= i < |rows| ==> rows[i] == NormalisedRow(p, i, done)
    ensures Mean(ColumnValues(rows, col)) == ColumnMean(p, col)
    ensures forall i :: 0 <= i < |rows| ==>
      rows[i].(cells := rows[i].cells[col := Rescale(rows[i], col, ColumnMean(p, col))])
        == NormalisedRow(p, i, done + [col])
  {
    forall i | 0 <= i < |rows|
      ensures col in rows[i].cells <==> col in p.rows[i].cells
      ensures col in rows[i].cells ==> rows[i].cells[col] == p.rows[i].cells[col]
    {
      NormalisedCellOutside(p, i, done, col);
    }
    ColumnValuesAgree(rows, p.rows, col);
    forall i | 0 <= i < |rows|
      ensures rows[i].(cells := rows[i].cells[col := Rescale(rows[i], col, ColumnMean(p, col))])
                == NormalisedRow(p, i, done + [col])
    {
      NormalisedRowExtend(p, rows[i], i, done, col);
    }
  }

  /** Lines 51–54: the cleaned batch, with the marks filled in place. */
  method CleanBatch(raw: seq<RawRecord>, parse: string -> Option<real>) returns (cleaned: seq<MarkRecord>)
    ensures cleaned == CleanMarks(raw, parse)
  {
    var df := Coerce(Dedup(raw), parse);
    var marks := new Option<real>[|df|](i requires 0 <= i < |df| => df[i].mark);
    FillMissing(marks, Median(PresentMarks(df)));
    cleaned := seq(|df|, i requires 0 <= i < |df| reads marks => df[i].(mark := marks[i]));
  }

  /** Lines 68–72: the loop over the subject columns, each filled with its
      mean and rescaled in turn. The first subject column the frame lacks
      raises KeyError; otherwise every subject column is rescaled and the
      rest of the frame is kept. */
  method NormaliseSubjects(pivot: Frame, subjectCols: seq<string>) returns (res: Result<Frame, PreprocessError>)
    requires Distinct(subjectCols) && MeansNonZero(pivot, subjectCols)
    ensures res.Err? <==> exists c :: c in subjectCols && c !in pivot.columns
    ensures res.Err? ==> exists k :: && 0 <= k < |subjectCols| && res.error == KeyError(subjectCols[k])
                                     && subjectCols[k] !in pivot.columns
                                     && forall j :: 0 <= j < k ==> subjectCols[j] in pivot.columns
    ensures res.Ok? ==> && res.value.columns == pivot.columns
                        && |res.value.rows| == |pivot.rows|
                        && forall i :: 0 <= i < |pivot.rows| ==>
                             res.value.rows[i] == NormalisedRow(pivot, i, subjectCols)
  {
    var rows := pivot.rows;
    var k := 0;
    assert subjectCols[..0] == [];
    while k < |subjectCols|
      invariant 0 <= k <= |subjectCols|
      invariant NormalisedUpTo(pivot, rows, subjectCols, k)
      invariant forall j :: 0 <= j < k ==> subjectCols[j] in pivot.columns
    {
      var col := subjectCols[k];
      if col !in pivot.columns {
        return Err(KeyError(col));
      }
      NormaliseLoopStep(pivot, rows, subjectCols, k);
      var mu := Mean(ColumnValues(rows, col));
      rows := RescaleColumn(rows, col, mu);
      k := k + 1;
    }
    assert subjectCols[..k] == subjectCols;
    res := Ok(Frame(pivot.columns, rows));
  }

  /** preprocess_input (lines 50–74). */
  method PreprocessInput(raw: seq<RawRecord>, parse: string -> Option<real>, subjectCols: seq<string>)
    returns (res: Result<Frame, PreprocessError>)
    requires Distinct(subjectCols)
    requires MeansNonZero(PivotOf(raw, parse), subjectCols)
    ensures var p := PivotOf(raw, parse);
      res.Err? <==> exists c :: c in subjectCols && c !in p.columns
    ensures var p := PivotOf(raw, parse);
      res.Err? ==> exists k :: && 0 <= k < |subjectCols| && res.error == KeyError(subjectCols[k])
                               && subjectCols[k] !in p.columns
                               && forall j :: 0 <= j < k ==> subjectCols[j] in p.columns
    ensures var p := PivotOf(raw, parse);
      res.Ok? ==> && res.value.columns == p.columns
                  && |res.value.rows| == |p.rows|
                  && forall i :: 0 <= i < |p.rows| ==> res.value.rows[i] == NormalisedRow(p, i, subjectCols)
  {
    var cleaned := CleanBatch(raw, parse);
    var pivot := Pivot(cleaned);
    res := NormaliseSubjects(pivot, subjectCols);
  }

  // ------------------------------------------- properties of the result

  /** The students of the upload, one per distinct (Emplid, Name). */
  function RawStudents(raw: seq<RawRecord>): set<Student>
  {
    set r | r in raw :: Student(r.emplid, r.name)
  }

  /** Some mark of the upload reads as a number. */
  predicate AnyNumericMark(raw: seq<RawRecord>, parse: string -> Option<real>)
  {
    exists r :: r in raw && ToNumeric(r.mark, parse).Some?
  }

  lemma MarkedStudentsOfFilled(raw: seq<RawRecord>, parse: string -> Option<real>)
    requires AnyNumericMark(raw, parse)
    ensures MarkedStudents(CleanMarks(raw, parse)) == RawStudents(raw)
  {
    var rs := CleanMarks(raw, parse);
    CleanMarksSpec(raw, parse);
    CleanMarksComplete(raw, parse);
    MarkedStudentsOfComplete(raw, Dedup(raw), rs);
  }

  /** Records that copy the students of the distinct raw rows, each with a
      mark, have a mark for every student of the upload. */
  lemma MarkedStudentsOfComplete(raw: seq<RawRecord>, d: seq<RawRecord>, rs: seq<MarkRecord>)
    requires |rs| == |d| && forall r :: r in d <==> r in raw
    requires forall i :: 0 <= i < |d| ==> rs[i].emplid == d[i].emplid && rs[i].name == d[i].name
    requires forall i :: 0 <= i < |rs| ==> rs[i].mark.Some?
    ensures MarkedStudents(rs) == RawStudents(raw)
  {
    forall s | s in RawStudents(raw) ensures s in MarkedStudents(rs) {
      var r :| r in raw && s == Student(r.emplid, r.name);
      assert r in d;
      var i :| 0 <= i < |d| && d[i] == r;
      assert rs[i].mark.Some? && StudentOf(rs[i]) == s;
    }
    forall s | s in MarkedStudents(rs) ensures s in RawStudents(raw) {
      var i :| 0 <= i < |rs| && rs[i].mark.Some? && StudentOf(rs[i]) == s;
      assert d[i] in d;
      assert d[i] in raw && s == Student(d[i].emplid, d[i].name);
    }
  }

  lemma MarkedStudentsOfUnfilled(raw: seq<RawRecord>, parse: string -> Option<real>)
    requires !AnyNumericMark(raw, parse)
    ensures MarkedStudents(CleanMarks(raw, parse)) == {}
  {
    var d := Dedup(raw);
    var c := Coerce(d, parse);
    forall i | 0 <= i < |c| ensures c[i].mark.None? {
      assert d[i] in raw;
    }
    assert |PresentMarks(c)| == 0 || PresentMarks(c)[0] in PresentMarks(c);
  }

  /** A missing subject cell is filled with the column mean, so it is 0
      after rescaling. */
  lemma ImputedCellIsZero(p: Frame, i: nat, cols: seq<string>, c: string)
    requires i < |p.rows| && MeansNonZero(p, cols) && forall c :: c in cols ==> c in p.columns
    requires c in cols && c !in p.rows[i].cells
    ensures NormalisedRow(p, i, cols).cells[c] == 0.0
  {
  }

  /** Column c of the normalised frame, top to bottom. */
  function NormalisedColumn(p: Frame, cols: seq<string>, c: string): (xs: seq<real>)
    requires MeansNonZero(p, cols) && (forall c :: c in cols ==> c in p.columns) && c in cols
    ensures |xs| == |p.rows|
    ensures forall i :: 0 <= i < |xs| ==> xs[i] == Rescale(p.rows[i], c, ColumnMean(p, c))
  {
    seq(|p.rows|, i requires 0 <= i < |p.rows| => NormalisedRow(p, i, cols).cells[c])
  }

  /** Cells of column c rescaled by mu, top to bottom. */
  function RescaledValues(rows: seq<Row>, c: string, mu: real): (xs: seq<real>)
    requires mu != 0.0
    ensures |xs| == |rows|
  {
    if rows == [] then [] else [Rescale(rows[0], c, mu)] + RescaledValues(rows[1..], c, mu)
  }

  lemma {:induction false} RescaledValuesAt(rows: seq<Row>, c: string, mu: real)
    requires mu != 0.0
    ensures forall i :: 0 <= i < |rows| ==> RescaledValues(rows, c, mu)[i] == Rescale(rows[i], c, mu)
  {
    if rows != [] {
      RescaledValuesAt(rows[1..], c, mu);
      assert forall i :: 0 < i < |rows| ==> rows[i] == rows[1..][i - 1];
    }
  }

  /** Cells of column c, filled with mu, less mu. */
  function Deviations(rows: seq<Row>, c: string, mu: real): (xs: seq<real>)
    ensures |xs| == |rows|
  {
    if rows == [] then []
    else [(if c in rows[0].cells then rows[0].cells[c] else mu) - mu] + Deviations(rows[1..], c, mu)
  }

  /** n copies of mu added up. */
  function Times(n: nat, mu: real): real
  {
    if n == 0 then 0.0 else mu + Times(n - 1, mu)
  }

  lemma {:induction false} TimesIsProduct(n: nat, mu: real)
    ensures Times(n, mu) == (n as real) * mu
  {
    if n > 0 {
      TimesIsProduct(n - 1, mu);
      assert (n as real) * mu == ((n - 1) as real) * mu + mu;
    }
  }

  /** The deviations add up to the present values less one mu for each. */
  lemma {:induction false} DeviationsSum(rows: seq<Row>, c: string, mu: real)
    ensures Sum(Deviations(rows, c, mu)) == Sum(ColumnValues(rows, c)) - Times(|ColumnValues(rows, c)|, mu)
  {
    if rows != [] {
      var head := CellValues(rows[0], c);
      var tail := ColumnValues(rows[1..], c);
      var rest := Deviations(rows[1..], c, mu);
      DeviationsSum(rows[1..], c, mu);
      SumAppend(head, tail);
      assert ColumnValues(rows, c) == head + tail;
      var d := (if c in rows[0].cells then rows[0].cells[c] else mu) - mu;
      assert Deviations(rows, c, mu) == [d] + rest;
      assert ([d] + rest)[1..] == rest;
      if c in rows[0].cells {
        assert Sum(head) == rows[0].cells[c];
        assert |head + tail| == |tail| + 1;
      } else {
        assert head + tail == tail;
      }
    }
  }

  /** Rescaling by mu divides the deviations by mu. */
  lemma {:induction false} RescaledSum(rows: seq<Row>, c: string, mu: real)
    requires mu != 0.0
    ensures Sum(RescaledValues(rows, c, mu)) == Sum(Deviations(rows, c, mu)) / mu
  {
    if rows != [] {
      RescaledSum(rows[1..], c, mu);
      var r := RescaledValues(rows[1..], c, mu);
      var d := Deviations(rows[1..], c, mu);
      var d0 := (if c in rows[0].cells then rows[0].cells[c] else mu) - mu;
      assert ([Rescale(rows[0], c, mu)] + r)[1..] == r;
      assert ([d0] + d)[1..] == d;
      assert Sum(RescaledValues(rows, c, mu)) == Rescale(rows[0], c, mu) + Sum(r);
      assert Sum(Deviations(rows, c, mu)) == d0 + Sum(d);
      assert Rescale(rows[0], c, mu) == d0 / mu;
      DivideSum(d0, Sum(d), mu);
    }
  }

  lemma DivideSum(a: real, b: real, mu: real)
    requires mu != 0.0
    ensures a / mu + b / mu == (a + b) / mu
  {
  }

  lemma ZeroFromMean(x: real, total: real, n: real, mu: real, scaled: real)
    requires n > 0.0 && mu != 0.0 && mu == total / n && scaled == n * mu && x == (total - scaled) / mu
    ensures x == 0.0
  {
    assert n * mu == total;
  }

  lemma MeanOfRepeated(total: real, n: real, v: real)
    requires n > 0.0 && total == n * v
    ensures total / n == v
  {
  }

  /** Each normalised subject column adds up to 0: (v - mean) / mean has
      mean 0 over the rows, the filled cells included. */
  lemma NormalisedColumnSumsToZero(p: Frame, cols: seq<string>, c: string)
    requires MeansNonZero(p, cols) && (forall c :: c in cols ==> c in p.columns) && c in cols
    ensures Sum(NormalisedColumn(p, cols, c)) == 0.0
  {
    var mu := ColumnMean(p, c);
    RescaledValuesAt(p.rows, c, mu);
    assert NormalisedColumn(p, cols, c) == RescaledValues(p.rows, c, mu);
    RescaledByMeanSum(p.rows, c);
  }

  /** The column rescaled by its own mean adds up to 0. */
  lemma RescaledByMeanSum(rows: seq<Row>, c: string)
    requires Mean(ColumnValues(rows, c)) != 0.0
    ensures Sum(RescaledValues(rows, c, Mean(ColumnValues(rows, c)))) == 0.0
  {
    var vs := ColumnValues(rows, c);
    var mu := Mean(vs);
    RescaledSum(rows, c, mu);
    DeviationsSum(rows, c, mu);
    TimesIsProduct(|vs|, mu);
    ZeroFromMean(Sum(RescaledValues(rows, c, mu)), Sum(vs), |vs| as real, mu, Times(|vs|, mu));
  }

  lemma {:induction false} SumOfConstant(xs: seq<real>, v: real)
    requires forall i :: 0 <= i < |xs| ==> xs[i] == v
    ensures Sum(xs) == (|xs| as real) * v
  {
    if xs != [] {
      SumOfConstant(xs[1..], v);
    }
  }

  lemma {:induction false} ColumnValuesHas(rows: seq<Row>, c: string, i: nat)
    requires i < |rows| && c in rows[i].cells
    ensures rows[i].cells[c] in ColumnValues(rows, c)
  {
    if i > 0 {
      assert rows[i] == rows[1..][i - 1];
      ColumnValuesHas(rows[1..], c, i - 1);
    }
  }

  /** Every value a column lists comes from a present cell. */
  lemma {:induction false} ColumnValuesFrom(rows: seq<Row>, c: string)
    ensures forall x :: x in ColumnValues(rows, c) ==>
      exists i :: 0 <= i < |rows| && c in rows[i].cells && rows[i].cells[c] == x
  {
    if rows != [] {
      ColumnValuesFrom(rows[1..], c);
      assert forall i :: 0 < i < |rows| ==> rows[i] == rows[1..][i - 1];
    }
  }

  /** A column whose present cells all hold v lists only v. */
  lemma {:induction false} ColumnValuesConstant(rows: seq<Row>, c: string, v: real)
    requires forall i :: 0 <= i < |rows| && c in rows[i].cells ==> rows[i].cells[c] == v
    ensures forall k :: 0 <= k < |ColumnValues(rows, c)| ==> ColumnValues(rows, c)[k] == v
  {
    if rows != [] {
      assert forall i :: 0 <= i < |rows[1..]| ==> rows[1..][i] == rows[i + 1];
      ColumnValuesConstant(rows[1..], c, v);
    }
  }

  /** The mean of a column whose present cells all hold v is v. */
  lemma ConstantColumnMean(p: Frame, c: string, v: real)
    requires exists i :: 0 <= i < |p.rows| && c in p.rows[i].cells
    requires forall i :: 0 <= i < |p.rows| && c in p.rows[i].cells ==> p.rows[i].cells[c] == v
    ensures ColumnMean(p, c) == v
  {
    var i :| 0 <= i < |p.rows| && c in p.rows[i].cells;
    ColumnValuesHas(p.rows, c, i);
    ColumnValuesConstant(p.rows, c, v);
    MeanOfConstant(ColumnValues(p.rows, c), v);
  }

  /** Values that are all v have mean v. */
  lemma MeanOfConstant(vs: seq<real>, v: real)
    requires vs != [] && forall k :: 0 <= k < |vs| ==> vs[k] == v
    ensures Mean(vs) == v
  {
    SumOfConstant(vs, v);
    MeanOfRepeated(Sum(vs), |vs| as real, v);
  }

  /** A subject on which every student with a mark has the same mark
      normalises to 0 in every row. */
  lemma ConstantColumnNormalisesToZero(p: Frame, cols: seq<string>, c: string, v: real)
    requires MeansNonZero(p, cols) && (forall c :: c in cols ==> c in p.columns) && c in cols
    requires forall i :: 0 <= i < |p.rows| && c in p.rows[i].cells ==> p.rows[i].cells[c] == v
    ensures forall i :: 0 <= i < |p.rows| ==> NormalisedRow(p, i, cols).cells[c] == 0.0
  {
    var vs := ColumnValues(p.rows, c);
    assert vs != [] && vs[0] in vs;
    ColumnValuesFrom(p.rows, c);
    ConstantColumnMean(p, c, v);
    forall i | 0 <= i < |p.rows| ensures NormalisedRow(p, i, cols).cells[c] == 0.0 {
      NormalisedCellInside(p, i, cols, c);
      RescaleAtMean(p.rows[i], c, v);
    }
  }

  /** A value equal to the mean, or a missing one, rescales to 0. */
  lemma RescaleAtMean(r: Row, c: string, mu: real)
    requires mu != 0.0 && (c in r.cells ==> r.cells[c] == mu)
    ensures Rescale(r, c, mu) == 0.0
  {
  }

}
