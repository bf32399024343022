# Continuing students and GPA prediction, modelled in Dafny

This project models two pages of a small Flask application that student
advisers use.

- **GPA prediction** (`Predicting_gpa.py`). Students' course marks are
  uploaded in long form: Emplid, Name, Course, Mark. `preprocess_input`
  turns them into one row per student:
  - it drops exact-duplicate rows;
  - it coerces marks to numbers;
  - it fills every non-numeric mark with the batch median;
  - it pivots to one column per course, keeping the first mark;
  - it rescales each training subject column by its mean, as `(v − μ)/μ`.

  The page then drops any `course` column and hands the subject columns to
  the trained regressor. Each student is reported with the band `gpa_range`
  gives the unrounded prediction and with the prediction rounded for
  display. The bar chart counts predictions at or above 2.0 (eligible) and
  below 2.0 (at risk).
- **Continuing students** (`continuing_students.py`). The page takes two
  uploads: current students and future students.
  - `allowed_file` checks the extension after the last dot.
  - The uploads pass an ordered chain of checks, and the first failure ends
    the request.
  - The sheets' headers are stripped and the identifier columns renamed.
  - The sheets are inner-joined on `rmit_student_id`.
  - Sixteen columns are selected and renamed with `beautify_column`.
  - The rows are sorted by program name and forename.
  - Missing "Change of Program" cells are filled with `N`.
  - The page also counts continuing students (identifiers in both sheets)
    and non-continuing ones, with the continuing share in percent.

The modules follow the two source files:

| module | file | models |
|---|---|---|
| `GpaBand` | gpa_band.dfy | `gpa_range` and the 2.0 eligibility threshold |
| `GpaFeatures` | gpa_features.dfy | `preprocess_input`: mark cleaning, pivot, normalisation loop |
| `GpaPrediction` | gpa_prediction.dfy | lines 97–115 of the prediction page: model input, results, counts |
| `ContinuingHelpers` | continuing_helpers.dfy | `allowed_file` and `beautify_column` |
| `ContinuingTable` | continuing_table.dfy | sheets, the in-place frame (`Table`), merge, selection, sort, fill |
| `ContinuingReport` | continuing_report.dfy | the POST branch of the continuing page: validation, display table, counts |
| `Text`, `Seqs`, `Wrappers` | text.dfy, seqs.dfy, wrappers.dfy | Python's string operations, sequence helpers, Option/Result |

The two cores are built in their own form.

- `gpa_range`, `allowed_file` and `beautify_column` are functions.
- The in-place `fillna` of line 54 is a method over an array.
- The normalisation loop of lines 69–72 is a method with a `while` loop. Its
  invariant ties the frame after k passes to a specification function,
  `NormalisedRow`.
- The continuing page's data frame is a class, `ContinuingTable.Table`. Its
  methods strip, rename, beautify, sort and fill in place, as lines 86–124
  do.

Marks, means and predictions are `real`. The regressor (`predict`), Python's
`round(p, 3)` (`round3`) and the text-to-number reading of `pd.to_numeric`
(`parse`) are parameters.

Three behaviours of the code worth noting:

- `drop_duplicates` removes rows equal in all four columns. It does not
  deduplicate on (student, course). The pivot's `aggfunc='first'` then keeps
  the first present mark per (Emplid, Name, Course).
- The pivot's rows are sorted by (Emplid, Name), as `pivot_table` groups
  them. They are not in first-seen order.
- A training subject column missing from the upload raises `KeyError` at
  line 70. It is not imputed. Columns outside the subject list stay in the
  frame, and only `data[subject_cols]` selects them away.

Two checks of the continuing page can never fail, and the contract of
`HomeOutcome` says so:

- The extension check of line 68 passes for the only two names line 63 lets
  through.
- The rename check of line 94 passes whenever the column check of line 81
  has passed.

## Model

| member | source | states |
|---|---|---|
| GpaBand.GpaRange | Predicting_gpa.py:35-47 | the band is one of the six labels |
| GpaBand.GpaRangeIsItsBand | Predicting_gpa.py:35-47 | the score gets label k exactly when it lies in band k (inclusive lower cut, exclusive upper cut; band 0 and band 5 unbounded), so every score has exactly one label |
| GpaBand.GpaRangeAtBandIndex | Predicting_gpa.py:35-47 | the label is the one at the number of cuts at or below the score |
| GpaBand.GpaRangeMonotone | Predicting_gpa.py:35-47 | a ≤ b implies the band of a is at or below the band of b |
| GpaBand.BandIndexMonotone | Predicting_gpa.py:35-47 | the number of cuts at or below a score grows with the score |
| GpaBand.EligibleIffUpperBand | Predicting_gpa.py:109-115 | a prediction is ≥ 2.0 exactly when its band is "2.0 – 2.5" or higher |
| GpaBand.BandBoundaries | Predicting_gpa.py:35-47 | 2.0 → "2.0 – 2.5", 1.9999 → "1.5 – 2.0", −0.5 → "0.0 – 1.5", 4.7 → "3.5 – 4.0" |
| GpaFeatures.Coerce | Predicting_gpa.py:53 | to_numeric keeps one record per input record with its Emplid, Name and Course; a number cell stays that number and an empty cell becomes missing |
| GpaFeatures.PresentMarks | Predicting_gpa.py:54 | the values the median sees are the present marks, one per marked record, each value as often as records carry it |
| GpaFeatures.Median | Predicting_gpa.py:54 | the median is NaN (None) exactly for no values |
| GpaFeatures.MedianSplitsValues | Predicting_gpa.py:54 | at least half the values are ≤ the median and at least half are ≥ it |
| GpaFeatures.FillMissing | Predicting_gpa.py:54 | the in-place fillna: every missing mark becomes the fill value, present marks are unchanged |
| GpaFeatures.CleanBatch | Predicting_gpa.py:51-54 | the method (dedup, coerce, in-place fill) produces the cleaned batch `CleanMarks` |
| GpaFeatures.CleanMarks | Predicting_gpa.py:51-54 | one record per distinct raw row; afterwards every mark is a number, or (no mark was numeric) none is |
| GpaFeatures.CleanMarksSpec | Predicting_gpa.py:51-54 | one record per distinct raw row in first-occurrence order, the same rows as the upload; numeric marks unchanged, every other mark the one batch median |
| GpaFeatures.CleanMarksComplete | Predicting_gpa.py:54 | when some mark is numeric, no cleaned mark is missing |
| GpaFeatures.StudentLeTotalPreorder | Predicting_gpa.py:56-65 | the (Emplid, Name) order of the pivot index is total and transitive |
| GpaFeatures.StudentLeAntisymmetric | Predicting_gpa.py:56-65 | two students that order both ways are the same student |
| GpaFeatures.StudentsWithMarks | Predicting_gpa.py:56-65 | the students listed are exactly those with a present mark |
| GpaFeatures.FirstMarksSpec | Predicting_gpa.py:56-65 | a student's cell for a course exists exactly when a record holds that mark, and it holds the first such record's mark |
| GpaFeatures.PivotStudentsSpec | Predicting_gpa.py:56-65 | the pivot index lists each student with a mark exactly once, sorted |
| GpaFeatures.Pivot | Predicting_gpa.py:56-65 | the pivot's columns are the courses with a present mark, one row per pivot student, and every cell lies in a column |
| GpaFeatures.PivotRowsAreStudents | Predicting_gpa.py:56-65 | the pivot has one row per student with a mark, rows strictly increasing in (Emplid, Name) |
| GpaFeatures.PivotCellIsFirstMark | Predicting_gpa.py:56-65 | a pivot cell exists exactly when its student has a mark for the course, and it is the first one |
| GpaFeatures.PivotColumnsHaveValues | Predicting_gpa.py:56-65 | every cell lies in a pivot column and every pivot column has a value in some row |
| GpaFeatures.PivotOf | Predicting_gpa.py:50-65 | the pivot of the cleaned upload has one row per distinct (Emplid, Name) of the upload, or none when no mark is numeric |
| GpaFeatures.MarkedStudentsOfFilled | Predicting_gpa.py:51-65 | after the median fill every uploaded student has a mark |
| GpaFeatures.MarkedStudentsOfUnfilled | Predicting_gpa.py:54 | with no numeric mark the fill leaves every mark missing and no student has one |
| GpaFeatures.NormalisedRow | Predicting_gpa.py:69-72 | after the loop every subject column has a cell in the row |
| GpaFeatures.NormalisedRowStep | Predicting_gpa.py:69-72 | one more pass of the loop rescales exactly one more column and changes nothing else |
| GpaFeatures.NormalisedCellOutside | Predicting_gpa.py:69-72 | a column outside the subject list keeps its cells |
| GpaFeatures.NormaliseColumnStep | Predicting_gpa.py:70-72 | the mean line 70 computes mid-loop equals the pivot's own column mean, and the pass yields the next NormalisedRow |
| GpaFeatures.NormaliseLoopStep | Predicting_gpa.py:69-72 | each iteration preserves the loop invariant: the first k+1 subject columns are normalised |
| GpaFeatures.NormaliseSubjects | Predicting_gpa.py:68-74 | KeyError naming the first missing subject column exactly when one is missing; otherwise every row is the NormalisedRow of the pivot and the columns are kept |
| GpaFeatures.PreprocessInput | Predicting_gpa.py:50-74 | the same, composed with the cleaning and the pivot of the upload |
| GpaFeatures.ImputedCellIsZero | Predicting_gpa.py:70-72 | a cell the student had no mark for becomes exactly 0 |
| GpaFeatures.NormalisedColumn | Predicting_gpa.py:69-72 | the normalised column holds one rescaled value per pivot row |
| GpaFeatures.NormalisedColumnSumsToZero | Predicting_gpa.py:70-72 | each normalised subject column sums to 0 |
| GpaFeatures.ConstantColumnMean | Predicting_gpa.py:70 | a column with at least one present value, all of them v, has mean v |
| GpaFeatures.ConstantColumnNormalisesToZero | Predicting_gpa.py:70-72 | a column whose marks are all equal becomes all zeros |
| GpaPrediction.SubjectCols | Predicting_gpa.py:32 | the subject columns are exactly the stored ones other than 'GPA' |
| GpaPrediction.SubjectColsInOrder | Predicting_gpa.py:32 | the subject columns keep the stored training order |
| GpaPrediction.SubjectColsDistinct | Predicting_gpa.py:32 | distinct stored columns give distinct subject columns |
| GpaPrediction.DropCourseColumns | Predicting_gpa.py:100 | exactly the columns whose lower-case name is 'course' are dropped; rows, identities and other cells are kept |
| GpaPrediction.Features | Predicting_gpa.py:102 | one model input value per subject column: input j is the row's cell in the j-th subject column |
| GpaPrediction.ModelInputSpec | Predicting_gpa.py:102 | the regressor sees, in subject order, each rescaled cell, and 0 where the student had no mark |
| GpaPrediction.DroppedRowFeatures | Predicting_gpa.py:100-102 | dropping 'course' columns keeps the subject cells and the student's Emplid and Name |
| GpaPrediction.Assemble | Predicting_gpa.py:108-115 | one result per row, in order, with Emplid, Name, the band of the unrounded prediction and the rounded value; pass + fail = rows; pass = results in the upper four bands |
| GpaPrediction.Bands | Predicting_gpa.py:109 | one label per prediction, one of the six bands, and one of the upper four exactly when the prediction is at least 2.0 |
| GpaPrediction.PassAndFailCoverAll | Predicting_gpa.py:114-115 | count_pass + count_fail equals the number of predictions |
| GpaPrediction.PassCountIsUpperBands | Predicting_gpa.py:109-115 | count_pass equals the number of results banded "2.0 – 2.5" or higher |
| GpaPrediction.PredictRows | Predicting_gpa.py:100-115 | KeyError exactly when a subject column is a dropped 'course' column; otherwise one result per pivot row with its identity and the band and rounding of the prediction on its model input, count_pass + count_fail = rows, and count_pass the number of upper-band results |
| GpaPrediction.PredictGpa | Predicting_gpa.py:97-115 | the request fails exactly when a subject column is missing or dropped; otherwise one result per distinct student, in pivot order, with count_pass the number of upper-band results and count_fail the rest |
| ContinuingHelpers.LastDot | continuing_students.py:28 | the position found holds '.', and no '.' follows it |
| ContinuingHelpers.LastDotUnique | continuing_students.py:28 | a '.' with none after it is the last dot |
| ContinuingHelpers.LastDotsUnique | continuing_students.py:28 | every '.' with none after it is the position `rsplit('.', 1)` splits at |
| ContinuingHelpers.AllowedFileAt | continuing_students.py:27-28 | with the last dot at k, the name is allowed exactly when the lower-cased text after k is csv, xls or xlsx |
| ContinuingHelpers.AllowedFile | continuing_students.py:24-28 | allowed exactly when the name has a '.' and the lower-cased text after the last one is in {csv, xls, xlsx} |
| ContinuingHelpers.AllowedFileAccepts | continuing_students.py:27-28 | "R.XLSX" and ".csv" are accepted |
| ContinuingHelpers.AllowedFileRejects | continuing_students.py:27-28 | "a.csv.bak", "file." and "noext" are rejected |
| ContinuingHelpers.AllowedFileAcceptsFormNames | continuing_students.py:63-68 | both required file names pass the extension check |
| ContinuingHelpers.OverrideKeysHaveUnderscore | continuing_students.py:32-43 | every override key contains '_' |
| ContinuingHelpers.BeautifyColumn | continuing_students.py:31-44 | an override key gets its fixed name; any other name gets a display name with no '_' and no leading, trailing or doubled space |
| ContinuingHelpers.CapitalizedJoin | continuing_students.py:44 | capitalised words joined by single spaces split back into those words, hold no '_' and are single-spaced |
| ContinuingHelpers.BeautifyPlain | continuing_students.py:32-44 | a name without '_' is not an override key and is displayed as its own words capitalised and joined |
| ContinuingHelpers.JoinedPlain | continuing_students.py:44 | words without '_' joined by spaces hold no '_' and split back into the same words |
| ContinuingHelpers.BeautifyShape | continuing_students.py:44 | outside the overrides, the display name splits back into the capitalised words of the name with '_' read as space, each already capitalised |
| ContinuingHelpers.BeautifyIdempotent | continuing_students.py:44 | outside the overrides, beautifying twice equals beautifying once |
| ContinuingHelpers.OneWordHeader | continuing_students.py:44 | a one-word name without '_' is displayed capitalised |
| ContinuingHelpers.FourWordHeader | continuing_students.py:44 | four words without '_' joined by spaces are displayed as the four words capitalised, joined by spaces |
| ContinuingHelpers.CapitalizeLowerTail | continuing_students.py:44 | a word with no upper-case letter after the first is capitalised by upper-casing its first letter |
| ContinuingHelpers.ProgramNameHeader | continuing_students.py:44 | 'Currently enrolled program name' → 'Currently Enrolled Program Name', the first sort key of line 120 |
| ContinuingHelpers.ForenameHeader | continuing_students.py:44 | 'forename' → 'Forename', the second sort key of line 120 |
| ContinuingHelpers.ProgramPlanHeader | continuing_students.py:44 | 'Currently enrolled program plan' → 'Currently Enrolled Program Plan' |
| ContinuingHelpers.OneWordHeaders | continuing_students.py:44 | 'College', 'surname', 'campus' → 'College', 'Surname', 'Campus' |
| ContinuingHelpers.OverrideHeaders | continuing_students.py:32-43 | 'change_of_program' → 'Change of Program', 'rmit_student_id' → 'RMIT Student ID' |
| ContinuingHelpers.MoreOverrideHeaders | continuing_students.py:32-43 | the eight other override keys give their fixed display names |
| Text.Words | continuing_students.py:44 | str.split() yields non-empty words without whitespace |
| Text.WordsOfJoin | continuing_students.py:44 | splitting a single-space join of words gives the words back |
| Text.WordsCover | continuing_students.py:44 | str.split() drops only whitespace: its words put back together are the non-whitespace characters of the name, in order |
| Text.WordsSplitAtSpace | continuing_students.py:44 | str.split() breaks at every whitespace character: the words of s, a whitespace character, then t are the words of s followed by those of t |
| Text.JoinWordsSingleSpaced | continuing_students.py:44 | a join of words has no leading, trailing or doubled space |
| Text.CapitalizeIdempotent | continuing_students.py:44 | capitalising twice is capitalising once |
| Text.TrimLeft | continuing_students.py:86 | strip removes exactly the leading whitespace |
| Text.TrimRight | continuing_students.py:86 | strip removes exactly the trailing whitespace |
| ContinuingTable.RenameColumnsSpec | continuing_students.py:90-91 | after the rename the new name is present exactly when the old or new one was, the old one is gone, and others are unaffected |
| ContinuingTable.RenameAfterStrip | continuing_students.py:86-94 | a header with no surrounding whitespace survives the strip and is renamed |
| ContinuingTable.Merge | continuing_students.py:99 | the merged header is the left header (shared non-key names suffixed _x), then the right header without the key (shared names suffixed _y): one column fewer than both; the rows are the inner join `MergeRows` of the two sheets on their key columns |
| ContinuingTable.MatchesSpec | continuing_students.py:99 | the merged rows of one left row are exactly its combinations with right rows of the same key, one per such right row (count = number of matching right rows) (their right-hand order is MatchesAppend's) |
| ContinuingTable.MergeRowsSpec | continuing_students.py:99 | an inner-join row exists exactly for each pair of left and right rows with equal keys, one row per matching pair (their grouping by left row, in left order, is MergeRowsAppend's) |
| ContinuingTable.MergeRows | continuing_students.py:99 | the inner join has at most as many rows as the product of the two sheets' row counts |
| ContinuingTable.MatchesAppend | continuing_students.py:99 | matching against two runs of right rows gives the matches of the first run, then those of the second |
| ContinuingTable.MergeRowsAppend | continuing_students.py:99 | joining two runs of left rows gives the join of the first run, then that of the second |
| ContinuingTable.MatchesCount | continuing_students.py:99 | one left row has as many merged rows as right rows share its key |
| ContinuingTable.MergeRowsCount | continuing_students.py:99 | the join has exactly one row per matching (left, right) position pair |
| ContinuingTable.MergedKeysInBoth | continuing_students.py:99 | every merged row's key occurs in both sheets |
| ContinuingTable.MergeEmptyIff | continuing_students.py:99-104 | the merge is empty exactly when the sheets share no key |
| ContinuingTable.MergeKeyIndex | continuing_students.py:99 | the key keeps its left-hand position in the merged headers |
| ContinuingTable.MergedKeyColumn | continuing_students.py:99 | the key column of the merged frame holds only keys present in both sheets |
| ContinuingTable.Select | continuing_students.py:116 | the selection has the named columns in the given order, each row's cells read from those columns |
| ContinuingTable.CellLeTotal | continuing_students.py:120 | any two cells are ordered one way or the other |
| ContinuingTable.CellLeAntisymmetric | continuing_students.py:120 | cells ordered both ways are equal |
| ContinuingTable.RowLeTransitive | continuing_students.py:120 | the two-key row order is transitive |
| ContinuingTable.RowOrderTotalPreorder | continuing_students.py:120 | the sort order is a total preorder |
| ContinuingTable.FillSpec | continuing_students.py:123-124 | after the fill no cell of the column is missing, present cells and other columns are unchanged |
| ContinuingTable.FillKeepsOrder | continuing_students.py:120-124 | filling a column that is not a sort key keeps the rows sorted |
| ContinuingTable.SortThenFill | continuing_students.py:116-124 | sort then fill gives a permutation of the filled input rows, sorted by the keys, with no missing filled cell |
| ContinuingTable.FillRowsPermutation | continuing_students.py:120-124 | filling the rows of a permutation gives a permutation of the filled rows |
| ContinuingTable.SelectedKeysIn | continuing_students.py:116-124 | a selected column whose source cells are all in two key lists still is after sort and fill |
| ContinuingTable.Table.constructor | continuing_students.py:116 | the new frame holds the given headers and rows |
| ContinuingTable.Table.StripColumns | continuing_students.py:86-87 | headers stripped in place, rows unchanged |
| ContinuingTable.Table.RenameColumn | continuing_students.py:90-91 | the matching header renamed in place, rows unchanged |
| ContinuingTable.Table.BeautifyHeaders | continuing_students.py:117 | every header replaced by its display name, rows unchanged |
| ContinuingTable.Table.SortRows | continuing_students.py:120 | rows sorted in place as the stable sort `SortBy` orders them: sorted by the two keys, a permutation of the old rows, ties in their old order |
| ContinuingTable.Table.FillColumn | continuing_students.py:124 | the column's missing cells filled in place |
| ContinuingReport.ValidationOrder | continuing_students.py:58-83 | each error is returned exactly when its check fails and all earlier ones pass; the extension error never occurs |
| ContinuingReport.RenameCheckPasses | continuing_students.py:81-96 | once the column check of line 81 passes, both renamed identifiers are present |
| ContinuingReport.Validate | continuing_students.py:58-83 | an error is one of the four early checks (never the extension check); sheets are handed on only for present, correctly named, readable files with the identifier headers |
| ContinuingReport.SheetsPassRenameCheck | continuing_students.py:81-96 | validated sheets never fail the check of line 94 |
| ContinuingReport.DisplayHeaderAt | continuing_students.py:107-117 | each selected column is displayed under its fixed display name |
| ContinuingReport.DisplayHeadersSpec | continuing_students.py:107-117 | beautify_column maps the sixteen selected columns to the sixteen display names |
| ContinuingReport.DisplayHeadersDistinct | continuing_students.py:117 | the display names are distinct |
| ContinuingReport.BeautifiedDisplayCols | continuing_students.py:117 | the beautified headers are exactly the display names |
| ContinuingReport.ProgramNameLabel | continuing_students.py:117-120 | the program-name sort label is present and is column 4 |
| ContinuingReport.ForenameLabel | continuing_students.py:117-120 | the forename sort label is present and is column 6 |
| ContinuingReport.ChangeOfProgramLabel | continuing_students.py:117-124 | the 'Change of Program' label is present and is column 8, so the fill of line 124 always runs |
| ContinuingReport.DisplayRows | continuing_students.py:120-124 | sorting and filling keeps every row and keeps it sixteen cells wide |
| ContinuingReport.DisplayTable | continuing_students.py:116-124 | the display table has the sixteen display headers, one row per merged row, each sixteen cells wide |
| ContinuingReport.NewDisplayFrame | continuing_students.py:116-117 | a fresh frame of the selected rows under the display names |
| ContinuingReport.SortDisplay | continuing_students.py:120 | the frame's rows are stably sorted by program name, then forename |
| ContinuingReport.FillDisplay | continuing_students.py:123-124 | the frame's 'Change of Program' cells are filled with 'N' |
| ContinuingReport.BuildDisplayTable | continuing_students.py:116-124 | the in-place steps produce the display table `DisplayTable` |
| ContinuingReport.DisplayTableSpec | continuing_students.py:116-124 | the display table has the display headers and is a permutation of the selected merged rows with "Change of Program" filled, sorted by program name and forename, no missing "Change of Program" |
| ContinuingReport.CountsOf | continuing_students.py:130-157 | continuing = size of the intersection, non-continuing ≥ 0 and the two sum to the size of the union; percent in [0, 100], 0 for an empty union, positive when some student continues |
| ContinuingReport.CountsMeaning | continuing_students.py:130-157 | non-continuing counts the identifiers in exactly one sheet; the share is 100% exactly when both sets are equal and non-empty |
| ContinuingReport.ShareBounds | continuing_students.py:157 | a share of a positive whole lies in [0, 100], positive for a positive part |
| ContinuingReport.FullShare | continuing_students.py:157 | the share is 100 exactly when the part is the whole |
| ContinuingReport.IdSet | continuing_students.py:128-129 | exactly the stripped identifiers of the rows: every row contributes its own and every member comes from some row; empty only for a sheet without rows |
| ContinuingReport.MergedOutcome | continuing_students.py:99-116 | the errors after the rename are the missing key (exactly when sheet 2 lacks it), the empty merge (exactly when nothing matches) or a missing display column, which is the first of the sixteen absent from the merge; once the merge is non-empty a page is shown exactly when all sixteen display columns are present, with the display headers, at least one row and the counts of the two identifier sets |
| ContinuingReport.SheetsOutcome | continuing_students.py:86-157 | from validated sheets, the rename check fails exactly when a renamed identifier is missing; otherwise the answer is MergedOutcome's on the renamed sheets |
| ContinuingReport.HomeOutcome | continuing_students.py:52-157 | the page never answers with the errors of lines 69 and 95; a failed upload check is the answer, and otherwise the answer is MergedOutcome's on the renamed sheets, whose identifier columns are present |
| ContinuingReport.ReportFromSheets | continuing_students.py:86-157 | the in-place strip, rename, merge and display steps give the answer `SheetsOutcome` |
| ContinuingReport.Home | continuing_students.py:52-157 | validation then the report give the answer `HomeOutcome` |
| ContinuingReport.DisplayedKeysInBoth | continuing_students.py:99-124 | every displayed student identifier occurs in both sheets |
| ContinuingReport.SharedKeyCounts | continuing_students.py:128-157 | a key in both sheets makes at least one continuing student and a positive share |
| ContinuingReport.MergedPageStudentsContinue | continuing_students.py:99-157 | on a shown page every row's identifier is in both sheets, at least one student continues and the share is positive |
| ContinuingReport.PageStudentsContinue | continuing_students.py:86-157 | the same, from the sheets as read |
| Seqs.Dedup | Predicting_gpa.py:51 | drop_duplicates keeps the same elements, each once |
| Seqs.DedupKeepsFirstOccurrenceOrder | Predicting_gpa.py:51 | drop_duplicates keeps elements in the order of their first occurrence |
| Seqs.SortBy | continuing_students.py:120 | the sort is a permutation of its input |
| Seqs.SortBySorted | continuing_students.py:120 | under a total preorder the stable sort's result is sorted |
| Seqs.SortByStable | continuing_students.py:120 | the sort is stable: the elements tied with any x keep their input order |
| Seqs.InsertPermutes | continuing_students.py:120 | one insertion step adds exactly the inserted element |

## Left out

- Flask request and response handling is not modelled: `request.files`, `flash`, `redirect`, `render_template`, `to_html`. An error is a `Result` value naming the failed check.
- Reading the uploads (`pd.read_excel`, `pd.read_csv`) is not modelled. An upload carries the frame it reads as, or None when it cannot be read.
- The file-type dispatch of `Predicting_gpa.py:84-94` is not modelled. Neither is its `rsplit('.', 1)[1]` on a name without a dot (an IndexError).
- The charts and their base64 encoding are not modelled, nor their exception handlers. Only the counts that feed the charts are kept, and they cannot raise once the merge has succeeded.
- Deleting the uploaded files (`continuing_students.py:176-186`) and the `download_failures` route are not modelled.
- Loading the model bundle with `joblib` is not modelled. The regressor is a parameter `predict`, and `round(p, 3)` is a parameter `round3`.
- `pd.to_numeric`'s reading of text is a parameter `parse`. The `astype(str)` of Emplid at line 52 is taken as done: Emplid is text from the start.
- IEEE floating point, NaN arithmetic and infinities are not modelled. Values are exact reals, and a missing value is an absent cell or `None`.
- Text.Lower, Text.Capitalize: case mapping covers the ASCII letters only, not Python's full Unicode case tables.
- GpaFeatures.FillMissing: models the intended effect of line 54 (one global median fill). pandas' chained-assignment warning, under which the in-place fill may not reach the frame, is not modelled.
- GpaFeatures.NormaliseSubjects: requires every subject column present in the pivot to have a non-zero mean. pandas divides by zero there and yields inf or NaN, which the model does not represent.
- GpaFeatures.PreprocessInput: requires the same non-zero means. It also requires distinct subject columns; with a repeated column pandas would normalise the column twice.
- GpaFeatures.PreprocessInput: an upload is already projected to the four columns Emplid, Name, Course and Mark (`RawRecord`). The `KeyError` line 51 raises when the upload lacks one of them is not modelled.
- GpaFeatures.PreprocessInput: Name and Course are text, never blank. A blank Name or Course is NaN in pandas, and `pivot_table` drops the rows whose group key is NaN; the model keeps them, so PivotOf's row count does not cover such uploads.
- GpaFeatures.NormaliseSubjects: models the intended effect of the chained in-place `fillna` of line 71 (the column's missing cells take the mean). As with line 54, pandas' chained-assignment warning, under which the fill may not reach the frame, is not modelled; ImputedCellIsZero relies on the fill taking effect.
- GpaPrediction.PredictGpa: requires the non-zero means and distinct stored columns, as above.
- Cells of the continuing page are text or missing. Dates and numbers are compared and shown as their text, so `sort_values` orders cells by code point, with missing cells last.
- ContinuingTable.Select: reads the first column of a name. With duplicate column names pandas returns all of them; that case is not modelled.
- ContinuingTable.Merge: suffixes a shared non-key column with `_x`/`_y`, as pandas does. When a suffixed name equals a column already present, pandas 2.x raises `MergeError` (1.x only warned); the model builds the duplicated header instead.
- ContinuingTable.Merge: when a sheet carries the key header twice, pandas raises `ValueError` ("column label 'rmit_student_id' is not unique"); the model joins on the first such column instead.
- ContinuingTable.Merge: cells are text, so keys compare as text. Read with types, an integer key column against a text one makes pandas raise `ValueError` at line 99, and an integer key column against a float one joins by numeric value; neither is modelled.
- ContinuingReport.SharedKeyCounts: holds because cells are text, so a key equal in the join is equal as `astype(str)`. With an integer key column in one sheet and a float one in the other, the join matches 1234567 with 1234567.0 but lines 128–129 compare "1234567" with "1234567.0", so the continuing count is 0; with integer against text the merge raises `ValueError` first.
- ContinuingReport.MergedPageStudentsContinue: holds only for text keys, for the reason given for SharedKeyCounts: typed integer against float keys give a shown page with 0 continuing students, and integer against text keys raise `ValueError` at line 99.
- ContinuingReport.PageStudentsContinue: the same restriction to text keys as MergedPageStudentsContinue.
- ContinuingReport.MergedOutcome: a missing display column at line 116 names the first such column. pandas' KeyError lists all of them.
- Uncaught `KeyError`s are modelled as error results. These are the merge without `rmit_student_id` in the second sheet (line 99) and a missing display column (line 116).
