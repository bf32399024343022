/** The two helpers of continuing_students.py: the upload extension check
    (allowed_file) and the display name of a column (beautify_column). */
module ContinuingHelpers {
  import opened Text

  // ------------------------------------------------------- allowed_file

  /** Line 24. */
  const AllowedExtensions: set<string> := {"csv", "xls", "xlsx"}

  /** Position of the last '.' in s. */
  function LastDot(s: string): (k: nat)
    requires '.' in s
    ensures k < |s| && s[k] == '.' && '.' !in s[k + 1..]
  {
    if s[|s| - 1] == '.' then |s| - 1
    else
      assert s == s[..|s| - 1] + [s[|s| - 1]];
      var k := LastDot(s[..|s| - 1]);
      assert s[k + 1..] == s[..|s| - 1][k + 1..] + [s[|s| - 1]];
      k
  }

  /** filename.rsplit('.', 1)[1]: the text after the last '.'. */
  function Extension(s: string): string
    requires '.' in s
  {
    s[LastDot(s) + 1..]
  }

  /** k is the position of a '.' with no '.' after it. */
  predicate LastDotAt(s: string, k: nat)
  {
    k < |s| && s[k] == '.' && '.' !in s[k + 1..]
  }

  /** Every '.' with no '.' after it is the last one. */
  lemma LastDotsUnique(s: string)
    ensures forall k :: LastDotAt(s, k) ==> '.' in s && LastDot(s) == k
  {
    forall k | LastDotAt(s, k) ensures '.' in s && LastDot(s) == k {
      LastDotUnique(s, k);
    }
  }

  /** Lines 27–28: a file name is allowed exactly when it has a '.' and the
      text after its last '.', lower-cased, is csv, xls or xlsx. */
  function AllowedFile(filename: string): (ok: bool)
    ensures ok <==> exists k :: LastDotAt(filename, k) && Lower(filename[k + 1..]) in AllowedExtensions
  {
    if '.' in filename then
      var k := LastDot(filename);
      assert LastDotAt(filename, k) && Extension(filename) == filename[k + 1..];
      LastDotsUnique(filename);
      Lower(Extension(filename)) in AllowedExtensions
    else
      false
  }

  /** A '.' with no '.' after it is the last one. */
  lemma {:induction false} LastDotUnique(s: string, k: nat)
    requires k < |s| && s[k] == '.' && '.' !in s[k + 1..]
    ensures '.' in s && LastDot(s) == k
  {
    assert s[k] in s;
    if k < |s| - 1 {
      assert s[|s| - 1] == s[k + 1..][|s| - 2 - k];
      var init := s[..|s| - 1];
      assert init[k + 1..] == s[k + 1..][..|s| - 2 - k];
      assert init[k] == s[k];
      LastDotUnique(init, k);
    }
  }

  /** Whether a name with its last '.' at k is allowed depends only on
      the text after k. */
  lemma AllowedFileAt(n: string, k: nat)
    requires k < |n| && n[k] == '.' && '.' !in n[k + 1..]
    ensures AllowedFile(n) <==> Lower(n[k + 1..]) in AllowedExtensions
  {
    LastDotUnique(n, k);
  }

  /** Upper-case and bare extensions are accepted, and so are the two file
      names the form asks for. */
  lemma AllowedFileAccepts()
    ensures AllowedFile("R.XLSX") && AllowedFile(".csv")
  {
    assert LastDot("R.XLSX") == 1;
    assert Extension("R.XLSX") == "XLSX";
    assert Lower("XLSX") == "xlsx";
    assert LastDot(".csv") == 0;
    assert Extension(".csv") == "csv";
    assert Lower("csv") == "csv";
  }

  lemma AllowedFileAcceptsFormNames()
    ensures AllowedFile("current_students.xlsx") && AllowedFile("future_students.xlsx")
  {
    XlsxAllowed("current_students.xlsx", 16);
    XlsxAllowed("future_students.xlsx", 15);
  }

  /** A name whose last '.' starts ".xlsx" is accepted. */
  lemma XlsxAllowed(n: string, k: nat)
    requires k < |n| && n[k] == '.' && n[k + 1..] == "xlsx"
    ensures AllowedFile(n)
  {
    AllowedFileAt(n, k);
    assert Lower("xlsx") == "xlsx";
  }

  /** Only the text after the last '.' counts, an empty one is rejected,
      and so is a name without a '.'. */
  lemma AllowedFileRejects()
    ensures !AllowedFile("a.csv.bak") && !AllowedFile("file.") && !AllowedFile("noext")
  {
    assert LastDot("a.csv.bak") == 5;
    assert LastDot("file.") == 4;
  }

  // ---------------------------------------------------- beautify_column

  /** Lines 32–43: the fixed display names. */
  const Overrides: map<string, string> := map[
    "rmit_student_id" := "RMIT Student ID",
    "application_id" := "Application ID",
    "applicant_id" := "Applicant ID",
    "change_of_program" := "Change of Program",
    "admit_term" := "Admit Term",
    "plan_code" := "Plan Code",
    "plan_name" := "Plan Name",
    "commencement_date" := "Commencement Date",
    "application_status" := "Application Status",
    "fund_source" := "Fund Source"
  ]

  /** word.capitalize() for every word. */
  function CapitalizeAll(ws: seq<string>): (cs: seq<string>)
    ensures |cs| == |ws|
    ensures forall k :: 0 <= k < |ws| ==> cs[k] == Capitalize(ws[k])
  {
    if ws == [] then [] else [Capitalize(ws[0])] + CapitalizeAll(ws[1..])
  }

  /** Capitalised words, each without '_', joined by single spaces: the
      shape of every display name outside the overrides. */
  lemma CapitalizedJoin(ws: seq<string>)
    requires forall k :: 0 <= k < |ws| ==> IsWord(ws[k]) && '_' !in ws[k]
    ensures var j := JoinWords(CapitalizeAll(ws));
      Words(j) == CapitalizeAll(ws) && '_' !in j && SingleSpaced(j)
  {
    var cs := CapitalizeAll(ws);
    forall k | 0 <= k < |cs| ensures IsWord(cs[k]) && '_' !in cs[k] {
      CapitalizeKeepsWord(ws[k]);
    }
    WordsOfJoin(cs);
    JoinWordsSingleSpaced(cs);
    JoinWordsAvoids(cs, '_');
  }

  /** A display name built by the generic rule: no '_', and no leading,
      trailing or doubled space. */
  predicate PlainHeader(r: string)
  {
    '_' !in r && SingleSpaced(r)
  }

  /** Line 44: the override, or the words of the name with '_' read as a
      space, each capitalised, joined by single spaces; outside the
      overrides the result has no '_' and no leading, trailing or doubled
      space. */
  function BeautifyColumn(col: string): (r: string)
    ensures col in Overrides ==> r == Overrides[col]
    ensures col !in Overrides ==> PlainHeader(r)
  {
    if col in Overrides then Overrides[col]
    else
      var spaced := ReplaceChar(col, '_', ' ');
      assert '_' !in spaced;
      WordsAvoid(spaced, '_');
      CapitalizedJoin(Words(spaced));
      JoinWords(CapitalizeAll(Words(spaced)))
  }

  /** Every override key holds a '_', so no output of the generic rule,
      which has none, is an override key. */
  lemma OverrideKeysHaveUnderscore()
    ensures forall k :: k in Overrides ==> '_' in k
  {
    assert "rmit_student_id"[4] == '_';
    assert "application_id"[11] == '_';
    assert "applicant_id"[9] == '_';
    assert "change_of_program"[6] == '_';
    assert "admit_term"[5] == '_';
    assert "plan_code"[4] == '_';
    assert "plan_name"[4] == '_';
    assert "commencement_date"[12] == '_';
    assert "application_status"[11] == '_';
    assert "fund_source"[4] == '_';
  }

  lemma {:induction false} WordsAvoid(s: string, c: char)
    requires c !in s
    ensures forall k :: 0 <= k < |Words(s)| ==> c !in Words(s)[k]
    decreases |s|
  {
    if s != [] {
      if IsSpace(s[0]) {
        WordsAvoid(s[1..], c);
      } else {
        var n := WordLen(s);
        WordsAvoid(s[n..], c);
        assert forall k :: 1 <= k < |Words(s)| ==> Words(s)[k] == Words(s[n..])[k - 1];
      }
    }
  }

  /** Outside the overrides, splitting the display name gives back the
      capitalised words of the name (with '_' read as a space), and every
      one of them is already capitalised. */
  lemma BeautifyShape(col: string)
    requires col !in Overrides
    ensures Words(BeautifyColumn(col)) == CapitalizeAll(Words(ReplaceChar(col, '_', ' ')))
    ensures forall k :: 0 <= k < |Words(BeautifyColumn(col))| ==>
      Capitalize(Words(BeautifyColumn(col))[k]) == Words(BeautifyColumn(col))[k]
  {
    var ws := Words(ReplaceChar(col, '_', ' '));
    WordsAvoid(ReplaceChar(col, '_', ' '), '_');
    CapitalizedJoin(ws);
    forall k | 0 <= k < |ws| ensures Capitalize(CapitalizeAll(ws)[k]) == CapitalizeAll(ws)[k] {
      CapitalizeIdempotent(ws[k]);
    }
  }

  /** Outside the overrides beautify_column is idempotent. */
  lemma BeautifyIdempotent(col: string)
    requires col !in Overrides
    ensures BeautifyColumn(BeautifyColumn(col)) == BeautifyColumn(col)
  {
    var b := BeautifyColumn(col);
    BeautifyShape(col);
    OverrideKeysHaveUnderscore();
    assert b !in Overrides;
    assert ReplaceChar(b, '_', ' ') == b;
    var ws := Words(b);
    assert CapitalizeAll(ws) == ws;
    var cs := CapitalizeAll(Words(ReplaceChar(col, '_', ' ')));
    assert ws == cs;
    WordsOfJoin(cs);
  }

  /** Words without '_' joined by spaces hold no '_' and split back into
      the same words. */
  lemma JoinedPlain(ws: seq<string>)
    requires forall k :: 0 <= k < |ws| ==> IsWord(ws[k]) && '_' !in ws[k]
    ensures '_' !in JoinWords(ws) && Words(JoinWords(ws)) == ws
  {
    JoinWordsAvoids(ws, '_');
    WordsOfJoin(ws);
  }

  /** A name without '_' is displayed as its own words capitalised. */
  lemma BeautifyPlain(s: string)
    requires '_' !in s
    ensures BeautifyColumn(s) == JoinWords(CapitalizeAll(Words(s)))
  {
    NotOverride(s);
    ReplaceAbsent(s, '_', ' ');
  }

  /** A name without '_' is not an override key. */
  lemma NotOverride(s: string)
    requires '_' !in s
    ensures s !in Overrides
  {
    OverrideKeysHaveUnderscore();
  }

  /** Replacing a character the text lacks changes nothing. */
  lemma ReplaceAbsent(s: string, from: char, to: char)
    requires from !in s
    ensures ReplaceChar(s, from, to) == s
  {
  }

  /** A one-word name without '_' is displayed capitalised. */
  lemma OneWordHeader(w: string)
    requires '_' !in w && IsWord(w)
    ensures BeautifyColumn(w) == Capitalize(w)
  {
    JoinedPlain([w]);
    BeautifyPlain(w);
    assert CapitalizeAll([w]) == [Capitalize(w)];
  }

  lemma LowerFixed(s: string)
    requires forall i :: 0 <= i < |s| ==> !('A' <= s[i] <= 'Z')
    ensures Lower(s) == s
  {
  }

  /** A word with no upper-case letter after the first is capitalised by
      upper-casing its first letter. */
  lemma CapitalizeLowerTail(w: string)
    requires w != [] && forall i :: 1 <= i < |w| ==> !('A' <= w[i] <= 'Z')
    ensures Capitalize(w) == [UpperChar(w[0])] + w[1..]
  {
    LowerFixed(w[1..]);
  }

  /** ' '.join of four words. */
  lemma JoinFour(a: string, b: string, c: string, d: string)
    ensures JoinWords([a, b, c, d]) == a + " " + b + " " + c + " " + d
  {
    assert [c, d][1..] == [d];
    assert JoinWords([c, d]) == c + " " + d;
    assert [b, c, d][1..] == [c, d];
    assert JoinWords([b, c, d]) == b + " " + (c + " " + d);
    assert [a, b, c, d][1..] == [b, c, d];
    assert JoinWords([a, b, c, d]) == a + " " + (b + " " + (c + " " + d));
  }

  /** Four words without '_' joined by spaces are displayed as the four
      words capitalised, joined by spaces. */
  lemma FourWordHeader(a: string, b: string, c: string, d: string)
    requires IsWord(a) && IsWord(b) && IsWord(c) && IsWord(d)
    requires '_' !in a && '_' !in b && '_' !in c && '_' !in d
    ensures BeautifyColumn(a + " " + b + " " + c + " " + d)
      == Capitalize(a) + " " + Capitalize(b) + " " + Capitalize(c) + " " + Capitalize(d)
  {
    var ws := [a, b, c, d];
    JoinFour(a, b, c, d);
    JoinedPlain(ws);
    BeautifyPlain(JoinWords(ws));
    assert CapitalizeAll(ws) == [Capitalize(a), Capitalize(b), Capitalize(c), Capitalize(d)];
    JoinFour(Capitalize(a), Capitalize(b), Capitalize(c), Capitalize(d));
  }

  /** A word whose letters after the first are not upper-case is
      capitalised to cw, its first letter upper-cased. */
  lemma CapitalizeTo(w: string, cw: string)
    requires w != [] && forall i :: 1 <= i < |w| ==> !('A' <= w[i] <= 'Z')
    requires cw == [UpperChar(w[0])] + w[1..]
    ensures Capitalize(w) == cw
  {
    CapitalizeLowerTail(w);
  }

  /** The words of the display columns of lines 107–113 that are not
      override names are words without '_'. */
  lemma ProgramWordsPlain()
    ensures IsWord("Currently") && IsWord("enrolled") && IsWord("program")
    ensures '_' !in "Currently" && '_' !in "enrolled" && '_' !in "program"
  {
  }

  lemma FieldWordsPlain()
    ensures IsWord("name") && IsWord("plan") && IsWord("forename")
    ensures '_' !in "name" && '_' !in "plan" && '_' !in "forename"
  {
  }

  lemma OtherWordsPlain()
    ensures IsWord("College") && IsWord("surname") && IsWord("campus")
    ensures '_' !in "College" && '_' !in "surname" && '_' !in "campus"
  {
  }

  /** Their capitalised forms. */
  lemma HeaderWordsCapitalized()
    ensures Capitalize("Currently") == "Currently" && Capitalize("enrolled") == "Enrolled"
    ensures Capitalize("program") == "Program" && Capitalize("name") == "Name"
    ensures Capitalize("plan") == "Plan" && Capitalize("forename") == "Forename"
    ensures Capitalize("College") == "College" && Capitalize("surname") == "Surname"
    ensures Capitalize("campus") == "Campus"
  {
    CapitalizeTo("Currently", "Currently");
    CapitalizeTo("enrolled", "Enrolled");
    CapitalizeTo("program", "Program");
    CapitalizeTo("name", "Name");
    CapitalizeTo("plan", "Plan");
    CapitalizeTo("forename", "Forename");
    CapitalizeTo("College", "College");
    CapitalizeTo("surname", "Surname");
    CapitalizeTo("campus", "Campus");
  }

  /** The two program column names and their display names, spelt as
      four words joined by spaces. */
  lemma ProgramNameSpellings()
    ensures "Currently" + " " + "enrolled" + " " + "program" + " " + "name" == "Currently enrolled program name"
    ensures "Currently" + " " + "Enrolled" + " " + "Program" + " " + "Name" == "Currently Enrolled Program Name"
  {
  }

  lemma ProgramPlanSpellings()
    ensures "Currently" + " " + "enrolled" + " " + "program" + " " + "plan" == "Currently enrolled program plan"
    ensures "Currently" + " " + "Enrolled" + " " + "Program" + " " + "Plan" == "Currently Enrolled Program Plan"
  {
  }

  /** The first sort key of line 120 is the display name of the program
      column. */
  lemma ProgramNameHeader()
    ensures BeautifyColumn("Currently enrolled program name") == "Currently Enrolled Program Name"
  {
    ProgramWordsPlain();
    FieldWordsPlain();
    HeaderWordsCapitalized();
    ProgramNameSpellings();
    FourWordHeader("Currently", "enrolled", "program", "name");
  }

  lemma ProgramPlanHeader()
    ensures BeautifyColumn("Currently enrolled program plan") == "Currently Enrolled Program Plan"
  {
    ProgramWordsPlain();
    FieldWordsPlain();
    HeaderWordsCapitalized();
    ProgramPlanSpellings();
    FourWordHeader("Currently", "enrolled", "program", "plan");
  }

  /** The second sort key of line 120 is the display name of the forename
      column. */
  lemma ForenameHeader()
    ensures BeautifyColumn("forename") == "Forename"
  {
    FieldWordsPlain();
    HeaderWordsCapitalized();
    OneWordHeader("forename");
  }

  lemma OneWordHeaders()
    ensures BeautifyColumn("College") == "College"
    ensures BeautifyColumn("surname") == "Surname"
    ensures BeautifyColumn("campus") == "Campus"
  {
    OtherWordsPlain();
    HeaderWordsCapitalized();
    OneWordHeader("College");
    OneWordHeader("surname");
    OneWordHeader("campus");
  }

  /** The fill column of line 123 and the join key are override names. */
  lemma OverrideHeaders()
    ensures BeautifyColumn("change_of_program") == "Change of Program"
    ensures BeautifyColumn("rmit_student_id") == "RMIT Student ID"
  {
  }

  /** The other override names among the columns of lines 107–113. */
  lemma MoreOverrideHeaders()
    ensures BeautifyColumn("application_id") == "Application ID"
    ensures BeautifyColumn("applicant_id") == "Applicant ID"
    ensures BeautifyColumn("admit_term") == "Admit Term"
    ensures BeautifyColumn("plan_code") == "Plan Code"
    ensures BeautifyColumn("plan_name") == "Plan Name"
    ensures BeautifyColumn("commencement_date") == "Commencement Date"
    ensures BeautifyColumn("application_status") == "Application Status"
    ensures BeautifyColumn("fund_source") == "Fund Source"
  {
  }

}
