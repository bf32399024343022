/** The data frames of the continuing-students page (home in
    continuing_students.py): uploaded sheets, the in-place steps applied to
    them (header strip, rename, display headers, sort, fill), the inner
    merge on the student identifier and the column selection. */
module ContinuingTable {
  import opened Text
  import opened Seqs
  import opened ContinuingHelpers

  /** A cell of an uploaded sheet: its text, or missing (NaN). */
  datatype Cell = Value(text: string) | Missing

  type Row = seq<Cell>

  datatype Sheet = Sheet(columns: seq<string>, rows: seq<Row>)

  predicate Rectangular(s: Sheet)
  {
    forall i :: 0 <= i < |s.rows| ==> |s.rows[i]| == |s.columns|
  }

  /** A data frame: one cell per column in every row. */
  type Frame = s: Sheet | Rectangular(s) witness Sheet([], [])

  /** The cell in column k, reading a cell past the end of a short row as
      missing; on the rows of a frame it is r[k]. */
  function CellAt(r: Row, k: nat): (c: Cell)
    ensures k < |r| ==> c == r[k]
  {
    if k < |r| then r[k] else Missing
  }

  // --------------------------------------------------- header rewriting

  /** df.columns.str.strip() (lines 86–87). */
  function StripAll(cs: seq<string>): (r: seq<string>)
    ensures |r| == |cs|
    ensures forall i :: 0 <= i < |cs| ==> r[i] == Strip(cs[i])
  {
    seq(|cs|, i requires 0 <= i < |cs| => Strip(cs[i]))
  }

  /** df.rename(columns={from: to}) (lines 90–91): every column named
      `from` is renamed. */
  function RenameAll(cs: seq<string>, from: string, to: string): (r: seq<string>)
    ensures |r| == |cs|
    ensures forall i :: 0 <= i < |cs| ==> r[i] == (if cs[i] == from then to else cs[i])
  {
    seq(|cs|, i requires 0 <= i < |cs| => if cs[i] == from then to else cs[i])
  }

  /** Names without surrounding whitespace are left alone by strip(). */
  lemma StripUnpadded(s: string)
    requires s != [] && !IsSpace(s[0]) && !IsSpace(s[|s| - 1])
    ensures Strip(s) == s
  {
  }

  /** A column whose name strip() leaves alone survives the strip, and a
      column named `from` before the rename is named `to` after it. */
  lemma {:induction false} RenameAfterStrip(cs: seq<string>, from: string, to: string)
    requires from in cs && from != [] && !IsSpace(from[0]) && !IsSpace(from[|from| - 1])
    ensures to in RenameAll(StripAll(cs), from, to)
  {
    var i :| 0 <= i < |cs| && cs[i] == from;
    StripUnpadded(from);
    assert RenameAll(StripAll(cs), from, to)[i] == to;
  }

  /** The names of the columns after rename: `to` is present exactly when
      `from` or `to` was, `from` is gone, and every other name is kept. */
  lemma RenameColumnsSpec(cs: seq<string>, from: string, to: string, c: string)
    requires from != to
    ensures to in RenameAll(cs, from, to) <==> (from in cs || to in cs)
    ensures from !in RenameAll(cs, from, to)
    ensures c != from && c != to ==> (c in RenameAll(cs, from, to) <==> c in cs)
  {
    var r := RenameAll(cs, from, to);
    if from in cs {
      var i :| 0 <= i < |cs| && cs[i] == from;
      assert r[i] == to;
    }
    if to in cs {
      var i :| 0 <= i < |cs| && cs[i] == to;
      assert r[i] == to;
    }
    if c != from && c != to && c in cs {
      var i :| 0 <= i < |cs| && cs[i] == c;
      assert r[i] == c;
    }
  }

  // ---------------------------------------------------------- the merge

  /** The cells of a row without the one in column k. */
  function DropAt(r: Row, k: nat): (d: Row)
    requires k < |r|
    ensures |d| == |r| - 1
    ensures forall j :: 0 <= j < |d| ==> d[j] == r[if j < k then j else j + 1]
  {
    r[..k] + r[k + 1..]
  }

  /** One row of the merge: all cells of the left row, then the cells of the
      right row except its key. */
  function Combine(l: Row, r: Row, kr: nat): Row
    requires kr < |r|
  {
    l + DropAt(r, kr)
  }

  /** The merged rows for one left row: one per right row with the same key,
      in right-hand order. */
  function Matches(l: Row, rrows: seq<Row>, kl: nat, kr: nat): (ms: seq<Row>)
    requires kl < |l| && forall j :: 0 <= j < |rrows| ==> kr < |rrows[j]|
    ensures |ms| <= |rrows|
  {
    if rrows == [] then []
    else
      (if l[kl] == rrows[0][kr] then [Combine(l, rrows[0], kr)] else [])
      + Matches(l, rrows[1..], kl, kr)
  }

  /** pd.merge(how='inner') on rows: the matches of each left row, left rows
      in their order; at most one row per (left, right) pair. */
  function MergeRows(lrows: seq<Row>, rrows: seq<Row>, kl: nat, kr: nat): (ms: seq<Row>)
    requires forall i :: 0 <= i < |lrows| ==> kl < |lrows[i]|
    requires forall j :: 0 <= j < |rrows| ==> kr < |rrows[j]|
    ensures |ms| <= |lrows| * |rrows|
  {
    if lrows == [] then []
    else
      assert |lrows| * |rrows| == |rrows| + (|lrows| - 1) * |rrows|;
      Matches(lrows[0], rrows, kl, kr) + MergeRows(lrows[1..], rrows, kl, kr)
  }

  /** The positions of the right rows whose key is k. */
  ghost function KeyPositions(rrows: seq<Row>, kr: nat, k: Cell): set<nat>
    requires forall j :: 0 <= j < |rrows| ==> kr < |rrows[j]|
  {
    set j: nat | j < |rrows| && rrows[j][kr] == k
  }

  /** The (left, right) position pairs whose keys are equal: the pairs an
      inner join matches. */
  ghost function MatchingPairs(lrows: seq<Row>, rrows: seq<Row>, kl: nat, kr: nat): set<(nat, nat)>
    requires forall i :: 0 <= i < |lrows| ==> kl < |lrows[i]|
    requires forall j :: 0 <= j < |rrows| ==> kr < |rrows[j]|
  {
    set i: nat, j: nat | i < |lrows| && j < |rrows| && lrows[i][kl] == rrows[j][kr] :: (i, j)
  }

  /** Matching against two runs of right rows matches the first run, then
      the second: the matches keep the right-hand order. */
  lemma {:induction false} MatchesAppend(l: Row, a: seq<Row>, b: seq<Row>, kl: nat, kr: nat)
    requires kl < |l|
    requires forall j :: 0 <= j < |a| ==> kr < |a[j]|
    requires forall j :: 0 <= j < |b| ==> kr < |b[j]|
    ensures Matches(l, a + b, kl, kr) == Matches(l, a, kl, kr) + Matches(l, b, kl, kr)
  {
    if a == [] {
      assert a + b == b;
    } else {
      assert (a + b)[0] == a[0] && (a + b)[1..] == a[1..] + b;
      MatchesAppend(l, a[1..], b, kl, kr);
    }
  }

  /** A left row has one match per right row with its key. */
  lemma {:induction false} MatchesCount(l: Row, rrows: seq<Row>, kl: nat, kr: nat)
    requires kl < |l| && forall j :: 0 <= j < |rrows| ==> kr < |rrows[j]|
    ensures |Matches(l, rrows, kl, kr)| == |KeyPositions(rrows, kr, l[kl])|
    decreases |rrows|
  {
    if rrows == [] {
      assert KeyPositions(rrows, kr, l[kl]) == {};
    } else {
      var n := |rrows| - 1;
      var init, last := rrows[..n], rrows[n];
      assert rrows == init + [last];
      MatchesAppend(l, init, [last], kl, kr);
      MatchesCount(l, init, kl, kr);
      var before := KeyPositions(init, kr, l[kl]);
      assert n !in before;
      if l[kl] == last[kr] {
        assert KeyPositions(rrows, kr, l[kl]) == before + {n};
      } else {
        assert KeyPositions(rrows, kr, l[kl]) == before;
      }
    }
  }

  /** Merging two runs of left rows merges the first run, then the second:
      the merge keeps the left-hand order. */
  lemma {:induction false} MergeRowsAppend(a: seq<Row>, b: seq<Row>, rrows: seq<Row>, kl: nat, kr: nat)
    requires forall i :: 0 <= i < |a| ==> kl < |a[i]|
    requires forall i :: 0 <= i < |b| ==> kl < |b[i]|
    requires forall j :: 0 <= j < |rrows| ==> kr < |rrows[j]|
    ensures MergeRows(a + b, rrows, kl, kr) == MergeRows(a, rrows, kl, kr) + MergeRows(b, rrows, kl, kr)
  {
    if a == [] {
      assert a + b == b;
    } else {
      assert (a + b)[0] == a[0] && (a + b)[1..] == a[1..] + b;
      MergeRowsAppend(a[1..], b, rrows, kl, kr);
    }
  }

  /** The pairs of a run of left rows and one more: those of the run, and
      the new row's position with each right position of its key. */
  lemma PairsOfLastRow(init: seq<Row>, last: Row, rrows: seq<Row>, kl: nat, kr: nat)
    requires kl < |last| && forall i :: 0 <= i < |init| ==> kl < |init[i]|
    requires forall j :: 0 <= j < |rrows| ==> kr < |rrows[j]|
    ensures var n := |init|;
      var before := MatchingPairs(init, rrows, kl, kr);
      var added := Paired(n, KeyPositions(rrows, kr, last[kl]));
      && MatchingPairs(init + [last], rrows, kl, kr) == before + added
      && |MatchingPairs(init + [last], rrows, kl, kr)| == |before| + |added|
  {
    var n := |init|;
    var lrows := init + [last];
    var before := MatchingPairs(init, rrows, kl, kr);
    var added := Paired(n, KeyPositions(rrows, kr, last[kl]));
    var all := MatchingPairs(lrows, rrows, kl, kr);
    forall p | p in all ensures p in before + added {
      var (i, j) := p;
      if i < n {
        assert lrows[i] == init[i];
      }
    }
    forall p | p in before + added ensures p in all {
      var (i, j) := p;
      if p in before {
        assert lrows[i] == init[i];
      }
    }
    assert all == before + added;
    forall p | p in before ensures p !in added {
    }
    assert before * added == {};
  }

  /** The merge has one row per matching (left, right) pair. */
  lemma {:induction false} MergeRowsCount(lrows: seq<Row>, rrows: seq<Row>, kl: nat, kr: nat)
    requires forall i :: 0 <= i < |lrows| ==> kl < |lrows[i]|
    requires forall j :: 0 <= j < |rrows| ==> kr < |rrows[j]|
    ensures |MergeRows(lrows, rrows, kl, kr)| == |MatchingPairs(lrows, rrows, kl, kr)|
    decreases |lrows|
  {
    if lrows == [] {
      assert MatchingPairs(lrows, rrows, kl, kr) == {};
    } else {
      var n := |lrows| - 1;
      var init, last := lrows[..n], lrows[n];
      assert lrows == init + [last];
      MergeRowsAppend(init, [last], rrows, kl, kr);
      MergeRowsCount(init, rrows, kl, kr);
      MatchesCount(last, rrows, kl, kr);
      var one: seq<Row> := [last];
      assert MergeRows(one, rrows, kl, kr) == Matches(last, rrows, kl, kr) by {
        assert one[1..] == [];
      }
      PairedSize(n, KeyPositions(rrows, kr, last[kl]));
      PairsOfLastRow(init, last, rrows, kl, kr);
      assert |MergeRows(lrows, rrows, kl, kr)|
        == |MergeRows(init, rrows, kl, kr)| + |Matches(last, rrows, kl, kr)|;
    }
  }

  /** A column name both frames carry, other than the key, which pandas
      suffixes with _x on the left and _y on the right. */
  predicate Overlapping(c: string, left: seq<string>, right: seq<string>, key: string)
  {
    c != key && c in left && c in right
  }

  function Suffixed(cs: seq<string>, left: seq<string>, right: seq<string>, key: string, suffix: string): (r: seq<string>)
    ensures |r| == |cs|
    ensures forall i :: 0 <= i < |cs| ==>
      r[i] == (if Overlapping(cs[i], left, right, key) then cs[i] + suffix else cs[i])
  {
    seq(|cs|, i requires 0 <= i < |cs| =>
      if Overlapping(cs[i], left, right, key) then cs[i] + suffix else cs[i])
  }

  /** Line 99: pd.merge(df1, df2, how='inner', on=key). The header is the
      left header, then the right one without its key; a name both carry,
      other than the key, gets _x on the left and _y on the right. */
  function Merge(left: Frame, right: Frame, key: string): (m: Frame)
    requires key in left.columns && key in right.columns
    ensures var kr := FirstIndex(right.columns, key);
      m.columns == Suffixed(left.columns, left.columns, right.columns, key, "_x")
        + Suffixed(right.columns[..kr] + right.columns[kr + 1..], left.columns, right.columns, key, "_y")
    ensures |m.columns| == |left.columns| + |right.columns| - 1
    ensures m.rows == MergeRows(left.rows, right.rows, FirstIndex(left.columns, key), FirstIndex(right.columns, key))
  {
    var kl := FirstIndex(left.columns, key);
    var kr := FirstIndex(right.columns, key);
    var rest := right.columns[..kr] + right.columns[kr + 1..];
    var cols := Suffixed(left.columns, left.columns, right.columns, key, "_x")
              + Suffixed(rest, left.columns, right.columns, key, "_y");
    var rows := MergeRows(left.rows, right.rows, kl, kr);
    MergeRowsWidth(left.rows, right.rows, kl, kr, |left.columns|, |right.columns|);
    Sheet(cols, rows)
  }

  lemma {:induction false} MatchesWidth(l: Row, rrows: seq<Row>, kl: nat, kr: nat, nr: nat)
    requires kl < |l| && 0 < nr && kr < nr && forall j :: 0 <= j < |rrows| ==> |rrows[j]| == nr
    ensures forall i :: 0 <= i < |Matches(l, rrows, kl, kr)| ==>
      |Matches(l, rrows, kl, kr)[i]| == |l| + nr - 1
  {
    if rrows != [] {
      MatchesWidth(l, rrows[1..], kl, kr, nr);
    }
  }

  lemma {:induction false} MergeRowsWidth(lrows: seq<Row>, rrows: seq<Row>, kl: nat, kr: nat, nl: nat, nr: nat)
    requires kl < nl && kr < nr
    requires forall i :: 0 <= i < |lrows| ==> |lrows[i]| == nl
    requires forall j :: 0 <= j < |rrows| ==> |rrows[j]| == nr
    ensures forall i :: 0 <= i < |MergeRows(lrows, rrows, kl, kr)| ==>
      |MergeRows(lrows, rrows, kl, kr)[i]| == nl + nr - 1
  {
    if lrows != [] {
      MatchesWidth(lrows[0], rrows, kl, kr, nr);
      MergeRowsWidth(lrows[1..], rrows, kl, kr, nl, nr);
    }
  }

  /** Every row of a left row's matches joins it with a right row carrying
      the same key, and every such right row contributes one. */
  lemma {:induction false} MatchesMembers(l: Row, rrows: seq<Row>, kl: nat, kr: nat)
    requires kl < |l| && forall j :: 0 <= j < |rrows| ==> kr < |rrows[j]|
    ensures forall m :: m in Matches(l, rrows, kl, kr) ==>
      exists j :: 0 <= j < |rrows| && l[kl] == rrows[j][kr] && m == Combine(l, rrows[j], kr)
    ensures forall j :: 0 <= j < |rrows| && l[kl] == rrows[j][kr] ==>
      Combine(l, rrows[j], kr) in Matches(l, rrows, kl, kr)
  {
    if rrows != [] {
      MatchesMembers(l, rrows[1..], kl, kr);
      var rest := Matches(l, rrows[1..], kl, kr);
      forall m | m in rest
        ensures exists j :: 0 <= j < |rrows| && l[kl] == rrows[j][kr] && m == Combine(l, rrows[j], kr)
      {
        var j :| 0 <= j < |rrows[1..]| && l[kl] == rrows[1..][j][kr] && m == Combine(l, rrows[1..][j], kr);
        assert rrows[1..][j] == rrows[j + 1];
      }
      forall j | 0 <= j < |rrows| && l[kl] == rrows[j][kr]
        ensures Combine(l, rrows[j], kr) in Matches(l, rrows, kl, kr)
      {
        if j > 0 {
          assert rrows[j] == rrows[1..][j - 1];
        }
      }
    }
  }

  /** The merged rows are exactly the combinations of a left row and a right
      row with equal keys. */
  lemma {:induction false} MergeRowsMembers(lrows: seq<Row>, rrows: seq<Row>, kl: nat, kr: nat)
    requires forall i :: 0 <= i < |lrows| ==> kl < |lrows[i]|
    requires forall j :: 0 <= j < |rrows| ==> kr < |rrows[j]|
    ensures forall m :: m in MergeRows(lrows, rrows, kl, kr) ==>
      exists i, j :: 0 <= i < |lrows| && 0 <= j < |rrows| && lrows[i][kl] == rrows[j][kr]
        && m == Combine(lrows[i], rrows[j], kr)
    ensures forall i, j :: 0 <= i < |lrows| && 0 <= j < |rrows| && lrows[i][kl] == rrows[j][kr] ==>
      Combine(lrows[i], rrows[j], kr) in MergeRows(lrows, rrows, kl, kr)
  {
    if lrows != [] {
      MatchesMembers(lrows[0], rrows, kl, kr);
      MergeRowsMembers(lrows[1..], rrows, kl, kr);
      var here := Matches(lrows[0], rrows, kl, kr);
      var rest := MergeRows(lrows[1..], rrows, kl, kr);
      forall m | m in MergeRows(lrows, rrows, kl, kr)
        ensures exists i, j :: (0 <= i < |lrows| && 0 <= j < |rrows| && lrows[i][kl] == rrows[j][kr]
          && m == Combine(lrows[i], rrows[j], kr))
      {
        if m in here {
          var j :| 0 <= j < |rrows| && lrows[0][kl] == rrows[j][kr] && m == Combine(lrows[0], rrows[j], kr);
        } else {
          assert m in rest;
          var i, j :| 0 <= i < |lrows[1..]| && 0 <= j < |rrows| && lrows[1..][i][kl] == rrows[j][kr]
            && m == Combine(lrows[1..][i], rrows[j], kr);
          assert lrows[1..][i] == lrows[i + 1];
        }
      }
      forall i, j | 0 <= i < |lrows| && 0 <= j < |rrows| && lrows[i][kl] == rrows[j][kr]
        ensures Combine(lrows[i], rrows[j], kr) in MergeRows(lrows, rrows, kl, kr)
      {
        if i > 0 {
          assert lrows[i] == lrows[1..][i - 1];
        }
      }
    }
  }

  /** The merged rows of one left row: exactly its combinations with the
      right rows of the same key, one per such right row (their right-hand
      order is MatchesAppend). */
  lemma MatchesSpec(l: Row, rrows: seq<Row>, kl: nat, kr: nat)
    requires kl < |l| && forall j :: 0 <= j < |rrows| ==> kr < |rrows[j]|
    ensures forall m :: m in Matches(l, rrows, kl, kr) ==>
      exists j :: 0 <= j < |rrows| && l[kl] == rrows[j][kr] && m == Combine(l, rrows[j], kr)
    ensures forall j :: 0 <= j < |rrows| && l[kl] == rrows[j][kr] ==>
      Combine(l, rrows[j], kr) in Matches(l, rrows, kl, kr)
    ensures |Matches(l, rrows, kl, kr)| == |KeyPositions(rrows, kr, l[kl])|
  {
    MatchesMembers(l, rrows, kl, kr);
    MatchesCount(l, rrows, kl, kr);
  }

  /** The inner join's rows: exactly the combinations of a left row and a
      right row with equal keys, one per matching pair (their left-hand
      order is MergeRowsAppend). */
  lemma MergeRowsSpec(lrows: seq<Row>, rrows: seq<Row>, kl: nat, kr: nat)
    requires forall i :: 0 <= i < |lrows| ==> kl < |lrows[i]|
    requires forall j :: 0 <= j < |rrows| ==> kr < |rrows[j]|
    ensures forall m :: m in MergeRows(lrows, rrows, kl, kr) ==>
      exists i, j :: 0 <= i < |lrows| && 0 <= j < |rrows| && lrows[i][kl] == rrows[j][kr]
        && m == Combine(lrows[i], rrows[j], kr)
    ensures forall i, j :: 0 <= i < |lrows| && 0 <= j < |rrows| && lrows[i][kl] == rrows[j][kr] ==>
      Combine(lrows[i], rrows[j], kr) in MergeRows(lrows, rrows, kl, kr)
    ensures |MergeRows(lrows, rrows, kl, kr)| == |MatchingPairs(lrows, rrows, kl, kr)|
  {
    MergeRowsMembers(lrows, rrows, kl, kr);
    MergeRowsCount(lrows, rrows, kl, kr);
  }

  /** The merged row keeps the left row's cells in front, so its cell in
      the left key column is the shared key. */
  lemma CombineKey(l: Row, r: Row, kl: nat, kr: nat)
    requires kl < |l| && kr < |r|
    ensures Combine(l, r, kr)[kl] == l[kl] && Combine(l, r, kr)[..|l|] == l
  {
  }

  /** The key column of a frame. */
  function KeyCells(f: Frame, k: nat): (ks: seq<Cell>)
    requires k < |f.columns|
    ensures |ks| == |f.rows|
  {
    seq(|f.rows|, i requires 0 <= i < |f.rows| => f.rows[i][k])
  }

  /** Every row of the merge carries in the left key column a key that
      occurs in both frames. */
  lemma MergedKeysInBoth(left: Frame, right: Frame, key: string)
    requires key in left.columns && key in right.columns
    ensures var kl := FirstIndex(left.columns, key);
      forall m :: m in Merge(left, right, key).rows ==>
        CellAt(m, kl) in KeyCells(left, kl) && CellAt(m, kl) in KeyCells(right, FirstIndex(right.columns, key))
  {
    var kl := FirstIndex(left.columns, key);
    var kr := FirstIndex(right.columns, key);
    var ks1 := KeyCells(left, kl);
    var ks2 := KeyCells(right, kr);
    MergeRowsMembers(left.rows, right.rows, kl, kr);
    forall m | m in MergeRows(left.rows, right.rows, kl, kr)
      ensures CellAt(m, kl) in ks1 && CellAt(m, kl) in ks2
    {
      var i, j :| 0 <= i < |left.rows| && 0 <= j < |right.rows| && left.rows[i][kl] == right.rows[j][kr]
        && m == Combine(left.rows[i], right.rows[j], kr);
      CombineKey(left.rows[i], right.rows[j], kl, kr);
      assert ks1[i] == left.rows[i][kl] && ks2[j] == right.rows[j][kr];
    }
  }

  /** The merge is empty exactly when no key occurs in both frames. */
  lemma MergeEmptyIff(left: Frame, right: Frame, key: string)
    requires key in left.columns && key in right.columns
    ensures var kl := FirstIndex(left.columns, key);
      var kr := FirstIndex(right.columns, key);
      Merge(left, right, key).rows == [] <==>
        forall k :: k in KeyCells(left, kl) ==> k !in KeyCells(right, kr)
  {
    var kl := FirstIndex(left.columns, key);
    var kr := FirstIndex(right.columns, key);
    var ks1 := KeyCells(left, kl);
    var ks2 := KeyCells(right, kr);
    var rows := MergeRows(left.rows, right.rows, kl, kr);
    MergeRowsMembers(left.rows, right.rows, kl, kr);
    if rows == [] {
      forall k | k in ks1 ensures k !in ks2 {
        var i :| 0 <= i < |ks1| && ks1[i] == k;
      }
    } else {
      MergedKeysInBoth(left, right, key);
      assert rows[0] in rows;
    }
  }

  /** The key keeps its name and its left-hand position in the merged
      header (a suffixed name ends in 'x', which the key does not). */
  lemma MergeKeyIndex(left: Frame, right: Frame, key: string)
    requires key in left.columns && key in right.columns
    requires key != [] && key[|key| - 1] != 'x'
    ensures FirstIndex(Merge(left, right, key).columns, key) == FirstIndex(left.columns, key)
  {
    var kl := FirstIndex(left.columns, key);
    var cols := Merge(left, right, key).columns;
    var front := Suffixed(left.columns, left.columns, right.columns, key, "_x");
    assert cols[..|left.columns|] == front;
    forall j | 0 <= j < kl ensures cols[j] != key {
      assert left.columns[..kl][j] == left.columns[j];
      if Overlapping(left.columns[j], left.columns, right.columns, key) {
        var c := left.columns[j] + "_x";
        assert c[|c| - 1] == 'x';
      }
    }
    assert cols[kl] == key;
    FirstIndexUnique(cols, key, kl);
  }

  /** Every row of the merge carries, in the column the key names in the
      merged header, a key that occurs in both frames. */
  lemma MergedKeyColumn(left: Frame, right: Frame, key: string)
    requires key in left.columns && key in right.columns
    requires key != [] && key[|key| - 1] != 'x'
    ensures var m := Merge(left, right, key);
      forall r :: r in m.rows ==>
        && CellAt(r, FirstIndex(m.columns, key)) in KeyCells(left, FirstIndex(left.columns, key))
        && CellAt(r, FirstIndex(m.columns, key)) in KeyCells(right, FirstIndex(right.columns, key))
  {
    MergeKeyIndex(left, right, key);
    MergedKeysInBoth(left, right, key);
  }

  /** Sorting keeps the width of the rows. */
  lemma SortedRowsWidth(rows: seq<Row>, n: nat, le: (Row, Row) -> bool)
    requires forall i :: 0 <= i < |rows| ==> |rows[i]| == n
    ensures forall i :: 0 <= i < |SortBy(rows, le)| ==> |SortBy(rows, le)[i]| == n
  {
    var sorted := SortBy(rows, le);
    forall i | 0 <= i < |sorted| ensures |sorted[i]| == n {
      assert sorted[i] in multiset(rows);
    }
  }

  // ------------------------------------------------------ the selection

  /** Line 116, merged[cols]: the named columns in the given order, each
      read from the first column of that name. */
  function Select(f: Frame, cols: seq<string>): (s: Frame)
    requires forall c :: c in cols ==> c in f.columns
    ensures s.columns == cols && |s.rows| == |f.rows|
    ensures forall i, j :: 0 <= i < |f.rows| && 0 <= j < |cols| ==>
      s.rows[i][j] == f.rows[i][FirstIndex(f.columns, cols[j])]
  {
    Sheet(cols, seq(|f.rows|, i requires 0 <= i < |f.rows| =>
      seq(|cols|, j requires 0 <= j < |cols| => f.rows[i][FirstIndex(f.columns, cols[j])])))
  }

  // ----------------------------------------------------------- ordering

  /** sort_values with na_position='last': text by code point, missing
      after every text. */
  predicate CellLe(a: Cell, b: Cell)
  {
    match (a, b)
    case (Missing, _) => b.Missing?
    case (Value(_), Missing) => true
    case (Value(s), Value(t)) => LexLe(s, t)
  }

  /** Rows ordered by the cell in column k1, ties broken by column k2. */
  predicate RowLe(a: Row, b: Row, k1: nat, k2: nat)
  {
    if CellAt(a, k1) != CellAt(b, k1) then CellLe(CellAt(a, k1), CellAt(b, k1))
    else CellLe(CellAt(a, k2), CellAt(b, k2))
  }

  function RowOrder(k1: nat, k2: nat): (Row, Row) -> bool
  {
    (a: Row, b: Row) => RowLe(a, b, k1, k2)
  }

  lemma CellLeTotal(a: Cell, b: Cell)
    ensures CellLe(a, b) || CellLe(b, a)
  {
    if a.Value? && b.Value? {
      LexLeTotal(a.text, b.text);
    }
  }

  lemma CellLeTransitive(a: Cell, b: Cell, c: Cell)
    requires CellLe(a, b) && CellLe(b, c)
    ensures CellLe(a, c)
  {
    if a.Value? && b.Value? && c.Value? {
      LexLeTransitive(a.text, b.text, c.text);
    }
  }

  lemma CellLeAntisymmetric(a: Cell, b: Cell)
    requires CellLe(a, b) && CellLe(b, a)
    ensures a == b
  {
    if a.Value? && b.Value? {
      LexLeAntisymmetric(a.text, b.text);
    }
  }

  lemma RowLeTransitive(a: Row, b: Row, c: Row, k1: nat, k2: nat)
    requires RowLe(a, b, k1, k2) && RowLe(b, c, k1, k2)
    ensures RowLe(a, c, k1, k2)
  {
    var a1, b1, c1 := CellAt(a, k1), CellAt(b, k1), CellAt(c, k1);
    if a1 != c1 {
      if a1 != b1 && b1 != c1 {
        CellLeTransitive(a1, b1, c1);
      }
    } else if a1 != b1 {
      CellLeAntisymmetric(a1, b1);
    } else {
      CellLeTransitive(CellAt(a, k2), CellAt(b, k2), CellAt(c, k2));
    }
  }

  /** The order sort_values uses is a total preorder, so the stable sort
      puts the rows in order. */
  lemma RowOrderTotalPreorder(k1: nat, k2: nat)
    ensures TotalPreorder(RowOrder(k1, k2))
  {
    var le := RowOrder(k1, k2);
    forall a, b ensures le(a, b) || le(b, a) {
      if CellAt(a, k1) != CellAt(b, k1) {
        CellLeTotal(CellAt(a, k1), CellAt(b, k1));
      } else {
        CellLeTotal(CellAt(a, k2), CellAt(b, k2));
      }
    }
    forall a, b, c | le(a, b) && le(b, c) ensures le(a, c) {
      RowLeTransitive(a, b, c, k1, k2);
    }
  }

  // -------------------------------------------------------------- fill

  /** fillna(v) on column k: a missing cell there becomes v. */
  function FillRow(r: Row, k: nat, v: string): (f: Row)
    requires k < |r|
    ensures |f| == |r|
  {
    if r[k].Missing? then r[k := Value(v)] else r
  }

  function FillRows(rows: seq<Row>, k: nat, v: string): (fs: seq<Row>)
    requires forall i :: 0 <= i < |rows| ==> k < |rows[i]|
    ensures |fs| == |rows|
    ensures forall i :: 0 <= i < |rows| ==> fs[i] == FillRow(rows[i], k, v)
  {
    seq(|rows|, i requires 0 <= i < |rows| => FillRow(rows[i], k, v))
  }

  /** After the fill no cell of column k is missing, a present cell keeps
      its value, and every other column is unchanged. */
  lemma FillSpec(rows: seq<Row>, k: nat, v: string)
    requires forall i :: 0 <= i < |rows| ==> k < |rows[i]|
    ensures forall i :: 0 <= i < |rows| ==> FillRows(rows, k, v)[i][k] != Missing
    ensures forall i :: 0 <= i < |rows| && rows[i][k] != Missing ==> FillRows(rows, k, v)[i] == rows[i]
    ensures forall i, j :: 0 <= i < |rows| && 0 <= j < |rows[i]| && j != k ==>
      FillRows(rows, k, v)[i][j] == rows[i][j]
  {
  }

  /** Filling is done row by row, so filling two permutations of the same
      rows gives two permutations of the same filled rows. */
  lemma {:induction false} FillRowsPermutation(a: seq<Row>, b: seq<Row>, k: nat, v: string)
    requires multiset(a) == multiset(b)
    requires forall i :: 0 <= i < |a| ==> k < |a[i]|
    requires forall i :: 0 <= i < |b| ==> k < |b[i]|
    ensures multiset(FillRows(a, k, v)) == multiset(FillRows(b, k, v))
    decreases |a|
  {
    if a == [] {
      assert |b| == |multiset(b)| == 0;
    } else {
      var j := RemoveFirst(a, b);
      FillRowsRemoveAt(b, j, k, v);
      FillRowsPermutation(a[1..], b[..j] + b[j + 1..], k, v);
      var fb := FillRows(b, k, v);
      MultisetRemoveAt(fb, j);
      FillRowsCons(a, k, v);
      assert fb[j] == FillRow(a[0], k, v);
    }
  }

  lemma FillRowsCons(a: seq<Row>, k: nat, v: string)
    requires a != [] && forall i :: 0 <= i < |a| ==> k < |a[i]|
    ensures FillRows(a, k, v) == [FillRow(a[0], k, v)] + FillRows(a[1..], k, v)
  {
  }


  /** Taking out row j and filling is filling and taking out row j. */
  lemma FillRowsRemoveAt(b: seq<Row>, j: nat, k: nat, v: string)
    requires j < |b| && forall i :: 0 <= i < |b| ==> k < |b[i]|
    ensures var rest := b[..j] + b[j + 1..]; forall i :: 0 <= i < |rest| ==> k < |rest[i]|
    ensures FillRows(b[..j] + b[j + 1..], k, v) == FillRows(b, k, v)[..j] + FillRows(b, k, v)[j + 1..]
  {
    var rest := b[..j] + b[j + 1..];
    forall i | 0 <= i < |rest| ensures rest[i] == b[if i < j then i else i + 1] {
    }
  }


  /** Filling a column the rows are not ordered by keeps them in order. */
  lemma FillKeepsOrder(rows: seq<Row>, k: nat, v: string, k1: nat, k2: nat)
    requires forall i :: 0 <= i < |rows| ==> k < |rows[i]|
    requires k != k1 && k != k2 && SortedBy(rows, RowOrder(k1, k2))
    ensures SortedBy(FillRows(rows, k, v), RowOrder(k1, k2))
  {
    var fs := FillRows(rows, k, v);
    forall i | 0 <= i < |rows|
      ensures CellAt(fs[i], k1) == CellAt(rows[i], k1) && CellAt(fs[i], k2) == CellAt(rows[i], k2)
    {
    }
    forall i, j | 0 <= i < j < |fs| ensures RowOrder(k1, k2)(fs[i], fs[j]) {
      assert RowOrder(k1, k2)(rows[i], rows[j]);
    }
  }

  /** Sorting by (k1, k2) and then filling column k gives rows ordered by
      (k1, k2), none missing in column k, each one an input row with only
      that cell filled, and as a whole a permutation of the filled input
      rows. */
  lemma SortThenFill(rows: seq<Row>, n: nat, k1: nat, k2: nat, k: nat, v: string)
    requires forall i :: 0 <= i < |rows| ==> |rows[i]| == n
    requires k < n && k != k1 && k != k2
    ensures forall i :: 0 <= i < |SortBy(rows, RowOrder(k1, k2))| ==> k < |SortBy(rows, RowOrder(k1, k2))[i]|
    ensures var out := FillRows(SortBy(rows, RowOrder(k1, k2)), k, v);
      && |out| == |rows|
      && SortedBy(out, RowOrder(k1, k2))
      && (forall i :: 0 <= i < |out| ==> out[i][k] != Missing)
      && (forall i :: 0 <= i < |out| ==> exists j :: 0 <= j < |rows| && out[i] == FillRow(rows[j], k, v))
      && multiset(out) == multiset(FillRows(rows, k, v))
  {
    var sorted := SortBy(rows, RowOrder(k1, k2));
    SortedRowsWidth(rows, n, RowOrder(k1, k2));
    RowOrderTotalPreorder(k1, k2);
    SortBySorted(rows, RowOrder(k1, k2));
    FillKeepsOrder(sorted, k, v, k1, k2);
    FillSpec(sorted, k, v);
    assert |sorted| == |rows| by {
      assert |multiset(sorted)| == |multiset(rows)|;
    }
    var out := FillRows(sorted, k, v);
    FillRowsPermutation(sorted, rows, k, v);
    forall i | 0 <= i < |out|
      ensures exists j :: 0 <= j < |rows| && out[i] == FillRow(rows[j], k, v)
    {
      assert sorted[i] in multiset(rows);
      var j :| 0 <= j < |rows| && rows[j] == sorted[i];
    }
  }

  /** Rows built from a frame by selecting columns and filling column k
      carry, in the column p, a cell that some row of the frame carries in
      the column p selects: if every such cell is among ks1 and ks2, so is
      every output cell. */
  lemma SelectedKeysIn(m: Frame, cols: seq<string>, out: seq<Row>, k: nat, v: string, p: nat,
                       ks1: seq<Cell>, ks2: seq<Cell>)
    requires forall c :: c in cols ==> c in m.columns
    requires p < |cols| && k < |cols| && p != k
    requires forall i :: 0 <= i < |out| ==>
      exists j :: 0 <= j < |m.rows| && out[i] == FillRow(Select(m, cols).rows[j], k, v)
    requires forall r :: r in m.rows ==>
      CellAt(r, FirstIndex(m.columns, cols[p])) in ks1 && CellAt(r, FirstIndex(m.columns, cols[p])) in ks2
    ensures forall i :: 0 <= i < |out| ==> |out[i]| == |cols| && out[i][p] in ks1 && out[i][p] in ks2
  {
    var q := FirstIndex(m.columns, cols[p]);
    var s := Select(m, cols);
    forall i | 0 <= i < |out|
      ensures |out[i]| == |cols| && out[i][p] in ks1 && out[i][p] in ks2
    {
      var j :| 0 <= j < |m.rows| && out[i] == FillRow(s.rows[j], k, v);
      assert s.rows[j][p] == m.rows[j][q];
      assert out[i][p] == s.rows[j][p];
      assert m.rows[j] in m.rows;
      assert CellAt(m.rows[j], q) == m.rows[j][q];
    }
  }

  // ------------------------------------------------- the mutable frame

  /** A pandas DataFrame that the page changes in place. */
  class Table {
    var columns: seq<string>
    var rows: seq<Row>

    ghost predicate Valid()
      reads this
    {
      Rectangular(Sheet(columns, rows))
    }

    function Contents(): (f: Frame)
      reads this
      requires Valid()
      ensures f.columns == columns && f.rows == rows
    {
      Sheet(columns, rows)
    }

    constructor (f: Frame)
      ensures Valid() && columns == f.columns && rows == f.rows
    {
      columns := f.columns;
      rows := f.rows;
    }

    /** df.columns = df.columns.str.strip() */
    method StripColumns()
      requires Valid()
      modifies this
      ensures Valid() && columns == StripAll(old(columns)) && rows == old(rows)
    {
      columns := StripAll(columns);
    }

    /** df.rename(columns={from: to}, inplace=True) */
    method RenameColumn(from: string, to: string)
      requires Valid()
      modifies this
      ensures Valid() && columns == RenameAll(old(columns), from, to) && rows == old(rows)
    {
      columns := RenameAll(columns, from, to);
    }

    /** Line 117: every header replaced by its display name. */
    method BeautifyHeaders()
      requires Valid()
      modifies this
      ensures Valid() && rows == old(rows) && |columns| == |old(columns)|
      ensures forall i :: 0 <= i < |columns| ==> columns[i] == BeautifyColumn(old(columns)[i])
    {
      var cs := columns;
      columns := seq(|cs|, i requires 0 <= i < |cs| => BeautifyColumn(cs[i]));
    }

    /** Line 120: sort_values(by=[columns[k1], columns[k2]], inplace=True),
        a stable sort. */
    method SortRows(k1: nat, k2: nat)
      requires Valid()
      modifies this
      ensures Valid() && columns == old(columns)
      ensures rows == SortBy(old(rows), RowOrder(k1, k2))
      ensures SortedBy(rows, RowOrder(k1, k2)) && multiset(rows) == multiset(old(rows))
    {
      var sorted := SortBy(rows, RowOrder(k1, k2));
      RowOrderTotalPreorder(k1, k2);
      SortBySorted(rows, RowOrder(k1, k2));
      SortedRowsWidth(rows, |columns|, RowOrder(k1, k2));
      rows := sorted;
    }

    /** Line 124: column k reassigned with its missing cells filled by v. */
    method FillColumn(k: nat, v: string)
      requires Valid() && k < |columns|
      modifies this
      ensures Valid() && columns == old(columns)
      ensures rows == FillRows(old(rows), k, v)
    {
      rows := FillRows(rows, k, v);
    }
  }

}
