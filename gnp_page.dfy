/** The GNP page from its input checks to the heatmap (pages/04_GNP.py, lines
    118-215): the country keys of both tables, the join and its matching
    report, the optional log transform, the correlation table in display
    order and the heatmap values. */
module GnpPage {
  import opened Frames
  import opened GnpJoin
  import opened Correlations
  import opened Sorting

  /** The column both tables are joined on. */
  const KeyName := "Country_norm"

  lemma KeyNameSuffixFree()
    ensures SuffixFree(KeyName)
  {
    assert KeyName[|KeyName| - 2..] == "rm";
  }

  /** An indicator name has 3 or 14 characters, so it never collides with the
      page's own column names. */
  lemma IndicatorNameLength(n: string)
    requires IsIndicator(n)
    ensures |n| == 3 || |n| == 14
    ensures n != KeyName && n != "Country" && n != "Y_value" && n != "Y_trans"
  {
    assert |Lower(n)| == |n|;
  }

  // ---------------------------------------------------------------------
  // Country keys

  /** The key column of the GNP table: the normalised names, or a missing value
      in every row when the table has no "Country" column. */
  function GnpKeys(gnp: Frame, showNum: real -> string): (r: seq<Cell>)
    ensures |r| == |gnp.rows|
    ensures Has(gnp, "Country") ==> r == CountryKeys(gnp, showNum)
    ensures !Has(gnp, "Country") ==> forall i :: 0 <= i < |r| ==> r[i] == Blank
  {
    if Has(gnp, "Country") then CountryKeys(gnp, showNum)
    else seq(|gnp.rows|, i requires 0 <= i < |gnp.rows| => Blank)
  }

  /** The MBTI keys are never missing: every one is a normalised name. */
  lemma MbtiKeysPresent(mbti: Frame, showNum: real -> string)
    ensures Blank !in KeySet(CountryKeys(mbti, showNum))
  {
  }

  /** `nunique()`: the number of distinct keys, missing values not counted. */
  function Distinct(ks: seq<Cell>): nat {
    |KeySet(ks) - {Blank}|
  }

  // ---------------------------------------------------------------------
  // The log transform

  /** `np.log1p` of one cell; `log1p` is the floating-point function itself,
      `None` where it yields NaN. A missing value stays missing. */
  function Log1pCell(c: Cell, log1p: real -> Option<real>): (r: Cell)
    requires !c.Text?
    ensures !r.Text?
    ensures r.Num? <==> c.Num? && log1p(c.x).Some?
    ensures r.Num? ==> log1p(c.x) == Some(r.x)
  {
    match c
    case Num(x) => (match log1p(x) case Some(v) => Num(v) case None => Blank)
    case _ => Blank
  }

  /** `np.log1p(df_join["Y_value"])`: text in the column makes numpy fail;
      otherwise every present result comes from a number of the column. */
  function Log1pCells(cells: seq<Cell>, log1p: real -> Option<real>): (r: Result<seq<Cell>>)
    ensures r.Err? <==> exists i :: 0 <= i < |cells| && cells[i].Text?
    ensures r.Err? ==> r.error == TypeError
    ensures r.Ok? ==> |r.value| == |cells|
    ensures r.Ok? ==> forall i :: 0 <= i < |cells| && Present(r.value[i]) ==> cells[i].Num?
    ensures r.Ok? ==> forall i :: 0 <= i < |cells| ==> r.value[i] == Log1pCell(cells[i], log1p)
  {
    if exists i :: 0 <= i < |cells| && cells[i].Text? then Err(TypeError)
    else Ok(seq(|cells|, i requires 0 <= i < |cells| => Log1pCell(cells[i], log1p)))
  }

  lemma {:induction false} PairsShrink(a: seq<Row>, b: seq<Row>, c: string, y: string, z: string)
    requires |a| == |b|
    requires forall i :: 0 <= i < |a| ==> Get(b[i], c) == Get(a[i], c)
    requires forall i :: 0 <= i < |a| && Present(Get(b[i], z)) ==> Present(Get(a[i], y))
    ensures |Pairs(b, c, z)| <= |Pairs(a, c, y)|
  {
    if a != [] {
      assert forall i :: 0 <= i < |a| - 1 ==> a[1..][i] == a[i + 1] && b[1..][i] == b[i + 1];
      PairsShrink(a[1..], b[1..], c, y, z);
    }
  }

  /** The log transform never adds a complete row to a column's sample; it can
      only lose those whose indicator value `log1p` maps to NaN. */
  lemma LogShrinksSamples(join: Frame, log1p: real -> Option<real>, c: string)
    requires Log1pCells(Cells(join.rows, "Y_value"), log1p).Ok? && c != "Y_trans"
    ensures var t := WithColumn(join, Column("Y_trans", true), Log1pCells(Cells(join.rows, "Y_value"), log1p).value);
      |Pairs(t.rows, c, "Y_trans")| <= |Pairs(join.rows, c, "Y_value")|
  {
    var cells := Log1pCells(Cells(join.rows, "Y_value"), log1p).value;
    var t := WithColumn(join, Column("Y_trans", true), cells);
    PairsShrink(join.rows, t.rows, c, "Y_value", "Y_trans");
  }

  // ---------------------------------------------------------------------
  // The frame the correlation table reads (line 175)

  /** `y_for_corr`: the column the table and the heatmap read the indicator
      from. */
  function CorrelationTargetAsWritten(logScale: bool): (r: string)
    ensures r == "Y_trans" <==> logScale
    ensures r == "Y_value" <==> !logScale
  {
    if logScale then "Y_trans" else "Y_value"
  }

  /** The frame line 175 hands to `compute_correlations`: "Y_value" renamed back
      to the indicator's own name and "Y_trans" to `y_for_corr`. */
  function TableFrame(join: Frame, y: string, logScale: bool): Frame {
    Rename(Rename(join, "Y_value", y), "Y_trans", CorrelationTargetAsWritten(logScale))
  }

  /** What the rename of line 175 does to the columns the table reads: the
      indicator values are back under the indicator's name, "Y_trans" keeps
      its name under log scaling, and without log scaling no "Y_value" is
      left. */
  lemma TableFrameColumns(join: Frame, y: string, logScale: bool)
    requires y != "Y_value" && y != "Y_trans"
    ensures var r := TableFrame(join, y, logScale);
      && |r.rows| == |join.rows|
      && (Has(join, "Y_value") ==>
            Has(r, y) && forall i :: 0 <= i < |join.rows| ==> Get(r.rows[i], y) == Get(join.rows[i], "Y_value"))
      && (logScale && Has(join, "Y_trans") ==>
            Has(r, "Y_trans") && forall i :: 0 <= i < |join.rows| ==> Get(r.rows[i], "Y_trans") == Get(join.rows[i], "Y_trans"))
      && (!logScale && !Has(join, "Y_trans") ==> !Has(r, "Y_value"))
  {
  }

  /** As written, with log scaling off the table looks for "Y_value" in a frame
      where it has just been renamed away: the first analysed column fails with
      a `KeyError`. */
  lemma LogOffTableFails(join: Frame, y: string, cols: seq<string>, st: Stats)
    requires !Has(join, "Y_trans") && y != "Y_value" && y != "Y_trans"
    requires cols != [] && Has(join, cols[0]) && cols[0] != "Y_value" && cols[0] != y
    ensures CorrelationTable(TableFrame(join, y, false), cols, CorrelationTargetAsWritten(false), st)
      == Err(KeyError("Y_value"))
  {
    var inner := Rename(join, "Y_value", y);
    var g := TableFrame(join, y, false);
    assert !Has(inner, "Y_trans");
    assert g == inner;
    assert !Has(g, "Y_value") && Has(g, cols[0]);
    assert cols[..0] == [];
    TableStopsAt(g, cols, "Y_value", st, 0);
  }

  /** The name the table should read: "Y_trans" with log scaling, and the
      indicator's own name, which line 175 gives back to the "Y_value" column,
      without. */
  function CorrelationTarget(logScale: bool, y: string): (r: string)
    ensures logScale ==> r == CorrelationTargetAsWritten(logScale)
    ensures !logScale && y != "Y_value" ==> r != CorrelationTargetAsWritten(logScale)
    ensures !logScale ==> r == y
  {
    if logScale then "Y_trans" else y
  }

  lemma {:induction false} SamePairs(a: seq<Row>, b: seq<Row>, c: string, y: string, z: string)
    requires |a| == |b|
    requires forall i :: 0 <= i < |a| ==> Get(b[i], c) == Get(a[i], c) && Get(b[i], z) == Get(a[i], y)
    ensures Pairs(b, c, z) == Pairs(a, c, y)
  {
    if a != [] {
      assert forall i :: 0 <= i < |a| - 1 ==> a[1..][i] == a[i + 1] && b[1..][i] == b[i + 1];
      SamePairs(a[1..], b[1..], c, y, z);
    }
  }

  lemma SameCellsSameRow(f: Frame, g: Frame, c: string, y: string, z: string, st: Stats)
    requires |f.rows| == |g.rows| && Has(f, y) && Has(g, z) && (Has(g, c) <==> Has(f, c))
    requires forall i :: 0 <= i < |f.rows| ==> Get(g.rows[i], z) == Get(f.rows[i], y) && Get(g.rows[i], c) == Get(f.rows[i], c)
    ensures CorrelationOf(g, c, z, st) == CorrelationOf(f, c, y, st)
  {
    SamePairs(f.rows, g.rows, c, y, z);
  }

  /** Two frames that agree on the analysed columns and on the indicator give
      the same correlation table. */
  lemma {:induction false} SameCellsSameTable(f: Frame, g: Frame, cols: seq<string>, y: string, z: string, st: Stats)
    requires |f.rows| == |g.rows| && Has(f, y) && Has(g, z)
    requires forall i :: 0 <= i < |f.rows| ==> Get(g.rows[i], z) == Get(f.rows[i], y)
    requires forall c :: c in cols ==> (Has(g, c) <==> Has(f, c))
    requires forall c, i :: c in cols && 0 <= i < |f.rows| ==> Get(g.rows[i], c) == Get(f.rows[i], c)
    ensures CorrelationTable(g, cols, z, st) == CorrelationTable(f, cols, y, st)
    decreases |cols|
  {
    if cols != [] {
      var init := cols[..|cols| - 1];
      var c := cols[|cols| - 1];
      assert c in cols;
      assert forall x :: x in init ==> x in cols;
      SameCellsSameTable(f, g, init, y, z, st);
      SameCellsSameRow(f, g, c, y, z, st);
    }
  }

  /** With the corrected target, the table computed on the renamed frame is the
      table of the joined frame itself, read against `y_for_corr`: the same
      cells the heatmap reads. */
  lemma TableReadsJoin(join: Frame, y: string, logScale: bool, cols: seq<string>, st: Stats)
    requires Has(join, "Y_value") && (logScale <==> Has(join, "Y_trans"))
    requires y != "Y_value" && y != "Y_trans"
    requires forall c :: c in cols ==> c != y && c != "Y_value" && c != "Y_trans"
    ensures CorrelationTable(TableFrame(join, y, logScale), cols, CorrelationTarget(logScale, y), st)
      == CorrelationTable(join, cols, CorrelationTargetAsWritten(logScale), st)
  {
    var inner := Rename(join, "Y_value", y);
    var g := TableFrame(join, y, logScale);
    if logScale {
      assert Has(inner, "Y_trans");
    } else {
      assert !Has(inner, "Y_trans");
      assert g == inner;
    }
    SameCellsSameTable(join, g, cols, CorrelationTargetAsWritten(logScale), CorrelationTarget(logScale, y), st);
  }

  // ---------------------------------------------------------------------
  // The join (lines 134-150)

  /** `df_mbti` after line 134: the normalised names as the text column
      "Country_norm". */
  function MbtiKeyed(mbti: Frame, showNum: real -> string): (r: Frame)
    ensures |r.rows| == |mbti.rows| && Has(r, KeyName)
    ensures forall i :: 0 <= i < |r.rows| ==> Get(r.rows[i], KeyName) == CountryKeys(mbti, showNum)[i]
    ensures ColumnNamed(r.columns, KeyName) == Column(KeyName, false)
    ensures forall i, n :: 0 <= i < |mbti.rows| && n != KeyName ==> Get(r.rows[i], n) == Get(mbti.rows[i], n)
  {
    WithColumn(mbti, Column(KeyName, false), CountryKeys(mbti, showNum))
  }

  /** `df_gnp` after line 135: the normalised names, or a numeric column of NaN
      when the table has no "Country" column. */
  function GnpKeyed(gnp: Frame, showNum: real -> string): (r: Frame)
    ensures |r.rows| == |gnp.rows| && Has(r, KeyName)
    ensures forall i :: 0 <= i < |r.rows| ==> Get(r.rows[i], KeyName) == GnpKeys(gnp, showNum)[i]
    ensures ColumnNamed(r.columns, KeyName) == Column(KeyName, !Has(gnp, "Country"))
    ensures forall i, n :: 0 <= i < |gnp.rows| && n != KeyName ==> Get(r.rows[i], n) == Get(gnp.rows[i], n)
  {
    WithColumn(gnp, Column(KeyName, !Has(gnp, "Country")), GnpKeys(gnp, showNum))
  }

  /** The MBTI columns the merge takes. */
  function LeftNames(cols: seq<string>): seq<string> {
    ["Country", KeyName] + cols
  }

  /** The GNP table has no "Country" column, so its key is a numeric column of
      NaN while the MBTI keys are text: pandas refuses to merge them unless
      exactly one of the two tables has no rows. */
  predicate KeysClash(mbti: Frame, gnp: Frame) {
    !Has(gnp, "Country") && (|mbti.rows| == 0 <==> |gnp.rows| == 0)
  }

  /** The key column of the join: its keys are those both tables have, and
      there is one row per MBTI row whose key the GNP table has. */
  ghost predicate JoinedKeys(join: Frame, mbti: Frame, gnp: Frame, showNum: real -> string) {
    var mk, g := CountryKeys(mbti, showNum), KeySet(GnpKeys(gnp, showNum));
    KeySet(Cells(join.rows, KeyName)) == KeySet(mk) * g && |join.rows| == CountIn(mk, g)
  }

  /** A row of the join made from MBTI row `j` and GNP row `g` of the same key:
      the MBTI row's country and analysed cells, the key, and the GNP row's
      indicator value under "Y_value". */
  ghost predicate JoinedRow(row: Row, mbti: Frame, gnp: Frame, cols: seq<string>, y: string,
                            showNum: real -> string, j: int, g: int) {
    && 0 <= j < |mbti.rows| && 0 <= g < |gnp.rows|
    && GnpKeys(gnp, showNum)[g] == CountryKeys(mbti, showNum)[j]
    && Get(row, KeyName) == CountryKeys(mbti, showNum)[j]
    && Get(row, "Country") == Get(mbti.rows[j], "Country")
    && (forall n :: n in cols && n != KeyName && n != "Y_value" ==> Get(row, n) == Get(mbti.rows[j], n))
    && Get(row, "Y_value") == Get(gnp.rows[g], y)
  }

  /** The MBTI rows whose key the GNP table has, in table order. */
  function MbtiMatches(mbti: Frame, gnp: Frame, showNum: real -> string): seq<nat> {
    Matches(CountryKeys(mbti, showNum), KeySet(GnpKeys(gnp, showNum)))
  }

  /** The columns of the join are "Country", the key, the analysed columns and
      "Y_value", and there is one row per matching MBTI row, in table order:
      row `i` is made from the `i`-th matching MBTI row and a GNP row of the
      same key. */
  ghost predicate JoinedRows(join: Frame, mbti: Frame, gnp: Frame, cols: seq<string>, y: string,
                             showNum: real -> string) {
    && JoinColumnsNamed(join, cols)
    && |join.rows| == |MbtiMatches(mbti, gnp, showNum)|
    && forall i :: 0 <= i < |join.rows| ==>
         FromMbtiRow(join.rows[i], mbti, gnp, cols, y, showNum, MbtiMatches(mbti, gnp, showNum)[i])
  }

  /** The join's columns are "Country", the key, the analysed columns and
      "Y_value". */
  ghost predicate JoinColumnsNamed(join: Frame, cols: seq<string>) {
    forall n :: Has(join, n) <==> n in LeftNames(cols) || n == "Y_value"
  }

  /** The row is made from MBTI row `j` and some GNP row of the same key. */
  ghost predicate FromMbtiRow(row: Row, mbti: Frame, gnp: Frame, cols: seq<string>, y: string,
                              showNum: real -> string, j: int) {
    exists g :: JoinedRow(row, mbti, gnp, cols, y, showNum, j, g)
  }

  /** Lines 134-150: both tables get their key column, the MBTI country, key
      and analysed columns are merged many-to-one with the GNP key and the
      chosen indicator, and the indicator is renamed "Y_value". The merge is
      refused for keys of different types, fails when a GNP key repeats, and
      otherwise joins each MBTI row with the GNP row of its key. Row contents
      are stated when no analysed column has the indicator's name. */
  function PageJoin(mbti: Frame, gnp: Frame, cols: seq<string>, y: string, showNum: real -> string): (r: Result<Frame>)
    requires Has(mbti, "Country") && cols == MbtiColumns(mbti.columns)
    requires y in IndicatorCandidates(gnp.columns)
    ensures r.Err? ==> r.error == KeyTypeMismatch || r.error == MergeError
    ensures r == Err(KeyTypeMismatch) <==> KeysClash(mbti, gnp)
    ensures r == Err(MergeError) <==> !KeysClash(mbti, gnp) && HasDuplicate(GnpKeys(gnp, showNum))
    ensures r.Ok? ==> JoinedKeys(r.value, mbti, gnp, showNum)
    ensures r.Ok? && y !in cols ==> JoinedRows(r.value, mbti, gnp, cols, y, showNum)
  {
    PageSides(mbti, gnp, cols, y, showNum);
    var left := Select(MbtiKeyed(mbti, showNum), LeftNames(cols)).value;
    var right := Select(GnpKeyed(gnp, showNum), [KeyName, y]).value;
    PageMerge(mbti, gnp, cols, y, showNum, left, right);
    match Merge(left, right, KeyName)
    case Err(e) => Err(e)
    case Ok(m) =>
      PageRows(mbti, gnp, cols, y, showNum, left, right);
      Ok(Rename(m, y, "Y_value"))
  }

  /** Without a "Country" column in the GNP table, pandas refuses to merge its
      numeric NaN keys with the MBTI names when both tables have rows. */
  lemma NoGnpCountryRefused(mbti: Frame, gnp: Frame, cols: seq<string>, y: string, showNum: real -> string)
    requires Has(mbti, "Country") && cols == MbtiColumns(mbti.columns) && y in IndicatorCandidates(gnp.columns)
    requires !Has(gnp, "Country") && |mbti.rows| > 0 && |gnp.rows| > 0
    ensures PageJoin(mbti, gnp, cols, y, showNum) == Err(KeyTypeMismatch)
  {
  }

  /** With an empty MBTI table the type check is skipped, and two GNP rows
      without "Country" repeat the NaN key: the many-to-one check fails. */
  lemma NoGnpCountryRepeats(mbti: Frame, gnp: Frame, cols: seq<string>, y: string, showNum: real -> string)
    requires Has(mbti, "Country") && cols == MbtiColumns(mbti.columns) && y in IndicatorCandidates(gnp.columns)
    requires !Has(gnp, "Country") && |mbti.rows| == 0 && |gnp.rows| >= 2
    ensures PageJoin(mbti, gnp, cols, y, showNum) == Err(MergeError)
  {
    var ks := GnpKeys(gnp, showNum);
    assert ks[0] == ks[1];
  }

  /** Without a "Country" column in the GNP table, a merge that goes through
      matches no country. */
  lemma NoGnpCountryNoMatch(mbti: Frame, gnp: Frame, cols: seq<string>, y: string, showNum: real -> string)
    requires Has(mbti, "Country") && cols == MbtiColumns(mbti.columns) && y in IndicatorCandidates(gnp.columns)
    requires !Has(gnp, "Country") && PageJoin(mbti, gnp, cols, y, showNum).Ok?
    ensures |PageJoin(mbti, gnp, cols, y, showNum).value.rows| == 0
  {
    if |gnp.rows| == 0 {
      assert KeySet(GnpKeys(gnp, showNum)) == {};
    }
  }

  /** The two selections of the merge succeed, keep the key cells and keep the
      type of each key column. */
  lemma PageSides(mbti: Frame, gnp: Frame, cols: seq<string>, y: string, showNum: real -> string)
    requires Has(mbti, "Country") && cols == MbtiColumns(mbti.columns)
    requires y in IndicatorCandidates(gnp.columns)
    ensures var s := Select(MbtiKeyed(mbti, showNum), LeftNames(cols));
      && s.Ok? && |s.value.rows| == |mbti.rows| && Has(s.value, KeyName)
      && Cells(s.value.rows, KeyName) == CountryKeys(mbti, showNum)
      && ColumnNamed(s.value.columns, KeyName) == Column(KeyName, false)
    ensures var s := Select(GnpKeyed(gnp, showNum), [KeyName, y]);
      && s.Ok? && |s.value.rows| == |gnp.rows| && Has(s.value, KeyName)
      && Cells(s.value.rows, KeyName) == GnpKeys(gnp, showNum)
      && ColumnNamed(s.value.columns, KeyName) == Column(KeyName, !Has(gnp, "Country"))
  {
    SelectableColumns(mbti, cols);
    SelectKeepsKeys(mbti, Column(KeyName, false), CountryKeys(mbti, showNum), LeftNames(cols));
    SelectableIndicator(gnp, y);
    SelectKeepsKeys(gnp, Column(KeyName, !Has(gnp, "Country")), GnpKeys(gnp, showNum), [KeyName, y]);
  }

  /** The merge of the two selections: refused exactly for keys of different
      types, failing exactly when a GNP key repeats, and otherwise keyed as
      `JoinedKeys` says. */
  lemma PageMerge(mbti: Frame, gnp: Frame, cols: seq<string>, y: string, showNum: real -> string, left: Frame, right: Frame)
    requires Has(left, KeyName) && Has(right, KeyName)
    requires |left.rows| == |mbti.rows| && |right.rows| == |gnp.rows|
    requires Cells(left.rows, KeyName) == CountryKeys(mbti, showNum)
    requires Cells(right.rows, KeyName) == GnpKeys(gnp, showNum)
    requires ColumnNamed(left.columns, KeyName) == Column(KeyName, false)
    requires ColumnNamed(right.columns, KeyName) == Column(KeyName, !Has(gnp, "Country"))
    requires IsIndicator(y)
    ensures var r := Merge(left, right, KeyName);
      && (r == Err(KeyTypeMismatch) <==> KeysClash(mbti, gnp))
      && (r == Err(MergeError) <==> !KeysClash(mbti, gnp) && HasDuplicate(GnpKeys(gnp, showNum)))
      && (r.Err? ==> r.error == KeyTypeMismatch || r.error == MergeError)
      && (r.Ok? ==> JoinedKeys(Rename(r.value, y, "Y_value"), mbti, gnp, showNum))
  {
    var mk := CountryKeys(mbti, showNum);
    if |mk| > 0 {
      assert mk[0].Text?;
    }
    assert KeyTypesClash(left, right, KeyName) <==> KeysClash(mbti, gnp);
    var r := Merge(left, right, KeyName);
    if r.Ok? {
      KeyNameSuffixFree();
      MergeKeys(left, right, KeyName);
      IndicatorNameLength(y);
      RenameKeepsCells(r.value, y, "Y_value", KeyName);
    }
  }

  /** Every row of the renamed merge is made from an MBTI row and a GNP row of
      the same key, and its columns are those `JoinedRows` lists. */
  lemma PageRows(mbti: Frame, gnp: Frame, cols: seq<string>, y: string, showNum: real -> string, left: Frame, right: Frame)
    requires Has(mbti, "Country") && cols == MbtiColumns(mbti.columns)
    requires y in IndicatorCandidates(gnp.columns)
    requires Select(MbtiKeyed(mbti, showNum), LeftNames(cols)) == Ok(left)
    requires Select(GnpKeyed(gnp, showNum), [KeyName, y]) == Ok(right)
    requires Merge(left, right, KeyName).Ok?
    ensures y !in cols ==> JoinedRows(Rename(Merge(left, right, KeyName).value, y, "Y_value"), mbti, gnp, cols, y, showNum)
  {
    if y in cols {
      return;
    }
    var c :| c in gnp.columns && c.name == y && IsIndicator(y);
    IndicatorNameLength(y);
    var m := Merge(left, right, KeyName).value;
    PageSides(mbti, gnp, cols, y, showNum);
    MergeOfSelections(left, right, cols, y);
    JoinColumns(left, right, cols, y, m);
    RenamedColumns(m, cols, y);
    AllRows(mbti, gnp, cols, y, showNum, left.rows, right.rows, m);
  }

  /** The indicator is the only right-hand column besides the key, and no MBTI
      column shares its name: nothing is suffixed. */
  lemma MergeOfSelections(left: Frame, right: Frame, cols: seq<string>, y: string)
    requires Names(left.columns) == LeftNames(cols) && Names(right.columns) == [KeyName, y]
    requires y != KeyName && y != "Country" && y !in cols
    requires Merge(left, right, KeyName).Ok?
    ensures Merge(left, right, KeyName).value.columns == left.columns + RightColumns(right.columns, KeyName)
    ensures Merge(left, right, KeyName).value.rows == JoinRows(left.rows, right.rows, KeyName)
  {
    assert !Has(left, y);
    assert Shared(Names(right.columns), left, KeyName) == [] by {
      assert forall n :: n in Names(right.columns) ==> n == KeyName || n == y;
    }
    MergeUnsuffixed(left, right, KeyName);
  }

  /** Renaming the indicator of the merge gives the columns `JoinedRows` lists. */
  lemma RenamedColumns(m: Frame, cols: seq<string>, y: string)
    requires forall n :: Has(m, n) <==> n in LeftNames(cols) || n == y
    requires y != KeyName && y != "Country" && y != "Y_value" && y !in cols
    ensures forall n :: Has(Rename(m, y, "Y_value"), n) <==> n in LeftNames(cols) || n == "Y_value"
  {
    assert Has(m, y);
  }

  /** Row `i` of the renamed merge comes from the `i`-th matching MBTI row and
      a GNP row of the same key, and there are no other rows. */
  lemma AllRows(mbti: Frame, gnp: Frame, cols: seq<string>, y: string, showNum: real -> string,
                lefts: seq<Row>, rights: seq<Row>, m: Frame)
    requires y != KeyName && y != "Country" && y != "Y_value" && y !in cols && Has(m, y)
    requires |lefts| == |mbti.rows| && forall j :: 0 <= j < |lefts| ==> lefts[j] == Restrict(MbtiKeyed(mbti, showNum).rows[j], LeftNames(cols))
    requires |rights| == |gnp.rows| && forall g :: 0 <= g < |rights| ==> rights[g] == Restrict(GnpKeyed(gnp, showNum).rows[g], [KeyName, y])
    requires Cells(lefts, KeyName) == CountryKeys(mbti, showNum) && Cells(rights, KeyName) == GnpKeys(gnp, showNum)
    requires m.rows == JoinRows(lefts, rights, KeyName)
    ensures |Rename(m, y, "Y_value").rows| == |MbtiMatches(mbti, gnp, showNum)|
    ensures forall i :: 0 <= i < |m.rows| ==>
      FromMbtiRow(Rename(m, y, "Y_value").rows[i], mbti, gnp, cols, y, showNum, MbtiMatches(mbti, gnp, showNum)[i])
  {
    JoinRowsAt(lefts, rights, KeyName);
    forall i | 0 <= i < |m.rows|
      ensures FromMbtiRow(Rename(m, y, "Y_value").rows[i], mbti, gnp, cols, y, showNum, MbtiMatches(mbti, gnp, showNum)[i])
    {
      RowOfJoin(mbti, gnp, cols, y, showNum, lefts, rights, m, i);
    }
  }

  lemma RowOfJoin(mbti: Frame, gnp: Frame, cols: seq<string>, y: string, showNum: real -> string,
                  lefts: seq<Row>, rights: seq<Row>, m: Frame, i: nat)
    requires y != KeyName && y != "Country" && y != "Y_value" && y !in cols && Has(m, y)
    requires |lefts| == |mbti.rows| && forall j :: 0 <= j < |lefts| ==> lefts[j] == Restrict(MbtiKeyed(mbti, showNum).rows[j], LeftNames(cols))
    requires |rights| == |gnp.rows| && forall g :: 0 <= g < |rights| ==> rights[g] == Restrict(GnpKeyed(gnp, showNum).rows[g], [KeyName, y])
    requires Cells(lefts, KeyName) == CountryKeys(mbti, showNum) && Cells(rights, KeyName) == GnpKeys(gnp, showNum)
    requires m.rows == JoinRows(lefts, rights, KeyName) && i < |m.rows|
    requires i < |MbtiMatches(mbti, gnp, showNum)|
    requires JoinedAt(m.rows[i], lefts, rights, KeyName, MbtiMatches(mbti, gnp, showNum)[i])
    ensures FromMbtiRow(Rename(m, y, "Y_value").rows[i], mbti, gnp, cols, y, showNum, MbtiMatches(mbti, gnp, showNum)[i])
  {
    var j := MbtiMatches(mbti, gnp, showNum)[i];
    var g := JoinOrigin(lefts, rights, KeyName, m.rows[i], j);
    OneRow(mbti, gnp, cols, y, showNum, m.rows[i], j, g);
    RenamedRow(m, y, cols, i, mbti.rows[j], gnp.rows[g]);
    assert JoinedRow(Rename(m, y, "Y_value").rows[i], mbti, gnp, cols, y, showNum, j, g);
  }

  /** The columns of the merge: the MBTI selection, then the indicator. */
  lemma JoinColumns(left: Frame, right: Frame, cols: seq<string>, y: string, m: Frame)
    requires Names(left.columns) == LeftNames(cols) && Names(right.columns) == [KeyName, y] && y != KeyName
    requires m.columns == left.columns + RightColumns(right.columns, KeyName)
    ensures Has(m, y)
    ensures forall n :: Has(m, n) <==> n in LeftNames(cols) || n == y
  {
    var rc := RightColumns(right.columns, KeyName);
    assert right.columns[1] in rc;
    assert forall x :: x in rc ==> x.name == y;
    NamesAppend(left.columns, rc);
    assert Names(rc)[0] == y;
  }

  /** The right row a joined row of left row `j` is made from. */
  lemma JoinOrigin(lefts: seq<Row>, rights: seq<Row>, key: string, row: Row, j: int) returns (g: nat)
    requires JoinedAt(row, lefts, rights, key, j)
    ensures 0 <= j < |lefts| && g < |rights|
    ensures Get(rights[g], key) == Get(lefts[j], key) && row == lefts[j] + rights[g]
  {
    var m := Lookup(rights, key, Get(lefts[j], key)).value;
    var g' :| 0 <= g' < |rights| && rights[g'] == m;
    g := g';
  }

  /** A merged row made from MBTI row `j` and GNP row `g`: their keys agree,
      and it holds the MBTI row's selected cells and the GNP row's indicator. */
  lemma OneRow(mbti: Frame, gnp: Frame, cols: seq<string>, y: string, showNum: real -> string, row: Row, j: nat, g: nat)
    requires j < |mbti.rows| && g < |gnp.rows|
    requires y != KeyName && y != "Country" && y !in cols
    requires var l, r := Restrict(MbtiKeyed(mbti, showNum).rows[j], LeftNames(cols)), Restrict(GnpKeyed(gnp, showNum).rows[g], [KeyName, y]);
      row == l + r && Get(r, KeyName) == Get(l, KeyName)
    ensures GnpKeys(gnp, showNum)[g] == CountryKeys(mbti, showNum)[j]
    ensures Get(row, KeyName) == CountryKeys(mbti, showNum)[j]
    ensures forall n :: n in LeftNames(cols) && n != KeyName ==> Get(row, n) == Get(mbti.rows[j], n)
    ensures Get(row, y) == Get(gnp.rows[g], y)
  {
    var L, G := MbtiKeyed(mbti, showNum).rows[j], GnpKeyed(gnp, showNum).rows[g];
    MergedRow(L, G, cols, y, row);
    RestrictGet(L, LeftNames(cols), KeyName);
    RestrictGet(G, [KeyName, y], KeyName);
  }

  /** The union of a selected MBTI row and a selected GNP row. */
  lemma MergedRow(L: Row, G: Row, cols: seq<string>, y: string, row: Row)
    requires y != KeyName && y != "Country" && y !in cols
    requires row == Restrict(L, LeftNames(cols)) + Restrict(G, [KeyName, y])
    requires Get(Restrict(G, [KeyName, y]), KeyName) == Get(Restrict(L, LeftNames(cols)), KeyName)
    ensures forall n :: n in LeftNames(cols) && n != KeyName ==> Get(row, n) == Get(L, n)
    ensures Get(row, y) == Get(G, y)
    ensures Get(row, KeyName) == Get(Restrict(G, [KeyName, y]), KeyName)
  {
  }

  /** Renaming the indicator to "Y_value" moves its cell and keeps the others. */
  lemma RenamedRow(m: Frame, y: string, cols: seq<string>, i: int, mrow: Row, grow: Row)
    requires Has(m, y) && y != KeyName && y != "Y_value" && y != "Country" && y !in cols
    requires 0 <= i < |m.rows|
    requires forall n :: n in LeftNames(cols) && n != KeyName ==> Get(m.rows[i], n) == Get(mrow, n)
    requires Get(m.rows[i], y) == Get(grow, y)
    ensures var row := Rename(m, y, "Y_value").rows[i];
      && Get(row, KeyName) == Get(m.rows[i], KeyName)
      && Get(row, "Country") == Get(mrow, "Country")
      && (forall n :: n in cols && n != KeyName && n != "Y_value" ==> Get(row, n) == Get(mrow, n))
      && Get(row, "Y_value") == Get(grow, y)
  {
  }

  // ---------------------------------------------------------------------
  // The analysis (lines 162-215)

  /** What the page shows. */
  datatype Report = Report(
    indicator: string,               // `y_col`
    join: Frame,                     // `df_join`, with "Y_trans" under log scaling
    missMbti: set<Cell>,             // `miss_mbti`
    missGnp: set<Cell>,              // `miss_gnp`
    mbtiCountries: nat,              // the three `nunique()` counts
    gnpCountries: nat,
    matched: nat,
    correlations: seq<CorrRow>,      // `corr_df`
    display: seq<CorrRow>,           // `corr_df_display` before formatting
    heat: seq<Option<real>>)         // `pearson_vals`

  /** `np.log1p` can be applied at line 164: log scaling is off, or the join
      has a "Y_value" column without text. */
  predicate LogStepOk(join: Frame, logScale: bool, log1p: real -> Option<real>) {
    !logScale || (Has(join, "Y_value") && Log1pCells(Cells(join.rows, "Y_value"), log1p).Ok?)
  }

  /** `df_join` after lines 163-164: with log scaling it has the new column
      "Y_trans". */
  function Transformed(join: Frame, logScale: bool, log1p: real -> Option<real>): (r: Frame)
    requires LogStepOk(join, logScale, log1p)
    ensures |r.rows| == |join.rows|
    ensures logScale ==> Has(r, "Y_trans")
    ensures logScale ==>
      forall i :: 0 <= i < |join.rows| ==> Get(r.rows[i], "Y_trans") == Log1pCell(Get(join.rows[i], "Y_value"), log1p)
    ensures forall i, n :: 0 <= i < |join.rows| && n != "Y_trans" ==> Get(r.rows[i], n) == Get(join.rows[i], n)
    ensures !logScale ==> r == join
  {
    if logScale then WithColumn(join, Column("Y_trans", true), Log1pCells(Cells(join.rows, "Y_value"), log1p).value)
    else join
  }

  /** Every step of lines 162-215 goes through: the log transform, the table
      against the corrected target, the display sort (which needs a non-empty
      table) and the heatmap loop on `df_join`. */
  ghost predicate AnalysisSucceeds(join: Frame, y: string, cols: seq<string>, logScale: bool,
                                   st: Stats, log1p: real -> Option<real>) {
    && LogStepOk(join, logScale, log1p)
    && cols != []
    && var t := Transformed(join, logScale, log1p);
       && CorrelationTable(TableFrame(t, y, logScale), cols, CorrelationTarget(logScale, y), st).Ok?
       && CorrelationTable(t, cols, CorrelationTargetAsWritten(logScale), st).Ok?
  }

  /** The analysis shown for the joined frame: the correlation table of the
      analysed columns against the corrected target, a display order that is a
      permutation of it sorted as the option asks, and as heatmap the Pearson
      coefficients of the table on `df_join` against `y_for_corr`. */
  ghost predicate Analysed(rep: Report, cols: seq<string>, logScale: bool, useAbs: bool, st: Stats) {
    && TableOf(rep.correlations, TableFrame(rep.join, rep.indicator, logScale), cols,
               CorrelationTarget(logScale, rep.indicator), st)
    && multiset(rep.display) == multiset(rep.correlations)
    && SortedDesc(rep.display, if useAbs then AbsKey else SignedKey)
    && |rep.heat| == |rep.correlations|
    && PearsonOf(rep.heat, CorrelationTable(rep.join, cols, CorrelationTargetAsWritten(logScale), st))
  }

  /** `table` is the correlation table of `cols` against `y` in `f`. */
  predicate TableOf(table: seq<CorrRow>, f: Frame, cols: seq<string>, y: string, st: Stats) {
    CorrelationTable(f, cols, y, st) == Ok(table)
  }

  /** `heat` lists the Pearson coefficients of a table that was computed. */
  predicate PearsonOf(heat: seq<Option<real>>, h: Result<seq<CorrRow>>) {
    h.Ok? && |h.value| == |heat| && forall i :: 0 <= i < |heat| ==> heat[i] == h.value[i].pearsonR
  }

  /** When no analysed column is called like the indicator, "Y_value" or
      "Y_trans", the heatmap shows exactly the table's Pearson coefficients. */
  lemma HeatmapMatchesTable(rep: Report, cols: seq<string>, logScale: bool, useAbs: bool, st: Stats)
    requires Analysed(rep, cols, logScale, useAbs, st)
    requires Has(rep.join, "Y_value") && (logScale <==> Has(rep.join, "Y_trans"))
    requires rep.indicator != "Y_value" && rep.indicator != "Y_trans"
    requires forall c :: c in cols ==> c != rep.indicator && c != "Y_value" && c != "Y_trans"
    ensures forall i :: 0 <= i < |rep.heat| ==> rep.heat[i] == rep.correlations[i].pearsonR
  {
    TableReadsJoin(rep.join, rep.indicator, logScale, cols, st);
  }

  /** Lines 160-215 on the joined frame: the optional log transform in place,
      the correlation table on the frame of line 175 read against the corrected
      target, its display order and the heatmap values. */
  method Analyse(join: Frame, y: string, cols: seq<string>, logScale: bool, useAbs: bool,
                 st: Stats, log1p: real -> Option<real>)
    returns (r: Result<Report>)
    ensures r.Ok? <==> AnalysisSucceeds(join, y, cols, logScale, st, log1p)
    ensures logScale && !Has(join, "Y_value") ==> r == Err(KeyError("Y_value"))
    ensures logScale && Has(join, "Y_value") && Log1pCells(Cells(join.rows, "Y_value"), log1p).Err? ==> r == Err(TypeError)
    ensures LogStepOk(join, logScale, log1p) ==>
      var table := CorrelationTable(TableFrame(Transformed(join, logScale, log1p), y, logScale), cols, CorrelationTarget(logScale, y), st);
      table.Err? ==> r == Err(table.error)
    ensures r.Err? ==> r.error.KeyError? || r.error == TypeError
    ensures r.Ok? ==> r.value.indicator == y && r.value.join == Transformed(join, logScale, log1p)
    ensures r.Ok? ==> Analysed(r.value, cols, logScale, useAbs, st)
  {
    var joinT := new Table(join);
    if logScale {
      if !Has(joinT.Value(), "Y_value") {
        return Err(KeyError("Y_value"));
      }
      var t := Log1pCells(Cells(joinT.rows, "Y_value"), log1p);
      if t.Err? {
        return Err(t.error);
      }
      joinT.SetColumn(Column("Y_trans", true), t.value);
    }
    var df := joinT.Value();
    assert df == Transformed(join, logScale, log1p);
    var yForCorr := CorrelationTargetAsWritten(logScale);
    var corr := ComputeCorrelations(TableFrame(df, y, logScale), cols, CorrelationTarget(logScale, y), st);
    if corr.Err? {
      return Err(corr.error);
    }
    var display := DisplayOrder(corr.value, useAbs);
    if display.Err? {
      return Err(display.error);
    }
    var heat := HeatmapPearson(df, cols, yForCorr, st);
    if heat.Err? {
      return Err(heat.error);
    }
    r := Ok(Report(y, df, {}, {}, 0, 0, 0, corr.value, display.value, heat.value));
  }

  // ---------------------------------------------------------------------
  // The page

  /** The matching report of lines 153-156: the unmatched keys of each side,
      the distinct key counts, and one joined row per MBTI row whose key the
      GNP table has. */
  ghost predicate Matched(rep: Report, mbti: Frame, gnp: Frame, showNum: real -> string) {
    var m, g := KeySet(CountryKeys(mbti, showNum)), KeySet(GnpKeys(gnp, showNum));
    && rep.missMbti == m - g && rep.missGnp == g - m
    && rep.mbtiCountries == |m| && rep.gnpCountries == Distinct(GnpKeys(gnp, showNum))
    && rep.matched == |m * g|
    && |rep.join.rows| == CountIn(CountryKeys(mbti, showNum), g)
  }

  /** The counts of the report add up: the unmatched MBTI countries and the
      matched ones are all MBTI countries, and likewise on the GNP side when
      its table has a "Country" column. */
  lemma ReportCountsAddUp(rep: Report, mbti: Frame, gnp: Frame, showNum: real -> string)
    requires Matched(rep, mbti, gnp, showNum)
    ensures |rep.missMbti| + rep.matched == rep.mbtiCountries
    ensures Has(gnp, "Country") ==> |rep.missGnp| + rep.matched == rep.gnpCountries
  {
    var m, g := KeySet(CountryKeys(mbti, showNum)), KeySet(GnpKeys(gnp, showNum));
    SetSplit(m, g);
    if Has(gnp, "Country") {
      MbtiKeysPresent(gnp, showNum);
      NoBlank(g);
    }
  }

  lemma SetSplit(m: set<Cell>, g: set<Cell>)
    ensures |m - g| + |m * g| == |m|
    ensures |g - m| + |m * g| == |g|
  {
    assert m == (m - g) + (m * g) && (m - g) * (m * g) == {};
    assert g == (g - m) + (m * g) && (g - m) * (m * g) == {};
  }

  lemma NoBlank(g: set<Cell>)
    requires Blank !in g
    ensures |g - {Blank}| == |g|
  {
    assert g - {Blank} == g;
  }

  /** The GNP page, step by step, with the two tables, the sidebar choices, the
      scipy statistics, `np.log1p` and the float formatting of `astype(str)` as
      inputs. The correlation table reads the corrected target. */
  method GnpPage(mbti: Frame, gnp: Frame, index: nat, logScale: bool, useAbs: bool,
                 st: Stats, log1p: real -> Option<real>, showNum: real -> string)
    returns (r: Result<Report>)
    requires index == 0 || index < |IndicatorCandidates(gnp.columns)|
    ensures !Has(mbti, "Country") ==> r == Err(MissingCountry)
    ensures Has(mbti, "Country") && IndicatorCandidates(gnp.columns) == [] ==> r == Err(NoIndicatorColumn)
    ensures Has(mbti, "Country") && IndicatorCandidates(gnp.columns) != [] ==>
      var y, cols := IndicatorCandidates(gnp.columns)[index], MbtiColumns(mbti.columns);
      var join := PageJoin(mbti, gnp, cols, y, showNum);
      && (r == Err(KeyTypeMismatch) <==> KeysClash(mbti, gnp))
      && (r == Err(MergeError) <==> !KeysClash(mbti, gnp) && HasDuplicate(GnpKeys(gnp, showNum)))
      && (r.Ok? <==> join.Ok? && AnalysisSucceeds(join.value, y, cols, logScale, st, log1p))
      && (r.Ok? ==> r.value.indicator == y && r.value.join == Transformed(join.value, logScale, log1p))
    ensures r.Ok? ==> Matched(r.value, mbti, gnp, showNum)
    ensures r.Ok? ==> Analysed(r.value, MbtiColumns(mbti.columns), logScale, useAbs, st)
    ensures r.Ok? && ApartFromIndicator(MbtiColumns(mbti.columns), r.value.indicator) ==>
      forall i :: 0 <= i < |r.value.heat| ==> r.value.heat[i] == r.value.correlations[i].pearsonR
  {
    if !Has(mbti, "Country") {
      return Err(MissingCountry);
    }
    var mbtiCols := MbtiColumns(mbti.columns);
    var chosen := ChooseIndicator(gnp.columns, index);
    if chosen.Err? {
      return Err(NoIndicatorColumn);
    }
    var y := chosen.value;
    assert y in IndicatorCandidates(gnp.columns);
    var joined := JoinTables(mbti, gnp, mbtiCols, y, showNum);
    if joined.Err? {
      return Err(joined.error);
    }
    var join := joined.value;
    var mbtiKeys, gnpKeys, joinKeys := CountryKeys(mbti, showNum), GnpKeys(gnp, showNum), Cells(join.rows, KeyName);
    var analysis := Analyse(join, y, mbtiCols, logScale, useAbs, st, log1p);
    if analysis.Err? {
      return Err(analysis.error);
    }
    r := Ok(analysis.value.(
      missMbti := KeySet(mbtiKeys) - KeySet(joinKeys), missGnp := KeySet(gnpKeys) - KeySet(joinKeys),
      mbtiCountries := Distinct(mbtiKeys), gnpCountries := Distinct(gnpKeys), matched := Distinct(joinKeys)));
    ReportMatches(r.value, mbti, gnp, showNum, join);
    if ApartFromIndicator(mbtiCols, y) {
      HeatmapOnPage(r.value, mbti, gnp, mbtiCols, y, logScale, useAbs, st, log1p, showNum, join);
    }
  }

  /** No analysed column is called like the indicator, "Y_value" or "Y_trans". */
  predicate ApartFromIndicator(cols: seq<string>, y: string) {
    y !in cols && "Y_value" !in cols && "Y_trans" !in cols
  }

  lemma HeatmapOnPage(rep: Report, mbti: Frame, gnp: Frame, cols: seq<string>, y: string, logScale: bool,
                      useAbs: bool, st: Stats, log1p: real -> Option<real>, showNum: real -> string, join: Frame)
    requires JoinedRows(join, mbti, gnp, cols, y, showNum) && IsIndicator(y) && ApartFromIndicator(cols, y)
    requires LogStepOk(join, logScale, log1p) && rep.join == Transformed(join, logScale, log1p)
    requires rep.indicator == y && Analysed(rep, cols, logScale, useAbs, st)
    ensures forall i :: 0 <= i < |rep.heat| ==> rep.heat[i] == rep.correlations[i].pearsonR
  {
    IndicatorNameLength(y);
    JoinedColumns(join, cols, y);
    TransformedColumns(join, logScale, log1p);
    HeatmapMatchesTable(rep, cols, logScale, useAbs, st);
  }

  lemma JoinedColumns(join: Frame, cols: seq<string>, y: string)
    requires JoinColumnsNamed(join, cols) && ApartFromIndicator(cols, y)
    ensures Has(join, "Y_value") && !Has(join, "Y_trans")
  {
    assert "Y_trans" !in LeftNames(cols);
  }

  /** The log transform adds "Y_trans" and keeps "Y_value". */
  lemma TransformedColumns(join: Frame, logScale: bool, log1p: real -> Option<real>)
    requires LogStepOk(join, logScale, log1p) && Has(join, "Y_value") && !Has(join, "Y_trans")
    ensures var t := Transformed(join, logScale, log1p);
      Has(t, "Y_value") && (logScale <==> Has(t, "Y_trans"))
  {
  }

  /** The counts and sets the page computes from the three key columns are the
      ones `Matched` describes. */
  lemma ReportMatches(rep: Report, mbti: Frame, gnp: Frame, showNum: real -> string, join: Frame)
    requires JoinedKeys(join, mbti, gnp, showNum)
    requires |rep.join.rows| == |join.rows|
    requires var mk, gk, jk := CountryKeys(mbti, showNum), GnpKeys(gnp, showNum), Cells(join.rows, KeyName);
      && rep.missMbti == KeySet(mk) - KeySet(jk) && rep.missGnp == KeySet(gk) - KeySet(jk)
      && rep.mbtiCountries == Distinct(mk) && rep.gnpCountries == Distinct(gk) && rep.matched == Distinct(jk)
    ensures Matched(rep, mbti, gnp, showNum)
  {
    MbtiKeysPresent(mbti, showNum);
    KeySetAlgebra(KeySet(CountryKeys(mbti, showNum)), KeySet(GnpKeys(gnp, showNum)), KeySet(Cells(join.rows, KeyName)));
  }

  lemma KeySetAlgebra(m: set<Cell>, g: set<Cell>, j: set<Cell>)
    requires j == m * g && Blank !in m
    ensures m - j == m - g && g - j == g - m
    ensures m - {Blank} == m && j - {Blank} == j
  {
  }

  /** Lines 134-150 as the script runs them: the key columns assigned in
      place, the two selections, the merge and the rename give `PageJoin`. */
  method JoinTables(mbti: Frame, gnp: Frame, mbtiCols: seq<string>, y: string, showNum: real -> string)
    returns (r: Result<Frame>)
    requires Has(mbti, "Country") && mbtiCols == MbtiColumns(mbti.columns)
    requires y in IndicatorCandidates(gnp.columns)
    ensures r == PageJoin(mbti, gnp, mbtiCols, y, showNum)
  {
    var mbtiT := new Table(mbti);
    mbtiT.SetColumn(Column(KeyName, false), CountryKeys(mbti, showNum));
    var gnpT := new Table(gnp);
    gnpT.SetColumn(Column(KeyName, !Has(gnp, "Country")), GnpKeys(gnp, showNum));
    PageSides(mbti, gnp, mbtiCols, y, showNum);
    var left := Select(mbtiT.Value(), LeftNames(mbtiCols));
    var right := Select(gnpT.Value(), [KeyName, y]);
    var merged := Merge(left.value, right.value, KeyName);
    if merged.Err? {
      return Err(merged.error);
    }
    r := Ok(Rename(merged.value, y, "Y_value"));
  }

  /** The MBTI selection of the merge finds all its columns but the new key. */
  lemma SelectableColumns(mbti: Frame, cols: seq<string>)
    requires Has(mbti, "Country") && cols == MbtiColumns(mbti.columns)
    ensures forall n :: n in LeftNames(cols) ==> n == KeyName || Has(mbti, n)
  {
    forall n | n in cols
      ensures Has(mbti, n)
    {
      var c :| c in mbti.columns && c.name == n && n != "Country" && c.numeric;
      var k :| 0 <= k < |mbti.columns| && mbti.columns[k] == c;
      assert Names(mbti.columns)[k] == n;
    }
  }

  /** The GNP selection of the merge finds the chosen indicator. */
  lemma SelectableIndicator(gnp: Frame, y: string)
    requires y in IndicatorCandidates(gnp.columns)
    ensures forall n :: n in [KeyName, y] ==> n == KeyName || Has(gnp, n)
  {
    var c :| c in gnp.columns && c.name == y && IsIndicator(y);
    var k :| 0 <= k < |gnp.columns| && gnp.columns[k] == c;
    assert Names(gnp.columns)[k] == y;
  }

  /** Selecting columns, the new key among them, from a frame that has just
      received its key column succeeds and keeps the key cells and the key
      column's type. */
  lemma SelectKeepsKeys(f: Frame, col: Column, keys: seq<Cell>, names: seq<string>)
    requires |keys| == |f.rows| && col.name in names
    requires forall n :: n in names ==> n == col.name || Has(f, n)
    ensures var s := Select(WithColumn(f, col, keys), names);
      && s.Ok? && Has(s.value, col.name) && Cells(s.value.rows, col.name) == keys
      && ColumnNamed(s.value.columns, col.name) == col
  {
    var t := WithColumn(f, col, keys);
    assert forall n :: n in names ==> Has(t, n);
    var s := Select(t, names);
    assert forall i :: 0 <= i < |keys| ==> Get(s.value.rows[i], col.name) == keys[i];
    var c := ColumnNamed(s.value.columns, col.name);
    var k :| 0 <= k < |s.value.columns| && s.value.columns[k] == c;
    assert Names(s.value.columns)[k] == names[k];
  }
}
