/** `compute_correlations` and the heatmap loop of the GNP page
    (pages/04_GNP.py, lines 60-84 and 208-215), with the two statistics of
    scipy as parameters, and the ordering of the correlation table for display
    (lines 178-179). */
module Correlations {
  import opened Frames
  import opened Sorting

  /** A scipy statistic on paired samples: coefficient and p-value, either of
      which may be NaN (`None`). */
  type Statistic = (seq<real>, seq<real>) -> (Option<real>, Option<real>)

  datatype Stats = Stats(pearson: Statistic, spearman: Statistic)

  /** One row of `corr_df`. */
  datatype CorrRow = CorrRow(
    mbti: string,
    pearsonR: Option<real>, pearsonP: Option<real>,
    spearmanR: Option<real>, spearmanP: Option<real>,
    n: nat)

  predicate Present(c: Cell) {
    !c.Blank?
  }

  /** Both cells of the row are present: the row survives `dropna()`. */
  predicate Complete(row: Row, c: string, y: string) {
    Present(Get(row, c)) && Present(Get(row, y))
  }

  /** `df[[c, y]].dropna()`: the pairs of cells of the rows where both are
      present, in row order. Every complete row gives its pair, every pair
      comes from a complete row, and nothing is lost exactly when every row is
      complete. */
  function Pairs(rows: seq<Row>, c: string, y: string): (r: seq<(Cell, Cell)>)
    ensures |r| <= |rows|
    ensures forall p :: p in r ==> Present(p.0) && Present(p.1)
    ensures forall i :: 0 <= i < |rows| && Complete(rows[i], c, y) ==> (Get(rows[i], c), Get(rows[i], y)) in r
    ensures forall p :: p in r ==> exists i :: 0 <= i < |rows| && Complete(rows[i], c, y) && p == (Get(rows[i], c), Get(rows[i], y))
    ensures |r| == |rows| <==> forall i :: 0 <= i < |rows| ==> Complete(rows[i], c, y)
  {
    if rows == [] then []
    else
      var rest := Pairs(rows[1..], c, y);
      assert forall i :: 1 <= i < |rows| ==> rows[i] == rows[1..][i - 1];
      var a, b := Get(rows[0], c), Get(rows[0], y);
      (if Complete(rows[0], c, y) then [(a, b)] else []) + rest
  }

  /** `dropna()` works row by row: it distributes over concatenation, so the
      pairs keep the order of the rows. */
  lemma {:induction false} PairsAppend(a: seq<Row>, b: seq<Row>, c: string, y: string)
    ensures Pairs(a + b, c, y) == Pairs(a, c, y) + Pairs(b, c, y)
  {
    if a == [] {
      assert a + b == b;
    } else {
      assert (a + b)[0] == a[0] && (a + b)[1..] == a[1..] + b;
      PairsAppend(a[1..], b, c, y);
    }
  }

  /** A single row gives its pair exactly when it is complete. */
  lemma PairsOfRow(row: Row, c: string, y: string)
    ensures Pairs([row], c, y) == if Complete(row, c, y) then [(Get(row, c), Get(row, y))] else []
  {
    assert [row][1..] == [];
  }

  predicate AllNumeric(ps: seq<(Cell, Cell)>) {
    forall p :: p in ps ==> p.0.Num? && p.1.Num?
  }

  /** The numbers of the first cells of the pairs, in order: `sub[c]`. */
  function Firsts(ps: seq<(Cell, Cell)>): (r: seq<real>)
    requires AllNumeric(ps)
    ensures |r| == |ps| && forall i :: 0 <= i < |ps| ==> Num(r[i]) == ps[i].0
  {
    seq(|ps|, i requires 0 <= i < |ps| => assert ps[i] in ps; ps[i].0.x)
  }

  /** The numbers of the second cells of the pairs, in order: `sub[y_col]`. */
  function Seconds(ps: seq<(Cell, Cell)>): (r: seq<real>)
    requires AllNumeric(ps)
    ensures |r| == |ps| && forall i :: 0 <= i < |ps| ==> Num(r[i]) == ps[i].1
  {
    seq(|ps|, i requires 0 <= i < |ps| => assert ps[i] in ps; ps[i].1.x)
  }

  /** scipy is called on a sample of three or more pairs that holds text. */
  predicate TextInSample(ps: seq<(Cell, Cell)>) {
    |ps| >= 3 && !AllNumeric(ps)
  }

  /** The four statistics of the row are scipy's Pearson and Spearman results
      on the numbers of the sample, in row order. */
  ghost predicate Scored(row: CorrRow, ps: seq<(Cell, Cell)>, st: Stats) {
    && AllNumeric(ps)
    && (row.pearsonR, row.pearsonP) == st.pearson(Firsts(ps), Seconds(ps))
    && (row.spearmanR, row.spearmanP) == st.spearman(Firsts(ps), Seconds(ps))
  }

  /** One pass of the loop body for column `c`: a `KeyError` for a column the
      frame lacks; fewer than three complete rows give a row of missing
      statistics without calling scipy; otherwise both statistics on the
      complete rows (text among them makes scipy fail). */
  function CorrelationOf(f: Frame, c: string, y: string, st: Stats): (r: Result<CorrRow>)
    ensures !Has(f, c) ==> r == Err(KeyError(c))
    ensures Has(f, c) && !Has(f, y) ==> r == Err(KeyError(y))
    ensures r.Ok? ==> r.value.mbti == c && r.value.n == |Pairs(f.rows, c, y)|
    ensures r.Ok? && r.value.n < 3 ==>
      r.value.pearsonR.None? && r.value.pearsonP.None? && r.value.spearmanR.None? && r.value.spearmanP.None?
    ensures Has(f, c) && Has(f, y) && |Pairs(f.rows, c, y)| < 3 ==> r.Ok?
    ensures Has(f, c) && Has(f, y) ==> (r == Err(TypeError) <==> TextInSample(Pairs(f.rows, c, y)))
    ensures r.Ok? && r.value.n >= 3 ==> Scored(r.value, Pairs(f.rows, c, y), st)
    ensures r.Err? ==> r.error.KeyError? || r.error == TypeError
  {
    if !Has(f, c) then Err(KeyError(c))
    else if !Has(f, y) then Err(KeyError(y))
    else
      var ps := Pairs(f.rows, c, y);
      if |ps| < 3 then Ok(CorrRow(c, None, None, None, None, |ps|))
      else if !AllNumeric(ps) then Err(TypeError)
      else
        var (pr, pp) := st.pearson(Firsts(ps), Seconds(ps));
        var (sr, sp) := st.spearman(Firsts(ps), Seconds(ps));
        Ok(CorrRow(c, pr, pp, sr, sp, |ps|))
  }

  /** When a column has fewer than three complete rows, its table row does not
      depend on the statistics at all: scipy is not consulted. */
  lemma ShortSampleSkipsScipy(f: Frame, c: string, y: string, st1: Stats, st2: Stats)
    requires |Pairs(f.rows, c, y)| < 3
    ensures CorrelationOf(f, c, y, st1) == CorrelationOf(f, c, y, st2)
  {
  }

  /** The whole table: one row per column in order, or the error of the first
      column whose pass fails. */
  function CorrelationTable(f: Frame, cols: seq<string>, y: string, st: Stats): (r: Result<seq<CorrRow>>)
    ensures r.Ok? ==> |r.value| == |cols|
    ensures r.Ok? ==> forall i :: 0 <= i < |cols| ==> CorrelationOf(f, cols[i], y, st) == Ok(r.value[i])
    ensures r.Err? ==> exists i :: (0 <= i < |cols| && CorrelationOf(f, cols[i], y, st) == Err(r.error)
      && forall j :: 0 <= j < i ==> CorrelationOf(f, cols[j], y, st).Ok?)
    ensures r.Err? ==> r.error.KeyError? || r.error == TypeError
    decreases |cols|
  {
    if cols == [] then Ok([])
    else
      var init := cols[..|cols| - 1];
      match CorrelationTable(f, init, y, st)
      case Err(e) =>
        FailsInPrefix(f, cols, y, st, e);
        Err(e)
      case Ok(rows) =>
        match CorrelationOf(f, cols[|cols| - 1], y, st)
        case Err(e) =>
          FailsAtEnd(f, cols, y, st, rows, e);
          Err(e)
        case Ok(row) =>
          TableExtends(f, cols, y, st, rows, row);
          Ok(rows + [row])
  }

  lemma TableExtends(f: Frame, cols: seq<string>, y: string, st: Stats, rows: seq<CorrRow>, row: CorrRow)
    requires cols != [] && |rows| == |cols| - 1
    requires forall i :: 0 <= i < |cols| - 1 ==> CorrelationOf(f, cols[..|cols| - 1][i], y, st) == Ok(rows[i])
    requires CorrelationOf(f, cols[|cols| - 1], y, st) == Ok(row)
    ensures forall i :: 0 <= i < |cols| ==> CorrelationOf(f, cols[i], y, st) == Ok((rows + [row])[i])
  {
    forall i | 0 <= i < |cols| - 1
      ensures CorrelationOf(f, cols[i], y, st) == Ok((rows + [row])[i])
    {
      assert CorrelationOf(f, cols[..|cols| - 1][i], y, st) == Ok(rows[i]);
      assert cols[..|cols| - 1][i] == cols[i];
    }
  }

  lemma FailsInPrefix(f: Frame, cols: seq<string>, y: string, st: Stats, e: Error)
    requires cols != []
    requires var init := cols[..|cols| - 1];
      exists i :: (0 <= i < |init| && CorrelationOf(f, init[i], y, st) == Err(e)
        && forall j :: 0 <= j < i ==> CorrelationOf(f, init[j], y, st).Ok?)
    ensures exists i :: (0 <= i < |cols| && CorrelationOf(f, cols[i], y, st) == Err(e)
      && forall j :: 0 <= j < i ==> CorrelationOf(f, cols[j], y, st).Ok?)
  {
    var init := cols[..|cols| - 1];
    var i :| 0 <= i < |init| && CorrelationOf(f, init[i], y, st) == Err(e)
      && forall j :: 0 <= j < i ==> CorrelationOf(f, init[j], y, st).Ok?;
    assert forall j :: 0 <= j <= i ==> init[j] == cols[j];
  }

  lemma FailsAtEnd(f: Frame, cols: seq<string>, y: string, st: Stats, rows: seq<CorrRow>, e: Error)
    requires cols != [] && |rows| == |cols| - 1
    requires forall i :: 0 <= i < |cols| - 1 ==> CorrelationOf(f, cols[..|cols| - 1][i], y, st) == Ok(rows[i])
    requires CorrelationOf(f, cols[|cols| - 1], y, st) == Err(e)
    ensures exists i :: (0 <= i < |cols| && CorrelationOf(f, cols[i], y, st) == Err(e)
      && forall j :: 0 <= j < i ==> CorrelationOf(f, cols[j], y, st).Ok?)
  {
    var i := |cols| - 1;
    forall j | 0 <= j < i
      ensures CorrelationOf(f, cols[j], y, st).Ok?
    {
      assert CorrelationOf(f, cols[..i][j], y, st) == Ok(rows[j]);
      assert cols[..i][j] == cols[j];
    }
  }

  /** The loop of `compute_correlations`, with its early `continue`. */
  method ComputeCorrelations(f: Frame, cols: seq<string>, y: string, st: Stats) returns (r: Result<seq<CorrRow>>)
    ensures r == CorrelationTable(f, cols, y, st)
  {
    var rows: seq<CorrRow> := [];
    var i := 0;
    while i < |cols|
      invariant 0 <= i <= |cols|
      invariant CorrelationTable(f, cols[..i], y, st) == Ok(rows)
    {
      var c := cols[i];
      if !Has(f, c) {
        TableStopsAt(f, cols, y, st, i);
        return Err(KeyError(c));
      }
      if !Has(f, y) {
        TableStopsAt(f, cols, y, st, i);
        return Err(KeyError(y));
      }
      var sub := Pairs(f.rows, c, y);
      if |sub| < 3 {
        TableGrows(f, cols, y, st, i, rows);
        rows := rows + [CorrRow(c, None, None, None, None, |sub|)];
        i := i + 1;
        continue;
      }
      if !AllNumeric(sub) {
        TableStopsAt(f, cols, y, st, i);
        return Err(TypeError);
      }
      var (pr, pp) := st.pearson(Firsts(sub), Seconds(sub));
      var (sr, sp) := st.spearman(Firsts(sub), Seconds(sub));
      TableGrows(f, cols, y, st, i, rows);
      rows := rows + [CorrRow(c, pr, pp, sr, sp, |sub|)];
      i := i + 1;
    }
    assert cols[..i] == cols;
    r := Ok(rows);
  }

  /** One more successful pass appends its row to the table. */
  lemma TableGrows(f: Frame, cols: seq<string>, y: string, st: Stats, i: nat, rows: seq<CorrRow>)
    requires i < |cols| && CorrelationTable(f, cols[..i], y, st) == Ok(rows)
    requires CorrelationOf(f, cols[i], y, st).Ok?
    ensures CorrelationTable(f, cols[..i + 1], y, st) == Ok(rows + [CorrelationOf(f, cols[i], y, st).value])
  {
    assert cols[..i + 1][..i] == cols[..i];
  }

  /** The heatmap loop: the Pearson coefficient of each column, NaN below three
      complete rows. */
  method HeatmapPearson(f: Frame, cols: seq<string>, y: string, st: Stats) returns (r: Result<seq<Option<real>>>)
    ensures CorrelationTable(f, cols, y, st).Err? ==> r == Err(CorrelationTable(f, cols, y, st).error)
    ensures CorrelationTable(f, cols, y, st).Ok? ==> (r.Ok? && |r.value| == |cols|
      && forall i :: 0 <= i < |cols| ==> r.value[i] == CorrelationTable(f, cols, y, st).value[i].pearsonR)
  {
    var vals: seq<Option<real>> := [];
    var i := 0;
    while i < |cols|
      invariant 0 <= i <= |cols|
      invariant CorrelationTable(f, cols[..i], y, st).Ok?
      invariant |vals| == i
      invariant forall j :: 0 <= j < i ==> vals[j] == CorrelationTable(f, cols[..i], y, st).value[j].pearsonR
    {
      var c := cols[i];
      assert cols[..i + 1][..i] == cols[..i];
      if !Has(f, c) || !Has(f, y) {
        r := if !Has(f, c) then Err(KeyError(c)) else Err(KeyError(y));
        TableStopsAt(f, cols, y, st, i);
        return;
      }
      var sub := Pairs(f.rows, c, y);
      var v: Option<real>;
      if |sub| >= 3 {
        if !AllNumeric(sub) {
          r := Err(TypeError);
          TableStopsAt(f, cols, y, st, i);
          return;
        }
        var (pr, _) := st.pearson(Firsts(sub), Seconds(sub));
        v := pr;
      } else {
        v := None;
      }
      vals := vals + [v];
      i := i + 1;
    }
    assert cols[..i] == cols;
    r := Ok(vals);
  }

  /** If the passes before `i` succeed and pass `i` fails, the table fails with
      that pass's error. */
  lemma {:induction false} TableStopsAt(f: Frame, cols: seq<string>, y: string, st: Stats, i: nat)
    requires i < |cols| && CorrelationTable(f, cols[..i], y, st).Ok?
    requires CorrelationOf(f, cols[i], y, st).Err?
    ensures CorrelationTable(f, cols, y, st) == Err(CorrelationOf(f, cols[i], y, st).error)
    decreases |cols|
  {
    if i < |cols| - 1 {
      var init := cols[..|cols| - 1];
      assert init[..i] == cols[..i] && init[i] == cols[i];
      TableStopsAt(f, init, y, st, i);
    } else {
      assert cols[..|cols| - 1] == cols[..i];
    }
  }

  // ---------------------------------------------------------------------
  // Ordering the table for display

  function SignedKey(r: CorrRow): Option<real> {
    r.pearsonR
  }

  function AbsKey(r: CorrRow): Option<real> {
    match r.pearsonR
    case None => None
    case Some(v) => Some(if v < 0.0 then -v else v)
  }

  /** The column name line 178 hands to the sort: `corr_df["pearson_r"].abs()`
      is a new series that keeps the name "pearson_r", so both branches yield
      the same name. */
  function SortKeyName(useAbs: bool): (r: string)
    ensures r == "pearson_r"
  {
    if useAbs then "pearson_r" else "pearson_r"
  }

  /** Lines 178-179 as written: the sort uses the column named by the sort key,
      which is always the signed coefficient. An empty table has no
      "pearson_r" column and fails. */
  function DisplayOrderAsWritten(rows: seq<CorrRow>, useAbs: bool): (r: Result<seq<CorrRow>>)
    ensures rows == [] <==> r.Err?
    ensures r.Err? ==> r.error == KeyError("pearson_r")
    ensures r.Ok? ==> multiset(r.value) == multiset(rows) && SortedDesc(r.value, SignedKey)
  {
    if rows == [] then Err(KeyError(SortKeyName(useAbs)))
    else Ok(SortDesc(rows, SignedKey))
  }

  /** The "absolute value" option has no effect on the order as written. */
  lemma AbsOptionIgnored(rows: seq<CorrRow>)
    ensures DisplayOrderAsWritten(rows, true) == DisplayOrderAsWritten(rows, false)
  {
  }

  /** The order the option promises: by |r| when it is set, by the signed r
      otherwise, descending, with missing coefficients last. */
  function DisplayOrder(rows: seq<CorrRow>, useAbs: bool): (r: Result<seq<CorrRow>>)
    ensures rows == [] <==> r.Err?
    ensures r.Err? ==> r.error == KeyError("pearson_r")
    ensures r.Ok? ==> multiset(r.value) == multiset(rows)
    ensures r.Ok? && useAbs ==> SortedDesc(r.value, AbsKey)
    ensures r.Ok? && !useAbs ==> SortedDesc(r.value, SignedKey)
  {
    if rows == [] then Err(KeyError("pearson_r"))
    else if useAbs then Ok(SortDesc(rows, AbsKey))
    else Ok(SortDesc(rows, SignedKey))
  }

  /** A table where the two orders differ: r = 0.5 for one type and -0.9 for
      another. With the option set, the strong negative correlation should come
      first; as written it comes last. */
  const Weak := CorrRow("ENTP", Some(0.5), None, None, None, 10)
  const StrongNegative := CorrRow("ISFJ", Some(-0.9), None, None, None, 10)

  lemma AbsSortAsWrittenKeepsSign()
    ensures DisplayOrderAsWritten([Weak, StrongNegative], true) == Ok([Weak, StrongNegative])
  {
    var a, b := Weak, StrongNegative;
    assert [a, b][1..] == [b] && [b][1..] == [];
    assert SortDesc([b], SignedKey) == Insert(b, [], SignedKey) == [b];
    assert Insert(a, [b], SignedKey) == [a, b];
  }

  lemma AbsSortByMagnitude()
    ensures DisplayOrder([Weak, StrongNegative], true) == Ok([StrongNegative, Weak])
  {
    var a, b := Weak, StrongNegative;
    assert [a, b][1..] == [b] && [b][1..] == [];
    assert AbsKey(a) == Some(0.5) && AbsKey(b) == Some(0.9);
    assert SortDesc([b], AbsKey) == Insert(b, [], AbsKey) == [b];
    assert Insert(a, [b], AbsKey) == [b] + Insert(a, [], AbsKey) == [b, a];
  }
}
