/** The top-10 page (pages/00_top10.py): the countries with the highest ratio
    of one MBTI type, highest first. */
module TopTen {
  import opened Frames
  import opened Sorting
  import MapPage

  /** Line 18: the types offered for selection are every column after the
      first, whatever the first is called. */
  function SelectableTypes(cols: seq<Column>): (r: seq<string>)
    ensures |r| == (if cols == [] then 0 else |cols| - 1)
    ensures forall i :: 0 <= i < |r| ==> r[i] == cols[i + 1].name
  {
    if cols == [] then [] else Names(cols)[1..]
  }

  /** Without a "Country" column the map page keeps every name. */
  lemma {:induction false} TypeColumnsWithoutCountry(cols: seq<Column>)
    requires "Country" !in Names(cols)
    ensures MapPage.TypeColumns(cols) == Names(cols)
  {
    if cols != [] {
      assert Names(cols) == [cols[0].name] + Names(cols[1..]);
      TypeColumnsWithoutCountry(cols[1..]);
    }
  }

  /** When "Country" is the first column and only there, the top-10 page
      offers exactly the types the map page ranks, in the same order. */
  lemma SelectableMatchesMap(cols: seq<Column>)
    requires cols != [] && cols[0].name == "Country" && "Country" !in SelectableTypes(cols)
    ensures SelectableTypes(cols) == MapPage.TypeColumns(cols)
  {
    SelectableIsTail(cols);
    TypeColumnsWithoutCountry(cols[1..]);
    TypeColumnsSkipsCountry(cols);
  }

  lemma TypeColumnsSkipsCountry(cols: seq<Column>)
    requires cols != [] && cols[0].name == "Country"
    ensures MapPage.TypeColumns(cols) == MapPage.TypeColumns(cols[1..])
  {
  }

  lemma SelectableIsTail(cols: seq<Column>)
    requires cols != []
    ensures SelectableTypes(cols) == Names(cols[1..])
  {
    assert Names(cols)[1..] == Names(cols[1..]);
  }

  /** The sort key: the selected type's ratio, missing when the cell holds none. */
  function RatioOf(sel: string): Row -> Option<real> {
    (row: Row) => Value(Get(row, sel))
  }

  /** `df[["Country", sel]]`, row by row. */
  function Projected(rows: seq<Row>, sel: string): (r: seq<Row>)
    ensures |r| == |rows| && forall i :: 0 <= i < |rows| ==> r[i] == Restrict(rows[i], ["Country", sel])
  {
    seq(|rows|, i requires 0 <= i < |rows| => Restrict(rows[i], ["Country", sel]))
  }

  /** Line 24: the two columns, sorted by the selected ratio, highest first
      with missing ratios last, cut to the first ten rows. A missing column is
      a `KeyError`; selecting "Country" itself makes the sort label ambiguous. */
  function TopTen(df: Frame, sel: string): (r: Result<seq<Row>>)
    ensures r.Err? <==> !Has(df, "Country") || !Has(df, sel) || sel == "Country"
    ensures !Has(df, "Country") ==> r == Err(KeyError("Country"))
    ensures Has(df, "Country") && !Has(df, sel) ==> r == Err(KeyError(sel))
    ensures Has(df, "Country") && sel == "Country" ==> r == Err(NotUnique("Country"))
    ensures r.Ok? ==> |r.value| == Min(10, |df.rows|)
    ensures r.Ok? ==> SortedDesc(r.value, RatioOf(sel))
    ensures r.Ok? ==> multiset(r.value) <= multiset(Projected(df.rows, sel))
  {
    match Select(df, ["Country", sel])
    case Err(e) => Err(e)
    case Ok(sub) =>
      if sel == "Country" then Err(NotUnique(sel))
      else
        assert sub.rows == Projected(df.rows, sel);
        Ok(TopK(sub.rows, 10, RatioOf(sel)))
  }

  /** Every country left out stands behind every one shown: its ratio is no
      larger, and a country without a ratio is left out before any with one. */
  lemma TopTenKeepsLargest(df: Frame, sel: string, row: Row)
    requires TopTen(df, sel).Ok?
    requires row in multiset(Projected(df.rows, sel)) - multiset(TopTen(df, sel).value)
    ensures forall x :: x in TopTen(df, sel).value ==> Ahead(Value(Get(x, sel)), Value(Get(row, sel)))
  {
    var sub := Select(df, ["Country", sel]).value;
    assert sub.rows == Projected(df.rows, sel);
    TopKKeepsLargest(sub.rows, 10, RatioOf(sel), row);
  }

  /** Each row shown is an input row cut to "Country" and the selected type,
      with both cells unchanged. */
  lemma TopTenRowsFromInput(df: Frame, sel: string, x: Row)
    requires TopTen(df, sel).Ok? && x in TopTen(df, sel).value
    ensures exists i :: (0 <= i < |df.rows| && x == Restrict(df.rows[i], ["Country", sel])
      && Get(x, "Country") == Get(df.rows[i], "Country") && Get(x, sel) == Get(df.rows[i], sel))
  {
    var ps := Projected(df.rows, sel);
    InSubMultiset(TopTen(df, sel).value, ps, x);
    var i :| 0 <= i < |ps| && ps[i] == x;
    RestrictGet(df.rows[i], ["Country", sel], "Country");
    RestrictGet(df.rows[i], ["Country", sel], sel);
  }

  lemma InSubMultiset(xs: seq<Row>, ys: seq<Row>, x: Row)
    requires multiset(xs) <= multiset(ys) && x in xs
    ensures x in ys
  {
    assert x in multiset(xs);
  }
}
