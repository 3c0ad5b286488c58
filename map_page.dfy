/** The world-map page (pages/03_map.py): for every country, the MBTI type
    with the highest ratio, its ratio and the three highest types, then the
    emphasis flag the sidebar selection gives each country and the opacity
    series computed from it. */
module MapPage {
  import opened Frames
  import opened Sorting

  /** The column names of `map_df`. */
  const TopType := "최다_MBTI"
  const TopRatio := "최다_비율"
  const TopThree := "상위3"
  const Emphasis := "강조"

  /** `mbti_cols` of the map page: every column but "Country", whatever its
      type, in column order. */
  function TypeColumns(cols: seq<Column>): (r: seq<string>)
    ensures forall n :: n in r <==> n in Names(cols) && n != "Country"
  {
    if cols == [] then []
    else
      assert Names(cols) == [cols[0].name] + Names(cols[1..]);
      (if cols[0].name != "Country" then [cols[0].name] else []) + TypeColumns(cols[1..])
  }

  /** Column order is kept: the selection distributes over concatenation. */
  lemma {:induction false} TypeColumnsAppend(a: seq<Column>, b: seq<Column>)
    ensures TypeColumns(a + b) == TypeColumns(a) + TypeColumns(b)
  {
    if a == [] {
      assert a + b == b;
    } else {
      assert (a + b)[1..] == a[1..] + b;
      TypeColumnsAppend(a[1..], b);
    }
  }

  // ---------------------------------------------------------------------
  // `compute_dominant` on one row

  /** `row[mbti_cols]` as numbers; a missing cell has none. */
  function RowValues(row: Row, cols: seq<string>): (r: seq<Option<real>>)
    ensures |r| == |cols| && forall i :: 0 <= i < |cols| ==> r[i] == Value(Get(row, cols[i]))
  {
    seq(|cols|, i requires 0 <= i < |cols| => Value(Get(row, cols[i])))
  }

  /** `max()` with NaN skipped: the largest present value, if any. */
  function MaxOf(vs: seq<Option<real>>): (r: Option<real>)
    ensures r.None? <==> forall i :: 0 <= i < |vs| ==> vs[i].None?
    ensures r.Some? ==> r in vs
    ensures forall i :: 0 <= i < |vs| && vs[i].Some? ==> r.Some? && vs[i].value <= r.value
  {
    if vs == [] then None
    else
      var rest := MaxOf(vs[1..]);
      assert forall i :: 1 <= i < |vs| ==> vs[i] == vs[1..][i - 1];
      if vs[0].None? then rest
      else if rest.None? || rest.value <= vs[0].value then vs[0]
      else rest
  }

  /** The first position holding `Some(m)`. */
  function FirstAt(vs: seq<Option<real>>, m: real): (i: nat)
    requires Some(m) in vs
    ensures i < |vs| && vs[i] == Some(m)
    ensures forall j :: 0 <= j < i ==> vs[j] != Some(m)
  {
    if vs[0] == Some(m) then 0 else 1 + FirstAt(vs[1..], m)
  }

  /** One (type, ratio) entry of the row, as `top3.items()` yields them. */
  type Entry = (string, Option<real>)

  function EntryKey(e: Entry): Option<real> {
    e.1
  }

  function Entries(row: Row, cols: seq<string>): (r: seq<Entry>)
    ensures |r| == |cols| && forall i :: 0 <= i < |cols| ==> r[i] == (cols[i], Value(Get(row, cols[i])))
  {
    seq(|cols|, i requires 0 <= i < |cols| => (cols[i], Value(Get(row, cols[i]))))
  }

  /** The series `compute_dominant` returns for a row. */
  datatype Dominant = Dominant(country: Cell, top: string, topValue: real, top3: seq<Entry>)

  predicate HasText(row: Row, cols: seq<string>) {
    exists i :: 0 <= i < |cols| && Get(row, cols[i]).Text?
  }

  /** No ratio of the row is present. */
  predicate NoRatio(row: Row, cols: seq<string>) {
    forall i :: 0 <= i < |cols| ==> Value(Get(row, cols[i])).None?
  }

  /** `d` is what `compute_dominant` promises for the row: the country copied,
      the dominant type the first column, in column order, holding the row's
      largest ratio, and `top3` the first three entries of the row sorted by
      ratio, descending, missing ratios last. */
  ghost predicate IsDominant(row: Row, cols: seq<string>, d: Dominant) {
    && d.country == Get(row, "Country")
    && (exists k :: 0 <= k < |cols| && cols[k] == d.top
          && Value(Get(row, cols[k])) == Some(d.topValue)
          && forall j :: 0 <= j < k ==> Value(Get(row, cols[j])) != Some(d.topValue))
    && (forall i :: 0 <= i < |cols| && Value(Get(row, cols[i])).Some? ==>
          Value(Get(row, cols[i])).value <= d.topValue)
    && |d.top3| == Min(3, |cols|) && SortedDesc(d.top3, EntryKey)
    && multiset(d.top3) <= multiset(Entries(row, cols))
    && (forall x, e :: x in d.top3 && e in multiset(Entries(row, cols)) - multiset(d.top3) ==> Ahead(x.1, e.1))
  }

  /** `compute_dominant`: text among the ratios makes the comparison fail and a
      row without any ratio has no `idxmax`; otherwise the result is the
      row's dominant type and top three. */
  function DominantOf(row: Row, cols: seq<string>): (r: Result<Dominant>)
    ensures r.Err? <==> HasText(row, cols) || NoRatio(row, cols)
    ensures r.Err? ==> r.error == (if HasText(row, cols) then TypeError else EmptyArgmax)
    ensures r.Ok? ==> IsDominant(row, cols, r.value)
  {
    if HasText(row, cols) then Err(TypeError)
    else
      var vs := RowValues(row, cols);
      match MaxOf(vs)
      case None => Err(EmptyArgmax)
      case Some(m) =>
        var k := FirstAt(vs, m);
        TopKKeepsAllLargest(Entries(row, cols), 3, EntryKey);
        Ok(Dominant(Get(row, "Country"), cols[k], m, TopK(Entries(row, cols), 3, EntryKey)))
  }

  /** The first entry of the top three is the dominant type's ratio: the
      tooltip and the dominant type agree on the largest ratio. */
  lemma TopThreeLeadsWithDominant(row: Row, cols: seq<string>, d: Dominant)
    requires IsDominant(row, cols, d)
    ensures d.top3 != [] && d.top3[0].1 == Some(d.topValue)
  {
    var es := Entries(row, cols);
    var k :| 0 <= k < |cols| && cols[k] == d.top && Value(Get(row, cols[k])) == Some(d.topValue);
    assert es[k].1 == Some(d.topValue);
    assert d.top3 != [];
    LeaderAhead(d.top3, es, es[k]);
    var x := d.top3[0];
    assert x in multiset(es) by {
      assert x in multiset(d.top3);
    }
    var p :| 0 <= p < |es| && es[p] == x;
    assert x.1 == Value(Get(row, cols[p]));
  }

  /** The first of a sorted selection stands before every entry, kept or not. */
  lemma LeaderAhead(top: seq<Entry>, es: seq<Entry>, y: Entry)
    requires top != [] && SortedDesc(top, EntryKey) && multiset(top) <= multiset(es)
    requires forall x, e :: x in top && e in multiset(es) - multiset(top) ==> Ahead(x.1, e.1)
    requires y in multiset(es)
    ensures Ahead(top[0].1, y.1)
  {
    if y in multiset(top) {
      var q :| 0 <= q < |top| && top[q] == y;
      if q > 0 {
        assert Ahead(EntryKey(top[0]), EntryKey(top[q]));
      }
    } else {
      assert top[0] in top;
    }
  }

  /** The outcome of `apply` given the outcome of each row: every result, in
      row order, or the error of the first row that has none. */
  function Collect<T>(rs: seq<Result<T>>): (r: Result<seq<T>>)
    ensures r.Ok? <==> forall i :: 0 <= i < |rs| ==> rs[i].Ok?
    ensures r.Ok? ==> |r.value| == |rs| && forall i :: 0 <= i < |rs| ==> rs[i] == Ok(r.value[i])
    ensures r.Err? ==> exists i :: (0 <= i < |rs| && rs[i] == Err(r.error)
      && forall j :: 0 <= j < i ==> rs[j].Ok?)
  {
    if rs == [] then Ok([])
    else
      assert forall i :: 1 <= i < |rs| ==> rs[i] == rs[1..][i - 1];
      match rs[0]
      case Err(e) => Err(e)
      case Ok(d) =>
        match Collect(rs[1..])
        case Err(e) =>
          var i :| 0 <= i < |rs[1..]| && rs[1..][i] == Err(e) && forall j :: 0 <= j < i ==> rs[1..][j].Ok?;
          assert rs[i + 1] == Err(e);
          Err(e)
        case Ok(ds) => Ok([d] + ds)
  }

  /** `df.apply(compute_dominant, axis=1)`: one result per row, in row order,
      when every row has one; otherwise the error of the first row that fails. */
  function DominantRows(rows: seq<Row>, cols: seq<string>): (r: Result<seq<Dominant>>)
    ensures r.Ok? <==> forall i :: 0 <= i < |rows| ==> DominantOf(rows[i], cols).Ok?
    ensures r.Ok? ==> |r.value| == |rows|
    ensures r.Ok? ==> forall i :: 0 <= i < |rows| ==> DominantOf(rows[i], cols) == Ok(r.value[i])
    ensures r.Err? ==> exists i :: (0 <= i < |rows| && DominantOf(rows[i], cols) == Err(r.error)
      && forall j :: 0 <= j < i ==> DominantOf(rows[j], cols).Ok?)
  {
    var rs := seq(|rows|, i requires 0 <= i < |rows| => DominantOf(rows[i], cols));
    assert forall i :: 0 <= i < |rows| ==> rs[i] == DominantOf(rows[i], cols);
    Collect(rs)
  }

  // ---------------------------------------------------------------------
  // `map_df`, the emphasis flag and the opacity

  /** The tooltip text of the top three; `pct` is the `:.1%` formatting. */
  function TopThreeText(top3: seq<Entry>, pct: Option<real> -> string): (r: string)
    ensures top3 == [] <==> r == []
    ensures top3 != [] ==> |r| > |top3[0].0| && r[..|top3[0].0| + 1] == top3[0].0 + ":"
    decreases |top3|
  {
    if top3 == [] then ""
    else
      var item := top3[0].0 + ":" + pct(top3[0].1);
      if |top3| == 1 then item else item + " / " + TopThreeText(top3[1..], pct)
  }

  /** One row of `map_df`: the country, the dominant type and ratio, and the
      tooltip text. */
  function MapRow(d: Dominant, pct: Option<real> -> string): (r: Row)
    ensures r.Keys == {"Country", TopType, TopRatio, TopThree}
    ensures Get(r, "Country") == d.country && Get(r, TopType) == Text(d.top)
    ensures Get(r, TopRatio) == Num(d.topValue) && Get(r, TopThree) == Text(TopThreeText(d.top3, pct))
  {
    map["Country" := d.country, TopType := Text(d.top), TopRatio := Num(d.topValue),
        TopThree := Text(TopThreeText(d.top3, pct))]
  }

  /** `map_df`: the four columns of `compute_dominant`, one row per country. */
  function MapFrame(ds: seq<Dominant>, pct: Option<real> -> string): (r: Frame)
    ensures |r.rows| == |ds|
    ensures forall i :: 0 <= i < |ds| ==> (Get(r.rows[i], "Country") == ds[i].country
      && Get(r.rows[i], TopType) == Text(ds[i].top) && Get(r.rows[i], TopRatio) == Num(ds[i].topValue))
  {
    Frame([Column("Country", false), Column(TopType, false), Column(TopRatio, true), Column(TopThree, false)],
          seq(|ds|, i requires 0 <= i < |ds| => MapRow(ds[i], pct)))
  }

  /** Line 51: with an empty selection every country is emphasised (1);
      otherwise exactly those whose dominant type is selected are (1), the
      others not (0). */
  function EmphasisFlags(ds: seq<Dominant>, highlight: seq<string>): (r: seq<Cell>)
    ensures |r| == |ds|
    ensures forall i :: 0 <= i < |ds| ==> r[i] == Num(1.0) || r[i] == Num(0.0)
    ensures highlight == [] ==> forall i :: 0 <= i < |ds| ==> r[i] == Num(1.0)
    ensures highlight != [] ==> forall i :: 0 <= i < |ds| ==> (r[i] == Num(1.0) <==> ds[i].top in highlight)
  {
    seq(|ds|, i requires 0 <= i < |ds| => if highlight == [] || ds[i].top in highlight then Num(1.0) else Num(0.0))
  }

  /** Line 71: the opacity series. With a selection the flag is mapped through
      {1: 0.95, 0: 0.6} (anything else would map to NaN); without one every
      entry is 0.95. */
  function Opacity(flags: seq<Cell>, highlight: seq<string>): (r: seq<Option<real>>)
    ensures |r| == |flags|
    ensures highlight == [] ==> forall i :: 0 <= i < |flags| ==> r[i] == Some(0.95)
    ensures highlight != [] ==> forall i :: 0 <= i < |flags| ==>
      && (flags[i] == Num(1.0) ==> r[i] == Some(0.95))
      && (flags[i] == Num(0.0) ==> r[i] == Some(0.6))
  {
    seq(|flags|, i requires 0 <= i < |flags| =>
      if highlight == [] then Some(0.95)
      else if flags[i] == Num(1.0) then Some(0.95)
      else if flags[i] == Num(0.0) then Some(0.6)
      else None)
  }

  /** The page from the loaded table to the map's data: `map_df` with its
      emphasis column, and the opacity series of line 71. */
  method ShowMap(df: Frame, highlight: seq<string>, pct: Option<real> -> string)
    returns (r: Result<(Frame, seq<Option<real>>)>)
    ensures !Has(df, "Country") ==> r == Err(MissingCountry)
    ensures Has(df, "Country") ==> (r.Err? <==> DominantRows(df.rows, TypeColumns(df.columns)).Err?)
    ensures r.Err? && Has(df, "Country") ==> r.error == DominantRows(df.rows, TypeColumns(df.columns)).error
    ensures r.Ok? ==> (DominantRows(df.rows, TypeColumns(df.columns)).Ok?
      && Shown(r.value.0, r.value.1, DominantRows(df.rows, TypeColumns(df.columns)).value, highlight))
  {
    if !Has(df, "Country") {
      return Err(MissingCountry);
    }
    var dominant := DominantRows(df.rows, TypeColumns(df.columns));
    if dominant.Err? {
      return Err(dominant.error);
    }
    var m, opacity := BuildMap(dominant.value, highlight, pct);
    r := Ok((m, opacity));
  }

  /** `map_df` from the per-country results, the emphasis column added in
      place (line 51), and the opacity read from it (line 71). */
  method BuildMap(ds: seq<Dominant>, highlight: seq<string>, pct: Option<real> -> string)
    returns (m: Frame, opacity: seq<Option<real>>)
    ensures Shown(m, opacity, ds, highlight)
  {
    var mapT := new Table(MapFrame(ds, pct));
    var flags := EmphasisFlags(ds, highlight);
    mapT.SetColumn(Column(Emphasis, true), flags);
    assert Cells(mapT.rows, Emphasis) == flags;
    opacity := Opacity(Cells(mapT.rows, Emphasis), highlight);
    m := mapT.Value();
  }

  /** The map's data: one row per country, in order, with its name, its
      dominant type and ratio, the emphasis flag, and the opacity series of
      line 71, 0.95 at emphasised countries and 0.6 at the others. */
  predicate Shown(m: Frame, opacity: seq<Option<real>>, ds: seq<Dominant>, highlight: seq<string>)
  {
    && |m.rows| == |ds| && |opacity| == |ds|
    && forall i :: 0 <= i < |ds| ==>
      var emphasised := highlight == [] || ds[i].top in highlight;
      && Get(m.rows[i], "Country") == ds[i].country
      && Get(m.rows[i], TopType) == Text(ds[i].top)
      && Get(m.rows[i], TopRatio) == Num(ds[i].topValue)
      && Get(m.rows[i], Emphasis) == Num(if emphasised then 1.0 else 0.0)
      && opacity[i] == Some(if emphasised then 0.95 else 0.6)
  }
}
