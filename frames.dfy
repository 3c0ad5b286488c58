/** The table model shared by the three pages: a data frame is an ordered list
    of named columns and a list of rows, each row mapping column names to cells.
    Missing values (NaN) are `Blank`. */
module Frames {

  datatype Option<T> = None | Some(value: T)

  /** The ways the pages stop or fail. */
  datatype Error =
    | KeyError(column: string)  // a column looked up by name is absent
    | MergeError                // `validate="m:1"`: a key repeats on the right-hand side
    | KeyTypeMismatch           // merging a text key column with a numeric one
    | MissingCountry            // the MBTI table has no "Country" column
    | NoIndicatorColumn         // the GNP table has no GNP-like column
    | EmptyArgmax               // `idxmax` over a row with no value present
    | TypeError                 // arithmetic on text
    | NotUnique(column: string) // sorting by a label two columns share

  datatype Result<T> = Ok(value: T) | Err(error: Error)

  datatype Cell = Num(x: real) | Text(s: string) | Blank

  /** A column header: its name and whether pandas gave it a numeric dtype. */
  datatype Column = Column(name: string, numeric: bool)

  type Row = map<string, Cell>

  datatype Frame = Frame(columns: seq<Column>, rows: seq<Row>)

  /** The numeric value of a cell; text and missing cells have none. */
  function Value(c: Cell): Option<real> {
    if c.Num? then Some(c.x) else None
  }

  function Names(cols: seq<Column>): (r: seq<string>)
    ensures |r| == |cols|
    ensures forall i :: 0 <= i < |cols| ==> r[i] == cols[i].name
  {
    seq(|cols|, i requires 0 <= i < |cols| => cols[i].name)
  }

  lemma NamesAppend(a: seq<Column>, b: seq<Column>)
    ensures Names(a + b) == Names(a) + Names(b)
  {
  }

  predicate Has(f: Frame, name: string) {
    name in Names(f.columns)
  }

  /** The cell of a row under a column name; a row that lacks the name reads as missing. */
  function Get(r: Row, name: string): Cell {
    if name in r then r[name] else Blank
  }

  /** The cells of one column, top to bottom. */
  function Cells(rows: seq<Row>, name: string): (r: seq<Cell>)
    ensures |r| == |rows|
    ensures forall i :: 0 <= i < |r| ==> r[i] == Get(rows[i], name)
  {
    seq(|rows|, i requires 0 <= i < |rows| => Get(rows[i], name))
  }

  /** The header of a column that exists. */
  function ColumnNamed(cols: seq<Column>, name: string): (c: Column)
    requires name in Names(cols)
    ensures c in cols && c.name == name
  {
    if cols[0].name == name then cols[0] else ColumnNamed(cols[1..], name)
  }

  /** The first name of `names` the frame lacks, if any. */
  function FirstMissing(f: Frame, names: seq<string>): (r: Option<string>)
    ensures r.None? <==> forall n :: n in names ==> Has(f, n)
    ensures r.Some? ==> r.value in names && !Has(f, r.value)
  {
    if names == [] then None
    else if !Has(f, names[0]) then Some(names[0])
    else FirstMissing(f, names[1..])
  }

  function Restrict(r: Row, names: seq<string>): Row {
    map n | n in names && n in r :: r[n]
  }

  lemma RestrictGet(r: Row, names: seq<string>, n: string)
    requires n in names
    ensures Get(Restrict(r, names), n) == Get(r, n)
  {
  }

  /** `df[names]`: the listed columns in the listed order, or a `KeyError`
      naming a column that is absent. */
  function Select(f: Frame, names: seq<string>): (r: Result<Frame>)
    ensures r.Err? <==> exists n :: n in names && !Has(f, n)
    ensures r.Err? ==> r.error.KeyError? && r.error.column in names && !Has(f, r.error.column)
    ensures r.Ok? ==> Names(r.value.columns) == names && |r.value.rows| == |f.rows|
    ensures r.Ok? ==> forall i, n :: 0 <= i < |f.rows| && n in names ==> Get(r.value.rows[i], n) == Get(f.rows[i], n)
    ensures r.Ok? ==> forall i :: 0 <= i < |f.rows| ==> r.value.rows[i] == Restrict(f.rows[i], names)
    ensures r.Ok? ==> forall i :: 0 <= i < |names| ==> Has(f, names[i]) && r.value.columns[i] == ColumnNamed(f.columns, names[i])
  {
    match FirstMissing(f, names)
    case Some(n) => Err(KeyError(n))
    case None =>
      assert forall i :: 0 <= i < |names| ==> Has(f, names[i]);
      var cols := seq(|names|, i requires 0 <= i < |names| => ColumnNamed(f.columns, names[i]));
      var rows := seq(|f.rows|, i requires 0 <= i < |f.rows| => Restrict(f.rows[i], names));
      Ok(Frame(cols, rows))
  }

  function RenameColumns(cols: seq<Column>, from: string, to: string): (r: seq<Column>)
    ensures |r| == |cols|
    ensures forall i :: 0 <= i < |cols| ==> r[i] == if cols[i].name == from then cols[i].(name := to) else cols[i]
  {
    seq(|cols|, i requires 0 <= i < |cols| => if cols[i].name == from then cols[i].(name := to) else cols[i])
  }

  function RenameRow(r: Row, from: string, to: string): Row {
    (r - {from})[to := Get(r, from)]
  }

  lemma RenamedHas(cols: seq<Column>, from: string, to: string)
    ensures from in Names(cols) ==> to in Names(RenameColumns(cols, from, to))
    ensures from != to ==> from !in Names(RenameColumns(cols, from, to))
    ensures forall n :: n != from && n != to ==> (n in Names(RenameColumns(cols, from, to)) <==> n in Names(cols))
  {
    if from in Names(cols) {
      var k :| 0 <= k < |cols| && Names(cols)[k] == from;
      assert Names(RenameColumns(cols, from, to))[k] == to;
    }
  }

  /** `df.rename(columns={from: to})`: the column keeps its place and its cells
      and no column keeps the old name; a frame without `from` is returned
      unchanged. */
  function Rename(f: Frame, from: string, to: string): (r: Frame)
    ensures |r.rows| == |f.rows|
    ensures Has(f, from) ==> Has(r, to)
    ensures from != to ==> !Has(r, from)
    ensures forall n :: n != from && n != to ==> (Has(r, n) <==> Has(f, n))
    ensures Has(f, from) ==> forall i :: 0 <= i < |f.rows| ==> Get(r.rows[i], to) == Get(f.rows[i], from)
    ensures forall i, n :: 0 <= i < |f.rows| && n != from && n != to ==> Get(r.rows[i], n) == Get(f.rows[i], n)
    ensures !Has(f, from) ==> r == f
  {
    RenamedHas(f.columns, from, to);
    if Has(f, from) then
      Frame(RenameColumns(f.columns, from, to), seq(|f.rows|, i requires 0 <= i < |f.rows| => RenameRow(f.rows[i], from, to)))
    else
      f
  }

  /** A rename leaves the cells of every other column as they were. */
  lemma RenameKeepsCells(f: Frame, from: string, to: string, name: string)
    requires name != from && name != to
    ensures Cells(Rename(f, from, to).rows, name) == Cells(f.rows, name)
  {
    var r := Rename(f, from, to);
    assert forall i :: 0 <= i < |f.rows| ==> Get(r.rows[i], name) == Get(f.rows[i], name);
  }

  /** The header list after `df[col.name] = ...`: replaced in place, or appended. */
  function PutColumn(cols: seq<Column>, col: Column): (r: seq<Column>)
    ensures col.name in Names(r)
    ensures forall n :: n in Names(cols) ==> n in Names(r)
    ensures col.name in Names(cols) ==> |r| == |cols|
    ensures col.name !in Names(cols) ==> r == cols + [col]
    ensures forall c :: c in r && c.name == col.name ==> c == col
  {
    if col.name in Names(cols) then
      var r := seq(|cols|, i requires 0 <= i < |cols| => if cols[i].name == col.name then col else cols[i]);
      PutColumnHas(cols, col, r);
      r
    else
      assert Names(cols + [col])[|cols|] == col.name;
      assert Names(cols + [col]) == Names(cols) + [col.name];
      cols + [col]
  }

  lemma PutColumnHas(cols: seq<Column>, col: Column, r: seq<Column>)
    requires col.name in Names(cols) && |r| == |cols|
    requires forall i :: 0 <= i < |cols| ==> r[i] == if cols[i].name == col.name then col else cols[i]
    ensures col.name in Names(r)
  {
    var k :| 0 <= k < |cols| && Names(cols)[k] == col.name;
    assert Names(r)[k] == col.name;
  }

  /** The rows after `df[name] = cells`: row `i` gets `cells[i]` under `name`. */
  function PutCells(rows: seq<Row>, name: string, cells: seq<Cell>): (r: seq<Row>)
    requires |cells| == |rows|
    ensures |r| == |rows|
    ensures forall i :: 0 <= i < |r| ==> Get(r[i], name) == cells[i]
    ensures forall i, n :: 0 <= i < |r| && n != name ==> Get(r[i], n) == Get(rows[i], n)
  {
    seq(|rows|, i requires 0 <= i < |rows| => rows[i][name := cells[i]])
  }

  /** `df[col.name] = cells`: an existing column is overwritten in place, a new
      one is appended at the right; every other cell stays as it was. */
  function WithColumn(f: Frame, col: Column, cells: seq<Cell>): (r: Frame)
    requires |cells| == |f.rows|
    ensures |r.rows| == |f.rows| && Has(r, col.name)
    ensures forall n :: Has(f, n) ==> Has(r, n)
    ensures forall i :: 0 <= i < |cells| ==> Get(r.rows[i], col.name) == cells[i]
    ensures forall i, n :: 0 <= i < |cells| && n != col.name ==> Get(r.rows[i], n) == Get(f.rows[i], n)
    ensures Has(f, col.name) ==> |r.columns| == |f.columns|
    ensures !Has(f, col.name) ==> r.columns == f.columns + [col]
  {
    Frame(PutColumn(f.columns, col), PutCells(f.rows, col.name, cells))
  }

  /** A data frame the page script updates in place, one column assignment at a time. */
  class Table {
    var columns: seq<Column>
    var rows: seq<Row>

    function Value(): Frame
      reads this
    {
      Frame(columns, rows)
    }

    constructor (f: Frame)
      ensures Value() == f
    {
      columns := f.columns;
      rows := f.rows;
    }

    /** `df[col.name] = cells`. */
    method SetColumn(col: Column, cells: seq<Cell>)
      requires |cells| == |rows|
      modifies this
      ensures Value() == WithColumn(old(Value()), col, cells)
    {
      var f := WithColumn(Value(), col, cells);
      columns := f.columns;
      rows := f.rows;
    }
  }
}
