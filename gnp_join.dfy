/** The preparation and join steps of the GNP page (pages/04_GNP.py, lines
    118-169): which columns are analysed, the normalised country key, the
    many-to-one inner join on it, the matched/unmatched key report and the
    optional log transform of the indicator. */
module GnpJoin {
  import opened Frames
  import opened CountryNames

  /** `mbti_cols`: the columns other than "Country" that have a numeric dtype,
      in column order. */
  function MbtiColumns(cols: seq<Column>): (r: seq<string>)
    ensures forall n :: n in r <==> exists c :: c in cols && c.name == n && n != "Country" && c.numeric
  {
    if cols == [] then []
    else
      var rest := MbtiColumns(cols[1..]);
      assert forall c :: c in cols <==> c == cols[0] || c in cols[1..];
      (if cols[0].name != "Country" && cols[0].numeric then [cols[0].name] else []) + rest
  }

  /** Column order is kept: the selection distributes over concatenation. */
  lemma {:induction false} MbtiColumnsAppend(a: seq<Column>, b: seq<Column>)
    ensures MbtiColumns(a + b) == MbtiColumns(a) + MbtiColumns(b)
  {
    if a == [] {
      assert a + b == b;
    } else {
      assert (a + b)[1..] == a[1..] + b;
      MbtiColumnsAppend(a[1..], b);
    }
  }

  /** The six indicator names, compared after lower-casing. */
  const IndicatorNames: seq<string> := ["gnp", "gnp_per_capita", "gni", "gni_per_capita", "gdp", "gdp_per_capita"]

  function LowerChar(c: char): char {
    if 'A' <= c <= 'Z' then (c as int + 32) as char else c
  }

  /** `str.lower()` restricted to ASCII letters, which decides membership in
      `IndicatorNames` exactly as the full Unicode mapping does. */
  function Lower(s: string): (r: string)
    ensures |r| == |s| && forall i :: 0 <= i < |s| ==> r[i] == LowerChar(s[i])
  {
    seq(|s|, i requires 0 <= i < |s| => LowerChar(s[i]))
  }

  predicate IsIndicator(name: string) {
    Lower(name) in IndicatorNames
  }

  /** `candidate_y`: the GNP columns whose lower-cased name is one of the six, in
      column order. */
  function IndicatorCandidates(cols: seq<Column>): (r: seq<string>)
    ensures forall n :: n in r <==> exists c :: c in cols && c.name == n && IsIndicator(n)
  {
    if cols == [] then []
    else
      var rest := IndicatorCandidates(cols[1..]);
      assert forall c :: c in cols <==> c == cols[0] || c in cols[1..];
      (if IsIndicator(cols[0].name) then [cols[0].name] else []) + rest
  }

  lemma {:induction false} IndicatorCandidatesAppend(a: seq<Column>, b: seq<Column>)
    ensures IndicatorCandidates(a + b) == IndicatorCandidates(a) + IndicatorCandidates(b)
  {
    if a == [] {
      assert a + b == b;
    } else {
      assert (a + b)[1..] == a[1..] + b;
      IndicatorCandidatesAppend(a[1..], b);
    }
  }

  /** The indicator the sidebar offers at `index`: the page stops when there is
      no candidate, and the default `index` 0 is the first candidate. */
  function ChooseIndicator(cols: seq<Column>, index: nat): (r: Result<string>)
    requires index == 0 || index < |IndicatorCandidates(cols)|
    ensures r.Err? <==> !exists c :: c in cols && IsIndicator(c.name)
    ensures r.Err? ==> r.error == NoIndicatorColumn
    ensures r.Ok? ==> IsIndicator(r.value) && exists c :: c in cols && c.name == r.value
    ensures r.Ok? ==> index < |IndicatorCandidates(cols)| && r.value == IndicatorCandidates(cols)[index]
  {
    var cands := IndicatorCandidates(cols);
    if cands == [] then
      assert forall c :: c in cols && IsIndicator(c.name) ==> c.name in cands;
      Err(NoIndicatorColumn)
    else
      assert cands[0] in cands;
      Ok(cands[index])
  }

  /** The default pick is the leftmost indicator column. */
  lemma DefaultIsLeftmost(cols: seq<Column>, k: nat)
    requires k < |cols| && IsIndicator(cols[k].name)
    requires forall j :: 0 <= j < k ==> !IsIndicator(cols[j].name)
    ensures ChooseIndicator(cols, 0) == Ok(cols[k].name)
  {
    assert cols == cols[..k] + cols[k..];
    IndicatorCandidatesAppend(cols[..k], cols[k..]);
    NoIndicatorPrefix(cols[..k]);
  }

  lemma {:induction false} NoIndicatorPrefix(cols: seq<Column>)
    requires forall j :: 0 <= j < |cols| ==> !IsIndicator(cols[j].name)
    ensures IndicatorCandidates(cols) == []
  {
    if cols != [] {
      NoIndicatorPrefix(cols[1..]);
    }
  }

  /** `astype(str)` of a "Country" cell: text stays, a missing value prints as
      "nan", a number as the given float formatting prints it. */
  function AsText(c: Cell, showNum: real -> string): (r: string)
    ensures c.Text? ==> r == c.s
    ensures c.Blank? ==> r == "nan"
  {
    match c
    case Text(s) => s
    case Blank => "nan"
    case Num(x) => showNum(x)
  }

  /** `normalize_country_name(df["Country"])`: one normalised name per row, in
      row order. */
  function CountryKeys(f: Frame, showNum: real -> string): (r: seq<Cell>)
    ensures |r| == |f.rows|
    ensures forall i :: 0 <= i < |r| ==> r[i] == Text(NormalizeName(AsText(Get(f.rows[i], "Country"), showNum)))
  {
    seq(|f.rows|, i requires 0 <= i < |f.rows| => Text(NormalizeName(AsText(Get(f.rows[i], "Country"), showNum))))
  }

  /** Every key is a clean name that is not an alias: normalising it again
      changes nothing. */
  lemma CountryKeysNormalized(f: Frame, showNum: real -> string, i: nat)
    requires i < |f.rows|
    ensures var k := CountryKeys(f, showNum)[i];
      k.Text? && NormalizeName(k.s) == k.s
  {
    NormalizeIdempotent(AsText(Get(f.rows[i], "Country"), showNum));
  }

  // ---------------------------------------------------------------------
  // The join

  predicate HasDuplicate(ks: seq<Cell>) {
    exists i, j :: 0 <= i < j < |ks| && ks[i] == ks[j]
  }

  function KeySet(ks: seq<Cell>): set<Cell> {
    set k | k in ks
  }

  /** The first right-hand row whose key equals `k`. */
  function Lookup(rights: seq<Row>, key: string, k: Cell): (r: Option<Row>)
    ensures r.Some? <==> k in KeySet(Cells(rights, key))
    ensures r.Some? ==> r.value in rights && Get(r.value, key) == k
  {
    if rights == [] then None
    else if Get(rights[0], key) == k then Some(rights[0])
    else
      var r := Lookup(rights[1..], key, k);
      assert Cells(rights, key) == [Get(rights[0], key)] + Cells(rights[1..], key);
      r
  }

  /** The inner join of the rows, in left-hand order: each left row whose key
      occurs on the right yields one row holding both sides' cells. */
  function JoinRows(lefts: seq<Row>, rights: seq<Row>, key: string): (r: seq<Row>)
    ensures |r| <= |lefts|
    ensures forall row :: row in r ==> Get(row, key) in KeySet(Cells(lefts, key))
    ensures forall row :: row in r ==> Get(row, key) in KeySet(Cells(rights, key))
  {
    if lefts == [] then []
    else
      var rest := JoinRows(lefts[1..], rights, key);
      assert Cells(lefts, key) == [Get(lefts[0], key)] + Cells(lefts[1..], key);
      match Lookup(rights, key, Get(lefts[0], key))
      case None => rest
      case Some(m) => [lefts[0] + m] + rest
  }

  /** Names of the right-hand columns kept beside the left-hand ones. */
  function RightColumns(cols: seq<Column>, key: string): (r: seq<Column>)
    ensures forall c :: c in r <==> c in cols && c.name != key
  {
    if cols == [] then []
    else
      assert forall c :: c in cols <==> c == cols[0] || c in cols[1..];
      (if cols[0].name != key then [cols[0]] else []) + RightColumns(cols[1..], key)
  }

  /** pandas' default `suffixes=("_x", "_y")`: a non-key name on both sides is
      renamed on each side before the frames are put together. */
  function Suffixed(left: Frame, right: Frame, names: seq<string>): (r: (Frame, Frame))
    ensures |r.0.rows| == |left.rows| && |r.1.rows| == |right.rows|
    decreases |names|
  {
    if names == [] then (left, right)
    else Suffixed(Rename(left, names[0], names[0] + "_x"), Rename(right, names[0], names[0] + "_y"), names[1..])
  }

  /** A key column pandas infers as text-like: one with no rows, or one
      holding some text. */
  predicate TextLike(ks: seq<Cell>) {
    ks == [] || exists i :: 0 <= i < |ks| && ks[i].Text?
  }

  /** pandas' check of the key dtypes, made before anything else: a numeric
      key column cannot be merged with a non-numeric one whose values are
      text-like, unless exactly one of the two frames has no rows. */
  predicate KeyTypesClash(left: Frame, right: Frame, key: string)
    requires Has(left, key) && Has(right, key)
  {
    var ln, rn := ColumnNamed(left.columns, key).numeric, ColumnNamed(right.columns, key).numeric;
    && ln != rn
    && (|left.rows| == 0 <==> |right.rows| == 0)
    && TextLike(Cells(if ln then right.rows else left.rows, key))
  }

  /** When pandas' key-dtype check refuses a merge: never for keys of the
      same dtype, never when exactly one side has no rows, and always for a
      numeric key against a key column holding text when both sides have
      rows. */
  lemma KeyTypesClashCases(left: Frame, right: Frame, key: string)
    requires Has(left, key) && Has(right, key)
    ensures ColumnNamed(left.columns, key).numeric == ColumnNamed(right.columns, key).numeric ==>
      !KeyTypesClash(left, right, key)
    ensures (|left.rows| == 0) != (|right.rows| == 0) ==> !KeyTypesClash(left, right, key)
    ensures (|left.rows| > 0 && |right.rows| > 0 && ColumnNamed(left.columns, key).numeric
             && !ColumnNamed(right.columns, key).numeric && Get(right.rows[0], key).Text?) ==> KeyTypesClash(left, right, key)
    ensures (|left.rows| > 0 && |right.rows| > 0 && !ColumnNamed(left.columns, key).numeric
             && ColumnNamed(right.columns, key).numeric && Get(left.rows[0], key).Text?) ==> KeyTypesClash(left, right, key)
  {
    if |right.rows| > 0 && Get(right.rows[0], key).Text? {
      assert Cells(right.rows, key)[0].Text?;
    }
    if |left.rows| > 0 && Get(left.rows[0], key).Text? {
      assert Cells(left.rows, key)[0].Text?;
    }
  }

  /** `pd.merge(left, right, on=key, how="inner", validate="m:1")`. A text key
      against a numeric one is refused first; then the many-to-one check looks
      at the whole right-hand key column: a repeated key fails the merge even
      when it matches nothing on the left. */
  function Merge(left: Frame, right: Frame, key: string): (r: Result<Frame>)
    ensures !Has(left, key) ==> r == Err(KeyError(key))
    ensures Has(left, key) && !Has(right, key) ==> r == Err(KeyError(key))
    ensures Has(left, key) && Has(right, key) ==> (r == Err(KeyTypeMismatch) <==> KeyTypesClash(left, right, key))
    ensures Has(left, key) && Has(right, key) ==>
      (r == Err(MergeError) <==> !KeyTypesClash(left, right, key) && HasDuplicate(Cells(right.rows, key)))
    ensures r.Ok? ==> r.value.rows == JoinRows(Suffix(left, right, key).0.rows, Suffix(left, right, key).1.rows, key)
  {
    if !Has(left, key) || !Has(right, key) then Err(KeyError(key))
    else if KeyTypesClash(left, right, key) then Err(KeyTypeMismatch)
    else if HasDuplicate(Cells(right.rows, key)) then Err(MergeError)
    else
      var (l, rr) := Suffix(left, right, key);
      Ok(Frame(l.columns + RightColumns(rr.columns, key), JoinRows(l.rows, rr.rows, key)))
  }

  /** The non-key names the two frames share, in right-hand column order. */
  function Shared(ns: seq<string>, left: Frame, key: string): (r: seq<string>)
    ensures forall n :: n in r <==> n in ns && n != key && Has(left, n)
  {
    if ns == [] then []
    else
      assert forall n :: n in ns <==> n == ns[0] || n in ns[1..];
      (if ns[0] != key && Has(left, ns[0]) then [ns[0]] else []) + Shared(ns[1..], left, key)
  }

  function Suffix(left: Frame, right: Frame, key: string): (r: (Frame, Frame))
    ensures |r.0.rows| == |left.rows| && |r.1.rows| == |right.rows|
  {
    Suffixed(left, right, Shared(Names(right.columns), left, key))
  }

  /** A joined row carries the key of the left row it came from. */
  lemma JoinedKey(l: Row, m: Row, key: string)
    requires Get(m, key) == Get(l, key)
    ensures Get(l + m, key) == Get(l, key)
  {
  }

  /** The join keeps left-hand order: it distributes over concatenation. */
  lemma {:induction false} JoinRowsAppend(a: seq<Row>, b: seq<Row>, rights: seq<Row>, key: string)
    ensures JoinRows(a + b, rights, key) == JoinRows(a, rights, key) + JoinRows(b, rights, key)
  {
    if a == [] {
      assert a + b == b;
    } else {
      assert (a + b)[1..] == a[1..] + b;
      assert (a + b)[0] == a[0];
      JoinRowsAppend(a[1..], b, rights, key);
    }
  }

  /** The number of keys of `ks` that lie in `s`, counted with repetition. */
  function CountIn(ks: seq<Cell>, s: set<Cell>): (n: nat)
    ensures n <= |ks|
    ensures n == 0 <==> forall k :: k in ks ==> k !in s
  {
    if ks == [] then 0 else (if ks[0] in s then 1 else 0) + CountIn(ks[1..], s)
  }

  /** Every left row whose key occurs on the right yields exactly one joined
      row (duplicates on the left are all kept); the others yield none. */
  lemma {:induction false} JoinRowsCount(lefts: seq<Row>, rights: seq<Row>, key: string)
    ensures |JoinRows(lefts, rights, key)| == CountIn(Cells(lefts, key), KeySet(Cells(rights, key)))
  {
    if lefts != [] {
      assert Cells(lefts, key) == [Get(lefts[0], key)] + Cells(lefts[1..], key);
      JoinRowsCount(lefts[1..], rights, key);
    }
  }

  /** The positions of the keys that lie in `s`, in increasing order: the
      left rows an inner join keeps, each once. */
  function Matches(ks: seq<Cell>, s: set<Cell>): (r: seq<nat>)
    ensures |r| == CountIn(ks, s)
  {
    if ks == [] then [] else (if ks[0] in s then [0] else []) + Shift(Matches(ks[1..], s))
  }
  /** Every position one further along. */
  function Shift(xs: seq<nat>): (r: seq<nat>)
    ensures |r| == |xs| && forall i :: 0 <= i < |xs| ==> r[i] == xs[i] + 1
  {
    seq(|xs|, i requires 0 <= i < |xs| => xs[i] + 1)
  }
  /** The matching positions of a non-empty key column: position 0 when its
      first key matches, then those of the rest moved one along. */
  lemma MatchesCons(ks: seq<Cell>, s: set<Cell>, d: nat)
    requires ks != [] && d == (if ks[0] in s then 1 else 0)
    ensures var M, M' := Matches(ks, s), Matches(ks[1..], s);
      && |M| == d + |M'| && (d == 1 ==> M[0] == 0)
      && (forall i :: d <= i < |M| ==> M[i] == M'[i - d] + 1)
  {
    var M, M' := Matches(ks, s), Matches(ks[1..], s);
    var t := Shift(M');
    assert |M| == d + |M'| && (d == 1 ==> M[0] == 0) && M[d..] == t by {
      if d == 1 {
        assert M == [0] + t;
      } else {
        assert M == t;
      }
    }
    ShiftedTail(M, M', d);
  }
  /** A sequence whose tail from `d` is `Shift(M')` holds `M'[i - d] + 1` at
      each position `i` from `d` on. */
  lemma ShiftedTail(M: seq<nat>, M': seq<nat>, d: nat)
    requires |M| == d + |M'| && M[d..] == Shift(M')
    ensures forall i :: d <= i < |M| ==> M[i] == M'[i - d] + 1
  {
    forall i | d <= i < |M|
      ensures M[i] == M'[i - d] + 1
    {
      assert M[i] == M[d..][i - d];
    }
  }
  /** Each listed position holds a key of `s`. */
  lemma {:induction false} MatchesAt(ks: seq<Cell>, s: set<Cell>)
    ensures forall i :: 0 <= i < |Matches(ks, s)| ==> Matches(ks, s)[i] < |ks| && ks[Matches(ks, s)[i]] in s
  {
    if ks != [] {
      var M, M' := Matches(ks, s), Matches(ks[1..], s);
      var d := if ks[0] in s then 1 else 0;
      MatchesAt(ks[1..], s);
      MatchesCons(ks, s, d);
      forall i | 0 <= i < |M|
        ensures M[i] < |ks| && ks[M[i]] in s
      {
        if i >= d {
          assert ks[M[i]] == ks[1..][M'[i - d]];
        }
      }
    }
  }
  /** The positions are listed in increasing order, so none twice. */
  lemma {:induction false} MatchesIncreasing(ks: seq<Cell>, s: set<Cell>)
    ensures forall i, j :: 0 <= i < j < |Matches(ks, s)| ==> Matches(ks, s)[i] < Matches(ks, s)[j]
  {
    if ks != [] {
      var M, M' := Matches(ks, s), Matches(ks[1..], s);
      var d := if ks[0] in s then 1 else 0;
      MatchesIncreasing(ks[1..], s);
      MatchesCons(ks, s, d);
      forall i, j | 0 <= i < j < |M|
        ensures M[i] < M[j]
      {
        if i >= d {
          assert M'[i - d] < M'[j - d];
        }
      }
    }
  }
  /** Every position whose key lies in `s` is listed. */
  lemma {:induction false} MatchesComplete(ks: seq<Cell>, s: set<Cell>)
    ensures forall j :: 0 <= j < |ks| && ks[j] in s ==> j in Matches(ks, s)
  {
    if ks != [] {
      var M, M' := Matches(ks, s), Matches(ks[1..], s);
      var d := if ks[0] in s then 1 else 0;
      MatchesComplete(ks[1..], s);
      MatchesCons(ks, s, d);
      forall j | 0 <= j < |ks| && ks[j] in s
        ensures j in M
      {
        if j == 0 {
          assert M[0] == 0;
        } else {
          assert ks[1..][j - 1] == ks[j];
          var i :| 0 <= i < |M'| && M'[i] == j - 1;
          assert M[i + d] == j;
        }
      }
    }
  }


  /** Row `j` of the left side, joined with the right row `Lookup` finds for
      its key. */
  predicate JoinedAt(row: Row, lefts: seq<Row>, rights: seq<Row>, key: string, j: int) {
    && 0 <= j < |lefts|
    && Lookup(rights, key, Get(lefts[j], key)).Some?
    && row == lefts[j] + Lookup(rights, key, Get(lefts[j], key)).value
  }

  /** The join keeps the matching left rows in order, each exactly once: its
      row `i` is the left row at the `i`-th matching position, joined with the
      right row of its key. */
  lemma {:induction false} JoinRowsAt(lefts: seq<Row>, rights: seq<Row>, key: string)
    ensures |JoinRows(lefts, rights, key)| == |Matches(Cells(lefts, key), KeySet(Cells(rights, key)))|
    ensures forall i :: 0 <= i < |JoinRows(lefts, rights, key)| ==>
      JoinedAt(JoinRows(lefts, rights, key)[i], lefts, rights, key, Matches(Cells(lefts, key), KeySet(Cells(rights, key)))[i])
  {
    JoinRowsCount(lefts, rights, key);
    if lefts != [] {
      var tail := lefts[1..];
      JoinRowsAt(tail, rights, key);
      var s := KeySet(Cells(rights, key));
      CellsTail(lefts, key);
      var r, rest := JoinRows(lefts, rights, key), JoinRows(tail, rights, key);
      var M, M' := Matches(Cells(lefts, key), s), Matches(Cells(tail, key), s);
      match Lookup(rights, key, Get(lefts[0], key))
      case None =>
        assert Get(lefts[0], key) !in s;
        assert r == [] + rest;
        assert M == [] + Shift(M');
        JoinedAtCons(lefts, rights, key, r, [], rest, M, M');
      case Some(m) =>
        assert Get(lefts[0], key) in s;
        assert r == [lefts[0] + m] + rest;
        assert JoinedAt(lefts[0] + m, lefts, rights, key, 0);
        assert M == [0] + Shift(M');
        JoinedAtCons(lefts, rights, key, r, [lefts[0] + m], rest, M, M');
    }
  }

  lemma CellsTail(rows: seq<Row>, key: string)
    requires rows != []
    ensures Cells(rows, key)[1..] == Cells(rows[1..], key) && Cells(rows, key)[0] == Get(rows[0], key)
  {
    assert Cells(rows, key) == [Get(rows[0], key)] + Cells(rows[1..], key);
  }

  /** The step of `JoinRowsAt`: a first row joined from left row 0, if any,
      followed by the rows of the rest, each at a position one along. */
  lemma JoinedAtCons(lefts: seq<Row>, rights: seq<Row>, key: string, r: seq<Row>, head: seq<Row>, rest: seq<Row>,
                     M: seq<nat>, M': seq<nat>)
    requires lefts != [] && |head| <= 1 && r == head + rest
    requires M == (if |head| == 1 then [0] else []) + Shift(M')
    requires |head| == 1 ==> JoinedAt(head[0], lefts, rights, key, 0)
    requires |rest| == |M'| && forall i :: 0 <= i < |rest| ==> JoinedAt(rest[i], lefts[1..], rights, key, M'[i])
    ensures |r| == |M| && forall i :: 0 <= i < |r| ==> JoinedAt(r[i], lefts, rights, key, M[i])
  {
    var d := |head|;
    forall i | 0 <= i < |r|
      ensures JoinedAt(r[i], lefts, rights, key, M[i])
    {
      if i >= d {
        assert r[i] == rest[i - d];
        assert M[i] == Shift(M')[i - d] == M'[i - d] + 1;
        JoinedAtShift(rest[i - d], lefts, rights, key, M'[i - d]);
      }
    }
  }

  /** Moving a left position one along past the first row. */
  lemma JoinedAtShift(row: Row, lefts: seq<Row>, rights: seq<Row>, key: string, j: int)
    requires lefts != [] && JoinedAt(row, lefts[1..], rights, key, j)
    ensures JoinedAt(row, lefts, rights, key, j + 1)
  {
    assert lefts[j + 1] == lefts[1..][j];
  }

  lemma KeySetCons(k: Cell, ks: seq<Cell>)
    ensures KeySet([k] + ks) == {k} + KeySet(ks)
  {
    assert forall x :: x in [k] + ks <==> x == k || x in ks;
  }

  /** The keys of the join are exactly the keys found on both sides. */
  lemma {:induction false} JoinRowsKeys(lefts: seq<Row>, rights: seq<Row>, key: string)
    ensures KeySet(Cells(JoinRows(lefts, rights, key), key)) == KeySet(Cells(lefts, key)) * KeySet(Cells(rights, key))
  {
    var r := JoinRows(lefts, rights, key);
    var right := KeySet(Cells(rights, key));
    if lefts == [] {
      assert Cells(r, key) == [];
    } else {
      var rest := JoinRows(lefts[1..], rights, key);
      var k := Get(lefts[0], key);
      JoinRowsKeys(lefts[1..], rights, key);
      var left' := KeySet(Cells(lefts[1..], key));
      assert Cells(lefts, key) == [k] + Cells(lefts[1..], key);
      KeySetCons(k, Cells(lefts[1..], key));
      match Lookup(rights, key, k)
      case None =>
        assert r == rest;
        assert k !in right;
        assert ({k} + left') * right == left' * right;
      case Some(m) =>
        JoinedKey(lefts[0], m, key);
        assert r == [lefts[0] + m] + rest;
        assert Cells(r, key) == [k] + Cells(rest, key);
        KeySetCons(k, Cells(rest, key));
        assert k in right;
        assert ({k} + left') * right == {k} + left' * right;
    }
  }

  /** Each joined row is a left row together with the one right row of the
      same key. */
  lemma {:induction false} JoinRowsFrom(lefts: seq<Row>, rights: seq<Row>, key: string, row: Row)
    requires row in JoinRows(lefts, rights, key)
    ensures exists l, m :: l in lefts && m in rights && Get(m, key) == Get(l, key) && row == l + m
  {
    var rest := JoinRows(lefts[1..], rights, key);
    match Lookup(rights, key, Get(lefts[0], key))
    case None =>
      JoinRowsFrom(lefts[1..], rights, key, row);
    case Some(m) =>
      if row != lefts[0] + m {
        JoinRowsFrom(lefts[1..], rights, key, row);
      }
  }

  /** A name no suffixed name can equal: it does not end in "_x" or "_y". */
  predicate SuffixFree(key: string) {
    |key| < 2 || (key[|key| - 2..] != "_x" && key[|key| - 2..] != "_y")
  }

  lemma SuffixedNameDiffers(n: string, key: string)
    requires SuffixFree(key)
    ensures n + "_x" != key && n + "_y" != key
  {
    assert (n + "_x")[|n|..] == "_x" && (n + "_y")[|n|..] == "_y";
  }

  /** Suffixing renames shared non-key columns only: the key cells of both
      frames are untouched. */
  lemma {:induction false} SuffixedKeepsKey(left: Frame, right: Frame, names: seq<string>, key: string)
    requires SuffixFree(key) && forall n :: n in names ==> n != key
    ensures Cells(Suffixed(left, right, names).0.rows, key) == Cells(left.rows, key)
    ensures Cells(Suffixed(left, right, names).1.rows, key) == Cells(right.rows, key)
    decreases |names|
  {
    if names != [] {
      var n := names[0];
      SuffixedNameDiffers(n, key);
      var l', r' := Rename(left, n, n + "_x"), Rename(right, n, n + "_y");
      assert n in names;
      RenameKeepsCells(left, n, n + "_x", key);
      RenameKeepsCells(right, n, n + "_y", key);
      assert forall m :: m in names[1..] ==> m in names;
      SuffixedKeepsKey(l', r', names[1..], key);
    }
  }

  /** When no non-key name is on both sides nothing is suffixed: the merge
      puts the right-hand columns after the left-hand ones and joins the rows
      as they are. */
  lemma MergeUnsuffixed(left: Frame, right: Frame, key: string)
    requires Merge(left, right, key).Ok? && Shared(Names(right.columns), left, key) == []
    ensures Merge(left, right, key).value.columns == left.columns + RightColumns(right.columns, key)
    ensures Merge(left, right, key).value.rows == JoinRows(left.rows, right.rows, key)
  {
  }

  /** The key column of a successful merge: its keys are those found on both
      sides, and there is one row per left row whose key the right side has. */
  lemma MergeKeys(left: Frame, right: Frame, key: string)
    requires SuffixFree(key) && Merge(left, right, key).Ok?
    ensures var rows := Merge(left, right, key).value.rows;
      && KeySet(Cells(rows, key)) == KeySet(Cells(left.rows, key)) * KeySet(Cells(right.rows, key))
      && |rows| == CountIn(Cells(left.rows, key), KeySet(Cells(right.rows, key)))
  {
    var s := Suffix(left, right, key);
    SuffixedKeepsKey(left, right, Shared(Names(right.columns), left, key), key);
    JoinRowsKeys(s.0.rows, s.1.rows, key);
    JoinRowsCount(s.0.rows, s.1.rows, key);
  }
}
