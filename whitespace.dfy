/** Whitespace clean-up of country names, as `str.strip()` followed by
    `str.replace(r"\s+", " ", regex=True)` performs it (pages/04_GNP.py, line 28). */
module Whitespace {

  /** The characters Python's `str.isspace` accepts; `\s` in a `str` regex and
      `str.strip()` without arguments both use this class. */
  predicate IsSpace(c: char) {
    ('\t' <= c <= '\r') || ('\U{1C}' <= c <= '\U{1F}') || c == ' ' || c == '\U{85}' || c == '\U{A0}'
    || c == '\U{1680}' || ('\U{2000}' <= c <= '\U{200A}') || c == '\U{2028}' || c == '\U{2029}'
    || c == '\U{202F}' || c == '\U{205F}' || c == '\U{3000}'
  }

  predicate AllSpace(s: string) {
    forall i :: 0 <= i < |s| ==> IsSpace(s[i])
  }

  /** The non-whitespace characters of `s`, in order: what whitespace clean-up must keep. */
  function NonSpace(s: string): string {
    if s == [] then [] else (if IsSpace(s[0]) then [] else [s[0]]) + NonSpace(s[1..])
  }

  /** Every whitespace character is a plain blank and no two whitespace characters are adjacent. */
  ghost predicate SingleSpaced(s: string) {
    && (forall i :: 0 <= i < |s| && IsSpace(s[i]) ==> s[i] == ' ')
    && (forall i, j :: 0 <= i < j < |s| && j == i + 1 ==> !(IsSpace(s[i]) && IsSpace(s[j])))
  }

  /** The shape of every cleaned name: single-spaced, with no whitespace at either end. */
  ghost predicate IsClean(s: string) {
    SingleSpaced(s) && (s == [] || (!IsSpace(s[0]) && !IsSpace(s[|s| - 1])))
  }

  lemma {:induction false} NonSpaceAppend(a: string, b: string)
    ensures NonSpace(a + b) == NonSpace(a) + NonSpace(b)
  {
    if a == [] {
      assert a + b == b;
    } else {
      assert (a + b)[1..] == a[1..] + b;
      NonSpaceAppend(a[1..], b);
    }
  }

  lemma {:induction false} NonSpaceOfSpaces(s: string)
    requires AllSpace(s)
    ensures NonSpace(s) == []
  {
    if s != [] {
      NonSpaceOfSpaces(s[1..]);
    }
  }

  /** `lstrip()`: drops the leading whitespace and nothing else. */
  function TrimStart(s: string): (r: string)
    ensures |r| <= |s| && r == s[|s| - |r|..]
    ensures AllSpace(s[..|s| - |r|])
    ensures r == [] || !IsSpace(r[0])
  {
    if s != [] && IsSpace(s[0]) then
      var r := TrimStart(s[1..]);
      TrimStartStep(s, r);
      r
    else s
  }

  /** `rstrip()`: drops the trailing whitespace and nothing else. */
  function TrimEnd(s: string): (r: string)
    ensures |r| <= |s| && r == s[..|r|]
    ensures AllSpace(s[|r|..])
    ensures r == [] || !IsSpace(r[|r| - 1])
  {
    if s != [] && IsSpace(s[|s| - 1]) then
      var r := TrimEnd(s[..|s| - 1]);
      TrimEndStep(s, r);
      r
    else s
  }

  /** One leading whitespace character more is one more character trimmed. */
  lemma TrimStartStep(s: string, r: string)
    requires s != [] && IsSpace(s[0])
    requires var t := s[1..]; |r| <= |t| && r == t[|t| - |r|..] && AllSpace(t[..|t| - |r|])
    ensures |r| <= |s| && r == s[|s| - |r|..] && AllSpace(s[..|s| - |r|])
  {
    var t, k := s[1..], |s| - 1 - |r|;
    assert t[k..] == s[k + 1..];
    assert forall i :: 0 <= i < k ==> s[..k + 1][i + 1] == t[..k][i];
  }

  /** One trailing whitespace character more is one more character trimmed. */
  lemma TrimEndStep(s: string, r: string)
    requires s != [] && IsSpace(s[|s| - 1])
    requires var t := s[..|s| - 1]; |r| <= |t| && r == t[..|r|] && AllSpace(t[|r|..])
    ensures |r| <= |s| && r == s[..|r|] && AllSpace(s[|r|..])
  {
    var t, k := s[..|s| - 1], |r|;
    assert t[..k] == s[..k];
    assert forall i :: 0 <= i < |t| - k ==> s[k..][i] == t[k..][i];
  }

  /** `strip()`: whitespace cut off at both ends; the result neither starts nor
      ends with whitespace (the slice it is: `StripCutsOnlySpace`). */
  function Strip(s: string): (r: string)
    ensures |r| <= |s|
    ensures r == [] || (!IsSpace(r[0]) && !IsSpace(r[|r| - 1]))
  {
    TrimEnd(TrimStart(s))
  }

  /** What `strip()` removes is whitespace at the two ends, nothing else. */
  lemma StripCutsOnlySpace(s: string)
    ensures var r := Strip(s);
      exists i :: 0 <= i <= |s| - |r| && r == s[i..i + |r|] && AllSpace(s[..i]) && AllSpace(s[i + |r|..])
  {
    var t := TrimStart(s);
    var r := TrimEnd(t);
    var i := |s| - |t|;
    assert t == s[i..];
    assert r == s[i..i + |r|];
    assert s[i + |r|..] == t[|r|..];
  }

  lemma {:induction false} TrimStartKeepsNonSpace(s: string)
    ensures NonSpace(TrimStart(s)) == NonSpace(s)
  {
    if s != [] && IsSpace(s[0]) {
      TrimStartKeepsNonSpace(s[1..]);
    }
  }

  lemma {:induction false} TrimEndKeepsNonSpace(s: string)
    ensures NonSpace(TrimEnd(s)) == NonSpace(s)
  {
    if s != [] && IsSpace(s[|s| - 1]) {
      var init := s[..|s| - 1];
      TrimEndKeepsNonSpace(init);
      assert s == init + [s[|s| - 1]];
      NonSpaceAppend(init, [s[|s| - 1]]);
      assert NonSpace([s[|s| - 1]]) == [];
    }
  }

  /** Stripping keeps every non-whitespace character, in order. */
  lemma StripKeepsNonSpace(s: string)
    ensures NonSpace(Strip(s)) == NonSpace(s)
  {
    TrimStartKeepsNonSpace(s);
    TrimEndKeepsNonSpace(TrimStart(s));
  }

  /** `replace(r"\s+", " ", regex=True)`: every maximal run of whitespace becomes
      one blank. The result is empty only for the empty input, and it starts
      (ends) with whitespace exactly when the input does. */
  function Collapse(s: string): (r: string)
    ensures |r| <= |s| && (r == [] <==> s == [])
    ensures r != [] ==> (IsSpace(r[0]) <==> IsSpace(s[0])) && (IsSpace(r[|r| - 1]) <==> IsSpace(s[|s| - 1]))
    decreases |s|
  {
    if s == [] then []
    else if IsSpace(s[0]) then " " + Collapse(TrimStart(s))
    else [s[0]] + Collapse(s[1..])
  }

  /** Collapsing keeps every non-whitespace character, in order. */
  lemma {:induction false} CollapseKeepsNonSpace(s: string)
    ensures NonSpace(Collapse(s)) == NonSpace(s)
    decreases |s|
  {
    if s != [] {
      var r := Collapse(s);
      if IsSpace(s[0]) {
        var t := TrimStart(s);
        CollapseKeepsNonSpace(t);
        TrimStartKeepsNonSpace(s);
        assert r[1..] == Collapse(t);
      } else {
        CollapseKeepsNonSpace(s[1..]);
        assert r[1..] == Collapse(s[1..]);
      }
    }
  }

  lemma SingleSpacedCons(x: char, s: string)
    requires SingleSpaced(s)
    requires IsSpace(x) ==> x == ' ' && (s == [] || !IsSpace(s[0]))
    ensures SingleSpaced([x] + s)
  {
    var r := [x] + s;
    forall i, j | 0 <= i < j < |r| && j == i + 1
      ensures !(IsSpace(r[i]) && IsSpace(r[j]))
    {
      if i > 0 {
        assert r[i] == s[i - 1] && r[j] == s[j - 1];
      }
    }
  }

  /** After collapsing, whitespace is single blanks only. */
  lemma {:induction false} CollapseSingleSpaced(s: string)
    ensures SingleSpaced(Collapse(s))
    decreases |s|
  {
    if s != [] {
      if IsSpace(s[0]) {
        var t := TrimStart(s);
        CollapseSingleSpaced(t);
        SingleSpacedCons(' ', Collapse(t));
      } else {
        CollapseSingleSpaced(s[1..]);
        SingleSpacedCons(s[0], Collapse(s[1..]));
      }
    }
  }

  /** The whole clean-up: strip, then collapse. Its result is clean and keeps
      every non-whitespace character of the input, in order. */
  function Clean(s: string): (r: string)
    ensures IsClean(r)
    ensures NonSpace(r) == NonSpace(s)
  {
    var t := Strip(s);
    StripKeepsNonSpace(s);
    CollapseKeepsNonSpace(t);
    CollapseSingleSpaced(t);
    Collapse(t)
  }

  lemma SingleSpacedTail(s: string)
    requires s != [] && SingleSpaced(s)
    ensures SingleSpaced(s[1..])
    ensures IsSpace(s[0]) ==> s[0] == ' ' && (|s| == 1 || !IsSpace(s[1]))
  {
    var t := s[1..];
    forall i, j | 0 <= i < j < |t| && j == i + 1
      ensures !(IsSpace(t[i]) && IsSpace(t[j]))
    {
      assert t[i] == s[i + 1] && t[j] == s[j + 1];
    }
    if |s| > 1 {
      assert !(IsSpace(s[0]) && IsSpace(s[1]));
    }
  }

  lemma {:induction false} CollapseKeepsSingleSpaced(s: string)
    requires SingleSpaced(s)
    ensures Collapse(s) == s
    decreases |s|
  {
    if s != [] {
      var tail := s[1..];
      SingleSpacedTail(s);
      CollapseKeepsSingleSpaced(tail);
      if IsSpace(s[0]) {
        assert TrimStart(tail) == tail;
        assert TrimStart(s) == tail;
      }
      assert s == [s[0]] + tail;
    }
  }

  /** Clean-up changes nothing in a name that is already clean: a fixpoint. */
  lemma CleanKeepsClean(s: string)
    requires IsClean(s)
    ensures Clean(s) == s
  {
    assert TrimStart(s) == s;
    assert TrimEnd(s) == s;
    CollapseKeepsSingleSpaced(s);
  }

  /** Clean-up is idempotent. */
  lemma CleanIdempotent(s: string)
    ensures Clean(Clean(s)) == Clean(s)
  {
    CleanKeepsClean(Clean(s));
  }

  /** Leading whitespace in front of a text that does not start with
      whitespace is exactly what `lstrip()` removes. */
  lemma {:induction false} TrimStartPadded(p: string, t: string)
    requires AllSpace(p) && (t == [] || !IsSpace(t[0]))
    ensures TrimStart(p + t) == t
  {
    if p == [] {
      assert p + t == t;
    } else {
      assert (p + t)[1..] == p[1..] + t;
      TrimStartPadded(p[1..], t);
    }
  }

  /** `lstrip()` of a text with some non-whitespace character stops inside it. */
  lemma {:induction false} TrimStartPrefix(a: string, t: string)
    requires !AllSpace(a)
    ensures TrimStart(a + t) == TrimStart(a) + t
  {
    if IsSpace(a[0]) {
      assert (a + t)[1..] == a[1..] + t;
      var i :| 0 <= i < |a| && !IsSpace(a[i]);
      assert a[1..][i - 1] == a[i];
      TrimStartPrefix(a[1..], t);
    }
  }

  /** `\s+` → `" "` on a run: a non-empty run of whitespace between a part that
      does not end in whitespace and one that does not start with it becomes
      exactly one blank, and the parts on either side are collapsed on their
      own. */
  lemma {:induction false} CollapseRun(a: string, w: string, b: string)
    requires w != [] && AllSpace(w)
    requires a == [] || !IsSpace(a[|a| - 1])
    requires b == [] || !IsSpace(b[0])
    ensures Collapse(a + w + b) == Collapse(a) + " " + Collapse(b)
    decreases |a|
  {
    if a == [] {
      assert a + w + b == w + b;
      CollapseLeadingRun(w, b);
    } else if IsSpace(a[0]) {
      LeadShorter(a);
      CollapseRun(TrimStart(a), w, b);
      CollapseRunAfterLead(a, w, b);
    } else {
      TailShorter(a);
      CollapseRun(a[1..], w, b);
      CollapseRunAfterChar(a, w, b);
    }
  }

  lemma TailShorter(a: string)
    requires a != [] && !IsSpace(a[|a| - 1])
    ensures a[1..] == [] || !IsSpace(a[1..][|a[1..]| - 1])
  {
    if a[1..] != [] {
      assert a[1..][|a[1..]| - 1] == a[|a| - 1];
    }
  }

  lemma CollapseRunAfterChar(a: string, w: string, b: string)
    requires a != [] && !IsSpace(a[0])
    requires Collapse(a[1..] + w + b) == Collapse(a[1..]) + " " + Collapse(b)
    ensures Collapse(a + w + b) == Collapse(a) + " " + Collapse(b)
  {
    CollapseChar(a, w + b);
    CollapseChar(a, []);
    Assoc(a, w, b);
    Assoc(a[1..], w, b);
    assert a + [] == a && a[1..] + [] == a[1..];
    Glue([a[0]], Collapse(a[1..]), Collapse(b));
  }

  /** A first character that is not whitespace is kept as it is. */
  lemma CollapseChar(a: string, t: string)
    requires a != [] && !IsSpace(a[0])
    ensures Collapse(a + t) == [a[0]] + Collapse(a[1..] + t)
  {
    assert (a + t)[0] == a[0] && (a + t)[1..] == a[1..] + t;
  }

  lemma Glue(p: string, x: string, y: string)
    ensures p + (x + " " + y) == (p + x) + " " + y
  {
  }

  lemma CollapseLeadingRun(w: string, b: string)
    requires w != [] && AllSpace(w)
    requires b == [] || !IsSpace(b[0])
    ensures Collapse(w + b) == " " + Collapse(b)
  {
    assert (w + b)[0] == w[0];
    TrimStartPadded(w, b);
  }

  lemma LeadShorter(a: string)
    requires a != [] && IsSpace(a[0]) && !IsSpace(a[|a| - 1])
    ensures TrimStart(a) != [] && !IsSpace(TrimStart(a)[|TrimStart(a)| - 1]) && |TrimStart(a)| < |a|
  {
  }

  /** Leading whitespace of a text that is not all whitespace collapses to one
      blank in front of the rest. */
  lemma CollapseRunAfterLead(a: string, w: string, b: string)
    requires a != [] && IsSpace(a[0]) && !IsSpace(a[|a| - 1])
    requires Collapse(TrimStart(a) + w + b) == Collapse(TrimStart(a)) + " " + Collapse(b)
    ensures Collapse(a + w + b) == Collapse(a) + " " + Collapse(b)
  {
    var a' := TrimStart(a);
    CollapseLead(a, w + b);
    assert Collapse(a) == " " + Collapse(a');
    Assoc(a, w, b);
    Assoc(a', w, b);
    Glue(" ", Collapse(a'), Collapse(b));
  }

  /** Leading whitespace in front of some non-whitespace becomes one blank. */
  lemma CollapseLead(a: string, t: string)
    requires a != [] && IsSpace(a[0]) && !IsSpace(a[|a| - 1])
    ensures Collapse(a + t) == " " + Collapse(TrimStart(a) + t)
  {
    assert !AllSpace(a) by {
      assert !IsSpace(a[|a| - 1]);
    }
    TrimStartPrefix(a, t);
    assert (a + t)[0] == a[0];
  }

  lemma Assoc(a: string, w: string, b: string)
    ensures a + w + b == a + (w + b)
  {
  }

  /** The whole clean-up on two clean words with any whitespace between them
      gives the two words separated by one blank. */
  lemma CleanRun(a: string, w: string, b: string)
    requires IsClean(a) && IsClean(b) && a != [] && b != []
    requires w != [] && AllSpace(w)
    ensures Clean(a + w + b) == a + " " + b
  {
    var s := a + w + b;
    assert s[0] == a[0] && s[|s| - 1] == b[|b| - 1];
    assert TrimStart(s) == s;
    assert TrimEnd(s) == s;
    CollapseRun(a, w, b);
    CollapseKeepsSingleSpaced(a);
    CollapseKeepsSingleSpaced(b);
  }

  /** A character class that is cheap to check on a literal and never holds whitespace
      other than the blank: printable ASCII and the Latin-1 letters. */
  predicate Printable(c: char) {
    (' ' <= c <= '~') || ('\U{C0}' <= c <= '\U{FF}')
  }

  /** Printable text whose blanks are single and inside the text; used to check
      the literal names of the alias table. */
  ghost predicate PlainText(s: string) {
    && (forall i :: 0 <= i < |s| ==> Printable(s[i]))
    && (forall i, j :: 0 <= i < j < |s| && j == i + 1 ==> !(s[i] == ' ' && s[j] == ' '))
    && (s == [] || (s[0] != ' ' && s[|s| - 1] != ' '))
  }

  lemma PlainTextIsClean(s: string)
    requires PlainText(s)
    ensures IsClean(s)
  {
    forall i | 0 <= i < |s|
      ensures IsSpace(s[i]) <==> s[i] == ' '
    {
      assert Printable(s[i]);
    }
  }
}
