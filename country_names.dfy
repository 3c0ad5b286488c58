/** Country-name normalisation before the join (pages/04_GNP.py, lines 22-58):
    whitespace clean-up, then a whole-string lookup in a fixed alias table. */
module CountryNames {
  import opened Whitespace

  /** The alias table: common short names mapped to the names the indicator data uses. */
  const AliasTable: map<string, string> := map[
    "United States" := "United States of America",
    "Russia" := "Russian Federation",
    "South Korea" := "Korea, Republic of",
    "North Korea" := "Korea, Democratic People's Republic of",
    "Vietnam" := "Viet Nam",
    "Czech Republic" := "Czechia",
    "Ivory Coast" := "Côte d'Ivoire",
    "Tanzania" := "United Republic of Tanzania",
    "Syria" := "Syrian Arab Republic",
    "Macau" := "Macao",
    "Hong Kong" := "Hong Kong SAR, China",
    "Iran" := "Iran, Islamic Republic of",
    "Moldova" := "Moldova, Republic of",
    "Laos" := "Lao People's Democratic Republic",
    "Bolivia" := "Bolivia (Plurinational State of)",
    "Venezuela" := "Venezuela (Bolivarian Republic of)",
    "Brunei" := "Brunei Darussalam",
    "Cape Verde" := "Cabo Verde",
    "Congo (Kinshasa)" := "Congo, the Democratic Republic of the",
    "Congo (Brazzaville)" := "Congo",
    "Micronesia" := "Micronesia, Federated States of",
    "The Bahamas" := "Bahamas",
    "Gambia" := "Gambia, The",
    "Eswatini" := "Swaziland",
    "Burma" := "Myanmar",
    "Kyrgyzstan" := "Kyrgyz Republic"
  ]

  /** Entry by entry: the mapped name is clean and is not a key of the table. */
  lemma Alias0(k: string)
    requires k == "United States"
    ensures IsClean(AliasTable[k]) && AliasTable[k] !in AliasTable
  {
    assert AliasTable[k] == "United States of America";
    Plain0();
    PlainTextIsClean("United States of America");
    NotKey0();
  }

  lemma Plain0()
    ensures PlainText("United States of America")
  {
  }

  lemma NotKey0()
    ensures "United States of America" !in AliasTable
  {
  }

  lemma Alias1(k: string)
    requires k == "Russia"
    ensures IsClean(AliasTable[k]) && AliasTable[k] !in AliasTable
  {
    assert AliasTable[k] == "Russian Federation";
    Plain1();
    PlainTextIsClean("Russian Federation");
    NotKey1();
  }

  lemma Plain1()
    ensures PlainText("Russian Federation")
  {
  }

  lemma NotKey1()
    ensures "Russian Federation" !in AliasTable
  {
  }

  lemma Alias2(k: string)
    requires k == "South Korea"
    ensures IsClean(AliasTable[k]) && AliasTable[k] !in AliasTable
  {
    assert AliasTable[k] == "Korea, Republic of";
    Plain2();
    PlainTextIsClean("Korea, Republic of");
    NotKey2();
  }

  lemma Plain2()
    ensures PlainText("Korea, Republic of")
  {
  }

  lemma NotKey2()
    ensures "Korea, Republic of" !in AliasTable
  {
  }

  lemma Alias3(k: string)
    requires k == "North Korea"
    ensures IsClean(AliasTable[k]) && AliasTable[k] !in AliasTable
  {
    assert AliasTable[k] == "Korea, Democratic People's Republic of";
    Plain3();
    PlainTextIsClean("Korea, Democratic People's Republic of");
    NotKey3();
  }

  lemma Plain3()
    ensures PlainText("Korea, Democratic People's Republic of")
  {
  }

  lemma NotKey3()
    ensures "Korea, Democratic People's Republic of" !in AliasTable
  {
  }

  lemma Alias4(k: string)
    requires k == "Vietnam"
    ensures IsClean(AliasTable[k]) && AliasTable[k] !in AliasTable
  {
    assert AliasTable[k] == "Viet Nam";
    Plain4();
    PlainTextIsClean("Viet Nam");
    NotKey4();
  }

  lemma Plain4()
    ensures PlainText("Viet Nam")
  {
  }

  lemma NotKey4()
    ensures "Viet Nam" !in AliasTable
  {
  }

  lemma Alias5(k: string)
    requires k == "Czech Republic"
    ensures IsClean(AliasTable[k]) && AliasTable[k] !in AliasTable
  {
    assert AliasTable[k] == "Czechia";
    Plain5();
    PlainTextIsClean("Czechia");
    NotKey5();
  }

  lemma Plain5()
    ensures PlainText("Czechia")
  {
  }

  lemma NotKey5()
    ensures "Czechia" !in AliasTable
  {
  }

  lemma Alias6(k: string)
    requires k == "Ivory Coast"
    ensures IsClean(AliasTable[k]) && AliasTable[k] !in AliasTable
  {
    assert AliasTable[k] == "Côte d'Ivoire";
    Plain6();
    PlainTextIsClean("Côte d'Ivoire");
    NotKey6();
  }

  lemma Plain6()
    ensures PlainText("Côte d'Ivoire")
  {
  }

  lemma NotKey6()
    ensures "Côte d'Ivoire" !in AliasTable
  {
  }

  lemma Alias7(k: string)
    requires k == "Tanzania"
    ensures IsClean(AliasTable[k]) && AliasTable[k] !in AliasTable
  {
    assert AliasTable[k] == "United Republic of Tanzania";
    Plain7();
    PlainTextIsClean("United Republic of Tanzania");
    NotKey7();
  }

  lemma Plain7()
    ensures PlainText("United Republic of Tanzania")
  {
  }

  lemma NotKey7()
    ensures "United Republic of Tanzania" !in AliasTable
  {
  }

  lemma Alias8(k: string)
    requires k == "Syria"
    ensures IsClean(AliasTable[k]) && AliasTable[k] !in AliasTable
  {
    assert AliasTable[k] == "Syrian Arab Republic";
    Plain8();
    PlainTextIsClean("Syrian Arab Republic");
    NotKey8();
  }

  lemma Plain8()
    ensures PlainText("Syrian Arab Republic")
  {
  }

  lemma NotKey8()
    ensures "Syrian Arab Republic" !in AliasTable
  {
  }

  lemma Alias9(k: string)
    requires k == "Macau"
    ensures IsClean(AliasTable[k]) && AliasTable[k] !in AliasTable
  {
    assert AliasTable[k] == "Macao";
    Plain9();
    PlainTextIsClean("Macao");
    NotKey9();
  }

  lemma Plain9()
    ensures PlainText("Macao")
  {
  }

  lemma NotKey9()
    ensures "Macao" !in AliasTable
  {
  }

  lemma Alias10(k: string)
    requires k == "Hong Kong"
    ensures IsClean(AliasTable[k]) && AliasTable[k] !in AliasTable
  {
    assert AliasTable[k] == "Hong Kong SAR, China";
    Plain10();
    PlainTextIsClean("Hong Kong SAR, China");
    NotKey10();
  }

  lemma Plain10()
    ensures PlainText("Hong Kong SAR, China")
  {
  }

  lemma NotKey10()
    ensures "Hong Kong SAR, China" !in AliasTable
  {
  }

  lemma Alias11(k: string)
    requires k == "Iran"
    ensures IsClean(AliasTable[k]) && AliasTable[k] !in AliasTable
  {
    assert AliasTable[k] == "Iran, Islamic Republic of";
    Plain11();
    PlainTextIsClean("Iran, Islamic Republic of");
    NotKey11();
  }

  lemma Plain11()
    ensures PlainText("Iran, Islamic Republic of")
  {
  }

  lemma NotKey11()
    ensures "Iran, Islamic Republic of" !in AliasTable
  {
  }

  lemma Alias12(k: string)
    requires k == "Moldova"
    ensures IsClean(AliasTable[k]) && AliasTable[k] !in AliasTable
  {
    assert AliasTable[k] == "Moldova, Republic of";
    Plain12();
    PlainTextIsClean("Moldova, Republic of");
    NotKey12();
  }

  lemma Plain12()
    ensures PlainText("Moldova, Republic of")
  {
  }

  lemma NotKey12()
    ensures "Moldova, Republic of" !in AliasTable
  {
  }

  lemma Alias13(k: string)
    requires k == "Laos"
    ensures IsClean(AliasTable[k]) && AliasTable[k] !in AliasTable
  {
    assert AliasTable[k] == "Lao People's Democratic Republic";
    Plain13();
    PlainTextIsClean("Lao People's Democratic Republic");
    NotKey13();
  }

  lemma Plain13()
    ensures PlainText("Lao People's Democratic Republic")
  {
  }

  lemma NotKey13()
    ensures "Lao People's Democratic Republic" !in AliasTable
  {
  }

  lemma Alias14(k: string)
    requires k == "Bolivia"
    ensures IsClean(AliasTable[k]) && AliasTable[k] !in AliasTable
  {
    assert AliasTable[k] == "Bolivia (Plurinational State of)";
    Plain14();
    PlainTextIsClean("Bolivia (Plurinational State of)");
    NotKey14();
  }

  lemma Plain14()
    ensures PlainText("Bolivia (Plurinational State of)")
  {
  }

  lemma NotKey14()
    ensures "Bolivia (Plurinational State of)" !in AliasTable
  {
  }

  lemma Alias15(k: string)
    requires k == "Venezuela"
    ensures IsClean(AliasTable[k]) && AliasTable[k] !in AliasTable
  {
    assert AliasTable[k] == "Venezuela (Bolivarian Republic of)";
    Plain15();
    PlainTextIsClean("Venezuela (Bolivarian Republic of)");
    NotKey15();
  }

  lemma Plain15()
    ensures PlainText("Venezuela (Bolivarian Republic of)")
  {
  }

  lemma NotKey15()
    ensures "Venezuela (Bolivarian Republic of)" !in AliasTable
  {
  }

  lemma Alias16(k: string)
    requires k == "Brunei"
    ensures IsClean(AliasTable[k]) && AliasTable[k] !in AliasTable
  {
    assert AliasTable[k] == "Brunei Darussalam";
    Plain16();
    PlainTextIsClean("Brunei Darussalam");
    NotKey16();
  }

  lemma Plain16()
    ensures PlainText("Brunei Darussalam")
  {
  }

  lemma NotKey16()
    ensures "Brunei Darussalam" !in AliasTable
  {
  }

  lemma Alias17(k: string)
    requires k == "Cape Verde"
    ensures IsClean(AliasTable[k]) && AliasTable[k] !in AliasTable
  {
    assert AliasTable[k] == "Cabo Verde";
    Plain17();
    PlainTextIsClean("Cabo Verde");
    NotKey17();
  }

  lemma Plain17()
    ensures PlainText("Cabo Verde")
  {
  }

  lemma NotKey17()
    ensures "Cabo Verde" !in AliasTable
  {
  }

  lemma Alias18(k: string)
    requires k == "Congo (Kinshasa)"
    ensures IsClean(AliasTable[k]) && AliasTable[k] !in AliasTable
  {
    assert AliasTable[k] == "Congo, the Democratic Republic of the";
    Plain18();
    PlainTextIsClean("Congo, the Democratic Republic of the");
    NotKey18();
  }

  lemma Plain18()
    ensures PlainText("Congo, the Democratic Republic of the")
  {
  }

  lemma NotKey18()
    ensures "Congo, the Democratic Republic of the" !in AliasTable
  {
  }

  lemma Alias19(k: string)
    requires k == "Congo (Brazzaville)"
    ensures IsClean(AliasTable[k]) && AliasTable[k] !in AliasTable
  {
    assert AliasTable[k] == "Congo";
    Plain19();
    PlainTextIsClean("Congo");
    NotKey19();
  }

  lemma Plain19()
    ensures PlainText("Congo")
  {
  }

  lemma NotKey19()
    ensures "Congo" !in AliasTable
  {
  }

  lemma Alias20(k: string)
    requires k == "Micronesia"
    ensures IsClean(AliasTable[k]) && AliasTable[k] !in AliasTable
  {
    assert AliasTable[k] == "Micronesia, Federated States of";
    Plain20();
    PlainTextIsClean("Micronesia, Federated States of");
    NotKey20();
  }

  lemma Plain20()
    ensures PlainText("Micronesia, Federated States of")
  {
  }

  lemma NotKey20()
    ensures "Micronesia, Federated States of" !in AliasTable
  {
  }

  lemma Alias21(k: string)
    requires k == "The Bahamas"
    ensures IsClean(AliasTable[k]) && AliasTable[k] !in AliasTable
  {
    assert AliasTable[k] == "Bahamas";
    Plain21();
    PlainTextIsClean("Bahamas");
    NotKey21();
  }

  lemma Plain21()
    ensures PlainText("Bahamas")
  {
  }

  lemma NotKey21()
    ensures "Bahamas" !in AliasTable
  {
  }

  lemma Alias22(k: string)
    requires k == "Gambia"
    ensures IsClean(AliasTable[k]) && AliasTable[k] !in AliasTable
  {
    assert AliasTable[k] == "Gambia, The";
    Plain22();
    PlainTextIsClean("Gambia, The");
    NotKey22();
  }

  lemma Plain22()
    ensures PlainText("Gambia, The")
  {
  }

  lemma NotKey22()
    ensures "Gambia, The" !in AliasTable
  {
  }

  lemma Alias23(k: string)
    requires k == "Eswatini"
    ensures IsClean(AliasTable[k]) && AliasTable[k] !in AliasTable
  {
    assert AliasTable[k] == "Swaziland";
    Plain23();
    PlainTextIsClean("Swaziland");
    NotKey23();
  }

  lemma Plain23()
    ensures PlainText("Swaziland")
  {
  }

  lemma NotKey23()
    ensures "Swaziland" !in AliasTable
  {
  }

  lemma Alias24(k: string)
    requires k == "Burma"
    ensures IsClean(AliasTable[k]) && AliasTable[k] !in AliasTable
  {
    assert AliasTable[k] == "Myanmar";
    Plain24();
    PlainTextIsClean("Myanmar");
    NotKey24();
  }

  lemma Plain24()
    ensures PlainText("Myanmar")
  {
  }

  lemma NotKey24()
    ensures "Myanmar" !in AliasTable
  {
  }

  lemma Alias25(k: string)
    requires k == "Kyrgyzstan"
    ensures IsClean(AliasTable[k]) && AliasTable[k] !in AliasTable
  {
    assert AliasTable[k] == "Kyrgyz Republic";
    Plain25();
    PlainTextIsClean("Kyrgyz Republic");
    NotKey25();
  }

  lemma Plain25()
    ensures PlainText("Kyrgyz Republic")
  {
  }

  lemma NotKey25()
    ensures "Kyrgyz Republic" !in AliasTable
  {
  }

  /** Every mapped name is clean and is not a key of the table, so a second
      lookup never changes it. */
  lemma AliasTableClosed(k: string)
    requires k in AliasTable
    ensures IsClean(AliasTable[k]) && AliasTable[k] !in AliasTable
  {
    if k == "United States" {
      Alias0(k);
    } else if k == "Russia" {
      Alias1(k);
    } else if k == "South Korea" {
      Alias2(k);
    } else if k == "North Korea" {
      Alias3(k);
    } else if k == "Vietnam" {
      Alias4(k);
    } else if k == "Czech Republic" {
      Alias5(k);
    } else if k == "Ivory Coast" {
      Alias6(k);
    } else if k == "Tanzania" {
      Alias7(k);
    } else if k == "Syria" {
      Alias8(k);
    } else if k == "Macau" {
      Alias9(k);
    } else if k == "Hong Kong" {
      Alias10(k);
    } else if k == "Iran" {
      Alias11(k);
    } else if k == "Moldova" {
      Alias12(k);
    } else if k == "Laos" {
      Alias13(k);
    } else if k == "Bolivia" {
      Alias14(k);
    } else if k == "Venezuela" {
      Alias15(k);
    } else if k == "Brunei" {
      Alias16(k);
    } else if k == "Cape Verde" {
      Alias17(k);
    } else if k == "Congo (Kinshasa)" {
      Alias18(k);
    } else if k == "Congo (Brazzaville)" {
      Alias19(k);
    } else if k == "Micronesia" {
      Alias20(k);
    } else if k == "The Bahamas" {
      Alias21(k);
    } else if k == "Gambia" {
      Alias22(k);
    } else if k == "Eswatini" {
      Alias23(k);
    } else if k == "Burma" {
      Alias24(k);
    } else {
      assert k == "Kyrgyzstan";
      Alias25(k);
    }
  }

  /** `normalize_country_name` on one name: whitespace clean-up, then a
      whole-string alias lookup. The result is always clean and never a key of
      the table; a cleaned name that is a key becomes its mapped name, any other
      cleaned name passes through unchanged. */
  function NormalizeName(s: string): (r: string)
    ensures IsClean(r) && r !in AliasTable
    ensures Clean(s) in AliasTable ==> r == AliasTable[Clean(s)]
    ensures Clean(s) !in AliasTable ==> r == Clean(s) && NonSpace(r) == NonSpace(s)
  {
    var c := Clean(s);
    if c in AliasTable then
      AliasTableClosed(c);
      AliasTable[c]
    else
      c
  }

  /** Normalising twice is normalising once. */
  lemma NormalizeIdempotent(s: string)
    ensures NormalizeName(NormalizeName(s)) == NormalizeName(s)
  {
    CleanKeepsClean(NormalizeName(s));
  }

  lemma {:induction false} TrimEndPadded(t: string, q: string)
    requires AllSpace(q) && (t == [] || !IsSpace(t[|t| - 1]))
    ensures TrimEnd(t + q) == t
  {
    if q == [] {
      assert t + q == t;
    } else {
      var q' := q[..|q| - 1];
      assert (t + q)[..|t + q| - 1] == t + q';
      TrimEndPadded(t, q');
    }
  }

  /** Whitespace around a clean name does not prevent a match: the padded name
      normalises exactly as the bare one. */
  lemma NormalizePadded(p: string, c: string, q: string)
    requires AllSpace(p) && AllSpace(q) && IsClean(c)
    ensures NormalizeName(p + c + q) == if c in AliasTable then AliasTable[c] else c
  {
    assert p + c + q == p + (c + q);
    if c == [] {
      assert c + q == q;
      TrimStartPadded(p + q, []);
      assert p + q + [] == p + q;
      assert AllSpace(p + q);
    } else {
      TrimStartPadded(p, c + q);
      TrimEndPadded(c, q);
    }
    CleanKeepsClean(c);
  }

  /** The column form: one normalised name per input name, in the same order. */
  function NormalizeColumn(names: seq<string>): (r: seq<string>)
    ensures |r| == |names|
    ensures forall i :: 0 <= i < |r| ==> r[i] == NormalizeName(names[i])
    ensures forall i :: 0 <= i < |r| ==> IsClean(r[i]) && r[i] !in AliasTable
  {
    seq(|names|, i requires 0 <= i < |names| => NormalizeName(names[i]))
  }

  /** Normalising an already normalised column changes nothing. */
  lemma NormalizeColumnIdempotent(names: seq<string>)
    ensures NormalizeColumn(NormalizeColumn(names)) == NormalizeColumn(names)
  {
    var once := NormalizeColumn(names);
    forall i | 0 <= i < |once|
      ensures NormalizeName(once[i]) == once[i]
    {
      NormalizeIdempotent(names[i]);
    }
  }
}
