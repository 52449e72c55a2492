/**
 * Worked prices: what `extract_int` and the raw-markup search give on a few
 * representative texts.
 */
module PriceExamples {
  import opened Options
  import opened Text
  import opened Prices

  /** The search steps over a position that holds no digit. */
  lemma SearchSkipsNonDigit(h: string, i: nat)
    requires i < |h| && !IsDigit(h[i])
    ensures PriceSearch(h, i) == PriceSearch(h, i + 1)
  {
  }

  lemma Value1250()
    ensures IsDigitString("1250") && DecimalValue("1250") == 1250
  {
    assert "1250"[..3] == "125";
    Value125();
  }

  lemma Value12345()
    ensures IsDigitString("12345") && DecimalValue("12345") == 12345
  {
    assert "12345"[..4] == "1234";
    assert "1234"[..3] == "123";
    assert "123"[..2] == "12";
    assert "12"[..1] == "1";
    assert "1"[..0] == "";
  }

  lemma Value125()
    ensures IsDigitString("125") && DecimalValue("125") == 125
  {
    assert "125"[..2] == "12";
    assert "12"[..1] == "1";
    assert "1"[..0] == "";
  }

  lemma Value99()
    ensures IsDigitString("99") && DecimalValue("99") == 99
  {
    assert "99"[..1] == "9";
    assert "9"[..0] == "";
  }

  /** ".250" is one dot-separated group spelling 250. */
  lemma DotGroup()
    ensures IsGroups(".250") && "1" + RemoveSeps(".250") == "1250"
  {
    var g := ".250";
    assert IsSep(g[0]) && IsDigit(g[1]) && IsDigit(g[2]) && IsDigit(g[3]);
    assert g[1..] == "250";
    assert RemoveSeps(g) == "250";
  }

  /** " 345" is one space-separated group spelling 345. */
  lemma SpaceGroup()
    ensures IsGroups(" 345") && "12" + RemoveSeps(" 345") == "12345"
  {
    var g := " 345";
    assert IsSep(g[0]) && IsDigit(g[1]) && IsDigit(g[2]) && IsDigit(g[3]);
    assert g[1..] == "345";
    assert RemoveSeps(g) == "345";
  }

  /** A dot between thousands is a separator: "1.250 kr" is 1250. */
  lemma DottedThousands(s: string)
    requires s == "1.250 kr"
    ensures ExtractInt(Some(s)) == Some(1250)
  {
    var a, g, rest := "1", ".250", " kr";
    assert a + g + rest == s;
    DotGroup();
    WrittenNumberValue(a, g, rest);
    Value1250();
  }

  /** So is a space: "12 345" is 12345. */
  lemma SpacedThousands(s: string)
    requires s == "12 345"
    ensures ExtractInt(Some(s)) == Some(12345)
  {
    var a, g, rest := "12", " 345", "";
    assert a + g + rest == s;
    SpaceGroup();
    WrittenNumberValue(a, g, rest);
    Value12345();
  }

  /** Without a separator only the first three digits count: "1250" is 125. */
  lemma UnseparatedThousands()
    ensures ExtractInt(Some("1250")) == Some(125)
  {
    var a, g, rest := "125", "", "0";
    assert a + g + rest == "1250";
    WrittenNumberValue(a, g, rest);
    assert a + RemoveSeps(g) == "125";
    Value125();
  }

  /** "99kr." is 99. */
  lemma ShortPrice()
    ensures ExtractInt(Some("99kr.")) == Some(99)
  {
    var a, g, rest := "99", "", "kr.";
    assert a + g + rest == "99kr.";
    WrittenNumberValue(a, g, rest);
    assert a + RemoveSeps(g) == "99";
    Value99();
  }

  lemma MatchAt99Kr()
    ensures MatchEndAt("<b>99kr.</b>", 3) == Some(7)
  {
    var h := "<b>99kr.</b>";
    assert DigitRun(h, 5) == 0;
    assert DigitRun(h, 4) == 1;
    assert DigitRun(h, 3) == 2;
    assert !GroupAt(h, 5);
    assert SpaceEnd(h, 5) == 5;
    assert CurrencyAt(h, 5);
  }

  lemma SearchFrom3()
    ensures PriceSearch("<b>99kr.</b>", 3) == Some((3, 7))
  {
    MatchAt99Kr();
  }

  /** In the raw markup the search stops at the shortest currency marker: on
      "<b>99kr.</b>" it matches "99kr", without the dot. */
  lemma RawMatchStopsAtKr(h: string)
    requires h == "<b>99kr.</b>"
    ensures RawPriceMatch(h) == Some("99kr")
  {
    SearchFrom3();
    SearchSkipsNonDigit(h, 2);
    SearchSkipsNonDigit(h, 1);
    SearchSkipsNonDigit(h, 0);
    assert h[3..7] == "99kr";
  }
}
