/** The expected outputs of the colour-harvesting tests, derived from the model. */
module ChromachipperExamples {
  import opened Strings
  import opened Chromachipper

  lemma ThreeDigitRewrite()
    ensures Rewrite("#0ef") == "#0ef"
  {
    var s := "#0ef";
    assert Replace(s[4..], "0x", "#") == [];
    assert Replace(s[3..], "0x", "#") == "f";
    assert Replace(s[2..], "0x", "#") == "ef";
    assert Replace(s[1..], "0x", "#") == "0ef";
  }

  lemma ThreeDigitScan()
    ensures FindAll("#0ef") == ["#0ef"]
  {
    var s := "#0ef";
    assert MatchLen(s, 0) == 4;
    assert MatchStarts(s, 0) == [0];
    assert s[0..4] == s;
  }

  lemma ThreeDigitLine()
    ensures FindAll("#0ef") != [] && LineColours("#0ef") == ["#00eeff"]
  {
    ThreeDigitScan();
    assert NormalizeHex("#0ef") == "#00eeff";
  }

  /** `#0ef` is one colour, each digit doubled. */
  lemma ThreeDigitColour()
    ensures Harvest("#0ef") == [["#00eeff"]]
  {
    ThreeDigitRewrite();
    HarvestSingleLine("#0ef");
    ThreeDigitLine();
  }

  /** `0x0ef` is read as `#0ef`. */
  lemma ThreeDigitHexNotation()
    ensures Harvest("0x0ef") == [["#00eeff"]]
  {
    var s := "0x0ef";
    assert Replace(s[2..], "0x", "#") == "0ef" by {
      assert s[2..] == "0ef";
      ThreeDigitRewrite();
      assert "#0ef"[1..] == "0ef";
    }
    assert Rewrite(s) == "#0ef";
    NotationEquivalent(s);
    ThreeDigitColour();
  }

  lemma SixDigitRewrite()
    ensures Rewrite("#663399") == "#663399"
  {
    var s := "#663399";
    assert Replace(s[7..], "0x", "#") == [];
    assert Replace(s[6..], "0x", "#") == "9";
    assert Replace(s[5..], "0x", "#") == "99";
    assert Replace(s[4..], "0x", "#") == "399";
    assert Replace(s[3..], "0x", "#") == "3399";
    assert Replace(s[2..], "0x", "#") == "63399";
    assert Replace(s[1..], "0x", "#") == "663399";
  }

  lemma SixDigitScan()
    ensures FindAll("#663399") == ["#663399"]
  {
    var s := "#663399";
    assert MatchLen(s, 0) == 7;
    assert MatchStarts(s, 0) == [0];
    assert s[0..7] == s;
  }

  lemma SixDigitLine()
    ensures FindAll("#663399") != [] && LineColours("#663399") == ["#663399"]
  {
    SixDigitScan();
    assert NormalizeHex("#663399") == "#663399";
  }

  /** The six-digit alternative wins: `#663399` is not read as `#663`. */
  lemma SixDigitColour()
    ensures Harvest("#663399") == [["#663399"]]
  {
    var s := "#663399";
    SixDigitRewrite();
    HarvestSingleLine(s);
    SixDigitLine();
  }

  lemma FiveDigitRewrite()
    ensures Rewrite("#ff000") == "#ff000"
  {
    var s := "#ff000";
    assert Replace(s[6..], "0x", "#") == [];
    assert Replace(s[5..], "0x", "#") == "0";
    assert Replace(s[4..], "0x", "#") == "00";
    assert Replace(s[3..], "0x", "#") == "000";
    assert Replace(s[2..], "0x", "#") == "f000";
    assert Replace(s[1..], "0x", "#") == "ff000";
  }

  lemma FiveDigitScan()
    ensures FindAll("#ff000") == []
  {
    var s := "#ff000";
    assert MatchLen(s, 0) == 0;
    NoMarkerNoMatch(s, 1);
  }

  /** `#ff0` followed by the word character `0` is no match, so `#ff000` holds none. */
  lemma FiveDigitNoColour()
    ensures Harvest("#ff000") == []
  {
    var s := "#ff000";
    FiveDigitRewrite();
    HarvestSingleLine(s);
    FiveDigitScan();
  }

  lemma AdjacentRewrite()
    ensures Rewrite("#d00#bar") == "#d00#bar"
  {
    var s := "#d00#bar";
    assert Replace(s[8..], "0x", "#") == [];
    assert Replace(s[7..], "0x", "#") == "r";
    assert Replace(s[6..], "0x", "#") == "ar";
    assert Replace(s[5..], "0x", "#") == "bar";
    assert Replace(s[4..], "0x", "#") == "#bar";
    assert Replace(s[3..], "0x", "#") == "0#bar";
    assert Replace(s[2..], "0x", "#") == "00#bar";
    assert Replace(s[1..], "0x", "#") == "d00#bar";
  }

  lemma AdjacentScan()
    ensures FindAll("#d00#bar") == ["#d00"]
  {
    var s := "#d00#bar";
    assert MatchLen(s, 0) == 4;
    assert !IsHexDigit(s[7]);
    assert MatchLen(s, 4) == 0;
    NoMarkerNoMatch(s, 5);
    assert MatchStarts(s, 0) == [0];
    assert s[0..4] == "#d00";
  }

  lemma AdjacentLine()
    ensures FindAll("#d00#bar") != [] && LineColours("#d00#bar") == ["#dd0000"]
  {
    AdjacentScan();
    assert NormalizeHex("#d00") == "#dd0000";
  }

  /** `#d00` ends at the `#` of `#bar`, which is no colour itself. */
  lemma AdjacentColours()
    ensures Harvest("#d00#bar") == [["#dd0000"]]
  {
    AdjacentRewrite();
    HarvestSingleLine("#d00#bar");
    AdjacentLine();
  }
}
