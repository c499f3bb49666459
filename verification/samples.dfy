/** Worked examples from the parsers' documentation: the accepted ones derived from the round
    trip, the rejected ones from where the scanner stops. */
module Samples {
  import opened Wrappers
  import opened Text
  import opened Numerals
  import opened Normalize
  import opened Store
  import opened Details

  /** The examples' numbers are far below the 4300 digits `int()` converts. */
  lemma FewDigits(n: nat)
    requires n < 10000000
    ensures n < Pow10(MaxStrDigits)
  {
    assert Pow10(7) == 10000000;
    Pow10Grows(7, MaxStrDigits);
  }

  lemma RenderMileage()
    ensures Render(Km, 8000) == "8.000 km"
  {
    assert Decimal(8) == "8";
    assert Pad3(0) == "000";
  }

  /** `'8.000 km'` is 8000 kilometres. */
  lemma MileageExample()
    ensures ParseKm("8.000 km") == Some(8000)
  {
    RenderMileage();
    FewDigits(8000);
    RenderThenParse(Km, 8000);
  }

  lemma RenderPower()
    ensures Render(Kw, 350) == "350 kW"
  {
    assert Decimal(3) == "3";
    assert Decimal(35) == "35";
    assert Decimal(350) == "350";
  }

  /** `'350 kW'` is 350 kilowatts. */
  lemma PowerExample()
    ensures ParseKw("350 kW") == Some(350)
  {
    RenderPower();
    FewDigits(350);
    RenderThenParse(Kw, 350);
  }

  lemma RenderPrice()
    ensures Render(Euro, 1000000) == "1.000.000 €"
  {
    assert Decimal(1) == "1";
    assert Pad3(0) == "000";
    assert FormatGrouped(1000) == "1.000";
  }

  /** `'1.000.000 €'` is one million euros. */
  lemma PriceExample()
    ensures ParsePriceEur("1.000.000 €") == Some(1000000)
  {
    RenderPrice();
    FewDigits(1000000);
    RenderThenParse(Euro, 1000000);
  }

  /** `'  3  '` is three previous owners: surrounding space is ignored. */
  lemma OwnersExample()
    ensures ParseInt("  3  ") == Some(3)
  {
    var s := "  3  ";
    assert Strip(s) == "3" by {
      assert s[2..3] == "3";
    }
    assert Decimal(3) == "3";
    ParseIntCanonical(s, 3);
  }

  /** `'01'` is rejected: a count never has a leading zero. */
  lemma LeadingZeroExample()
    ensures ParseInt("01") == None
  {
    StripKeeps("01");
    if ParseInt("01").Some? {
      var n := ParseInt("01").value;
      ParseIntCanonical("01", n);
      assert false;
    }
  }

  /** A previous-owners entry of `'01'` is kept as a feature whose number is missing. */
  lemma OwnersKeptUnparsed()
    ensures MapFeatures(map[Owners := "01"]) == map[Owners := Parsed(None)]
  {
    LeadingZeroExample();
  }

  /** `'49.547.50 €'` is rejected: its last group has two digits. */
  lemma ShortLastGroupExample()
    ensures ParsePriceEur("49.547.50 €") == None
  {
    var s := "49.547.50 €";
    RunEndIs(Space, s, 0, 0);
    RunEndIs(DigitOrDot, s, 0, 9);
    assert !IsGroupedToken(s[0..9]) by {
      assert s[0..9][1] == '9';
    }
  }

  /** `'€49.547'` is rejected: the number must come first. */
  lemma EuroFirstExample()
    ensures ParsePriceEur("€49.547") == None
  {
    var s := "€49.547";
    RunEndIs(Space, s, 0, 0);
    RunEndIs(DigitOrDot, s, 0, 0);
    assert s[0..0] == [];
  }

  /** `'8.00.0 km'` is rejected: a dot must be followed by exactly three digits. */
  lemma BadGroupingExample()
    ensures ParseKm("8.00.0 km") == None
  {
    var s := "8.00.0 km";
    RunEndIs(Space, s, 0, 0);
    RunEndIs(DigitOrDot, s, 0, 6);
    assert !IsGroupedToken(s[0..6]) by {
      assert s[0..6][2] == '0';
    }
  }

  /** `'350kw'` is rejected: the unit needs a space before it. */
  lemma GluedPowerExample()
    ensures ParseKw("350kw") == None
  {
    var s := "350kw";
    RunEndIs(Space, s, 0, 0);
    RunEndIs(DigitOrDot, s, 0, 3);
    RunEndIs(Space, s, 3, 3);
  }

  /** `'18mins'` is rejected: the unit needs a space before it. */
  lemma GluedMinutesExample()
    ensures ParseMinutes("18mins") == None
  {
    var s := "18mins";
    RunEndIs(Space, s, 0, 0);
    RunEndIs(DigitOrDot, s, 0, 2);
    RunEndIs(Space, s, 2, 2);
  }

  /** `str(10^4300)` is a count `int()` refuses to convert: its 4301 digits exceed the default
      limit, and the `ValueError` makes it `None`. */
  lemma TooManyDigitsExample()
    ensures ParseInt(Decimal(Pow10(MaxStrDigits))) == None
  {
    DecimalOfPower(MaxStrDigits);
    TooLongCountRejected(Pow10(MaxStrDigits));
  }
}
