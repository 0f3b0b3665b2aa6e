/** The mini-calendar day click: `const [y, m] = dateStr.split('-').map(Number);
    currentDate = new Date(y, m - 1, 1)`, as written and as intended. */
module Navigation {
  import opened Wrappers
  import opened Dates
  import opened DateFormat
  import JsText

  /** The intended jump: the month of the clicked date string, the year being everything before "-MM-DD". */
  function JumpTarget(dateStr: string): (r: Option<YearMonth>)
    ensures r.Some? ==> r.value.Valid()
  {
    match ParseDateStr(dateStr)
    case Some(d) => Some(d.Month())
    case None => None
  }

  /** Every formatted date string jumps to its own month. */
  lemma JumpTargetOfFormatted(d: CalDate)
    requires 0 <= d.month < 12 && 0 <= d.day <= 99
    ensures JumpTarget(FormatDate(d)) == Some(d.Month())
  {
    FormatParseRoundTrip(d);
  }

  /** The jump as the source computes it; None where `Number` yields NaN (an Invalid Date). */
  function JumpAsWritten(dateStr: string): Option<YearMonth> {
    var parts := JsText.Split(dateStr, '-');
    JumpOfNumbers(JsText.Number(parts[0]), if |parts| > 1 then JsText.Number(parts[1]) else None)
  }

  /** `new Date(y, m - 1, 1)` on the fields read by `Number`; an Invalid Date when either is NaN. */
  function JumpOfNumbers(y: Option<int>, m: Option<int>): Option<YearMonth> {
    if y.None? || m.None? then None else Some(DateConstructorMonth(y.value, m.value - 1))
  }

  /** What the source's jump computes once the first two fields of the split are read as numbers. */
  lemma JumpAsWrittenOf(s: string, y: int, m: int)
    requires |JsText.Split(s, '-')| >= 2
    requires JsText.Number(JsText.Split(s, '-')[0]) == Some(y)
    requires JsText.Number(JsText.Split(s, '-')[1]) == Some(m)
    ensures JumpAsWritten(s) == Some(DateConstructorMonth(y, m - 1))
  {
    var parts := JsText.Split(s, '-');
    assert JumpAsWritten(s) == JumpOfNumbers(Some(y), Some(m));
  }

  lemma Number2Digits(k: int)
    requires 0 <= k <= 99
    ensures JsText.Number(PadStart2(IntToString(k))) == Some(k)
  {
    var s := PadStart2(IntToString(k));
    Pad2RoundTrip(k);
    JsText.NumberOfDigits(s);
    ParseNatTwo(s);
  }

  /** A `Y-MM-DD` string whose fields hold no '-' splits into exactly those three fields. */
  lemma SplitThreeFields(ys: string, ms: string, ds: string)
    requires '-' !in ys && '-' !in ms && '-' !in ds
    ensures JsText.Split(ys + "-" + ms + "-" + ds, '-') == [ys, ms, ds]
  {
    assert ys + "-" + ms + "-" + ds == ys + ['-'] + (ms + ['-'] + ds);
    JsText.SplitLeadingField(ys, '-', ms + ['-'] + ds);
    JsText.SplitLeadingField(ms, '-', ds);
    JsText.SplitNoSeparator(ds, '-');
  }

  lemma NoDashInDigits(s: string)
    requires AllDigits(s)
    ensures '-' !in s
  {
    forall k | 0 <= k < |s| ensures s[k] != '-' {
      assert IsDigit(s[k]);
    }
  }

  /** For years from 100 on, the source's jump reaches the month of the clicked date. */
  lemma JumpAsWrittenAgrees(d: CalDate)
    requires d.year >= 100 && 0 <= d.month < 12 && 0 <= d.day <= 99
    ensures JumpAsWritten(FormatDate(d)) == Some(d.Month())
  {
    SplitFormatted(d);
    JsText.NumberOfDecimal(d.year);
    Number2Digits(d.month + 1);
    JumpAsWrittenOf(FormatDate(d), d.year, d.month + 1);
    MonthIndexInjective(DateConstructorMonth(d.year, d.month), d.Month());
  }

  /** For years 0..99, the source's jump lands on the same month of year 1900 + y. */
  lemma JumpAsWrittenSmallYear(d: CalDate)
    requires 0 <= d.year <= 99 && 0 <= d.month < 12 && 0 <= d.day <= 99
    ensures JumpAsWritten(FormatDate(d)) == Some(YearMonth(1900 + d.year, d.month))
  {
    SplitFormatted(d);
    JsText.NumberOfDecimal(d.year);
    Number2Digits(d.month + 1);
    JumpAsWrittenOf(FormatDate(d), d.year, d.month + 1);
    ConstructorMonthOf(d.year, d.month);
  }

  /** A formatted date with a non-negative year splits into its year, month and day fields. */
  lemma SplitFormatted(d: CalDate)
    requires d.year >= 0 && 0 <= d.month < 12 && 0 <= d.day <= 99
    ensures var parts := JsText.Split(FormatDate(d), '-');
      |parts| == 3 && parts[0] == NatToString(d.year) && parts[1] == PadStart2(IntToString(d.month + 1))
  {
    var ys, ms, ds := IntToString(d.year), PadStart2(IntToString(d.month + 1)), PadStart2(IntToString(d.day));
    Pad2RoundTrip(d.month + 1);
    Pad2RoundTrip(d.day);
    NoDashInDigits(ys);
    NoDashInDigits(ms);
    NoDashInDigits(ds);
    SplitThreeFields(ys, ms, ds);
  }

  /** Year -5 is printed with its sign: March 1 of year -5 is "-5-03-01". */
  lemma FormatMinus5March1()
    ensures FormatDateStr(-5, 2, 1) == "-5-03-01"
  {
    assert PadStart2("3") == "03";
    assert PadStart2("1") == "01";
  }

  /** A leading '-' splits off an empty first field: "-5-03-01" is "", "5", "03", "01". */
  lemma SplitMinus5March1()
    ensures JsText.Split("-5-03-01", '-') == ["", "5", "03", "01"]
  {
    assert "-5-03-01" == "" + ['-'] + "5-03-01";
    JsText.SplitLeadingField("", '-', "5-03-01");
    assert "5-03-01" == "5" + "-" + "03" + "-" + "01";
    SplitThreeFields("5", "03", "01");
  }

  /** `new Date(y, m, 1)` for a two-digit year and an in-range month lands in year 1900 + y. */
  lemma ConstructorMonthOf(y: int, m: int)
    requires 0 <= y <= 99 && 0 <= m < 12
    ensures DateConstructorMonth(y, m) == YearMonth(1900 + y, m)
  {
    MonthIndexInjective(DateConstructorMonth(y, m), YearMonth(1900 + y, m));
  }

  /** A negative year: "-5-03-01" splits into "", "5", "03", "01", so the source reads year 0
      (hence 1900) and month 5, landing on May 1900 instead of March of year -5. */
  lemma JumpAsWrittenNegativeYear()
    ensures FormatDateStr(-5, 2, 1) == "-5-03-01"
    ensures JumpAsWritten("-5-03-01") == Some(YearMonth(1900, 4))
    ensures JumpTarget("-5-03-01") == Some(YearMonth(-5, 2))
  {
    FormatMinus5March1();
    assert JumpAsWritten("-5-03-01") == Some(DateConstructorMonth(0, 4)) by {
      SplitMinus5March1();
      assert JsText.Trim("") == "";
      assert JsText.Number("") == Some(0);
      assert JsText.Number("5") == Some(5) by {
        assert NatToString(5) == "5";
        JsText.NumberOfDecimal(5);
      }
      JumpAsWrittenOf("-5-03-01", 0, 5);
    }
    ConstructorMonthOf(0, 4);
    JumpTargetOfFormatted(CalDate(-5, 2, 1));
  }

  /** A year 0..99: "50-03-01" is read back by `new Date(50, 2, 1)`, which is March 1950. */
  lemma JumpAsWrittenTwoDigitYear()
    ensures FormatDateStr(50, 2, 1) == "50-03-01"
    ensures JumpAsWritten("50-03-01") == Some(YearMonth(1950, 2))
    ensures JumpTarget("50-03-01") == Some(YearMonth(50, 2))
  {
    assert FormatDateStr(50, 2, 1) == "50-03-01" by {
      assert NatToString(5) == "5";
      assert NatToString(50) == "50";
      assert PadStart2("3") == "03";
      assert PadStart2("1") == "01";
    }
    JumpAsWrittenSmallYear(CalDate(50, 2, 1));
    JumpTargetOfFormatted(CalDate(50, 2, 1));
  }
}
