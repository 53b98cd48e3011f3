/** Worked inputs of the install-date normalizer, each derived from the general lemmas: first
    what the rules read from the text, then what is written. */
module InstallDateExamples {
  import opened Wrappers
  import opened Text
  import opened InstallDate
  import opened InstallDateProperties

  lemma FourDigitsValue(t: string)
    requires |t| == 4 && IsDigits(t)
    ensures DigitsValue(t) == 1000 * DigitValue(t[0]) + 100 * DigitValue(t[1]) + 10 * DigitValue(t[2]) + DigitValue(t[3])
  {
    assert t[..3][..2] == t[..2];
    assert t[..2][..1] == t[..1];
    TwoDigitsValue(t[..2]);
  }

  /** Text that some rule reads is written as the ISO form of what was read. */
  lemma Rendered(s: string, d: Date, iso: string)
    requires Strip(s) == s && s != "" && ParseRules(s) == Some(d) && RenderIso(d) == iso
    ensures ParseInstallDate(s) == iso
  {
  }

  /** Text that no rule reads is written as it is. */
  lemma Unread(s: string)
    requires Strip(s) == s && s != "" && ParseRules(s) == None
    ensures ParseInstallDate(s) == s
  {
  }

  // The ISO text of the dates read below, one lemma each so that each is computed alone.

  lemma RenderJan5()
    ensures RenderIso(Date(2023, 1, 5)) == "2023-01-05"
  {
  }

  lemma RenderLeapDay()
    ensures RenderIso(Date(2000, 2, 29)) == "2000-02-29"
  {
  }

  lemma RenderFeb1()
    ensures RenderIso(Date(2023, 2, 1)) == "2023-02-01"
  {
  }

  lemma RenderJan13()
    ensures RenderIso(Date(2023, 1, 13)) == "2023-01-13"
  {
  }

  lemma RenderJan12()
    ensures RenderIso(Date(2023, 1, 12)) == "2023-01-12"
  {
  }

  lemma RenderDec1()
    ensures RenderIso(Date(2023, 12, 1)) == "2023-12-01"
  {
  }

  lemma RenderNov5()
    ensures RenderIso(Date(2023, 11, 5)) == "2023-11-05"
  {
  }

  lemma RenderJan15()
    ensures RenderIso(Date(2023, 1, 15)) == "2023-01-15"
  {
  }

  lemma EightDigitsPlain(s: string)
    requires |s| == 8 && forall i :: 0 <= i < |s| ==> IsDigit(s[i])
    ensures Strip(s) == s && IsDigits(s)
  {
    StripNoSpace(s);
  }

  lemma SlashedPlain(s: string)
    requires |s| == 10 && forall i :: 0 <= i < |s| ==> IsDigit(s[i]) || s[i] == '/'
    ensures Strip(s) == s
  {
    StripNoSpace(s);
  }

  /** `20230105` is read as the 5th of January 2023. */
  lemma CompactReading(s: string)
    requires s == "20230105"
    ensures ParseRules(s) == Some(Date(2023, 1, 5))
  {
    assert IsDigits(s);
    assert s[..4] == "2023" && s[4..6] == "01" && s[6..] == "05";
    FourDigitsValue("2023");
    TwoDigitsValue("01");
    TwoDigitsValue("05");
    assert ValidDate(Date(2023, 1, 5));
    EightDigitRules(s);
  }

  /** `20230105` is written `2023-01-05`. */
  lemma CompactExample(s: string)
    requires s == "20230105"
    ensures ParseInstallDate(s) == "2023-01-05"
  {
    EightDigitsPlain(s);
    CompactReading(s);
    RenderJan5();
    Rendered(s, Date(2023, 1, 5), "2023-01-05");
  }

  /** There is no 30th of February: the text comes back unchanged. */
  lemma NoSuchDayExample(s: string)
    requires s == "20230230"
    ensures ParseInstallDate(s) == "20230230"
  {
    EightDigitsPlain(s);
    assert s[..4] == "2023" && s[4..6] == "02" && s[6..] == "30";
    FourDigitsValue("2023");
    TwoDigitsValue("02");
    TwoDigitsValue("30");
    assert !ValidDate(Date(2023, 2, 30));
    EightDigitRules(s);
    Unread(s);
  }

  /** There is no 13th month: the text comes back unchanged. */
  lemma NoSuchMonthExample(s: string)
    requires s == "20231332"
    ensures ParseInstallDate(s) == "20231332"
  {
    EightDigitsPlain(s);
    assert s[4..6] == "13";
    TwoDigitsValue("13");
    assert !ValidDate(Date(DigitsValue(s[..4]), 13, DigitsValue(s[6..])));
    EightDigitRules(s);
    Unread(s);
  }

  /** `99999999` names no date and is returned as it is, without an error. */
  lemma AllNinesExample(s: string)
    requires s == "99999999"
    ensures ParseInstallDate(s) == "99999999"
  {
    EightDigitsPlain(s);
    assert s[4..6] == "99";
    TwoDigitsValue("99");
    assert !ValidDate(Date(DigitsValue(s[..4]), 99, DigitsValue(s[6..])));
    EightDigitRules(s);
    Unread(s);
  }

  /** 1900 is not a leap year (divisible by 100 but not by 400). */
  lemma CenturyNonLeapExample(s: string)
    requires s == "19000229"
    ensures ParseInstallDate(s) == "19000229"
  {
    EightDigitsPlain(s);
    assert s[..4] == "1900" && s[4..6] == "02" && s[6..] == "29";
    FourDigitsValue("1900");
    TwoDigitsValue("02");
    TwoDigitsValue("29");
    assert !ValidDate(Date(1900, 2, 29));
    EightDigitRules(s);
    Unread(s);
  }

  /** 2000 is a leap year (divisible by 400): `20000229` is read as the 29th of February. */
  lemma QuadCenturyLeapReading(s: string)
    requires s == "20000229"
    ensures ParseRules(s) == Some(Date(2000, 2, 29))
  {
    assert IsDigits(s);
    assert s[..4] == "2000" && s[4..6] == "02" && s[6..] == "29";
    FourDigitsValue("2000");
    TwoDigitsValue("02");
    TwoDigitsValue("29");
    assert ValidDate(Date(2000, 2, 29));
    EightDigitRules(s);
  }

  lemma QuadCenturyLeapExample(s: string)
    requires s == "20000229"
    ensures ParseInstallDate(s) == "2000-02-29"
  {
    EightDigitsPlain(s);
    QuadCenturyLeapReading(s);
    RenderLeapDay();
    Rendered(s, Date(2000, 2, 29), "2000-02-29");
  }

  /** `01/02/2023` is ambiguous; `%d/%m/%Y` is tried first, so it is read as the 1st of
      February. */
  lemma DayFirstReading(s: string)
    requires s == "01/02/2023"
    ensures ParseRules(s) == Some(Date(2023, 2, 1))
  {
    assert |s| == 10 && s[2] == '/' && s[5] == '/';
    assert s[..2] == "01" && s[3..5] == "02" && s[6..] == "2023";
    TwoDigitsValue("01");
    TwoDigitsValue("02");
    FourDigitsValue("2023");
    assert ValidDate(Date(2023, 2, 1));
    SlashedRules(s);
  }

  lemma DayFirstExample(s: string)
    requires s == "01/02/2023"
    ensures ParseInstallDate(s) == "2023-02-01"
  {
    SlashedPlain(s);
    DayFirstReading(s);
    RenderFeb1();
    Rendered(s, Date(2023, 2, 1), "2023-02-01");
  }

  /** `01/13/2023` has no 13th month as day/month, so `%m/%d/%Y` reads it: the 13th of
      January. */
  lemma MonthFirstReading(s: string)
    requires s == "01/13/2023"
    ensures ParseRules(s) == Some(Date(2023, 1, 13))
  {
    assert |s| == 10 && s[2] == '/' && s[5] == '/';
    assert s[..2] == "01" && s[3..5] == "13" && s[6..] == "2023";
    TwoDigitsValue("01");
    TwoDigitsValue("13");
    FourDigitsValue("2023");
    assert !ValidDate(Date(2023, 13, 1));
    assert ValidDate(Date(2023, 1, 13));
    SlashedRules(s);
  }

  lemma MonthFirstExample(s: string)
    requires s == "01/13/2023"
    ensures ParseInstallDate(s) == "2023-01-13"
  {
    SlashedPlain(s);
    MonthFirstReading(s);
    RenderJan13();
    Rendered(s, Date(2023, 1, 13), "2023-01-13");
  }

  /** `2023-1-5`: `%m` and `%d` also take a single non-zero digit, so the ISO format reads the 5th
      of January 2023. */
  lemma IsoOneDigitReading(s: string)
    requires s == "2023-1-5"
    ensures ParseRules(s) == Some(Date(2023, 1, 5))
  {
    assert |s| == 8 && s[4] == '-' && s[6] == '-' && s[5] == '1' && s[7] == '5';
    assert s[..4] == "2023";
    FourDigitsValue("2023");
    IsoOneDigitRules(s);
  }

  lemma IsoOneDigitExample(s: string)
    requires s == "2023-1-5"
    ensures ParseInstallDate(s) == "2023-01-05"
  {
    StripTrimmed(s);
    IsoOneDigitReading(s);
    RenderJan5();
    Rendered(s, Date(2023, 1, 5), "2023-01-05");
  }

  /** `1/2/2023` is read day first, like `01/02/2023`: the 1st of February. */
  lemma SlashedOneDigitReading(s: string)
    requires s == "1/2/2023"
    ensures ParseRules(s) == Some(Date(2023, 2, 1))
  {
    assert |s| == 8 && s[0] == '1' && s[1] == '/' && s[2] == '2' && s[3] == '/';
    assert s[4..] == "2023";
    FourDigitsValue("2023");
    SlashedOneDigitRules(s);
  }

  lemma SlashedOneDigitExample(s: string)
    requires s == "1/2/2023"
    ensures ParseInstallDate(s) == "2023-02-01"
  {
    StripTrimmed(s);
    SlashedOneDigitReading(s);
    RenderFeb1();
    Rendered(s, Date(2023, 2, 1), "2023-02-01");
  }

  /** A date followed by a time leaves data unconverted in every format: it is written as it is. */
  lemma DateTimeExample(s: string)
    requires s == "2023-01-05 10:00"
    ensures ParseInstallDate(s) == "2023-01-05 10:00"
  {
    StripTrimmed(s);
    LongTextUnchanged(s);
  }

  // Fields of different widths: one digit and two.

  /** `12/1/2023` is read day first: the 12th of January. */
  lemma DayTwoMonthOneReading(s: string)
    requires s == "12/1/2023"
    ensures ParseRules(s) == Some(Date(2023, 1, 12))
  {
    assert |s| == 9 && s[2] == '/' && s[4] == '/';
    assert s[..2] == "12" && s[3..4] == "1" && s[5..] == "2023";
    TwoDigitsValue("12");
    OneDigitValue("1");
    FourDigitsValue("2023");
    assert ValidDate(Date(2023, 1, 12));
    SlashedFieldsRules(s, 2, 1);
  }

  lemma DayTwoMonthOneExample(s: string)
    requires s == "12/1/2023"
    ensures ParseInstallDate(s) == "2023-01-12"
  {
    StripTrimmed(s);
    DayTwoMonthOneReading(s);
    RenderJan12();
    Rendered(s, Date(2023, 1, 12), "2023-01-12");
  }

  /** `1/12/2023` is read day first: the 1st of December. */
  lemma DayOneMonthTwoReading(s: string)
    requires s == "1/12/2023"
    ensures ParseRules(s) == Some(Date(2023, 12, 1))
  {
    assert |s| == 9 && s[1] == '/' && s[4] == '/';
    assert s[..1] == "1" && s[2..4] == "12" && s[5..] == "2023";
    OneDigitValue("1");
    TwoDigitsValue("12");
    FourDigitsValue("2023");
    assert ValidDate(Date(2023, 12, 1));
    SlashedFieldsRules(s, 1, 2);
  }

  lemma DayOneMonthTwoExample(s: string)
    requires s == "1/12/2023"
    ensures ParseInstallDate(s) == "2023-12-01"
  {
    StripTrimmed(s);
    DayOneMonthTwoReading(s);
    RenderDec1();
    Rendered(s, Date(2023, 12, 1), "2023-12-01");
  }

  /** `2023-11-5` is read as the 5th of November. */
  lemma IsoMonthTwoDayOneReading(s: string)
    requires s == "2023-11-5"
    ensures ParseRules(s) == Some(Date(2023, 11, 5))
  {
    assert |s| == 9 && s[4] == '-' && s[7] == '-';
    assert s[..4] == "2023" && s[5..7] == "11" && s[8..] == "5";
    FourDigitsValue("2023");
    TwoDigitsValue("11");
    OneDigitValue("5");
    assert ValidDate(Date(2023, 11, 5));
    IsoFieldsRules(s, 2, 1);
  }

  lemma IsoMonthTwoDayOneExample(s: string)
    requires s == "2023-11-5"
    ensures ParseInstallDate(s) == "2023-11-05"
  {
    StripTrimmed(s);
    IsoMonthTwoDayOneReading(s);
    RenderNov5();
    Rendered(s, Date(2023, 11, 5), "2023-11-05");
  }

  /** `2023-1-15` is read as the 15th of January. */
  lemma IsoMonthOneDayTwoReading(s: string)
    requires s == "2023-1-15"
    ensures ParseRules(s) == Some(Date(2023, 1, 15))
  {
    assert |s| == 9 && s[4] == '-' && s[6] == '-';
    assert s[..4] == "2023" && s[5..6] == "1" && s[7..] == "15";
    FourDigitsValue("2023");
    OneDigitValue("1");
    TwoDigitsValue("15");
    assert ValidDate(Date(2023, 1, 15));
    IsoFieldsRules(s, 1, 2);
  }

  lemma IsoMonthOneDayTwoExample(s: string)
    requires s == "2023-1-15"
    ensures ParseInstallDate(s) == "2023-01-15"
  {
    StripTrimmed(s);
    IsoMonthOneDayTwoReading(s);
    RenderJan15();
    Rendered(s, Date(2023, 1, 15), "2023-01-15");
  }

  /** `2023-2-30` names no day, so no rule reads it and it comes back unchanged. */
  lemma IsoNoSuchDayExample(s: string)
    requires s == "2023-2-30"
    ensures ParseInstallDate(s) == "2023-2-30"
  {
    StripTrimmed(s);
    assert |s| == 9 && s[4] == '-' && s[6] == '-';
    assert s[5..6] == "2" && s[7..] == "30";
    OneDigitValue("2");
    TwoDigitsValue("30");
    assert !ValidDate(Date(DigitsValue(s[..4]), 2, 30));
    IsoFieldsRules(s, 1, 2);
    Unread(s);
  }

  /** Whitespace-only input is the empty date. */
  lemma BlankExample()
    ensures ParseInstallDate(" \t ") == ""
  {
  }
}
