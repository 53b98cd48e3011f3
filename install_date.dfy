/** The install-date normalizer `_parse_install_date` (list_software.py:26-42) together with the
    part of `datetime.strptime` / `strftime` that it relies on.

    `strptime` turns a format into a regular expression, matches it at the start of the text
    (the first match in the regular expression's backtracking order wins), refuses the text if
    characters remain after that match ("unconverted data remains"), and finally checks the
    calendar. The directives used here translate to
      %Y  four digits
      %m  1[0-2] | 0[1-9] | [1-9]
      %d  3[01] | [12]\d | 0[1-9] | [1-9] | " "[1-9]
    tried in that order, and the captured text is read with `int()`. */
module InstallDate {
  import opened Wrappers
  import opened Text

  datatype Date = Date(year: int, month: int, day: int)

  predicate IsLeapYear(y: int)
  {
    y % 4 == 0 && (y % 100 != 0 || y % 400 == 0)
  }

  function DaysInMonth(y: int, m: int): (n: int)
    requires 1 <= m <= 12
    ensures 28 <= n <= 31
    ensures n == 29 <==> m == 2 && IsLeapYear(y)
  {
    if m == 2 then (if IsLeapYear(y) then 29 else 28)
    else if m == 4 || m == 6 || m == 9 || m == 11 then 30
    else 31
  }

  /** The check `datetime.date` makes: a year in 1..9999, a month in 1..12 and a day that
      exists in that month of the Gregorian calendar. */
  predicate ValidDate(d: Date)
  {
    1 <= d.year <= 9999 && 1 <= d.month <= 12 && 1 <= d.day <= DaysInMonth(d.year, d.month)
  }

  // ----- formats ---------------------------------------------------------------------------

  datatype Directive = Year | Month | Day | Lit(c: char)

  type Format = seq<Directive>

  /** "%Y%m%d" */
  const CompactFormat: Format := [Year, Month, Day]
  /** "%Y-%m-%d" */
  const IsoFormat: Format := [Year, Lit('-'), Month, Lit('-'), Day]
  /** "%d/%m/%Y" */
  const DayFirstFormat: Format := [Day, Lit('/'), Month, Lit('/'), Year]
  /** "%m/%d/%Y" */
  const MonthFirstFormat: Format := [Month, Lit('/'), Day, Lit('/'), Year]
  /** The fallback formats in the order the normalizer tries them. */
  const FallbackFormats: seq<Format> := [IsoFormat, DayFirstFormat, MonthFirstFormat]

  /** The most characters a directive can match. */
  function DirLen(dir: Directive): nat
  {
    match dir
    case Year => 4
    case Month => 2
    case Day => 2
    case Lit(_) => 1
  }

  function MaxLen(pat: Format): nat
  {
    if pat == [] then 0 else DirLen(pat[0]) + MaxLen(pat[1..])
  }

  // ----- the regular-expression alternatives -------------------------------------------------

  /** One alternative of a directive's regular expression that matches at a position: how many
      characters it takes and the number `int()` reads from them. */
  datatype Alt = Alt(len: nat, value: int)

  /** The value a directive reads when it matches its longest form at position `i`, if it can.
      This is the reference the alternatives are checked against. */
  function FullAlt(dir: Directive, s: string, i: nat): Option<int>
    requires !dir.Lit?
  {
    match dir
    case Year =>
      if i + 4 <= |s| && IsDigits(s[i..i + 4]) then Some(DigitsValue(s[i..i + 4])) else None
    case Month =>
      if i + 2 <= |s| && ((s[i] == '1' && '0' <= s[i + 1] <= '2') || (s[i] == '0' && '1' <= s[i + 1] <= '9'))
      then Some(10 * DigitValue(s[i]) + DigitValue(s[i + 1]))
      else None
    case Day =>
      if i + 2 <= |s| && ((s[i] == '3' && '0' <= s[i + 1] <= '1') || ('1' <= s[i] <= '2' && IsDigit(s[i + 1]))
                          || (s[i] == '0' && '1' <= s[i + 1] <= '9'))
      then Some(10 * DigitValue(s[i]) + DigitValue(s[i + 1]))
      else if i + 2 <= |s| && s[i] == ' ' && '1' <= s[i + 1] <= '9' then Some(DigitValue(s[i + 1]))
      else None
  }

  /** The alternatives of `dir`'s regular expression that match at position `i`, in the order the
      regular expression tries them. Whenever the longest form matches, it is tried first. */
  function Alts(dir: Directive, s: string, i: nat): (r: seq<Alt>)
    requires !dir.Lit?
    ensures forall a :: a in r ==> 0 < a.len <= DirLen(dir) && i + a.len <= |s|
    ensures forall a :: a in r && a.len == DirLen(dir) ==> FullAlt(dir, s, i) == Some(a.value)
    ensures FullAlt(dir, s, i).Some? ==> r != [] && r[0] == Alt(DirLen(dir), FullAlt(dir, s, i).value)
  {
    match dir
    case Year =>
      if i + 4 <= |s| && IsDigits(s[i..i + 4]) then [Alt(4, DigitsValue(s[i..i + 4]))] else []
    case Month => MonthAlts(s, i)
    case Day => DayAlts(s, i)
  }

  /** `1[0-2]|0[1-9]|[1-9]`. */
  function MonthAlts(s: string, i: nat): (r: seq<Alt>)
    ensures forall a :: a in r ==> 0 < a.len <= 2 && i + a.len <= |s|
    ensures forall a :: a in r && a.len == 2 ==> FullAlt(Month, s, i) == Some(a.value)
    ensures FullAlt(Month, s, i).Some? ==> r != [] && r[0] == Alt(2, FullAlt(Month, s, i).value)
    ensures i < |s| && '1' <= s[i] <= '9' ==> r != [] && r[|r| - 1] == Alt(1, DigitValue(s[i]))
    ensures forall j :: 0 <= j < |r| - 1 ==> r[j].len == 2
    ensures forall a :: a in r && a.len == 1 ==> i < |s| && '1' <= s[i] <= '9' && a.value == DigitValue(s[i])
  {
    (if i + 2 <= |s| && s[i] == '1' && '0' <= s[i + 1] <= '2' then [Alt(2, 10 + DigitValue(s[i + 1]))] else [])
    + (if i + 2 <= |s| && s[i] == '0' && '1' <= s[i + 1] <= '9' then [Alt(2, DigitValue(s[i + 1]))] else [])
    + (if i + 1 <= |s| && '1' <= s[i] <= '9' then [Alt(1, DigitValue(s[i]))] else [])
  }

  /** `3[01]|[12]\d|0[1-9]|[1-9]| [1-9]`. */
  function DayAlts(s: string, i: nat): (r: seq<Alt>)
    ensures forall a :: a in r ==> 0 < a.len <= 2 && i + a.len <= |s|
    ensures forall a :: a in r && a.len == 2 ==> FullAlt(Day, s, i) == Some(a.value)
    ensures FullAlt(Day, s, i).Some? ==> r != [] && r[0] == Alt(2, FullAlt(Day, s, i).value)
    ensures i < |s| && '1' <= s[i] <= '9' ==> r != [] && r[|r| - 1] == Alt(1, DigitValue(s[i]))
    ensures forall j :: 0 <= j < |r| - 1 ==> r[j].len == 2
    ensures forall a :: a in r && a.len == 1 ==> i < |s| && '1' <= s[i] <= '9' && a.value == DigitValue(s[i])
  {
    (if i + 2 <= |s| && s[i] == '3' && '0' <= s[i + 1] <= '1' then [Alt(2, 30 + DigitValue(s[i + 1]))] else [])
    + (if i + 2 <= |s| && '1' <= s[i] <= '2' && IsDigit(s[i + 1])
       then [Alt(2, 10 * DigitValue(s[i]) + DigitValue(s[i + 1]))] else [])
    + (if i + 2 <= |s| && s[i] == '0' && '1' <= s[i + 1] <= '9' then [Alt(2, DigitValue(s[i + 1]))] else [])
    + (if i + 1 <= |s| && '1' <= s[i] <= '9' then [Alt(1, DigitValue(s[i]))] else [])
    + (if i + 2 <= |s| && s[i] == ' ' && '1' <= s[i + 1] <= '9' then [Alt(2, DigitValue(s[i + 1]))] else [])
  }

  // ----- matching ----------------------------------------------------------------------------

  /** The fields `strptime` has captured so far (its defaults stand until a directive is read). */
  datatype Fields = Fields(year: int, month: int, day: int)

  const DefaultFields := Fields(1900, 1, 1)

  function Capture(f: Fields, dir: Directive, v: int): Fields
  {
    match dir
    case Year => f.(year := v)
    case Month => f.(month := v)
    case Day => f.(day := v)
    case Lit(_) => f
  }

  /** The first match of `pat` at position `i` in backtracking order: captured fields and end. */
  function Match(pat: Format, s: string, i: nat, f: Fields): Option<(Fields, nat)>
    decreases |pat|, 0
  {
    if pat == [] then Some((f, i))
    else if pat[0].Lit? then
      if i < |s| && s[i] == pat[0].c then Match(pat[1..], s, i + 1, f) else None
    else
      TryAlts(pat[0], Alts(pat[0], s, i), pat[1..], s, i, f)
  }

  /** Tries the alternatives `alts` of `dir` in order, each followed by the rest of the pattern. */
  function TryAlts(dir: Directive, alts: seq<Alt>, rest: Format, s: string, i: nat, f: Fields)
    : Option<(Fields, nat)>
    decreases |rest|, |alts|
  {
    if alts == [] then None
    else
      match Match(rest, s, i + alts[0].len, Capture(f, dir, alts[0].value))
      case Some(res) => Some(res)
      case None => TryAlts(dir, alts[1..], rest, s, i, f)
  }

  /** The fields read when every directive of `pat` matches its longest form: the reference
      against which the backtracking matcher is proved. */
  function FullCapture(pat: Format, s: string, i: nat, f: Fields): Option<Fields>
    decreases |pat|
  {
    if pat == [] then Some(f)
    else if pat[0].Lit? then
      if i < |s| && s[i] == pat[0].c then FullCapture(pat[1..], s, i + 1, f) else None
    else
      match FullAlt(pat[0], s, i)
      case None => None
      case Some(v) => FullCapture(pat[1..], s, i + DirLen(pat[0]), Capture(f, pat[0], v))
  }

  function ToDate(f: Fields): Date
  {
    Date(f.year, f.month, f.day)
  }

  /** `datetime.strptime(s, fmt)`, with `None` standing for the `ValueError` it raises. */
  function Strptime(s: string, fmt: Format): (r: Option<Date>)
    ensures r.Some? ==> ValidDate(r.value)
  {
    match Match(fmt, s, 0, DefaultFields)
    case None => None                          // does not match the format
    case Some((f, e)) =>
      if e != |s| then None                    // unconverted data remains
      else if ValidDate(ToDate(f)) then Some(ToDate(f))
      else None                                // no such calendar date
  }

  /** `strftime("%Y-%m-%d")`, with the year written as four digits. */
  function RenderIso(d: Date): (r: string)
    requires ValidDate(d)
    ensures |r| == 10
  {
    ZeroPadded(d.year, 4) + "-" + ZeroPadded(d.month, 2) + "-" + ZeroPadded(d.day, 2)
  }

  /** Text of the shape `YYYY-MM-DD` naming an existing calendar date. */
  predicate IsIsoDate(r: string)
  {
    |r| == 10 && r[4] == '-' && r[7] == '-'
    && IsDigits(r[..4]) && IsDigits(r[5..7]) && IsDigits(r[8..])
    && ValidDate(Date(DigitsValue(r[..4]), DigitsValue(r[5..7]), DigitsValue(r[8..])))
  }

  /** The formats tried one after the other; the first that parses wins. */
  function FirstMatch(s: string, formats: seq<Format>): (r: Option<Date>)
    ensures r.Some? ==> ValidDate(r.value)
  {
    if formats == [] then None
    else
      match Strptime(s, formats[0])
      case Some(d) => Some(d)
      case None => FirstMatch(s, formats[1..])
  }

  /** The rules of the normalizer tried on stripped, non-empty text: `%Y%m%d` on exactly eight
      digits, then the fallback formats. */
  function ParseRules(s: string): (r: Option<Date>)
    ensures r.Some? ==> ValidDate(r.value)
  {
    if |s| == 8 && IsDigits(s) && Strptime(s, CompactFormat).Some? then Strptime(s, CompactFormat)
    else FirstMatch(s, FallbackFormats)
  }

  /** `_parse_install_date`: the empty string for blank input, `YYYY-MM-DD` when an eight-digit
      `YYYYMMDD` or one of the fallback formats parses, and otherwise the stripped input. */
  function ParseInstallDate(raw: string): (r: string)
    ensures r == "" <==> Strip(raw) == ""
    ensures r == "" || IsIsoDate(r) || r == Strip(raw)
  {
    var s := Strip(raw);
    if s == "" then ""
    else
      match ParseRules(s)
      case Some(d) =>
        RenderIsIsoDate(d);
        RenderIso(d)
      case None => s
  }

  // ----- the matcher against its reference --------------------------------------------------

  lemma {:induction false} MatchSound(pat: Format, s: string, i: nat, f: Fields)
    ensures var m := Match(pat, s, i, f);
      m.Some? ==> i <= m.value.1 <= i + MaxLen(pat)
                  && (m.value.1 == i + MaxLen(pat) ==> FullCapture(pat, s, i, f) == Some(m.value.0))
    decreases |pat|, 0
  {
    if pat == [] {
    } else if pat[0].Lit? {
      if i < |s| && s[i] == pat[0].c {
        MatchSound(pat[1..], s, i + 1, f);
      }
    } else {
      TryAltsSound(pat[0], Alts(pat[0], s, i), pat[1..], s, i, f);
    }
  }

  lemma {:induction false} TryAltsSound(dir: Directive, alts: seq<Alt>, rest: Format, s: string, i: nat, f: Fields)
    requires !dir.Lit?
    requires forall a :: a in alts ==> 0 < a.len <= DirLen(dir) && (a.len == DirLen(dir) ==> FullAlt(dir, s, i) == Some(a.value))
    ensures var m := TryAlts(dir, alts, rest, s, i, f);
      m.Some? ==> i <= m.value.1 <= i + DirLen(dir) + MaxLen(rest)
                  && (m.value.1 == i + DirLen(dir) + MaxLen(rest) ==>
                        FullAlt(dir, s, i).Some?
                        && FullCapture(rest, s, i + DirLen(dir), Capture(f, dir, FullAlt(dir, s, i).value)) == Some(m.value.0))
    decreases |rest|, |alts|
  {
    if alts != [] {
      var a := alts[0];
      assert a in alts;
      var m := Match(rest, s, i + a.len, Capture(f, dir, a.value));
      MatchSound(rest, s, i + a.len, Capture(f, dir, a.value));
      if m.None? {
        TryAltsSound(dir, alts[1..], rest, s, i, f);
      } else {
        assert TryAlts(dir, alts, rest, s, i, f) == m;
      }
    }
  }

  lemma {:induction false} MatchComplete(pat: Format, s: string, i: nat, f: Fields)
    requires FullCapture(pat, s, i, f).Some?
    ensures Match(pat, s, i, f) == Some((FullCapture(pat, s, i, f).value, i + MaxLen(pat)))
    decreases |pat|
  {
    if pat == [] {
    } else if pat[0].Lit? {
      LitStep(pat, s, i, f);
      MatchComplete(pat[1..], s, i + 1, f);
    } else {
      DirStep(pat, s, i, f);
      var g := Capture(f, pat[0], FullAlt(pat[0], s, i).value);
      MatchComplete(pat[1..], s, i + DirLen(pat[0]), g);
      LongestFirst(pat, s, i, f);
    }
  }

  /** One literal of a fixed-width match: both matchers step over it. */
  lemma LitStep(pat: Format, s: string, i: nat, f: Fields)
    requires pat != [] && pat[0].Lit? && FullCapture(pat, s, i, f).Some?
    ensures FullCapture(pat[1..], s, i + 1, f) == FullCapture(pat, s, i, f)
    ensures Match(pat, s, i, f) == Match(pat[1..], s, i + 1, f)
    ensures MaxLen(pat) == 1 + MaxLen(pat[1..])
  {
  }

  /** One field of a fixed-width match: it reads its full width. */
  lemma DirStep(pat: Format, s: string, i: nat, f: Fields)
    requires pat != [] && !pat[0].Lit? && FullCapture(pat, s, i, f).Some?
    ensures FullAlt(pat[0], s, i).Some?
    ensures var g := Capture(f, pat[0], FullAlt(pat[0], s, i).value);
      FullCapture(pat[1..], s, i + DirLen(pat[0]), g) == FullCapture(pat, s, i, f)
    ensures MaxLen(pat) == DirLen(pat[0]) + MaxLen(pat[1..])
  {
  }

  /** When a directive's longest form matches, the matcher tries it first: if the rest of the
      pattern then matches, that is the result. */
  lemma LongestFirst(pat: Format, s: string, i: nat, f: Fields)
    requires pat != [] && !pat[0].Lit? && FullAlt(pat[0], s, i).Some?
    ensures var g := Capture(f, pat[0], FullAlt(pat[0], s, i).value);
      var m := Match(pat[1..], s, i + DirLen(pat[0]), g);
      m.Some? ==> Match(pat, s, i, f) == m
  {
    var alts := Alts(pat[0], s, i);
    assert alts[0] == Alt(DirLen(pat[0]), FullAlt(pat[0], s, i).value);
  }

  /** `strptime` never accepts text longer than the format's longest form: the rest would be
      unconverted data. */
  lemma StrptimeBounded(s: string, fmt: Format)
    ensures Strptime(s, fmt).Some? ==> |s| <= MaxLen(fmt)
  {
    MatchSound(fmt, s, 0, DefaultFields);
  }

  /** A literal that matches moves the match on by one character. */
  lemma MatchLit(pat: Format, s: string, i: nat, f: Fields)
    requires pat != [] && pat[0].Lit? && i < |s| && s[i] == pat[0].c
    ensures Match(pat, s, i, f) == Match(pat[1..], s, i + 1, f)
  {
  }

  /** A directive with a single matching alternative reads it and moves on. */
  lemma MatchOnly(pat: Format, s: string, i: nat, f: Fields, a: Alt)
    requires pat != [] && !pat[0].Lit? && Alts(pat[0], s, i) == [a]
    ensures Match(pat, s, i, f) == Match(pat[1..], s, i + a.len, Capture(f, pat[0], a.value))
  {
    var alts := Alts(pat[0], s, i);
    assert Match(pat, s, i, f) == TryAlts(pat[0], alts, pat[1..], s, i, f);
    assert alts[0] == a && alts[1..] == [];
    assert TryAlts(pat[0], alts[1..], pat[1..], s, i, f) == None;
  }

  /** A non-zero digit that is not followed by a digit is read by `%m` or `%d` through the
      one-character alternative `[1-9]` alone. */
  lemma OneDigitAlts(dir: Directive, s: string, i: nat)
    requires dir == Month || dir == Day
    requires i < |s| && '1' <= s[i] <= '9' && (i + 1 == |s| || !IsDigit(s[i + 1]))
    ensures Alts(dir, s, i) == [Alt(1, DigitValue(s[i]))]
  {
  }

  // ----- fields of one or two digits --------------------------------------------------------

  /** `n` digits, one or two, at position `i`: the text a `%m` or `%d` field is written as. */
  predicate DigitField(s: string, i: nat, n: nat)
  {
    (n == 1 || n == 2) && i + n <= |s| && forall k :: i <= k < i + n ==> IsDigit(s[k])
  }

  /** The values `%m` and `%d` accept. */
  predicate FieldInRange(dir: Directive, v: int)
  {
    match dir
    case Month => 1 <= v <= 12
    case Day => 1 <= v <= 31
    case _ => false
  }

  /** One digit read as a number is that digit's value. */
  lemma OneDigitValue(t: string)
    requires |t| == 1 && IsDigit(t[0])
    ensures DigitsValue(t) == DigitValue(t[0])
  {
    assert t[..0] == [];
  }

  /** `%m` and `%d` have at most two alternatives at any position, and only the first can read
      two characters: their two-character forms exclude each other by their first character. */
  lemma AltsShape(dir: Directive, s: string, i: nat)
    requires dir == Month || dir == Day
    ensures var alts := Alts(dir, s, i); |alts| <= 2 && (|alts| == 2 ==> alts[1].len == 1)
  {
  }

  /** The alternatives of `%m` or `%d` on a field of `n` digits that ends at a non-digit or at the
      end of the text: the whole field, read first, when its value is in range; otherwise only
      shorter readings. */
  lemma FieldAlts(dir: Directive, s: string, i: nat, n: nat)
    requires dir == Month || dir == Day
    requires DigitField(s, i, n) && (i + n == |s| || !IsDigit(s[i + n]))
    ensures var v, alts := DigitsValue(s[i..i + n]), Alts(dir, s, i);
      && (FieldInRange(dir, v) ==> alts != [] && alts[0] == Alt(n, v))
      && (forall j :: 0 <= j < |alts| && (j > 0 || !FieldInRange(dir, v)) ==> alts[j].len < n)
      && |alts| <= 2
  {
    AltsShape(dir, s, i);
    if n == 1 {
      OneDigitFieldAlts(dir, s, i);
    } else {
      assert IsDigit(s[i]) && IsDigit(s[i + 1]);
      TwoDigitFieldAlts(dir, s, i);
    }
  }

  /** One digit: `%m` or `%d` reads it when it is not `0`, and nothing otherwise. */
  lemma OneDigitFieldAlts(dir: Directive, s: string, i: nat)
    requires dir == Month || dir == Day
    requires i < |s| && IsDigit(s[i]) && (i + 1 == |s| || !IsDigit(s[i + 1]))
    ensures var v, alts := DigitsValue(s[i..i + 1]), Alts(dir, s, i);
      && (FieldInRange(dir, v) ==> alts == [Alt(1, v)])
      && (!FieldInRange(dir, v) ==> alts == [])
  {
    OneDigitValue(s[i..i + 1]);
    if s[i] != '0' {
      OneDigitAlts(dir, s, i);
    } else {
      ZeroFieldAlts(dir, s, i);
    }
  }

  /** A lone `0` is no reading of `%m` or `%d`. */
  lemma ZeroFieldAlts(dir: Directive, s: string, i: nat)
    requires dir == Month || dir == Day
    requires i < |s| && s[i] == '0' && (i + 1 == |s| || !IsDigit(s[i + 1]))
    ensures Alts(dir, s, i) == []
  {
  }

  /** Two digits: `%m` or `%d` reads both first when their value is in range, and any other
      reading is of one character. */
  lemma TwoDigitFieldAlts(dir: Directive, s: string, i: nat)
    requires dir == Month || dir == Day
    requires i + 2 <= |s| && IsDigit(s[i]) && IsDigit(s[i + 1])
    ensures var v, alts := DigitsValue(s[i..i + 2]), Alts(dir, s, i);
      && (FieldInRange(dir, v) ==> alts != [] && alts[0] == Alt(2, v))
      && (forall j :: 0 <= j < |alts| && (j > 0 || !FieldInRange(dir, v)) ==> alts[j].len < 2)
  {
    var alts := Alts(dir, s, i);
    TwoDigitFields(s, i);
    AltsShape(dir, s, i);
    forall j | 0 <= j < |alts|
      ensures alts[j].len <= 2
    {
      assert alts[j] in alts;
    }
  }

  /** At most two alternatives: the first is tried, and the second only when the first fails. */
  lemma TryAltsShort(dir: Directive, alts: seq<Alt>, rest: Format, s: string, i: nat, f: Fields)
    requires |alts| <= 2
    ensures alts == [] ==> TryAlts(dir, alts, rest, s, i, f) == None
    ensures |alts| == 1 ==> TryAlts(dir, alts, rest, s, i, f) == Match(rest, s, i + alts[0].len, Capture(f, dir, alts[0].value))
    ensures |alts| == 2 ==>
      (var first := Match(rest, s, i + alts[0].len, Capture(f, dir, alts[0].value));
       TryAlts(dir, alts, rest, s, i, f) ==
         if first.Some? then first else Match(rest, s, i + alts[1].len, Capture(f, dir, alts[1].value)))
  {
    if alts != [] {
      var tail := alts[1..];
      TryAltsStep(dir, alts, rest, s, i, f);
      if tail == [] {
        TryAltsStep(dir, tail, rest, s, i, f);
      } else {
        TryAltsStep(dir, tail, rest, s, i, f);
        assert tail[1..] == [];
        TryAltsStep(dir, tail[1..], rest, s, i, f);
        assert tail[0] == alts[1];
      }
    }
  }

  /** One step of trying alternatives: the first, and then the others if it fails. */
  lemma TryAltsStep(dir: Directive, alts: seq<Alt>, rest: Format, s: string, i: nat, f: Fields)
    ensures TryAlts(dir, alts, rest, s, i, f) ==
      if alts == [] then None
      else
        var first := Match(rest, s, i + alts[0].len, Capture(f, dir, alts[0].value));
        if first.Some? then first else TryAlts(dir, alts[1..], rest, s, i, f)
  {
  }

  /** A literal that is no digit does not match at a digit, whatever was captured before. */
  lemma LitRefusesDigit(rest: Format, s: string, j: nat, g: Fields)
    requires rest != [] && rest[0].Lit? && !IsDigit(rest[0].c) && j < |s| && IsDigit(s[j])
    ensures Match(rest, s, j, g) == None
  {
  }

  /** A field of one or two digits followed by its separator: `%m` or `%d` reads the whole field
      when its value is in range, and the match fails otherwise, since a shorter reading stops
      at a digit where the separator must be. */
  lemma FieldThenLit(pat: Format, s: string, i: nat, f: Fields, n: nat)
    requires |pat| >= 2 && (pat[0] == Month || pat[0] == Day) && pat[1].Lit? && !IsDigit(pat[1].c)
    requires DigitField(s, i, n) && i + n < |s| && s[i + n] == pat[1].c
    ensures var v := DigitsValue(s[i..i + n]);
      Match(pat, s, i, f) == if FieldInRange(pat[0], v) then Match(pat[1..], s, i + n, Capture(f, pat[0], v)) else None
  {
    var dir, rest := pat[0], pat[1..];
    MatchDirective(pat, s, i, f);
    if n == 1 {
      OneDigitThenRest(dir, rest, s, i, f);
    } else {
      assert IsDigit(s[i]) && IsDigit(s[i + 1]);
      TwoDigitsThenLit(dir, rest, s, i, f);
    }
  }

  /** A directive is matched by trying its alternatives in order. */
  lemma MatchDirective(pat: Format, s: string, i: nat, f: Fields)
    requires pat != [] && !pat[0].Lit?
    ensures Match(pat, s, i, f) == TryAlts(pat[0], Alts(pat[0], s, i), pat[1..], s, i, f)
  {
  }

  /** A one-digit field: `%m` or `%d` reads it and goes on with the rest of the pattern when it
      is not `0`, and fails otherwise. */
  lemma OneDigitThenRest(dir: Directive, rest: Format, s: string, i: nat, f: Fields)
    requires dir == Month || dir == Day
    requires i < |s| && IsDigit(s[i]) && (i + 1 == |s| || !IsDigit(s[i + 1]))
    ensures var v := DigitsValue(s[i..i + 1]);
      TryAlts(dir, Alts(dir, s, i), rest, s, i, f) ==
        if FieldInRange(dir, v) then Match(rest, s, i + 1, Capture(f, dir, v)) else None
  {
    OneDigitFieldAlts(dir, s, i);
    TryAltsShort(dir, Alts(dir, s, i), rest, s, i, f);
  }

  /** A two-digit field followed by its separator: `%m` or `%d` reads both digits and goes on
      when their value is in range, and fails otherwise. */
  lemma TwoDigitsThenLit(dir: Directive, rest: Format, s: string, i: nat, f: Fields)
    requires dir == Month || dir == Day
    requires rest != [] && rest[0].Lit? && !IsDigit(rest[0].c)
    requires i + 2 <= |s| && IsDigit(s[i]) && IsDigit(s[i + 1])
    ensures var v := DigitsValue(s[i..i + 2]);
      TryAlts(dir, Alts(dir, s, i), rest, s, i, f) ==
        if FieldInRange(dir, v) then Match(rest, s, i + 2, Capture(f, dir, v)) else None
  {
    var v := DigitsValue(s[i..i + 2]);
    var alts := Alts(dir, s, i);
    TwoDigitFieldAlts(dir, s, i);
    AltsShape(dir, s, i);
    TryAltsShort(dir, alts, rest, s, i, f);
    if |alts| == 2 {
      OneCharAltFails(dir, rest, s, i, f, 1);
    }
    if alts != [] && !FieldInRange(dir, v) {
      OneCharAltFails(dir, rest, s, i, f, 0);
    }
  }

  /** In a field of two digits followed by its separator, a one-character reading leaves the
      second digit where the separator must be. */
  lemma OneCharAltFails(dir: Directive, rest: Format, s: string, i: nat, f: Fields, k: nat)
    requires dir == Month || dir == Day
    requires rest != [] && rest[0].Lit? && !IsDigit(rest[0].c)
    requires i + 1 < |s| && IsDigit(s[i + 1])
    requires k < |Alts(dir, s, i)| && Alts(dir, s, i)[k].len < 2
    ensures var a := Alts(dir, s, i)[k]; Match(rest, s, i + a.len, Capture(f, dir, a.value)) == None
  {
    var a := Alts(dir, s, i)[k];
    assert a in Alts(dir, s, i);
    LitRefusesDigit(rest, s, i + 1, Capture(f, dir, a.value));
  }

  /** A field of one or two digits that ends the text and the format: `%m` or `%d` reads the whole
      field when its value is in range; otherwise any reading stops short of the end. */
  lemma FieldAtEnd(pat: Format, s: string, i: nat, f: Fields, n: nat)
    requires |pat| == 1 && (pat[0] == Month || pat[0] == Day)
    requires DigitField(s, i, n) && i + n == |s|
    ensures var v, r := DigitsValue(s[i..i + n]), Match(pat, s, i, f);
      if FieldInRange(pat[0], v) then r == Some((Capture(f, pat[0], v), |s|))
      else r.None? || r.value.1 < |s|
  {
    var dir, rest := pat[0], pat[1..];
    assert rest == [];
    MatchDirective(pat, s, i, f);
    if n == 1 {
      OneDigitThenRest(dir, rest, s, i, f);
    } else {
      assert IsDigit(s[i]) && IsDigit(s[i + 1]);
      TwoDigitsAtEnd(dir, s, i, f);
    }
  }

  /** A two-digit field at the end of the pattern: `%m` or `%d` reads both digits when their
      value is in range; otherwise it reads at most one. */
  lemma TwoDigitsAtEnd(dir: Directive, s: string, i: nat, f: Fields)
    requires dir == Month || dir == Day
    requires i + 2 <= |s| && IsDigit(s[i]) && IsDigit(s[i + 1])
    ensures var v, r := DigitsValue(s[i..i + 2]), TryAlts(dir, Alts(dir, s, i), [], s, i, f);
      if FieldInRange(dir, v) then r == Some((Capture(f, dir, v), i + 2))
      else r.None? || r.value.1 < i + 2
  {
    var alts := Alts(dir, s, i);
    TwoDigitFieldAlts(dir, s, i);
    AltsShape(dir, s, i);
    TryAltsShort(dir, alts, [], s, i, f);
  }

  /** `strptime` on text as long as the format's longest form: it succeeds exactly when every
      directive reads its longest form and the fields read name a calendar date. */
  lemma StrptimeExact(s: string, fmt: Format)
    requires |s| == MaxLen(fmt)
    ensures Strptime(s, fmt) ==
      (var c := FullCapture(fmt, s, 0, DefaultFields);
       if c.Some? && ValidDate(ToDate(c.value)) then Some(ToDate(c.value)) else None)
  {
    MatchSound(fmt, s, 0, DefaultFields);
    if FullCapture(fmt, s, 0, DefaultFields).Some? {
      MatchComplete(fmt, s, 0, DefaultFields);
    }
  }

  /** A non-digit separator right after the first directive cannot be found where each
      alternative of the directive leaves off at a digit. */
  lemma {:induction false} SeparatorNotInDigits(dir: Directive, alts: seq<Alt>, rest: Format, s: string, i: nat, f: Fields)
    requires !dir.Lit? && rest != [] && rest[0].Lit? && !IsDigit(rest[0].c)
    requires forall a :: a in alts && i + a.len < |s| ==> IsDigit(s[i + a.len])
    ensures TryAlts(dir, alts, rest, s, i, f) == None
    decreases |alts|
  {
    if alts != [] {
      SeparatorNotInDigits(dir, alts[1..], rest, s, i, f);
    }
  }

  /** So `strptime` rejects, for such a format, text whose characters after the first are
      digits as far as the first directive can reach: all-digit text in particular. */
  lemma SeparatedFormatRejectsDigits(fmt: Format, s: string)
    requires |fmt| >= 2 && !fmt[0].Lit? && fmt[1].Lit? && !IsDigit(fmt[1].c)
    requires forall k :: 0 < k <= DirLen(fmt[0]) && k < |s| ==> IsDigit(s[k])
    ensures Strptime(s, fmt) == None
  {
    SeparatorNotInDigits(fmt[0], Alts(fmt[0], s, 0), fmt[1..], s, 0, DefaultFields);
    assert Match(fmt, s, 0, DefaultFields) == None;
  }

  /** None of the fallback formats parses text made only of digits. */
  lemma FallbacksRejectDigits(s: string)
    requires forall k :: 0 <= k < |s| ==> IsDigit(s[k])
    ensures FirstMatch(s, FallbackFormats) == None
  {
    SeparatedFormatRejectsDigits(IsoFormat, s);
    SeparatedFormatRejectsDigits(DayFirstFormat, s);
    SeparatedFormatRejectsDigits(MonthFirstFormat, s);
    FallbackOrder(s);
  }

  /** The fallback formats are tried as `%Y-%m-%d`, then `%d/%m/%Y`, then `%m/%d/%Y`; the first
      that parses wins. */
  lemma FallbackOrder(s: string)
    ensures FirstMatch(s, FallbackFormats) ==
      if Strptime(s, IsoFormat).Some? then Strptime(s, IsoFormat)
      else if Strptime(s, DayFirstFormat).Some? then Strptime(s, DayFirstFormat)
      else Strptime(s, MonthFirstFormat)
  {
    var rest := [DayFirstFormat, MonthFirstFormat];
    assert FallbackFormats[0] == IsoFormat && FallbackFormats[1..] == rest;
    assert rest[0] == DayFirstFormat && rest[1..] == [MonthFirstFormat];
    assert [MonthFirstFormat][0] == MonthFirstFormat && [MonthFirstFormat][1..] == [];
    assert FirstMatch(s, FallbackFormats) ==
      if Strptime(s, IsoFormat).Some? then Strptime(s, IsoFormat) else FirstMatch(s, rest);
    assert FirstMatch(s, rest) ==
      if Strptime(s, DayFirstFormat).Some? then Strptime(s, DayFirstFormat) else FirstMatch(s, [MonthFirstFormat]);
    assert FirstMatch(s, [MonthFirstFormat]) ==
      if Strptime(s, MonthFirstFormat).Some? then Strptime(s, MonthFirstFormat) else FirstMatch(s, []);
  }

  // ----- two-digit fields ------------------------------------------------------------------

  lemma TwoDigitsValue(t: string)
    requires |t| == 2 && IsDigit(t[0]) && IsDigit(t[1])
    ensures DigitsValue(t) == 10 * DigitValue(t[0]) + DigitValue(t[1])
  {
    assert t[..1][..0] == [];
    assert t[..1][0] == t[0];
    assert DigitsValue(t[..1]) == DigitValue(t[0]);
    assert t[..|t| - 1] == t[..1];
  }

  /** On two digits, %m reads its longest form exactly when they spell a month 1..12, and %d
      exactly when they spell a day 1..31. */
  lemma TwoDigitFields(s: string, i: nat)
    requires i + 2 <= |s| && IsDigit(s[i]) && IsDigit(s[i + 1])
    ensures var v := DigitsValue(s[i..i + 2]);
      && FullAlt(Month, s, i) == (if 1 <= v <= 12 then Some(v) else None)
      && FullAlt(Day, s, i) == (if 1 <= v <= 31 then Some(v) else None)
  {
    TwoDigitsValue(s[i..i + 2]);
  }

  // ----- rendering ---------------------------------------------------------------------------

  lemma {:induction false} ZeroPaddedDigits(t: string)
    requires forall i :: 0 <= i < |t| ==> IsDigit(t[i])
    ensures DigitsValue(t) < Pow10(|t|)
    ensures ZeroPadded(DigitsValue(t), |t|) == t
  {
    if t != [] {
      var p := t[..|t| - 1];
      var c := t[|t| - 1];
      ZeroPaddedDigits(p);
      var n := DigitsValue(t);
      assert n == 10 * DigitsValue(p) + DigitValue(c);
      DecimalStep(DigitsValue(p), DigitValue(c), Pow10(|p|));
      assert DigitChar(DigitValue(c)) == c;
      assert t == p + [c];
    }
  }

  lemma DecimalStep(a: nat, b: nat, bound: nat)
    requires b < 10 && a < bound
    ensures (10 * a + b) / 10 == a && (10 * a + b) % 10 == b && 10 * a + b < 10 * bound
  {
  }

  /** What `strftime("%Y-%m-%d")` writes for a valid date is a valid `YYYY-MM-DD` text that
      reads back as the same date. */
  lemma RenderIsIsoDate(d: Date)
    requires ValidDate(d)
    ensures IsIsoDate(RenderIso(d))
    ensures RenderIso(d)[..4] == ZeroPadded(d.year, 4)
    ensures RenderIso(d)[5..7] == ZeroPadded(d.month, 2)
    ensures RenderIso(d)[8..] == ZeroPadded(d.day, 2)
  {
    var r := RenderIso(d);
    assert r[..4] == ZeroPadded(d.year, 4);
    assert r[5..7] == ZeroPadded(d.month, 2);
    assert r[8..] == ZeroPadded(d.day, 2);
  }

  /** Rearranging eight digits as `YYYY-MM-DD` is what rendering the date they spell gives. */
  lemma RenderDigits(s: string)
    requires |s| == 8 && IsDigits(s)
    requires ValidDate(Date(DigitsValue(s[..4]), DigitsValue(s[4..6]), DigitsValue(s[6..])))
    ensures RenderIso(Date(DigitsValue(s[..4]), DigitsValue(s[4..6]), DigitsValue(s[6..])))
            == s[..4] + "-" + s[4..6] + "-" + s[6..]
  {
    RenderFields(s[..4], s[4..6], s[6..]);
  }

  /** Rendering the date that four, two and two digits spell writes those digits back. */
  lemma RenderFields(y: string, m: string, d: string)
    requires |y| == 4 && |m| == 2 && |d| == 2 && IsDigits(y) && IsDigits(m) && IsDigits(d)
    requires ValidDate(Date(DigitsValue(y), DigitsValue(m), DigitsValue(d)))
    ensures RenderIso(Date(DigitsValue(y), DigitsValue(m), DigitsValue(d))) == y + "-" + m + "-" + d
  {
    ZeroPaddedDigits(y);
    ZeroPaddedDigits(m);
    ZeroPaddedDigits(d);
  }

  /** Rendered dates contain no whitespace, so `strip()` keeps them whole. */
  lemma IsoDateNoSpace(r: string)
    requires IsIsoDate(r)
    ensures forall i :: 0 <= i < |r| ==> !IsSpace(r[i])
  {
    forall i | 0 <= i < |r|
      ensures !IsSpace(r[i])
    {
      if i < 4 {
        assert r[i] == r[..4][i];
      } else if 5 <= i < 7 {
        assert r[i] == r[5..7][i - 5];
      } else if 8 <= i {
        assert r[i] == r[8..][i - 8];
      }
    }
  }
}

module InstallDateProperties {
  import opened Wrappers
  import opened Text
  import opened InstallDate

  /** The fields `%Y%m%d` reads from eight digits, when it reads its longest form. */
  lemma CompactCapture(s: string)
    requires |s| == 8 && IsDigits(s)
    ensures var y, m, d := DigitsValue(s[..4]), DigitsValue(s[4..6]), DigitsValue(s[6..]);
      FullCapture(CompactFormat, s, 0, DefaultFields)
        == if 1 <= m <= 12 && 1 <= d <= 31 then Some(Fields(y, m, d)) else None
  {
    var y, m, d := DigitsValue(s[..4]), DigitsValue(s[4..6]), DigitsValue(s[6..]);
    assert s[0..4] == s[..4] && IsDigits(s[..4]);
    assert FullAlt(Year, s, 0) == Some(y);
    TwoDigitFields(s, 4);
    TwoDigitFields(s, 6);
    assert s[6..8] == s[6..];
    var f1 := DefaultFields.(year := y);
    assert CompactFormat[1..] == [Month, Day] && [Month, Day][1..] == [Day] && [Day][1..] == [];
    assert FullCapture(CompactFormat, s, 0, DefaultFields) == FullCapture([Month, Day], s, 4, f1);
    if 1 <= m <= 12 {
      var f2 := f1.(month := m);
      assert FullCapture([Month, Day], s, 4, f1) == FullCapture([Day], s, 6, f2);
      if 1 <= d <= 31 {
        assert FullCapture([Day], s, 6, f2) == FullCapture([], s, 8, f2.(day := d));
      } else {
        assert FullCapture([Day], s, 6, f2) == None;
      }
    } else {
      assert FullCapture([Month, Day], s, 4, f1) == None;
    }
  }

  /** Eight digits `YYYYMMDD` are read as that date when it exists; when it does not (a 30th of
      February, a 13th month, `99999999`) no rule reads them, because no fallback format can
      match text made only of digits. */
  lemma EightDigitRules(s: string)
    requires |s| == 8 && IsDigits(s)
    ensures var d := Date(DigitsValue(s[..4]), DigitsValue(s[4..6]), DigitsValue(s[6..]));
      ParseRules(s) == if ValidDate(d) then Some(d) else None
  {
    var d := Date(DigitsValue(s[..4]), DigitsValue(s[4..6]), DigitsValue(s[6..]));
    StrptimeExact(s, CompactFormat);
    CompactCapture(s);
    assert Strptime(s, CompactFormat) == if ValidDate(d) then Some(d) else None;
    if !ValidDate(d) {
      FallbacksRejectDigits(s);
    }
  }

  /** An eight-digit `YYYYMMDD` naming a calendar date comes back as `YYYY-MM-DD`; eight digits
      that name no date come back unchanged. */
  lemma EightDigitDate(raw: string)
    requires |Strip(raw)| == 8 && IsDigits(Strip(raw))
    ensures var s := Strip(raw);
      var d := Date(DigitsValue(s[..4]), DigitsValue(s[4..6]), DigitsValue(s[6..]));
      ParseInstallDate(raw) == if ValidDate(d) then s[..4] + "-" + s[4..6] + "-" + s[6..] else s
  {
    var s := Strip(raw);
    var d := Date(DigitsValue(s[..4]), DigitsValue(s[4..6]), DigitsValue(s[6..]));
    EightDigitRules(s);
    if ValidDate(d) {
      RenderDigits(s);
    }
  }

  /** The `%Y-%m-%d` reading of a `YYYY-MM-DD` calendar date is that date. */
  lemma IsoCapture(r: string)
    requires IsIsoDate(r)
    ensures Strptime(r, IsoFormat) == Some(Date(DigitsValue(r[..4]), DigitsValue(r[5..7]), DigitsValue(r[8..])))
  {
    var y, m, d := DigitsValue(r[..4]), DigitsValue(r[5..7]), DigitsValue(r[8..]);
    assert r[0..4] == r[..4];
    assert FullAlt(Year, r, 0) == Some(y);
    assert r[5] == r[5..7][0] && r[6] == r[5..7][1];
    assert r[8] == r[8..][0] && r[9] == r[8..][1] && r[8..10] == r[8..];
    TwoDigitFields(r, 5);
    TwoDigitFields(r, 8);
    var f1 := DefaultFields.(year := y);
    var f2 := f1.(month := m);
    var p1 := [Lit('-'), Month, Lit('-'), Day];
    assert IsoFormat[1..] == p1 && p1[1..] == [Month, Lit('-'), Day];
    assert [Month, Lit('-'), Day][1..] == [Lit('-'), Day] && [Lit('-'), Day][1..] == [Day] && [Day][1..] == [];
    assert FullCapture(IsoFormat, r, 0, DefaultFields) == FullCapture(p1, r, 4, f1);
    assert FullCapture(p1, r, 4, f1) == FullCapture([Month, Lit('-'), Day], r, 5, f1);
    assert FullCapture([Month, Lit('-'), Day], r, 5, f1) == FullCapture([Lit('-'), Day], r, 7, f2);
    assert FullCapture([Lit('-'), Day], r, 7, f2) == FullCapture([Day], r, 8, f2);
    assert FullCapture(IsoFormat, r, 0, DefaultFields) == Some(Fields(y, m, d));
    StrptimeExact(r, IsoFormat);
  }

  /** Every `YYYY-MM-DD` calendar date is left as it is. */
  lemma {:induction false} IsoDateFixedPoint(r: string)
    requires IsIsoDate(r)
    ensures ParseInstallDate(r) == r
  {
    var d := Date(DigitsValue(r[..4]), DigitsValue(r[5..7]), DigitsValue(r[8..]));
    assert ParseRules(r) == Some(d) by {
      IsoCapture(r);
      FallbackOrder(r);
    }
    assert RenderIso(d) == r by {
      ReadBackIso(r);
    }
    assert r != [];
    IsoDateNoSpace(r);
    StripNoSpace(r);
    RuleFixedPoint(r, d);
  }

  /** Some rule reads every `YYYY-MM-DD` calendar date. */
  lemma IsoParses(s: string)
    ensures IsIsoDate(s) ==> ParseRules(s).Some?
  {
    if IsIsoDate(s) {
      IsoCapture(s);
      FallbackOrder(s);
    }
  }

  /** The result is a `YYYY-MM-DD` date exactly when one of the rules parsed the stripped text;
      when none did, the stripped text comes back exactly. */
  lemma ParsedIffIsoDate(raw: string)
    requires Strip(raw) != ""
    ensures ParseRules(Strip(raw)).Some? <==> IsIsoDate(ParseInstallDate(raw))
    ensures ParseRules(Strip(raw)).None? ==> ParseInstallDate(raw) == Strip(raw)
  {
    var s := Strip(raw);
    IsoParses(s);
    match ParseRules(s) {
      case Some(d) => RenderIsIsoDate(d);
      case None =>
    }
  }

  lemma RuleFixedPoint(s: string, d: Date)
    requires Strip(s) == s && s != ""
    requires ParseRules(s) == Some(d) && RenderIso(d) == s
    ensures ParseInstallDate(s) == s
  {
  }

  /** Rendering the date a `YYYY-MM-DD` text names gives that text back. */
  lemma ReadBackIso(r: string)
    requires IsIsoDate(r)
    ensures RenderIso(Date(DigitsValue(r[..4]), DigitsValue(r[5..7]), DigitsValue(r[8..]))) == r
  {
    ZeroPaddedDigits(r[..4]);
    ZeroPaddedDigits(r[5..7]);
    ZeroPaddedDigits(r[8..]);
    assert r == r[..4] + "-" + r[5..7] + "-" + r[8..];
  }

  /** Normalizing a normalized date changes nothing. */
  lemma {:induction false} ParseInstallDateIdempotent(raw: string)
    ensures ParseInstallDate(ParseInstallDate(raw)) == ParseInstallDate(raw)
  {
    var r := ParseInstallDate(raw);
    if IsIsoDate(r) {
      IsoDateFixedPoint(r);
    } else if r != "" {
      assert r == Strip(raw);
      StripIdempotent(raw);
    }
  }

  /** The tails of a slashed format and the longest text each can read. */
  lemma SlashedTails(fmt: Format, first: Directive, second: Directive)
    requires (first, second) == (Day, Month) || (first, second) == (Month, Day)
    requires fmt == [first, Lit('/'), second, Lit('/'), Year]
    ensures var p1 := fmt[1..]; var p2 := p1[1..]; var p3 := p2[1..];
      p1[0] == Lit('/') && p2[0] == second && p3[0] == Lit('/') && p3[1..] == [Year] && [Year][1..] == []
      && MaxLen([Year]) == 4 && MaxLen(p3) == 5 && MaxLen(p2) == 7 && MaxLen(p1) == 8 && MaxLen(fmt) == 10
  {
    var p1 := fmt[1..];
    var p2 := p1[1..];
    var p3 := p2[1..];
    assert p3 == [Lit('/'), Year];
    assert p3[1..] == [Year];
    assert MaxLen([Year]) == 4;
    assert MaxLen(p3) == 5;
    assert MaxLen(p2) == 7;
    assert MaxLen(p1) == 8;
  }

  /** How `strptime` reads `AA/BB/YYYY` for one of the two slashed formats. */
  lemma SlashedStrptime(s: string, fmt: Format, first: Directive, second: Directive)
    requires |s| == 10 && s[2] == '/' && s[5] == '/' && IsDigits(s[..2]) && IsDigits(s[3..5]) && IsDigits(s[6..])
    requires (first, second) == (Day, Month) || (first, second) == (Month, Day)
    requires fmt == [first, Lit('/'), second, Lit('/'), Year]
    ensures var a, b, y := DigitsValue(s[..2]), DigitsValue(s[3..5]), DigitsValue(s[6..]);
      var d := if first == Day then Date(y, b, a) else Date(y, a, b);
      Strptime(s, fmt) == if ValidDate(d) then Some(d) else None
  {
    var a, b, y := DigitsValue(s[..2]), DigitsValue(s[3..5]), DigitsValue(s[6..]);
    assert s[0] == s[..2][0] && s[1] == s[..2][1] && s[0..2] == s[..2];
    assert s[3] == s[3..5][0] && s[4] == s[3..5][1];
    assert s[6..10] == s[6..];
    TwoDigitFields(s, 0);
    TwoDigitFields(s, 3);
    assert FullAlt(Year, s, 6) == Some(y);
    SlashedTails(fmt, first, second);
    var p2 := fmt[1..][1..];
    var d := if first == Day then Date(y, b, a) else Date(y, a, b);
    StrptimeExact(s, fmt);
    if FullAlt(first, s, 0).Some? {
      var f1 := Capture(DefaultFields, first, a);
      assert FullCapture(fmt, s, 0, DefaultFields) == FullCapture(p2, s, 3, f1);
      if FullAlt(second, s, 3).Some? {
        var f2 := Capture(f1, second, b);
        assert FullCapture(p2, s, 3, f1) == FullCapture([Year], s, 6, f2);
        assert FullCapture(fmt, s, 0, DefaultFields) == Some(Fields(y, d.month, d.day));
      } else {
        assert FullCapture(fmt, s, 0, DefaultFields) == None;
      }
    } else {
      assert FullCapture(fmt, s, 0, DefaultFields) == None;
    }
  }

  /** Slashed text `AA/BB/YYYY` is read as day/month when that names a date (`%d/%m/%Y` is
      tried first), else as month/day, else not at all. */
  lemma SlashedRules(s: string)
    requires |s| == 10 && s[2] == '/' && s[5] == '/' && IsDigits(s[..2]) && IsDigits(s[3..5]) && IsDigits(s[6..])
    ensures var a, b, y := DigitsValue(s[..2]), DigitsValue(s[3..5]), DigitsValue(s[6..]);
      ParseRules(s) ==
        if ValidDate(Date(y, b, a)) then Some(Date(y, b, a))
        else if ValidDate(Date(y, a, b)) then Some(Date(y, a, b))
        else None
  {
    assert !IsDigits(s[..4]) by {
      assert s[..4][2] == '/';
    }
    assert FullAlt(Year, s, 0) == None by {
      assert s[0..4] == s[..4];
    }
    assert FullCapture(IsoFormat, s, 0, DefaultFields) == None;
    StrptimeExact(s, IsoFormat);
    SlashedStrptime(s, DayFirstFormat, Day, Month);
    SlashedStrptime(s, MonthFirstFormat, Month, Day);
    FallbackOrder(s);
    assert |s| != 8;
  }

  /** Slashed dates `AA/BB/YYYY` after stripping: day/month first, then month/day, else the
      stripped text unchanged. So `01/02/2023` is the 1st of February. */
  lemma SlashedDate(raw: string)
    requires var s := Strip(raw);
      |s| == 10 && s[2] == '/' && s[5] == '/' && IsDigits(s[..2]) && IsDigits(s[3..5]) && IsDigits(s[6..])
    ensures var s := Strip(raw);
      var a, b, y := DigitsValue(s[..2]), DigitsValue(s[3..5]), DigitsValue(s[6..]);
      ParseInstallDate(raw) ==
        if ValidDate(Date(y, b, a)) then s[6..] + "-" + s[3..5] + "-" + s[..2]
        else if ValidDate(Date(y, a, b)) then s[6..] + "-" + s[..2] + "-" + s[3..5]
        else s
  {
    var s := Strip(raw);
    var a, b, y := DigitsValue(s[..2]), DigitsValue(s[3..5]), DigitsValue(s[6..]);
    SlashedRules(s);
    if ValidDate(Date(y, b, a)) {
      RenderFields(s[6..], s[3..5], s[..2]);
    } else if ValidDate(Date(y, a, b)) {
      RenderFields(s[6..], s[..2], s[3..5]);
    }
  }

  // ----- one-digit fields ------------------------------------------------------------------

  /** The month and day of the ISO format on one-digit fields, from the position after the
      year's dash. */
  lemma IsoOneDigitTail(s: string, p2: Format, f1: Fields)
    requires |s| == 8 && s[6] == '-' && '1' <= s[5] <= '9' && '1' <= s[7] <= '9'
    requires p2 == [Month, Lit('-'), Day]
    ensures Match(p2, s, 5, f1) == Some((Capture(Capture(f1, Month, DigitValue(s[5])), Day, DigitValue(s[7])), 8))
  {
    var p3 := p2[1..];
    var p4 := p3[1..];
    assert p3[0] == Lit('-') && p4 == [Day] && p4[1..] == [];
    var f2 := Capture(f1, Month, DigitValue(s[5]));
    OneDigitAlts(Month, s, 5);
    MatchOnly(p2, s, 5, f1, Alt(1, DigitValue(s[5])));
    MatchLit(p3, s, 6, f2);
    OneDigitAlts(Day, s, 7);
    MatchOnly(p4, s, 7, f2, Alt(1, DigitValue(s[7])));
  }

  /** The match of the ISO format on `YYYY-M-D`. */
  lemma IsoOneDigitMatch(s: string)
    requires |s| == 8 && IsDigits(s[..4]) && s[4] == '-' && s[6] == '-' && '1' <= s[5] <= '9' && '1' <= s[7] <= '9'
    ensures var f1 := Capture(DefaultFields, Year, DigitsValue(s[..4]));
      Match(IsoFormat, s, 0, DefaultFields) == Some((Capture(Capture(f1, Month, DigitValue(s[5])), Day, DigitValue(s[7])), 8))
  {
    var y := DigitsValue(s[..4]);
    var p1 := IsoFormat[1..];
    var p2 := p1[1..];
    assert IsoFormat[0] == Year && p1[0] == Lit('-') && p2 == [Month, Lit('-'), Day];
    assert s[0..4] == s[..4];
    var f1 := Capture(DefaultFields, Year, y);
    MatchOnly(IsoFormat, s, 0, DefaultFields, Alt(4, y));
    MatchLit(p1, s, 4, f1);
    IsoOneDigitTail(s, p2, f1);
  }

  /** `%Y-%m-%d` on `YYYY-M-D`: the one-character alternatives `[1-9]` read the month and the
      day, which always name a day of that month. */
  lemma IsoOneDigitStrptime(s: string)
    requires |s| == 8 && IsDigits(s[..4]) && s[4] == '-' && s[6] == '-' && '1' <= s[5] <= '9' && '1' <= s[7] <= '9'
    ensures var y := DigitsValue(s[..4]);
      Strptime(s, IsoFormat) == if 1 <= y then Some(Date(y, DigitValue(s[5]), DigitValue(s[7]))) else None
  {
    IsoOneDigitMatch(s);
    ZeroPaddedDigits(s[..4]);
  }

  /** A date with a one-digit month and day is rendered with a zero before each. */
  lemma RenderOneDigitFields(y: string, a: char, b: char)
    requires |y| == 4 && IsDigits(y) && 1 <= DigitsValue(y) && '1' <= a <= '9' && '1' <= b <= '9'
    ensures var d := Date(DigitsValue(y), DigitValue(a), DigitValue(b));
      ValidDate(d) && RenderIso(d) == y + "-" + ("0" + [a]) + "-" + ("0" + [b])
  {
    ZeroPadOneDigit(a);
    ZeroPadOneDigit(b);
    ZeroPaddedDigits(y);
    RenderFields(y, "0" + [a], "0" + [b]);
  }

  /** A digit with a zero before it is two digits of the same value. */
  lemma ZeroPadOneDigit(c: char)
    requires IsDigit(c)
    ensures var t := "0" + [c];
      |t| == 2 && IsDigits(t) && DigitsValue(t) == DigitValue(c)
  {
    TwoDigitsValue("0" + [c]);
  }

  /** `YYYY-M-D` with one-digit fields is read by the ISO format, and by no other when the year
      is 0. */
  lemma IsoOneDigitRules(s: string)
    requires |s| == 8 && IsDigits(s[..4]) && s[4] == '-' && s[6] == '-' && '1' <= s[5] <= '9' && '1' <= s[7] <= '9'
    ensures var y := DigitsValue(s[..4]);
      ParseRules(s) == if 1 <= y then Some(Date(y, DigitValue(s[5]), DigitValue(s[7]))) else None
  {
    assert !IsDigits(s) by {
      assert !IsDigit(s[4]);
    }
    IsoOneDigitStrptime(s);
    FallbackOrder(s);
    if DigitsValue(s[..4]) < 1 {
      SeparatedFormatRejectsDigits(DayFirstFormat, s);
      SeparatedFormatRejectsDigits(MonthFirstFormat, s);
    }
  }

  /** `YYYY-M-D` becomes `YYYY-0M-0D`, so `2023-1-5` is `2023-01-05`; with year 0 it is no date
      and comes back unchanged. */
  lemma IsoOneDigitDate(raw: string)
    requires var s := Strip(raw);
      |s| == 8 && IsDigits(s[..4]) && s[4] == '-' && s[6] == '-' && '1' <= s[5] <= '9' && '1' <= s[7] <= '9'
    ensures var s := Strip(raw);
      ParseInstallDate(raw) == if 1 <= DigitsValue(s[..4]) then s[..4] + "-" + ("0" + s[5..6]) + "-" + ("0" + s[7..]) else s
  {
    var s := Strip(raw);
    IsoOneDigitRules(s);
    if 1 <= DigitsValue(s[..4]) {
      assert s[5..6] == [s[5]] && s[7..] == [s[7]];
      RenderOneDigitFields(s[..4], s[5], s[7]);
    }
  }

  /** The last three directives of a slashed format on `A/B/YYYY`, from the second field on. */
  lemma SlashedOneDigitTail(s: string, p2: Format, second: Directive, f1: Fields)
    requires |s| == 8 && s[1] == '/' && '1' <= s[2] <= '9' && s[3] == '/' && IsDigits(s[4..])
    requires second == Day || second == Month
    requires p2 == [second, Lit('/'), Year]
    ensures Match(p2, s, 2, f1) == Some((Capture(Capture(f1, second, DigitValue(s[2])), Year, DigitsValue(s[4..])), 8))
  {
    var b, y := DigitValue(s[2]), DigitsValue(s[4..]);
    var p3 := p2[1..];
    var p4 := p3[1..];
    assert p3[0] == Lit('/') && p4 == [Year] && p4[1..] == [];
    assert s[4..8] == s[4..];
    var f2 := Capture(f1, second, b);
    OneDigitAlts(second, s, 2);
    MatchOnly(p2, s, 2, f1, Alt(1, b));
    MatchLit(p3, s, 3, f2);
    MatchOnly(p4, s, 4, f2, Alt(4, y));
  }

  /** The match of a slashed format on `A/B/YYYY`: the one-character alternatives read `A` and
      `B` and the year takes the last four digits. */
  lemma SlashedOneDigitMatch(s: string, fmt: Format, first: Directive, second: Directive)
    requires |s| == 8 && '1' <= s[0] <= '9' && s[1] == '/' && '1' <= s[2] <= '9' && s[3] == '/' && IsDigits(s[4..])
    requires first == Day || first == Month
    requires second == Day || second == Month
    requires fmt == [first, Lit('/'), second, Lit('/'), Year]
    ensures var f1 := Capture(DefaultFields, first, DigitValue(s[0]));
      Match(fmt, s, 0, DefaultFields) == Some((Capture(Capture(f1, second, DigitValue(s[2])), Year, DigitsValue(s[4..])), 8))
  {
    var p1 := fmt[1..];
    var p2 := p1[1..];
    assert fmt[0] == first && p1[0] == Lit('/') && p2 == [second, Lit('/'), Year];
    var f1 := Capture(DefaultFields, first, DigitValue(s[0]));
    OneDigitAlts(first, s, 0);
    MatchOnly(fmt, s, 0, DefaultFields, Alt(1, DigitValue(s[0])));
    MatchLit(p1, s, 1, f1);
    SlashedOneDigitTail(s, p2, second, f1);
  }

  /** `%d/%m/%Y` and `%m/%d/%Y` on `A/B/YYYY` read `A` and `B` in their own order; a one-digit
      day exists in every month, so only year 0 is refused. */
  lemma SlashedOneDigitStrptime(s: string, fmt: Format, first: Directive, second: Directive)
    requires |s| == 8 && '1' <= s[0] <= '9' && s[1] == '/' && '1' <= s[2] <= '9' && s[3] == '/' && IsDigits(s[4..])
    requires (first, second) == (Day, Month) || (first, second) == (Month, Day)
    requires fmt == [first, Lit('/'), second, Lit('/'), Year]
    ensures var a, b, y := DigitValue(s[0]), DigitValue(s[2]), DigitsValue(s[4..]);
      var d := if first == Day then Date(y, b, a) else Date(y, a, b);
      Strptime(s, fmt) == if 1 <= y then Some(d) else None
  {
    var a, b, y := DigitValue(s[0]), DigitValue(s[2]), DigitsValue(s[4..]);
    SlashedOneDigitMatch(s, fmt, first, second);
    ZeroPaddedDigits(s[4..]);
  }

  /** `A/B/YYYY` does not start with four digits, so the ISO format refuses it. */
  lemma SlashedNotIso(s: string)
    requires |s| == 8 && s[1] == '/'
    ensures Strptime(s, IsoFormat) == None
  {
    assert !IsDigits(s[0..4]) by {
      assert !IsDigit(s[0..4][1]);
    }
    assert Alts(Year, s, 0) == [];
  }

  /** The fallback formats read `A/B/YYYY` day first, and a one-digit day exists in every
      month; with year 0 no format reads it. */
  lemma SlashedOneDigitRules(s: string)
    requires |s| == 8 && '1' <= s[0] <= '9' && s[1] == '/' && '1' <= s[2] <= '9' && s[3] == '/' && IsDigits(s[4..])
    ensures var y := DigitsValue(s[4..]);
      ParseRules(s) == if 1 <= y then Some(Date(y, DigitValue(s[2]), DigitValue(s[0]))) else None
  {
    assert !IsDigits(s) by {
      assert !IsDigit(s[1]);
    }
    SlashedNotIso(s);
    SlashedOneDigitStrptime(s, DayFirstFormat, Day, Month);
    SlashedOneDigitStrptime(s, MonthFirstFormat, Month, Day);
    FallbackOrder(s);
  }

  /** `A/B/YYYY` is read day first: `1/2/2023` is `2023-02-01`. With year 0 it is no date and
      comes back unchanged. */
  lemma SlashedOneDigitDate(raw: string)
    requires var s := Strip(raw);
      |s| == 8 && '1' <= s[0] <= '9' && s[1] == '/' && '1' <= s[2] <= '9' && s[3] == '/' && IsDigits(s[4..])
    ensures var s := Strip(raw);
      ParseInstallDate(raw) == if 1 <= DigitsValue(s[4..]) then s[4..] + "-" + ("0" + s[2..3]) + "-" + ("0" + s[..1]) else s
  {
    var s := Strip(raw);
    SlashedOneDigitRules(s);
    if 1 <= DigitsValue(s[4..]) {
      assert s[2..3] == [s[2]] && s[..1] == [s[0]];
      RenderOneDigitFields(s[4..], s[2], s[0]);
    }
  }

  // ----- fields of one or two digits --------------------------------------------------------

  /** How `strftime` writes a field that was read from one or two digits: two digits, with a
      zero in front of a single one. */
  function PadField(t: string): string
  {
    if |t| == 1 then "0" + t else t
  }

  lemma PadFieldDigits(t: string)
    requires (|t| == 1 || |t| == 2) && IsDigits(t)
    ensures var p := PadField(t);
      |p| == 2 && IsDigits(p) && DigitsValue(p) == DigitsValue(t)
  {
    assert IsDigit(t[0]);
    if |t| == 1 {
      assert t == [t[0]];
      OneDigitValue(t);
      ZeroPadOneDigit(t[0]);
    }
  }

  /** The month, dash and day of `%Y-%m-%d`, each field of one or two digits. */
  lemma IsoFieldsTail(s: string, p2: Format, f1: Fields, lm: nat, ld: nat)
    requires p2 == [Month, Lit('-'), Day]
    requires |s| == 6 + lm + ld && s[5 + lm] == '-' && DigitField(s, 5, lm) && DigitField(s, 6 + lm, ld)
    ensures var m, d, r := DigitsValue(s[5..5 + lm]), DigitsValue(s[6 + lm..6 + lm + ld]), Match(p2, s, 5, f1);
      if FieldInRange(Month, m) && FieldInRange(Day, d) then r == Some((Capture(Capture(f1, Month, m), Day, d), |s|))
      else r.None? || r.value.1 < |s|
  {
    var m := DigitsValue(s[5..5 + lm]);
    var p3 := p2[1..];
    assert p3 == [Lit('-'), Day];
    FieldThenLit(p2, s, 5, f1, lm);
    if FieldInRange(Month, m) {
      IsoDayTail(s, p3, Capture(f1, Month, m), lm, ld);
    }
  }

  /** The dash and the day of `%Y-%m-%d`, the day of one or two digits ending the text. */
  lemma IsoDayTail(s: string, p3: Format, f2: Fields, lm: nat, ld: nat)
    requires p3 == [Lit('-'), Day]
    requires |s| == 6 + lm + ld && s[5 + lm] == '-' && DigitField(s, 6 + lm, ld)
    ensures var d, r := DigitsValue(s[6 + lm..6 + lm + ld]), Match(p3, s, 5 + lm, f2);
      if FieldInRange(Day, d) then r == Some((Capture(f2, Day, d), |s|))
      else r.None? || r.value.1 < |s|
  {
    var p4 := p3[1..];
    assert p4 == [Day];
    MatchLit(p3, s, 5 + lm, f2);
    FieldAtEnd(p4, s, 6 + lm, f2, ld);
  }

  /** `%Y-%m-%d` on `YYYY-M-D`, `YYYY-MM-D`, `YYYY-M-DD` or `YYYY-MM-DD`: it reads the year and
      the two fields to the end of the text when both fields are in range, and otherwise
      refuses the text. */
  lemma IsoFieldsMatch(s: string, lm: nat, ld: nat)
    requires |s| == 6 + lm + ld && IsDigits(s[..4]) && s[4] == '-' && s[5 + lm] == '-'
    requires DigitField(s, 5, lm) && DigitField(s, 6 + lm, ld)
    ensures var y, m, d := DigitsValue(s[..4]), DigitsValue(s[5..5 + lm]), DigitsValue(s[6 + lm..]);
      var r := Match(IsoFormat, s, 0, DefaultFields);
      if FieldInRange(Month, m) && FieldInRange(Day, d) then r == Some((Fields(y, m, d), |s|))
      else r.None? || r.value.1 < |s|
  {
    var y := DigitsValue(s[..4]);
    var p1 := IsoFormat[1..];
    var p2 := p1[1..];
    assert IsoFormat[0] == Year && p1[0] == Lit('-') && p2 == [Month, Lit('-'), Day];
    assert s[0..4] == s[..4];
    assert s[6 + lm..] == s[6 + lm..6 + lm + ld];
    var f1 := Capture(DefaultFields, Year, y);
    MatchOnly(IsoFormat, s, 0, DefaultFields, Alt(4, y));
    MatchLit(p1, s, 4, f1);
    IsoFieldsTail(s, p2, f1, lm, ld);
  }

  /** `%Y-%m-%d` reads `YYYY-M-D` with fields of one or two digits as the date they name, and
      refuses the text when that is no calendar date. */
  lemma IsoFieldsStrptime(s: string, lm: nat, ld: nat)
    requires |s| == 6 + lm + ld && IsDigits(s[..4]) && s[4] == '-' && s[5 + lm] == '-'
    requires DigitField(s, 5, lm) && DigitField(s, 6 + lm, ld)
    ensures var d := Date(DigitsValue(s[..4]), DigitsValue(s[5..5 + lm]), DigitsValue(s[6 + lm..]));
      Strptime(s, IsoFormat) == if ValidDate(d) then Some(d) else None
  {
    IsoFieldsMatch(s, lm, ld);
  }

  /** The rules read `YYYY-M-D` with fields of one or two digits as the date it names, if any. */
  lemma IsoFieldsRules(s: string, lm: nat, ld: nat)
    requires |s| == 6 + lm + ld && IsDigits(s[..4]) && s[4] == '-' && s[5 + lm] == '-'
    requires DigitField(s, 5, lm) && DigitField(s, 6 + lm, ld)
    ensures var d := Date(DigitsValue(s[..4]), DigitsValue(s[5..5 + lm]), DigitsValue(s[6 + lm..]));
      ParseRules(s) == if ValidDate(d) then Some(d) else None
  {
    assert !IsDigits(s) by {
      assert !IsDigit(s[4]);
    }
    assert IsDigit(s[1]) && IsDigit(s[2]) by {
      assert s[..4][1] == s[1] && s[..4][2] == s[2];
    }
    IsoFieldsStrptime(s, lm, ld);
    FallbackOrder(s);
    SeparatedFormatRejectsDigits(DayFirstFormat, s);
    SeparatedFormatRejectsDigits(MonthFirstFormat, s);
  }

  /** `YYYY-M-D` with fields of one or two digits becomes `YYYY-MM-DD` when it names a date, a
      zero written in front of a one-digit field; otherwise it comes back unchanged. */
  lemma IsoFieldsDate(raw: string, lm: nat, ld: nat)
    requires var s := Strip(raw);
      |s| == 6 + lm + ld && IsDigits(s[..4]) && s[4] == '-' && s[5 + lm] == '-'
      && DigitField(s, 5, lm) && DigitField(s, 6 + lm, ld)
    ensures var s := Strip(raw);
      var d := Date(DigitsValue(s[..4]), DigitsValue(s[5..5 + lm]), DigitsValue(s[6 + lm..]));
      ParseInstallDate(raw) == if ValidDate(d) then s[..4] + "-" + PadField(s[5..5 + lm]) + "-" + PadField(s[6 + lm..]) else s
  {
    var s := Strip(raw);
    IsoFieldsRules(s, lm, ld);
    var mt, dt := s[5..5 + lm], s[6 + lm..];
    if ValidDate(Date(DigitsValue(s[..4]), DigitsValue(mt), DigitsValue(dt))) {
      assert dt == s[6 + lm..6 + lm + ld];
      PadFieldDigits(mt);
      PadFieldDigits(dt);
      RenderFields(s[..4], PadField(mt), PadField(dt));
    }
  }

  /** The second field, slash and year of a slashed format, the field of one or two digits. */
  lemma SlashedFieldsTail(s: string, p2: Format, second: Directive, f1: Fields, la: nat, lb: nat)
    requires second == Day || second == Month
    requires p2 == [second, Lit('/'), Year]
    requires |s| == la + lb + 6 && DigitField(s, la + 1, lb) && s[la + lb + 1] == '/' && IsDigits(s[la + lb + 2..])
    ensures var b, y := DigitsValue(s[la + 1..la + lb + 1]), DigitsValue(s[la + lb + 2..]);
      Match(p2, s, la + 1, f1) ==
        if FieldInRange(second, b) then Some((Capture(Capture(f1, second, b), Year, y), |s|)) else None
  {
    var b, y := DigitsValue(s[la + 1..la + lb + 1]), DigitsValue(s[la + lb + 2..]);
    var j := la + lb + 2;
    var p3 := p2[1..];
    var p4 := p3[1..];
    assert p3[0] == Lit('/') && p4 == [Year] && p4[1..] == [];
    assert s[j..j + 4] == s[j..];
    FieldThenLit(p2, s, la + 1, f1, lb);
    if FieldInRange(second, b) {
      var f2 := Capture(f1, second, b);
      MatchLit(p3, s, la + lb + 1, f2);
      MatchOnly(p4, s, j, f2, Alt(4, y));
    }
  }

  /** `%d/%m/%Y` and `%m/%d/%Y` on `A/B/YYYY` with fields of one or two digits: they read both
      fields and the year to the end of the text when each field is in range for its directive,
      and otherwise refuse the text. */
  lemma SlashedFieldsMatch(s: string, fmt: Format, first: Directive, second: Directive, la: nat, lb: nat)
    requires first == Day || first == Month
    requires second == Day || second == Month
    requires fmt == [first, Lit('/'), second, Lit('/'), Year]
    requires |s| == la + lb + 6 && DigitField(s, 0, la) && s[la] == '/'
    requires DigitField(s, la + 1, lb) && s[la + lb + 1] == '/' && IsDigits(s[la + lb + 2..])
    ensures var a, b, y := DigitsValue(s[..la]), DigitsValue(s[la + 1..la + lb + 1]), DigitsValue(s[la + lb + 2..]);
      Match(fmt, s, 0, DefaultFields) ==
        if FieldInRange(first, a) && FieldInRange(second, b)
        then Some((Capture(Capture(Capture(DefaultFields, first, a), second, b), Year, y), |s|))
        else None
  {
    var a := DigitsValue(s[..la]);
    var p1 := fmt[1..];
    var p2 := p1[1..];
    assert fmt[0] == first && p1[0] == Lit('/') && p2 == [second, Lit('/'), Year];
    assert s[0..la] == s[..la];
    FieldThenLit(fmt, s, 0, DefaultFields, la);
    if FieldInRange(first, a) {
      var f1 := Capture(DefaultFields, first, a);
      MatchLit(p1, s, la, f1);
      SlashedFieldsTail(s, p2, second, f1, la, lb);
    }
  }

  /** `%d/%m/%Y` and `%m/%d/%Y` read `A/B/YYYY` with fields of one or two digits in their own
      field order, and refuse it when that is no calendar date. */
  lemma SlashedFieldsStrptime(s: string, fmt: Format, first: Directive, second: Directive, la: nat, lb: nat)
    requires (first, second) == (Day, Month) || (first, second) == (Month, Day)
    requires fmt == [first, Lit('/'), second, Lit('/'), Year]
    requires |s| == la + lb + 6 && DigitField(s, 0, la) && s[la] == '/'
    requires DigitField(s, la + 1, lb) && s[la + lb + 1] == '/' && IsDigits(s[la + lb + 2..])
    ensures var a, b, y := DigitsValue(s[..la]), DigitsValue(s[la + 1..la + lb + 1]), DigitsValue(s[la + lb + 2..]);
      var d := if first == Day then Date(y, b, a) else Date(y, a, b);
      Strptime(s, fmt) == if ValidDate(d) then Some(d) else None
  {
    SlashedFieldsMatch(s, fmt, first, second, la, lb);
  }

  /** Text whose first four characters are not all digits is refused by `%Y-%m-%d`. */
  lemma NoYearNotIso(s: string)
    requires 4 <= |s| && !IsDigits(s[..4])
    ensures Strptime(s, IsoFormat) == None
  {
    assert s[0..4] == s[..4];
    assert Alts(Year, s, 0) == [];
  }

  /** The rules read `A/B/YYYY` with fields of one or two digits as day/month when that is a
      date, else as month/day, else not at all. */
  lemma SlashedFieldsRules(s: string, la: nat, lb: nat)
    requires |s| == la + lb + 6 && DigitField(s, 0, la) && s[la] == '/'
    requires DigitField(s, la + 1, lb) && s[la + lb + 1] == '/' && IsDigits(s[la + lb + 2..])
    ensures var a, b, y := DigitsValue(s[..la]), DigitsValue(s[la + 1..la + lb + 1]), DigitsValue(s[la + lb + 2..]);
      ParseRules(s) ==
        if ValidDate(Date(y, b, a)) then Some(Date(y, b, a))
        else if ValidDate(Date(y, a, b)) then Some(Date(y, a, b))
        else None
  {
    assert !IsDigits(s) by {
      assert !IsDigit(s[la]);
    }
    assert !IsDigits(s[..4]) by {
      assert s[..4][la] == '/';
    }
    NoYearNotIso(s);
    SlashedFieldsStrptime(s, DayFirstFormat, Day, Month, la, lb);
    SlashedFieldsStrptime(s, MonthFirstFormat, Month, Day, la, lb);
    FallbackOrder(s);
  }

  /** `A/B/YYYY` with fields of one or two digits becomes `YYYY-MM-DD`, day/month first, then
      month/day, a zero written in front of a one-digit field; otherwise it comes back
      unchanged. */
  lemma SlashedFieldsDate(raw: string, la: nat, lb: nat)
    requires var s := Strip(raw);
      |s| == la + lb + 6 && DigitField(s, 0, la) && s[la] == '/'
      && DigitField(s, la + 1, lb) && s[la + lb + 1] == '/' && IsDigits(s[la + lb + 2..])
    ensures var s := Strip(raw);
      var at, bt, yt := s[..la], s[la + 1..la + lb + 1], s[la + lb + 2..];
      var a, b, y := DigitsValue(at), DigitsValue(bt), DigitsValue(yt);
      ParseInstallDate(raw) ==
        if ValidDate(Date(y, b, a)) then yt + "-" + PadField(bt) + "-" + PadField(at)
        else if ValidDate(Date(y, a, b)) then yt + "-" + PadField(at) + "-" + PadField(bt)
        else s
  {
    var s := Strip(raw);
    var at, bt, yt := s[..la], s[la + 1..la + lb + 1], s[la + lb + 2..];
    SlashedFieldsRules(s, la, lb);
    assert at == s[0..la];
    PadFieldDigits(at);
    PadFieldDigits(bt);
    if ValidDate(Date(DigitsValue(yt), DigitsValue(bt), DigitsValue(at))) {
      RenderFields(yt, PadField(bt), PadField(at));
    } else if ValidDate(Date(DigitsValue(yt), DigitsValue(at), DigitsValue(bt))) {
      RenderFields(yt, PadField(at), PadField(bt));
    }
  }

  /** Stripped text longer than ten characters is longer than any format reads, so every
      `strptime` call refuses it ("unconverted data remains") and it comes back unchanged: a
      date followed by a time, for instance. */
  lemma LongTextUnchanged(raw: string)
    requires |Strip(raw)| > 10
    ensures ParseInstallDate(raw) == Strip(raw)
  {
    var s := Strip(raw);
    SlashedTails(DayFirstFormat, Day, Month);
    SlashedTails(MonthFirstFormat, Month, Day);
    assert MaxLen(IsoFormat) == 10 by {
      var p1 := IsoFormat[1..];
      var p2 := p1[1..];
      var p3 := p2[1..];
      var p4 := p3[1..];
      assert p4 == [Day] && [Day][1..] == [];
      assert MaxLen(p4) == 2;
      assert MaxLen(p3) == 3;
      assert MaxLen(p2) == 5;
      assert MaxLen(p1) == 6;
    }
    StrptimeBounded(s, IsoFormat);
    StrptimeBounded(s, DayFirstFormat);
    StrptimeBounded(s, MonthFirstFormat);
    FallbackOrder(s);
  }

}
