# ListInstalledSoftware — a verified model of its core

ListInstalledSoftware is a Windows script. It walks the three `Uninstall` registry keys,
builds one six-field record per installed program, deduplicates the records, and writes them
as CSV or as a text report. This project models the part of `list_software.py` that computes
rather than talks to the operating system, and proves properties of it. That part has three
pieces:

- **Install-date normalizer** (`_parse_install_date`). It is the function
  `InstallDate.ParseInstallDate`, built on a small model of `datetime.strptime`. Each
  directive (`%Y`, `%m`, `%d`) becomes the alternatives of the regular expression CPython
  builds for it. These are matched with backtracking, first match wins. Text left over after
  the match is refused, and then the Gregorian calendar check is applied. Module
  `InstallDateProperties` proves what the normalizer does:
  - on eight-digit text;
  - on `YYYY-MM-DD` text;
  - on `AA/BB/YYYY` text with two-digit fields;
  - on `YYYY-M-D` and `A/B/YYYY` text with one-digit month and day;
  - on `YYYY-M-D` and `A/B/YYYY` text whose month and day each have one or two digits, such
    as `12/1/2023` or `2023-1-15`;
  - on stripped text longer than ten characters, which it returns unchanged;
  - that the normalizer is idempotent.
  Module `InstallDateExamples` works through concrete inputs.
- **Record builder and deduplicator** (the non-registry part of `get_installed_software`).
  - `Inventory.BuildRecord` is the body of the subkey loop.
  - The walk over the paths and the `OrderedDict` dedup are methods with loops:
    `CollectRows`, `AppendRows`, `DedupRows` and `GetInstalledSoftware`.
  - Each method is proved equal to a specification function: `Collect`, `Rows`, `Dedup` and
    `InstalledSoftware`.
  - Lemmas prove what the dedup keeps. It keeps exactly the first record of each key, in
    input order. Its result is a subsequence of the input, and the dedup is idempotent.
- **Text report** (`write_txt` with its `safe` helper). `TxtReport.WriteTxt` is a method
  that builds up the text the function writes, in two loops, as the source does. It is
  proved equal to the function `ReportText`. Lemmas give the rest:
  - the header width;
  - the column layout;
  - the line structure;
  - that the table holds the rows in `sorted` order and the appendix holds them in input
    order.
  The `sorted` call is modelled by `StableSort.SortRows`, a stable insertion sort. It is
  proved to be the only sequence that is a permutation of its input, is ordered by the key,
  and keeps equal-key records in input order. So it agrees with any stable sort.

The registry is not modelled. What the walk would read is the input of the model: a
`seq<PathListing>`. Each path is one of:
- `Missing`: `FileNotFoundError`, and the path is skipped.
- `Unreadable`: another `OSError`, which escapes the call.
- A list of subkeys. A subkey is `None` when reading it raised `OSError`, and the loop
  skips it.

Each registry value is `Option<RegValue>`:
- `None` when `QueryValueEx` fails;
- a string;
- a value of another type, given by the text `str()` would produce for it.

The files are `wrappers.dfy`, `text.dfy`, `install_date.dfy`, `install_date_examples.dfy`,
`inventory.dfy`, `sort.dfy` and `txt_report.dfy`.

## Model

| member | source | states |
|---|---|---|
| Text.StripSpec | list_software.py:19 | `strip()` returns the input minus an all-whitespace prefix and an all-whitespace suffix, and the result has no whitespace at either end |
| Text.StripIdempotent | list_software.py:27 | stripping twice is stripping once |
| Text.PadRight | list_software.py:111-112 | a `:w` format field pads on the right with spaces to at least `w` characters, keeps the whole text in front, and never truncates |
| Text.Lower | list_software.py:110 | `lower()` keeps the length, leaves no capital letter, and leaves every character that is not a capital letter as it is |
| Text.LowerIdempotent | list_software.py:110 | lower-casing twice is lower-casing once |
| Text.ReplaceChar | list_software.py:105 | after `replace(a, b)` with `a != b` no `a` is left, and text without `a` comes back unchanged |
| Text.RepeatAppend | list_software.py:109 | repeating a character `m + n` times is repeating it `m` times and then `n` times |
| Text.ZeroPadded | list_software.py:33 | the fixed-width decimal text `strftime` writes for a field has that width, only digits, and reads back as the number |
| InstallDate.DaysInMonth | list_software.py:33 | a month has 28 to 31 days, and has 29 exactly for February of a leap year |
| InstallDate.Strptime | list_software.py:33 | whatever `strptime` returns is a valid calendar date in years 1..9999 |
| InstallDate.Alts | list_software.py:33 | every regular-expression alternative of a directive reads between one character and the directive's width, within the text, and the first alternative is the full-width reading when there is one |
| InstallDate.MonthAlts | list_software.py:39 | the `%m` alternatives `1[0-2]`, `0[1-9]`, `[1-9]`: every one but the last reads two characters; a one-character reading is offered exactly when the next character is a non-zero digit, and it is then the last alternative, with that digit's value |
| InstallDate.DayAlts | list_software.py:39 | the `%d` alternatives `3[01]`, `[12]\d`, `0[1-9]`, `[1-9]`, ` [1-9]`: every one but the last reads two characters; a one-character reading is offered exactly when the next character is a non-zero digit, and it is then the last alternative, with that digit's value |
| InstallDate.MatchSound | list_software.py:33 | a regular-expression match of a format never reads more than the format's longest form, and a match of full length is the fixed-width reading of the text |
| InstallDate.TryAltsSound | list_software.py:33 | trying a directive's alternatives in order gives the same bounds as MatchSound |
| InstallDate.MatchComplete | list_software.py:33 | when the text has the format's full fixed-width shape, backtracking finds exactly that reading first |
| InstallDate.StrptimeBounded | list_software.py:33 | `strptime` refuses text longer than the format's longest form ("unconverted data remains") |
| InstallDate.MatchLit | list_software.py:39 | a literal of the format matches exactly its own character and moves one position on |
| InstallDate.MatchOnly | list_software.py:39 | a directive with a single alternative at a position matches exactly that reading |
| InstallDate.OneDigitAlts | list_software.py:39 | before a non-digit or the end, a non-zero digit is the only reading of `%m` and `%d` |
| InstallDate.OneDigitValue | list_software.py:39 | a single digit read as a number has that digit's value |
| InstallDate.AltsShape | list_software.py:39 | `%m` and `%d` offer at most two alternatives at a position, and a second one reads a single character: their two-character forms rule each other out by their first character |
| InstallDate.FieldAlts | list_software.py:39 | on a field of one or two digits ending at a non-digit or the end, the first alternative of `%m` or `%d` is the whole field exactly when its value is in range, and every other alternative is shorter |
| InstallDate.OneDigitFieldAlts | list_software.py:39 | a lone digit has the single reading of its own value when it is not `0`, and none when it is |
| InstallDate.ZeroFieldAlts | list_software.py:39 | a lone `0` is no reading of `%m` or `%d` |
| InstallDate.TwoDigitFieldAlts | list_software.py:39 | two digits are read whole, first, when their value is in range for `%m` or `%d`; every other reading is of one character |
| InstallDate.TryAltsShort | list_software.py:39 | with at most two alternatives, the first is tried and the second only when the first fails; with none the directive fails |
| InstallDate.LitRefusesDigit | list_software.py:39 | a separator that is not a digit does not match at a digit |
| InstallDate.OneCharAltFails | list_software.py:39 | in a two-digit field followed by a separator, a one-character reading leaves a digit where the separator must be, so the match fails |
| InstallDate.OneDigitThenRest | list_software.py:39 | a one-digit field is read, and the rest of the format matched after it, when it is in range; otherwise the directive fails |
| InstallDate.TwoDigitsThenLit | list_software.py:39 | a two-digit field followed by its separator is read whole, and the rest matched after it, when it is in range; otherwise the directive fails |
| InstallDate.FieldThenLit | list_software.py:39 | a field of one or two digits followed by its separator: `%m` or `%d` reads it whole and goes on when its value is in range, and the match fails otherwise |
| InstallDate.TwoDigitsAtEnd | list_software.py:39 | a two-digit field that ends the format is read whole when in range; otherwise at most one character is read |
| InstallDate.FieldAtEnd | list_software.py:39 | a field of one or two digits that ends the text and the format is read to the end when its value is in range; otherwise the match stops short of the end |
| InstallDate.StrptimeExact | list_software.py:33 | on text exactly as long as the format's longest form, `strptime` is the fixed-width reading followed by the calendar check |
| InstallDate.SeparatedFormatRejectsDigits | list_software.py:39 | a format whose first field is followed by a non-digit separator refuses text whose characters after the first are digits as far as that field can read, in particular all-digit text |
| InstallDate.FallbacksRejectDigits | list_software.py:30-42 | none of the three fallback formats parses all-digit text, so an eight-digit non-date falls through to the pass-through |
| InstallDate.FirstMatch | list_software.py:37-41 | trying the formats one after the other gives a valid calendar date whenever it gives anything |
| InstallDate.ParseRules | list_software.py:30-41 | the rules (`%Y%m%d` on eight digits, then the fallbacks) give a valid calendar date whenever they read the text |
| InstallDate.FallbackOrder | list_software.py:37-41 | the fallbacks are tried as `%Y-%m-%d`, then `%d/%m/%Y`, then `%m/%d/%Y`, and the first that parses wins |
| InstallDate.RenderIsIsoDate | list_software.py:33 | `strftime("%Y-%m-%d")` of a date is `YYYY-MM-DD` text naming that date |
| InstallDate.ZeroPaddedDigits | list_software.py:33 | a run of digits is the zero-padded rendering of its own value |
| InstallDate.RenderDigits | list_software.py:33 | for eight digits naming a date, the rewritten text is the same digits with dashes inserted |
| InstallDate.RenderFields | list_software.py:39 | rendering the date read from 4-, 2- and 2-digit fields gives those fields joined by dashes |
| InstallDate.ParseInstallDate | list_software.py:26-42 | the result is empty exactly when the stripped input is empty; otherwise it is a valid `YYYY-MM-DD` date or the stripped input |
| InstallDate.IsoDateNoSpace | list_software.py:27 | an ISO date holds no whitespace, so stripping it changes nothing |
| InstallDateProperties.CompactCapture | list_software.py:33 | `%Y%m%d` reads eight digits as year, month and day, or refuses them when the month or day field is out of range |
| InstallDateProperties.EightDigitRules | list_software.py:30-35 | eight digits are read as `YYYYMMDD` when that is a calendar date, and otherwise no rule reads them |
| InstallDateProperties.EightDigitDate | list_software.py:30-42 | eight digits become `YYYY-MM-DD` when they name a date, and are returned unchanged otherwise |
| InstallDateProperties.IsoCapture | list_software.py:39 | `%Y-%m-%d` reads ISO text as the date it names |
| InstallDateProperties.IsoParses | list_software.py:37-39 | ISO text is always read by some rule |
| InstallDateProperties.ReadBackIso | list_software.py:39 | rendering the date read from ISO text gives the same text back |
| InstallDateProperties.IsoDateFixedPoint | list_software.py:26-42 | the normalizer leaves a `YYYY-MM-DD` date unchanged |
| InstallDateProperties.ParsedIffIsoDate | list_software.py:37-42 | for non-blank input, the result is an ISO date exactly when some rule reads the stripped text; when none does, the result is the stripped text |
| InstallDateProperties.RuleFixedPoint | list_software.py:26-42 | text that a rule reads, and that renders to itself, is left unchanged |
| InstallDateProperties.ParseInstallDateIdempotent | list_software.py:26-42 | normalizing twice is normalizing once |
| InstallDateProperties.SlashedTails | list_software.py:37 | the tails of `%d/%m/%Y` and `%m/%d/%Y` and the longest text each can read |
| InstallDateProperties.SlashedStrptime | list_software.py:39 | `%d/%m/%Y` and `%m/%d/%Y` read `AA/BB/YYYY` in their own field order, subject to the calendar check |
| InstallDateProperties.SlashedRules | list_software.py:37-41 | `AA/BB/YYYY` is read as day/month when that is a date, otherwise as month/day, otherwise not at all |
| InstallDateProperties.SlashedDate | list_software.py:37-42 | the normalizer's output for `AA/BB/YYYY`: day/month first, then month/day, else the text unchanged |
| InstallDateProperties.IsoOneDigitTail | list_software.py:39 | `%m-%d` on one-digit month and day reads both digits |
| InstallDateProperties.IsoOneDigitMatch | list_software.py:39 | `%Y-%m-%d` matches `YYYY-M-D` as year, month and day, to the end of the text |
| InstallDateProperties.IsoOneDigitStrptime | list_software.py:39 | `%Y-%m-%d` reads `YYYY-M-D` as that date, refusing only year 0 |
| InstallDateProperties.RenderOneDigitFields | list_software.py:39 | a date with a one-digit month and day is a valid date written with a zero before each |
| InstallDateProperties.ZeroPadOneDigit | list_software.py:39 | a digit with a zero before it is two digits of the same value |
| InstallDateProperties.IsoOneDigitRules | list_software.py:30-41 | `YYYY-M-D` is read by the ISO format, and by no rule when the year is 0 |
| InstallDateProperties.IsoOneDigitDate | list_software.py:26-42 | `YYYY-M-D` becomes `YYYY-0M-0D`; with year 0 it comes back unchanged |
| InstallDateProperties.SlashedOneDigitTail | list_software.py:39 | the second field, slash and year of a slashed format on `A/B/YYYY` read `B` and the year |
| InstallDateProperties.SlashedOneDigitMatch | list_software.py:39 | `%d/%m/%Y` and `%m/%d/%Y` match `A/B/YYYY` reading `A` and `B` as one-digit fields, to the end of the text |
| InstallDateProperties.SlashedOneDigitStrptime | list_software.py:39 | `%d/%m/%Y` and `%m/%d/%Y` read `A/B/YYYY` in their own field order, refusing only year 0 |
| InstallDateProperties.SlashedNotIso | list_software.py:39 | `%Y-%m-%d` refuses `A/B/YYYY` |
| InstallDateProperties.SlashedOneDigitRules | list_software.py:30-41 | `A/B/YYYY` is read day first, and by no rule when the year is 0 |
| InstallDateProperties.SlashedOneDigitDate | list_software.py:26-42 | `A/B/YYYY` becomes `YYYY-0B-0A`; with year 0 it comes back unchanged |
| InstallDateProperties.PadFieldDigits | list_software.py:33 | a field of one or two digits written with `%m` or `%d` is two digits of the same value |
| InstallDateProperties.IsoDayTail | list_software.py:39 | the dash and the day of `%Y-%m-%d` read a day of one or two digits to the end of the text when it is in range, and otherwise stop short |
| InstallDateProperties.IsoFieldsTail | list_software.py:39 | `%m-%d` on a month and a day of one or two digits each reads both to the end of the text when both are in range, and otherwise stops short |
| InstallDateProperties.IsoFieldsMatch | list_software.py:39 | `%Y-%m-%d` matches `YYYY-M-D`, `YYYY-MM-D`, `YYYY-M-DD` and `YYYY-MM-DD` as year, month and day, to the end of the text, exactly when both fields are in range |
| InstallDateProperties.IsoFieldsStrptime | list_software.py:39 | `%Y-%m-%d` reads `YYYY-M-D` with one- or two-digit fields as the date it names, and refuses it when that is no calendar date |
| InstallDateProperties.IsoFieldsRules | list_software.py:30-41 | the rules read such text by the ISO format, as the date it names, or not at all |
| InstallDateProperties.IsoFieldsDate | list_software.py:26-42 | such text becomes `YYYY-MM-DD`, a zero written before a one-digit field, when it names a date, and comes back unchanged otherwise |
| InstallDateProperties.SlashedFieldsTail | list_software.py:39 | the second field, slash and year of a slashed format read a field of one or two digits and the year to the end when the field is in range, and refuse the text otherwise |
| InstallDateProperties.SlashedFieldsMatch | list_software.py:39 | `%d/%m/%Y` and `%m/%d/%Y` match `A/B/YYYY` with one- or two-digit fields to the end of the text exactly when each field is in range for its directive |
| InstallDateProperties.SlashedFieldsStrptime | list_software.py:39 | `%d/%m/%Y` and `%m/%d/%Y` read `A/B/YYYY` with one- or two-digit fields in their own field order, and refuse it when that is no calendar date |
| InstallDateProperties.NoYearNotIso | list_software.py:39 | `%Y-%m-%d` refuses text whose first four characters are not all digits |
| InstallDateProperties.SlashedFieldsRules | list_software.py:37-41 | `A/B/YYYY` with one- or two-digit fields is read as day/month when that is a date, else as month/day, else not at all |
| InstallDateProperties.SlashedFieldsDate | list_software.py:26-42 | such text becomes `YYYY-MM-DD` day/month first, then month/day, a zero written before a one-digit field; otherwise it comes back unchanged |
| InstallDateProperties.LongTextUnchanged | list_software.py:33-42 | stripped text longer than ten characters is refused by every format and comes back unchanged |
| InstallDateExamples.Rendered | list_software.py:37-39 | stripped text that a rule reads becomes the ISO form of the date read |
| InstallDateExamples.Unread | list_software.py:42 | stripped, non-empty text that no rule reads is returned unchanged |
| InstallDateExamples.CompactReading | list_software.py:30-33 | `20230105` is read as 5 January 2023 |
| InstallDateExamples.CompactExample | list_software.py:30-33 | `20230105` becomes `2023-01-05` |
| InstallDateExamples.NoSuchDayExample | list_software.py:30-42 | `20230230` (30 February) comes back unchanged |
| InstallDateExamples.NoSuchMonthExample | list_software.py:30-42 | `20231332` (month 13) comes back unchanged |
| InstallDateExamples.AllNinesExample | list_software.py:30-42 | `99999999` comes back unchanged, without an error |
| InstallDateExamples.CenturyNonLeapExample | list_software.py:30-42 | `19000229` comes back unchanged, because 1900 is not a leap year |
| InstallDateExamples.QuadCenturyLeapReading | list_software.py:30-33 | `20000229` is read as 29 February 2000 |
| InstallDateExamples.QuadCenturyLeapExample | list_software.py:30-33 | `20000229` becomes `2000-02-29` |
| InstallDateExamples.DayFirstReading | list_software.py:37-41 | `01/02/2023` is read day first, as 1 February 2023 |
| InstallDateExamples.DayFirstExample | list_software.py:37-41 | `01/02/2023` becomes `2023-02-01` |
| InstallDateExamples.MonthFirstReading | list_software.py:37-41 | `01/13/2023` has no month 13 day first, so it is read month first, as 13 January 2023 |
| InstallDateExamples.MonthFirstExample | list_software.py:37-41 | `01/13/2023` becomes `2023-01-13` |
| InstallDateExamples.IsoOneDigitReading | list_software.py:37-39 | `2023-1-5` is read as 5 January 2023 |
| InstallDateExamples.IsoOneDigitExample | list_software.py:37-39 | `2023-1-5` becomes `2023-01-05` |
| InstallDateExamples.SlashedOneDigitReading | list_software.py:37-41 | `1/2/2023` is read day first, as 1 February 2023 |
| InstallDateExamples.SlashedOneDigitExample | list_software.py:37-41 | `1/2/2023` becomes `2023-02-01` |
| InstallDateExamples.DayTwoMonthOneReading | list_software.py:37-41 | `12/1/2023` is read day first, as 12 January 2023 |
| InstallDateExamples.DayTwoMonthOneExample | list_software.py:37-41 | `12/1/2023` becomes `2023-01-12` |
| InstallDateExamples.DayOneMonthTwoReading | list_software.py:37-41 | `1/12/2023` is read day first, as 1 December 2023 |
| InstallDateExamples.DayOneMonthTwoExample | list_software.py:37-41 | `1/12/2023` becomes `2023-12-01` |
| InstallDateExamples.IsoMonthTwoDayOneReading | list_software.py:37-39 | `2023-11-5` is read as 5 November 2023 |
| InstallDateExamples.IsoMonthTwoDayOneExample | list_software.py:37-39 | `2023-11-5` becomes `2023-11-05` |
| InstallDateExamples.IsoMonthOneDayTwoReading | list_software.py:37-39 | `2023-1-15` is read as 15 January 2023 |
| InstallDateExamples.IsoMonthOneDayTwoExample | list_software.py:37-39 | `2023-1-15` becomes `2023-01-15` |
| InstallDateExamples.IsoNoSuchDayExample | list_software.py:37-42 | `2023-2-30` (30 February) comes back unchanged |
| InstallDateExamples.DateTimeExample | list_software.py:33-42 | `2023-01-05 10:00` comes back unchanged |
| InstallDateExamples.BlankExample | list_software.py:27-29 | whitespace-only input becomes the empty string |
| Inventory.ReadStrValue | list_software.py:15-24 | a failed read gives the default `""`, a string value is stripped, and any other value is its `str()` text |
| Inventory.DisplayName | list_software.py:55-57 | the name is `DisplayName` when that reads non-empty, and otherwise exactly `QuietDisplayName`; it is empty only when both are |
| Inventory.BuildRecord | list_software.py:55-75 | there is no record exactly when both names are empty; otherwise the record holds the chosen name, `DisplayVersion`, `Publisher`, the normalized `InstallDate`, `InstallLocation` and `UninstallString` as read, and has a non-empty name and a date in normalized form |
| Inventory.RowsWellFormed | list_software.py:51-75 | every row built from a path's subkeys has a name and a normalized date |
| Inventory.CollectWellFormed | list_software.py:47-79 | every row collected over all paths has a name and a normalized date |
| Inventory.CollectRows | list_software.py:47-79 | the walk collects the rows path by path, skipping missing paths, and fails when a path is unreadable |
| Inventory.CollectSnoc | list_software.py:47-79 | collecting one more path appends that path's rows |
| Inventory.AppendRows | list_software.py:51-77 | the subkey loop appends the rows of the readable, named subkeys in enumeration order |
| Inventory.Dedup | list_software.py:83-88 | the dedup never grows its input, and is empty exactly when its input is |
| Inventory.DedupRows | list_software.py:83-88 | the seen-key loop returns `Dedup` of its input |
| Inventory.KeySetAppend | list_software.py:85-87 | appending a record adds its key to the set of keys |
| Inventory.DedupKeySet | list_software.py:83-88 | the dedup keeps every key of its input and no other |
| Inventory.DedupDistinct | list_software.py:86-87 | no two kept records share a key |
| Inventory.DedupFirstOccurrences | list_software.py:84-87 | after reading a prefix of the input, the dedup holds exactly the first occurrence of each key in that prefix, in input order |
| Inventory.DedupIsFirstOccurrences | list_software.py:83-88 | the dedup is exactly the first occurrences of the keys, in input order |
| Inventory.DedupSubseq | list_software.py:83-88 | the dedup is a subsequence of its input |
| Inventory.SubseqExtend | list_software.py:84-87 | a subsequence stays one when the longer sequence grows |
| Inventory.SubseqMembers | list_software.py:88 | every element of a subsequence occurs in the longer sequence |
| Inventory.DedupOfDistinct | list_software.py:83-88 | input whose keys are already distinct is returned unchanged |
| Inventory.DedupIdempotent | list_software.py:83-88 | deduplicating twice is deduplicating once |
| Inventory.GetInstalledSoftware | list_software.py:44-88 | the method gives what `InstalledSoftware` specifies: the collected rows, deduplicated, or a failure when a path is unreadable |
| Inventory.InstalledSoftwareResult | list_software.py:44-88 | a successful result has one record per distinct key of the collected rows, and every record has a name and a normalized date |
| StableSort.StrLtIrreflexive | list_software.py:110 | Python's string `<` is irreflexive |
| StableSort.StrLtTransitive | list_software.py:110 | Python's string `<` is transitive |
| StableSort.StrLtTotal | list_software.py:110 | any two different strings are ordered one way or the other |
| StableSort.KeyLtIrreflexive | list_software.py:110 | the tuple order on `(name.lower(), version)` is irreflexive |
| StableSort.KeyLtTransitive | list_software.py:110 | the tuple order is transitive |
| StableSort.KeyLtTotal | list_software.py:110 | the tuple order is total |
| StableSort.KeyLtNotBelow | list_software.py:110 | a key below `a` is below any key not below `a` |
| StableSort.KeyLeqTransitive | list_software.py:110 | "not below" is transitive |
| StableSort.Insert | list_software.py:110 | inserting adds one element |
| StableSort.SortRows | list_software.py:110 | sorting keeps the length |
| StableSort.InsertMultiset | list_software.py:110 | inserting adds exactly the inserted record |
| StableSort.SortedCons | list_software.py:110 | putting a record not above the rest in front of a sorted sequence keeps it sorted |
| StableSort.SortedUncons | list_software.py:110 | the tail of a sorted sequence is sorted, and its head is not above it |
| StableSort.InsertNotBelow | list_software.py:110 | inserting a record that is not below `y` keeps `y` not above the sequence |
| StableSort.InsertSorted | list_software.py:110 | inserting into a sorted sequence keeps it sorted |
| StableSort.FilterAppend | list_software.py:110 | picking the records of one key distributes over concatenation |
| StableSort.FilterOne | list_software.py:110 | picking from one record keeps it exactly when it has the key |
| StableSort.FilterBelow | list_software.py:110 | a sorted sequence holds no record of a key below its first |
| StableSort.InsertFilter | list_software.py:110 | insertion puts the new record after every earlier record of its key |
| StableSort.SortRowsSorted | list_software.py:110 | the sorted rows are ordered by `(name.lower(), version or "")` |
| StableSort.SortRowsPermutation | list_software.py:110 | the sorted rows are a permutation of the input |
| StableSort.SortRowsStable | list_software.py:110 | records with equal keys keep their input order (stability) |
| StableSort.FilterCount | list_software.py:110 | a record occurs among the records of its own key as often as in the whole sequence |
| StableSort.SameFiltersSameLength | list_software.py:110 | sequences with the same records for every key have the same length |
| StableSort.SortedUnique | list_software.py:110 | two sorted sequences with the same records for every key, in the same order, are equal |
| StableSort.SortRowsCharacterized | list_software.py:110 | any sorted sequence that has the input's records for every key, in input order, is `SortRows` of the input; so every stable sort gives this result |
| TxtReport.SafeSpec | list_software.py:105 | `safe` output has no newline and no whitespace at either end, and is the text with each newline made a space, minus its whitespace ends |
| TxtReport.SafeFixedPoint | list_software.py:105 | `safe` leaves trimmed, newline-free text unchanged |
| TxtReport.SafeIdempotent | list_software.py:105 | applying `safe` twice is applying it once |
| TxtReport.SafeJoinsLines | list_software.py:105 | `line1\nline2` becomes `line1 line2` |
| TxtReport.ColumnsLayout | list_software.py:111-112 | for fields within the widths, a line is 128 characters, with each field left-aligned at columns 0, 62, 84 and 116, padded with spaces |
| TxtReport.ColumnsNeverTruncate | list_software.py:111-112 | longer fields widen the line instead of being cut; the line is at least 128 characters, and it begins with the whole name |
| TxtReport.TableLines | list_software.py:110-112 | one table line per record |
| TxtReport.HeaderWidth | list_software.py:107-109 | the header is 128 characters and the separator is 128 dashes |
| TxtReport.HeaderNoNewline | list_software.py:107-109 | the header and separator are single lines |
| TxtReport.AppendixLines | list_software.py:114-117 | four lines per record in the appendix |
| TxtReport.WriteTxt | list_software.py:104-117 | the text written, built up line by line in two loops, is exactly `ReportText` |
| TxtReport.ReportTextParts | list_software.py:107-117 | the report is header, separator, sorted table, `\n\n# Extra fields\n`, then the appendix in input order |
| TxtReport.SafeLines | list_software.py:111-112 | no table line contains a newline |
| TxtReport.ColumnsNoNewline | list_software.py:111-112 | newline-free fields make a newline-free line |
| TxtReport.BlockNoNewline | list_software.py:115-117 | no appendix line contains a newline |
| TxtReport.AppendixNoNewline | list_software.py:114-117 | the appendix consists of whole lines |
| TxtReport.BlockText | list_software.py:115-117 | one record's appendix text is `\n[name]\nInstall Location: …\nUninstall String: …\n` with the `safe` values |
| TxtReport.ReportReadsBack | list_software.py:107-117 | splitting the report text at newlines gives back exactly its line structure |
| TxtReport.ReportLayout | list_software.py:107-117 | the report's lines are the header, the separator, one line per record in sorted order, two blank lines, `# Extra fields`, then four lines per record in input order |
| TxtReport.ReportTop | list_software.py:107-113 | line count, header, separator and the marker lines are where the layout places them |
| TxtReport.ReportRow | list_software.py:110-112 | the `i`-th table line is the `i`-th record in sorted order |
| TxtReport.ReportBlock | list_software.py:114-117 | the `i`-th appendix block is the block of the `i`-th input record |
| TxtReport.AppendixBlock | list_software.py:114-117 | the appendix holds the block of each record at its input position |

## Left out

- The registry is not modelled: `REG_PATHS`, `OpenKey`, `EnumKey`, `QueryInfoKey` and
  `QueryValueEx` (list_software.py:9-24, 47-54). These are calls into the operating system.
  What they return is the model's input (`PathListing`, `Subkey`, `RegValue`), as shown above.
- The model does not compute `str()` of non-string registry values (DWORDs, binary data). The
  text it would produce is part of the input (`RegValue.OtherValue`).
- `write_csv` (list_software.py:94-102) is not modelled. It defers to the standard `csv` module,
  whose quoting rules are not part of this model.
- Opening the output file and encoding it as UTF-8 (list_software.py:106) are not modelled. The
  model computes the text that is written, before newline translation. The file is opened in
  text mode without `newline=""`, so on Windows each `"\n"` reaches the file as `"\r\n"`.
- `default_output_dir` and `main` (list_software.py:90-92, 119-142) are not modelled. They
  consist of prompts, file-system checks, the clock and exit codes.
- `ParseInstallDate` takes a string. The `raw or ""` guard for `None` needs no case of its own,
  because `_read_str_value` always returns a string.
- `Text.IsDigit` covers only the ASCII digits. It models `str.isdigit` and the regular
  expression `\d`, which also accept other Unicode digits.
- `Text.Lower` covers only the ASCII letters. Python's `lower()` in the sort key folds every
  Unicode letter.
- `Text.IsSpace` is the fixed set of characters `str.isspace` accepts. The set is written out,
  not derived from the Unicode database.
- `InstallDate.RenderIso`: years are always written as four zero-padded digits. For years
  below 1000, `strftime("%Y")` is platform-dependent.
- `InstallDate.Strptime` models only the directives `%Y`, `%m` and `%d` and literal separators.
  That is all that the four formats in the source use. It also leaves out the case-insensitive
  flag of the regular expression, which does not matter for digits.
- `StableSort.SortRows` is an insertion sort, not CPython's Timsort. `SortRowsCharacterized`
  proves that any stable sort by the same key gives the same result.
- `Inventory.CollectRows`, `Inventory.AppendRows` and `Inventory.DedupRows` split the walk into
  three methods: the path loop, the subkey loop and the dedup loop.
  - The list `rows` and the `OrderedDict` are sequences that these methods extend.
  - The `OrderedDict` keys are a seen-key set beside the kept sequence. The kept sequence gives
    the order of `unique.values()`.
