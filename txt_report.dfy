/** The text `write_txt` (list_software.py:104-117) writes: a header row, a separator of dashes,
    one row per record in sorted order, the line `# Extra fields`, and one block per record in
    the original order. The file handle is left out; the method returns the text written. */
module TxtReport {
  import opened Text
  import opened Inventory
  import opened StableSort

  // ----- fields -----------------------------------------------------------------------------

  /** `safe`: every newline becomes a space, then the result is stripped. */
  function Safe(s: string): string
  {
    Strip(ReplaceChar(s, '\n', ' '))
  }

  /** A rendered field has no newline, no whitespace at either end, and is the input with each
      newline made a space and surrounding whitespace removed. */
  lemma SafeSpec(s: string)
    ensures NoNewline(Safe(s)) && Trimmed(Safe(s))
    ensures var t := ReplaceChar(s, '\n', ' ');
      var i := |t| - |StripLeft(t)|;
      Safe(s) == t[i..i + |Safe(s)|] && AllSpace(t[..i]) && AllSpace(t[i + |Safe(s)|..])
  {
    var t := ReplaceChar(s, '\n', ' ');
    StripSpec(t);
    var i := |t| - |StripLeft(t)|;
    forall k | 0 <= k < |Safe(s)| ensures Safe(s)[k] != '\n' {
      assert Safe(s)[k] == t[i + k];
    }
  }

  /** Text without newlines or surrounding whitespace is rendered as it is. */
  lemma SafeFixedPoint(s: string)
    requires NoNewline(s) && Trimmed(s)
    ensures Safe(s) == s
  {
    assert ReplaceChar(s, '\n', ' ') == s;
    StripTrimmed(s);
  }

  lemma SafeIdempotent(s: string)
    ensures Safe(Safe(s)) == Safe(s)
  {
    SafeSpec(s);
    SafeFixedPoint(Safe(s));
  }

  /** `safe("a\nb")` is `"a b"`: the newline becomes one space. */
  lemma SafeJoinsLines()
    ensures Safe("line1\nline2") == "line1 line2"
  {
    var t := ReplaceChar("line1\nline2", '\n', ' ');
    assert t == "line1 line2";
    assert !IsSpace(t[0]) && !IsSpace(t[|t| - 1]);
    StripTrimmed(t);
  }

  // ----- the table --------------------------------------------------------------------------

  /** `f"{n:60}  {v:20}  {p:30}  {d:12}"`. */
  function Columns(n: string, v: string, p: string, d: string): string
  {
    PadRight(n, 60) + "  " + PadRight(v, 20) + "  " + PadRight(p, 30) + "  " + PadRight(d, 12)
  }

  const Header: string := Columns("Software Name", "Version", "Publisher", "Install Date")

  /** `"-" * len(header)` */
  const Separator: string := Repeat('-', |Header|)

  function RowText(r: Record): string
  {
    Columns(Safe(r.name), Safe(r.version), Safe(r.publisher), Safe(r.installDate))
  }

  function TableLines(rows: seq<Record>): (r: seq<string>)
    ensures |r| == |rows|
  {
    seq(|rows|, i requires 0 <= i < |rows| => RowText(rows[i]))
  }

  /** Column `w` of a row is `s` left-aligned; everything after `s` up to the column's width is
      spaces, and a longer `s` is kept whole. */
  predicate FieldAt(row: string, start: nat, w: nat, s: string)
  {
    |s| <= w && start + w <= |row| && row[start..start + |s|] == s
    && forall k :: start + |s| <= k < start + w ==> row[k] == ' '
  }

  /** With every value within its width, row and header are 128 characters wide and the four
      values start at columns 0, 62, 84 and 116 with two spaces between columns. */
  lemma ColumnsLayout(n: string, v: string, p: string, d: string)
    requires |n| <= 60 && |v| <= 20 && |p| <= 30 && |d| <= 12
    ensures var row := Columns(n, v, p, d);
      |row| == 128
      && FieldAt(row, 0, 62, n) && FieldAt(row, 62, 22, v) && FieldAt(row, 84, 32, p) && FieldAt(row, 116, 12, d)
  {
    var a, b, c, e := PadRight(n, 60), PadRight(v, 20), PadRight(p, 30), PadRight(d, 12);
    var row := Columns(n, v, p, d);
    assert row == a + "  " + b + "  " + c + "  " + e;
    assert row[..62] == a + "  ";
    assert row[62..84] == b + "  ";
    assert row[84..116] == c + "  ";
    assert row[116..] == e;
    assert row[..|n|] == row[..62][..|n|];
    assert row[62..62 + |v|] == row[62..84][..|v|];
    assert row[84..84 + |p|] == row[84..116][..|p|];
    assert row[116..116 + |d|] == row[116..][..|d|];
    forall k | |n| <= k < 62 ensures row[k] == ' ' {
      assert row[k] == row[..62][k];
    }
    forall k | 62 + |v| <= k < 84 ensures row[k] == ' ' {
      assert row[k] == row[62..84][k - 62];
    }
    forall k | 84 + |p| <= k < 116 ensures row[k] == ' ' {
      assert row[k] == row[84..116][k - 84];
    }
    forall k | 116 + |d| <= k < 128 ensures row[k] == ' ' {
      assert row[k] == row[116..][k - 116];
    }
  }

  /** The widths are minimums: a row is never shorter than 128 characters, grows by exactly the
      overflow of each value, and starts with the whole name. */
  lemma ColumnsNeverTruncate(n: string, v: string, p: string, d: string)
    ensures var row := Columns(n, v, p, d);
      |row| == 6 + Max(60, |n|) + Max(20, |v|) + Max(30, |p|) + Max(12, |d|)
      && |row| >= 128 && |n| <= |row| && row[..|n|] == n
  {
    var row := Columns(n, v, p, d);
    assert row[..|n|] == PadRight(n, 60)[..|n|];
  }

  function Max(a: nat, b: nat): nat
  {
    if a < b then b else a
  }

  lemma HeaderWidth()
    ensures |Header| == 128 && |Separator| == 128
    ensures forall k :: 0 <= k < |Separator| ==> Separator[k] == '-'
  {
    ColumnsLayout("Software Name", "Version", "Publisher", "Install Date");
  }

  lemma HeaderNoNewline()
    ensures NoNewline(Header) && NoNewline(Separator)
  {
    ColumnsNoNewline("Software Name", "Version", "Publisher", "Install Date");
  }

  // ----- the appendix -----------------------------------------------------------------------

  /** The block `"\n[name]\nInstall Location: ...\nUninstall String: ...\n"` as lines. */
  function Block(r: Record): seq<string>
  {
    ["", "[" + Safe(r.name) + "]", "Install Location: " + Safe(r.installLocation),
     "Uninstall String: " + Safe(r.uninstallString)]
  }

  function AppendixLines(data: seq<Record>): (r: seq<string>)
    ensures |r| == 4 * |data|
  {
    if data == [] then [] else AppendixLines(data[..|data| - 1]) + Block(data[|data| - 1])
  }

  /** The lines of the report. */
  function ReportLines(data: seq<Record>): seq<string>
  {
    [Header, Separator] + TableLines(SortRows(data)) + ["", "", "# Extra fields"] + AppendixLines(data)
  }

  /** The text of the report: each line followed by a newline. */
  function ReportText(data: seq<Record>): string
  {
    JoinLines(ReportLines(data))
  }

  // ----- writing ----------------------------------------------------------------------------

  /** `write_txt` with the writes collected into one string: header, dashes, the sorted rows,
      the `# Extra fields` marker and the blocks in input order. */
  method WriteTxt(data: seq<Record>) returns (text: string)
    ensures text == ReportText(data)
  {
    var header := Header;
    text := header + "\n";
    text := text + Repeat('-', |header|) + "\n";
    ghost var top := text;
    var sorted := SortRows(data);
    var i := 0;
    while i < |sorted|
      invariant 0 <= i <= |sorted|
      invariant text == top + JoinLines(TableLines(sorted[..i]))
    {
      TableLinesSnoc(sorted, i);
      JoinLinesSnoc(TableLines(sorted[..i]), RowText(sorted[i]));
      ConcatAssoc(top, JoinLines(TableLines(sorted[..i])), RowText(sorted[i]) + "\n");
      text := text + (RowText(sorted[i]) + "\n");
      i := i + 1;
    }
    assert sorted[..i] == sorted;
    text := text + "\n\n# Extra fields\n";
    ghost var middle := text;
    var j := 0;
    while j < |data|
      invariant 0 <= j <= |data|
      invariant text == middle + JoinLines(AppendixLines(data[..j]))
    {
      var r := data[j];
      var block := "\n" + "[" + Safe(r.name) + "]"
                   + "\n" + "Install Location: " + Safe(r.installLocation)
                   + "\n" + "Uninstall String: " + Safe(r.uninstallString) + "\n";
      BlockText(r);
      AppendixSnoc(data, j);
      JoinLinesAppend(AppendixLines(data[..j]), Block(r));
      ConcatAssoc(middle, JoinLines(AppendixLines(data[..j])), block);
      text := text + block;
      j := j + 1;
    }
    assert data[..j] == data;
    ReportTextParts(data);
  }

  /** The report text is the pieces the method writes, one after the other. */
  lemma ReportTextParts(data: seq<Record>)
    ensures ReportText(data) ==
      Header + "\n" + Separator + "\n" + JoinLines(TableLines(SortRows(data)))
      + "\n\n# Extra fields\n" + JoinLines(AppendixLines(data))
  {
    var table := TableLines(SortRows(data));
    JoinLinesOne(Header);
    JoinLinesSnoc([Header], Separator);
    assert [Header] + [Separator] == [Header, Separator];
    JoinLinesAppend([Header, Separator], table);
    JoinLinesAppend([Header, Separator] + table, ["", "", "# Extra fields"]);
    JoinThree();
    JoinLinesAppend([Header, Separator] + table + ["", "", "# Extra fields"], AppendixLines(data));
  }

  lemma ConcatAssoc(a: string, b: string, c: string)
    ensures a + (b + c) == (a + b) + c
  {
  }

  lemma JoinLinesSnoc(lines: seq<string>, line: string)
    ensures JoinLines(lines + [line]) == JoinLines(lines) + (line + "\n")
  {
    assert (lines + [line])[..|lines|] == lines;
  }

  lemma JoinThree()
    ensures JoinLines(["", "", "# Extra fields"]) == "\n\n# Extra fields\n"
  {
    JoinLinesOne("");
    JoinLinesSnoc([""], "");
    assert [""] + [""] == ["", ""];
    JoinLinesSnoc(["", ""], "# Extra fields");
    assert ["", ""] + ["# Extra fields"] == ["", "", "# Extra fields"];
  }

  lemma TableLinesSnoc(rows: seq<Record>, i: nat)
    requires i < |rows|
    ensures TableLines(rows[..i + 1]) == TableLines(rows[..i]) + [RowText(rows[i])]
  {
  }

  lemma AppendixSnoc(data: seq<Record>, j: nat)
    requires j < |data|
    ensures AppendixLines(data[..j + 1]) == AppendixLines(data[..j]) + Block(data[j])
  {
    assert data[..j + 1][..j] == data[..j];
  }

  lemma BlockText(r: Record)
    ensures JoinLines(Block(r)) ==
      "\n" + "[" + Safe(r.name) + "]" + "\n" + "Install Location: " + Safe(r.installLocation)
      + "\n" + "Uninstall String: " + Safe(r.uninstallString) + "\n"
  {
    BlockJoin(Safe(r.name), Safe(r.installLocation), Safe(r.uninstallString));
  }

  lemma BlockJoin(n: string, l: string, u: string)
    ensures JoinLines(["", "[" + n + "]", "Install Location: " + l, "Uninstall String: " + u]) ==
      "\n" + "[" + n + "]" + "\n" + "Install Location: " + l + "\n" + "Uninstall String: " + u + "\n"
  {
    var b, c, d := "[" + n + "]", "Install Location: " + l, "Uninstall String: " + u;
    JoinFour("", b, c, d);
    assert "" + "\n" + b == "\n" + b;
    ConcatAssoc("\n", "[" + n, "]");
    assert "\n" + b == "\n" + "[" + n + "]";
    ConcatAssoc("\n" + "[" + n + "]" + "\n", "Install Location: ", l);
    ConcatAssoc("\n" + "[" + n + "]" + "\n" + "Install Location: " + l + "\n", "Uninstall String: ", u);
  }

  lemma JoinFour(a: string, b: string, c: string, d: string)
    ensures JoinLines([a, b, c, d]) == a + "\n" + b + "\n" + c + "\n" + d + "\n"
  {
    JoinLinesOne(a);
    assert [a, b, c, d][..3] == [a, b, c];
    assert [a, b, c][..2] == [a, b];
    assert [a, b][..1] == [a];
    assert JoinLines([a, b]) == a + "\n" + b + "\n";
    assert JoinLines([a, b, c]) == a + "\n" + b + "\n" + c + "\n";
  }

  lemma JoinLinesOne(line: string)
    ensures JoinLines([line]) == line + "\n"
  {
    assert [line][..0] == [];
  }

  // ----- properties -------------------------------------------------------------------------

  lemma SafeLines(rs: seq<Record>)
    ensures AllNoNewline(TableLines(rs))
  {
    forall i | 0 <= i < |rs| ensures NoNewline(RowText(rs[i])) {
      var r := rs[i];
      SafeSpec(r.name);
      SafeSpec(r.version);
      SafeSpec(r.publisher);
      SafeSpec(r.installDate);
      ColumnsNoNewline(Safe(r.name), Safe(r.version), Safe(r.publisher), Safe(r.installDate));
    }
  }

  lemma ColumnsNoNewline(n: string, v: string, p: string, d: string)
    requires NoNewline(n) && NoNewline(v) && NoNewline(p) && NoNewline(d)
    ensures NoNewline(Columns(n, v, p, d))
  {
    var a, b, c, e := PadRight(n, 60), PadRight(v, 20), PadRight(p, 30), PadRight(d, 12);
    assert NoNewline(a) && NoNewline(b) && NoNewline(c) && NoNewline(e) by {
      forall k | 0 <= k < |a| ensures a[k] != '\n' {
        if k < |n| { assert a[k] == a[..|n|][k]; }
      }
      forall k | 0 <= k < |b| ensures b[k] != '\n' {
        if k < |v| { assert b[k] == b[..|v|][k]; }
      }
      forall k | 0 <= k < |c| ensures c[k] != '\n' {
        if k < |p| { assert c[k] == c[..|p|][k]; }
      }
      forall k | 0 <= k < |e| ensures e[k] != '\n' {
        if k < |d| { assert e[k] == e[..|d|][k]; }
      }
    }
    NoNewlineConcat(a, "  ");
    NoNewlineConcat(a + "  ", b);
    NoNewlineConcat(a + "  " + b, "  ");
    NoNewlineConcat(a + "  " + b + "  ", c);
    NoNewlineConcat(a + "  " + b + "  " + c, "  ");
    NoNewlineConcat(a + "  " + b + "  " + c + "  ", e);
  }

  lemma NoNewlineConcat(a: string, b: string)
    requires NoNewline(a) && NoNewline(b)
    ensures NoNewline(a + b)
  {
    forall k | 0 <= k < |a + b| ensures (a + b)[k] != '\n' {
      if k >= |a| {
        assert (a + b)[k] == b[k - |a|];
      }
    }
  }

  /** No line of `lines` holds a newline. */
  predicate AllNoNewline(lines: seq<string>)
  {
    forall i :: 0 <= i < |lines| ==> NoNewline(lines[i])
  }

  lemma AllNoNewlineAppend(a: seq<string>, b: seq<string>)
    requires AllNoNewline(a) && AllNoNewline(b)
    ensures AllNoNewline(a + b)
  {
    forall i | 0 <= i < |a + b| ensures NoNewline((a + b)[i]) {
      if i >= |a| {
        assert (a + b)[i] == b[i - |a|];
      }
    }
  }

  lemma SafeNoNewline(s: string)
    ensures NoNewline(Safe(s))
  {
    SafeSpec(s);
  }

  lemma BlockLinesNoNewline(n: string, l: string, u: string)
    requires NoNewline(n) && NoNewline(l) && NoNewline(u)
    ensures AllNoNewline(["", "[" + n + "]", "Install Location: " + l, "Uninstall String: " + u])
  {
    NoNewlineConcat("[", n);
    NoNewlineConcat("[" + n, "]");
    NoNewlineConcat("Install Location: ", l);
    NoNewlineConcat("Uninstall String: ", u);
  }

  lemma BlockNoNewline(r: Record)
    ensures AllNoNewline(Block(r))
  {
    SafeNoNewline(r.name);
    SafeNoNewline(r.installLocation);
    SafeNoNewline(r.uninstallString);
    BlockLinesNoNewline(Safe(r.name), Safe(r.installLocation), Safe(r.uninstallString));
  }

  lemma {:induction false} AppendixNoNewline(data: seq<Record>)
    ensures AllNoNewline(AppendixLines(data))
  {
    if data != [] {
      AppendixNoNewline(data[..|data| - 1]);
      BlockNoNewline(data[|data| - 1]);
      AllNoNewlineAppend(AppendixLines(data[..|data| - 1]), Block(data[|data| - 1]));
    }
  }

  /** Reading the report back line by line gives exactly its lines: no rendered value can break
      a line. */
  lemma ReportReadsBack(data: seq<Record>)
    ensures SplitLines(ReportText(data)) == ReportLines(data) + [""]
  {
    var top := [Header, Separator];
    var table := TableLines(SortRows(data));
    var mid := ["", "", "# Extra fields"];
    var appendix := AppendixLines(data);
    HeaderNoNewline();
    assert AllNoNewline(top);
    SafeLines(SortRows(data));
    assert AllNoNewline(mid);
    AppendixNoNewline(data);
    AllNoNewlineAppend(top, table);
    AllNoNewlineAppend(top + table, mid);
    AllNoNewlineAppend(top + table + mid, appendix);
    SplitJoinLines(ReportLines(data));
  }

  /** Where everything is: the header and the 128 dashes, one table row per record in sorted
      order, two empty lines and `# Extra fields`, then per record in input order an empty line,
      its bracketed name, its install location and its uninstall string. */
  lemma ReportLayout(data: seq<Record>)
    ensures var lines := ReportLines(data);
      var n := |data|;
      |lines| == 5 + 5 * n
      && lines[0] == Header && lines[1] == Separator
      && (forall i :: 0 <= i < n ==> lines[2 + i] == RowText(SortRows(data)[i]))
      && lines[2 + n] == "" && lines[3 + n] == "" && lines[4 + n] == "# Extra fields"
      && (forall i :: 0 <= i < n ==> lines[5 + n + 4 * i..5 + n + 4 * i + 4] == Block(data[i]))
  {
    var n := |data|;
    ReportTop(data);
    forall i | 0 <= i < n ensures ReportLines(data)[2 + i] == RowText(SortRows(data)[i]) {
      ReportRow(data, i);
    }
    forall i | 0 <= i < n ensures ReportLines(data)[5 + n + 4 * i..5 + n + 4 * i + 4] == Block(data[i]) {
      ReportBlock(data, i);
    }
  }

  lemma ReportTop(data: seq<Record>)
    ensures var lines := ReportLines(data);
      var n := |data|;
      |lines| == 5 + 5 * n
      && lines[0] == Header && lines[1] == Separator
      && lines[2 + n] == "" && lines[3 + n] == "" && lines[4 + n] == "# Extra fields"
  {
    var n := |data|;
    var top := [Header, Separator] + TableLines(SortRows(data)) + ["", "", "# Extra fields"];
    var lines := ReportLines(data);
    assert lines == top + AppendixLines(data);
    assert lines[2 + n] == top[2 + n] && lines[3 + n] == top[3 + n] && lines[4 + n] == top[4 + n];
  }

  lemma ReportRow(data: seq<Record>, i: nat)
    requires i < |data|
    ensures ReportLines(data)[2 + i] == RowText(SortRows(data)[i])
  {
    var table := TableLines(SortRows(data));
    IndexMiddle([Header, Separator], table, ["", "", "# Extra fields"], AppendixLines(data), i);
  }

  lemma IndexMiddle(a: seq<string>, b: seq<string>, c: seq<string>, d: seq<string>, i: nat)
    requires i < |b|
    ensures (a + b + c + d)[|a| + i] == b[i]
  {
  }

  lemma ReportBlock(data: seq<Record>, i: nat)
    requires i < |data|
    ensures var n := |data|;
      ReportLines(data)[5 + n + 4 * i..5 + n + 4 * i + 4] == Block(data[i])
  {
    var top := [Header, Separator] + TableLines(SortRows(data)) + ["", "", "# Extra fields"];
    var appendix := AppendixLines(data);
    AppendixBlock(data, i);
    SliceRight(top, appendix, 4 * i, 4 * i + 4);
  }

  /** The `i`-th appendix block belongs to the `i`-th record. */
  lemma {:induction false} AppendixBlock(data: seq<Record>, i: nat)
    requires i < |data|
    ensures AppendixLines(data)[4 * i..4 * i + 4] == Block(data[i])
  {
    if i < |data| - 1 {
      var init := data[..|data| - 1];
      AppendixBlock(init, i);
      AppendixKeepsInit(data, i);
      assert init[i] == data[i];
    } else {
      AppendixLast(data);
    }
  }

  lemma AppendixKeepsInit(data: seq<Record>, i: nat)
    requires i < |data| - 1
    ensures AppendixLines(data)[4 * i..4 * i + 4] == AppendixLines(data[..|data| - 1])[4 * i..4 * i + 4]
  {
    var a := AppendixLines(data[..|data| - 1]);
    assert AppendixLines(data) == a + Block(data[|data| - 1]);
    SliceLeft(a, Block(data[|data| - 1]), 4 * i, 4 * i + 4);
  }

  lemma AppendixLast(data: seq<Record>)
    requires data != []
    ensures var n := |data| - 1;
      AppendixLines(data)[4 * n..4 * n + 4] == Block(data[n])
  {
    var n := |data| - 1;
    var lines, a, b := AppendixLines(data), AppendixLines(data[..n]), Block(data[n]);
    AppendixUnfold(data);
    assert lines == a + b;
    BlockAt(a, b, n);
    assert lines[4 * n..4 * n + 4] == (a + b)[4 * n..4 * n + 4];
  }

  lemma AppendixUnfold(data: seq<Record>)
    requires data != []
    ensures AppendixLines(data) == AppendixLines(data[..|data| - 1]) + Block(data[|data| - 1])
  {
  }

  lemma BlockAt<T>(a: seq<T>, b: seq<T>, n: nat)
    requires |a| == 4 * n && |b| == 4
    ensures (a + b)[4 * n..4 * n + 4] == b
  {
  }

  lemma SliceLeft(a: seq<string>, b: seq<string>, i: nat, j: nat)
    requires i <= j <= |a|
    ensures (a + b)[i..j] == a[i..j]
  {
  }

  lemma SliceRight(a: seq<string>, b: seq<string>, i: nat, j: nat)
    requires i <= j <= |b|
    ensures (a + b)[|a| + i..|a| + j] == b[i..j]
  {
  }
}
