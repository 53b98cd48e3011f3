/** Character classes and the few string operations of Python's `str` that the program relies on:
    `strip()`, `lower()`, `replace("\n", " ")`, `isdigit()`, left-aligned padding in a format
    field, and splitting a text into lines. */
module Text {

  /** The characters for which Python's `str.isspace()` holds, i.e. what a bare `strip()` removes. */
  predicate IsSpace(c: char)
  {
    c == '\t' || c == '\n' || c == '\U{000B}' || c == '\U{000C}' || c == '\r'
    || ('\U{001C}' <= c <= '\U{001F}') || c == ' ' || c == '\U{0085}' || c == '\U{00A0}'
    || c == '\U{1680}' || ('\U{2000}' <= c <= '\U{200A}') || c == '\U{2028}' || c == '\U{2029}'
    || c == '\U{202F}' || c == '\U{205F}' || c == '\U{3000}'
  }

  predicate AllSpace(s: string)
  {
    forall i :: 0 <= i < |s| ==> IsSpace(s[i])
  }

  /** No whitespace at either end: what `strip()` guarantees of its result. */
  predicate Trimmed(s: string)
  {
    s == [] || (!IsSpace(s[0]) && !IsSpace(s[|s| - 1]))
  }

  /** `lstrip()`: drops the longest all-whitespace prefix. */
  function StripLeft(s: string): (r: string)
    ensures |r| <= |s|
  {
    if s != [] && IsSpace(s[0]) then StripLeft(s[1..]) else s
  }

  /** `rstrip()`: drops the longest all-whitespace suffix. */
  function StripRight(s: string): (r: string)
    ensures |r| <= |s|
  {
    if s != [] && IsSpace(s[|s| - 1]) then StripRight(s[..|s| - 1]) else s
  }

  /** `strip()`: the input without its leading and trailing whitespace. */
  function Strip(s: string): string
  {
    StripRight(StripLeft(s))
  }

  lemma {:induction false} StripLeftSpec(s: string)
    ensures var r := StripLeft(s);
      |r| <= |s| && r == s[|s| - |r|..] && AllSpace(s[..|s| - |r|]) && (r == [] || !IsSpace(r[0]))
  {
    if s != [] && IsSpace(s[0]) {
      var t := s[1..];
      StripLeftSpec(t);
      var r := StripLeft(t);
      assert StripLeft(s) == r;
      assert r == s[|s| - |r|..] by {
        assert t[|t| - |r|..] == s[|s| - |r|..];
      }
      forall k | 0 <= k < |s| - |r| ensures IsSpace(s[k]) {
        if k > 0 {
          assert s[k] == t[..|t| - |r|][k - 1];
        }
      }
    }
  }

  lemma {:induction false} StripRightSpec(s: string)
    ensures var r := StripRight(s);
      |r| <= |s| && r == s[..|r|] && AllSpace(s[|r|..]) && (r == [] || !IsSpace(r[|r| - 1]))
  {
    if s != [] && IsSpace(s[|s| - 1]) {
      var t := s[..|s| - 1];
      StripRightSpec(t);
      var r := StripRight(t);
      assert StripRight(s) == r;
      assert r == s[..|r|] by {
        assert t[..|r|] == s[..|r|];
      }
      forall k | |r| <= k < |s| ensures IsSpace(s[k]) {
        if k < |s| - 1 {
          assert s[k] == t[|r|..][k - |r|];
        }
      }
    }
  }

  /** What `strip()` promises: the result is the input with a whitespace-only prefix and
      suffix removed, and has no whitespace at either end. */
  lemma StripSpec(s: string)
    ensures Trimmed(Strip(s))
    ensures var i := |s| - |StripLeft(s)|;
      var j := i + |Strip(s)|;
      j <= |s| && Strip(s) == s[i..j] && AllSpace(s[..i]) && AllSpace(s[j..])
  {
    var l := StripLeft(s);
    StripLeftSpec(s);
    var r := StripRight(l);
    StripRightSpec(l);
    var i := |s| - |l|;
    var j := i + |r|;
    assert l == s[i..];
    assert r == l[..|r|];
    assert s[j..] == l[|r|..];
    if r != [] && |r| < |l| {
      assert r[0] == l[0];
    }
  }

  /** `strip()` leaves text that has no whitespace at either end alone. */
  lemma StripTrimmed(s: string)
    requires Trimmed(s)
    ensures Strip(s) == s
  {
  }

  /** Stripping twice is stripping once. */
  lemma {:induction false} StripIdempotent(s: string)
    ensures Strip(Strip(s)) == Strip(s)
  {
    StripSpec(s);
    StripTrimmed(Strip(s));
  }

  /** Stripping a text all of whose characters belong to a class without whitespace changes nothing. */
  lemma StripNoSpace(s: string)
    requires forall i :: 0 <= i < |s| ==> !IsSpace(s[i])
    ensures Strip(s) == s
  {
    StripTrimmed(s);
  }

  /** ASCII `lower()`. */
  function LowerChar(c: char): char
  {
    if 'A' <= c <= 'Z' then (c as int - 'A' as int + 'a' as int) as char else c
  }

  /** `lower()`: no capital letter is left, and every other character stays as it is. */
  function Lower(s: string): (r: string)
    ensures |r| == |s|
    ensures forall i :: 0 <= i < |s| ==> r[i] == LowerChar(s[i])
    ensures forall i :: 0 <= i < |r| ==> !('A' <= r[i] <= 'Z')
    ensures forall i :: 0 <= i < |s| && !('A' <= s[i] <= 'Z') ==> r[i] == s[i]
  {
    seq(|s|, i requires 0 <= i < |s| => LowerChar(s[i]))
  }

  /** Lower-casing text that is already lower case changes nothing. */
  lemma LowerIdempotent(s: string)
    ensures Lower(Lower(s)) == Lower(s)
  {
    var r := Lower(s);
    assert forall i :: 0 <= i < |r| ==> Lower(r)[i] == r[i];
  }

  /** `replace(old, new)` for single characters. */
  function ReplaceChar(s: string, from: char, to: char): (r: string)
    ensures |r| == |s|
    ensures forall i :: 0 <= i < |s| ==> r[i] == (if s[i] == from then to else s[i])
    ensures from != to ==> forall i :: 0 <= i < |r| ==> r[i] != from
    ensures (forall i :: 0 <= i < |s| ==> s[i] != from) ==> r == s
  {
    seq(|s|, i requires 0 <= i < |s| => if s[i] == from then to else s[i])
  }

  predicate IsDigit(c: char)
  {
    '0' <= c <= '9'
  }

  /** `isdigit()` restricted to ASCII digits; like Python it is false of the empty string. */
  predicate IsDigits(s: string)
  {
    |s| > 0 && forall i :: 0 <= i < |s| ==> IsDigit(s[i])
  }

  function DigitValue(c: char): nat
    requires IsDigit(c)
  {
    c as int - '0' as int
  }

  function DigitChar(d: nat): (c: char)
    requires d < 10
    ensures IsDigit(c) && DigitValue(c) == d
  {
    ('0' as int + d) as char
  }

  /** The number a string of ASCII digits denotes in decimal. */
  function DigitsValue(s: string): nat
    requires forall i :: 0 <= i < |s| ==> IsDigit(s[i])
  {
    if s == [] then 0 else 10 * DigitsValue(s[..|s| - 1]) + DigitValue(s[|s| - 1])
  }

  function Pow10(n: nat): (p: nat)
    ensures p > 0
  {
    if n == 0 then 1 else 10 * Pow10(n - 1)
  }

  /** `n` written with exactly `width` decimal digits, zero-padded on the left. */
  function ZeroPadded(n: nat, width: nat): (r: string)
    requires n < Pow10(width)
    ensures |r| == width
    ensures forall i :: 0 <= i < |r| ==> IsDigit(r[i])
    ensures DigitsValue(r) == n
  {
    if width == 0 then ""
    else
      var prefix := ZeroPadded(n / 10, width - 1);
      var r := prefix + [DigitChar(n % 10)];
      assert r[..|r| - 1] == prefix;
      r
  }

  /** `f"{s:w}"` for a string `s`: left-aligned in a field of at least `w` characters,
      filled with spaces and never truncated. */
  function PadRight(s: string, w: nat): (r: string)
    ensures |r| == if |s| < w then w else |s|
    ensures r[..|s|] == s
    ensures forall i :: |s| <= i < |r| ==> r[i] == ' '
  {
    if |s| < w then s + Repeat(' ', w - |s|) else s
  }

  /** `c * n` for a one-character string `c`. */
  function Repeat(c: char, n: nat): (r: string)
    ensures |r| == n
    ensures forall i :: 0 <= i < n ==> r[i] == c
  {
    seq(n, _ => c)
  }

  /** `c * (m + n) == c * m + c * n`. */
  lemma RepeatAppend(c: char, m: nat, n: nat)
    ensures Repeat(c, m + n) == Repeat(c, m) + Repeat(c, n)
  {
    var a, b := Repeat(c, m), Repeat(c, n);
    assert forall i :: 0 <= i < m + n ==> (a + b)[i] == c;
  }

  predicate NoNewline(s: string)
  {
    forall i :: 0 <= i < |s| ==> s[i] != '\n'
  }

  /** The text a sequence of `f.write(line + "\n")` calls produces. */
  function JoinLines(lines: seq<string>): string
  {
    if lines == [] then "" else JoinLines(lines[..|lines| - 1]) + lines[|lines| - 1] + "\n"
  }

  lemma {:induction false} JoinLinesAppend(a: seq<string>, b: seq<string>)
    ensures JoinLines(a + b) == JoinLines(a) + JoinLines(b)
  {
    if b == [] {
      assert a + b == a;
    } else {
      var b' := b[..|b| - 1];
      assert (a + b)[..|a + b| - 1] == a + b';
      JoinLinesAppend(a, b');
    }
  }

  /** `s.split("\n")`. */
  function SplitLines(s: string): (r: seq<string>)
    ensures |r| > 0
  {
    if s == [] then [""]
    else
      var rest := SplitLines(s[1..]);
      if s[0] == '\n' then [""] + rest else [[s[0]] + rest[0]] + rest[1..]
  }

  lemma {:induction false} SplitAfterLine(line: string, t: string)
    requires NoNewline(line)
    ensures SplitLines(line + "\n" + t) == [line] + SplitLines(t)
  {
    if line == [] {
      assert line + "\n" + t == "\n" + t;
      assert ("\n" + t)[1..] == t;
    } else {
      var s := line + "\n" + t;
      assert s[1..] == line[1..] + "\n" + t;
      SplitAfterLine(line[1..], t);
      assert [line[0]] + line[1..] == line;
    }
  }

  /** Splitting the written text at newlines gives back the lines written, followed by the
      empty remainder after the last newline: the text is read back exactly. */
  lemma {:induction false} SplitJoinLines(lines: seq<string>)
    requires forall i :: 0 <= i < |lines| ==> NoNewline(lines[i])
    ensures SplitLines(JoinLines(lines)) == lines + [""]
  {
    if lines != [] {
      var rest := lines[1..];
      assert lines == [lines[0]] + rest;
      JoinLinesAppend([lines[0]], rest);
      assert JoinLines([lines[0]]) == lines[0] + "\n" by {
        assert [lines[0]][..0] == [];
      }
      assert JoinLines(lines) == lines[0] + "\n" + JoinLines(rest);
      SplitAfterLine(lines[0], JoinLines(rest));
      SplitJoinLines(rest);
    }
  }
}
