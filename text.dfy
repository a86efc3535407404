/**
  Character-level building blocks of the text format: Python's notion of
  whitespace (`str.isspace`, also what the regex class `\s` matches),
  `str.strip`, decimal digits and `int`/`str` conversions, and the splitting
  of a file's text into lines that `readlines` performs.
*/
module Text {

  /** The characters for which `str.isspace()` holds. */
  predicate IsSpace(c: char) {
    || c == ' ' || ('\t' <= c <= '\r')
    || ('\U{1C}' <= c <= '\U{1F}')
    || c == '\U{85}' || c == '\U{A0}' || c == '\U{1680}'
    || ('\U{2000}' <= c <= '\U{200A}')
    || c == '\U{2028}' || c == '\U{2029}' || c == '\U{202F}' || c == '\U{205F}' || c == '\U{3000}'
  }

  /** Removes leading whitespace. */
  function StripLeading(s: string): string {
    if s != [] && IsSpace(s[0]) then StripLeading(s[1..]) else s
  }

  /** Removes trailing whitespace. */
  function StripTrailing(s: string): string {
    if s != [] && IsSpace(s[|s| - 1]) then StripTrailing(s[..|s| - 1]) else s
  }

  /** What `StripLeading` keeps is a suffix, what it drops is whitespace, and what it keeps does not start with any. */
  lemma {:induction false} StripLeadingSpec(s: string)
    ensures var r := StripLeading(s);
      && |r| <= |s| && r == s[|s| - |r|..]
      && (forall k :: 0 <= k < |s| - |r| ==> IsSpace(s[k]))
      && (r == [] || !IsSpace(r[0]))
  {
    if s != [] && IsSpace(s[0]) {
      var t := s[1..];
      StripLeadingSpec(t);
      var r := StripLeading(t);
      assert s[|s| - |r|..] == t[|t| - |r|..];
      forall k | 0 <= k < |s| - |r| ensures IsSpace(s[k]) {
        if k > 0 {
          assert s[k] == t[k - 1];
        }
      }
    }
  }

  /** What `StripTrailing` keeps is a prefix, what it drops is whitespace, and what it keeps does not end with any. */
  lemma {:induction false} StripTrailingSpec(s: string)
    ensures var r := StripTrailing(s);
      && |r| <= |s| && r == s[..|r|]
      && (forall k :: |r| <= k < |s| ==> IsSpace(s[k]))
      && (r == [] || !IsSpace(r[|r| - 1]))
  {
    if s != [] && IsSpace(s[|s| - 1]) {
      var t := s[..|s| - 1];
      StripTrailingSpec(t);
      var r := StripTrailing(t);
      assert s[..|r|] == t[..|r|];
      forall k | |r| <= k < |s| ensures IsSpace(s[k]) {
        if k < |t| {
          assert s[k] == t[k];
        }
      }
    }
  }

  /** `str.strip()` with no argument. */
  function Strip(s: string): string {
    StripTrailing(StripLeading(s))
  }

  /** A string that neither begins nor ends with whitespace. */
  predicate Trimmed(s: string) {
    s == [] || (!IsSpace(s[0]) && !IsSpace(s[|s| - 1]))
  }

  lemma StripTrimmed(s: string)
    requires Trimmed(s)
    ensures Strip(s) == s
  {
  }

  /** Stripping a trimmed, non-empty line together with its terminator gives the line. */
  lemma StripTerminatedLine(s: string)
    requires s != [] && Trimmed(s)
    ensures Strip(s + "\n") == s
  {
    var t := s + "\n";
    assert t[0] == s[0];
    assert StripLeading(t) == t;
    assert t[..|t| - 1] == s;
    assert IsSpace(t[|t| - 1]);
    assert StripTrailing(t) == StripTrailing(s) == s;
  }

  predicate IsDigit(c: char) {
    '0' <= c <= '9'
  }

  predicate AllDigits(s: string) {
    forall k :: 0 <= k < |s| ==> IsDigit(s[k])
  }

  function DigitValue(c: char): nat
    requires IsDigit(c)
  {
    c as int - '0' as int
  }

  function DigitChar(d: nat): char
    requires d < 10
  {
    ('0' as int + d) as char
  }

  /** `int(s)` for a string of decimal digits. */
  function DigitsValue(s: string): nat
    requires AllDigits(s)
  {
    if s == [] then 0 else DigitsValue(s[..|s| - 1]) * 10 + DigitValue(s[|s| - 1])
  }

  /** The length of the longest run of digits that `s` starts with. */
  function LeadingDigits(s: string): (n: nat)
    ensures n <= |s| && AllDigits(s[..n])
    ensures n < |s| ==> !IsDigit(s[n])
  {
    if s != [] && IsDigit(s[0]) then
      var n := 1 + LeadingDigits(s[1..]);
      assert s[..n] == [s[0]] + s[1..][..n - 1];
      n
    else 0
  }

  /** `str(n)` for a non-negative integer: decimal, without leading zeros. */
  function NatToString(n: nat): (s: string)
    ensures s != [] && AllDigits(s) && DigitsValue(s) == n
    ensures |s| > 1 ==> s[0] != '0'
  {
    if n < 10 then [DigitChar(n)]
    else
      var prefix := NatToString(n / 10);
      var s := prefix + [DigitChar(n % 10)];
      assert s[..|s| - 1] == prefix;
      s
  }

  /** `str(v)` for any integer: a `-` before the digits of a negative value. */
  function IntToString(v: int): string {
    if v < 0 then "-" + NatToString(-v) else NatToString(v)
  }

  /** The concatenation of a sequence of strings. */
  function Concat(ls: seq<string>): string {
    if ls == [] then [] else ls[0] + Concat(ls[1..])
  }

  /** Each string followed by a newline, all concatenated. */
  function Terminated(ls: seq<string>): string {
    if ls == [] then [] else ls[0] + "\n" + Terminated(ls[1..])
  }

  lemma {:induction false} TerminatedAppend(ls: seq<string>, l: string)
    ensures Terminated(ls + [l]) == Terminated(ls) + l + "\n"
  {
    if ls == [] {
      assert ls + [l] == [l];
    } else {
      assert (ls + [l])[1..] == ls[1..] + [l];
      TerminatedAppend(ls[1..], l);
    }
  }

  /** The length of the first line of `s`, counting its `'\n'` terminator if it has one. */
  function FirstLineLength(s: string): (n: nat)
    ensures n <= |s| && (s != [] ==> n > 0)
    ensures forall k :: 0 <= k < n - 1 ==> s[k] != '\n'
    ensures n < |s| ==> s[n - 1] == '\n'
  {
    if s == [] then 0 else if s[0] == '\n' then 1 else 1 + FirstLineLength(s[1..])
  }

  /** `readlines()`: the text cut after every newline, each line keeping its terminator. */
  function ReadLines(text: string): seq<string>
    decreases |text|
  {
    if text == [] then []
    else
      var n := FirstLineLength(text);
      [text[..n]] + ReadLines(text[n..])
  }

  /** What `readlines()` promises: the lines put back together are the text. */
  lemma {:induction false} ReadLinesConcat(text: string)
    ensures Concat(ReadLines(text)) == text
    decreases |text|
  {
    if text != [] {
      var n := FirstLineLength(text);
      var rest := ReadLines(text[n..]);
      ReadLinesConcat(text[n..]);
      var lines := ReadLines(text);
      assert lines[0] == text[..n] && lines[1..] == rest;
      assert text == text[..n] + text[n..];
    }
  }

  /**
    The shape of the lines `readlines()` returns: none is empty, a newline
    occurs only as the last character of a line, and every line but the last
    ends with one.
  */
  predicate LinesShaped(lines: seq<string>) {
    && (forall i :: 0 <= i < |lines| ==> lines[i] != [])
    && (forall i, k :: 0 <= i < |lines| && 0 <= k < |lines[i]| - 1 ==> lines[i][k] != '\n')
    && (forall i :: 0 <= i < |lines| - 1 ==> lines[i][|lines[i]| - 1] == '\n')
  }

  /** What `readlines()` promises about each line. */
  lemma {:induction false} ReadLinesShape(text: string)
    ensures LinesShaped(ReadLines(text))
    decreases |text|
  {
    if text != [] {
      var n := FirstLineLength(text);
      var rest := ReadLines(text[n..]);
      ReadLinesShape(text[n..]);
      var lines := ReadLines(text);
      assert lines == [text[..n]] + rest;
      assert rest != [] ==> text[n..] != [];
      forall i, k | 0 <= i < |lines| && 0 <= k < |lines[i]| - 1
        ensures lines[i] != [] && lines[i][k] != '\n'
      {
        if i == 0 {
          assert lines[0][k] == text[k];
        } else {
          assert lines[i] == rest[i - 1];
        }
      }
      forall i | 0 <= i < |lines|
        ensures lines[i] != [] && (i < |lines| - 1 ==> lines[i][|lines[i]| - 1] == '\n')
      {
        if i > 0 {
          assert lines[i] == rest[i - 1];
        }
      }
    }
  }

  predicate NoNewline(s: string) {
    forall k :: 0 <= k < |s| ==> s[k] != '\n'
  }

  /**
    Reading back lines written with terminators, followed by a last line
    written without one, gives each line back, terminated but for the last.
  */
  lemma {:induction false} ReadLinesTerminated(ls: seq<string>, last: string)
    requires forall i :: 0 <= i < |ls| ==> NoNewline(ls[i])
    requires last != [] && NoNewline(last)
    ensures |ReadLines(Terminated(ls) + last)| == |ls| + 1
    ensures forall i :: 0 <= i < |ls| ==> ReadLines(Terminated(ls) + last)[i] == ls[i] + "\n"
    ensures ReadLines(Terminated(ls) + last)[|ls|] == last
  {
    var text := Terminated(ls) + last;
    if ls == [] {
      assert text == last;
      FirstLineNoNewline(last, []);
      assert last[|last|..] == [];
    } else {
      var rest := Terminated(ls[1..]) + last;
      ReadLinesFirst(ls, last);
      ReadLinesTerminated(ls[1..], last);
      var lines := ReadLines(text);
      forall i | 0 <= i < |ls|
        ensures lines[i] == ls[i] + "\n"
      {
        if i > 0 {
          assert lines[i] == ReadLines(rest)[i - 1];
          assert ls[1..][i - 1] == ls[i];
        }
      }
    }
  }

  /** The first line read back from terminated lines is the first of them, terminated. */
  lemma ReadLinesFirst(ls: seq<string>, last: string)
    requires ls != [] && NoNewline(ls[0])
    ensures ReadLines(Terminated(ls) + last) == [ls[0] + "\n"] + ReadLines(Terminated(ls[1..]) + last)
  {
    var text, rest := Terminated(ls) + last, Terminated(ls[1..]) + last;
    assert text == ls[0] + ("\n" + rest);
    FirstLineNoNewline(ls[0], "\n" + rest);
    assert text[..|ls[0]| + 1] == ls[0] + "\n";
    assert text[|ls[0]| + 1..] == rest;
    ReadLinesCons(text, |ls[0]| + 1);
  }

  /** `readlines()` takes the first line off and reads the rest. */
  lemma ReadLinesCons(text: string, n: nat)
    requires text != [] && n == FirstLineLength(text)
    ensures ReadLines(text) == [text[..n]] + ReadLines(text[n..])
  {
  }

  /** The first line of `s + rest` is `s` when `s` has no newline and `rest` starts with one or is empty. */
  lemma {:induction false} FirstLineNoNewline(s: string, rest: string)
    requires NoNewline(s)
    requires rest == [] || rest[0] == '\n'
    ensures FirstLineLength(s + rest) == |s| + (if rest == [] then 0 else 1)
  {
    if s != [] {
      assert (s + rest)[1..] == s[1..] + rest;
      FirstLineNoNewline(s[1..], rest);
    }
  }
}
