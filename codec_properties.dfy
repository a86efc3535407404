/**
  What the text format guarantees: reading back what `__str__` writes gives
  the same matrix, every malformed line is reported with its line number,
  blank lines are skipped and a repeated coordinate keeps its last value.
*/
module CodecProperties {
  import opened Wrappers
  import opened SparseMatrix
  import opened Text
  import opened Codec
  import EntryPattern

  /** `\d+` reads back exactly the digits `str` writes for a number. */
  lemma NumberPrefix(n: nat, rest: string)
    requires rest == [] || !IsDigit(rest[0])
    ensures MatchNumber(NatToString(n) + rest) == Some((n, rest))
  {
    EntryPattern.DigitsThen(NatToString(n), rest);
  }

  /** The entry pattern accepts every line `__str__` writes and gives back its triple. */
  lemma EntryLineMatches(key: Coord, value: int)
    ensures MatchEntry(EntryLine(key, value)) == Some((key.0, key.1, value))
  {
    EntryIgnoresSuffix(key, value, "");
    assert EntryLine(key, value) + "" == EntryLine(key, value);
  }

  lemma NoNewlineConcat(a: string, b: string)
    requires NoNewline(a) && NoNewline(b)
    ensures NoNewline(a + b)
  {
    forall k | 0 <= k < |a + b| ensures (a + b)[k] != '\n' {
      if k >= |a| {
        assert (a + b)[k] == b[k - |a|];
      }
    }
  }

  lemma DigitsNoNewline(d: string)
    requires AllDigits(d)
    ensures NoNewline(d)
  {
    forall k | 0 <= k < |d| ensures d[k] != '\n' {
      assert IsDigit(d[k]);
    }
  }

  lemma HeaderLineShape(key: string, n: nat)
    requires key != [] && !IsSpace(key[0]) && NoNewline(key)
    ensures var l := key + NatToString(n); l != [] && Trimmed(l) && NoNewline(l)
  {
    var d := NatToString(n);
    DigitsNoNewline(d);
    NoNewlineConcat(key, d);
    assert (key + d)[|key + d| - 1] == d[|d| - 1];
    assert IsDigit(d[|d| - 1]);
  }

  lemma EntryLineShape(key: Coord, value: int)
    ensures var l := EntryLine(key, value); l != [] && Trimmed(l) && NoNewline(l)
  {
    var a, b, v := NatToString(key.0), NatToString(key.1), IntToString(value);
    DigitsNoNewline(a);
    DigitsNoNewline(b);
    assert NoNewline(v) by {
      if value < 0 {
        DigitsNoNewline(NatToString(-value));
        NoNewlineConcat("-", NatToString(-value));
      } else {
        DigitsNoNewline(v);
      }
    }
    var r4 := v + ")";
    var r3 := ", " + r4;
    var r2 := b + r3;
    var r1 := ", " + r2;
    var l := "(" + (a + r1);
    NoNewlineConcat(v, ")");
    NoNewlineConcat(", ", r4);
    NoNewlineConcat(b, r3);
    NoNewlineConcat(", ", r2);
    NoNewlineConcat(a, r1);
    NoNewlineConcat("(", a + r1);
    assert r4[|r4| - 1] == ')';
    assert r3[|r3| - 1] == ')';
    assert r2[|r2| - 1] == ')';
    assert r1[|r1| - 1] == ')';
    assert (a + r1)[|a + r1| - 1] == ')';
    assert l[|l| - 1] == ')';
  }

  /** Every line `__str__` writes is non-empty, has no surrounding whitespace and no newline. */
  lemma LineShape(m: Matrix, order: seq<Coord>, i: nat)
    requires forall j :: 0 <= j < |order| ==> order[j] in m.entries
    requires i < 2 + |order|
    ensures var l := (HeaderLines(m) + EntryLines(m, order))[i];
      l != [] && Trimmed(l) && NoNewline(l)
  {
    var ls := HeaderLines(m) + EntryLines(m, order);
    if i == 0 {
      HeaderLineShape("rows=", m.rows);
    } else if i == 1 {
      HeaderLineShape("cols=", m.cols);
    } else {
      var j := i - 2;
      EntryLineAt(m, order, j);
      EntryLineShape(order[j], m.entries[order[j]]);
    }
  }

  lemma TerminatedStarts(ls: seq<string>)
    requires |ls| > 0 && ls[0] != []
    ensures Terminated(ls) != [] && Terminated(ls)[0] == ls[0][0]
  {
  }

  lemma AppendEnds(x: string, y: string)
    requires y != []
    ensures (x + y)[|x + y| - 1] == y[|y| - 1]
    ensures x != [] ==> (x + y)[0] == x[0]
    ensures x == [] ==> x + y == y
  {
  }

  lemma SplitLast(ls: seq<string>)
    requires |ls| > 0
    ensures ls == ls[..|ls| - 1] + [ls[|ls| - 1]]
  {
  }

  lemma TerminatedLast(ls: seq<string>)
    requires |ls| > 0
    ensures Terminated(ls) == Terminated(ls[..|ls| - 1]) + ls[|ls| - 1] + "\n"
  {
    var init, last := ls[..|ls| - 1], ls[|ls| - 1];
    SplitLast(ls);
    TerminatedAppend(init, last);
  }

  /** One more entry line for `__str__`: the text so far, the line, and its terminator. */
  lemma RenderStep(m: Matrix, order: seq<Coord>, key: Coord)
    requires forall j :: 0 <= j < |order| ==> order[j] in m.entries
    requires key in m.entries
    ensures Terminated(HeaderLines(m) + EntryLines(m, order + [key]))
         == Terminated(HeaderLines(m) + EntryLines(m, order)) + EntryLine(key, m.entries[key]) + "\n"
  {
    var ls, line := HeaderLines(m) + EntryLines(m, order), EntryLine(key, m.entries[key]);
    assert HeaderLines(m) + EntryLines(m, order + [key]) == ls + [line];
    TerminatedAppend(ls, line);
  }

  /** `strip()` of the terminated lines removes only the last terminator. */
  lemma StripTerminated(ls: seq<string>)
    requires |ls| > 0
    requires ls[0] != [] && !IsSpace(ls[0][0])
    requires ls[|ls| - 1] != [] && Trimmed(ls[|ls| - 1])
    ensures Strip(Terminated(ls)) == Terminated(ls[..|ls| - 1]) + ls[|ls| - 1]
  {
    var init, last := ls[..|ls| - 1], ls[|ls| - 1];
    TerminatedLast(ls);
    var x := Terminated(init) + last;
    assert x != [] && Trimmed(x) by {
      AppendEnds(Terminated(init), last);
      if init != [] {
        TerminatedStarts(init);
      }
    }
    StripTerminatedLine(x);
  }

  /**
    `__str__`'s closing `strip()` removes the terminator of the last line and
    nothing else: the text is the header and the entry lines, in `order`,
    each but the last followed by a newline.
  */
  lemma RenderText(m: Matrix, order: seq<Coord>)
    requires forall j :: 0 <= j < |order| ==> order[j] in m.entries
    ensures Render(m, order) + "\n" == Terminated(HeaderLines(m) + EntryLines(m, order))
  {
    var ls := HeaderLines(m) + EntryLines(m, order);
    var n := |ls|;
    LineShape(m, order, 0);
    LineShape(m, order, n - 1);
    StripTerminated(ls);
    TerminatedLast(ls);
  }

  /** Parsing reads each line only through `strip()`. */
  lemma {:induction false} ParseEntriesStripped(l1: seq<string>, l2: seq<string>, i: nat, m: Matrix)
    requires |l1| == |l2|
    requires forall k :: 0 <= k < |l1| ==> Strip(l1[k]) == Strip(l2[k])
    ensures ParseEntries(l1, i, m) == ParseEntries(l2, i, m)
    decreases |l1| - i
  {
    if i < |l1| {
      var line := Strip(l1[i]);
      if line == [] {
        ParseEntriesStripped(l1, l2, i + 1, m);
      } else if MatchEntry(line).Some? {
        var e := MatchEntry(line).value;
        ParseEntriesStripped(l1, l2, i + 1, Set(m, e.0, e.1, e.2));
      }
    }
  }

  lemma ParseStripped(l1: seq<string>, l2: seq<string>)
    requires |l1| == |l2|
    requires forall k :: 0 <= k < |l1| ==> Strip(l1[k]) == Strip(l2[k])
    ensures Parse(l1) == Parse(l2)
  {
    if |l1| >= 2 && ParseDimensions(l1).Success? {
      var dims := ParseDimensions(l1).value;
      ParseEntriesStripped(l1, l2, 2, Empty(dims.0, dims.1));
    }
  }

  /** Both header patterns read back the numbers `__str__` writes. */
  lemma DimensionMatches(key: string, n: nat)
    ensures MatchDimension(key, key + NatToString(n)) == Some(n)
  {
    var d := NatToString(n);
    assert (key + d)[|key|..] == d;
    NumberPrefix(n, []);
    assert d + [] == d;
  }

  /** The entries of `m` for the first `i` keys of `order`. */
  function Prefix(m: Matrix, order: seq<Coord>, i: nat): map<Coord, int>
    requires i <= |order|
    requires forall j :: 0 <= j < |order| ==> order[j] in m.entries
  {
    map key | key in order[..i] :: m.entries[key]
  }

  /** One entry line takes the scan one line further, through `set_value`. */
  lemma EntryStep(lines: seq<string>, i: nat, m: Matrix, e: (nat, nat, int))
    requires i < |lines| && Strip(lines[i]) != []
    requires MatchEntry(Strip(lines[i])) == Some(e)
    ensures ParseEntries(lines, i, m) == ParseEntries(lines, i + 1, Set(m, e.0, e.1, e.2))
  {
  }

  lemma PrefixStep(m: Matrix, order: seq<Coord>, i: nat)
    requires WellFormed(m)
    requires forall j :: 0 <= j < |order| ==> order[j] in m.entries
    requires i < |order|
    ensures Set(Matrix(m.rows, m.cols, Prefix(m, order, i)), order[i].0, order[i].1, m.entries[order[i]])
         == Matrix(m.rows, m.cols, Prefix(m, order, i + 1))
  {
    var key := order[i];
    assert order[..i + 1] == order[..i] + [key];
    assert Prefix(m, order, i)[key := m.entries[key]] == Prefix(m, order, i + 1);
  }

  lemma PrefixEnds(m: Matrix, order: seq<Coord>)
    requires forall j :: 0 <= j < |order| ==> order[j] in m.entries
    requires forall key :: key in m.entries ==> key in order
    ensures Prefix(m, order, 0) == map[]
    ensures Prefix(m, order, |order|) == m.entries
  {
    assert order[..0] == [];
    assert order[..|order|] == order;
  }

  lemma PrefixEmpty(m: Matrix, order: seq<Coord>)
    requires forall j :: 0 <= j < |order| ==> order[j] in m.entries
    ensures Matrix(m.rows, m.cols, Prefix(m, order, 0)) == Empty(m.rows, m.cols)
  {
    assert order[..0] == [];
  }

  /** From line index 2 on, the lines match as the entries of `m` for its keys in `order`. */
  predicate EntriesMatch(lines: seq<string>, m: Matrix, order: seq<Coord>)
    requires forall j :: 0 <= j < |order| ==> order[j] in m.entries
    requires |lines| == 2 + |order|
  {
    forall j :: 0 <= j < |order| ==>
      Strip(lines[2 + j]) != [] && MatchEntry(Strip(lines[2 + j])) == Some((order[j].0, order[j].1, m.entries[order[j]]))
  }

  /** Lines that all match as entries of `m`, for its keys in `order`, rebuild those entries. */
  lemma {:induction false} EntriesApplied(lines: seq<string>, m: Matrix, order: seq<Coord>, i: nat)
    requires WellFormed(m)
    requires forall j :: 0 <= j < |order| ==> order[j] in m.entries
    requires forall key :: key in m.entries ==> key in order
    requires |lines| == 2 + |order| && i <= |order|
    requires EntriesMatch(lines, m, order)
    ensures ParseEntries(lines, 2 + i, Matrix(m.rows, m.cols, Prefix(m, order, i))) == Scan(m, None)
    decreases |order| - i
  {
    var acc := Matrix(m.rows, m.cols, Prefix(m, order, i));
    if i < |order| {
      var key := order[i];
      EntryStep(lines, 2 + i, acc, (key.0, key.1, m.entries[key]));
      PrefixStep(m, order, i);
      EntriesApplied(lines, m, order, i + 1);
      assert 2 + (i + 1) == 2 + i + 1;
    } else {
      PrefixEnds(m, order);
    }
  }

  lemma HeaderParses(m: Matrix, order: seq<Coord>)
    requires forall j :: 0 <= j < |order| ==> order[j] in m.entries
    ensures ParseDimensions(HeaderLines(m) + EntryLines(m, order)) == Success((m.rows, m.cols))
  {
    var ls := HeaderLines(m) + EntryLines(m, order);
    assert ls[0] == "rows=" + NatToString(m.rows);
    assert ls[1] == "cols=" + NatToString(m.cols);
    HeaderLineShape("rows=", m.rows);
    HeaderLineShape("cols=", m.cols);
    StripTrimmed(ls[0]);
    StripTrimmed(ls[1]);
    DimensionMatches("rows=", m.rows);
    DimensionMatches("cols=", m.cols);
  }

  lemma EntryLineParses(l: string, key: Coord, value: int)
    requires l == EntryLine(key, value)
    ensures Strip(l) != [] && MatchEntry(Strip(l)) == Some((key.0, key.1, value))
  {
    EntryLineShape(key, value);
    StripTrimmed(l);
    EntryLineMatches(key, value);
  }

  lemma EntryLineAt(m: Matrix, order: seq<Coord>, j: nat)
    requires forall j :: 0 <= j < |order| ==> order[j] in m.entries
    requires j < |order|
    ensures (HeaderLines(m) + EntryLines(m, order))[2 + j] == EntryLine(order[j], m.entries[order[j]])
  {
  }

  lemma EntryLinesMatch(m: Matrix, order: seq<Coord>)
    requires forall j :: 0 <= j < |order| ==> order[j] in m.entries
    ensures EntriesMatch(HeaderLines(m) + EntryLines(m, order), m, order)
  {
    var ls := HeaderLines(m) + EntryLines(m, order);
    forall j | 0 <= j < |order|
      ensures Strip(ls[2 + j]) != [] && MatchEntry(Strip(ls[2 + j])) == Some((order[j].0, order[j].1, m.entries[order[j]]))
    {
      EntryLineMatchesAt(m, order, j);
    }
  }

  lemma EntryLineMatchesAt(m: Matrix, order: seq<Coord>, j: nat)
    requires forall j :: 0 <= j < |order| ==> order[j] in m.entries
    requires j < |order|
    ensures var l := (HeaderLines(m) + EntryLines(m, order))[2 + j];
      Strip(l) != [] && MatchEntry(Strip(l)) == Some((order[j].0, order[j].1, m.entries[order[j]]))
  {
    EntryLineAt(m, order, j);
    EntryLineParses((HeaderLines(m) + EntryLines(m, order))[2 + j], order[j], m.entries[order[j]]);
  }

  /** Entry lines that match one per key of `m` rebuild its entries from an empty matrix. */
  lemma EntriesFromEmpty(lines: seq<string>, m: Matrix, order: seq<Coord>)
    requires WellFormed(m)
    requires forall j :: 0 <= j < |order| ==> order[j] in m.entries
    requires forall key :: key in m.entries ==> key in order
    requires |lines| == 2 + |order|
    requires EntriesMatch(lines, m, order)
    ensures ParseEntries(lines, 2, Empty(m.rows, m.cols)) == Scan(m, None)
  {
    EntriesApplied(lines, m, order, 0);
    assert ParseEntries(lines, 2, Matrix(m.rows, m.cols, Prefix(m, order, 0))) == Scan(m, None);
    PrefixEmpty(m, order);
  }

  lemma ParseFromParts(lines: seq<string>, m: Matrix)
    requires |lines| >= 2
    requires ParseDimensions(lines) == Success((m.rows, m.cols))
    requires ParseEntries(lines, 2, Empty(m.rows, m.cols)) == Scan(m, None)
    ensures Parse(lines) == Success(m)
  {
  }

  /** Parsing the lines `__str__` writes, before they are joined, gives the matrix back. */
  lemma ParseRendered(m: Matrix, order: seq<Coord>)
    requires WellFormed(m)
    requires forall j :: 0 <= j < |order| ==> order[j] in m.entries
    requires forall key :: key in m.entries ==> key in order
    ensures Parse(HeaderLines(m) + EntryLines(m, order)) == Success(m)
  {
    var ls := HeaderLines(m) + EntryLines(m, order);
    HeaderParses(m, order);
    EntryLinesMatch(m, order);
    EntriesFromEmpty(ls, m, order);
    ParseFromParts(ls, m);
  }

  /**
    The round trip of `save_to_file` and `load_from_file`: whatever order the
    dictionary yields its keys in, reading back the text `__str__` writes
    gives the same dimensions and the same entries, explicit zeros included.
  */
  lemma RoundTrip(m: Matrix, order: seq<Coord>)
    requires WellFormed(m)
    requires forall j :: 0 <= j < |order| ==> order[j] in m.entries
    requires forall key :: key in m.entries ==> key in order
    ensures Parse(ReadLines(Render(m, order))) == Success(m)
  {
    var ls := HeaderLines(m) + EntryLines(m, order);
    var n := |ls|;
    forall i | 0 <= i < n ensures ls[i] != [] && Trimmed(ls[i]) && NoNewline(ls[i]) {
      LineShape(m, order, i);
    }
    StripTerminated(ls);
    var init, last := ls[..n - 1], ls[n - 1];
    ReadLinesTerminated(init, last);
    var lines := ReadLines(Render(m, order));
    assert |lines| == n;
    forall i | 0 <= i < n ensures Strip(lines[i]) == Strip(ls[i]) {
      StripTrimmed(ls[i]);
      if i < n - 1 {
        StripTerminatedLine(ls[i]);
      }
    }
    ParseStripped(lines, ls);
    ParseRendered(m, order);
  }

  // The parse rules of `_read_file`, `_parse_dimensions` and `_parse_non_zero_elements`.

  /** A line the entry loop lets through: blank after `strip()`, or starting with an entry. */
  predicate Accepted(line: string) {
    Strip(line) == [] || MatchEntry(Strip(line)).Some?
  }

  /** The lines the entry loop lets through, by the shape of the entry pattern. */
  lemma AcceptedForm(line: string)
    ensures Accepted(line) <==> Strip(line) == [] || exists e :: EntryPattern.EntryForm(Strip(line), e)
  {
    var l := Strip(line);
    if MatchEntry(l).Some? {
      EntryPattern.MatchEntryForm(l, MatchEntry(l).value);
    }
    if exists e :: EntryPattern.EntryForm(l, e) {
      var e :| EntryPattern.EntryForm(l, e);
      EntryPattern.MatchEntryForm(l, e);
    }
  }

  /** Every line from index `i` on is accepted by the entry loop. */
  predicate AllAccepted(lines: seq<string>, i: nat) {
    forall k :: i <= k < |lines| ==> Accepted(lines[k])
  }

  lemma AllAcceptedStep(lines: seq<string>, i: nat)
    requires i < |lines|
    ensures AllAccepted(lines, i) <==> Accepted(lines[i]) && AllAccepted(lines, i + 1)
  {
  }

  /** The entry scan from index `i` ends without error exactly when it accepts every remaining line. */
  lemma {:induction false} ParseEntriesSucceeds(lines: seq<string>, i: nat, m: Matrix)
    ensures ParseEntries(lines, i, m).error.None? <==> AllAccepted(lines, i)
    decreases |lines| - i
  {
    if i < |lines| {
      var here := Strip(lines[i]);
      AllAcceptedStep(lines, i);
      if here == [] {
        ParseEntriesSucceeds(lines, i + 1, m);
      } else if MatchEntry(here).Some? {
        var e := MatchEntry(here).value;
        ParseEntriesSucceeds(lines, i + 1, Set(m, e.0, e.1, e.2));
      }
    }
  }

  /** The line at index `n - 1` is the first from index `i` on that the entry loop does not accept. */
  predicate FirstRejected(lines: seq<string>, i: nat, n: nat) {
    i < n <= |lines| && !Accepted(lines[n - 1]) && forall k :: i <= k < n - 1 ==> Accepted(lines[k])
  }

  lemma FirstRejectedStep(lines: seq<string>, i: nat, n: nat)
    requires i < |lines|
    ensures Accepted(lines[i]) ==> (FirstRejected(lines, i, n) <==> FirstRejected(lines, i + 1, n))
    ensures !Accepted(lines[i]) ==> (FirstRejected(lines, i, n) <==> n == i + 1)
  {
  }

  /**
    The entry scan from index `i` fails with line number `n` exactly when the
    line at index `n - 1` is the first one from `i` on that it does not accept;
    the error carries that line, stripped.
  */
  lemma {:induction false} ParseEntriesFails(lines: seq<string>, i: nat, m: Matrix, n: nat, line: string)
    ensures ParseEntries(lines, i, m).error == Some(InvalidEntry(n, line))
        <==> FirstRejected(lines, i, n) && line == Strip(lines[n - 1])
    decreases |lines| - i
  {
    if i < |lines| {
      var here := Strip(lines[i]);
      FirstRejectedStep(lines, i, n);
      if here == [] {
        ParseEntriesFails(lines, i + 1, m, n, line);
      } else if MatchEntry(here).Some? {
        var e := MatchEntry(here).value;
        ParseEntriesFails(lines, i + 1, Set(m, e.0, e.1, e.2), n, line);
      }
    }
  }

  /** Fewer than two lines, or a header the two patterns reject, are reported before any entry line is read. */
  lemma ParseHeaderErrors(lines: seq<string>)
    ensures Parse(lines) == Failure(InvalidDimensions) <==> |lines| >= 2 && ParseDimensions(lines).Failure?
  {
  }

  /**
    A file parses exactly when it has at least two lines, its header matches
    and every line after the header is blank or an entry line.
  */
  lemma ParseSucceeds(lines: seq<string>)
    ensures Parse(lines).Success?
        <==> |lines| >= 2 && ParseDimensions(lines).Success? && AllAccepted(lines, 2)
  {
    if |lines| >= 2 && ParseDimensions(lines).Success? {
      var dims := ParseDimensions(lines).value;
      ParseEntriesSucceeds(lines, 2, Empty(dims.0, dims.1));
    }
  }

  /** A file with a valid header fails at line `n` exactly when that is its first rejected line, counted from 1. */
  lemma ParseFailsAt(lines: seq<string>, n: nat, line: string)
    ensures Parse(lines) == Failure(InvalidEntry(n, line))
        <==> |lines| >= 2 && ParseDimensions(lines).Success? && FirstRejected(lines, 2, n) && line == Strip(lines[n - 1])
  {
    if |lines| >= 2 && ParseDimensions(lines).Success? {
      var dims := ParseDimensions(lines).value;
      ParseEntriesFails(lines, 2, Empty(dims.0, dims.1), n, line);
    }
  }

  /**
    One turn of the entry loop, as a step on where the scan stands: after an
    error nothing changes, a blank line is skipped, an entry line is applied
    with `set_value` and any other line is reported with its line number.
  */
  function Feed(s: Scan, line: string, number: nat): Scan {
    if s.error.Some? then s
    else
      var t := Strip(line);
      if t == [] then s
      else match MatchEntry(t)
        case None => Scan(s.matrix, Some(InvalidEntry(number, t)))
        case Some(e) => Scan(Set(s.matrix, e.0, e.1, e.2), None)
  }

  /** The recursive scan is the left fold of `Feed` over the lines: one more line is one more turn. */
  lemma {:induction false} ParseEntriesAppend(lines: seq<string>, l: string, i: nat, m: Matrix)
    requires i <= |lines|
    ensures ParseEntries(lines + [l], i, m) == Feed(ParseEntries(lines, i, m), l, |lines| + 1)
    decreases |lines| - i
  {
    var all := lines + [l];
    if i == |lines| {
      assert all[i] == l;
      ParseEntriesLast(all, m);
    } else {
      assert all[i] == lines[i];
      var line := Strip(lines[i]);
      if Accepted(lines[i]) {
        var next := if line == [] then m else var e := MatchEntry(line).value; Set(m, e.0, e.1, e.2);
        assert ParseEntries(all, i, m) == ParseEntries(all, i + 1, next);
        assert ParseEntries(lines, i, m) == ParseEntries(lines, i + 1, next);
        ParseEntriesAppend(lines, l, i + 1, next);
      }
    }
  }

  /** The scan of the last line alone is one turn of `Feed` from a clean start. */
  lemma ParseEntriesLast(lines: seq<string>, m: Matrix)
    requires |lines| > 0
    ensures ParseEntries(lines, |lines| - 1, m) == Feed(Scan(m, None), lines[|lines| - 1], |lines|)
  {
  }

  /** Appending a line to a file with a header: an earlier error stands, otherwise the new line takes one turn of the loop. */
  lemma ParseAppend(lines: seq<string>, l: string)
    requires |lines| >= 2
    ensures Parse(lines + [l])
         == if Parse(lines).Failure? then Parse(lines)
            else
              var s := Feed(Scan(Parse(lines).value, None), l, |lines| + 1);
              if s.error.Some? then Failure(s.error.value) else Success(s.matrix)
  {
    var all := lines + [l];
    assert all[0] == lines[0] && all[1] == lines[1];
    if ParseDimensions(lines).Success? {
      var dims := ParseDimensions(lines).value;
      ParseEntriesAppend(lines, l, 2, Empty(dims.0, dims.1));
    }
  }

  /** A blank line after the header changes nothing. */
  lemma ParseBlankLine(lines: seq<string>, l: string)
    requires |lines| >= 2 && Strip(l) == []
    ensures Parse(lines + [l]) == Parse(lines)
  {
    ParseAppend(lines, l);
  }

  /**
    A later entry line for a coordinate wins: it sets that coordinate, keeps
    every other stored value, and grows the dimensions to cover it.
  */
  lemma ParseLastWriteWins(lines: seq<string>, l: string, row: nat, col: nat, value: int)
    requires |lines| >= 2 && Parse(lines).Success?
    requires Strip(l) != [] && MatchEntry(Strip(l)) == Some((row, col, value))
    ensures Parse(lines + [l]) == Success(Set(Parse(lines).value, row, col, value))
    ensures Get(Parse(lines + [l]).value, row, col) == value
    ensures forall r: nat, c: nat :: (r, c) != (row, col) ==> Get(Parse(lines + [l]).value, r, c) == Get(Parse(lines).value, r, c)
  {
    ParseAppend(lines, l);
  }

  /** A non-blank line that is not an entry line is reported with its 1-based line number. */
  lemma ParseBadLine(lines: seq<string>, l: string)
    requires |lines| >= 2 && Parse(lines).Success?
    requires Strip(l) != [] && MatchEntry(Strip(l)).None?
    ensures Parse(lines + [l]) == Failure(InvalidEntry(|lines| + 1, Strip(l)))
  {
    ParseAppend(lines, l);
  }

  /** The header patterns are anchored at the start only: whatever follows the digits is ignored. */
  lemma DimensionIgnoresSuffix(key: string, n: nat, rest: string)
    requires rest == [] || !IsDigit(rest[0])
    ensures MatchDimension(key, key + NatToString(n) + rest) == Some(n)
  {
    var d := NatToString(n) + rest;
    PrefixSplit(key, NatToString(n), rest);
    NumberPrefix(n, rest);
    assert MatchNumber(d) == Some((n, rest));
  }

  /** `key` is a prefix of `key + d + rest`, and what follows it is `d + rest`. */
  lemma PrefixSplit(key: string, d: string, rest: string)
    ensures key <= key + d + rest && (key + d + rest)[|key|..] == d + rest
  {
    assert key + d + rest == key + (d + rest);
  }

  /** `(x + y) + z == x + (y + z)`, one step of regrouping a line. */
  lemma Regroup(x: string, y: string, z: string)
    ensures (x + y) + z == x + (y + z)
  {
  }

  /** An entry line `__str__` writes, followed by `rest`, regrouped into the pieces of the entry pattern. */
  lemma EntryLineRegrouped(key: Coord, value: int, rest: string, negative: bool, d: string)
    requires IntToString(value) == EntryPattern.Sign(negative) + d
    ensures EntryPattern.PartsText(EntryPattern.EntryParts(NatToString(key.0), " ", NatToString(key.1), " ", negative, d, rest))
         == EntryLine(key, value) + rest
  {
    var a, b, v := NatToString(key.0), NatToString(key.1), IntToString(value);
    var r4 := EntryPattern.Sign(negative) + (d + (")" + rest));
    var t4 := v + ")";
    Regroup(v, ")", rest);
    Regroup(EntryPattern.Sign(negative), d, ")" + rest);
    assert t4 + rest == r4;
    var t3, r3 := ", " + t4, "," + (" " + r4);
    Regroup(", ", t4, rest);
    assert t3 + rest == r3;
    var t2, r2 := b + t3, b + r3;
    Regroup(b, t3, rest);
    var t1, r1 := ", " + t2, "," + (" " + r2);
    Regroup(", ", t2, rest);
    assert t1 + rest == r1;
    Regroup(a, t1, rest);
    Regroup("(", a + t1, rest);
    assert EntryLine(key, value) == "(" + (a + t1);
  }

  /** An entry line `__str__` writes, followed by `rest`, cut into the pieces of the entry pattern. */
  lemma EntryLineParts(key: Coord, value: int, rest: string) returns (p: EntryPattern.EntryParts)
    ensures EntryPattern.PartsValid(p)
    ensures EntryPattern.PartsText(p) == EntryLine(key, value) + rest
    ensures EntryPattern.PartsTriple(p) == (key.0, key.1, value)
  {
    var negative := value < 0;
    var n: nat := if negative then -value else value;
    var d := NatToString(n);
    assert IntToString(value) == EntryPattern.Sign(negative) + d;
    EntryLineRegrouped(key, value, rest, negative, d);
    p := EntryPattern.EntryParts(NatToString(key.0), " ", NatToString(key.1), " ", negative, d, rest);
  }

  /** The entry pattern is anchored at the start only: whatever follows the closing parenthesis is ignored. */
  lemma EntryIgnoresSuffix(key: Coord, value: int, rest: string)
    ensures MatchEntry(EntryLine(key, value) + rest) == Some((key.0, key.1, value))
  {
    var p := EntryLineParts(key, value, rest);
    EntryPattern.PartsMatch(p);
  }

  /** `rows=3xyz` is read as three rows. */
  lemma HeaderSuffixExample()
    ensures MatchDimension("rows=", "rows=3xyz") == Some(3)
  {
    DimensionIgnoresSuffix("rows=", 3, "xyz");
    assert "rows=" + NatToString(3) + "xyz" == "rows=3xyz";
  }

  /** Leading zeros are read as part of the number: `rows=007` is read as seven rows. */
  lemma HeaderLeadingZerosExample()
    ensures MatchDimension("rows=", "rows=007") == Some(7)
  {
    var t := "rows=007"[5..];
    assert t == "007";
    assert LeadingDigits(t) == 3;
    assert t[..3] == "007";
    assert "007"[..2] == "00" && "00"[..1] == "0" && "0"[..0] == [];
    assert DigitsValue("007") == 7;
  }
}
