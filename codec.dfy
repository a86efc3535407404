/**
  The text format of a matrix file: the `rows=R` / `cols=C` header, the
  `(r, c, v)` entry lines, parsing a file's lines into a matrix
  (`load_from_file` without the file access) and serialising a matrix
  (`__str__`). The three regular expressions of the source are written out
  as matchers; like `re.match`, each is anchored only at the start.
*/
module Codec {
  import opened Wrappers
  import opened SparseMatrix
  import opened Text

  /** `\d+` at the start of `s`: the value of the longest run of digits and the text after it. */
  function MatchNumber(s: string): (r: Option<(nat, string)>)
    ensures r.None? <==> (s == [] || !IsDigit(s[0]))
  {
    var n := LeadingDigits(s);
    if n == 0 then None else Some((DigitsValue(s[..n]), s[n..]))
  }

  /** `-?\d+` at the start of `s`. */
  function MatchSigned(s: string): Option<(int, string)> {
    var negative := s != [] && s[0] == '-';
    var p :- MatchNumber(if negative then s[1..] else s);
    Some((if negative then -(p.0 as int) else p.0 as int, p.1))
  }

  /** A literal character at the start of `s`. */
  function MatchChar(c: char, s: string): Option<string> {
    if s != [] && s[0] == c then Some(s[1..]) else None
  }

  /** A header line `key` followed by at least one digit: what `re.match(key + r'(\d+)', line)` accepts. */
  predicate DimensionLine(key: string, line: string) {
    key <= line && |key| < |line| && IsDigit(line[|key|])
  }

  /** `re.match(key + r'(\d+)', line)`: the number after `key`; anything may follow it. */
  function MatchDimension(key: string, line: string): (r: Option<nat>)
    ensures r.Some? <==> DimensionLine(key, line)
    ensures r.Some? ==> var t := line[|key|..]; r.value == DigitsValue(t[..LeadingDigits(t)])
  {
    if key <= line then
      var p :- MatchNumber(line[|key|..]);
      Some(p.0)
    else None
  }

  /** `re.match(r'\((\d+),\s*(\d+),\s*(-?\d+)\)', line)`: anything may follow the `)`. */
  function MatchEntry(line: string): Option<(nat, nat, int)> {
    var s1 :- MatchChar('(', line);
    var row :- MatchNumber(s1);
    var s2 :- MatchChar(',', row.1);
    var col :- MatchNumber(StripLeading(s2));
    var s3 :- MatchChar(',', col.1);
    var value :- MatchSigned(StripLeading(s3));
    var rest :- MatchChar(')', value.1);
    Some((row.0, col.0, value.0))
  }

  /** `_parse_dimensions`: the header's two numbers, read from the first two stripped lines. */
  function ParseDimensions(lines: seq<string>): (r: Result<(nat, nat), Error>)
    requires |lines| >= 2
    ensures r.Success? <==> DimensionLine("rows=", Strip(lines[0])) && DimensionLine("cols=", Strip(lines[1]))
    ensures r.Success? ==>
      var t0, t1 := Strip(lines[0])[5..], Strip(lines[1])[5..];
      r.value == (DigitsValue(t0[..LeadingDigits(t0)]), DigitsValue(t1[..LeadingDigits(t1)]))
    ensures r.Failure? ==> r.error == InvalidDimensions
  {
    var rows := MatchDimension("rows=", Strip(lines[0]));
    var cols := MatchDimension("cols=", Strip(lines[1]));
    if rows.None? || cols.None? then Failure(InvalidDimensions)
    else Success((rows.value, cols.value))
  }

  /** Where a scan of the entry lines stopped: the matrix so far and the error, if any. */
  datatype Scan = Scan(matrix: Matrix, error: Option<Error>)

  /**
    `_parse_non_zero_elements` from line index `i` on: blank lines are skipped,
    each entry line is applied with `set_value`, and the first other line stops
    the scan with its 1-based line number.
  */
  function ParseEntries(lines: seq<string>, i: nat, m: Matrix): (r: Scan)
    ensures WellFormed(m) ==> WellFormed(r.matrix)
    ensures r.matrix.rows >= m.rows && r.matrix.cols >= m.cols
    ensures r.error.Some? ==> r.error.value.InvalidEntry? && i < r.error.value.lineNumber <= |lines|
    decreases |lines| - i
  {
    if i >= |lines| then Scan(m, None)
    else
      var line := Strip(lines[i]);
      if line == [] then ParseEntries(lines, i + 1, m)
      else match MatchEntry(line)
        case None => Scan(m, Some(InvalidEntry(i + 1, line)))
        case Some(e) => ParseEntries(lines, i + 1, Set(m, e.0, e.1, e.2))
  }

  /** `load_from_file` on the lines of a file: the line-count check, the header, then the entries. */
  function Parse(lines: seq<string>): (r: Result<Matrix, Error>)
    ensures |lines| < 2 <==> r == Failure(TooFewLines)
    ensures r.Success? ==> WellFormed(r.value)
  {
    if |lines| < 2 then Failure(TooFewLines)
    else
      var dims :- ParseDimensions(lines);
      var scan := ParseEntries(lines, 2, Empty(dims.0, dims.1));
      if scan.error.Some? then Failure(scan.error.value) else Success(scan.matrix)
  }

  /** The line `__str__` writes for one entry. */
  function EntryLine(key: Coord, value: int): string {
    "(" + (NatToString(key.0) + (", " + (NatToString(key.1) + (", " + (IntToString(value) + ")")))))
  }

  function HeaderLines(m: Matrix): seq<string> {
    ["rows=" + NatToString(m.rows), "cols=" + NatToString(m.cols)]
  }

  /** The entry lines of `m`, for its keys taken in the given order. */
  function EntryLines(m: Matrix, order: seq<Coord>): seq<string>
    requires forall i :: 0 <= i < |order| ==> order[i] in m.entries
  {
    seq(|order|, i requires 0 <= i < |order| => EntryLine(order[i], m.entries[order[i]]))
  }

  /** `order` lists every key of `keys` exactly once. */
  predicate Enumerates(order: seq<Coord>, keys: set<Coord>) {
    && (forall i, j :: 0 <= i < j < |order| ==> order[i] != order[j])
    && (forall i :: 0 <= i < |order| ==> order[i] in keys)
    && (forall key :: key in keys ==> key in order)
  }

  /**
    `__str__` when the dictionary yields its keys in `order`: the header, one
    line per entry, each line terminated, then the whole text stripped.
  */
  function Render(m: Matrix, order: seq<Coord>): string
    requires forall i :: 0 <= i < |order| ==> order[i] in m.entries
  {
    Strip(Terminated(HeaderLines(m) + EntryLines(m, order)))
  }
}
