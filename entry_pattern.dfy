/**
  A declarative reading of the entry pattern `\((\d+),\s*(\d+),\s*(-?\d+)\)`
  under `re.match`: which lines it accepts, cut into their pieces, and the
  proof that the matcher `Codec.MatchEntry` accepts exactly those lines and
  returns the triple their digits spell.
*/
module EntryPattern {
  import opened Wrappers
  import opened Text
  import opened Codec

  /**
    The pieces of a line the entry pattern matches: the three digit groups,
    the whitespace after each comma, the optional minus sign of the value and
    whatever follows the closing parenthesis.
  */
  datatype EntryParts = EntryParts(
    row: string, space1: string, col: string, space2: string,
    negative: bool, value: string, rest: string)

  /** `\d+`: a non-empty run of digits. */
  predicate Digits(d: string) {
    d != [] && AllDigits(d)
  }

  /** `\s*`: whitespace only. */
  predicate Spaces(w: string) {
    forall k :: 0 <= k < |w| ==> IsSpace(w[k])
  }

  predicate PartsValid(p: EntryParts) {
    Digits(p.row) && Spaces(p.space1) && Digits(p.col) && Spaces(p.space2) && Digits(p.value)
  }

  function Sign(negative: bool): string {
    if negative then "-" else ""
  }

  /** The line the pieces make up. */
  function PartsText(p: EntryParts): string {
    "(" + (p.row + ("," + (p.space1 + (p.col + ("," + (p.space2 + (Sign(p.negative) + (p.value + (")" + p.rest)))))))))
  }

  /** The row, column and value the three groups give to `int()`. */
  function PartsTriple(p: EntryParts): (nat, nat, int)
    requires PartsValid(p)
  {
    var v := DigitsValue(p.value) as int;
    (DigitsValue(p.row), DigitsValue(p.col), if p.negative then -v else v)
  }

  /** `line` starts with an entry whose groups give `e`. */
  ghost predicate EntryForm(line: string, e: (nat, nat, int)) {
    exists p :: PartsValid(p) && PartsText(p) == line && PartsTriple(p) == e
  }

  /** A run of digits followed by a non-digit is read whole by `\d+`. */
  lemma DigitsThen(d: string, rest: string)
    requires Digits(d) && (rest == [] || !IsDigit(rest[0]))
    ensures MatchNumber(d + rest) == Some((DigitsValue(d), rest))
  {
    var s := d + rest;
    LeadingDigitsOfRun(d, rest);
    assert s[..|d|] == d && s[|d|..] == rest;
  }

  lemma {:induction false} LeadingDigitsOfRun(d: string, rest: string)
    requires AllDigits(d)
    requires rest == [] || !IsDigit(rest[0])
    ensures LeadingDigits(d + rest) == |d|
  {
    if d != [] {
      assert (d + rest)[1..] == d[1..] + rest;
      LeadingDigitsOfRun(d[1..], rest);
    }
  }

  /** `\s*` before a character that is not whitespace is skipped whole. */
  lemma {:induction false} SpacesThen(w: string, s: string)
    requires Spaces(w) && s != [] && !IsSpace(s[0])
    ensures StripLeading(w + s) == s
  {
    if w != [] {
      assert (w + s)[0] == w[0];
      assert (w + s)[1..] == w[1..] + s;
      SpacesThen(w[1..], s);
    } else {
      assert w + s == s;
    }
  }

  /** An optional minus sign and a run of digits followed by a non-digit are read whole by `-?\d+`. */
  lemma SignedThen(negative: bool, d: string, rest: string, s: string) returns (z: int)
    requires Digits(d) && (rest == [] || !IsDigit(rest[0]))
    requires s == Sign(negative) + (d + rest)
    ensures z == if negative then -(DigitsValue(d) as int) else DigitsValue(d) as int
    ensures s != [] && !IsSpace(s[0])
    ensures MatchSigned(s) == Some((z, rest))
  {
    var h := d + rest;
    z := if negative then -(DigitsValue(d) as int) else DigitsValue(d) as int;
    assert h[0] == d[0];
    DigitsThen(d, rest);
    if negative {
      assert s[0] == '-' && s[1..] == h;
    } else {
      assert s == h && IsDigit(s[0]);
    }
  }

  lemma CharThen(c: char, s: string)
    ensures MatchChar(c, [c] + s) == Some(s)
  {
    assert ([c] + s)[1..] == s;
  }

  /** The matcher, group by group: each step consumes its piece and hands on the rest. */
  lemma StepsMatch(line: string, s1: string, x: nat, t1: string, s2: string, y: nat, t2: string,
                   s3: string, z: int, t3: string)
    requires MatchChar('(', line) == Some(s1)
    requires MatchNumber(s1) == Some((x, t1))
    requires MatchChar(',', t1) == Some(s2)
    requires MatchNumber(StripLeading(s2)) == Some((y, t2))
    requires MatchChar(',', t2) == Some(s3)
    requires MatchSigned(StripLeading(s3)) == Some((z, t3))
    requires MatchChar(')', t3).Some?
    ensures MatchEntry(line) == Some((x, y, z))
  {
  }

  /** The matcher reads valid pieces group by group and returns the value their digits spell. */
  lemma PiecesMatch(row: string, space1: string, col: string, space2: string, negative: bool,
                    value: string, rest: string) returns (z: int)
    requires Digits(row) && Spaces(space1) && Digits(col) && Spaces(space2) && Digits(value)
    ensures z == if negative then -(DigitsValue(value) as int) else DigitsValue(value) as int
    ensures MatchEntry("(" + (row + ("," + (space1 + (col + ("," + (space2 + (Sign(negative) + (value + (")" + rest))))))))))
         == Some((DigitsValue(row), DigitsValue(col), z))
  {
    var i := ")" + rest;
    var g := Sign(negative) + (value + i);
    var f := space2 + g;
    var e := "," + f;
    var d := col + e;
    var c := space1 + d;
    var b := "," + c;
    var a := row + b;
    CharThen('(', a);
    DigitsThen(row, b);
    CharThen(',', c);
    DigitsThen(col, e);
    assert d[0] == col[0];
    SpacesThen(space1, d);
    CharThen(',', f);
    z := SignedThen(negative, value, i, g);
    SpacesThen(space2, g);
    CharThen(')', rest);
    StepsMatch("(" + a, a, DigitsValue(row), b, c, DigitsValue(col), e, f, z, i);
  }

  /** The matcher accepts every line made of valid pieces and returns their triple. */
  lemma PartsMatch(p: EntryParts)
    requires PartsValid(p)
    ensures MatchEntry(PartsText(p)) == Some(PartsTriple(p))
  {
    var z := PiecesMatch(p.row, p.space1, p.col, p.space2, p.negative, p.value, p.rest);
    TripleOf(p, DigitsValue(p.row), DigitsValue(p.col), z);
  }

  /** A literal character the matcher consumed. */
  lemma CharParts(c: char, s: string)
    requires MatchChar(c, s).Some?
    ensures s == [c] + MatchChar(c, s).value
  {
  }

  /** What `\d+` consumed is a run of digits with the value returned. */
  lemma NumberParts(s: string) returns (d: string)
    requires MatchNumber(s).Some?
    ensures Digits(d) && s == d + MatchNumber(s).value.1 && MatchNumber(s).value.0 == DigitsValue(d)
  {
    var n := LeadingDigits(s);
    d := s[..n];
    assert s == s[..n] + s[n..];
  }

  /** What `\s*` skips is whitespace. */
  lemma SpacesParts(s: string) returns (w: string)
    ensures Spaces(w) && s == w + StripLeading(s)
  {
    StripLeadingSpec(s);
    var r := StripLeading(s);
    w := s[..|s| - |r|];
    assert s == s[..|s| - |r|] + s[|s| - |r|..];
  }

  /** What `-?\d+` consumed is an optional minus sign and a run of digits with the value returned. */
  lemma SignedParts(s: string) returns (negative: bool, d: string)
    requires MatchSigned(s).Some?
    ensures Digits(d) && s == Sign(negative) + (d + MatchSigned(s).value.1)
    ensures MatchSigned(s).value.0 == if negative then -(DigitsValue(d) as int) else DigitsValue(d) as int
  {
    negative := s != [] && s[0] == '-';
    var body := if negative then s[1..] else s;
    d := NumberParts(body);
    if negative {
      assert s == "-" + body;
    }
  }

  /** The triple of pieces whose digit groups have the given values. */
  lemma TripleOf(p: EntryParts, x: nat, y: nat, z: int)
    requires PartsValid(p)
    requires x == DigitsValue(p.row) && y == DigitsValue(p.col)
    requires z == if p.negative then -(DigitsValue(p.value) as int) else DigitsValue(p.value) as int
    ensures PartsTriple(p) == (x, y, z)
  {
  }

  /** The intermediate results of the matcher on a line it accepts. */
  lemma MatchEntryTrace(line: string)
    returns (s1: string, row: (nat, string), s2: string, c: string, col: (nat, string),
             s3: string, g: string, value: (int, string), rest: string)
    requires MatchEntry(line).Some?
    ensures MatchChar('(', line) == Some(s1) && MatchNumber(s1) == Some(row)
    ensures MatchChar(',', row.1) == Some(s2) && c == StripLeading(s2) && MatchNumber(c) == Some(col)
    ensures MatchChar(',', col.1) == Some(s3) && g == StripLeading(s3) && MatchSigned(g) == Some(value)
    ensures MatchChar(')', value.1) == Some(rest)
    ensures MatchEntry(line) == Some((row.0, col.0, value.0))
  {
    s1 := MatchChar('(', line).value;
    row := MatchNumber(s1).value;
    s2 := MatchChar(',', row.1).value;
    c := StripLeading(s2);
    col := MatchNumber(c).value;
    s3 := MatchChar(',', col.1).value;
    g := StripLeading(s3);
    value := MatchSigned(g).value;
    rest := MatchChar(')', value.1).value;
  }

  /** Pieces that follow one another make up the line. */
  lemma Assemble(line: string, s1: string, row: string, t1: string, s2: string, space1: string, c: string,
                 col: string, t2: string, s3: string, space2: string, g: string, negative: bool,
                 value: string, t3: string, rest: string)
    requires line == ['('] + s1 && s1 == row + t1 && t1 == [','] + s2 && s2 == space1 + c
    requires c == col + t2 && t2 == [','] + s3 && s3 == space2 + g
    requires g == Sign(negative) + (value + t3) && t3 == [')'] + rest
    ensures PartsText(EntryParts(row, space1, col, space2, negative, value, rest)) == line
  {
  }

  /** Every line the matcher accepts is made of valid pieces that give the returned triple. */
  lemma MatchParts(line: string)
    requires MatchEntry(line).Some?
    ensures EntryForm(line, MatchEntry(line).value)
  {
    var s1, row, s2, c, col, s3, g, value, rest := MatchEntryTrace(line);
    CharParts('(', line);
    var d1 := NumberParts(s1);
    CharParts(',', row.1);
    var w1 := SpacesParts(s2);
    var d2 := NumberParts(c);
    CharParts(',', col.1);
    var w2 := SpacesParts(s3);
    var negative, d3 := SignedParts(g);
    CharParts(')', value.1);
    Assemble(line, s1, d1, row.1, s2, w1, c, d2, col.1, s3, w2, g, negative, d3, value.1, rest);
    var p := EntryParts(d1, w1, d2, w2, negative, d3, rest);
    TripleOf(p, row.0, col.0, value.0);
  }

  /**
    `_parse_non_zero_elements`' pattern: a stripped line is accepted with the
    triple `e` exactly when it starts with `(`, digits, `,`, optional
    whitespace, digits, `,`, optional whitespace, an optional `-` and digits,
    then `)`, and those digit groups spell `e`; anything may follow.
  */
  lemma MatchEntryForm(line: string, e: (nat, nat, int))
    ensures MatchEntry(line) == Some(e) <==> EntryForm(line, e)
  {
    if MatchEntry(line) == Some(e) {
      MatchParts(line);
    }
    if EntryForm(line, e) {
      var p :| PartsValid(p) && PartsText(p) == line && PartsTriple(p) == e;
      PartsMatch(p);
    }
  }
}
