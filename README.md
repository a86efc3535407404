# Compressed sparse matrix, modelled in Dafny

This project models the `CompressedMatrix` class of `sparse_matrix/code/sparse.py`.
The class stores an integer matrix as two dimensions, `row_count` and
`column_count`, plus a dictionary from `(row, column)` to the stored value.

- **Storage.** `get_value` reads the dictionary and returns 0 for a missing key.
  `set_value` overwrites one key, zero included, and grows each dimension to cover it.
- **Arithmetic.**
  - `add` and `subtract` check that both dimensions agree.
    They copy the left operand into a fresh matrix, then fold in every stored entry of the right operand.
  - `multiply` checks the inner dimension.
    Then, for each stored entry of the left operand, it runs over every column of the right one.
    It accumulates into a fresh matrix the entry's product with each non-zero entry of the matching row of the right operand.
    A stored zero on the left still produces a stored (zero) result entry.
- **Text format.** A file has a `rows=R` line, a `cols=C` line and one `(r, c, v)` line per entry.
  - Loading needs at least two lines. Each header line must start with its pattern.
    Blank lines are skipped. A later entry for a key overwrites an earlier one.
    The first bad line is reported with its 1-based number.
  - `__str__` writes the header and one line per entry, then strips the result.

The model has two layers.

- **Value level.**
  - `SparseMatrix.Matrix` holds the dimensions and the entry map, with `Get` and `Set`.
  - `Arithmetic` defines `Sum`, `Difference` and `Product`.
    `Product` is tied to the reference `DotProduct`.
  - `Codec` writes out the three regular expressions as start-anchored matchers.
    It also defines `Parse` (loading without file access) and `Render` (`__str__`).
  - `EntryPattern` describes the lines the entry pattern accepts by their pieces.
    It proves that the entry matcher accepts exactly those lines.
  - `Text` models `str.strip`, `str.isspace`, decimal conversion and the line splitting of `readlines`.
- **Class level.** `Compressed.CompressedMatrix` has the three fields of the source.
  - Its methods update them in place with the source's own loops.
  - Each method is proved against the value-level definition through `Model()`.
  - `Valid()` is the class invariant: every stored key lies inside the dimensions.
  - Dictionary iteration order is never fixed. Loops pick any remaining key with `:|`.
    `ToText` returns the order it used as a ghost out-parameter.

## Model

| member | source | states |
|---|---|---|
| Compressed.CompressedMatrix.constructor | sparse_matrix/code/sparse.py:10-13 | the new object has the given dimensions, no stored entry, and satisfies the class invariant |
| Compressed.CompressedMatrix.GetValue | sparse_matrix/code/sparse.py:94 | returns the stored value for a stored key and 0 for any other key |
| Compressed.CompressedMatrix.SetValue | sparse_matrix/code/sparse.py:104-106 | the new state is `Set` of the old one; the key reads back as the new value; the class invariant is preserved |
| SparseMatrix.SetSpec | sparse_matrix/code/sparse.py:104-106 | after `set_value` the key is stored and reads back as the value; every other key reads as before; the key set gains exactly that key; each dimension becomes the larger of its old value and index + 1; the storage invariant is kept |
| SparseMatrix.SetInside | sparse_matrix/code/sparse.py:104-105 | a key inside the dimensions leaves both dimensions unchanged |
| SparseMatrix.GrownStep | sparse_matrix/code/sparse.py:104-105 | after one more `set_value`, every key set so far is still covered, and each dimension is still its start value or one more than some key's index |
| SparseMatrix.CopiedStep | sparse_matrix/code/sparse.py:192-193 | one turn of the copy loop extends the invariant: target entries are the starting ones overlaid with the source's entries copied so far, and dimensions grow as `set_value` grows them |
| Compressed.CompressedMatrix.CopyNonZeroElements | sparse_matrix/code/sparse.py:192-193 | the target's dictionary becomes its old dictionary overlaid with this matrix's entries; its dimensions cover the copied keys and grow no further than they need to |
| Compressed.CompressedMatrix.CreateEmptyMatrix | sparse_matrix/code/sparse.py:184 | a fresh matrix with this matrix's dimensions and no entry |
| Arithmetic.CheckDimensions | sparse_matrix/code/sparse.py:175-176 | passes exactly when both dimensions agree; otherwise the error is a dimension mismatch naming the operation |
| Arithmetic.Sum | sparse_matrix/code/sparse.py:115-125 | fails exactly on a dimension mismatch; otherwise it has the left operand's dimensions, its keys are the union of both key sets, every coordinate holds the sum of the operands' values, and well-formedness is kept |
| Arithmetic.Difference | sparse_matrix/code/sparse.py:134-144 | as `Sum`, with every coordinate holding the left value minus the right value |
| Arithmetic.SumThenDifference | sparse_matrix/code/sparse.py:115-144 | subtracting b from a + b succeeds and gives a's value at every coordinate, with a's dimensions; the stored keys are the union of both operands' keys |
| Arithmetic.MergesStep | sparse_matrix/code/sparse.py:121-123 | one `get_value`/`set_value` turn of the accumulation loop of `add` (or `subtract`) folds one more key of the right operand into the result and keeps the dimensions |
| Arithmetic.MergesAll | sparse_matrix/code/sparse.py:118-125 | once every key of the right operand is folded in, the result is exactly `Sum` (or `Difference`) |
| Compressed.CompressedMatrix.CombineEntries | sparse_matrix/code/sparse.py:121-123 | the accumulation loop of `add` and `subtract` (lines 140-142) folds every stored entry of the other matrix into this one |
| Compressed.CompressedMatrix.Add | sparse_matrix/code/sparse.py:115-125 | fails with the same error as `Sum`; otherwise returns a fresh matrix whose value equals `Sum` of the operands, which are left unchanged |
| Compressed.CompressedMatrix.Subtract | sparse_matrix/code/sparse.py:134-144 | fails with the same error as `Difference`; otherwise returns a fresh matrix whose value equals `Difference` of the operands, which are left unchanged |
| Arithmetic.Product | sparse_matrix/code/sparse.py:153-166 | fails exactly when the left column count differs from the right row count; otherwise it has the left operand's rows and the right operand's columns, and well-formedness is kept |
| Arithmetic.ProductGet | sparse_matrix/code/sparse.py:153-166 | every coordinate of a product holds the dot product of a row of the left operand and a column of the right one |
| Arithmetic.ProductStored | sparse_matrix/code/sparse.py:159-164 | a product stores a key exactly when a stored entry of the left row meets a non-zero entry of the right column, so an entry that sums to zero is still stored |
| Arithmetic.ProductIdentityRight | sparse_matrix/code/sparse.py:153-166 | multiplying on the right by the identity gives back the same matrix, explicit zeros included |
| Arithmetic.ProductIdentityLeft | sparse_matrix/code/sparse.py:153-166 | multiplying on the left by the identity keeps every value but stores only the non-zero entries |
| Arithmetic.RowUpdatesAt | sparse_matrix/code/sparse.py:160-164 | the inner loop of `multiply` stores a coordinate exactly when it was already stored or lies in the processed part of the row with a non-zero right entry; it adds that entry's product and changes nothing else |
| Arithmetic.AccumulatesStep | sparse_matrix/code/sparse.py:159-164 | the inner loop, run over all columns, extends the outer-loop invariant by one stored key of the left operand: reached coordinates are stored, and each holds the contribution of the processed keys |
| Arithmetic.AccumulatesUnique | sparse_matrix/code/sparse.py:159-166 | the outer-loop invariant determines the entries, in whatever order the keys were taken |
| Compressed.CompressedMatrix.AddRowProducts | sparse_matrix/code/sparse.py:160-164 | the inner loop of `multiply` leaves the dimensions alone and leaves the entries as `RowUpdates` describes |
| Compressed.CompressedMatrix.Multiply | sparse_matrix/code/sparse.py:153-166 | fails with the same error as `Product`; otherwise returns a fresh matrix whose value equals `Product` of the operands, which are left unchanged |
| Codec.MatchNumber | sparse_matrix/code/sparse.py:56-57 | `\d+` at the start of a string fails exactly when the string is empty or does not start with a digit |
| Codec.MatchDimension | sparse_matrix/code/sparse.py:56-57 | a stripped header line is accepted exactly when it starts with the key followed by a digit; the value is that of the whole run of digits after the key, whatever follows it |
| Codec.ParseDimensions | sparse_matrix/code/sparse.py:56-62 | succeeds exactly when the first stripped line starts with `rows=` and the second with `cols=`, each followed by a digit; it returns the two numbers read from the digit runs; any failure is an invalid header |
| Codec.ParseEntries | sparse_matrix/code/sparse.py:72-84 | scanning the entry lines keeps well-formedness and never shrinks the dimensions; an error is a bad entry line whose 1-based number lies between the start and the last line |
| Codec.Parse | sparse_matrix/code/sparse.py:42-43 | fails with "too few lines" exactly when there are fewer than two lines; any matrix it returns is well-formed |
| CodecProperties.ParseHeaderErrors | sparse_matrix/code/sparse.py:56-60 | loading fails with an invalid header exactly when there are at least two lines and a header pattern rejects its line |
| CodecProperties.ParseEntriesSucceeds | sparse_matrix/code/sparse.py:72-79 | the entry scan ends without error exactly when every remaining line is blank or starts with an entry |
| CodecProperties.ParseEntriesFails | sparse_matrix/code/sparse.py:72-79 | the entry scan fails with line number n exactly when line n is the first one it rejects; the error carries that line, stripped |
| CodecProperties.ParseSucceeds | sparse_matrix/code/sparse.py:23-29 | loading succeeds exactly when there are at least two lines, the header matches, and every later line is blank or an entry |
| CodecProperties.ParseFailsAt | sparse_matrix/code/sparse.py:77-79 | loading fails at line n exactly when the header is valid and n is the 1-based number of the first rejected line after it |
| CodecProperties.ParseEntriesAppend | sparse_matrix/code/sparse.py:72-84 | the scan of lines plus one more is one more turn of the loop on the scan of the lines |
| CodecProperties.ParseAppend | sparse_matrix/code/sparse.py:72-84 | after a header, an appended line leaves an earlier error standing; otherwise it takes one turn of the entry loop |
| CodecProperties.ParseBlankLine | sparse_matrix/code/sparse.py:73-75 | a line that is blank after stripping changes nothing |
| CodecProperties.ParseLastWriteWins | sparse_matrix/code/sparse.py:81-84 | a later entry line for a coordinate sets it and keeps every other stored value |
| CodecProperties.ParseBadLine | sparse_matrix/code/sparse.py:77-79 | a non-blank line that is not an entry is reported with its 1-based number and its stripped text |
| CodecProperties.DimensionIgnoresSuffix | sparse_matrix/code/sparse.py:56-57 | a header pattern matches its key and number whatever non-digit text follows |
| CodecProperties.HeaderSuffixExample | sparse_matrix/code/sparse.py:56 | `rows=3xyz` is read as three rows |
| CodecProperties.HeaderLeadingZerosExample | sparse_matrix/code/sparse.py:56 | `rows=007` is read as seven rows: leading zeros are part of the number |
| EntryPattern.MatchEntryForm | sparse_matrix/code/sparse.py:77-83 | a stripped line is accepted with a triple exactly when it is `(`, digits, `,`, optional whitespace, digits, `,`, optional whitespace, an optional `-` and digits, then `)` and any text; the triple is the numbers the three digit groups spell, the last one negated after a `-` |
| CodecProperties.AcceptedForm | sparse_matrix/code/sparse.py:73-79 | the entry loop lets a line through exactly when it is blank after stripping or its stripped text has the shape of an entry |
| CodecProperties.EntryIgnoresSuffix | sparse_matrix/code/sparse.py:77 | the entry pattern matches an entry line whatever text follows its closing parenthesis |
| Compressed.CompressedMatrix.ParseNonZeroElements | sparse_matrix/code/sparse.py:72-84 | the loop leaves the matrix and the error exactly as the entry scan describes; on an error, the entries applied before it stay in place |
| Compressed.CompressedMatrix.LoadFromLines | sparse_matrix/code/sparse.py:23-29 | fails with `Parse`'s error; otherwise returns a fresh, valid matrix whose value is `Parse` of the lines |
| CodecProperties.ParseRendered | sparse_matrix/code/sparse.py:201-203 | parsing the lines `__str__` writes, before they are joined, gives back the matrix |
| CodecProperties.RoundTrip | sparse_matrix/code/sparse.py:201-204 | for any order of the keys, splitting the text of `__str__` into lines and loading them gives back the same dimensions and entries, explicit zeros included |
| CodecProperties.RenderText | sparse_matrix/code/sparse.py:201-204 | the text of `__str__`, with one newline put back, is the header lines and then the entry lines in the dictionary's order, each followed by a newline: the final `strip()` removes the last newline and nothing else |
| Compressed.CompressedMatrix.ToText | sparse_matrix/code/sparse.py:201-204 | the text is `Render` of the matrix for an order that lists each stored key once, and loading it back gives the matrix again |
| Text.StripLeadingSpec | sparse_matrix/code/sparse.py:73 | what `strip` keeps on the left is a suffix, what it drops is whitespace, and what it keeps does not start with whitespace |
| Text.StripTrailingSpec | sparse_matrix/code/sparse.py:73 | what `strip` keeps on the right is a prefix, what it drops is whitespace, and what it keeps does not end with whitespace |
| Text.ReadLinesConcat | sparse_matrix/code/sparse.py:41 | the lines `readlines` returns, put back together, are the text |
| Text.ReadLinesShape | sparse_matrix/code/sparse.py:41 | no line is empty; a newline occurs only as the last character of a line; every line but the last ends with one |

## Left out

- Opening, reading and writing files (`_read_file` lines 39-41 and 44-46, `save_to_file` lines 206-214), and the `FileNotFoundError` path.
  Loading starts from the file's text or lines; `ToText` returns the text `save_to_file` would write.
- The interactive driver `execute_calculations` and `load_matrix_from_user` (lines 216-261), and the module-level call on line 264.
  They only do console I/O and dispatch on a menu choice.
- The wording of the error messages. Errors are told apart by kind, operation and line number (and the stripped offending line).
- The dictionary's iteration order. Loops take any remaining key, and every result is proved for every order.
- Negative indices. Coordinates are `nat`.
  The source does not check for negative indices: a negative index would be stored as a key, while `max(count, index + 1)` leaves the dimensions as they are. The model does not capture that.
- Unicode digits. `\d` and `int()` accept every Unicode decimal digit; the model accepts only `0`-`9`.
- The regular-expression engine itself. Each pattern is written as a hand-coded matcher with the same start-only anchoring.
- Universal-newline translation. Text mode turns `\r\n` and `\r` into `\n`; the model splits lines at `\n` only.
  `\r` is whitespace to `strip`, so a `\r\n` file parses the same.
- Compressed.CompressedMatrix.Add: requires `Valid()` of both operands.
  That is the class invariant: the constructor establishes it and `set_value` preserves it.
  Without it, the source's result could grow beyond the left operand's dimensions.
  The same holds for `Subtract`, `Multiply` and `ToText`.
- Compressed.CompressedMatrix.CombineEntries: requires `other != this`.
  `AddRowProducts` has the same requirement.
  In the source both loops run on the freshly created result, which is never an operand.
- Codec.Parse: does not model CPython's limit on converting between integers and decimal strings.
  `int()` on lines 62 and 81-83 raises `ValueError` for a run of more than 4300 digits, the default of `sys.set_int_max_str_digits`.
  The model reads digit runs of any length.
- Compressed.CompressedMatrix.ToText: does not model the same limit for the f-strings of lines 201 and 203.
  They raise `ValueError` for a dimension, index or value of more than 4300 digits; the model writes any integer.
- CodecProperties.RoundTrip: is stated for integers of any size, while the source's round trip stops at that limit.
- Apart from that limit, Python integers are unbounded, like Dafny's `int`, so no wrap-around needs modelling.
