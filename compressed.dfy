/**
  The `CompressedMatrix` class: two dimension fields and the dictionary of
  stored entries, updated in place by `set_value`, with the arithmetic,
  loading and serialising methods that build on it. Each method is proved
  against the value-level definitions of the other modules.
*/
module Compressed {
  import opened Wrappers
  import opened SparseMatrix
  import opened Text
  import opened Codec
  import opened Arithmetic
  import CodecProperties

  class CompressedMatrix {
    var rowCount: nat
    var columnCount: nat
    var elements: map<Coord, int>

    /** The matrix value this object holds. */
    function Model(): Matrix
      reads this
    {
      Matrix(rowCount, columnCount, elements)
    }

    /** The class invariant: every stored key lies inside the dimensions. */
    predicate Valid()
      reads this
    {
      WellFormed(Model())
    }

    /** `__init__`: the given dimensions and no stored entry. */
    constructor (rowCount: nat, columnCount: nat)
      ensures Model() == Empty(rowCount, columnCount) && Valid()
    {
      this.rowCount := rowCount;
      this.columnCount := columnCount;
      elements := map[];
    }

    /** `get_value`: the stored value, or 0 when nothing is stored under the key. */
    function GetValue(row: nat, col: nat): (v: int)
      reads this
      ensures (row, col) in elements ==> v == elements[(row, col)]
      ensures (row, col) !in elements ==> v == 0
    {
      Get(Model(), row, col)
    }

    /** `set_value`: overwrites one entry and grows the dimensions to cover it. */
    method SetValue(row: nat, col: nat, value: int)
      modifies this
      ensures Model() == Set(old(Model()), row, col, value)
      ensures GetValue(row, col) == value
      ensures old(Valid()) ==> Valid()
    {
      rowCount := Max(rowCount, row + 1);
      columnCount := Max(columnCount, col + 1);
      elements := elements[(row, col) := value];
    }

    /** `_create_empty_matrix`: a fresh matrix with the same dimensions and no entry. */
    method CreateEmptyMatrix() returns (r: CompressedMatrix)
      ensures fresh(r) && r.Model() == Empty(rowCount, columnCount)
    {
      r := new CompressedMatrix(rowCount, columnCount);
    }

    /**
      `_copy_non_zero_elements`: every entry of this matrix is set in `target`,
      whose dimensions grow to the largest of their old values and the copied keys.
    */
    method CopyNonZeroElements(target: CompressedMatrix)
      modifies target
      ensures target.elements == old(target.elements) + old(elements)
      ensures Grown(target.rowCount, target.columnCount, old(target.rowCount), old(target.columnCount), old(elements.Keys))
    {
      var source := elements;
      var remaining := source.Keys;
      ghost var done: set<Coord> := {};
      while remaining != {}
        invariant remaining <= source.Keys && done == source.Keys - remaining
        invariant Copied(target.Model(), old(target.Model()), source, done)
        decreases remaining
      {
        var key :| key in remaining;
        CopiedStep(target.Model(), old(target.Model()), source, done, key);
        TakeKey(source.Keys, remaining, done, key);
        target.SetValue(key.0, key.1, source[key]);
        done := done + {key};
        remaining := remaining - {key};
      }
      RestrictAll(source);
    }

    /**
      `add`: fails unless both dimensions agree; otherwise a fresh matrix holding
      the copy of this matrix with the other's entries added in.
    */
    method Add(other: CompressedMatrix) returns (r: Result<CompressedMatrix, Error>)
      requires Valid() && other.Valid()
      ensures r.Failure? ==> Sum(Model(), other.Model()) == Failure(r.error)
      ensures r.Success? ==> fresh(r.value) && Sum(Model(), other.Model()) == Success(r.value.Model())
    {
      if CheckDimensions(Model(), other.Model(), Addition).Fail? {
        return Failure(DimensionMismatch(Addition));
      }
      var result := CreateEmptyMatrix();
      CopyNonZeroElements(result);
      ghost var a := Model();
      MergesStart(a, other.Model(), false);
      assert result.Model() == a;
      result.CombineEntries(other, a, false);
      MergesAll(result.Model(), a, other.Model(), false);
      r := Success(result);
    }

    /** `subtract`: as `add`, with the other matrix's entries subtracted. */
    method Subtract(other: CompressedMatrix) returns (r: Result<CompressedMatrix, Error>)
      requires Valid() && other.Valid()
      ensures r.Failure? ==> Difference(Model(), other.Model()) == Failure(r.error)
      ensures r.Success? ==> fresh(r.value) && Difference(Model(), other.Model()) == Success(r.value.Model())
    {
      if CheckDimensions(Model(), other.Model(), Subtraction).Fail? {
        return Failure(DimensionMismatch(Subtraction));
      }
      var result := CreateEmptyMatrix();
      CopyNonZeroElements(result);
      ghost var a := Model();
      MergesStart(a, other.Model(), true);
      assert result.Model() == a;
      result.CombineEntries(other, a, true);
      MergesAll(result.Model(), a, other.Model(), true);
      r := Success(result);
    }

    /**
      The accumulation loop of `add` (of `subtract`, when `subtract` is set),
      run on the result matrix: for each stored entry of `other`, the entry
      under the same key is read with `get_value` and written back with
      `set_value`, plus (minus) the other's value.
    */
    method CombineEntries(other: CompressedMatrix, ghost a: Matrix, subtract: bool)
      requires other != this && other.Valid()
      requires a.rows == other.rowCount && a.cols == other.columnCount
      requires Merges(Model(), a, other.Model(), {}, subtract)
      modifies this
      ensures Merges(Model(), a, other.Model(), other.elements.Keys, subtract)
    {
      ghost var b := other.Model();
      var remaining := other.elements.Keys;
      ghost var done: set<Coord> := {};
      while remaining != {}
        invariant remaining <= b.entries.Keys && done == b.entries.Keys - remaining
        invariant Merges(Model(), a, b, done, subtract)
        decreases remaining
      {
        var row, col :| (row, col) in remaining;
        var value := other.elements[(row, col)];
        var current := GetValue(row, col);
        TakeKey(b.entries.Keys, remaining, done, (row, col));
        MergesStep(Model(), a, b, done, row, col, subtract);
        SetValue(row, col, if subtract then current - value else current + value);
        done := done + {(row, col)};
        remaining := remaining - {(row, col)};
      }
    }

    /**
      The inner loop of `multiply`, run on the result matrix for the stored
      entry `value` at `(row, col)` of the left operand: each non-zero entry
      of row `col` of `other` adds its product with `value` to this matrix's
      entry in the same column of row `row`.
    */
    method AddRowProducts(other: CompressedMatrix, row: nat, col: nat, value: int)
      requires other != this && row < rowCount && other.columnCount <= columnCount
      modifies this
      ensures rowCount == old(rowCount) && columnCount == old(columnCount)
      ensures elements == RowUpdates(other.Model(), old(elements), (row, col), value, other.columnCount)
    {
      var k := 0;
      while k < other.columnCount
        invariant k <= other.columnCount
        invariant rowCount == old(rowCount) && columnCount == old(columnCount)
        invariant elements == RowUpdates(other.Model(), old(elements), (row, col), value, k)
      {
        RowUpdatesNext(other.Model(), old(elements), (row, col), value, k);
        var otherValue := other.GetValue(col, k);
        if otherValue != 0 {
          var current := GetValue(row, k);
          assert current == Lookup(elements, (row, k));
          SetValue(row, k, current + value * otherValue);
        }
        k := k + 1;
      }
    }

    /**
      `multiply`: fails unless this matrix has as many columns as the other has
      rows; otherwise, for each stored entry and each column of the other
      matrix, the product with a non-zero entry of the other matrix is
      accumulated into a fresh result (a stored zero still makes its key stored).
    */
    method Multiply(other: CompressedMatrix) returns (r: Result<CompressedMatrix, Error>)
      requires Valid() && other.Valid()
      ensures r.Failure? ==> Product(Model(), other.Model()) == Failure(r.error)
      ensures r.Success? ==> fresh(r.value) && Product(Model(), other.Model()) == Success(r.value.Model())
    {
      if columnCount != other.rowCount {
        return Failure(DimensionMismatch(Multiplication));
      }
      var result := new CompressedMatrix(rowCount, other.columnCount);
      ghost var a, b := Model(), other.Model();
      AccumulatesStart(a, b);
      var remaining := elements.Keys;
      ghost var done: set<Coord> := {};
      while remaining != {}
        invariant remaining <= a.entries.Keys && done == a.entries.Keys - remaining
        invariant fresh(result)
        invariant result.rowCount == a.rows && result.columnCount == b.cols
        invariant Accumulates(result.elements, a, b, done)
        decreases remaining
      {
        var key :| key in remaining;
        var value := elements[key];
        assert value == Get(a, key.0, key.1);
        ghost var start := result.elements;
        result.AddRowProducts(other, key.0, key.1, value);
        AccumulatesStep(a, b, done, key, start);
        done := done + {key};
        remaining := remaining - {key};
      }
      assert done == a.entries.Keys;
      AccumulatesUnique(a, b, done, result.elements);
      assert a == Model() && b == other.Model();
      r := Success(result);
    }

    /**
      `_parse_non_zero_elements` on `matrix`: the entry lines are applied in
      order; the first malformed line stops the loop and is returned as the
      error, leaving the entries applied so far in place.
    */
    static method ParseNonZeroElements(lines: seq<string>, matrix: CompressedMatrix) returns (error: Option<Error>)
      modifies matrix
      ensures Scan(matrix.Model(), error) == ParseEntries(lines, 2, old(matrix.Model()))
    {
      var i := 2;
      while i < |lines|
        invariant 2 <= i
        invariant ParseEntries(lines, i, matrix.Model()) == ParseEntries(lines, 2, old(matrix.Model()))
        decreases |lines| - i
      {
        var line := Strip(lines[i]);
        if line != [] {
          var entry := MatchEntry(line);
          if entry.None? {
            return Some(InvalidEntry(i + 1, line));
          }
          CodecProperties.EntryStep(lines, i, matrix.Model(), entry.value);
          matrix.SetValue(entry.value.0, entry.value.1, entry.value.2);
        }
        i := i + 1;
      }
      return None;
    }

    /**
      `load_from_file` on the lines of a file: the line-count check, the header,
      a fresh matrix of those dimensions, then its entries.
    */
    static method LoadFromLines(lines: seq<string>) returns (r: Result<CompressedMatrix, Error>)
      ensures r.Failure? ==> Parse(lines) == Failure(r.error)
      ensures r.Success? ==> fresh(r.value) && r.value.Valid() && Parse(lines) == Success(r.value.Model())
    {
      if |lines| < 2 {
        return Failure(TooFewLines);
      }
      var dims :- ParseDimensions(lines);
      var matrix := new CompressedMatrix(dims.0, dims.1);
      var error := ParseNonZeroElements(lines, matrix);
      if error.Some? {
        return Failure(error.value);
      }
      r := Success(matrix);
    }

    /**
      `__str__`: the header lines, one line per stored entry in the order the
      dictionary yields them (`order`), each terminated, the whole stripped.
      Reading the text back gives this matrix again.
    */
    method ToText() returns (s: string, ghost order: seq<Coord>)
      requires Valid()
      ensures Enumerates(order, elements.Keys)
      ensures s == Render(Model(), order)
      ensures Parse(ReadLines(s)) == Success(Model())
    {
      var text := "rows=" + NatToString(rowCount) + "\ncols=" + NatToString(columnCount) + "\n";
      ghost var header := HeaderLines(Model());
      assert text == Terminated(header + EntryLines(Model(), [])) by {
        assert header + EntryLines(Model(), []) == header;
        assert Terminated(header[1..][1..]) == [];
      }
      order := [];
      var remaining := elements.Keys;
      while remaining != {}
        invariant remaining <= elements.Keys
        invariant forall i :: 0 <= i < |order| ==> order[i] in elements && order[i] !in remaining
        invariant forall i, j :: 0 <= i < j < |order| ==> order[i] != order[j]
        invariant forall key :: key in elements && key !in remaining ==> key in order
        invariant text == Terminated(header + EntryLines(Model(), order))
        decreases remaining
      {
        var key :| key in remaining;
        CodecProperties.RenderStep(Model(), order, key);
        text := text + EntryLine(key, elements[key]) + "\n";
        order := order + [key];
        remaining := remaining - {key};
      }
      s := Strip(text);
      CodecProperties.RoundTrip(Model(), order);
    }
  }
}
