/**
  The abstract value of a `CompressedMatrix`: its two dimensions and the
  coordinate-keyed dictionary of stored entries, with the storage operations
  `get_value` and `set_value`.
*/
module SparseMatrix {

  /** A `(row, column)` key of the entry dictionary. */
  type Coord = (nat, nat)

  datatype Matrix = Matrix(rows: nat, cols: nat, entries: map<Coord, int>)

  /** Every key of `keys` lies inside `rows` by `cols`. */
  predicate Covers(rows: nat, cols: nat, keys: set<Coord>) {
    forall key :: key in keys ==> key.0 < rows && key.1 < cols
  }

  /** The storage invariant: every stored key lies inside the dimensions. */
  predicate WellFormed(m: Matrix) {
    Covers(m.rows, m.cols, m.entries.Keys)
  }

  /** A matrix with the given dimensions and no stored entry (`__init__`). */
  function Empty(rows: nat, cols: nat): Matrix {
    Matrix(rows, cols, map[])
  }

  function Max(x: nat, y: nat): nat {
    if x < y then y else x
  }

  /** `get_value`: the stored value, or 0 for a key that is not stored. */
  function Get(m: Matrix, row: nat, col: nat): int {
    Lookup(m.entries, (row, col))
  }

  /** The value `entries` holds under `p`, or 0. */
  function Lookup(entries: map<Coord, int>, p: Coord): int {
    if p in entries then entries[p] else 0
  }

  /**
    `set_value`: stores `value` under `(row, col)`, zero included, and grows
    each dimension to cover the new key.
  */
  function Set(m: Matrix, row: nat, col: nat, value: int): Matrix {
    Matrix(Max(m.rows, row + 1), Max(m.cols, col + 1), m.entries[(row, col) := value])
  }

  /**
    What `set_value` promises: the key reads back as the new value, every
    other stored key keeps its value, the dimensions grow to the largest of
    their old values and the key, so the storage invariant is kept.
  */
  lemma SetSpec(m: Matrix, row: nat, col: nat, value: int)
    ensures var r := Set(m, row, col, value);
      && Get(r, row, col) == value && (row, col) in r.entries
      && (forall r': nat, c': nat :: (r', c') != (row, col) ==> Get(r, r', c') == Get(m, r', c'))
      && r.entries.Keys == m.entries.Keys + {(row, col)}
      && r.rows == Max(m.rows, row + 1) && r.cols == Max(m.cols, col + 1)
      && (WellFormed(m) ==> WellFormed(r))
  {
  }

  /** Inside the dimensions, `set_value` changes only the dictionary. */
  lemma SetInside(m: Matrix, row: nat, col: nat, value: int)
    requires row < m.rows && col < m.cols
    ensures Set(m, row, col, value) == Matrix(m.rows, m.cols, m.entries[(row, col) := value])
  {
  }

  /** The entries of `source` under the keys `done`: what a copy loop has copied so far. */
  function Restrict(source: map<Coord, int>, done: set<Coord>): map<Coord, int> {
    map key | key in source && key in done :: source[key]
  }

  /** Copying one more key of `source` over `base`, as the copy loop's `set_value` does. */
  lemma RestrictStep(base: map<Coord, int>, source: map<Coord, int>, done: set<Coord>, key: Coord)
    requires key in source
    ensures (base + Restrict(source, done))[key := source[key]] == base + Restrict(source, done + {key})
  {
    var left, right := (base + Restrict(source, done))[key := source[key]], base + Restrict(source, done + {key});
    assert left.Keys == right.Keys;
    forall k | k in left
      ensures left[k] == right[k]
    {
    }
  }

  lemma RestrictAll(source: map<Coord, int>)
    ensures Restrict(source, source.Keys) == source
  {
  }

  /** Moving one key from `remaining` to `done` keeps the two a partition of `keys`. */
  lemma TakeKey(keys: set<Coord>, remaining: set<Coord>, done: set<Coord>, key: Coord)
    requires remaining <= keys && done == keys - remaining && key in remaining
    ensures remaining - {key} <= keys && done + {key} == keys - (remaining - {key})
  {
  }

  /** `n` is `base`, or one more than the row of a key of `keys` (a row count `set_value` grew). */
  predicate RowsGrown(n: nat, base: nat, keys: set<Coord>) {
    n == base || exists key :: key in keys && n == key.0 + 1
  }

  /** `n` is `base`, or one more than the column of a key of `keys`. */
  predicate ColumnsGrown(n: nat, base: nat, keys: set<Coord>) {
    n == base || exists key :: key in keys && n == key.1 + 1
  }

  /**
    The dimensions a sequence of `set_value` calls for the keys `keys` leaves
    behind, starting from `baseRows` by `baseCols`: every key is covered, and
    each dimension is its start or one more than a key's index.
  */
  predicate Grown(rows: nat, cols: nat, baseRows: nat, baseCols: nat, keys: set<Coord>) {
    && rows >= baseRows && cols >= baseCols
    && Covers(rows, cols, keys) && RowsGrown(rows, baseRows, keys) && ColumnsGrown(cols, baseCols, keys)
  }

  /** Setting one more key keeps the bounds of a sequence of `set_value` calls. */
  lemma GrownStep(rows: nat, cols: nat, baseRows: nat, baseCols: nat, keys: set<Coord>, key: Coord)
    requires Grown(rows, cols, baseRows, baseCols, keys)
    ensures Grown(Max(rows, key.0 + 1), Max(cols, key.1 + 1), baseRows, baseCols, keys + {key})
  {
    if rows < key.0 + 1 {
      assert key in keys + {key};
    } else if rows != baseRows {
      var k :| k in keys && rows == k.0 + 1;
      assert k in keys + {key};
    }
    if cols < key.1 + 1 {
      assert key in keys + {key};
    } else if cols != baseCols {
      var k :| k in keys && cols == k.1 + 1;
      assert k in keys + {key};
    }
  }

  /**
    The state of a copy loop that sets the entries of `source` under the keys
    `done` into a matrix that started as `base`: those entries over `base`'s,
    and dimensions grown as `set_value` grows them.
  */
  predicate Copied(m: Matrix, base: Matrix, source: map<Coord, int>, done: set<Coord>) {
    && m.entries == base.entries + Restrict(source, done)
    && Grown(m.rows, m.cols, base.rows, base.cols, done)
  }

  /** One `set_value` of the copy loop. */
  lemma CopiedStep(m: Matrix, base: Matrix, source: map<Coord, int>, done: set<Coord>, key: Coord)
    requires Copied(m, base, source, done) && key in source
    ensures Copied(Set(m, key.0, key.1, source[key]), base, source, done + {key})
  {
    GrownStep(m.rows, m.cols, base.rows, base.cols, done, key);
    RestrictStep(base.entries, source, done, key);
  }

  /** The binary operations of the engine, as named in their error messages. */
  datatype Operation = Multiplication | Subtraction | Addition

  /** The errors the engine raises (`ValueError` in the source, told apart by kind). */
  datatype Error =
    | TooFewLines
    | InvalidDimensions
    | InvalidEntry(lineNumber: nat, line: string)
    | DimensionMismatch(operation: Operation)
}
