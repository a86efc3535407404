/**
  The arithmetic of the engine on matrix values: the dimension checks of
  `add`, `subtract` and `multiply`, what each operation computes, and the
  intermediate states of the loops that compute it entry by entry.
*/
module Arithmetic {
  import opened Wrappers
  import opened SparseMatrix

  /** `_check_dimensions`: both dimensions must agree. */
  function CheckDimensions(a: Matrix, b: Matrix, op: Operation): (r: Outcome<Error>)
    ensures r.Pass? <==> a.rows == b.rows && a.cols == b.cols
    ensures r.Fail? ==> r.error == DimensionMismatch(op)
  {
    if a.rows != b.rows || a.cols != b.cols then Fail(DimensionMismatch(op)) else Pass
  }

  /**
    `add`: every key stored in either operand is stored in the result, a zero
    sum included, under the left operand's dimensions.
  */
  function Sum(a: Matrix, b: Matrix): (r: Result<Matrix, Error>)
    ensures r.Failure? <==> a.rows != b.rows || a.cols != b.cols
    ensures r.Failure? ==> r.error == DimensionMismatch(Addition)
    ensures r.Success? ==> r.value.rows == a.rows && r.value.cols == a.cols
    ensures r.Success? ==> r.value.entries.Keys == a.entries.Keys + b.entries.Keys
    ensures r.Success? ==> forall row, col :: Get(r.value, row, col) == Get(a, row, col) + Get(b, row, col)
    ensures r.Success? && WellFormed(a) && WellFormed(b) ==> WellFormed(r.value)
  {
    if CheckDimensions(a, b, Addition).Fail? then Failure(DimensionMismatch(Addition))
    else Success(Matrix(a.rows, a.cols,
      map key | key in a.entries.Keys + b.entries.Keys :: Get(a, key.0, key.1) + Get(b, key.0, key.1)))
  }

  /** `subtract`: as `add`, with the right operand's entries subtracted. */
  function Difference(a: Matrix, b: Matrix): (r: Result<Matrix, Error>)
    ensures r.Failure? <==> a.rows != b.rows || a.cols != b.cols
    ensures r.Failure? ==> r.error == DimensionMismatch(Subtraction)
    ensures r.Success? ==> r.value.rows == a.rows && r.value.cols == a.cols
    ensures r.Success? ==> r.value.entries.Keys == a.entries.Keys + b.entries.Keys
    ensures r.Success? ==> forall row, col :: Get(r.value, row, col) == Get(a, row, col) - Get(b, row, col)
    ensures r.Success? && WellFormed(a) && WellFormed(b) ==> WellFormed(r.value)
  {
    if CheckDimensions(a, b, Subtraction).Fail? then Failure(DimensionMismatch(Subtraction))
    else Success(Matrix(a.rows, a.cols,
      map key | key in a.entries.Keys + b.entries.Keys :: Get(a, key.0, key.1) - Get(b, key.0, key.1)))
  }

  /**
    `subtract` undoes `add`: every coordinate of (a + b) - b holds a's value.
    The key set is the union of both operands' keys, so explicit zeros may remain.
  */
  lemma SumThenDifference(a: Matrix, b: Matrix)
    requires a.rows == b.rows && a.cols == b.cols
    ensures Difference(Sum(a, b).value, b).Success?
    ensures var r := Difference(Sum(a, b).value, b).value;
      && r.rows == a.rows && r.cols == a.cols
      && r.entries.Keys == a.entries.Keys + b.entries.Keys
      && forall row, col :: Get(r, row, col) == Get(a, row, col)
  {
  }

  /** The reference definition of an entry of a product: the sum over k < n of a[row, k] * b[k, col]. */
  function DotProduct(a: Matrix, b: Matrix, row: nat, col: nat, n: nat): int {
    if n == 0 then 0 else DotProduct(a, b, row, col, n - 1) + Get(a, row, n - 1) * Get(b, n - 1, col)
  }

  /** The part of a[row, _] * b[_, col], over k < n, that the stored keys in `done` of `a` contribute. */
  function Contribution(a: Matrix, b: Matrix, done: set<Coord>, row: nat, col: nat, n: nat): int {
    if n == 0 then 0
    else
      Contribution(a, b, done, row, col, n - 1)
      + (if (row, n - 1) in done then Get(a, row, n - 1) * Get(b, n - 1, col) else 0)
  }

  /**
    The keys `multiply` has stored once it has processed the keys `done` of `a`:
    one per stored `(row, k)` and column `j` of `b` with `b[k, j] != 0`.
  */
  function ProductKeys(b: Matrix, done: set<Coord>): set<Coord> {
    set key, j | key in done && 0 <= j < b.cols && Get(b, key.1, j) != 0 :: (key.0, j)
  }

  /** The entries `multiply` has accumulated once it has processed the keys `done` of `a`. */
  function Accumulated(a: Matrix, b: Matrix, done: set<Coord>): map<Coord, int> {
    map key | key in ProductKeys(b, done) :: Contribution(a, b, done, key.0, key.1, a.cols)
  }

  /**
    `multiply`: the result has `a`'s rows and `b`'s columns and holds the
    accumulated products of all of `a`'s stored keys.
  */
  function Product(a: Matrix, b: Matrix): (r: Result<Matrix, Error>)
    ensures r.Failure? <==> a.cols != b.rows
    ensures r.Failure? ==> r.error == DimensionMismatch(Multiplication)
    ensures r.Success? ==> r.value.rows == a.rows && r.value.cols == b.cols
    ensures r.Success? && WellFormed(a) ==> WellFormed(r.value)
  {
    if a.cols != b.rows then Failure(DimensionMismatch(Multiplication))
    else Success(Matrix(a.rows, b.cols, Accumulated(a, b, a.entries.Keys)))
  }

  lemma {:induction false} ContributionAll(a: Matrix, b: Matrix, row: nat, col: nat, n: nat)
    ensures Contribution(a, b, a.entries.Keys, row, col, n) == DotProduct(a, b, row, col, n)
  {
    if n > 0 {
      ContributionAll(a, b, row, col, n - 1);
    }
  }

  lemma {:induction false} ContributionZero(a: Matrix, b: Matrix, done: set<Coord>, row: nat, col: nat, n: nat)
    requires forall k :: 0 <= k < n && (row, k) in done ==> Get(b, k, col) == 0
    ensures Contribution(a, b, done, row, col, n) == 0
  {
    if n > 0 {
      ContributionZero(a, b, done, row, col, n - 1);
    }
  }

  lemma {:induction false} ContributionInsert(a: Matrix, b: Matrix, done: set<Coord>, key: Coord, row: nat, col: nat, n: nat)
    requires key !in done
    ensures Contribution(a, b, done + {key}, row, col, n)
         == Contribution(a, b, done, row, col, n)
            + (if key.0 == row && key.1 < n then Get(a, row, key.1) * Get(b, key.1, col) else 0)
  {
    if n > 0 {
      ContributionInsert(a, b, done, key, row, col, n - 1);
    }
  }

  lemma InProductKeys(b: Matrix, done: set<Coord>, key: Coord, j: nat)
    ensures key in done && j < b.cols && Get(b, key.1, j) != 0 ==> (key.0, j) in ProductKeys(b, done)
  {
    if key in done && j < b.cols && Get(b, key.1, j) != 0 {
      assert key in done && 0 <= j < b.cols && Get(b, key.1, j) != 0;
    }
  }

  /** A column `col` of `b` that no processed key of row `row` reaches contributes nothing. */
  lemma OutsideProductKeys(a: Matrix, b: Matrix, done: set<Coord>, row: nat, col: nat)
    requires WellFormed(b)
    requires (row, col) !in ProductKeys(b, done)
    ensures Contribution(a, b, done, row, col, a.cols) == 0
  {
    forall k | 0 <= k < a.cols && (row, k) in done
      ensures Get(b, k, col) == 0
    {
      InProductKeys(b, done, (row, k), col);
    }
    ContributionZero(a, b, done, row, col, a.cols);
  }

  /** Each entry of a product is the dot product of a row of `a` and a column of `b`. */
  lemma ProductGet(a: Matrix, b: Matrix, row: nat, col: nat)
    requires WellFormed(b) && a.cols == b.rows
    ensures Get(Product(a, b).value, row, col) == DotProduct(a, b, row, col, a.cols)
  {
    ContributionAll(a, b, row, col, a.cols);
    if (row, col) !in ProductKeys(b, a.entries.Keys) {
      OutsideProductKeys(a, b, a.entries.Keys, row, col);
    }
  }

  /**
    A product stores a key exactly where a stored entry of `a` meets a
    non-zero entry of `b`, so a zero product is stored when the terms cancel.
  */
  lemma ProductStored(a: Matrix, b: Matrix, row: nat, col: nat)
    requires a.cols == b.rows
    ensures (row, col) in Product(a, b).value.entries
        <==> col < b.cols && exists k :: (row, k) in a.entries && Get(b, k, col) != 0
  {
    if col < b.cols && exists k :: (row, k) in a.entries && Get(b, k, col) != 0 {
      var k :| (row, k) in a.entries && Get(b, k, col) != 0;
      var key: Coord := (row, k);
      assert key in a.entries.Keys && 0 <= col < b.cols && Get(b, key.1, col) != 0;
    }
  }

  /** The `n` by `n` identity matrix, its diagonal stored explicitly. */
  function Identity(n: nat): (r: Matrix)
    ensures WellFormed(r) && r.rows == n && r.cols == n
    ensures forall i: nat, j: nat :: Get(r, i, j) == if i == j && i < n then 1 else 0
  {
    Matrix(n, n, map i | 0 <= i < n :: (i, i) := 1)
  }

  lemma {:induction false} DotIdentityRight(a: Matrix, row: nat, col: nat, n: nat, k: nat)
    requires k <= n
    ensures DotProduct(a, Identity(n), row, col, k) == if col < k then Get(a, row, col) else 0
  {
    if k > 0 {
      DotIdentityRight(a, row, col, n, k - 1);
    }
  }

  lemma {:induction false} DotIdentityLeft(a: Matrix, row: nat, col: nat, n: nat, k: nat)
    requires k <= n
    ensures DotProduct(Identity(n), a, row, col, k) == if row < k then Get(a, row, col) else 0
  {
    if k > 0 {
      DotIdentityLeft(a, row, col, n, k - 1);
    }
  }

  lemma IdentityRightAt(a: Matrix, row: nat, col: nat)
    requires WellFormed(a)
    ensures var r := Product(a, Identity(a.cols)).value;
      ((row, col) in r.entries <==> (row, col) in a.entries) && Get(r, row, col) == Get(a, row, col)
  {
    var id := Identity(a.cols);
    ProductStored(a, id, row, col);
    ProductGet(a, id, row, col);
    DotIdentityRight(a, row, col, a.cols, a.cols);
    if (row, col) in a.entries {
      assert Get(id, col, col) == 1;
    }
    if (row, col) in Product(a, id).value.entries {
      var k :| (row, k) in a.entries && Get(id, k, col) != 0;
      assert k == col;
    }
  }

  /** Multiplying on the right by the identity gives back the same matrix, explicit zeros included. */
  lemma ProductIdentityRight(a: Matrix)
    requires WellFormed(a)
    ensures Product(a, Identity(a.cols)) == Success(a)
  {
    var r := Product(a, Identity(a.cols)).value;
    forall key | key in a.entries || key in r.entries
      ensures key in a.entries && key in r.entries && r.entries[key] == a.entries[key]
    {
      IdentityRightAt(a, key.0, key.1);
    }
    assert r.entries == a.entries;
  }

  /**
    Multiplying on the left by the identity gives the same entry at every
    coordinate but keeps only the non-zero stored entries.
  */
  lemma ProductIdentityLeft(a: Matrix, row: nat, col: nat)
    requires WellFormed(a)
    ensures Get(Product(Identity(a.rows), a).value, row, col) == Get(a, row, col)
    ensures (row, col) in Product(Identity(a.rows), a).value.entries <==> Get(a, row, col) != 0
  {
    var id := Identity(a.rows);
    ProductGet(id, a, row, col);
    DotIdentityLeft(a, row, col, a.rows, a.rows);
    ProductStored(id, a, row, col);
    if Get(a, row, col) != 0 {
      assert (row, row) in id.entries;
    }
  }

  // The intermediate states of the loops of `add`, `subtract` and `multiply`.

  /** `x + y`, or `x - y` for `subtract`. */
  function Combine(x: int, y: int, subtract: bool): int {
    if subtract then x - y else x + y
  }

  /**
    The state of an `add` (or `subtract`) result once the copy of `a` is done
    and the keys `done` of `b` have been folded in: `a`'s dimensions, and the
    keys of `a` and `done`, each holding `a`'s value combined with `b`'s for a
    key in `done`.
  */
  ghost predicate Merges(m: Matrix, a: Matrix, b: Matrix, done: set<Coord>, subtract: bool) {
    && m.rows == a.rows && m.cols == a.cols
    && (forall p :: p in m.entries <==> p in a.entries || p in done)
    && (forall p :: p in m.entries ==>
         m.entries[p] == Combine(Get(a, p.0, p.1), if p in done then Get(b, p.0, p.1) else 0, subtract))
  }

  lemma MergesStart(a: Matrix, b: Matrix, subtract: bool)
    ensures Merges(a, a, b, {}, subtract)
  {
  }

  /** One turn of the accumulation loop of `add` or `subtract`: `get_value`, then `set_value`. */
  lemma MergesStep(m: Matrix, a: Matrix, b: Matrix, done: set<Coord>, row: nat, col: nat, subtract: bool)
    requires WellFormed(b) && a.rows == b.rows && a.cols == b.cols
    requires Merges(m, a, b, done, subtract)
    requires (row, col) !in done && (row, col) in b.entries
    ensures var x, y := Get(m, row, col), b.entries[(row, col)];
      Merges(Set(m, row, col, if subtract then x - y else x + y), a, b, done + {(row, col)}, subtract)
  {
    assert Get(m, row, col) == Get(a, row, col);
  }

  /** Once every key of `b` is folded in, the result is `Sum` (or `Difference`). */
  lemma MergesAll(m: Matrix, a: Matrix, b: Matrix, subtract: bool)
    requires a.rows == b.rows && a.cols == b.cols
    requires Merges(m, a, b, b.entries.Keys, subtract)
    ensures (if subtract then Difference(a, b) else Sum(a, b)) == Success(m)
  {
    var r := if subtract then Difference(a, b) else Sum(a, b);
    assert r.value.entries.Keys == m.entries.Keys;
    forall p | p in m.entries
      ensures r.value.entries[p] == m.entries[p]
    {
      assert Get(r.value, p.0, p.1) == r.value.entries[(p.0, p.1)];
    }
    assert r.value.entries == m.entries;
  }

  /**
    The inner loop of `multiply` for the stored entry `value` at `key` of the
    left operand, run over the first `j` columns of `b` from the entries
    `start`: each non-zero entry of row `key.1` of `b` adds its product with
    `value` to the entry in its column (`get_value` then `set_value`).
  */
  function RowUpdates(b: Matrix, start: map<Coord, int>, key: Coord, value: int, j: nat): map<Coord, int> {
    if j == 0 then start
    else
      var entries, here := RowUpdates(b, start, key, value, j - 1), (key.0, j - 1);
      if Get(b, key.1, j - 1) != 0 then entries[here := Lookup(entries, here) + value * Get(b, key.1, j - 1)]
      else entries
  }

  /** One turn of the inner loop of `multiply`, on column `j`. */
  lemma RowUpdatesNext(b: Matrix, start: map<Coord, int>, key: Coord, value: int, j: nat)
    ensures var entries, here := RowUpdates(b, start, key, value, j), (key.0, j);
      RowUpdates(b, start, key, value, j + 1)
      == if Get(b, key.1, j) != 0 then entries[here := Lookup(entries, here) + value * Get(b, key.1, j)]
         else entries
  {
  }

  /** What the inner loop of `multiply` does at one coordinate: where it stores, and what it adds. */
  lemma {:induction false} RowUpdatesAt(b: Matrix, start: map<Coord, int>, key: Coord, value: int, j: nat, p: Coord)
    ensures p in RowUpdates(b, start, key, value, j) <==> p in start || (p.0 == key.0 && p.1 < j && Get(b, key.1, p.1) != 0)
    ensures Lookup(RowUpdates(b, start, key, value, j), p)
         == Lookup(start, p) + (if p.0 == key.0 && p.1 < j then value * Get(b, key.1, p.1) else 0)
  {
    if j > 0 {
      RowUpdatesAt(b, start, key, value, j - 1, p);
      if p == (key.0, j - 1) && Get(b, key.1, j - 1) == 0 {
        assert value * Get(b, key.1, p.1) == 0;
      }
    }
  }

  /** A processed key `(p.0, k)` of `a` meets a non-zero `b[k, p.1]`, so `multiply` stores `p`. */
  ghost predicate Reached(b: Matrix, done: set<Coord>, p: Coord) {
    p.1 < b.cols && exists k :: (p.0, k) in done && Get(b, k, p.1) != 0
  }

  /**
    The invariant of the outer loop of `multiply` once it has processed the
    keys `done` of `a`: the reached coordinates are stored, and each holds the
    processed keys' contribution to its dot product.
  */
  ghost predicate Accumulates(entries: map<Coord, int>, a: Matrix, b: Matrix, done: set<Coord>) {
    && (forall p :: p in entries <==> Reached(b, done, p))
    && (forall p :: p in entries ==> entries[p] == Contribution(a, b, done, p.0, p.1, a.cols))
  }

  lemma AccumulatesStart(a: Matrix, b: Matrix)
    ensures Accumulates(map[], a, b, {})
  {
  }

  lemma ReachedBy(b: Matrix, done: set<Coord>, p: Coord, k: nat)
    ensures p.1 < b.cols && (p.0, k) in done && Get(b, k, p.1) != 0 ==> Reached(b, done, p)
  {
  }

  /** A coordinate no processed key reaches has a zero contribution. */
  lemma UnreachedZero(a: Matrix, b: Matrix, done: set<Coord>, p: Coord)
    requires WellFormed(b) && !Reached(b, done, p)
    ensures Contribution(a, b, done, p.0, p.1, a.cols) == 0
  {
    forall k | 0 <= k < a.cols && (p.0, k) in done
      ensures Get(b, k, p.1) == 0
    {
      ReachedBy(b, done, p, k);
    }
    ContributionZero(a, b, done, p.0, p.1, a.cols);
  }

  lemma ReachedInsert(b: Matrix, done: set<Coord>, key: Coord, p: Coord)
    ensures Reached(b, done + {key}, p)
        <==> Reached(b, done, p) || (p.0 == key.0 && p.1 < b.cols && Get(b, key.1, p.1) != 0)
  {
    if Reached(b, done + {key}, p) && !Reached(b, done, p) {
      var k :| (p.0, k) in done + {key} && Get(b, k, p.1) != 0;
      assert (p.0, k) == key;
    }
    if Reached(b, done, p) {
      var k :| (p.0, k) in done && Get(b, k, p.1) != 0;
      assert (p.0, k) in done + {key};
    }
    if p.0 == key.0 && p.1 < b.cols && Get(b, key.1, p.1) != 0 {
      assert (p.0, key.1) in done + {key};
    }
  }

  /** The outer-loop step of `multiply` at one coordinate. */
  lemma AccumulatesStepAt(a: Matrix, b: Matrix, done: set<Coord>, key: Coord, entries: map<Coord, int>, p: Coord)
    requires WellFormed(b) && Accumulates(entries, a, b, done)
    requires key !in done && key.1 < a.cols
    ensures var next := RowUpdates(b, entries, key, Get(a, key.0, key.1), b.cols);
      (p in next <==> Reached(b, done + {key}, p))
      && (p in next ==> next[p] == Contribution(a, b, done + {key}, p.0, p.1, a.cols))
  {
    var next := RowUpdates(b, entries, key, Get(a, key.0, key.1), b.cols);
    RowUpdatesAt(b, entries, key, Get(a, key.0, key.1), b.cols, p);
    ReachedInsert(b, done, key, p);
    ContributionInsert(a, b, done, key, p.0, p.1, a.cols);
    if p !in entries {
      UnreachedZero(a, b, done, p);
    }
    if p.1 >= b.cols {
      assert Get(b, key.1, p.1) == 0;
    }
    assert Lookup(next, p) == Contribution(a, b, done + {key}, p.0, p.1, a.cols);
  }

  /** The inner loop of `multiply`, run over all of `b`'s columns, processes one more key. */
  lemma AccumulatesStep(a: Matrix, b: Matrix, done: set<Coord>, key: Coord, entries: map<Coord, int>)
    requires WellFormed(b) && Accumulates(entries, a, b, done)
    requires key !in done && key.1 < a.cols
    ensures Accumulates(RowUpdates(b, entries, key, Get(a, key.0, key.1), b.cols), a, b, done + {key})
  {
    forall p
      ensures var next := RowUpdates(b, entries, key, Get(a, key.0, key.1), b.cols);
        (p in next <==> Reached(b, done + {key}, p))
        && (p in next ==> next[p] == Contribution(a, b, done + {key}, p.0, p.1, a.cols))
    {
      AccumulatesStepAt(a, b, done, key, entries, p);
    }
  }

  /** `Reached` is membership of `ProductKeys`. */
  lemma ReachedProductKeys(b: Matrix, done: set<Coord>, p: Coord)
    ensures p in ProductKeys(b, done) <==> Reached(b, done, p)
  {
    if p in ProductKeys(b, done) {
      var key, j :| key in done && 0 <= j < b.cols && Get(b, key.1, j) != 0 && p == (key.0, j);
      ReachedBy(b, done, p, key.1);
    }
    if Reached(b, done, p) {
      var k :| (p.0, k) in done && Get(b, k, p.1) != 0;
      InProductKeys(b, done, (p.0, k), p.1);
    }
  }

  lemma AccumulatesKeys(a: Matrix, b: Matrix, done: set<Coord>, entries: map<Coord, int>)
    requires forall p :: p in entries <==> Reached(b, done, p)
    ensures entries.Keys == Accumulated(a, b, done).Keys
  {
    forall p
      ensures p in entries <==> p in ProductKeys(b, done)
    {
      ReachedProductKeys(b, done, p);
    }
  }

  /** The loop invariant pins the entries down: they are the closed form `Accumulated`. */
  lemma AccumulatesUnique(a: Matrix, b: Matrix, done: set<Coord>, entries: map<Coord, int>)
    requires Accumulates(entries, a, b, done)
    ensures entries == Accumulated(a, b, done)
  {
    var closed := Accumulated(a, b, done);
    AccumulatesKeys(a, b, done, entries);
    forall p | p in closed
      ensures entries[p] == closed[p]
    {
    }
    assert entries == closed;
  }
}
