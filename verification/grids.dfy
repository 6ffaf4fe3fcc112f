/** Two-dimensional arrays with arbitrary lower bounds, as created by
    `Array.CreateInstance(type, lengths, lowerBounds)`, together with the
    structural equality and the additive hash that the comparers use. */
module Grids {

  /** Dimension 0 runs over `lo0 .. lo0 + len0 - 1`, dimension 1 over
      `lo1 .. lo1 + len1 - 1`; `cells[a][b]` holds element `[lo0 + a, lo1 + b]`. */
  datatype GridData<T> = GridData(lo0: int, lo1: int, len0: nat, len1: nat, cells: seq<seq<T>>)
  {
    /** The cell rows form a `len0` by `len1` rectangle. */
    predicate Valid() {
      |cells| == len0 && forall a :: 0 <= a < len0 ==> |cells[a]| == len1
    }

    /** `GetUpperBound(0)` and `GetUpperBound(1)`. */
    function Hi0(): int { lo0 + len0 - 1 }
    function Hi1(): int { lo1 + len1 - 1 }

    predicate InBounds(i: int, j: int) {
      lo0 <= i <= Hi0() && lo1 <= j <= Hi1()
    }

    /** The element `[i, j]`. */
    function Get(i: int, j: int): T
      requires Valid() && InBounds(i, j)
    {
      cells[i - lo0][j - lo1]
    }
  }

  type Grid<T> = g: GridData<T> | g.Valid() witness GridData(0, 0, 0, 0, [])

  /** All four bounds agree. */
  predicate SameBounds<T, U>(x: GridData<T>, y: GridData<U>) {
    x.lo0 == y.lo0 && x.lo1 == y.lo1 && x.Hi0() == y.Hi0() && x.Hi1() == y.Hi1()
  }

  /** The equality both comparers implement: equal bounds and every
      corresponding pair of elements equal under `eq`. */
  ghost predicate StructurallyEqual<T>(x: Grid<T>, y: Grid<T>, eq: (T, T) -> bool) {
    SameBounds(x, y) &&
    forall i, j :: x.InBounds(i, j) ==> eq(x.Get(i, j), y.Get(i, j))
  }

  /** A grid is determined by its bounds and its elements. */
  lemma GridExtensionality<T>(x: Grid<T>, y: Grid<T>)
    requires SameBounds(x, y)
    requires forall i, j :: x.InBounds(i, j) ==> x.Get(i, j) == y.Get(i, j)
    ensures x == y
  {
    assert x.len0 == y.len0 && x.len1 == y.len1;
    forall a | 0 <= a < x.len0
      ensures x.cells[a] == y.cells[a]
    {
      forall b | 0 <= b < x.len1
        ensures x.cells[a][b] == y.cells[a][b]
      {
        assert x.Get(x.lo0 + a, x.lo1 + b) == y.Get(x.lo0 + a, x.lo1 + b);
      }
    }
  }

  /** With an element equality that is value equality, structural equality
      of grids is value equality of grids. */
  lemma StructurallyEqualIffEqual<T>(x: Grid<T>, y: Grid<T>, eq: (T, T) -> bool)
    requires forall a, b :: eq(a, b) <==> a == b
    ensures StructurallyEqual(x, y, eq) <==> x == y
  {
    if StructurallyEqual(x, y, eq) {
      GridExtensionality(x, y);
    }
  }

  /** Reflexivity and symmetry carry over from the element equality. */
  lemma StructurallyEqualReflexive<T>(x: Grid<T>, eq: (T, T) -> bool)
    requires forall a :: eq(a, a)
    ensures StructurallyEqual(x, x, eq)
  {
  }

  lemma StructurallyEqualSymmetric<T>(x: Grid<T>, y: Grid<T>, eq: (T, T) -> bool)
    requires forall a, b :: eq(a, b) ==> eq(b, a)
    ensures StructurallyEqual(x, y, eq) ==> StructurallyEqual(y, x, eq)
  {
  }

  // ---------------------------------------------------------------------
  // 32-bit hash arithmetic

  const TwoTo31: int := 0x8000_0000
  const TwoTo32: int := 0x1_0000_0000

  /** The value of a C# `int` after unchecked arithmetic produced `x`. */
  function Wrap32(x: int): (r: int)
    ensures -TwoTo31 <= r < TwoTo31
  {
    (x + TwoTo31) % TwoTo32 - TwoTo31
  }

  /** Two values that agree modulo 2^32 wrap to the same `int`. */
  lemma WrapCongruent(x: int, y: int)
    requires (x - y) % TwoTo32 == 0
    ensures Wrap32(x) == Wrap32(y)
  {
    var q := (x - y) / TwoTo32;
    assert x - y == q * TwoTo32;
    var qy := (y + TwoTo31) / TwoTo32;
    var ry := (y + TwoTo31) % TwoTo32;
    assert y + TwoTo31 == qy * TwoTo32 + ry;
    assert x + TwoTo31 == (q + qy) * TwoTo32 + ry;
  }

  /** Wrapping after every `+=` is the same as wrapping the exact sum once. */
  lemma WrapAdd(a: int, b: int)
    ensures Wrap32(Wrap32(a) + b) == Wrap32(a + b)
  {
    var q := (a + TwoTo31) / TwoTo32;
    assert Wrap32(a) == a - q * TwoTo32;
    assert (Wrap32(a) + b) - (a + b) == (-q) * TwoTo32;
    WrapCongruent(Wrap32(a) + b, a + b);
  }

  // ---------------------------------------------------------------------
  // Sums of element hashes, in both traversal orders

  /** The first `n` rows all have at least `m` elements. */
  predicate Rect<T>(cells: seq<seq<T>>, n: nat, m: nat) {
    n <= |cells| && forall a :: 0 <= a < n ==> m <= |cells[a]|
  }

  /** h(row[0]) + ... + h(row[n-1]). */
  function RowSum<T>(row: seq<T>, n: nat, h: T -> int): int
    requires n <= |row|
  {
    if n == 0 then 0 else RowSum(row, n - 1, h) + h(row[n - 1])
  }

  /** The first `m` elements of each of the first `n` rows, row by row. */
  function RowMajorSum<T>(cells: seq<seq<T>>, n: nat, m: nat, h: T -> int): int
    requires Rect(cells, n, m)
  {
    if n == 0 then 0 else RowMajorSum(cells, n - 1, m, h) + RowSum(cells[n - 1], m, h)
  }

  /** h(cells[0][j]) + ... + h(cells[n-1][j]). */
  function ColumnSum<T>(cells: seq<seq<T>>, j: nat, n: nat, h: T -> int): int
    requires Rect(cells, n, j + 1)
  {
    if n == 0 then 0 else ColumnSum(cells, j, n - 1, h) + h(cells[n - 1][j])
  }

  /** The same elements as `RowMajorSum`, column by column. */
  function ColumnMajorSum<T>(cells: seq<seq<T>>, m: nat, n: nat, h: T -> int): int
    requires Rect(cells, n, m)
  {
    if m == 0 then 0 else ColumnMajorSum(cells, m - 1, n, h) + ColumnSum(cells, m - 1, n, h)
  }

  /** Adding row `n` to a column-major sum adds that row's sum. */
  lemma {:induction false} ColumnMajorSumNextRow<T>(cells: seq<seq<T>>, m: nat, n: nat, h: T -> int)
    requires Rect(cells, n + 1, m)
    ensures ColumnMajorSum(cells, m, n + 1, h) == ColumnMajorSum(cells, m, n, h) + RowSum(cells[n], m, h)
  {
    if m > 0 {
      ColumnMajorSumNextRow(cells, m - 1, n, h);
    }
  }

  /** Summing column by column gives the same total as row by row. */
  lemma {:induction false} ColumnMajorIsRowMajor<T>(cells: seq<seq<T>>, m: nat, n: nat, h: T -> int)
    requires Rect(cells, n, m)
    ensures ColumnMajorSum(cells, m, n, h) == RowMajorSum(cells, n, m, h)
  {
    if n == 0 {
      ColumnMajorOfNoRows(cells, m, h);
    } else {
      ColumnMajorIsRowMajor(cells, m, n - 1, h);
      ColumnMajorSumNextRow(cells, m, n - 1, h);
    }
  }

  lemma {:induction false} ColumnMajorOfNoRows<T>(cells: seq<seq<T>>, m: nat, h: T -> int)
    ensures ColumnMajorSum(cells, m, 0, h) == 0
  {
    if m > 0 {
      ColumnMajorOfNoRows(cells, m - 1, h);
    }
  }

  /** The sum of the four bounds: the hash of an `int` is the `int` itself. */
  function BoundsSum<T>(g: GridData<T>): int {
    g.lo0 + g.lo1 + g.Hi0() + g.Hi1()
  }

  /** The hash both comparers compute: the bound hashes plus every element's
      hash, added up in 32-bit unchecked arithmetic. */
  function GridHash<T>(g: Grid<T>, h: T -> int): int {
    Wrap32(BoundsSum(g) + RowMajorSum(g.cells, g.len0, g.len1, h))
  }

  /** Row sums agree when the hashes agree element by element. */
  lemma {:induction false} RowSumsAgree<T>(x: seq<T>, y: seq<T>, n: nat, h: T -> int)
    requires n <= |x| && n <= |y|
    requires forall b :: 0 <= b < n ==> h(x[b]) == h(y[b])
    ensures RowSum(x, n, h) == RowSum(y, n, h)
  {
    if n > 0 {
      RowSumsAgree(x, y, n - 1, h);
    }
  }

  lemma {:induction false} RowMajorSumsAgree<T>(x: seq<seq<T>>, y: seq<seq<T>>, n: nat, m: nat, h: T -> int)
    requires Rect(x, n, m) && Rect(y, n, m)
    requires forall a, b :: 0 <= a < n && 0 <= b < m ==> h(x[a][b]) == h(y[a][b])
    ensures RowMajorSum(x, n, m, h) == RowMajorSum(y, n, m, h)
  {
    if n > 0 {
      RowMajorSumsAgree(x, y, n - 1, m, h);
      RowSumsAgree(x[n - 1], y[n - 1], m, h);
    }
  }

  /** Structurally equal grids have equal hashes, provided the element hash
      is consistent with the element equality. */
  lemma EqualGridsHaveEqualHashes<T>(x: Grid<T>, y: Grid<T>, eq: (T, T) -> bool, h: T -> int)
    requires forall a, b :: eq(a, b) ==> h(a) == h(b)
    requires StructurallyEqual(x, y, eq)
    ensures GridHash(x, h) == GridHash(y, h)
  {
    forall a, b | 0 <= a < x.len0 && 0 <= b < x.len1
      ensures h(x.cells[a][b]) == h(y.cells[a][b])
    {
      assert eq(x.Get(x.lo0 + a, x.lo1 + b), y.Get(x.lo0 + a, x.lo1 + b));
    }
    RowMajorSumsAgree(x.cells, y.cells, x.len0, x.len1, h);
  }
}
