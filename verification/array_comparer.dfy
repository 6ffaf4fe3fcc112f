/** `TwoDimensionalArrayStructuralEqualityComparer<T>`: equality and hash of
    two-dimensional arrays by bounds and contents. The element type's own
    `Equals` and `GetHashCode` are the parameters `eq` and `h`, both total:
    the `NullReferenceException` that `x[i, j].Equals(…)` or
    `obj[i, j].GetHashCode()` throws on a `null` element of a reference
    element type is not modelled. Both loops walk dimension 1 in the outer
    loop and dimension 0 in the inner one. */
module ArrayComparer {
  import opened Grids

  method Equals<T>(x: Grid<T>, y: Grid<T>, eq: (T, T) -> bool) returns (r: bool)
    ensures !SameBounds(x, y) ==> !r
    ensures r <==> StructurallyEqual(x, y, eq)
  {
    if x.lo0 != y.lo0 { return false; }
    if x.Hi0() != y.Hi0() { return false; }
    if x.lo1 != y.lo1 { return false; }
    if x.Hi1() != y.Hi1() { return false; }

    var j := x.lo1;
    while j <= x.Hi1()
      invariant x.lo1 <= j <= x.Hi1() + 1
      invariant forall i, j' :: x.lo0 <= i <= x.Hi0() && x.lo1 <= j' < j ==> eq(x.Get(i, j'), y.Get(i, j'))
    {
      var i := x.lo0;
      while i <= x.Hi0()
        invariant x.lo0 <= i <= x.Hi0() + 1
        invariant forall i' :: x.lo0 <= i' < i ==> eq(x.Get(i', j), y.Get(i', j))
      {
        if !eq(x.Get(i, j), y.Get(i, j)) {
          return false;
        }
        i := i + 1;
      }
      j := j + 1;
    }
    return true;
  }

  method GetHashCode<T>(g: Grid<T>, h: T -> int) returns (hash: int)
    ensures -TwoTo31 <= hash < TwoTo31
    ensures hash == GridHash(g, h)
  {
    hash := HashBounds(g);
    ghost var bounds := BoundsSum(g);

    var j := g.lo1;
    while j <= g.Hi1()
      invariant g.lo1 <= j <= g.Hi1() + 1
      invariant hash == Wrap32(bounds + ColumnMajorSum(g.cells, j - g.lo1, g.len0, h))
    {
      hash := HashColumn(g, h, j, hash, bounds + ColumnMajorSum(g.cells, j - g.lo1, g.len0, h));
      j := j + 1;
    }
    assert j - g.lo1 == g.len1;
    ColumnMajorIsRowMajor(g.cells, g.len1, g.len0, h);
    assert hash == Wrap32(bounds + RowMajorSum(g.cells, g.len0, g.len1, h));
  }

  /** The first four statements of `GetHashCode`: the hashes of the lower
      and upper bound of dimension 0, then of dimension 1. */
  method HashBounds<T>(g: Grid<T>) returns (hash: int)
    ensures hash == Wrap32(BoundsSum(g))
  {
    hash := 0;
    hash := Wrap32(hash + g.lo0);
    hash := Wrap32(hash + g.Hi0());
    WrapAdd(g.lo0, g.Hi0());
    hash := Wrap32(hash + g.lo1);
    WrapAdd(g.lo0 + g.Hi0(), g.lo1);
    hash := Wrap32(hash + g.Hi1());
    WrapAdd(g.lo0 + g.Hi0() + g.lo1, g.Hi1());
  }

  /** The inner loop of `GetHashCode`: starting from the wrapped value of
      `before`, add the hash of every element of column `j`, top to bottom. */
  method HashColumn<T>(g: Grid<T>, h: T -> int, j: int, start: int, ghost before: int) returns (hash: int)
    requires g.lo1 <= j <= g.Hi1()
    requires start == Wrap32(before)
    ensures hash == Wrap32(before + ColumnSum(g.cells, j - g.lo1, g.len0, h))
  {
    ghost var b := j - g.lo1;
    hash := start;
    var i := g.lo0;
    while i <= g.Hi0()
      invariant g.lo0 <= i <= g.Hi0() + 1
      invariant hash == Wrap32(before + ColumnSum(g.cells, b, i - g.lo0, h))
    {
      ghost var a := i - g.lo0;
      assert g.Get(i, j) == g.cells[a][b];
      WrapAdd(before + ColumnSum(g.cells, b, a, h), h(g.Get(i, j)));
      hash := Wrap32(hash + h(g.Get(i, j)));
      i := i + 1;
    }
  }
}
