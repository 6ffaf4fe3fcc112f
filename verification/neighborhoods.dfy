/** `Neighborhoods`: masks that say which offsets around a pixel belong to
    its neighbourhood. A mask is a square boolean grid indexed by offsets
    in `[-range, range]` in both dimensions; `NeighborhoodDelegate` is the
    type `Neighborhood`. */
module Neighborhoods {
  import opened Wrappers
  import opened Exceptions
  import opened Grids

  type Neighborhood = int -> Result<Grid<bool>, Exception>

  function Abs(x: int): nat {
    if x < 0 then -x else x
  }

  /** A `(2 range + 1)`-square grid over `[-range, range]` whose element
      `[x, y]` is `inside(x, y)`. `Array.CreateInstance` throws for a
      negative length, that is for `range < 0`. */
  function SquareMask(range: int, inside: (int, int) -> bool): (r: Result<Grid<bool>, Exception>)
    ensures r.Failure? <==> range < 0
    ensures r.Failure? ==> r.error == ArgumentOutOfRangeException
    ensures r.Success? ==>
      && r.value.lo0 == -range && r.value.Hi0() == range
      && r.value.lo1 == -range && r.value.Hi1() == range
    ensures r.Success? ==>
      forall x, y :: r.value.InBounds(x, y) ==> r.value.Get(x, y) == inside(x, y)
  {
    if range < 0 then
      Failure(ArgumentOutOfRangeException)
    else
      var size := 2 * range + 1;
      Success(GridData(-range, -range, size, size,
        seq(size, a => seq(size, b => inside(a - range, b - range)))))
  }

  /** The neighbourhood as the code builds it: offset `(x, y)` belongs to
      it iff `|x + y| <= range`. */
  function VonNeumann(range: int): (r: Result<Grid<bool>, Exception>)
    ensures r.Failure? <==> range < 0
    ensures r.Success? ==>
      && r.value.lo0 == -range && r.value.Hi0() == range
      && r.value.lo1 == -range && r.value.Hi1() == range
      && r.value.len0 == 2 * range + 1 && r.value.len1 == 2 * range + 1
    ensures r.Success? ==>
      forall x, y :: r.value.InBounds(x, y) ==> (r.value.Get(x, y) <==> Abs(x + y) <= range)
  {
    SquareMask(range, (x, y) => Abs(x + y) <= range)
  }

  /** The centre belongs to every neighbourhood. */
  lemma VonNeumannCentre(range: int)
    requires range >= 0
    ensures VonNeumann(range).Success? && VonNeumann(range).value.Get(0, 0)
  {
    assert VonNeumann(range).value.InBounds(0, 0);
  }

  /** The neighbourhood of range 0 is the single centre cell. */
  lemma VonNeumannZeroIsCentreOnly()
    ensures VonNeumann(0) == Success(GridData(0, 0, 1, 1, [[true]]))
  {
    var r := VonNeumann(0);
    assert r.Success?;
    var z := r.value;
    assert z.lo0 == 0 && z.lo1 == 0 && z.len0 == 1 && z.len1 == 1;
    assert z.InBounds(0, 0) && z.Get(0, 0);
    assert z.cells[0][0];
    assert z.cells[0] == [true];
    assert z.cells == [[true]];
  }

  /** The mask is symmetric under swapping the coordinates and under
      reflection through the centre. */
  lemma VonNeumannSymmetric(range: int, x: int, y: int)
    requires range >= 0
    requires VonNeumann(range).value.InBounds(x, y)
    ensures VonNeumann(range).value.InBounds(y, x)
    ensures VonNeumann(range).value.InBounds(-x, -y)
    ensures VonNeumann(range).value.Get(x, y) == VonNeumann(range).value.Get(y, x)
    ensures VonNeumann(range).value.Get(x, y) == VonNeumann(range).value.Get(-x, -y)
  {
  }

  /** The code's comment promises Manhattan distance, but the corner
      `(range, -range)`, at Manhattan distance `2 range`, is inside, and the
      mask is not symmetric under reflecting one axis. */
  lemma VonNeumannIsNotManhattanBall(range: int)
    requires range > 0
    ensures VonNeumann(range) != ManhattanBall(range)
    ensures VonNeumann(range).value.Get(range, -range)
    ensures !ManhattanBall(range).value.Get(range, -range)
    ensures !VonNeumann(range).value.Get(range, range)
    ensures !VonNeumann(range).value.Get(-range, -range)
  {
  }

  /** The neighbourhood the comment describes: offset `(x, y)` belongs to
      it iff its Manhattan distance `|x| + |y|` to the centre is at most
      `range`. */
  function ManhattanBall(range: int): (r: Result<Grid<bool>, Exception>)
    ensures r.Failure? <==> range < 0
    ensures r.Success? ==>
      && r.value.lo0 == -range && r.value.Hi0() == range
      && r.value.lo1 == -range && r.value.Hi1() == range
    ensures r.Success? ==>
      forall x, y :: r.value.InBounds(x, y) ==> (r.value.Get(x, y) <==> Abs(x) + Abs(y) <= range)
  {
    SquareMask(range, (x, y) => Abs(x) + Abs(y) <= range)
  }

  /** The Manhattan ball is symmetric under reflecting either axis and
      under swapping the axes. */
  lemma ManhattanBallSymmetric(range: int, x: int, y: int)
    requires range >= 0
    requires ManhattanBall(range).value.InBounds(x, y)
    ensures ManhattanBall(range).value.Get(x, y) == ManhattanBall(range).value.Get(-x, y)
    ensures ManhattanBall(range).value.Get(x, y) == ManhattanBall(range).value.Get(x, -y)
    ensures ManhattanBall(range).value.Get(x, y) == ManhattanBall(range).value.Get(y, x)
  {
    var m := ManhattanBall(range).value;
    assert m.InBounds(-x, y) && m.InBounds(x, -y) && m.InBounds(y, x);
  }

  /** The two masks agree on the offsets whose coordinates have the same
      sign. */
  lemma ManhattanBallAgreesOnSameSign(range: int, x: int, y: int)
    requires range >= 0
    requires ManhattanBall(range).value.InBounds(x, y)
    requires (x >= 0 && y >= 0) || (x <= 0 && y <= 0)
    ensures VonNeumann(range).value.InBounds(x, y)
    ensures ManhattanBall(range).value.Get(x, y) == VonNeumann(range).value.Get(x, y)
  {
  }
}
