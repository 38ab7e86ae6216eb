/**
 * Geometry of the street: the tile lattice, the three-row road band, the
 * square window of candidate cells around the player, and the conversion of
 * a world position into the centre cell of that window.
 */
module Grid {

  /** A tile coordinate on the infinite lattice, the `IVec2` key of the registry. */
  type Cell = (int, int)

  /** A world-space point. Only `x` and `z` are read by the street. */
  datatype Vec3 = Vec3(x: real, y: real, z: real)

  /** Tile footprint along the world x and z axes. */
  const GridWidth: real := 2.0
  const GridHeight: real := 2.0

  /** Half-width of the candidate window: both loops run over -3..=3. */
  const WindowRadius: int := 3

  /** The closed band of absolute rows that make up the road. */
  const LaneMin: int := -1
  const LaneMax: int := 1

  /** Bounds of the `i32` components of a cell. */
  const I32Min: int := -0x8000_0000
  const I32Max: int := 0x7FFF_FFFF

  /** The road filter: a cell is paved only when its row lies in the band. */
  predicate InLane(c: Cell)
  {
    LaneMin <= c.1 <= LaneMax
  }

  /** `c` is one of the 7x7 candidates around `centre`. */
  predicate InWindow(centre: Cell, c: Cell)
  {
    && -WindowRadius <= c.0 - centre.0 <= WindowRadius
    && -WindowRadius <= c.1 - centre.1 <= WindowRadius
  }

  /** Truncation toward zero, the rounding of a float-to-int `as` cast. */
  function Trunc(q: real): (r: int)
    ensures q >= 0.0 ==> 0.0 <= r as real <= q < r as real + 1.0
    ensures q < 0.0 ==> r as real - 1.0 < q <= r as real <= 0.0
  {
    if q >= 0.0 then q.Floor else -((-q).Floor)
  }

  /** Truncation is odd: a quotient and its negation truncate to opposite integers. */
  lemma TruncIsOdd(q: real)
    ensures Trunc(-q) == -Trunc(q)
  {
  }

  /**
   * Truncation agrees with the floor except on negative non-integers, where
   * it is one higher: the reason cell 0 is twice as wide as every other cell.
   */
  lemma TruncVersusFloor(q: real)
    ensures q < 0.0 && q != q.Floor as real ==> Trunc(q) == q.Floor + 1
    ensures q >= 0.0 || q == q.Floor as real ==> Trunc(q) == q.Floor
  {
  }

  /** A float-to-`i32` cast saturates at the bounds of `i32`. */
  function SaturateI32(n: int): (r: int)
    ensures I32Min <= r <= I32Max
    ensures r == n <==> I32Min <= n <= I32Max
    ensures n < I32Min ==> r == I32Min
    ensures n > I32Max ==> r == I32Max
  {
    if n < I32Min then I32Min else if n > I32Max then I32Max else n
  }

  /** The cell of one axis: the coordinate divided by the tile size, cast to `i32`. */
  function CellOf(p: real, size: real): (r: int)
    requires size > 0.0
    ensures I32Min <= r <= I32Max
    ensures p >= 0.0 ==> r >= 0
    ensures p <= 0.0 ==> r <= 0
  {
    SaturateI32(Trunc(p / size))
  }

  /** The world interval that `CellOf` maps to cell `n`, for `n` strictly inside `i32`. */
  ghost predicate CellSpan(n: int, size: real, p: real)
  {
    if n > 0 then n as real * size <= p < (n + 1) as real * size
    else if n < 0 then (n - 1) as real * size < p <= n as real * size
    else -size < p < size
  }

  /** Comparing a coordinate with a multiple of the tile size is comparing its quotient. */
  lemma QuotientBounds(a: real, p: real, size: real)
    requires size > 0.0
    ensures a * size <= p <==> a <= p / size
    ensures a * size < p <==> a < p / size
    ensures p <= a * size <==> p / size <= a
    ensures p < a * size <==> p / size < a
  {
  }

  /** Away from the `i32` bounds the cast does not saturate. */
  lemma CellOfIsTrunc(p: real, size: real, n: int)
    requires size > 0.0
    requires I32Min < n < I32Max
    ensures CellOf(p, size) == n <==> Trunc(p / size) == n
  {
  }

  /**
   * Each non-zero cell covers one tile width, half-open away from zero;
   * cell 0 covers the open interval of two tile widths around the origin.
   */
  lemma CellOfSpan(p: real, size: real, n: int)
    requires size > 0.0
    requires I32Min < n < I32Max
    ensures CellOf(p, size) == n <==> CellSpan(n, size, p)
  {
    var q := p / size;
    CellOfIsTrunc(p, size, n);
    if n > 0 {
      QuotientBounds(n as real, p, size);
      QuotientBounds((n + 1) as real, p, size);
    } else if n < 0 {
      QuotientBounds((n - 1) as real, p, size);
      QuotientBounds(n as real, p, size);
    } else {
      QuotientBounds(-1.0, p, size);
      QuotientBounds(1.0, p, size);
    }
  }

  /** The centre cell of the window for a player standing at `player`. */
  function CentreCell(player: Vec3): (c: Cell)
    ensures I32Min <= c.0 <= I32Max && I32Min <= c.1 <= I32Max
    ensures -GridWidth < player.x < GridWidth ==> c.0 == 0
    ensures -GridHeight < player.z < GridHeight ==> c.1 == 0
  {
    (CellOf(player.x, GridWidth), CellOf(player.z, GridHeight))
  }
}
