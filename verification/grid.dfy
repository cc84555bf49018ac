/** The 1024 x 1024 tile grid of a region and the rectangles that cover it. */
module Grids {
  import opened JavaInts

  /** A map is 1024 tiles wide and 1024 tiles high. */
  const SIZE := 1024

  /** A grid as rows of tiles: `g[y][x]` is the tile in column `x` of row `y`. */
  type Grid = seq<seq<bool>>

  predicate IsGrid(g: Grid)
  {
    |g| == SIZE && forall y :: 0 <= y < SIZE ==> |g[y]| == SIZE
  }

  function BlankRow(): (row: seq<bool>)
    ensures |row| == SIZE && IsBlank(row)
  {
    seq(SIZE, _ => false)
  }

  function BlankGrid(): (g: Grid)
    ensures IsGrid(g) && forall y :: 0 <= y < SIZE ==> g[y] == BlankRow()
  {
    seq(SIZE, _ => BlankRow())
  }

  predicate IsBlank(row: seq<bool>)
  {
    forall x :: 0 <= x < |row| ==> !row[x]
  }

  /** The end of the run of tiles equal to `row[x]` that starts at `x` (the counting loops of both halves of the codec). */
  function RunEnd(row: seq<bool>, x: nat): (e: nat)
    requires x < |row|
    ensures x < e <= |row|
    ensures forall i :: x <= i < e ==> row[i] == row[x]
    ensures e < |row| ==> row[e] != row[x]
    decreases |row| - x
  {
    if x + 1 == |row| || row[x + 1] != row[x] then x + 1 else RunEnd(row, x + 1)
  }

  /** `java.awt.Rectangle` as the codec uses it. */
  datatype Rect = Rect(x: i32, y: i32, width: i32, height: i32)

  /** `r.x + r.width` in `int` arithmetic: the true sum when it fits, else wrapped around. */
  function EndX(r: Rect): (e: i32)
    ensures (e - (r.x + r.width)) % 0x1_0000_0000 == 0
    ensures -0x8000_0000 <= r.x + r.width < 0x8000_0000 ==> e == r.x + r.width
  {
    Wrap32(r.x + r.width)
  }

  /** `r.y + r.height` in `int` arithmetic. */
  function EndY(r: Rect): (e: i32)
    ensures (e - (r.y + r.height)) % 0x1_0000_0000 == 0
    ensures -0x8000_0000 <= r.y + r.height < 0x8000_0000 ==> e == r.y + r.height
  {
    Wrap32(r.y + r.height)
  }

  /** The tiles the rasterising loops of a rectangle visit. */
  predicate InRect(r: Rect, x: int, y: int)
  {
    r.x <= x < EndX(r) && r.y <= y < EndY(r)
  }

  /**
   * A rectangle whose loops visit no tile outside the grid (otherwise Java throws): either
   * they visit nothing, or the rectangle lies inside the grid.
   */
  predicate Drawable(r: Rect): (b: bool)
    ensures b <==> forall x, y :: InRect(r, x, y) ==> 0 <= x < SIZE && 0 <= y < SIZE
  {
    var b := EndX(r) <= r.x || EndY(r) <= r.y
             || (0 <= r.x && 0 <= r.y && EndX(r) <= SIZE && EndY(r) <= SIZE);
    assert !b ==> InRect(r, r.x, r.y) && InRect(r, EndX(r) - 1, EndY(r) - 1);
    b
  }

  /** A non-empty rectangle inside the grid. */
  predicate Placed(r: Rect)
  {
    0 <= r.x && 0 <= r.y && 1 <= r.width && 1 <= r.height && r.x + r.width <= SIZE && r.y + r.height <= SIZE
  }

  /** Tile (x, y) lies in one of the rectangles. */
  predicate Covered(rs: seq<Rect>, x: int, y: int)
  {
    exists i :: 0 <= i < |rs| && InRect(rs[i], x, y)
  }

  /** The grid with exactly the tiles of the rectangles set. */
  function Raster(rs: seq<Rect>): (g: Grid)
    ensures IsGrid(g)
    ensures forall y, x :: 0 <= y < SIZE && 0 <= x < SIZE ==> (g[y][x] <==> Covered(rs, x, y))
  {
    seq(SIZE, y => seq(SIZE, x => Covered(rs, x, y)))
  }

  ghost predicate Disjoint(a: Rect, b: Rect)
  {
    forall x, y :: !(InRect(a, x, y) && InRect(b, x, y))
  }

  /** `row` with tiles `from..to - 1` set. */
  function SetRun(row: seq<bool>, from: int, to: int): (r: seq<bool>)
    requires 0 <= from <= to <= |row|
    ensures |r| == |row|
    ensures forall x :: 0 <= x < |row| ==> r[x] == (row[x] || from <= x < to)
  {
    seq(|row|, x requires 0 <= x < |row| => row[x] || from <= x < to)
  }

  /** `g` with rows `from..to - 1` replaced by copies of row `src`. */
  function CopyRows(g: Grid, from: int, to: int, src: int): (r: Grid)
    requires 0 <= from <= to <= |g| && 0 <= src < |g|
    ensures |r| == |g|
    ensures forall y :: 0 <= y < |g| ==> r[y] == if from <= y < to then g[src] else g[y]
  {
    seq(|g|, y requires 0 <= y < |g| => if from <= y < to then g[src] else g[y])
  }
}
