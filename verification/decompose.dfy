/**
 * The second half of `decodeTiles`: the decoded grid is scanned in row-major order, and at
 * every set tile a rectangle is cut out greedily. It is as wide as the run of set tiles
 * starting there and as high as the number of rows, from that one down, whose tiles under
 * it are all set; its tiles are then cleared so that later rectangles do not overlap it.
 */
module Decomposition {
  import opened JavaInts
  import opened Grids

  /** Tiles `x..e - 1` of a row are all set (the `sameRow` loop). */
  predicate Spans(row: seq<bool>, x: int, e: int)
    requires 0 <= x <= e <= |row|
  {
    forall i :: x <= i < e ==> row[i]
  }

  /** The first row at or below `y` that does not span `x..e - 1` (`SIZE` if there is none). */
  function SpanEnd(g: Grid, x: int, e: int, y: int): (f: int)
    requires IsGrid(g) && 0 <= x <= e <= SIZE && 0 <= y <= SIZE
    ensures y <= f <= SIZE
    ensures forall yy :: y <= yy < f ==> Spans(g[yy], x, e)
    ensures f < SIZE ==> !Spans(g[f], x, e)
    decreases SIZE - y
  {
    if y == SIZE || !Spans(g[y], x, e) then y else SpanEnd(g, x, e, y + 1)
  }

  /** The rectangle cut out at the set tile (x, y). */
  function Found(g: Grid, x: int, y: int): (r: Rect)
    requires IsGrid(g) && 0 <= x < SIZE && 0 <= y < SIZE
    ensures Placed(r) && r.x == x && r.y == y
  {
    var w := RunEnd(g[y], x) - x;
    var h := SpanEnd(g, x, x + w, y + 1) - y;
    Rect(x, y, w, h)
  }

  /** `g` with the tiles of a rectangle inside it cleared. */
  function Clear(g: Grid, r: Rect): (c: Grid)
    requires IsGrid(g) && Placed(r)
    ensures IsGrid(c)
    ensures forall y, x :: 0 <= y < SIZE && 0 <= x < SIZE ==> c[y][x] == (g[y][x] && !InRect(r, x, y))
  {
    seq(SIZE, y requires 0 <= y < SIZE => seq(SIZE, x requires 0 <= x < SIZE => g[y][x] && !InRect(r, x, y)))
  }

  /** The tile after (x, y) in row-major order: `if (++curX == 1024) { curX = 0; ++curY; }`. */
  function NextX(x: int): (x1: int)
    requires 0 <= x < SIZE
    ensures 0 <= x1 < SIZE
  {
    if x + 1 == SIZE then 0 else x + 1
  }

  function NextY(x: int, y: int): (y1: int)
  {
    if x + 1 == SIZE then y + 1 else y
  }

  /** The rectangles the scan emits from tile (x, y) on. */
  function ScanFrom(g: Grid, x: int, y: int): (rs: seq<Rect>)
    requires IsGrid(g) && 0 <= x < SIZE && 0 <= y <= SIZE
    ensures forall i :: 0 <= i < |rs| ==> Placed(rs[i])
    decreases SIZE - y, SIZE - x
  {
    if y == SIZE then []
    else
      var x1, y1 := NextX(x), NextY(x, y);
      if g[y][x] then
        var r := Found(g, x, y);
        [r] + ScanFrom(Clear(g, r), x1, y1)
      else ScanFrom(g, x1, y1)
  }

  /** The rectangles `decodeTiles` adds for a decoded grid. */
  function Decompose(g: Grid): (rs: seq<Rect>)
    requires IsGrid(g)
    ensures forall i :: 0 <= i < |rs| ==> Placed(rs[i])
  {
    ScanFrom(g, 0, 0)
  }

  // ---------------------------------------------------------------------------
  // What the scan produces
  // ---------------------------------------------------------------------------

  /** Tile (xx, yy) comes at or after tile (x, y) in row-major order. */
  predicate AtOrAfter(xx: int, yy: int, x: int, y: int)
  {
    y < yy || (y == yy && x <= xx)
  }

  /** The top-left tiles of the rectangles are strictly increasing in row-major order. */
  predicate RowMajor(rs: seq<Rect>)
  {
    forall i, j :: 0 <= i < j < |rs| ==> rs[i].y < rs[j].y || (rs[i].y == rs[j].y && rs[i].x < rs[j].x)
  }

  /** Every tile of every rectangle is set in `g`. */
  predicate OnSetTiles(g: Grid, rs: seq<Rect>)
    requires IsGrid(g)
  {
    forall i, x, y :: 0 <= i < |rs| && 0 <= x < SIZE && 0 <= y < SIZE && InRect(rs[i], x, y) ==> g[y][x]
  }

  ghost predicate PairwiseDisjoint(rs: seq<Rect>)
  {
    forall i, j :: 0 <= i < j < |rs| ==> Disjoint(rs[i], rs[j])
  }

  /** What the scan from (x, y) emits for `g`. */
  ghost predicate Scanned(g: Grid, x: int, y: int, rs: seq<Rect>)
    requires IsGrid(g)
  {
    && (forall i :: 0 <= i < |rs| ==> Placed(rs[i]) && AtOrAfter(rs[i].x, rs[i].y, x, y))
    && RowMajor(rs) && OnSetTiles(g, rs) && PairwiseDisjoint(rs)
    && forall yy, xx :: 0 <= yy < SIZE && 0 <= xx < SIZE ==>
         (Covered(rs, xx, yy) <==> g[yy][xx] && AtOrAfter(xx, yy, x, y))
  }

  /** The rectangle cut out at a set tile lies on set tiles. */
  lemma FoundOnSetTiles(g: Grid, x: int, y: int)
    requires IsGrid(g) && 0 <= x < SIZE && 0 <= y < SIZE && g[y][x]
    ensures OnSetTiles(g, [Found(g, x, y)])
  {
    var r := Found(g, x, y);
    var e := RunEnd(g[y], x);
    var f := SpanEnd(g, x, e, y + 1);
    forall xx, yy | 0 <= xx < SIZE && 0 <= yy < SIZE && InRect(r, xx, yy)
      ensures g[yy][xx]
    {
      if yy > y {
        assert Spans(g[yy], x, e);
      }
    }
  }

  /** A tile is covered by `[r] + rs` when `r` or one of `rs` holds it. */
  lemma CoveredCons(r: Rect, rs: seq<Rect>, x: int, y: int)
    ensures Covered([r] + rs, x, y) <==> InRect(r, x, y) || Covered(rs, x, y)
  {
    var all := [r] + rs;
    if InRect(r, x, y) {
      assert all[0] == r;
    }
    if Covered(rs, x, y) {
      var i :| 0 <= i < |rs| && InRect(rs[i], x, y);
      assert all[i + 1] == rs[i];
    }
    if Covered(all, x, y) {
      var i :| 0 <= i < |all| && InRect(all[i], x, y);
      if i > 0 {
        assert all[i] == rs[i - 1];
      }
    }
  }

  /** A rectangle at (x, y) followed by rectangles from the next tile on are in row-major order. */
  lemma RowMajorCons(r: Rect, rest: seq<Rect>, x: int, y: int)
    requires 0 <= x < SIZE && r.x == x && r.y == y && RowMajor(rest)
    requires forall i :: 0 <= i < |rest| ==> AtOrAfter(rest[i].x, rest[i].y, NextX(x), NextY(x, y))
    ensures RowMajor([r] + rest)
  {
    var rs := [r] + rest;
    forall i, j | 0 <= i < j < |rs|
      ensures rs[i].y < rs[j].y || (rs[i].y == rs[j].y && rs[i].x < rs[j].x)
    {
      assert rs[j] == rest[j - 1];
      if i > 0 {
        assert rs[i] == rest[i - 1];
      }
    }
  }

  /** Rectangles on the set tiles of a grid with fewer tiles set lie on set tiles of `g`. */
  lemma OnSetTilesCons(g: Grid, c: Grid, r: Rect, rest: seq<Rect>)
    requires IsGrid(g) && IsGrid(c) && OnSetTiles(g, [r]) && OnSetTiles(c, rest)
    requires forall y, x :: 0 <= y < SIZE && 0 <= x < SIZE && c[y][x] ==> g[y][x]
    ensures OnSetTiles(g, [r] + rest)
  {
    var rs := [r] + rest;
    forall i, x, y | 0 <= i < |rs| && 0 <= x < SIZE && 0 <= y < SIZE && InRect(rs[i], x, y)
      ensures g[y][x]
    {
      if i == 0 {
        assert [r][0] == rs[i];
      } else {
        assert rs[i] == rest[i - 1];
      }
    }
  }

  /** `r` is disjoint from rectangles lying on tiles that are set once `r` is cleared. */
  lemma DisjointCons(g: Grid, r: Rect, rest: seq<Rect>)
    requires IsGrid(g) && Placed(r) && OnSetTiles(Clear(g, r), rest) && PairwiseDisjoint(rest)
    requires forall i :: 0 <= i < |rest| ==> Placed(rest[i])
    ensures PairwiseDisjoint([r] + rest)
  {
    var c := Clear(g, r);
    var rs := [r] + rest;
    forall j | 0 <= j < |rest|
      ensures Disjoint(r, rest[j])
    {
      forall xx, yy
        ensures !(InRect(r, xx, yy) && InRect(rest[j], xx, yy))
      {
      }
    }
    forall i, j | 0 <= i < j < |rs|
      ensures Disjoint(rs[i], rs[j])
    {
      assert rs[j] == rest[j - 1];
      if i > 0 {
        assert rs[i] == rest[i - 1];
      }
    }
  }

  /** A set tile is cut out with the rectangle found there and the rest are scanned after it. */
  lemma ScanSet(g: Grid, x: int, y: int, rest: seq<Rect>)
    requires IsGrid(g) && 0 <= x < SIZE && 0 <= y < SIZE && g[y][x]
    requires Scanned(Clear(g, Found(g, x, y)), NextX(x), NextY(x, y), rest)
    ensures Scanned(g, x, y, [Found(g, x, y)] + rest)
  {
    var r := Found(g, x, y);
    var c := Clear(g, r);
    var rs := [r] + rest;
    FoundOnSetTiles(g, x, y);
    RowMajorCons(r, rest, x, y);
    OnSetTilesCons(g, c, r, rest);
    DisjointCons(g, r, rest);
    forall i | 0 <= i < |rs|
      ensures Placed(rs[i]) && AtOrAfter(rs[i].x, rs[i].y, x, y)
    {
      if i > 0 {
        assert rs[i] == rest[i - 1];
      }
    }
    forall yy, xx | 0 <= yy < SIZE && 0 <= xx < SIZE
      ensures Covered(rs, xx, yy) <==> g[yy][xx] && AtOrAfter(xx, yy, x, y)
    {
      CoveredCons(r, rest, xx, yy);
    }
  }

  /** A clear tile is passed over. */
  lemma ScanClear(g: Grid, x: int, y: int, rest: seq<Rect>)
    requires IsGrid(g) && 0 <= x < SIZE && 0 <= y < SIZE && !g[y][x]
    requires Scanned(g, NextX(x), NextY(x, y), rest)
    ensures Scanned(g, x, y, rest)
  {
  }

  lemma {:induction false} ScanFromScanned(g: Grid, x: int, y: int)
    requires IsGrid(g) && 0 <= x < SIZE && 0 <= y <= SIZE
    ensures Scanned(g, x, y, ScanFrom(g, x, y))
    decreases SIZE - y, SIZE - x
  {
    if y < SIZE {
      var x1, y1 := NextX(x), NextY(x, y);
      if g[y][x] {
        var r := Found(g, x, y);
        ScanFromScanned(Clear(g, r), x1, y1);
        ScanSet(g, x, y, ScanFrom(Clear(g, r), x1, y1));
      } else {
        ScanFromScanned(g, x1, y1);
        ScanClear(g, x, y, ScanFrom(g, x1, y1));
      }
    }
  }

  /**
   * The rectangles of a decoded grid are non-empty and inside the grid, pairwise disjoint,
   * in row-major order of their top-left tiles, and together cover exactly its set tiles.
   */
  lemma DecomposeCorrect(g: Grid)
    requires IsGrid(g)
    ensures var rs := Decompose(g);
            && (forall i :: 0 <= i < |rs| ==> Placed(rs[i]))
            && PairwiseDisjoint(rs)
            && RowMajor(rs)
            && Raster(rs) == g
  {
    var rs := Decompose(g);
    ScanFromScanned(g, 0, 0);
    forall y | 0 <= y < SIZE
      ensures Raster(rs)[y] == g[y]
    {
      assert forall x :: 0 <= x < SIZE ==> Raster(rs)[y][x] == g[y][x];
    }
  }
}
