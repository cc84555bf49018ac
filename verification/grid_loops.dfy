/**
 * The loops of `decodeTiles` and `getCompressedRGN` over the `boolean[1024][1024]` grid,
 * each proved to compute what the functions of the tile codec describe.
 */
module GridLoops {
  import opened JavaInts
  import opened ByteArrays
  import opened Grids
  import opened Rle
  import opened TileDecoding
  import opened Decomposition
  import opened Compression

  /** The array holds, tile for tile, the grid `g`. */
  ghost predicate Mirrors(rgn: array2<bool>, g: Grid)
    reads rgn
  {
    && rgn.Length0 == SIZE && rgn.Length1 == SIZE && IsGrid(g)
    && forall y, x :: 0 <= y < SIZE && 0 <= x < SIZE ==> rgn[y, x] == g[y][x]
  }

  /** Where the instruction loop of `decodeTiles` got to: the cursor, an error string or an exception. */
  datatype Replay = Replayed(curX: int, curY: i32) | ReplayFailed(err: TileError) | ReplayThrew

  // ---------------------------------------------------------------------------
  // The instruction loop of decodeTiles
  // ---------------------------------------------------------------------------

  /**
   * The body of the instruction loop for an instruction of kind `kind` and length `len`,
   * with the cursor moved to the next row when the row is full.
   */
  method Execute(rgn: array2<bool>, ghost g: Grid, curX: int, curY: i32, kind: int, len: int)
    returns (r: Replay, ghost g': Grid)
    requires Mirrors(rgn, g) && 0 <= curX < SIZE && 0 <= kind < 8 && 1 <= len <= 1024
    modifies rgn
    ensures match ApplyOp(TileState(g, curX, curY), DecodeOp(kind, len))
            case Next(st) => r == Replayed(st.curX, st.curY) && g' == st.grid && Mirrors(rgn, g')
            case Fail(e) => r == ReplayFailed(e)
            case Crash => r == ReplayThrew
  {
    var x1, y1 := curX, curY;
    g' := g;
    if kind == 0 || kind == 1 {
      if len + curX > SIZE {
        return ReplayFailed(RunPastEnd(false)), g;
      }
      x1 := curX + len;
    } else if kind == 2 || kind == 3 {
      if len + curX > SIZE {
        return ReplayFailed(RunPastEnd(true)), g;
      }
      var stopX := curX + len;
      if curY < 0 || curY >= SIZE {
        return ReplayThrew, g;      // `rgn[curY]` outside the grid
      }
      var xPos := curX;
      while xPos < stopX
        invariant curX <= xPos <= stopX
        invariant forall yy, xx :: 0 <= yy < SIZE && 0 <= xx < SIZE ==>
                    rgn[yy, xx] == (g[yy][xx] || (yy == curY && curX <= xx < xPos))
      {
        rgn[curY, xPos] := true;
        xPos := xPos + 1;
      }
      g' := g[curY := SetRun(g[curY], curX, stopX)];
      x1 := curX + len;
    } else if kind == 4 || kind == 5 {
      if curX != 0 {
        return ReplayFailed(EmptyRowsMidRow(curX)), g;
      }
      y1 := Wrap32(curY + len);
    } else {
      if curX != 0 {
        return ReplayFailed(RepeatMidRow), g;
      }
      if curY == 0 {
        return ReplayFailed(RepeatOnFirstRow), g;
      }
      var stopY := Wrap32(curY + len);
      if stopY > curY {
        if curY < 0 || stopY > SIZE {
          return ReplayThrew, g;    // a row outside the grid
        }
        var copyY := curY - 1;
        CopyRowsLoop(rgn, g, curY, stopY, copyY);
        g' := CopyRows(g, curY, stopY, copyY);
      }
      y1 := stopY;
    }
    if x1 == SIZE {
      y1 := Wrap32(y1 + 1);
      x1 := 0;
    }
    r := Replayed(x1, y1);
  }

  /** The nested copy loop of a repeat: rows `from..to - 1` become copies of row `src`. */
  method CopyRowsLoop(rgn: array2<bool>, ghost g: Grid, from: int, to: int, src: int)
    requires Mirrors(rgn, g) && 0 <= src < from <= to <= SIZE
    modifies rgn
    ensures Mirrors(rgn, CopyRows(g, from, to, src))
  {
    var xPos := 0;
    while xPos < SIZE
      invariant 0 <= xPos <= SIZE
      invariant forall yy, xx :: 0 <= yy < SIZE && 0 <= xx < SIZE ==>
                  rgn[yy, xx] == if from <= yy < to && xx < xPos then g[src][xx] else g[yy][xx]
    {
      var yPos := from;
      while yPos < to
        invariant from <= yPos <= to
        invariant forall yy, xx :: 0 <= yy < SIZE && 0 <= xx < SIZE ==>
                    rgn[yy, xx] == if from <= yy < to && (xx < xPos || (xx == xPos && yy < yPos)) then g[src][xx] else g[yy][xx]
      {
        rgn[yPos, xPos] := rgn[src, xPos];
        yPos := yPos + 1;
      }
      xPos := xPos + 1;
    }
  }

  /** One turn of the decoding loop over an instruction read at `o`. */
  lemma ReplayStep(data: seq<byte>, o: int, end: int, st: TileState, op: Op, width: nat, next: int)
    requires ValidState(st) && 0 <= o < end && o < |data|
    requires ReadInstruction(data, o) == Instr(op, width) && next == o + width
    ensures ApplyOp(st, op).Next? ==> RunTiles(data, o, end, st) == RunTiles(data, next, end, ApplyOp(st, op).st)
    ensures !ApplyOp(st, op).Next? ==> RunTiles(data, o, end, st) == ApplyOp(st, op)
  {
  }

  /**
   * The first half of `decodeTiles`: the instructions from `offset` up to `offset + size`
   * replayed on a fresh grid.
   */
  method ReplayTiles(data: array<byte>, offset: i32, size: i32) returns (rgn: array2<bool>, r: Replay)
    ensures fresh(rgn)
    ensures match RunTiles(data[..], offset, Wrap32(offset + size), Initial)
            case Next(st) => r == Replayed(st.curX, st.curY) && Mirrors(rgn, st.grid)
            case Fail(e) => r == ReplayFailed(e)
            case Crash => r == ReplayThrew
  {
    var o: int := offset;
    var endByte := Wrap32(offset + size);
    rgn := new bool[SIZE, SIZE]((_, _) => false);
    var curX: int, curY: i32 := 0, 0;
    ghost var g := BlankGrid();
    while o < endByte
      invariant Mirrors(rgn, g) && 0 <= curX < SIZE
      invariant RunTiles(data[..], o, endByte, TileState(g, curX, curY)) == RunTiles(data[..], offset, endByte, Initial)
      decreases endByte - o
    {
      if o < 0 || o >= data.Length {
        return rgn, ReplayThrew;      // `data[o]` outside the array
      }
      var kind := GetEncodedType(data[o]);
      if kind % 2 != 0 && o + 1 >= data.Length {
        return rgn, ReplayThrew;      // the long form reads `data[o + 1]`
      }
      var len := GetEncodedLength(data[..], o, kind);
      var next := if kind % 2 == 0 then o + 1 else o + 2;
      ReplayStep(data[..], o, endByte, TileState(g, curX, curY), DecodeOp(kind, len), next - o, next);
      var res;
      res, g := Execute(rgn, g, curX, curY, kind, len);
      if !res.Replayed? {
        return rgn, res;
      }
      curX, curY := res.curX, res.curY;
      o := next;
    }
    r := Replayed(curX, curY);
  }

  // ---------------------------------------------------------------------------
  // The rectangle scan of decodeTiles
  // ---------------------------------------------------------------------------

  /** A run found by scanning is the run `RunEnd` describes. */
  lemma {:induction false} RunEndIs(row: seq<bool>, x: nat, e: nat)
    requires x < e <= |row|
    requires forall i :: x <= i < e ==> row[i] == row[x]
    requires e < |row| ==> row[e] != row[x]
    ensures RunEnd(row, x) == e
    decreases e - x
  {
    if x + 1 < e {
      RunEndIs(row, x + 1, e);
    }
  }

  /** The rows found by scanning downwards are the ones `SpanEnd` describes. */
  lemma {:induction false} SpanEndIs(g: Grid, x: int, e: int, y: int, f: int)
    requires IsGrid(g) && 0 <= x <= e <= SIZE && 0 <= y <= f <= SIZE
    requires forall yy :: y <= yy < f ==> Spans(g[yy], x, e)
    requires f < SIZE ==> !Spans(g[f], x, e)
    ensures SpanEnd(g, x, e, y) == f
    decreases f - y
  {
    if y < f {
      SpanEndIs(g, x, e, y + 1, f);
    }
  }

  /** The width loop: how many set tiles follow (x, y) in its row, itself included. */
  method RunWidth(rgn: array2<bool>, ghost g: Grid, x: int, y: int) returns (w: int)
    requires Mirrors(rgn, g) && 0 <= x < SIZE && 0 <= y < SIZE && g[y][x]
    ensures w == RunEnd(g[y], x) - x
  {
    w := 1;
    var xPos := x + 1;
    while xPos < SIZE
      invariant x < xPos <= SIZE && w == xPos - x
      invariant forall i :: x <= i < xPos ==> g[y][i]
    {
      if rgn[y, xPos] == false {
        break;
      }
      w := w + 1;
      xPos := xPos + 1;
    }
    RunEndIs(g[y], x, xPos);
  }

  /** The `sameRow` loop: tiles `x..e - 1` of row `y` are all set. */
  method SameRow(rgn: array2<bool>, ghost g: Grid, x: int, e: int, y: int) returns (same: bool)
    requires Mirrors(rgn, g) && 0 <= x <= e <= SIZE && 0 <= y < SIZE
    ensures same == Spans(g[y], x, e)
  {
    var xPos := x;
    while xPos < e
      invariant x <= xPos <= e
      invariant Spans(g[y], x, xPos)
    {
      if rgn[y, xPos] == false {
        return false;
      }
      xPos := xPos + 1;
    }
    return true;
  }

  /** The height loop: how many rows from `y` down span tiles `x..x + w - 1`. */
  method SpanHeight(rgn: array2<bool>, ghost g: Grid, x: int, w: int, y: int) returns (h: int)
    requires Mirrors(rgn, g) && 0 <= x && 1 <= w && x + w <= SIZE && 0 <= y < SIZE
    ensures h == SpanEnd(g, x, x + w, y + 1) - y
  {
    h := 1;
    var yPos := y + 1;
    while yPos < SIZE
      invariant y < yPos <= SIZE && h == yPos - y
      invariant forall yy :: y + 1 <= yy < yPos ==> Spans(g[yy], x, x + w)
    {
      var endX := x + w;
      var sameRow := SameRow(rgn, g, x, endX, yPos);
      if sameRow == false {
        break;
      }
      h := h + 1;
      yPos := yPos + 1;
    }
    SpanEndIs(g, x, x + w, y + 1, yPos);
  }

  /** The clearing loop: the tiles of a rectangle are marked as processed. */
  method ClearRect(rgn: array2<bool>, ghost g: Grid, r: Rect)
    requires Mirrors(rgn, g) && Placed(r)
    modifies rgn
    ensures Mirrors(rgn, Clear(g, r))
  {
    var endX, endY := r.x + r.width, r.y + r.height;
    var yPos := r.y;
    while yPos < endY
      invariant r.y <= yPos <= endY
      invariant forall yy, xx :: 0 <= yy < SIZE && 0 <= xx < SIZE ==>
                  rgn[yy, xx] == (g[yy][xx] && !(r.x <= xx < endX && r.y <= yy < yPos))
    {
      var xPos := r.x;
      while xPos < endX
        invariant r.x <= xPos <= endX
        invariant forall yy, xx :: 0 <= yy < SIZE && 0 <= xx < SIZE ==>
                    rgn[yy, xx] == (g[yy][xx] && !(r.x <= xx < endX && (r.y <= yy < yPos || (yy == yPos && xx < xPos))))
      {
        rgn[yPos, xPos] := false;
        xPos := xPos + 1;
      }
      yPos := yPos + 1;
    }
  }

  /** The scan at a set tile: the rectangle found there and the rest of the scan. */
  lemma ScanAtSet(g: Grid, x: int, y: int, x1: int, y1: int, r: Rect, cleared: Grid)
    requires IsGrid(g) && 0 <= x < SIZE && 0 <= y < SIZE && g[y][x]
    requires x1 == NextX(x) && y1 == NextY(x, y) && r == Found(g, x, y) && cleared == Clear(g, r)
    ensures 0 <= x1 < SIZE && 0 <= y1 <= SIZE && IsGrid(cleared)
    ensures ScanFrom(g, x, y) == [r] + ScanFrom(cleared, x1, y1)
  {
  }

  lemma Regroup(found: seq<Rect>, r: Rect, rest: seq<Rect>)
    ensures found + [r] + rest == found + ([r] + rest)
  {
  }

  /** The scan at a clear tile goes straight on to the next one. */
  lemma ScanAtClear(g: Grid, x: int, y: int, x1: int, y1: int)
    requires IsGrid(g) && 0 <= x < SIZE && 0 <= y < SIZE && !g[y][x]
    requires x1 == NextX(x) && y1 == NextY(x, y)
    ensures ScanFrom(g, x, y) == ScanFrom(g, x1, y1)
  {
  }

  /**
   * One tile of the scan: at a set tile the rectangle found there is cut out and added to
   * `found`; either way the scan from the next tile finishes the one from this tile.
   */
  method ScanTile(rgn: array2<bool>, ghost cur: Grid, curX: int, curY: int, found: seq<Rect>)
    returns (found': seq<Rect>, ghost cur': Grid)
    requires Mirrors(rgn, cur) && 0 <= curX < SIZE && 0 <= curY < SIZE
    modifies rgn
    ensures Mirrors(rgn, cur')
    ensures found' + ScanFrom(cur', NextX(curX), NextY(curX, curY)) == found + ScanFrom(cur, curX, curY)
  {
    ghost var x1, y1 := NextX(curX), NextY(curX, curY);
    if rgn[curY, curX] == true {
      var w := RunWidth(rgn, cur, curX, curY);
      var h := SpanHeight(rgn, cur, curX, w, curY);
      var r := Rect(curX, curY, w, h);
      cur' := Clear(cur, r);
      ScanAtSet(cur, curX, curY, x1, y1, r, cur');
      ClearRect(rgn, cur, r);
      Regroup(found, r, ScanFrom(cur', x1, y1));
      found' := found + [r];
    } else {
      ScanAtClear(cur, curX, curY, x1, y1);
      found', cur' := found, cur;
    }
  }

  /**
   * The second half of `decodeTiles`: every set tile, in row-major order, starts a rectangle
   * whose tiles are then cleared. The rectangles come out as `Decompose` lists them.
   */
  method CutRectangles(rgn: array2<bool>, ghost g: Grid) returns (found: seq<Rect>)
    requires Mirrors(rgn, g)
    modifies rgn
    ensures found == Decompose(g)
  {
    var curX, curY := 0, 0;
    found := [];
    ghost var cur := g;
    while curY < SIZE
      invariant 0 <= curX < SIZE && 0 <= curY <= SIZE && Mirrors(rgn, cur)
      invariant found + ScanFrom(cur, curX, curY) == ScanFrom(g, 0, 0)
      decreases SIZE - curY, SIZE - curX
    {
      found, cur := ScanTile(rgn, cur, curX, curY, found);
      curX := curX + 1;
      if curX == SIZE {
        curX := 0;
        curY := curY + 1;
      }
    }
  }

  // ---------------------------------------------------------------------------
  // Rasterising the rectangles (getCompressedRGN)
  // ---------------------------------------------------------------------------

  /** The tiles of the first `i + 1` rectangles: those of the first `i` and those of rectangle `i`. */
  lemma CoveredPrefix(rs: seq<Rect>, i: int)
    requires 0 <= i < |rs|
    ensures forall x, y :: Covered(rs[..i + 1], x, y) <==> Covered(rs[..i], x, y) || InRect(rs[i], x, y)
  {
    forall x, y
      ensures Covered(rs[..i + 1], x, y) <==> Covered(rs[..i], x, y) || InRect(rs[i], x, y)
    {
      if Covered(rs[..i + 1], x, y) && !InRect(rs[i], x, y) {
        var j :| 0 <= j < i + 1 && InRect(rs[..i + 1][j], x, y);
        assert rs[..i][j] == rs[..i + 1][j];
      }
      if Covered(rs[..i], x, y) {
        var j :| 0 <= j < i && InRect(rs[..i][j], x, y);
        assert rs[..i + 1][j] == rs[..i][j];
      }
      if InRect(rs[i], x, y) {
        assert rs[..i + 1][i] == rs[i];
      }
    }
  }

  /** The nested loops that set the tiles of one rectangle. */
  method FillRect(rgn: array2<bool>, r: Rect)
    requires rgn.Length0 == SIZE && rgn.Length1 == SIZE && Drawable(r)
    modifies rgn
    ensures forall yy, xx :: 0 <= yy < SIZE && 0 <= xx < SIZE ==> rgn[yy, xx] == (old(rgn[yy, xx]) || InRect(r, xx, yy))
  {
    var endX, endY := EndX(r), EndY(r);
    var yPos := r.y;
    while yPos < endY
      invariant r.y <= yPos && (yPos <= endY || yPos == r.y)
      invariant forall yy, xx :: 0 <= yy < SIZE && 0 <= xx < SIZE ==>
                  rgn[yy, xx] == (old(rgn[yy, xx]) || (InRect(r, xx, yy) && yy < yPos))
      decreases endY - yPos
    {
      var xPos := r.x;
      while xPos < endX
        invariant r.x <= xPos && (xPos <= endX || xPos == r.x)
        invariant forall yy, xx :: 0 <= yy < SIZE && 0 <= xx < SIZE ==>
                    rgn[yy, xx] == (old(rgn[yy, xx]) || (InRect(r, xx, yy) && (yy < yPos || (yy == yPos && xx < xPos))))
      {
        rgn[yPos, xPos] := true;
        xPos := xPos + 1;
      }
      yPos := yPos + 1;
    }
  }

  /**
   * The grid of `getCompressedRGN`: all clear, then the tiles of every rectangle set. `ok`
   * is false where Java throws, at the first rectangle reaching outside the grid.
   */
  method Rasterize(rects: seq<Rect>) returns (rgn: array2<bool>, ok: bool)
    ensures fresh(rgn)
    ensures ok <==> forall i :: 0 <= i < |rects| ==> Drawable(rects[i])
    ensures ok ==> Mirrors(rgn, Raster(rects))
  {
    rgn := new bool[SIZE, SIZE]((_, _) => false);
    var i := 0;
    while i < |rects|
      invariant 0 <= i <= |rects| && rgn.Length0 == SIZE && rgn.Length1 == SIZE
      invariant forall j :: 0 <= j < i ==> Drawable(rects[j])
      invariant forall yy, xx :: 0 <= yy < SIZE && 0 <= xx < SIZE ==> rgn[yy, xx] == Covered(rects[..i], xx, yy)
    {
      var r := rects[i];
      if !Drawable(r) {
        return rgn, false;       // `rgn[yPos][xPos]` outside the grid
      }
      FillRect(rgn, r);
      CoveredPrefix(rects, i);
      i := i + 1;
    }
    assert rects[..i] == rects;
    ok := true;
  }

  // ---------------------------------------------------------------------------
  // The row loop of getCompressedRGN
  // ---------------------------------------------------------------------------

  /** The check for an empty row. */
  method RowIsEmpty(rgn: array2<bool>, ghost g: Grid, curRow: int) returns (emptyRow: bool)
    requires Mirrors(rgn, g) && 0 <= curRow < SIZE
    ensures emptyRow == IsBlank(g[curRow])
  {
    var curY := 0;
    while curY < SIZE
      invariant 0 <= curY <= SIZE
      invariant forall i :: 0 <= i < curY ==> !g[curRow][i]
    {
      if rgn[curRow, curY] {
        return false;
      }
      curY := curY + 1;
    }
    return true;
  }

  /** The instructions of a row from `x` on: the run starting at `x`, then the rest. */
  lemma RowRunsAt(row: seq<bool>, x: nat, e: nat)
    requires x < |row| <= SIZE && e == RunEnd(row, x)
    ensures Flatten(RowRuns(row, x)) == EncodeRun(e - x, row[x]) + Flatten(RowRuns(row, e))
  {
    var op := if row[x] then PresentRun(e - x) else EmptyRun(e - x);
    var rest := RowRuns(row, e);
    RowRunsCons(row, x, e);
    assert OpBytes(op) == EncodeRun(e - x, row[x]);
    FlattenCons(op, rest);
  }

  /** The bytes of `[op] + rest`: those of `op`, then those of `rest`. */
  lemma FlattenCons(op: Op, rest: seq<Op>)
    requires ValidOp(op) && AllValid(rest)
    ensures AllValid([op] + rest) && Flatten([op] + rest) == OpBytes(op) + Flatten(rest)
  {
    assert ([op] + rest)[1..] == rest;
  }

  lemma Reassociate(a: seq<byte>, b: seq<byte>, c: seq<byte>)
    ensures a + b + c == a + (b + c)
  {
  }

  /** The counting loop of `encodedRow`: how many tiles from `start` on equal the one at `start`. */
  method RunLength(rgn: array2<bool>, ghost g: Grid, curRow: int, start: int) returns (count: int)
    requires Mirrors(rgn, g) && 0 <= curRow < SIZE && 0 <= start < SIZE
    ensures count == RunEnd(g[curRow], start) - start
  {
    ghost var row := g[curRow];
    var encodingTiles := rgn[curRow, start];
    count := 0;
    var curY := start;
    while curY < SIZE
      invariant start <= curY <= SIZE && count == curY - start
      invariant forall i :: start <= i < curY ==> row[i] == encodingTiles
    {
      if rgn[curRow, curY] != encodingTiles {
        break;
      }
      count := count + 1;
      curY := curY + 1;
    }
    RunEndIs(row, start, curY);
  }

  /** `encodedRow`: the runs of a non-blank row, each as long as the tiles equal to its first. */
  method EncodeRow(rgn: array2<bool>, ghost g: Grid, curRow: int) returns (encodedRow: seq<byte>)
    requires Mirrors(rgn, g) && 0 <= curRow < SIZE
    ensures encodedRow == RowBytes(g[curRow])
  {
    ghost var row := g[curRow];
    encodedRow := [];
    var curY := 0;
    while curY < SIZE
      invariant 0 <= curY <= SIZE
      invariant encodedRow + Flatten(RowRuns(row, curY)) == RowBytes(row)
      decreases SIZE - curY
    {
      var encodingTiles := rgn[curRow, curY];
      var count := RunLength(rgn, g, curRow, curY);
      var run := EncodeRun(count, encodingTiles);
      var next := curY + count;
      assert encodingTiles == row[curY] && next == RunEnd(row, curY);
      RowRunsStep(encodedRow, row, curY, next, run);
      encodedRow := encodedRow + run;
      curY := next;
    }
  }

  /** One turn of the `encodedRow` loop keeps the bytes written so far a prefix of the row's. */
  lemma RowRunsStep(prefix: seq<byte>, row: seq<bool>, x: nat, e: nat, run: seq<byte>)
    requires x < |row| <= SIZE && e == RunEnd(row, x) && run == EncodeRun(e - x, row[x])
    requires prefix + Flatten(RowRuns(row, x)) == RowBytes(row)
    ensures (prefix + run) + Flatten(RowRuns(row, e)) == RowBytes(row)
  {
    RowRunsAt(row, x, e);
    Reassociate(prefix, run, Flatten(RowRuns(row, e)));
  }

  /** The comparison with the last written row: `null`, a different size or a different byte. */
  method SameAsLastRow(lastRow: Option<seq<byte>>, encodedRow: seq<byte>) returns (same: bool)
    ensures same <==> lastRow == Some(encodedRow)
  {
    if lastRow.None? {
      return false;
    }
    var last := lastRow.value;
    if |last| != |encodedRow| {
      return false;
    }
    var v := 0;
    while v < |last|
      invariant 0 <= v <= |last|
      invariant last[..v] == encodedRow[..v]
    {
      if last[v] != encodedRow[v] {
        return false;
      }
      v := v + 1;
    }
    assert last == last[..v] && encodedRow == encodedRow[..v];
    return true;
  }

  /** The variables of the row loop hold the state `c`, whose instructions `bytes` spells out. */
  ghost predicate Holds(c: Compressor, bytes: seq<byte>, lastRow: Option<seq<byte>>, same: int, empty: int)
  {
    AllValid(c.out) && bytes == Flatten(c.out) && lastRow == c.lastRow && same == c.same && empty == c.empty
  }

  /** Writing one more instruction. */
  lemma FlattenSnoc(out: seq<Op>, op: Op)
    requires AllValid(out) && ValidOp(op)
    ensures AllValid(out + [op]) && Flatten(out + [op]) == Flatten(out) + OpBytes(op)
  {
    FlattenAppend(out, [op]);
    assert Flatten([op]) == OpBytes(op) + Flatten([op][1..]);
  }

  /** One turn of the row loop, for row `curRow`. */
  method CompressRowStep(rgn: array2<bool>, ghost g: Grid, curRow: int, ghost c: Compressor,
                         bytes: seq<byte>, lastRow: Option<seq<byte>>, lastRowSameCount: int, emptyRowCount: int)
    returns (bytes': seq<byte>, lastRow': Option<seq<byte>>, lastRowSameCount': int, emptyRowCount': int)
    requires Mirrors(rgn, g) && 0 <= curRow < SIZE && Bounded(c, curRow)
    requires Holds(c, bytes, lastRow, lastRowSameCount, emptyRowCount)
    ensures Holds(CompressRow(c, g[curRow], curRow, curRow == SIZE - 1), bytes', lastRow', lastRowSameCount', emptyRowCount')
  {
    var emptyRow := RowIsEmpty(rgn, g, curRow);
    if emptyRow {
      bytes', lastRow', lastRowSameCount', emptyRowCount' :=
        BlankRowStep(g[curRow], curRow, c, bytes, lastRow, lastRowSameCount, emptyRowCount);
    } else {
      bytes', lastRow', lastRowSameCount', emptyRowCount' :=
        CodedRowStep(rgn, g, curRow, c, bytes, lastRow, lastRowSameCount, emptyRowCount);
    }
  }

  /** An empty row: the pending repeat count is written and the row counted as empty. */
  method BlankRowStep(ghost row: seq<bool>, curRow: int, ghost c: Compressor,
                      bytes: seq<byte>, lastRow: Option<seq<byte>>, lastRowSameCount: int, emptyRowCount: int)
    returns (bytes': seq<byte>, lastRow': Option<seq<byte>>, lastRowSameCount': int, emptyRowCount': int)
    requires |row| == SIZE && IsBlank(row) && 0 <= curRow < SIZE && Bounded(c, curRow)
    requires Holds(c, bytes, lastRow, lastRowSameCount, emptyRowCount)
    ensures Holds(CompressRow(c, row, curRow, curRow == SIZE - 1), bytes', lastRow', lastRowSameCount', emptyRowCount')
  {
    ghost var out := c.out;
    bytes', lastRowSameCount', emptyRowCount' := bytes, lastRowSameCount, emptyRowCount;
    emptyRowCount' := emptyRowCount' + 1;
    if lastRowSameCount' > 0 {
      FlattenSnoc(out, RepeatRow(lastRowSameCount'));
      out := out + [RepeatRow(lastRowSameCount')];
      bytes' := bytes' + EncodeRepeatLastRow(lastRowSameCount');
    }
    lastRow' := None;
    lastRowSameCount' := 0;
    if curRow == SIZE - 1 {
      FlattenSnoc(out, EmptyRows(emptyRowCount'));
      out := out + [EmptyRows(emptyRowCount')];
      bytes' := bytes' + EncodeEmptyRows(emptyRowCount');
    }
    assert CompressRow(c, row, curRow, curRow == SIZE - 1) == Compressor(out, None, 0, emptyRowCount');
  }

  /**
   * A row with a set tile: pending empty rows are written, then the row is either counted
   * as a repeat of the last written row or written out, after any pending repeat count.
   */
  method CodedRowStep(rgn: array2<bool>, ghost g: Grid, curRow: int, ghost c: Compressor,
                      bytes: seq<byte>, lastRow: Option<seq<byte>>, lastRowSameCount: int, emptyRowCount: int)
    returns (bytes': seq<byte>, lastRow': Option<seq<byte>>, lastRowSameCount': int, emptyRowCount': int)
    requires Mirrors(rgn, g) && 0 <= curRow < SIZE && !IsBlank(g[curRow]) && Bounded(c, curRow)
    requires Holds(c, bytes, lastRow, lastRowSameCount, emptyRowCount)
    ensures Holds(CompressRow(c, g[curRow], curRow, curRow == SIZE - 1), bytes', lastRow', lastRowSameCount', emptyRowCount')
  {
    ghost var out := c.out;
    bytes', lastRow', lastRowSameCount', emptyRowCount' := bytes, lastRow, lastRowSameCount, emptyRowCount;
    if emptyRowCount' > 0 {
      FlattenSnoc(out, EmptyRows(emptyRowCount'));
      out := out + [EmptyRows(emptyRowCount')];
      bytes' := bytes' + EncodeEmptyRows(emptyRowCount');
      emptyRowCount' := 0;
    }
    var encodedRow := EncodeRow(rgn, g, curRow);
    var sameAsLastRow := SameAsLastRow(lastRow', encodedRow);
    if sameAsLastRow {
      lastRowSameCount' := lastRowSameCount' + 1;
      if curRow == SIZE - 1 {
        FlattenSnoc(out, RepeatRow(lastRowSameCount'));
        out := out + [RepeatRow(lastRowSameCount')];
        bytes' := bytes' + EncodeRepeatLastRow(lastRowSameCount');
      }
    } else {
      if lastRowSameCount' != 0 {
        FlattenSnoc(out, RepeatRow(lastRowSameCount'));
        out := out + [RepeatRow(lastRowSameCount')];
        bytes' := bytes' + EncodeRepeatLastRow(lastRowSameCount');
        lastRowSameCount' := 0;
      }
      FlattenAppend(out, RowRuns(g[curRow], 0));
      out := out + RowRuns(g[curRow], 0);
      bytes' := bytes' + encodedRow;
      lastRow' := Some(encodedRow);
    }
    assert CompressRow(c, g[curRow], curRow, curRow == SIZE - 1) == Compressor(out, lastRow', lastRowSameCount', 0);
  }

  /** The row loop of `getCompressedRGN`: the bytes `Compress` describes. */
  method CompressGrid(rgn: array2<bool>, ghost g: Grid) returns (bytes: seq<byte>)
    requires Mirrors(rgn, g)
    ensures bytes == Compress(g)
  {
    bytes := [];
    var lastRow: Option<seq<byte>> := None;
    var lastRowSameCount, emptyRowCount := 0, 0;
    for curRow := 0 to SIZE
      invariant Holds(CompressRows(g, curRow), bytes, lastRow, lastRowSameCount, emptyRowCount)
    {
      bytes, lastRow, lastRowSameCount, emptyRowCount :=
        CompressRowStep(rgn, g, curRow, CompressRows(g, curRow), bytes, lastRow, lastRowSameCount, emptyRowCount);
    }
  }
}
