/**
 * The compressing half of the tile codec: `getCompressedRGN` encodes the grid row by row.
 * A blank row is not written at once but counted, a row whose encoding equals the last
 * written row's is counted as a repeat, and any other row is written as its runs; pending
 * counts are written when a different kind of row comes along or at the last row.
 */
module Compression {
  import opened JavaInts
  import opened ByteArrays
  import opened Grids
  import opened Rle
  import opened TileDecoding

  // ---------------------------------------------------------------------------
  // Encoding one row
  // ---------------------------------------------------------------------------

  /** The run instructions for tiles `x..` of a row: maximal runs, alternating empty and present. */
  function RowRuns(row: seq<bool>, x: nat): (ops: seq<Op>)
    requires x <= |row| <= SIZE
    ensures AllValid(ops)
    ensures |Flatten(ops)| <= 2 * (|row| - x)
    decreases |row| - x
  {
    if x == |row| then []
    else
      var e := RunEnd(row, x);
      var op := if row[x] then PresentRun(e - x) else EmptyRun(e - x);
      var rest := RowRuns(row, e);
      assert Flatten([op] + rest) == OpBytes(op) + Flatten(rest) by {
        assert ([op] + rest)[1..] == rest;
      }
      [op] + rest
  }

  /** The instructions of a row from `x` on: the run starting at `x`, then those from its end. */
  lemma RowRunsCons(row: seq<bool>, x: nat, e: nat)
    requires x < |row| <= SIZE && e == RunEnd(row, x)
    ensures RowRuns(row, x) == [if row[x] then PresentRun(e - x) else EmptyRun(e - x)] + RowRuns(row, e)
  {
    var op := if row[x] then PresentRun(e - x) else EmptyRun(e - x);
    assert x != |row| && RowRuns(row, x) == [op] + RowRuns(row, e);
  }

  /** `encodedRow`: the bytes of a whole row. */
  function RowBytes(row: seq<bool>): (r: seq<byte>)
    requires |row| <= SIZE
    ensures |r| <= 2 * |row|
  {
    Flatten(RowRuns(row, 0))
  }

  // ---------------------------------------------------------------------------
  // The row loop
  // ---------------------------------------------------------------------------

  /**
   * The variables the row loop carries: the instructions written so far (`bytes`, as
   * instructions), the encoding of the last written row (`lastRow`, null after a blank row),
   * `lastRowSameCount` and `emptyRowCount`.
   */
  datatype Compressor = Compressor(out: seq<Op>, lastRow: Option<seq<byte>>, same: int, empty: int)

  const Start := Compressor([], None, 0, 0)

  /** The counters of a state are within what `curRow` rows can have produced. */
  predicate Bounded(c: Compressor, rows: int)
  {
    AllValid(c.out) && 0 <= c.same && 0 <= c.empty && c.same + c.empty <= rows
  }

  /**
   * One turn of the row loop for row `curRow`; `last` says whether it is row 1023, where
   * the pending count is written out.
   */
  function CompressRow(c: Compressor, row: seq<bool>, curRow: int, last: bool): (r: Compressor)
    requires |row| == SIZE && 0 <= curRow < SIZE && Bounded(c, curRow)
    ensures Bounded(r, curRow + 1)
    ensures IsBlank(row) ==> r.lastRow == None && r.same == 0 && r.empty == c.empty + 1
    ensures !IsBlank(row) ==> r.empty == 0 && r.lastRow == Some(RowBytes(row))
    ensures r.same > 0 ==> r.lastRow.Some?
  {
    if IsBlank(row) then
      var out1 := if c.same > 0 then c.out + [RepeatRow(c.same)] else c.out;
      var out2 := if last then out1 + [EmptyRows(c.empty + 1)] else out1;
      Compressor(out2, None, 0, c.empty + 1)
    else
      var out1 := if c.empty > 0 then c.out + [EmptyRows(c.empty)] else c.out;
      var code := RowBytes(row);
      if c.lastRow == Some(code) then
        var out2 := if last then out1 + [RepeatRow(c.same + 1)] else out1;
        Compressor(out2, c.lastRow, c.same + 1, 0)
      else
        var out2 := if c.same != 0 then out1 + [RepeatRow(c.same)] else out1;
        Compressor(out2 + RowRuns(row, 0), Some(code), 0, 0)
  }

  /** The loop state after rows `0..k - 1`. */
  function CompressRows(g: Grid, k: nat): (c: Compressor)
    requires IsGrid(g) && k <= SIZE
    ensures Bounded(c, k)
    decreases k
  {
    if k == 0 then Start
    else CompressRow(CompressRows(g, k - 1), g[k - 1], k - 1, k == SIZE)
  }

  /** `getCompressedRGN` of a grid, as instructions. */
  function CompressOps(g: Grid): (ops: seq<Op>)
    requires IsGrid(g)
    ensures AllValid(ops)
  {
    CompressRows(g, SIZE).out
  }

  /**
   * `getCompressedRGN` of a grid: the bytes of its instructions. Compression is lossless:
   * `decodeTiles` run over them reports no error, ends at row 1024 and rebuilds the grid tile
   * for tile; and there are at most 2100 bytes per row, so their length fits an `int`.
   */
  function Compress(g: Grid): (bs: seq<byte>)
    requires IsGrid(g)
    ensures |bs| <= 2100 * SIZE + 2
    ensures DecodeGrid(bs, 0, |bs|) == Tiles(g)
  {
    var ops := CompressOps(g);
    CompressOpsDecode(g);
    var bs := Flatten(ops);
    assert bs[0..|bs|] == bs;
    DecodeFlattened(bs, 0, bs, ops, g);
    bs
  }

  // ---------------------------------------------------------------------------
  // Decoding the output
  // ---------------------------------------------------------------------------

  /** The grid after its first `d` rows have been decoded: those rows of `g`, the rest blank. */
  function Partial(g: Grid, d: int): (p: Grid)
    requires IsGrid(g)
    ensures IsGrid(p)
    ensures forall y :: 0 <= y < SIZE ==> p[y] == if y < d then g[y] else BlankRow()
  {
    var p := seq(SIZE, y requires 0 <= y < SIZE => if y < d then g[y] else BlankRow());
    assert forall y :: 0 <= y < SIZE ==> p[y] == if y < d then g[y] else BlankRow();
    assert forall y :: 0 <= y < SIZE ==> |p[y]| == SIZE;
    p
  }

  /** The decoder at the start of row `d`, with rows `0..d - 1` of `g` rebuilt. */
  function RowsDone(g: Grid, d: int): (st: TileState)
    requires IsGrid(g) && 0 <= d <= SIZE
    ensures ValidState(st)
  {
    TileState(Partial(g, d), 0, d)
  }

  lemma BlankIsBlankRow(row: seq<bool>)
    requires |row| == SIZE && IsBlank(row)
    ensures row == BlankRow()
  {
  }

  /** Skipping blank rows of `g` keeps the decoder in step with `g`. */
  lemma DecodeEmptyRows(g: Grid, d: int, n: int, e: int)
    requires IsGrid(g) && 0 <= d && 1 <= n && e == d + n <= SIZE
    requires forall y :: d <= y < e ==> IsBlank(g[y])
    ensures ApplyOp(RowsDone(g, d), EmptyRows(n)) == Next(RowsDone(g, e))
  {
    forall y | 0 <= y < SIZE
      ensures Partial(g, d)[y] == Partial(g, e)[y]
    {
      if d <= y < e {
        BlankIsBlankRow(g[y]);
      }
    }
    assert Partial(g, d) == Partial(g, e);
  }

  /** Repeating row `d - 1` over rows of `g` that equal it keeps the decoder in step with `g`. */
  lemma DecodeRepeat(g: Grid, d: int, n: int, e: int)
    requires IsGrid(g) && 1 <= d && 1 <= n && e == d + n <= SIZE
    requires forall y :: d <= y < e ==> g[y] == g[d - 1]
    ensures ApplyOp(RowsDone(g, d), RepeatRow(n)) == Next(RowsDone(g, e))
  {
    var p := Partial(g, d);
    var copied := CopyRows(p, d, e, d - 1);
    assert copied == Partial(g, e) by {
      forall y | 0 <= y < SIZE
        ensures copied[y] == Partial(g, e)[y]
      {
      }
    }
  }

  /** The decoder in row `d` at column `x`, with tiles `0..x - 1` of that row rebuilt. */
  predicate InRow(g: Grid, d: int, x: int, st: TileState)
    requires IsGrid(g)
  {
    && 0 <= d < SIZE && 0 <= x < SIZE && st.curX == x && st.curY == d && IsGrid(st.grid)
    && (forall y :: 0 <= y < SIZE && y != d ==> st.grid[y] == Partial(g, d)[y])
    && (forall i :: 0 <= i < SIZE ==> st.grid[d][i] == (i < x && g[d][i]))
  }

  /** A row's grid cells, once all of them agree with `g`, complete row `d`. */
  lemma RowComplete(g: Grid, d: int, grid: Grid)
    requires IsGrid(g) && IsGrid(grid) && 0 <= d < SIZE
    requires forall y :: 0 <= y < SIZE && y != d ==> grid[y] == Partial(g, d)[y]
    requires forall i :: 0 <= i < SIZE ==> grid[d][i] == g[d][i]
    ensures grid == Partial(g, d + 1)
  {
    assert grid[d] == g[d];
    var d1 := d + 1;
    forall y | 0 <= y < SIZE
      ensures grid[y] == Partial(g, d1)[y]
    {
    }
  }

  /** One run instruction of row `d`, from column `x` to the end of the run. */
  lemma DecodeOneRun(g: Grid, d: int, x: int, st: TileState)
    requires IsGrid(g) && InRow(g, d, x, st)
    ensures var e := RunEnd(g[d], x);
            var r := ApplyOp(st, if g[d][x] then PresentRun(e - x) else EmptyRun(e - x));
            && r.Next?
            && (e == SIZE ==> r.st == RowsDone(g, d + 1))
            && (e < SIZE ==> InRow(g, d, e, r.st))
  {
    var row := g[d];
    var e := RunEnd(row, x);
    if row[x] {
      var newRow := SetRun(st.grid[d], x, e);
      var grid := st.grid[d := newRow];
      assert forall i :: 0 <= i < SIZE ==> grid[d][i] == (i < e && row[i]);
      if e == SIZE {
        RowComplete(g, d, grid);
      }
    } else {
      assert forall i :: 0 <= i < SIZE ==> st.grid[d][i] == (i < e && row[i]);
      if e == SIZE {
        RowComplete(g, d, st.grid);
      }
    }
  }

  /** The runs of row `d` from column `x` finish that row and move to the start of the next. */
  lemma {:induction false} DecodeRowRuns(g: Grid, d: int, x: int, st: TileState)
    requires IsGrid(g) && InRow(g, d, x, st)
    ensures ApplyAll(RowRuns(g[d], x), st) == Next(RowsDone(g, d + 1))
    decreases SIZE - x
  {
    var row := g[d];
    var ops := RowRuns(row, x);
    var e := RunEnd(row, x);
    ApplyAllCons(ops, st);
    DecodeOneRun(g, d, x, st);
    var r := ApplyOp(st, ops[0]);
    if e < SIZE {
      DecodeRowRuns(g, d, e, r.st);
    }
  }

  /** A whole row, written at the start of row `d`. */
  lemma DecodeRow(g: Grid, d: int, d1: int)
    requires IsGrid(g) && 0 <= d < SIZE && d1 == d + 1
    ensures ApplyAll(RowRuns(g[d], 0), RowsDone(g, d)) == Next(RowsDone(g, d1))
  {
    DecodeRowRuns(g, d, 0, RowsDone(g, d));
  }

  // ---------------------------------------------------------------------------
  // The loop invariant
  // ---------------------------------------------------------------------------

  /** The instructions the pending counters stand for. */
  function Flush(c: Compressor): (ops: seq<Op>)
  {
    if c.same > 0 then [RepeatRow(c.same)] else if c.empty > 0 then [EmptyRows(c.empty)] else []
  }

  /**
   * What the row loop maintains after `k` rows: the output decodes to the first
   * `d = k - same - empty` rows; pending blank rows are blank in `g`; pending repeats equal
   * the last written row, whose encoding `lastRow` holds.
   */
  predicate Inv(g: Grid, k: int, c: Compressor)
    requires IsGrid(g)
  {
    var d := k - c.same - c.empty;
    && 0 <= k <= SIZE && Bounded(c, k)
    && |Flatten(c.out)| <= 2100 * k
    && ApplyAll(c.out, Initial) == Next(RowsDone(g, d))
    && (c.empty > 0 ==> c.same == 0 && c.lastRow == None && forall y :: d <= y < k ==> IsBlank(g[y]))
    && (c.lastRow == None ==> c.same == 0)
    && (c.lastRow.Some? ==>
          && c.empty == 0 && 1 <= d && c.lastRow.value == RowBytes(g[d - 1])
          && forall y :: d <= y < k ==> g[y] == g[d - 1])
  }

  lemma InvStart(g: Grid)
    requires IsGrid(g)
    ensures Inv(g, 0, Start)
  {
    assert Partial(g, 0) == BlankGrid();
  }

  /** Two rows with the same encoding are the same row: the encoding decodes to the row. */
  lemma RowBytesInjective(a: seq<bool>, b: seq<bool>)
    requires |a| == SIZE && |b| == SIZE && RowBytes(a) == RowBytes(b)
    ensures a == b
  {
    var ga := BlankGrid()[0 := a];
    var gb := BlankGrid()[0 := b];
    assert Partial(ga, 0) == Partial(gb, 0);
    var data := RowBytes(a);
    DecodeRow(ga, 0, 1);
    DecodeRow(gb, 0, 1);
    RunFlatten(data, 0, |data|, RowRuns(a, 0), RowsDone(ga, 0));
    RunFlatten(data, 0, |data|, RowRuns(b, 0), RowsDone(gb, 0));
    assert Partial(ga, 1)[0] == a && Partial(gb, 1)[0] == b;
  }

  /** `out + more` decodes as `out` followed by `more`. */
  lemma DecodeAppend(out: seq<Op>, more: seq<Op>, st: TileState)
    requires AllValid(out) && AllValid(more)
    requires ApplyAll(out, Initial) == Next(st)
    ensures AllValid(out + more)
    ensures ApplyAll(out + more, Initial) == ApplyAll(more, st)
  {
    ApplyAllAppend(out, more, Initial);
  }

  lemma ApplyOne(op: Op, st: TileState)
    requires ValidState(st) && ValidOp(op)
    ensures AllValid([op]) && ApplyAll([op], st) == ApplyOp(st, op)
  {
    assert [op][1..] == [];
  }

  lemma FlattenOne(op: Op)
    requires ValidOp(op)
    ensures AllValid([op]) && Flatten([op]) == OpBytes(op)
  {
    assert [op][1..] == [];
  }

  /** Writing one instruction that takes the decoder from row `d` to row `e`. */
  lemma EmitOne(g: Grid, out: seq<Op>, op: Op, d: int, e: int)
    requires IsGrid(g) && AllValid(out) && ValidOp(op) && 0 <= d <= e <= SIZE
    requires ApplyAll(out, Initial) == Next(RowsDone(g, d))
    requires ApplyOp(RowsDone(g, d), op) == Next(RowsDone(g, e))
    ensures AllValid(out + [op])
    ensures ApplyAll(out + [op], Initial) == Next(RowsDone(g, e))
    ensures |Flatten(out + [op])| <= |Flatten(out)| + 2
  {
    ApplyOne(op, RowsDone(g, d));
    DecodeAppend(out, [op], RowsDone(g, d));
    FlattenOne(op);
    FlattenAppend(out, [op]);
  }

  /** Writing a whole row `d`. */
  lemma EmitRow(g: Grid, out: seq<Op>, d: int, d1: int)
    requires IsGrid(g) && AllValid(out) && 0 <= d < SIZE && d1 == d + 1
    requires ApplyAll(out, Initial) == Next(RowsDone(g, d))
    ensures AllValid(out + RowRuns(g[d], 0))
    ensures ApplyAll(out + RowRuns(g[d], 0), Initial) == Next(RowsDone(g, d1))
    ensures |Flatten(out + RowRuns(g[d], 0))| <= |Flatten(out)| + 2048
  {
    DecodeRow(g, d, d1);
    DecodeAppend(out, RowRuns(g[d], 0), RowsDone(g, d));
    FlattenAppend(out, RowRuns(g[d], 0));
  }

  /** A blank row: the pending repeat (if any) is written, and the blank row counted. */
  lemma InvStepBlank(g: Grid, k: int, k1: int, c: Compressor, r: Compressor)
    requires IsGrid(g) && 0 <= k < SIZE && k1 == k + 1 && Inv(g, k, c) && IsBlank(g[k])
    requires r == Compressor(if c.same > 0 then c.out + [RepeatRow(c.same)] else c.out, None, 0, c.empty + 1)
    ensures Inv(g, k1, r)
  {
    if c.same > 0 {
      var d := k - c.same;
      DecodeRepeat(g, d, c.same, k);
      EmitOne(g, c.out, RepeatRow(c.same), d, k);
      BlankRowsExtend(g, k, k, k1);
      InvPending(g, k1, r, k);
    } else {
      BlankRowsExtend(g, k - c.empty, k, k1);
      InvPending(g, k1, r, k - c.empty);
    }
  }

  /** Blank rows `d..k - 1` and a blank row `k` make blank rows `d..k`. */
  lemma BlankRowsExtend(g: Grid, d: int, k: int, k1: int)
    requires IsGrid(g) && 0 <= d <= k < SIZE && k1 == k + 1 && IsBlank(g[k])
    requires forall y :: d <= y < k ==> IsBlank(g[y])
    ensures forall y :: d <= y < k1 ==> IsBlank(g[y])
  {
    forall y | d <= y < k1
      ensures IsBlank(g[y])
    {
      if y == k {
        assert g[y] == g[k];
      }
    }
  }

  /** Rows `d..k - 1` and row `k` equal to row `d - 1` make rows `d..k` equal to it. */
  lemma SameRowsExtend(g: Grid, d: int, k: int, k1: int)
    requires IsGrid(g) && 1 <= d <= k < SIZE && k1 == k + 1 && g[k] == g[d - 1]
    requires forall y :: d <= y < k ==> g[y] == g[d - 1]
    ensures forall y :: d <= y < k1 ==> g[y] == g[d - 1]
  {
  }

  /** A row equal to the last written one: one more pending repeat. */
  lemma InvStepSame(g: Grid, k: int, k1: int, c: Compressor, r: Compressor)
    requires IsGrid(g) && 0 <= k < SIZE && k1 == k + 1 && Inv(g, k, c) && !IsBlank(g[k])
    requires c.lastRow == Some(RowBytes(g[k]))
    requires r == Compressor(c.out, c.lastRow, c.same + 1, 0)
    ensures Inv(g, k1, r)
  {
    var d := k - c.same - c.empty;
    assert c.empty == 0 && 1 <= d;
    assert c.lastRow.value == RowBytes(g[d - 1]);
    RowBytesInjective(g[k], g[d - 1]);
    SameRowsExtend(g, d, k, k1);
    InvRepeat(g, k1, r, d);
  }

  /** A row that is not blank and differs from the last written one: it is written. */
  lemma InvStepNew(g: Grid, k: int, k1: int, c: Compressor, r: Compressor)
    requires IsGrid(g) && 0 <= k < SIZE && k1 == k + 1 && Inv(g, k, c)
    requires var out1 := if c.empty > 0 then c.out + [EmptyRows(c.empty)] else c.out;
             var out2 := if c.same != 0 then out1 + [RepeatRow(c.same)] else out1;
             r == Compressor(out2 + RowRuns(g[k], 0), Some(RowBytes(g[k])), 0, 0)
    ensures Inv(g, k1, r)
  {
    WriteEmptyRows(g, k, c);
    var out1 := if c.empty > 0 then c.out + [EmptyRows(c.empty)] else c.out;
    WriteNewRow(g, k, k1, c.same, k - c.same, out1);
    InvWritten(g, k, k1, r);
  }

  /** The invariant with pending blank rows `d..k - 1`. */
  lemma InvPending(g: Grid, k: int, c: Compressor, d: int)
    requires IsGrid(g) && 0 <= d && 0 < c.empty && d == k - c.empty && k <= SIZE
    requires c.same == 0 && c.lastRow == None && Bounded(c, k) && |Flatten(c.out)| <= 2100 * k
    requires ApplyAll(c.out, Initial) == Next(RowsDone(g, d))
    requires forall y :: d <= y < k ==> IsBlank(g[y])
    ensures Inv(g, k, c)
  {
  }

  /** Before a row that is not blank, the pending blank rows are written. */
  lemma WriteEmptyRows(g: Grid, k: int, c: Compressor)
    requires IsGrid(g) && 0 <= k < SIZE && Inv(g, k, c)
    ensures var out1 := if c.empty > 0 then c.out + [EmptyRows(c.empty)] else c.out;
            && AllValid(out1)
            && ApplyAll(out1, Initial) == Next(RowsDone(g, k - c.same))
            && |Flatten(out1)| <= |Flatten(c.out)| + 2
  {
    if c.empty > 0 {
      var d := k - c.empty;
      DecodeEmptyRows(g, d, c.empty, k);
      EmitOne(g, c.out, EmptyRows(c.empty), d, k);
    }
  }

  /** A row that is not blank and differs from the last one: the pending repeat, then the row. */
  lemma WriteNewRow(g: Grid, k: int, k1: int, same: int, d: int, out1: seq<Op>)
    requires IsGrid(g) && 0 <= k < SIZE && k1 == k + 1 && 0 <= same <= k && d == k - same
    requires same > 0 ==> 1 <= d && forall y :: d <= y < k ==> g[y] == g[d - 1]
    requires AllValid(out1) && ApplyAll(out1, Initial) == Next(RowsDone(g, d))
    ensures var out2 := if same != 0 then out1 + [RepeatRow(same)] else out1;
            && AllValid(out2 + RowRuns(g[k], 0))
            && ApplyAll(out2 + RowRuns(g[k], 0), Initial) == Next(RowsDone(g, k1))
            && |Flatten(out2 + RowRuns(g[k], 0))| <= |Flatten(out1)| + 2050
  {
    var out2 := if same != 0 then out1 + [RepeatRow(same)] else out1;
    if same != 0 {
      DecodeRepeat(g, d, same, k);
      EmitOne(g, out1, RepeatRow(same), d, k);
    }
    EmitRow(g, out2, k, k1);
  }

  /** The invariant with a pending repeat of row `d - 1`. */
  lemma InvRepeat(g: Grid, k: int, c: Compressor, d: int)
    requires IsGrid(g) && 1 <= d && 0 < c.same && d == k - c.same && k <= SIZE
    requires c.empty == 0 && Bounded(c, k) && |Flatten(c.out)| <= 2100 * k
    requires ApplyAll(c.out, Initial) == Next(RowsDone(g, d))
    requires c.lastRow == Some(RowBytes(g[d - 1]))
    requires forall y :: d <= y < k ==> g[y] == g[d - 1]
    ensures Inv(g, k, c)
  {
  }

  /** The invariant right after row `k` was written. */
  lemma InvWritten(g: Grid, k: int, k1: int, c: Compressor)
    requires IsGrid(g) && 0 <= k < SIZE && k1 == k + 1
    requires c.same == 0 && c.empty == 0 && AllValid(c.out) && |Flatten(c.out)| <= 2100 * k1
    requires ApplyAll(c.out, Initial) == Next(RowsDone(g, k1))
    requires c.lastRow == Some(RowBytes(g[k]))
    ensures Inv(g, k1, c)
  {
    assert g[k1 - 1] == g[k];
  }

  /** The flush the last row performs is exactly the pending counters. */
  lemma LastRowFlushes(c: Compressor, row: seq<bool>)
    requires |row| == SIZE && Bounded(c, SIZE - 1)
    ensures CompressRow(c, row, SIZE - 1, true).out
            == CompressRow(c, row, SIZE - 1, false).out + Flush(CompressRow(c, row, SIZE - 1, false))
  {
  }

  /** Writing the pending counters brings the decoder to row `k`. */
  lemma FlushDecodes(g: Grid, k: int, c: Compressor)
    requires IsGrid(g) && Inv(g, k, c)
    ensures AllValid(c.out + Flush(c))
    ensures ApplyAll(c.out + Flush(c), Initial) == Next(RowsDone(g, k))
    ensures |Flatten(c.out + Flush(c))| <= |Flatten(c.out)| + 2
  {
    var d := k - c.same - c.empty;
    if c.same > 0 {
      DecodeRepeat(g, d, c.same, k);
      EmitOne(g, c.out, RepeatRow(c.same), d, k);
    } else if c.empty > 0 {
      DecodeEmptyRows(g, d, c.empty, k);
      EmitOne(g, c.out, EmptyRows(c.empty), d, k);
    } else {
      assert c.out + Flush(c) == c.out;
    }
  }

  /** One turn of the row loop keeps the invariant (rows before the last). */
  lemma InvStep(g: Grid, k: int, k1: int, c: Compressor)
    requires IsGrid(g) && 0 <= k < SIZE && k1 == k + 1 && Inv(g, k, c)
    ensures Inv(g, k1, CompressRow(c, g[k], k, false))
  {
    var r := CompressRow(c, g[k], k, false);
    if IsBlank(g[k]) {
      InvStepBlank(g, k, k1, c, r);
    } else if c.lastRow == Some(RowBytes(g[k])) {
      InvStepSame(g, k, k1, c, r);
    } else {
      InvStepNew(g, k, k1, c, r);
    }
  }

  lemma CompressRowsStep(g: Grid, k: int, k1: int)
    requires IsGrid(g) && 0 <= k && k1 == k + 1 < SIZE
    ensures CompressRows(g, k1) == CompressRow(CompressRows(g, k), g[k], k, false)
  {
  }

  lemma {:induction false} InvRows(g: Grid, k: int)
    requires IsGrid(g) && 0 <= k < SIZE
    ensures Inv(g, k, CompressRows(g, k))
    decreases k
  {
    if k == 0 {
      InvStart(g);
    } else {
      var km := k - 1;
      InvRows(g, km);
      CompressRowsStep(g, km, k);
      InvStep(g, km, k, CompressRows(g, km));
    }
  }

  /** All rows decoded is the whole grid. */
  lemma PartialAll(g: Grid)
    requires IsGrid(g)
    ensures Partial(g, SIZE) == g
  {
    assert forall y :: 0 <= y < SIZE ==> Partial(g, SIZE)[y] == g[y];
  }

  /** The instructions of the compressor decode to the grid it compressed. */
  lemma CompressOpsDecode(g: Grid)
    requires IsGrid(g)
    ensures ApplyAll(CompressOps(g), Initial) == Next(TileState(g, 0, SIZE))
    ensures |Flatten(CompressOps(g))| <= 2100 * SIZE + 2
  {
    var c := CompressRows(g, SIZE - 1);
    InvRows(g, SIZE - 1);
    var row := g[SIZE - 1];
    var c' := CompressRow(c, row, SIZE - 1, false);
    InvStep(g, SIZE - 1, SIZE, c);
    LastRowFlushes(c, row);
    FlushDecodes(g, SIZE, c');
    assert CompressOps(g) == c'.out + Flush(c');
    PartialAll(g);
  }

  /** Compression is lossless for the compressed bytes found at offset `o` of a longer array too. */
  lemma CompressionLosslessAt(g: Grid, data: seq<byte>, o: i32)
    requires IsGrid(g) && 0 <= o
    requires o + |Compress(g)| < 0x8000_0000 && o + |Compress(g)| <= |data|
    requires data[o..o + |Compress(g)|] == Compress(g)
    ensures DecodeGrid(data, o, |Compress(g)|) == Tiles(g)
  {
    CompressOpsDecode(g);
    DecodeFlattened(data, o, Compress(g), CompressOps(g), g);
  }
}
