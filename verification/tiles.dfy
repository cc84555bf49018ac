/**
 * The first half of `decodeTiles`: replaying rTIL instructions on a blank grid with the
 * cursor (`curX`, `curY`). Runs fill the current row from `curX`, a full row moves the
 * cursor to the next one, empty rows and repeats move `curY` by whole rows.
 */
module TileDecoding {
  import opened JavaInts
  import opened Grids
  import opened Rle

  /** The grid being rebuilt and the cursor; `curY` is a Java `int`. */
  datatype TileState = TileState(grid: Grid, curX: int, curY: i32)

  predicate ValidState(st: TileState)
  {
    IsGrid(st.grid) && 0 <= st.curX < SIZE
  }

  /** The error strings of `decodeTiles`, one constructor each. */
  datatype TileError =
    | RunPastEnd(present: bool)     // "empty run extends past end" / "present run extends past end"
    | EmptyRowsMidRow(curX: int)    // "empty row occured before a run was over"
    | RepeatMidRow                  // "repeat occured before a run was over."
    | RepeatOnFirstRow              // "repeat occured in the first row."
    | RowCount(rows: int)           // "Encoded rTIL does NOT contain 1024 rows"

  /** The result of one instruction, or of a sequence of them: `Crash` is an exception. */
  datatype Step = Next(st: TileState) | Fail(err: TileError) | Crash

  const Initial := TileState(BlankGrid(), 0, 0)

  /** After an instruction: a completed row moves the cursor to the start of the next one. */
  function EndOfRow(st: TileState): (r: TileState)
    requires IsGrid(st.grid) && 0 <= st.curX <= SIZE
    ensures ValidState(r) && r.grid == st.grid
    ensures st.curX < SIZE ==> r == st
    ensures st.curX == SIZE ==> r.curX == 0 && r.curY == Wrap32(st.curY + 1)
  {
    if st.curX == SIZE then TileState(st.grid, 0, Wrap32(st.curY + 1)) else st
  }

  /** One instruction, as the body of the decoding loop executes it. */
  function ApplyOp(st: TileState, op: Op): (r: Step)
    requires ValidState(st) && ValidOp(op)
    ensures r.Next? ==> ValidState(r.st)
    ensures r.Fail? ==> !r.err.RowCount?
  {
    match op
    case EmptyRun(n) =>
      if n + st.curX > SIZE then Fail(RunPastEnd(false))
      else Next(EndOfRow(st.(curX := st.curX + n)))
    case PresentRun(n) =>
      if n + st.curX > SIZE then Fail(RunPastEnd(true))
      else if st.curY < 0 || st.curY >= SIZE then Crash
      else
        var row := SetRun(st.grid[st.curY], st.curX, st.curX + n);
        Next(EndOfRow(TileState(st.grid[st.curY := row], st.curX + n, st.curY)))
    case EmptyRows(n) =>
      if st.curX != 0 then Fail(EmptyRowsMidRow(st.curX))
      else Next(st.(curY := Wrap32(st.curY + n)))
    case RepeatRow(n) =>
      if st.curX != 0 then Fail(RepeatMidRow)
      else if st.curY == 0 then Fail(RepeatOnFirstRow)
      else
        var stopY := Wrap32(st.curY + n);
        if stopY <= st.curY then Next(st.(curY := stopY))   // the copy loop runs zero times
        else if st.curY < 0 || stopY > SIZE then Crash
        else Next(TileState(CopyRows(st.grid, st.curY, stopY, st.curY - 1), 0, stopY))
  }

  predicate AllValid(ops: seq<Op>)
  {
    forall i :: 0 <= i < |ops| ==> ValidOp(ops[i])
  }

  /** A sequence of instructions, stopping at the first error or exception. */
  function ApplyAll(ops: seq<Op>, st: TileState): (r: Step)
    requires ValidState(st) && AllValid(ops)
    ensures r.Next? ==> ValidState(r.st)
    ensures r.Fail? ==> !r.err.RowCount?
  {
    if ops == [] then Next(st)
    else match ApplyOp(st, ops[0])
      case Next(st') => ApplyAll(ops[1..], st')
      case other => other
  }

  /** The bytes of a sequence of instructions, back to back. */
  function Flatten(ops: seq<Op>): (r: seq<byte>)
    requires AllValid(ops)
  {
    if ops == [] then [] else OpBytes(ops[0]) + Flatten(ops[1..])
  }

  /**
   * The decoding loop `while (o < endByte)`: read the kind at `data[o]`, the length (the long
   * form also reads `data[o + 1]`), execute, and step one or two bytes.
   */
  function RunTiles(data: seq<byte>, o: int, end: int, st: TileState): (r: Step)
    requires ValidState(st)
    ensures r.Next? ==> ValidState(r.st)
    ensures r.Fail? ==> !r.err.RowCount?
    decreases end - o
  {
    if o >= end then Next(st)
    else if o < 0 || o >= |data| then Crash
    else match ReadInstruction(data, o)
      case Truncated => Crash
      case Instr(op, width) =>
        match ApplyOp(st, op)
        case Next(st') => RunTiles(data, o + width, end, st')
        case other => other
  }

  /** What `decodeTiles` makes of `size` bytes at `offset`: a grid, an error string or an exception. */
  datatype TilesResult = Tiles(grid: Grid) | TilesFailed(err: TileError) | TilesCrashed

  /**
   * The decoding half of `decodeTiles(data, offset, size)`. `endByte = offset + size` is `int`
   * arithmetic; after the loop the row count must be exactly 1024 (the column is not checked).
   */
  function DecodeGrid(data: seq<byte>, offset: i32, size: i32): (r: TilesResult)
    ensures r.Tiles? ==> IsGrid(r.grid)
    ensures r.TilesFailed? && r.err.RowCount? ==> r.err.rows != SIZE
  {
    match RunTiles(data, offset, Wrap32(offset + size), Initial)
    case Next(st) => if st.curY != SIZE then TilesFailed(RowCount(st.curY)) else Tiles(st.grid)
    case Fail(e) => TilesFailed(e)
    case Crash => TilesCrashed
  }

  // ---------------------------------------------------------------------------
  // Decoding encoded instruction sequences
  // ---------------------------------------------------------------------------

  lemma {:induction false} FlattenAppend(a: seq<Op>, b: seq<Op>)
    requires AllValid(a) && AllValid(b)
    ensures AllValid(a + b) && Flatten(a + b) == Flatten(a) + Flatten(b)
  {
    if a == [] {
      assert a + b == b;
    } else {
      assert (a + b)[1..] == a[1..] + b;
      FlattenAppend(a[1..], b);
    }
  }

  /** Running `a + b` is running `a` and then, if nothing went wrong, `b`. */
  lemma {:induction false} ApplyAllAppend(a: seq<Op>, b: seq<Op>, st: TileState)
    requires ValidState(st) && AllValid(a) && AllValid(b)
    ensures AllValid(a + b)
    ensures ApplyAll(a + b, st) == match ApplyAll(a, st)
                                   case Next(st') => ApplyAll(b, st')
                                   case other => other
  {
    if a == [] {
      assert a + b == b;
    } else {
      assert (a + b)[1..] == a[1..] + b;
      match ApplyOp(st, a[0])
      case Next(st') => ApplyAllAppend(a[1..], b, st');
      case _ =>
    }
  }

  /** One turn of the decoding loop over the bytes of a known instruction. */
  lemma RunTilesStep(data: seq<byte>, o: int, end: int, st: TileState, op: Op)
    requires ValidState(st) && ValidOp(op)
    requires 0 <= o < end && o + |OpBytes(op)| <= |data| && data[o..o + |OpBytes(op)|] == OpBytes(op)
    ensures ApplyOp(st, op).Next? ==> RunTiles(data, o, end, st) == RunTiles(data, o + |OpBytes(op)|, end, ApplyOp(st, op).st)
    ensures !ApplyOp(st, op).Next? ==> RunTiles(data, o, end, st) == ApplyOp(st, op)
  {
    OpRoundTripAt(data, o, op);
  }

  /** The two halves of a slice that holds `a + b`. */
  lemma SliceSplit(data: seq<byte>, o: int, a: seq<byte>, b: seq<byte>)
    requires 0 <= o && o + |a| + |b| <= |data| && data[o..o + |a| + |b|] == a + b
    ensures data[o..o + |a|] == a && data[o + |a|..o + |a| + |b|] == b
  {
    assert data[o..o + |a|] == data[o..o + |a| + |b|][..|a|];
    assert data[o + |a|..o + |a| + |b|] == data[o..o + |a| + |b|][|a|..];
  }

  /** `ApplyAll` on a non-empty sequence. */
  lemma ApplyAllCons(ops: seq<Op>, st: TileState)
    requires ValidState(st) && AllValid(ops) && ops != []
    ensures AllValid(ops[1..])
    ensures ApplyOp(st, ops[0]).Next? ==> ApplyAll(ops, st) == ApplyAll(ops[1..], ApplyOp(st, ops[0]).st)
    ensures !ApplyOp(st, ops[0]).Next? ==> ApplyAll(ops, st) == ApplyOp(st, ops[0])
  {
  }

  /**
   * Decoding the bytes of an instruction sequence executes exactly that sequence: the loop
   * finds every instruction's kind and length, steps over exactly its bytes, and stops at the
   * end of the last one.
   */
  lemma {:induction false} RunFlatten(data: seq<byte>, o: int, end: int, ops: seq<Op>, st: TileState)
    requires ValidState(st) && AllValid(ops)
    requires 0 <= o && end == o + |Flatten(ops)| <= |data| && data[o..end] == Flatten(ops)
    ensures RunTiles(data, o, end, st) == ApplyAll(ops, st)
    decreases |ops|
  {
    if ops != [] {
      var o' := RunFlattenHead(data, o, end, ops, st);
      var r := ApplyOp(st, ops[0]);
      if r.Next? {
        RunFlatten(data, o', end, ops[1..], r.st);
      }
    }
  }

  /** The first instruction of `ops`: executed from its own bytes, after which `o'` holds the rest. */
  lemma RunFlattenHead(data: seq<byte>, o: int, end: int, ops: seq<Op>, st: TileState) returns (o': int)
    requires ValidState(st) && AllValid(ops) && ops != []
    requires 0 <= o && end == o + |Flatten(ops)| <= |data| && data[o..end] == Flatten(ops)
    ensures AllValid(ops[1..]) && o <= o' && end == o' + |Flatten(ops[1..])| && data[o'..end] == Flatten(ops[1..])
    ensures ApplyOp(st, ops[0]).Next? ==> RunTiles(data, o, end, st) == RunTiles(data, o', end, ApplyOp(st, ops[0]).st)
                                          && ApplyAll(ops, st) == ApplyAll(ops[1..], ApplyOp(st, ops[0]).st)
    ensures !ApplyOp(st, ops[0]).Next? ==> RunTiles(data, o, end, st) == ApplyAll(ops, st)
  {
    var op, tail := ops[0], ops[1..];
    var bs, rest := OpBytes(op), Flatten(tail);
    assert Flatten(ops) == bs + rest;
    assert end == o + |bs| + |rest|;
    SliceSplit(data, o, bs, rest);
    RunTilesStep(data, o, end, st, op);
    ApplyAllCons(ops, st);
    o' := o + |bs|;
  }

  /** Encoded instructions that rebuild a whole grid decode, as a bitmap, to that grid. */
  lemma DecodeFlattened(data: seq<byte>, o: i32, bs: seq<byte>, ops: seq<Op>, g: Grid)
    requires AllValid(ops) && ApplyAll(ops, Initial) == Next(TileState(g, 0, SIZE))
    requires bs == Flatten(ops)
    requires 0 <= o && o + |bs| < 0x8000_0000 && o + |bs| <= |data| && data[o..o + |bs|] == bs
    ensures DecodeGrid(data, o, |bs|) == Tiles(g)
  {
    var size := |bs|;
    var end := o + size;
    assert ValidState(Initial);
    assert RunTiles(data, o, end, Initial) == Next(TileState(g, 0, SIZE)) by {
      RunFlatten(data, o, end, ops, Initial);
    }
    DecodeGridOf(data, o, size, g);
  }

  /** A run over exactly `size` bytes that ends on row 1024 is a decoded grid. */
  lemma DecodeGridOf(data: seq<byte>, o: i32, size: i32, g: Grid)
    requires 0 <= o && 0 <= size && o + size < 0x8000_0000
    requires RunTiles(data, o, o + size, Initial) == Next(TileState(g, 0, SIZE))
    ensures DecodeGrid(data, o, size) == Tiles(g)
  {
    assert Wrap32(o + size) == o + size;
  }

  // ---------------------------------------------------------------------------
  // Error conditions
  // ---------------------------------------------------------------------------

  /**
   * The named errors: a run past column 1024, empty rows or a repeat in the middle of a row,
   * and a repeat on the first row each stop decoding with their own error.
   */
  lemma OpErrors(st: TileState, op: Op)
    requires ValidState(st) && ValidOp(op)
    ensures (op.EmptyRun? || op.PresentRun?) && op.count + st.curX > SIZE
            ==> ApplyOp(st, op) == Fail(RunPastEnd(op.PresentRun?))
    ensures op.EmptyRows? && st.curX != 0 ==> ApplyOp(st, op) == Fail(EmptyRowsMidRow(st.curX))
    ensures op.RepeatRow? && st.curX != 0 ==> ApplyOp(st, op) == Fail(RepeatMidRow)
    ensures op.RepeatRow? && st.curX == 0 && st.curY == 0 ==> ApplyOp(st, op) == Fail(RepeatOnFirstRow)
    ensures ApplyOp(st, op).Fail? ==>
              ((op.EmptyRun? || op.PresentRun?) && op.count + st.curX > SIZE)
              || ((op.EmptyRows? || op.RepeatRow?) && st.curX != 0)
              || (op.RepeatRow? && st.curY == 0)
  {
  }

  /** A tile bitmap that starts with a repeat fails at once. */
  lemma RepeatFirstFails(data: seq<byte>, offset: i32, size: i32)
    requires 0 <= offset && 0 < size && offset + size < 0x8000_0000
    requires offset + 1 < |data| && data[offset] / 32 >= SMALL_REPEAT
    ensures DecodeGrid(data, offset, size) == TilesFailed(RepeatOnFirstRow)
  {
    HeaderFields(data[offset], data[offset + 1]);
  }

  /** A bitmap with no instructions has no rows. */
  lemma EmptyBitmapFails(data: seq<byte>, offset: i32)
    ensures DecodeGrid(data, offset, 0) == TilesFailed(RowCount(0))
  {
  }

  /**
   * The column is not checked at the end: after the 1024th row, an empty run still decodes
   * (it leaves `curX` at 1) and the grid is accepted.
   */
  lemma TrailingEmptyRunAccepted(data: seq<byte>, g: Grid, offset: i32)
    requires IsGrid(g) && 0 <= offset && offset + 1 < 0x8000_0000 && offset < |data|
    requires data[offset] == 0
    ensures RunTiles(data, offset, offset + 1, TileState(g, 0, SIZE)) == Next(TileState(g, 1, SIZE))
  {
    HeaderFields(data[offset], 0);
  }
}
