/**
 * The class `Region` itself: its fields, its two constructors and the four methods that move
 * between the fields and the REGN bytes. Each method is the loop the class runs, proved to
 * compute what the functions of `Chunks`, `TileDecoding`, `Decomposition` and `Compression`
 * describe.
 */
module Regions {
  import opened JavaInts
  import opened ByteArrays
  import opened Grids
  import opened TileDecoding
  import opened Decomposition
  import opened Compression
  import opened Chunks
  import opened GridLoops

  /** What `decodeTiles` returns: null, one of its error strings, or an exception. */
  datatype TilesOutcome = TilesDone | TilesError(err: TileError) | TilesThrew

  /** One sub-chunk read by `decodeRegion`: where the next one starts, an error, or an exception. */
  datatype ChunkOutcome = ChunkRead(cur: i32) | ChunkError(err: RegionError) | ChunkFailed

  /**
   * What `decodeRegion` returns: null, an error string or an exception. `DecodeDiverged` is
   * returned after more turns than there are bytes, where the loop has come back to a cursor
   * it has already visited and repeats for ever.
   */
  datatype DecodeOutcome = DecodeOk | DecodeError(err: RegionError) | DecodeThrew | DecodeDiverged

  /** A sub-chunk that stops the loop ends it with the sub-chunk's own outcome. */
  lemma LoopStops(data: seq<byte>, cur: i32, g: Fields, fuel: nat)
    requires |data| < 0x8000_0000 && cur < |data| && fuel > 0
    ensures ChunkStep(data, cur, g).Stop? ==> DecodeLoop(data, cur, g, fuel) == RegionFailed(ChunkStep(data, cur, g).err, g)
    ensures ChunkStep(data, cur, g).ChunkThrew? ==> DecodeLoop(data, cur, g, fuel) == RegionThrew
  {
    assert DecodeLoop(data, cur, g, fuel) == Turn(data, cur, g, fuel) == Advance(data, ChunkStep(data, cur, g), fuel);
  }

  /** What the class reports of a sub-chunk: the next cursor, the error, or the exception. */
  function Outcome(s: ChunkResult): (r: ChunkOutcome)
    ensures s.Continue? <==> r.ChunkRead?
    ensures s.Continue? ==> r.cur == s.cur
    ensures s.Stop? <==> r.ChunkError?
    ensures s.Stop? ==> r.err == s.err
  {
    match s
    case Continue(c, _) => ChunkRead(c)
    case Stop(e, _) => ChunkError(e)
    case ChunkThrew => ChunkFailed
  }

  class Region {
    var name: string
    var isBase: bool
    var isNoFlags: bool
    var isNoWeps: bool
    var isNoAnti: bool
    var isAutoWarp: bool
    var x: i32
    var y: i32
    var arena: string
    var rects: seq<Rect>
    var unknownBytes: seq<byte>

    /** The fields the codec reads and writes, as one value. */
    function State(): Fields
      reads this
    {
      Fields(name, isBase, isNoFlags, isNoWeps, isNoAnti, isAutoWarp, x, y, arena, rects, unknownBytes)
    }

    /** `r` reports the sub-chunk outcome `s`, and the fields are those `s` leaves unless it threw. */
    ghost predicate Reports(r: ChunkOutcome, s: ChunkResult)
      reads this
    {
      r == Outcome(s) && (!s.ChunkThrew? ==> State() == s.f)
    }

    /** `new Region()`: the placeholder name and the initial values of the fields. */
    constructor ()
      ensures State() == Fresh
    {
      name := DEFAULT_NAME;
      isBase, isNoFlags, isNoWeps, isNoAnti, isAutoWarp := false, false, false, false, false;
      x, y := 512, 512;
      arena := "";
      rects := [];
      unknownBytes := [];
    }

    /** `new Region(newName, newColor)`: the given name, every other field as initialised. */
    constructor Named(newName: string)
      ensures State() == Fresh.(name := newName)
    {
      name := newName;
      isBase, isNoFlags, isNoWeps, isNoAnti, isAutoWarp := false, false, false, false, false;
      x, y := 512, 512;
      arena := "";
      rects := [];
      unknownBytes := [];
    }

    // -------------------------------------------------------------------------
    // getCompressedRGN and getEncodedRegion
    // -------------------------------------------------------------------------

    /**
     * `getCompressedRGN`: the rectangles drawn on a blank grid, then compressed row by row.
     * `None` is the exception thrown when a rectangle reaches outside the grid.
     */
    method GetCompressedRGN() returns (r: Option<seq<byte>>)
      ensures r.Some? <==> forall i :: 0 <= i < |rects| ==> Drawable(rects[i])
      ensures r.Some? ==> r.value == Compress(Raster(rects))
    {
      var rgn, ok := Rasterize(rects);
      if !ok {
        return None;
      }
      var bytes := CompressGrid(rgn, Raster(rects));
      r := Some(bytes);
    }

    /** The loops `encoding.add((byte) s.charAt(c))` over a whole string. */
    static method CharLoop(s: string) returns (bytes: seq<byte>)
      ensures bytes == CharBytes(s)
    {
      bytes := [];
      for c := 0 to |s|
        invariant bytes == CharBytes(s[..c])
      {
        assert CharBytes(s[..c + 1]) == CharBytes(s[..c]) + [CharByte(s[c])];
        bytes := bytes + [CharByte(s[c])];
      }
      assert s[..|s|] == s;
    }

    /** The loops `for (c = from; c < to; ++c) encoding.add((byte) 0)`. */
    static method ZeroLoop(from: int, to: int) returns (bytes: seq<byte>)
      ensures bytes == Fill(0, to - from)
    {
      bytes := [];
      var c := from;
      while c < to
        invariant from <= c && (c <= to || c == from)
        invariant bytes == Fill(0, c - from)
      {
        assert Fill(0, c + 1 - from) == Fill(0, c - from) + [0];
        bytes := bytes + [0];
        c := c + 1;
      }
      assert |Fill(0, to - from)| == 0 || c == to;
    }

    /** A chunk: the tag, the unpadded length, the payload, then zeros up to a multiple of four. */
    static method ChunkBytes(tag: string, payload: seq<byte>) returns (chunk: seq<byte>)
      requires |payload| < 0x8000_0000
      ensures chunk == PaddedChunk(tag, payload)
    {
      chunk := CharBytes(tag) + IntLE(|payload|) + payload;
      var padding := 4 - JavaRem4(|payload|);
      var zeros: seq<byte> := [];
      if padding != 4 {
        zeros := ZeroLoop(0, padding);
      }
      chunk := chunk + zeros;
    }

    /** The flag chunks, each a tag with a length of 0, for the flags that are set. */
    method FlagBytes() returns (flags: seq<byte>)
      ensures flags == FlagChunks(State())
    {
      flags := [];
      if isBase {
        flags := flags + CharBytes(BASE_TAG) + IntLE(0);
      }
      assert flags == FlagChunk(isBase, BASE_TAG);
      if isNoFlags {
        flags := flags + (CharBytes(NO_FLAGS_TAG) + IntLE(0));
      }
      assert flags == FlagChunk(isBase, BASE_TAG) + FlagChunk(isNoFlags, NO_FLAGS_TAG);
      if isNoWeps {
        flags := flags + (CharBytes(NO_WEPS_TAG) + IntLE(0));
      }
      if isNoAnti {
        flags := flags + (CharBytes(NO_ANTI_TAG) + IntLE(0));
      }
    }

    /** The auto-warp chunk; an arena longer than 15 characters loses its first 15 here. */
    method AutoWarpBytes() returns (chunk: seq<byte>)
      modifies this`arena
      ensures arena == CutArena(old(State()))
      ensures chunk == AutoWarpChunk(old(State()))
    {
      if !isAutoWarp {
        return [];
      }
      if arena != "" {
        chunk := CharBytes(AUTO_WARP_TAG) + IntLE(20) + Word(x) + Word(y);
        if |arena| > 15 {
          arena := arena[15..];
        }
        var chars := CharLoop(arena);
        var zeros := ZeroLoop(|arena|, 16);
        chunk := chunk + chars + zeros;
      } else {
        chunk := CharBytes(AUTO_WARP_TAG) + IntLE(4) + Word(x) + Word(y);
      }
    }

    /**
     * `getEncodedRegion`: the flag chunks, the auto-warp chunk, the unknown chunks as they were
     * kept, the name chunk and the tile chunk. `None` is the exception `getCompressedRGN` throws;
     * the arena has been cut by then too.
     */
    method GetEncodedRegion() returns (r: Option<seq<byte>>)
      requires |name| < 0x8000_0000
      modifies this`arena
      ensures arena == CutArena(old(State()))
      ensures r == EncodeRegion(old(State()))
    {
      var encoding := FlagBytes();
      var warp := AutoWarpBytes();
      encoding := encoding + warp + unknownBytes;
      var chars := CharLoop(name);
      var nameChunk := ChunkBytes(NAME_TAG, chars);
      encoding := encoding + nameChunk;
      var tileData := GetCompressedRGN();
      if tileData.None? {
        return None;
      }
      var tileChunk := ChunkBytes(TILES_TAG, tileData.value);
      r := Some(encoding + tileChunk);
    }

    // -------------------------------------------------------------------------
    // decodeTiles
    // -------------------------------------------------------------------------

    /**
     * `decodeTiles(data, offset, size)`: replay the instructions on a blank grid, check that
     * they made 1024 rows, then cut the grid into rectangles and append them to `rects`.
     * Nothing is appended on an error or an exception.
     */
    method DecodeTiles(data: array<byte>, offset: i32, size: i32) returns (r: TilesOutcome)
      modifies this`rects
      ensures match DecodeGrid(data[..], offset, size)
              case Tiles(g) => r == TilesDone && rects == old(rects) + Decompose(g)
              case TilesFailed(e) => r == TilesError(e) && rects == old(rects)
              case TilesCrashed => r == TilesThrew && rects == old(rects)
    {
      var rgn, replay := ReplayTiles(data, offset, size);
      match replay
      case ReplayFailed(e) =>
        return TilesError(e);
      case ReplayThrew =>
        return TilesThrew;
      case Replayed(_, curY) =>
        if curY != SIZE {
          return TilesError(RowCount(curY));
        }
        ghost var g := RunTiles(data[..], offset, Wrap32(offset + size), Initial).st.grid;
        var found := CutRectangles(rgn, g);
        rects := rects + found;
        r := TilesDone;
    }

    // -------------------------------------------------------------------------
    // decodeRegion
    // -------------------------------------------------------------------------

    /** `rAWP`: the position, and with a length of 20 the arena as a null-terminated string. */
    method ReadAutoWarp(encoding: ByteArray, c: i32, len: i32) returns (r: ChunkOutcome)
      requires 0 <= c <= encoding.arr.Length < 0x8000_0000
      modifies this
      ensures Reports(r, AutoWarpBody(encoding.arr[..], c, len, old(State())))
    {
      if c + 4 > encoding.arr.Length {
        return ChunkFailed;
      }
      isAutoWarp := true;
      x := ReadLittleEndianShort(encoding.arr[..], c);
      y := ReadLittleEndianShort(encoding.arr[..], c + 2);
      if len != 20 {
        return ChunkRead(c + 4);
      }
      var read := encoding.ReadNullTerminatedString(c + 4);
      if read.None? {
        return ChunkFailed;
      }
      arena := read.value;
      r := ChunkRead(Wrap32(c + 20));
    }

    /** `rNAM`: the name, `len` bytes read as a trimmed string, then the padding skipped. */
    method ReadName(encoding: ByteArray, c: i32, len: i32) returns (r: ChunkOutcome)
      requires 0 <= c <= encoding.arr.Length < 0x8000_0000
      modifies this
      ensures Reports(r, NameBody(encoding.arr[..], c, len, old(State())))
    {
      if len < 0 || c + len > encoding.arr.Length {
        return ChunkFailed;
      }
      var next := Pad(c + len, len);
      var read := ReadString(encoding.arr[..], c, len);
      ghost var s := NameBody(encoding.arr[..], c, len, State());
      assert s == Continue(next, State().(name := read));
      name := read;
      r := ChunkRead(next);
    }

    /** `rTIL`: `decodeTiles` on the payload; its error ends `decodeRegion`. */
    method ReadTiles(encoding: ByteArray, c: i32, len: i32) returns (r: ChunkOutcome)
      requires 0 <= c <= encoding.arr.Length < 0x8000_0000
      modifies this
      ensures Reports(r, TilesBody(encoding.arr[..], c, len, old(State())))
    {
      var outcome := DecodeTiles(encoding.arr, c, len);
      match outcome
      case TilesError(e) =>
        return ChunkError(BadTiles(e));
      case TilesThrew =>
        return ChunkFailed;
      case TilesDone =>
        r := ChunkRead(Pad(Wrap32(c + len), len));
    }

    /**
     * Any other chunk: its tag, its length, the payload copied byte by byte and one zero when
     * the length is not a multiple of four go to `unknownBytes`.
     */
    method ReadUnknown(encoding: ByteArray, c: i32, tag: string, len: i32) returns (r: ChunkOutcome)
      requires 0 <= c <= encoding.arr.Length < 0x8000_0000 && |tag| <= 4
      modifies this
      ensures Reports(r, UnknownBody(encoding.arr[..], c, tag, len, old(State())))
    {
      if |tag| < 4 {
        return ChunkFailed;
      }
      var record := CharBytes(tag) + IntLE(len);
      ghost var header := record;
      var endIndex := Wrap32(c + len);
      var k := c;
      while k < endIndex
        invariant c <= k <= encoding.arr.Length && (k <= endIndex || k == c)
        invariant record == header + encoding.arr[c..k]
        decreases endIndex - k
      {
        if k >= encoding.arr.Length {
          return ChunkFailed;     // `readByte` past the end of the array
        }
        assert encoding.arr[c..k + 1] == encoding.arr[c..k] + [encoding.arr[k]];
        record := record + [encoding.arr[k]];
        k := k + 1;
      }
      if endIndex > encoding.arr.Length {
        return ChunkFailed;
      }
      assert encoding.arr[c..k] == Payload(encoding.arr[..], c, endIndex);
      var padding := 4 - JavaRem4(len);
      if padding != 4 {
        record := record + [0];
      }
      unknownBytes := unknownBytes + record;
      r := ChunkRead(Pad(endIndex, len));
    }

    /** The sub-chunk body after its header: the chain of tag tests. */
    method ReadBody(encoding: ByteArray, c: i32, tag: string, len: i32) returns (r: ChunkOutcome)
      requires 0 <= c <= encoding.arr.Length < 0x8000_0000 && |tag| <= 4
      modifies this
      ensures Reports(r, ChunkBody(encoding.arr[..], c, tag, len, old(State())))
    {
      var kind := KindOf(tag);
      if kind == Base && len == 0 {
        isBase := true;
        r := ChunkRead(c);
      } else if kind == NoAnti && len == 0 {
        isNoAnti := true;
        r := ChunkRead(c);
      } else if kind == NoWeps && len == 0 {
        isNoWeps := true;
        r := ChunkRead(c);
      } else if kind == NoFlags && len == 0 {
        isNoFlags := true;
        r := ChunkRead(c);
      } else if kind == AutoWarp {
        r := ReadAutoWarp(encoding, c, len);
      } else if kind == Name {
        r := ReadName(encoding, c, len);
      } else if kind == TileData {
        r := ReadTiles(encoding, c, len);
      } else {
        r := ReadUnknown(encoding, c, tag, len);
      }
    }

    /** One turn of the loop of `decodeRegion`: the header check, the tag, the length and the body. */
    method ReadChunk(encoding: ByteArray, cur: i32) returns (r: ChunkOutcome)
      requires encoding.Valid() && cur < encoding.arr.Length
      modifies this
      ensures Reports(r, ChunkStep(encoding.arr[..], cur, old(State())))
    {
      var superChunkLen := encoding.arr.Length;
      if Wrap32(superChunkLen - cur) < 8 {
        return ChunkError(ShortHeader);
      }
      if cur < 0 {
        return ChunkFailed;       // `readString` at a negative index
      }
      var tag := ReadString(encoding.arr[..], cur, 4);
      var len := ReadLittleEndianInt(encoding.arr[..], cur + 4);
      r := ReadBody(encoding, cur + 8, tag, len);
    }

    /**
     * `decodeRegion(encoding)`: sub-chunks are read until the cursor reaches the end of the
     * array; a cursor that ends past it is an error. The fields end as `Chunks.DecodeRegion`
     * says, on success and on an error string alike.
     */
    method DecodeRegion(encoding: ByteArray) returns (r: DecodeOutcome)
      requires encoding.Valid()
      modifies this
      ensures match Chunks.DecodeRegion(encoding.arr[..], old(State()))
              case RegionOk(f) => r == DecodeOk && State() == f
              case RegionFailed(e, f) => r == DecodeError(e) && State() == f
              case RegionThrew => r == DecodeThrew
              case RegionDiverged => r == DecodeDiverged
    {
      ghost var data := encoding.arr[..];
      ghost var start := State();
      var superChunkLen := encoding.arr.Length;
      var cur: i32 := 0;
      var fuel: nat := superChunkLen + 1;
      while cur < superChunkLen
        invariant encoding.arr[..] == data
        invariant DecodeLoop(data, cur, State(), fuel) == DecodeLoop(data, 0, start, |data| + 1)
        decreases fuel
      {
        if fuel == 0 {
          return DecodeDiverged;
        }
        ghost var before := State();
        var fuel': nat := fuel - 1;
        LoopStops(data, cur, before, fuel);
        var s := ReadChunk(encoding, cur);
        match s
        case ChunkFailed =>
          return DecodeThrew;
        case ChunkError(e) =>
          return DecodeError(e);
        case ChunkRead(next) =>
          ghost var after := State();
          LoopStep(data, cur, before, fuel, next, after, fuel');
          cur, fuel := next, fuel';
      }
      if cur != superChunkLen {
        return DecodeError(PastLength(cur, superChunkLen));
      }
      r := DecodeOk;
    }
  }
}
