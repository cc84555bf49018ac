/**
 * The REGN super-chunk of an eLVL file: a sequence of sub-chunks, each a four-character tag,
 * a little-endian `int` length and the payload, padded with zeros to a multiple of four.
 * `decodeRegion` walks them and sets the region's fields; `getEncodedRegion` writes the
 * fields back out as sub-chunks in a fixed order.
 */
module Chunks {
  import opened JavaInts
  import opened ByteArrays
  import opened Grids
  import opened Rle
  import opened TileDecoding
  import opened Compression
  import opened Decomposition

  /** The fields of a `Region` that the chunk codec reads and writes (the colour is not one). */
  datatype Fields = Fields(
    name: string,
    isBase: bool, isNoFlags: bool, isNoWeps: bool, isNoAnti: bool, isAutoWarp: bool,
    x: i32, y: i32, arena: string,
    rects: seq<Rect>, unknownBytes: seq<byte>)

  const DEFAULT_NAME := "@THIS_IS_A_BUG->ERROR"

  /** The fields of a region made by `new Region()`. */
  const Fresh := Fields(DEFAULT_NAME, false, false, false, false, false, 512, 512, "", [], [])

  const BASE_TAG := "rBSE"
  const NO_ANTI_TAG := "rNAW"
  const NO_WEPS_TAG := "rNWP"
  const NO_FLAGS_TAG := "rNFL"
  const AUTO_WARP_TAG := "rAWP"
  const NAME_TAG := "rNAM"
  const TILES_TAG := "rTIL"

  /** The sub-chunk kinds `decodeRegion` tells apart by their tag. */
  datatype Kind = Base | NoAnti | NoWeps | NoFlags | AutoWarp | Name | TileData | Other

  /** The kind of a tag: the chain of `type.equals(...)` tests. */
  function KindOf(tag: string): (k: Kind)
    ensures k == Base <==> tag == BASE_TAG
    ensures k == NoAnti <==> tag == NO_ANTI_TAG
    ensures k == NoWeps <==> tag == NO_WEPS_TAG
    ensures k == NoFlags <==> tag == NO_FLAGS_TAG
    ensures k == AutoWarp <==> tag == AUTO_WARP_TAG
    ensures k == Name <==> tag == NAME_TAG
    ensures k == TileData <==> tag == TILES_TAG
  {
    if tag == BASE_TAG then Base
    else if tag == NO_ANTI_TAG then NoAnti
    else if tag == NO_WEPS_TAG then NoWeps
    else if tag == NO_FLAGS_TAG then NoFlags
    else if tag == AUTO_WARP_TAG then AutoWarp
    else if tag == NAME_TAG then Name
    else if tag == TILES_TAG then TileData
    else Other
  }

  /** The cast `(byte) c` of a Java `char`: its low eight bits. */
  function CharByte(c: char): (b: byte)
    ensures c as int < 256 ==> b == c as int
  {
    c as int % 256
  }

  function CharBytes(s: string): (r: seq<byte>)
    ensures |r| == |s|
    ensures forall i :: 0 <= i < |s| ==> r[i] == CharByte(s[i])
  {
    seq(|s|, i requires 0 <= i < |s| => CharByte(s[i]))
  }

  // ---------------------------------------------------------------------------
  // decodeRegion
  // ---------------------------------------------------------------------------

  /** The error strings of `decodeRegion`. */
  datatype RegionError =
    | ShortHeader                       // "Not enogh bytes to make a subchunk header in REGN superchunk."
    | BadTiles(err: TileError)          // the error of `decodeTiles`
    | PastLength(cur: i32, length: int) // "REGN chunk eLVL data went past encoded length, ..."

  /** After one sub-chunk: go on at `cur`, stop with an error, or an exception was thrown. */
  datatype ChunkResult = Continue(cur: i32, f: Fields) | Stop(err: RegionError, f: Fields) | ChunkThrew

  /**
   * Decoding only adds: the flags stay set, and the rectangles and unknown bytes already
   * there stay as a prefix.
   */
  predicate Extends(f: Fields, f': Fields)
  {
    && (f.isBase ==> f'.isBase) && (f.isNoAnti ==> f'.isNoAnti)
    && (f.isNoWeps ==> f'.isNoWeps) && (f.isNoFlags ==> f'.isNoFlags)
    && (f.isAutoWarp ==> f'.isAutoWarp)
    && f.rects <= f'.rects && f.unknownBytes <= f'.unknownBytes
  }

  lemma ExtendsTrans(f: Fields, f': Fields, f'': Fields)
    requires Extends(f, f') && Extends(f', f'')
    ensures Extends(f, f'')
  {
  }

  /** `cur += padding` when `4 - len % 4` is not 4 (Java's `%`, `int` arithmetic). */
  function Pad(cur: i32, len: i32): (r: i32)
    ensures len >= 0 && cur >= 0 && cur + 4 < 0x8000_0000 ==> r >= cur && (r - cur + len) % 4 == 0
  {
    var padding := 4 - JavaRem4(len);
    if padding != 4 then Wrap32(cur + padding) else cur
  }

  /** The bytes an unknown chunk is kept as: tag, length, payload and at most one zero. */
  function UnknownRecord(tag: string, len: i32, payload: seq<byte>): (r: seq<byte>)
    requires |tag| == 4
    ensures |r| == 8 + |payload| + (if JavaRem4(len) != 0 then 1 else 0)
  {
    var header := CharBytes(tag) + IntLE(len);
    assert |header| == 8;
    header + payload + (if JavaRem4(len) != 0 then [0] else [])
  }

  /** The four flags are as they were. */
  predicate SameFlags(f: Fields, f': Fields)
  {
    f'.isBase == f.isBase && f'.isNoAnti == f.isNoAnti && f'.isNoWeps == f.isNoWeps && f'.isNoFlags == f.isNoFlags
  }

  /** `rAWP`: the position, and with a length of 20 also the arena name (a 16-byte field). */
  function AutoWarpBody(data: seq<byte>, c: i32, len: i32, f: Fields): (r: ChunkResult)
    requires 0 <= c <= |data| < 0x8000_0000
    ensures r.Continue? ==> Extends(f, r.f) && SameFlags(f, r.f) && r.f.rects == f.rects
    ensures r.Continue? ==> r.f.isAutoWarp && r.f.name == f.name && r.f.unknownBytes == f.unknownBytes
    ensures r.Continue? ==> r.cur == Wrap32(c + if len == 20 then 20 else 4)
    ensures r.Continue? && len != 20 ==> r.f.arena == f.arena
    ensures !r.Stop?
  {
    if c + 4 > |data| then ChunkThrew
    else
      var x, y := ReadLittleEndianShort(data, c), ReadLittleEndianShort(data, c + 2);
      var f1 := f.(isAutoWarp := true, x := x, y := y);
      if len != 20 then Continue(c + 4, f1)
      else match NullTerminated(data, c + 4)
        case None => ChunkThrew
        case Some(arena) => Continue(Wrap32(c + 20), f1.(arena := arena))
  }

  /** `rNAM`: the name, read as a trimmed string of `len` bytes. */
  function NameBody(data: seq<byte>, c: i32, len: i32, f: Fields): (r: ChunkResult)
    requires 0 <= c <= |data| < 0x8000_0000
    ensures r.Continue? <==> 0 <= len && c + len <= |data|
    ensures r.Continue? ==> Extends(f, r.f) && SameFlags(f, r.f) && r.f.rects == f.rects
    ensures r.Continue? ==> |r.f.name| <= len && r.f.unknownBytes == f.unknownBytes
    ensures !r.Stop?
  {
    if len < 0 || c + len > |data| then ChunkThrew
    else Continue(Pad(c + len, len), f.(name := ReadString(data, c, len)))
  }

  /** `rTIL`: `decodeTiles` over the payload; its error stops the loop. */
  function TilesBody(data: seq<byte>, c: i32, len: i32, f: Fields): (r: ChunkResult)
    requires 0 <= c <= |data| < 0x8000_0000
    ensures r.Continue? ==> DecodeGrid(data, c, len).Tiles?
    ensures r.Continue? ==> Extends(f, r.f) && SameFlags(f, r.f)
    ensures r.Continue? ==> r.f.rects == f.rects + Decompose(DecodeGrid(data, c, len).grid)
    ensures r.Stop? <==> DecodeGrid(data, c, len).TilesFailed?
    ensures r.Stop? ==> r.f == f && r.err == BadTiles(DecodeGrid(data, c, len).err)
  {
    match DecodeGrid(data, c, len)
    case TilesFailed(e) => Stop(BadTiles(e), f)
    case TilesCrashed => ChunkThrew
    case Tiles(g) => Continue(Pad(Wrap32(c + len), len), f.(rects := f.rects + Decompose(g)))
  }

  /** The bytes the copy loop `for (c = cur; c < endIndex; ++c)` reads. */
  function Payload(data: seq<byte>, c: int, end: int): (p: seq<byte>)
    requires 0 <= c && end <= |data|
    ensures |p| == if end > c then end - c else 0
  {
    if end > c then data[c..end] else []
  }

  /** Any other chunk: kept in `unknownBytes`, with at most one byte of its padding. */
  function UnknownBody(data: seq<byte>, c: i32, tag: string, len: i32, f: Fields): (r: ChunkResult)
    requires 0 <= c <= |data| < 0x8000_0000 && |tag| <= 4
    ensures r.Continue? ==> |tag| == 4 && Wrap32(c + len) <= |data|
    ensures r.Continue? ==> Extends(f, r.f) && SameFlags(f, r.f) && r.f.rects == f.rects
    ensures r.Continue? ==> r.f.unknownBytes == f.unknownBytes + UnknownRecord(tag, len, Payload(data, c, Wrap32(c + len)))
    ensures !r.Stop?
  {
    if |tag| < 4 then ChunkThrew     // `type.charAt(k)` of a tag that `trim` shortened
    else
      var end := Wrap32(c + len);
      if end > |data| then ChunkThrew      // `readByte` past the end of the array
      else Continue(Pad(end, len), f.(unknownBytes := f.unknownBytes + UnknownRecord(tag, len, Payload(data, c, end))))
  }

  /** Each flag is set afterwards iff it was set before or this is its chunk with length 0. */
  predicate FlagsSetBy(tag: string, len: i32, f: Fields, f': Fields)
  {
    && (f'.isBase <==> f.isBase || (tag == BASE_TAG && len == 0))
    && (f'.isNoAnti <==> f.isNoAnti || (tag == NO_ANTI_TAG && len == 0))
    && (f'.isNoWeps <==> f.isNoWeps || (tag == NO_WEPS_TAG && len == 0))
    && (f'.isNoFlags <==> f.isNoFlags || (tag == NO_FLAGS_TAG && len == 0))
  }

  /**
   * The body of a sub-chunk whose payload starts at `c`. The four flags are set only by a
   * chunk of length 0; any other chunk with their tag falls through to the unknown case.
   */
  function ChunkBody(data: seq<byte>, c: i32, tag: string, len: i32, f: Fields): (r: ChunkResult)
    requires 0 <= c <= |data| < 0x8000_0000 && |tag| <= 4
    ensures r.Continue? ==> Extends(f, r.f)
    ensures r.Continue? ==> FlagsSetBy(tag, len, f, r.f)
    ensures r.Continue? && r.f.rects != f.rects ==> tag == TILES_TAG
    ensures r.Stop? ==> tag == TILES_TAG && r.f == f && r.err.BadTiles?
  {
    match KindOf(tag)
    case Base => if len == 0 then Continue(c, f.(isBase := true)) else UnknownBody(data, c, tag, len, f)
    case NoAnti => if len == 0 then Continue(c, f.(isNoAnti := true)) else UnknownBody(data, c, tag, len, f)
    case NoWeps => if len == 0 then Continue(c, f.(isNoWeps := true)) else UnknownBody(data, c, tag, len, f)
    case NoFlags => if len == 0 then Continue(c, f.(isNoFlags := true)) else UnknownBody(data, c, tag, len, f)
    case AutoWarp => AutoWarpBody(data, c, len, f)
    case Name => NameBody(data, c, len, f)
    case TileData => TilesBody(data, c, len, f)
    case Other => UnknownBody(data, c, tag, len, f)
  }

  /** One turn of the loop of `decodeRegion`, at `cur < superChunkLen`. */
  function ChunkStep(data: seq<byte>, cur: i32, f: Fields): (r: ChunkResult)
    requires |data| < 0x8000_0000 && cur < |data|
    ensures 0 <= cur ==> (r == Stop(ShortHeader, f) <==> |data| - cur < 8)
    ensures r.Continue? ==> 0 <= cur
    ensures r.Stop? ==> r.f == f && !r.err.PastLength?
  {
    if Wrap32(|data| - cur) < 8 then Stop(ShortHeader, f)
    else if cur < 0 then ChunkThrew      // `readString` at a negative index
    else ChunkBody(data, cur + 8, ReadString(data, cur, 4), ReadLittleEndianInt(data, cur + 4), f)
  }

  /** A sub-chunk only adds to the region. */
  lemma StepExtends(data: seq<byte>, cur: i32, f: Fields)
    requires |data| < 0x8000_0000 && cur < |data|
    ensures var r := ChunkStep(data, cur, f); r.Continue? ==> Extends(f, r.f)
  {
  }

  /** What `decodeRegion` returns, with the fields it leaves; `Diverged` is a loop that does not end. */
  datatype RegionResult =
    | RegionOk(f: Fields)
    | RegionFailed(err: RegionError, f: Fields)
    | RegionThrew
    | RegionDiverged

  /**
   * The loop of `decodeRegion` from `cur`, for at most `fuel` more sub-chunks. It ends cleanly
   * exactly at the end of the data, and it reports running past the end only for a cursor
   * beyond it.
   */
  function DecodeLoop(data: seq<byte>, cur: i32, f: Fields, fuel: nat): (r: RegionResult)
    requires |data| < 0x8000_0000
    ensures cur == |data| ==> r == RegionOk(f)
    ensures r.RegionFailed? && r.err.PastLength? ==> r.err.length == |data| < r.err.cur
    decreases fuel, 2
  {
    if cur >= |data| then
      if cur != |data| then RegionFailed(PastLength(cur, |data|), f) else RegionOk(f)
    else Turn(data, cur, f, fuel)
  }

  /** A turn of the loop at `cur < superChunkLen`, when there is fuel left for it. */
  function Turn(data: seq<byte>, cur: i32, f: Fields, fuel: nat): (r: RegionResult)
    requires |data| < 0x8000_0000 && cur < |data|
    ensures fuel == 0 ==> r == RegionDiverged
    ensures r.RegionFailed? && r.err.PastLength? ==> r.err.length == |data| < r.err.cur
    decreases fuel, 1
  {
    if fuel == 0 then RegionDiverged else Advance(data, ChunkStep(data, cur, f), fuel)
  }

  /** What the loop does once a sub-chunk has been read with outcome `s`. */
  function Advance(data: seq<byte>, s: ChunkResult, fuel: nat): (r: RegionResult)
    requires |data| < 0x8000_0000 && fuel > 0
    ensures s.ChunkThrew? ==> r == RegionThrew
    ensures s.Stop? ==> r == RegionFailed(s.err, s.f)
    ensures (s.Stop? ==> !s.err.PastLength?) && r.RegionFailed? && r.err.PastLength?
            ==> r.err.length == |data| < r.err.cur
    decreases fuel, 0
  {
    match s
    case Continue(cur', f') => DecodeLoop(data, cur', f', fuel - 1)
    case Stop(e, f') => RegionFailed(e, f')
    case ChunkThrew => RegionThrew
  }

  /**
   * `decodeRegion` of a super-chunk, applied to a region with fields `f`. Every turn starts at
   * a cursor in `0..|data| - 1`, so more turns than bytes means the cursor came back to where
   * it was and the loop repeats for ever.
   */
  function DecodeRegion(data: seq<byte>, f: Fields): (r: RegionResult)
    requires |data| < 0x8000_0000
    ensures |data| == 0 ==> r == RegionOk(f)
    ensures r.RegionOk? || r.RegionFailed? ==> Extends(f, r.f)
    ensures r.RegionFailed? && r.err.PastLength? ==> r.err.length == |data| < r.err.cur
  {
    LoopExtends(data, 0, f, |data| + 1);
    DecodeLoop(data, 0, f, |data| + 1)
  }

  /** A sub-chunk that lets the loop go on hands the rest to the next turn. */
  lemma Advanced(data: seq<byte>, fuel: nat, next: i32, g': Fields, fuel': nat)
    requires |data| < 0x8000_0000 && fuel == fuel' + 1
    ensures Advance(data, Continue(next, g'), fuel) == DecodeLoop(data, next, g', fuel')
  {
  }

  /** One turn of the loop. */
  lemma LoopStep(data: seq<byte>, cur: i32, g: Fields, fuel: nat, next: i32, g': Fields, fuel': nat)
    requires |data| < 0x8000_0000 && 0 <= cur < |data| && fuel == fuel' + 1
    requires ChunkStep(data, cur, g) == Continue(next, g')
    ensures DecodeLoop(data, cur, g, fuel) == DecodeLoop(data, next, g', fuel')
  {
    Advanced(data, fuel, next, g', fuel');
  }

  /**
   * The loop only adds to a region: a flag once set stays set, and the rectangles and the
   * unknown bytes it ends with start with those it was given.
   */
  lemma {:induction false} LoopExtends(data: seq<byte>, cur: i32, f: Fields, fuel: nat)
    requires |data| < 0x8000_0000
    ensures var r := DecodeLoop(data, cur, f, fuel); r.RegionOk? || r.RegionFailed? ==> Extends(f, r.f)
    decreases fuel
  {
    if cur < |data| && fuel > 0 {
      var s := ChunkStep(data, cur, f);
      if s.Continue? {
        var fuel': nat := fuel - 1;
        LoopStep(data, cur, f, fuel, s.cur, s.f, fuel');
        LoopExtends(data, s.cur, s.f, fuel');
        StepExtends(data, cur, f);
        var r := DecodeLoop(data, s.cur, s.f, fuel');
        if r.RegionOk? || r.RegionFailed? {
          ExtendsTrans(f, s.f, r.f);
        }
      } else {
        assert DecodeLoop(data, cur, f, fuel) == Turn(data, cur, f, fuel) == Advance(data, s, fuel);
      }
    }
  }

  // ---------------------------------------------------------------------------
  // getEncodedRegion
  // ---------------------------------------------------------------------------

  /** `BitmapSaving.toWORD`: the two low bytes, least significant first. */
  function Word(v: int): (r: seq<byte>)
    ensures |r| == 2 && ValueLE(r) == v % 0x1_0000
  {
    LEBytesValue(v, 2);
    assert Radix(2) == 0x1_0000;
    LEBytes(v, 2)
  }

  /** A flag chunk: the tag and a length of 0. */
  function FlagChunk(on: bool, tag: string): (r: seq<byte>)
    ensures |r| == if on then |tag| + 4 else 0
    ensures on ==> r[..|tag|] == CharBytes(tag) && forall i :: |tag| <= i < |r| ==> r[i] == 0
  {
    if on then CharBytes(tag) + IntLE(0) else []
  }

  /** The arena as `getEncodedRegion` leaves it: past character 15 when it is longer than 15. */
  function CutArena(f: Fields): (a: string)
    ensures |f.arena| > 15 && f.isAutoWarp ==> a == f.arena[15..]
    ensures |f.arena| <= 15 || !f.isAutoWarp ==> a == f.arena
  {
    if f.isAutoWarp && |f.arena| > 15 then f.arena[15..] else f.arena
  }

  /**
   * As written, an arena of 32 characters or more is still longer than 16 after the cut. Its
   * bytes are all written and no zeros follow, so the auto-warp chunk is longer than the 8-byte
   * header and the length 20 it declares.
   */
  lemma CutArenaOverflows(f: Fields)
    requires f.isAutoWarp && |f.arena| >= 32
    ensures |CutArena(f)| == |f.arena| - 15 > 16
    ensures |AutoWarpChunk(f)| == 12 + |f.arena| - 15 > 8 + 20
  {
    assert |Fill(0, 16 - |CutArena(f)|)| == 0;
  }

  /**
   * The cut the field's documentation promises ("max 15 letters"): the first 15 characters,
   * `substring(0, 15)`. The arena left always fits the 16-byte field with a zero after it.
   */
  function CutArenaIntended(f: Fields): (a: string)
    ensures f.isAutoWarp ==> |a| <= 15
    ensures a <= f.arena
    ensures |f.arena| <= 15 || !f.isAutoWarp ==> a == f.arena
  {
    if f.isAutoWarp && |f.arena| > 15 then f.arena[..15] else f.arena
  }

  /** How many of the four flags are set. */
  function FlagCount(f: Fields): (n: nat)
    ensures n <= 4
  {
    (if f.isBase then 1 else 0) + (if f.isNoFlags then 1 else 0)
    + (if f.isNoWeps then 1 else 0) + (if f.isNoAnti then 1 else 0)
  }

  /** The flag chunks, in the order `rBSE`, `rNFL`, `rNWP`, `rNAW`. */
  function FlagChunks(f: Fields): (r: seq<byte>)
    ensures |r| == 8 * FlagCount(f)
  {
    FlagChunk(f.isBase, BASE_TAG) + FlagChunk(f.isNoFlags, NO_FLAGS_TAG)
    + FlagChunk(f.isNoWeps, NO_WEPS_TAG) + FlagChunk(f.isNoAnti, NO_ANTI_TAG)
  }

  /** The auto-warp chunk: length 20 with the arena in 16 bytes, or length 4 without one. */
  function AutoWarpChunk(f: Fields): (r: seq<byte>)
    ensures !f.isAutoWarp ==> r == []
    ensures f.isAutoWarp ==> |r| == if f.arena == "" then 12 else 12 + |Fill(0, 16 - |CutArena(f)|)| + |CutArena(f)|
  {
    if !f.isAutoWarp then []
    else if f.arena != "" then
      var a := CutArena(f);
      CharBytes(AUTO_WARP_TAG) + IntLE(20) + Word(f.x) + Word(f.y) + CharBytes(a) + Fill(0, 16 - |a|)
    else CharBytes(AUTO_WARP_TAG) + IntLE(4) + Word(f.x) + Word(f.y)
  }

  /** The zeros that bring `len` bytes to a multiple of four. */
  function Padding(len: nat): (r: seq<byte>)
    ensures (len + |r|) % 4 == 0 && |r| < 4
    ensures forall i :: 0 <= i < |r| ==> r[i] == 0
  {
    var padding := 4 - JavaRem4(len);
    if padding != 4 then Fill(0, padding) else []
  }

  /** A chunk with the unpadded length and its payload padded to a multiple of four. */
  function PaddedChunk(tag: string, payload: seq<byte>): (r: seq<byte>)
    requires |payload| < 0x8000_0000
    ensures |r| == |tag| + 4 + |payload| + |Padding(|payload|)|
  {
    CharBytes(tag) + IntLE(|payload|) + payload + Padding(|payload|)
  }

  /**
   * `getEncodedRegion`: the flag chunks, the auto-warp chunk, the unknown bytes as they were
   * kept, the name and the tile data; `None` where `getCompressedRGN` throws because a
   * rectangle reaches outside the grid.
   */
  function EncodeRegion(f: Fields): (r: Option<seq<byte>>)
    requires |f.name| < 0x8000_0000
    ensures r.Some? <==> forall i :: 0 <= i < |f.rects| ==> Drawable(f.rects[i])
  {
    if exists i :: 0 <= i < |f.rects| && !Drawable(f.rects[i]) then None
    else
      var tiles := Compress(Raster(f.rects));
      Some(FlagChunks(f) + AutoWarpChunk(f) + f.unknownBytes
           + PaddedChunk(NAME_TAG, CharBytes(f.name)) + PaddedChunk(TILES_TAG, tiles))
  }
}
