// The round trip of a whole region: what `getEncodedRegion` writes, `decodeRegion` reads back.

module WholeRegion {
  import opened JavaInts
  import opened ByteArrays
  import opened Grids
  import opened TileDecoding
  import opened Compression
  import opened Decomposition
  import opened Chunks
  import opened RoundTrip

  /**
   * Fields that `getEncodedRegion` writes in a form `decodeRegion` reads back: rectangles inside
   * the grid, a name and an arena that survive `(byte)` and `trim`, a position that fits a
   * `short`, and unknown bytes made of whole chunks that pass through.
   */
  predicate Encodable(f: Fields, ks: seq<Kept>)
  {
    && (forall i :: 0 <= i < |f.rects| ==> Drawable(f.rects[i]))
    && NameFits(f.name) && WarpFits(f)
    && AllPass(ks) && f.unknownBytes == KeptBytes(ks) && |f.unknownBytes| < 0x1000_0000
  }

  /** The fields of `g` after decoding what `getEncodedRegion` wrote for `f`. */
  function Decoded(f: Fields, g: Fields): (h: Fields)
  {
    WarpFields(MergeFlags(g, f), f).(
      name := f.name,
      rects := g.rects + Decompose(Raster(f.rects)),
      unknownBytes := g.unknownBytes + f.unknownBytes)
  }

  /**
   * Where the five pieces of an encoding of `f` stand in `data`: the flag chunks at 0, the
   * auto-warp chunk at `c1`, the unknown chunks `ks` at `c2`, the name chunk at `c3` and the tile
   * chunk, whose payload `tiles` decodes to `grid`, at `c4`, up to the end.
   */
  predicate Laid(data: seq<byte>, f: Fields, ks: seq<Kept>, tiles: seq<byte>, grid: Grid,
                 c1: i32, c2: i32, c3: i32, c4: i32)
  {
    && |data| < 0x8000_0000 && NameFits(f.name) && WarpFits(f) && |tiles| < 0x8000_0000 && IsGrid(grid)
    && AllPass(ks) && f.unknownBytes == KeptBytes(ks)
    && At(data, 0, FlagChunks(f)) && c1 == |FlagChunks(f)|
    && At(data, c1, AutoWarpChunk(f)) && c2 == c1 + |AutoWarpChunk(f)|
    && At(data, c2, KeptBytes(ks)) && c3 == c2 + |KeptBytes(ks)|
    && At(data, c3, PaddedChunk(NAME_TAG, CharBytes(f.name))) && c4 == c3 + |PaddedChunk(NAME_TAG, CharBytes(f.name))|
    && At(data, c4, PaddedChunk(TILES_TAG, tiles)) && |data| == c4 + |PaddedChunk(TILES_TAG, tiles)|
    && DecodeGrid(data, c4 + 8, |tiles|) == Tiles(grid)
  }

  /** Every chunk takes at least 8 bytes, so the fuel of `decodeRegion` covers every turn. */
  lemma LaidFuel(data: seq<byte>, f: Fields, ks: seq<Kept>, tiles: seq<byte>, grid: Grid,
                 c1: i32, c2: i32, c3: i32, c4: i32)
    requires Laid(data, f, ks, tiles, grid, c1, c2, c3, c4)
    ensures |data| + 1 >= FlagCount(f) + (if f.isAutoWarp then 1 else 0) + |ks| + 2
  {
    assert |AutoWarpChunk(f)| >= 8 * (if f.isAutoWarp then 1 else 0);
  }

  /** The flag chunks and the auto-warp chunk. */
  lemma FirstStages(data: seq<byte>, f: Fields, ks: seq<Kept>, tiles: seq<byte>, grid: Grid,
                    c1: i32, c2: i32, c3: i32, c4: i32, g: Fields, fuel: nat, g2: Fields, fuel2: nat)
    requires Laid(data, f, ks, tiles, grid, c1, c2, c3, c4)
    requires g2 == WarpFields(MergeFlags(g, f), f)
    requires fuel == fuel2 + (if f.isAutoWarp then 1 else 0) + FlagCount(f)
    ensures DecodeLoop(data, 0, g, fuel) == DecodeLoop(data, c2, g2, fuel2)
  {
    var g1 := MergeFlags(g, f);
    var fuel1: nat := fuel2 + (if f.isAutoWarp then 1 else 0);
    FlagsStage(data, 0, g, fuel, f, c1, g1, fuel1);
    WarpStage(data, c1, g1, fuel1, f, c2, g2, fuel2);
  }

  /** The name chunk and the tile chunk, which ends the input. */
  lemma LastStages(data: seq<byte>, f: Fields, ks: seq<Kept>, tiles: seq<byte>, grid: Grid,
                   c1: i32, c2: i32, c3: i32, c4: i32, g3: Fields, fuel: nat, g5: Fields)
    requires Laid(data, f, ks, tiles, grid, c1, c2, c3, c4) && fuel >= 2
    requires g5 == g3.(name := f.name, rects := g3.rects + Decompose(grid))
    ensures DecodeLoop(data, c3, g3, fuel) == RegionOk(g5)
  {
    var g4 := g3.(name := f.name);
    var fuel4: nat, fuel5: nat := fuel - 1, fuel - 2;
    NameStage(data, c3, g3, fuel, f.name, c4, g4, fuel4);
    var end: i32 := |data|;
    assert g5 == g4.(rects := g4.rects + Decompose(grid));
    TilesStage(data, c4, g4, fuel4, tiles, grid, end, g5, fuel5);
    LoopEnd(data, end, g5, fuel5);
  }

  /** The unknown chunks, then the name and the tiles. */
  lemma MiddleStages(data: seq<byte>, f: Fields, ks: seq<Kept>, tiles: seq<byte>, grid: Grid,
                     c1: i32, c2: i32, c3: i32, c4: i32, g2: Fields, fuel2: nat, g5: Fields)
    requires Laid(data, f, ks, tiles, grid, c1, c2, c3, c4) && fuel2 >= |ks| + 2
    requires g5 == g2.(unknownBytes := g2.unknownBytes + f.unknownBytes, name := f.name,
                       rects := g2.rects + Decompose(grid))
    ensures DecodeLoop(data, c2, g2, fuel2) == RegionOk(g5)
  {
    var g3 := g2.(unknownBytes := g2.unknownBytes + KeptBytes(ks));
    var fuel3: nat := fuel2 - |ks|;
    UnknownStage(data, c2, g2, fuel2, ks, c3, g3, fuel3);
    LastStages(data, f, ks, tiles, grid, c1, c2, c3, c4, g3, fuel3, g5);
  }

  /** The five stages, one after the other, with a turn of fuel for every chunk. */
  lemma Stages(data: seq<byte>, f: Fields, ks: seq<Kept>, tiles: seq<byte>, grid: Grid,
               c1: i32, c2: i32, c3: i32, c4: i32, g: Fields, fuel: nat, h: Fields)
    requires Laid(data, f, ks, tiles, grid, c1, c2, c3, c4) && fuel == |data| + 1
    requires h == WarpFields(MergeFlags(g, f), f).(name := f.name, rects := g.rects + Decompose(grid),
                                                    unknownBytes := g.unknownBytes + f.unknownBytes)
    ensures DecodeLoop(data, 0, g, fuel) == RegionOk(h)
  {
    LaidFuel(data, f, ks, tiles, grid, c1, c2, c3, c4);
    var fuel2: nat := fuel - FlagCount(f) - (if f.isAutoWarp then 1 else 0);
    var g2 := WarpFields(MergeFlags(g, f), f);
    FirstStages(data, f, ks, tiles, grid, c1, c2, c3, c4, g, fuel, g2, fuel2);
    assert g2.rects == g.rects && g2.unknownBytes == g.unknownBytes;
    MiddleStages(data, f, ks, tiles, grid, c1, c2, c3, c4, g2, fuel2, h);
  }

  /** What `getEncodedRegion` writes for fields whose rectangles all lie inside the grid. */
  lemma Encoded(f: Fields, tiles: seq<byte>)
    requires |f.name| < 0x8000_0000 && forall i :: 0 <= i < |f.rects| ==> Drawable(f.rects[i])
    requires tiles == Compress(Raster(f.rects)) && |tiles| < 0x8000_0000
    ensures EncodeRegion(f)
         == Some(FlagChunks(f) + AutoWarpChunk(f) + f.unknownBytes
                 + PaddedChunk(NAME_TAG, CharBytes(f.name)) + PaddedChunk(TILES_TAG, tiles))
  {
  }

  /** Where the five pieces of an encoding stand. */
  lemma Pieces(data: seq<byte>, fl: seq<byte>, aw: seq<byte>, u: seq<byte>, nm: seq<byte>, tl: seq<byte>,
               c1: int, c2: int, c3: int, c4: int)
    requires data == fl + aw + u + nm + tl
    requires c1 == |fl| && c2 == c1 + |aw| && c3 == c2 + |u| && c4 == c3 + |nm|
    ensures At(data, 0, fl) && At(data, c1, aw) && At(data, c2, u) && At(data, c3, nm) && At(data, c4, tl)
    ensures |data| == c4 + |tl|
  {
    assert At(data, 0, data);
    AtSplit(data, 0, fl + aw + u + nm, tl);
    AtSplit(data, 0, fl + aw + u, nm);
    AtSplit(data, 0, fl + aw, u);
    AtSplit(data, 0, fl, aw);
  }

  /** The pieces of an encoding, one after the other, are laid out as `Laid` says. */
  lemma PiecesLaid(data: seq<byte>, f: Fields, ks: seq<Kept>, tiles: seq<byte>, grid: Grid,
                   c1: i32, c2: i32, c3: i32, c4: i32)
    requires Encodable(f, ks) && |data| < 0x8000_0000 && |tiles| < 0x8000_0000 && IsGrid(grid)
    requires data == FlagChunks(f) + AutoWarpChunk(f) + f.unknownBytes
                     + PaddedChunk(NAME_TAG, CharBytes(f.name)) + PaddedChunk(TILES_TAG, tiles)
    requires c1 == |FlagChunks(f)| && c2 == c1 + |AutoWarpChunk(f)| && c3 == c2 + |f.unknownBytes|
    requires c4 == c3 + |PaddedChunk(NAME_TAG, CharBytes(f.name))|
    requires DecodeGrid(data, c4 + 8, |tiles|) == Tiles(grid)
    ensures Laid(data, f, ks, tiles, grid, c1, c2, c3, c4)
  {
    Pieces(data, FlagChunks(f), AutoWarpChunk(f), f.unknownBytes,
           PaddedChunk(NAME_TAG, CharBytes(f.name)), PaddedChunk(TILES_TAG, tiles), c1, c2, c3, c4);
  }

  /** The tile chunk of an encoding decodes to the grid its rectangles cover. */
  lemma TilesLaid(data: seq<byte>, f: Fields, tiles: seq<byte>, grid: Grid, c4: i32)
    requires grid == Raster(f.rects) && tiles == Compress(grid) && |tiles| < 0x8000_0000 && |data| < 0x8000_0000
    requires At(data, c4, PaddedChunk(TILES_TAG, tiles)) && |data| == c4 + |PaddedChunk(TILES_TAG, tiles)|
    ensures DecodeGrid(data, c4 + 8, |tiles|) == Tiles(grid)
  {
    PaddedAt(data, c4, TILES_TAG, tiles);
    CompressionLosslessAt(grid, data, c4 + 8);
  }

  /** Where the pieces of the encoding of `f` with tile data `tiles` start; all of it fits an `int`. */
  lemma Offsets(f: Fields, ks: seq<Kept>, tiles: seq<byte>) returns (c1: i32, c2: i32, c3: i32, c4: i32)
    requires Encodable(f, ks) && |tiles| <= 2100 * SIZE + 2
    ensures c1 == |FlagChunks(f)| && c2 == c1 + |AutoWarpChunk(f)| && c3 == c2 + |f.unknownBytes|
    ensures c4 == c3 + |PaddedChunk(NAME_TAG, CharBytes(f.name))|
    ensures c4 + |PaddedChunk(TILES_TAG, tiles)| < 0x8000_0000
  {
    assert |AutoWarpChunk(f)| <= 28;
    c1 := |FlagChunks(f)|;
    c2 := c1 + |AutoWarpChunk(f)|;
    c3 := c2 + |f.unknownBytes|;
    c4 := c3 + |PaddedChunk(NAME_TAG, CharBytes(f.name))|;
  }

  /** `decodeRegion` starts the loop at 0 with one more turn than there are bytes. */
  lemma RegionLoop(data: seq<byte>, g: Fields, fuel: nat, r: RegionResult)
    requires |data| < 0x8000_0000 && fuel == |data| + 1 && DecodeLoop(data, 0, g, fuel) == r
    ensures DecodeRegion(data, g) == r
  {
  }

  /** The bytes `getEncodedRegion` writes for encodable fields, and where their pieces stand. */
  lemma EncodingLaid(f: Fields, ks: seq<Kept>)
    returns (data: seq<byte>, tiles: seq<byte>, grid: Grid, c1: i32, c2: i32, c3: i32, c4: i32)
    requires Encodable(f, ks)
    ensures EncodeRegion(f) == Some(data) && grid == Raster(f.rects)
    ensures Laid(data, f, ks, tiles, grid, c1, c2, c3, c4)
  {
    grid := Raster(f.rects);
    tiles := Compress(grid);
    c1, c2, c3, c4 := Offsets(f, ks, tiles);
    Encoded(f, tiles);
    data := EncodeRegion(f).value;
    Pieces(data, FlagChunks(f), AutoWarpChunk(f), f.unknownBytes,
           PaddedChunk(NAME_TAG, CharBytes(f.name)), PaddedChunk(TILES_TAG, tiles), c1, c2, c3, c4);
    TilesLaid(data, f, tiles, grid, c4);
    PiecesLaid(data, f, ks, tiles, grid, c1, c2, c3, c4);
  }

  /**
   * Decoding the encoding of `f` into a region with fields `g` succeeds: the flags, position,
   * (shortened) arena, name and unknown chunks of `f` arrive, and the rectangles added are the
   * decomposition of the tiles `f` covers.
   */
  lemma RegionRoundTrip(f: Fields, g: Fields, ks: seq<Kept>)
    requires Encodable(f, ks)
    ensures EncodeRegion(f).Some? && |EncodeRegion(f).value| < 0x8000_0000
    ensures DecodeRegion(EncodeRegion(f).value, g) == RegionOk(Decoded(f, g))
  {
    var data, tiles, grid, c1, c2, c3, c4 := EncodingLaid(f, ks);
    var fuel: nat := |data| + 1;
    Stages(data, f, ks, tiles, grid, c1, c2, c3, c4, g, fuel, Decoded(f, g));
    RegionLoop(data, g, fuel, RegionOk(Decoded(f, g)));
  }

  /**
   * Into a new region: the decoded rectangles are disjoint, in row-major order and cover
   * exactly the tiles the original ones covered.
   */
  lemma FreshRoundTrip(f: Fields, ks: seq<Kept>)
    requires Encodable(f, ks)
    ensures EncodeRegion(f).Some? && |EncodeRegion(f).value| < 0x8000_0000
    ensures var r := DecodeRegion(EncodeRegion(f).value, Fresh);
            && r.RegionOk? && r.f.name == f.name && r.f.unknownBytes == f.unknownBytes
            && r.f.isBase == f.isBase && r.f.isNoFlags == f.isNoFlags
            && r.f.isNoWeps == f.isNoWeps && r.f.isNoAnti == f.isNoAnti
            && r.f.isAutoWarp == f.isAutoWarp
            && (f.isAutoWarp ==> r.f.x == f.x && r.f.y == f.y && r.f.arena == CutArena(f))
            && PairwiseDisjoint(r.f.rects) && RowMajor(r.f.rects)
            && Raster(r.f.rects) == Raster(f.rects)
  {
    RegionRoundTrip(f, Fresh, ks);
    DecomposeCorrect(Raster(f.rects));
    assert [] + Decompose(Raster(f.rects)) == Decompose(Raster(f.rects));
  }
}
