/**
 * What `decodeRegion` makes of the bytes `getEncodedRegion` writes. Each sub-chunk the encoder
 * emits is read back by one turn of the decoding loop; the fields come back with the arena as
 * the encoder left it and the rectangles replaced by the decomposition of their union.
 */
module RoundTrip {
  import opened JavaInts
  import opened ByteArrays
  import opened Grids
  import opened TileDecoding
  import opened Compression
  import opened Decomposition
  import opened Chunks

  /** `piece` stands in `data` from index `cur` on. */
  predicate At(data: seq<byte>, cur: int, piece: seq<byte>)
  {
    0 <= cur && cur + |piece| <= |data| && data[cur..cur + |piece|] == piece
  }

  lemma AtSplit(data: seq<byte>, cur: int, a: seq<byte>, b: seq<byte>)
    requires At(data, cur, a + b)
    ensures At(data, cur, a) && At(data, cur + |a|, b)
  {
    assert data[cur..cur + |a|] == (a + b)[..|a|];
    assert data[cur + |a|..cur + |a| + |b|] == (a + b)[|a|..];
  }

  /** Where three consecutive pieces sit. */
  lemma AtThree(data: seq<byte>, cur: int, p: seq<byte>, q: seq<byte>, r: seq<byte>)
    requires At(data, cur, p + q + r)
    ensures At(data, cur, p) && At(data, cur + |p|, q) && At(data, cur + |p| + |q|, r)
  {
    AtSplit(data, cur, p + q, r);
    AtSplit(data, cur, p, q);
  }

  /** Where five consecutive pieces sit. */
  lemma AtFive(data: seq<byte>, cur: int, p: seq<byte>, q: seq<byte>, r: seq<byte>, s: seq<byte>, t: seq<byte>)
    requires At(data, cur, p + q + r + s + t)
    ensures At(data, cur, p) && At(data, cur + |p|, q) && At(data, cur + |p| + |q|, r)
    ensures At(data, cur + |p| + |q| + |r|, s) && At(data, cur + |p| + |q| + |r| + |s|, t)
  {
    AtSplit(data, cur, p + q + r + s, t);
    AtSplit(data, cur, p + q + r, s);
    AtThree(data, cur, p, q, r);
  }

  /** `AtSplit` for a piece known to be made of two parts, with the offsets named. */
  lemma AtParts(data: seq<byte>, cur: int, whole: seq<byte>, a: seq<byte>, b: seq<byte>, mid: int, end: int)
    requires At(data, cur, whole) && whole == a + b
    requires mid == cur + |a| && end == cur + |whole|
    ensures At(data, cur, a) && At(data, mid, b) && end == mid + |b|
  {
    AtSplit(data, cur, a, b);
  }

  /** Every character of `s` is in ISO-8859-1, so that `(byte) c` loses nothing. */
  predicate Latin1(s: string)
  {
    forall i :: 0 <= i < |s| ==> s[i] as int < 256
  }

  /** Neither end of `s` is a character that `trim` removes. */
  predicate Untrimmed(s: string)
  {
    s != [] ==> s[0] as int > 0x20 && s[|s| - 1] as int > 0x20
  }

  /** A tag that `readString(cur, 4)` reads back as written. */
  predicate GoodTag(tag: string)
  {
    |tag| == 4 && Latin1(tag) && Untrimmed(tag)
  }

  lemma CharBytesLatin1(s: string)
    requires Latin1(s)
    ensures CharBytes(s) == Latin1Encode(s)
  {
    assert forall i :: 0 <= i < |s| ==> CharBytes(s)[i] == Latin1Encode(s)[i];
  }

  /** A sub-chunk header: the tag and the length read back as they were written. */
  lemma HeaderRead(data: seq<byte>, cur: int, tag: string, len: i32)
    requires GoodTag(tag) && At(data, cur, CharBytes(tag) + IntLE(len))
    ensures ReadString(data, cur, 4) == tag && ReadLittleEndianInt(data, cur + 4) == len
  {
    AtSplit(data, cur, CharBytes(tag), IntLE(len));
    CharBytesLatin1(tag);
    ReadStringOfLatin1(data, cur, tag);
    ReadLittleEndianIntOf(data, cur + 4, len);
  }

  /** A padded chunk: its header at `cur`, its payload right after it. */
  lemma PaddedAt(data: seq<byte>, cur: int, tag: string, payload: seq<byte>)
    requires |tag| == 4 && |payload| < 0x8000_0000 && At(data, cur, PaddedChunk(tag, payload))
    ensures At(data, cur, CharBytes(tag) + IntLE(|payload|)) && At(data, cur + 8, payload)
  {
    var head := CharBytes(tag) + IntLE(|payload|);
    AtSplit(data, cur, head + payload, Padding(|payload|));
    AtSplit(data, cur, head, payload);
  }

  /** With room for a header at `cur`, a turn of the loop runs the body of the chunk there. */
  lemma Dispatch(data: seq<byte>, cur: i32, g: Fields)
    requires |data| < 0x8000_0000 && 0 <= cur && cur + 8 <= |data|
    ensures ChunkStep(data, cur, g)
         == ChunkBody(data, cur + 8, ReadString(data, cur, 4), ReadLittleEndianInt(data, cur + 4), g)
  {
  }

  /** A header at `cur` that reads back: the turn there runs the body of that chunk. */
  lemma Framed(data: seq<byte>, cur: i32, g: Fields, tag: string, len: i32)
    requires |data| < 0x8000_0000 && GoodTag(tag) && At(data, cur, CharBytes(tag) + IntLE(len))
    ensures ChunkStep(data, cur, g) == ChunkBody(data, cur + 8, tag, len, g)
  {
    HeaderRead(data, cur, tag, len);
    Dispatch(data, cur, g);
  }

  /** `ChunkBody` runs the body of the name chunk for its tag. */
  lemma NameKind(data: seq<byte>, c: i32, len: i32, g: Fields)
    requires 0 <= c <= |data| < 0x8000_0000
    ensures ChunkBody(data, c, NAME_TAG, len, g) == NameBody(data, c, len, g)
  {
  }

  /** `ChunkBody` runs the body of the tile chunk for its tag. */
  lemma TilesKind(data: seq<byte>, c: i32, len: i32, g: Fields)
    requires 0 <= c <= |data| < 0x8000_0000
    ensures ChunkBody(data, c, TILES_TAG, len, g) == TilesBody(data, c, len, g)
  {
  }

  /** `ChunkBody` runs the body of the auto-warp chunk for its tag. */
  lemma WarpKind(data: seq<byte>, c: i32, len: i32, g: Fields)
    requires 0 <= c <= |data| < 0x8000_0000
    ensures ChunkBody(data, c, AUTO_WARP_TAG, len, g) == AutoWarpBody(data, c, len, g)
  {
  }

  /** The loop ends where the super-chunk ends. */
  lemma LoopEnd(data: seq<byte>, end: i32, g: Fields, fuel: nat)
    requires |data| < 0x8000_0000 && end == |data|
    ensures DecodeLoop(data, end, g, fuel) == RegionOk(g)
  {
  }

  /** `cur += padding` after a payload of `len` bytes moves past `Padding(len)`. */
  lemma PadPadding(cur: i32, len: i32)
    requires 0 <= len && cur + |Padding(len)| < 0x8000_0000
    ensures Pad(cur, len) == cur + |Padding(len)|
  {
  }

  // ---------------------------------------------------------------------------
  // Flag chunks
  //
  // Each kind of chunk has a lemma `...Moves` for the turn of `ChunkStep` over it and a lemma
  // `...Stage` for the loop. The cursor and the fields after the chunk are parameters, tied
  // to the chunk by `requires`, so that the loop is only ever applied to plain variables.
  // ---------------------------------------------------------------------------

  predicate IsFlagTag(tag: string)
  {
    tag == BASE_TAG || tag == NO_FLAGS_TAG || tag == NO_WEPS_TAG || tag == NO_ANTI_TAG
  }

  /** The fields with the flag that `tag` stands for set. */
  function WithFlag(g: Fields, tag: string): (g': Fields)
    requires IsFlagTag(tag)
  {
    if tag == BASE_TAG then g.(isBase := true)
    else if tag == NO_FLAGS_TAG then g.(isNoFlags := true)
    else if tag == NO_WEPS_TAG then g.(isNoWeps := true)
    else g.(isNoAnti := true)
  }

  /** The body of a flag chunk of length 0. */
  lemma FlagBody(data: seq<byte>, c: i32, tag: string, g: Fields)
    requires 0 <= c <= |data| < 0x8000_0000 && IsFlagTag(tag)
    ensures ChunkBody(data, c, tag, 0, g) == Continue(c, WithFlag(g, tag))
  {
  }

  /** Where the pieces of a flag chunk stand. */
  lemma FlagLayout(data: seq<byte>, cur: i32, tag: string)
    requires IsFlagTag(tag) && At(data, cur, FlagChunk(true, tag))
    ensures GoodTag(tag) && At(data, cur, CharBytes(tag) + IntLE(0)) && 0 <= cur && cur + 8 <= |data|
  {
  }

  /** A flag chunk of length 0 sets its flag and nothing else. */
  lemma FlagMoves(data: seq<byte>, cur: i32, g: Fields, tag: string, next: i32, g': Fields)
    requires |data| < 0x8000_0000 && IsFlagTag(tag) && At(data, cur, FlagChunk(true, tag))
    requires next == cur + 8 && g' == WithFlag(g, tag)
    ensures 0 <= cur && cur + 8 <= |data| && ChunkStep(data, cur, g) == Continue(next, g')
  {
    FlagLayout(data, cur, tag);
    Framed(data, cur, g, tag, 0);
    FlagBody(data, cur + 8, tag, g);
  }

  /** An optional flag chunk: one turn when it is there, none when it is not. */
  lemma FlagStage(data: seq<byte>, cur: i32, g: Fields, fuel: nat, on: bool, tag: string,
                  next: i32, g': Fields, fuel': nat)
    requires |data| < 0x8000_0000 && IsFlagTag(tag) && At(data, cur, FlagChunk(on, tag))
    requires next == cur + |FlagChunk(on, tag)| && g' == (if on then WithFlag(g, tag) else g)
    requires fuel == fuel' + (if on then 1 else 0)
    ensures DecodeLoop(data, cur, g, fuel) == DecodeLoop(data, next, g', fuel')
  {
    if on {
      FlagMoves(data, cur, g, tag, next, g');
      LoopStep(data, cur, g, fuel, next, g', fuel');
    } else {
      assert next == cur && g' == g && fuel' == fuel;
    }
  }

  /** The flags of `g` with those of `f` added. */
  function MergeFlags(g: Fields, f: Fields): (h: Fields)
  {
    g.(isBase := g.isBase || f.isBase, isNoFlags := g.isNoFlags || f.isNoFlags,
       isNoWeps := g.isNoWeps || f.isNoWeps, isNoAnti := g.isNoAnti || f.isNoAnti)
  }

  /** Where the four flag chunks `getEncodedRegion` writes first sit. */
  lemma FlagsAt(data: seq<byte>, cur: int, f: Fields, c1: int, c2: int, c3: int)
    requires At(data, cur, FlagChunks(f))
    requires c1 == cur + |FlagChunk(f.isBase, BASE_TAG)|
    requires c2 == c1 + |FlagChunk(f.isNoFlags, NO_FLAGS_TAG)|
    requires c3 == c2 + |FlagChunk(f.isNoWeps, NO_WEPS_TAG)|
    ensures At(data, cur, FlagChunk(f.isBase, BASE_TAG)) && At(data, c1, FlagChunk(f.isNoFlags, NO_FLAGS_TAG))
    ensures At(data, c2, FlagChunk(f.isNoWeps, NO_WEPS_TAG)) && At(data, c3, FlagChunk(f.isNoAnti, NO_ANTI_TAG))
    ensures cur + |FlagChunks(f)| == c3 + |FlagChunk(f.isNoAnti, NO_ANTI_TAG)|
  {
    var a, b := FlagChunk(f.isBase, BASE_TAG), FlagChunk(f.isNoFlags, NO_FLAGS_TAG);
    var c, d := FlagChunk(f.isNoWeps, NO_WEPS_TAG), FlagChunk(f.isNoAnti, NO_ANTI_TAG);
    AtSplit(data, cur, a + b + c, d);
    AtSplit(data, cur, a + b, c);
    AtSplit(data, cur, a, b);
  }

  /** Setting the flags one chunk at a time merges them all. */
  lemma FlagsMerge(g: Fields, f: Fields, g1: Fields, g2: Fields, g3: Fields)
    requires g1 == (if f.isBase then WithFlag(g, BASE_TAG) else g)
    requires g2 == (if f.isNoFlags then WithFlag(g1, NO_FLAGS_TAG) else g1)
    requires g3 == (if f.isNoWeps then WithFlag(g2, NO_WEPS_TAG) else g2)
    ensures MergeFlags(g, f) == if f.isNoAnti then WithFlag(g3, NO_ANTI_TAG) else g3
  {
  }

  lemma FlagsStage(data: seq<byte>, cur: i32, g: Fields, fuel: nat, f: Fields,
                   next: i32, g': Fields, fuel': nat)
    requires |data| < 0x8000_0000 && At(data, cur, FlagChunks(f))
    requires next == cur + |FlagChunks(f)| && g' == MergeFlags(g, f) && fuel == fuel' + FlagCount(f)
    ensures DecodeLoop(data, cur, g, fuel) == DecodeLoop(data, next, g', fuel')
  {
    var c1: i32 := cur + |FlagChunk(f.isBase, BASE_TAG)|;
    var c2: i32 := c1 + |FlagChunk(f.isNoFlags, NO_FLAGS_TAG)|;
    var c3: i32 := c2 + |FlagChunk(f.isNoWeps, NO_WEPS_TAG)|;
    var g1 := if f.isBase then WithFlag(g, BASE_TAG) else g;
    var g2 := if f.isNoFlags then WithFlag(g1, NO_FLAGS_TAG) else g1;
    var g3 := if f.isNoWeps then WithFlag(g2, NO_WEPS_TAG) else g2;
    FlagsAt(data, cur, f, c1, c2, c3);
    FlagsMerge(g, f, g1, g2, g3);
    var fuel3: nat := fuel' + (if f.isNoAnti then 1 else 0);
    var fuel2: nat := fuel3 + (if f.isNoWeps then 1 else 0);
    var fuel1: nat := fuel2 + (if f.isNoFlags then 1 else 0);
    assert fuel == fuel1 + (if f.isBase then 1 else 0);
    FlagStage(data, cur, g, fuel, f.isBase, BASE_TAG, c1, g1, fuel1);
    FlagStage(data, c1, g1, fuel1, f.isNoFlags, NO_FLAGS_TAG, c2, g2, fuel2);
    FlagStage(data, c2, g2, fuel2, f.isNoWeps, NO_WEPS_TAG, c3, g3, fuel3);
    FlagStage(data, c3, g3, fuel3, f.isNoAnti, NO_ANTI_TAG, next, g', fuel');
  }

  // ---------------------------------------------------------------------------
  // The auto-warp chunk
  // ---------------------------------------------------------------------------

  /** No character of `s` is written as a zero byte. */
  predicate NoNul(s: string)
  {
    forall i :: 0 <= i < |s| ==> s[i] as int != 0
  }

  /** An arena name that the 16-byte field holds with its terminating zero and reads back. */
  predicate ArenaFits(a: string)
  {
    |a| < 16 && Latin1(a) && Untrimmed(a) && NoNul(a)
  }

  /** The auto-warp chunk reads back: a position that fits a `short`, an arena that fits. */
  predicate WarpFits(f: Fields)
  {
    f.isAutoWarp ==>
      && -0x8000 <= f.x < 0x8000 && -0x8000 <= f.y < 0x8000
      && (f.arena != "" ==> ArenaFits(CutArena(f)))
  }

  /** The auto-warp fields of `g` once the auto-warp chunk of `f` has been read. */
  function WarpFields(g: Fields, f: Fields): (h: Fields)
  {
    if !f.isAutoWarp then g
    else g.(isAutoWarp := true, x := f.x, y := f.y, arena := if f.arena == "" then g.arena else CutArena(f))
  }

  lemma {:induction false} FirstZeroAt(s: seq<byte>, i: nat, z: nat)
    requires i <= z < |s| && s[z] == 0
    requires forall j :: i <= j < z ==> s[j] != 0
    ensures FirstZero(s, i) == Some(z)
    decreases z - i
  {
    if i < z {
      FirstZeroAt(s, i + 1, z);
    }
  }

  /** The arena field: the name, then zeros up to 16 bytes; read back up to the first zero. */
  lemma ArenaRead(data: seq<byte>, c: int, a: string)
    requires ArenaFits(a) && At(data, c, CharBytes(a)) && At(data, c + |a|, Fill(0, 16 - |a|))
    ensures NullTerminated(data, c) == Some(a)
  {
    forall j | c <= j < c + |a|
      ensures data[j] != 0
    {
      assert data[j] == CharBytes(a)[j - c];
    }
    assert data[c + |a|] == Fill(0, 16 - |a|)[0];
    FirstZeroAt(data, c, c + |a|);
    CharBytesLatin1(a);
    ReadStringOfLatin1(data, c, a);
  }
  /**
   * With the intended cut, every arena of Latin-1 characters without NUL and without blank ends
   * reads back from the 16-byte field as its first 15 characters (all of it when shorter): the
   * field is exactly the 16 bytes the chunk declares, with a zero after the arena.
   */
  lemma IntendedArenaRead(data: seq<byte>, c: int, f: Fields)
    requires f.isAutoWarp
    requires var a := CutArenaIntended(f); Latin1(a) && Untrimmed(a) && NoNul(a)
    requires var a := CutArenaIntended(f); At(data, c, CharBytes(a) + Fill(0, 16 - |a|))
    ensures |CharBytes(CutArenaIntended(f)) + Fill(0, 16 - |CutArenaIntended(f)|)| == 16
    ensures NullTerminated(data, c) == Some(CutArenaIntended(f))
  {
    var a := CutArenaIntended(f);
    var bs, zs := CharBytes(a), Fill(0, 16 - |a|);
    AtSplit(data, c, bs, zs);
    ArenaRead(data, c, a);
  }


  /** The position: two little-endian `short`s. */
  lemma PositionRead(data: seq<byte>, c: int, x: int, y: int)
    requires -0x8000 <= x < 0x8000 && -0x8000 <= y < 0x8000
    requires At(data, c, Word(x)) && At(data, c + 2, Word(y))
    ensures ReadLittleEndianShort(data, c) == x && ReadLittleEndianShort(data, c + 2) == y
  {
    ReadLittleEndianShortOf(data, c, x as i16);
    ReadLittleEndianShortOf(data, c + 2, y as i16);
  }

  /** The auto-warp length that `getEncodedRegion` writes. */
  function WarpLength(f: Fields): (len: i32)
    ensures len == 4 || len == 20
  {
    if f.arena == "" then 4 else 20
  }

  /** The payload of the auto-warp chunk at `c`: the position and, with an arena, the arena field. */
  predicate WarpPieces(data: seq<byte>, c: int, f: Fields)
  {
    && At(data, c, Word(f.x)) && At(data, c + 2, Word(f.y))
    && (f.arena != "" ==> At(data, c + 4, CharBytes(CutArena(f))))
    && (f.arena != "" ==> At(data, c + 4 + |CutArena(f)|, Fill(0, 16 - |CutArena(f)|)))
  }

  /** The pieces of the auto-warp chunk: header, position and, with an arena, the arena field. */
  lemma WarpAt(data: seq<byte>, cur: int, f: Fields)
    requires f.isAutoWarp && WarpFits(f) && At(data, cur, AutoWarpChunk(f))
    ensures |AutoWarpChunk(f)| == 8 + WarpLength(f) && 0 <= cur && cur + 8 + WarpLength(f) <= |data|
    ensures GoodTag(AUTO_WARP_TAG) && At(data, cur, CharBytes(AUTO_WARP_TAG) + IntLE(WarpLength(f)))
    ensures WarpPieces(data, cur + 8, f)
  {
    var head := CharBytes(AUTO_WARP_TAG) + IntLE(WarpLength(f));
    if f.arena != "" {
      var a := CutArena(f);
      AtFive(data, cur, head, Word(f.x), Word(f.y), CharBytes(a), Fill(0, 16 - |a|));
    } else {
      AtThree(data, cur, head, Word(f.x), Word(f.y));
    }
  }

  /** The body of the auto-warp chunk reads the position and the arena back. */
  lemma WarpRead(data: seq<byte>, c: i32, g: Fields, f: Fields)
    requires |data| < 0x8000_0000 && c + WarpLength(f) <= |data| && f.isAutoWarp && WarpFits(f)
    requires WarpPieces(data, c, f)
    ensures AutoWarpBody(data, c, WarpLength(f), g) == Continue(c + WarpLength(f), WarpFields(g, f))
  {
    PositionRead(data, c, f.x, f.y);
    var x, y := ReadLittleEndianShort(data, c), ReadLittleEndianShort(data, c + 2);
    var f1 := g.(isAutoWarp := true, x := x, y := y);
    if f.arena == "" {
      assert AutoWarpBody(data, c, 4, g) == Continue(c + 4, f1);
    } else {
      ArenaRead(data, c + 4, CutArena(f));
      assert Wrap32(c + 20) == c + 20;
      assert AutoWarpBody(data, c, 20, g) == Continue(c + 20, f1.(arena := CutArena(f)));
    }
  }

  /** The auto-warp chunk sets the position and, when it has one, the arena. */
  lemma WarpMoves(data: seq<byte>, cur: i32, g: Fields, f: Fields, next: i32, g': Fields)
    requires |data| < 0x8000_0000 && f.isAutoWarp && WarpFits(f) && At(data, cur, AutoWarpChunk(f))
    requires next == cur + |AutoWarpChunk(f)| && g' == WarpFields(g, f)
    ensures 0 <= cur && cur + 8 <= |data| && ChunkStep(data, cur, g) == Continue(next, g')
  {
    WarpAt(data, cur, f);
    Framed(data, cur, g, AUTO_WARP_TAG, WarpLength(f));
    WarpKind(data, cur + 8, WarpLength(f), g);
    WarpRead(data, cur + 8, g, f);
  }

  /** The auto-warp chunk, when `f` has one. */
  lemma WarpStage(data: seq<byte>, cur: i32, g: Fields, fuel: nat, f: Fields,
                  next: i32, g': Fields, fuel': nat)
    requires |data| < 0x8000_0000 && WarpFits(f) && At(data, cur, AutoWarpChunk(f))
    requires next == cur + |AutoWarpChunk(f)| && g' == WarpFields(g, f)
    requires fuel == fuel' + (if f.isAutoWarp then 1 else 0)
    ensures DecodeLoop(data, cur, g, fuel) == DecodeLoop(data, next, g', fuel')
  {
    if f.isAutoWarp {
      WarpMoves(data, cur, g, f, next, g');
      LoopStep(data, cur, g, fuel, next, g', fuel');
    } else {
      assert next == cur && g' == g && fuel' == fuel;
    }
  }

  // ---------------------------------------------------------------------------
  // Unknown chunks
  // ---------------------------------------------------------------------------

  /** A sub-chunk that `decodeRegion` does not understand, as it stands in the input. */
  datatype Kept = Kept(tag: string, payload: seq<byte>)

  /** `k` reaches the unknown case of `decodeRegion`. */
  predicate IsUnknown(k: Kept)
  {
    && GoodTag(k.tag) && |k.payload| < 0x8000_0000
    && k.tag != AUTO_WARP_TAG && k.tag != NAME_TAG && k.tag != TILES_TAG
    && (k.payload == [] ==> !IsFlagTag(k.tag))
  }

  /**
   * An unknown chunk is kept as its tag, length and payload followed by one zero when the
   * length is not a multiple of four; that is the chunk as it stood exactly when its padding
   * is zero or one byte long.
   */
  lemma UnknownPassThrough(tag: string, payload: seq<byte>)
    requires |tag| == 4 && |payload| < 0x8000_0000
    ensures UnknownRecord(tag, |payload|, payload) == PaddedChunk(tag, payload)
        <==> |payload| % 4 == 0 || |payload| % 4 == 3
  {
    var len := |payload|;
    var header := CharBytes(tag) + IntLE(len);
    if len % 4 == 0 {
      assert Padding(len) == [];
      assert UnknownRecord(tag, len, payload) == header + payload + [];
    } else if len % 4 == 3 {
      assert Padding(len) == [0];
      assert UnknownRecord(tag, len, payload) == header + payload + [0];
    } else {
      assert |UnknownRecord(tag, len, payload)| != |PaddedChunk(tag, payload)|;
    }
  }

  /** The body of an unknown chunk keeps it in `unknownBytes`. */
  lemma UnknownRead(data: seq<byte>, c: i32, k: Kept, g: Fields)
    requires |data| < 0x8000_0000 && IsUnknown(k)
    requires At(data, c, k.payload) && c + |k.payload| + |Padding(|k.payload|)| < 0x8000_0000
    ensures UnknownBody(data, c, k.tag, |k.payload|, g)
         == Continue(c + |k.payload| + |Padding(|k.payload|)|,
                     g.(unknownBytes := g.unknownBytes + UnknownRecord(k.tag, |k.payload|, k.payload)))
  {
    var len := |k.payload|;
    assert Wrap32(c + len) == c + len;
    assert Payload(data, c, c + len) == k.payload;
    PadPadding(c + len, len);
  }

  /** Where the pieces of an unknown chunk stand. */
  lemma UnknownLayout(data: seq<byte>, cur: i32, k: Kept, next: i32)
    requires |data| < 0x8000_0000 && IsUnknown(k)
    requires At(data, cur, PaddedChunk(k.tag, k.payload))
    requires next == cur + |PaddedChunk(k.tag, k.payload)|
    ensures At(data, cur, CharBytes(k.tag) + IntLE(|k.payload|))
    ensures 0 <= cur && cur + 8 <= |data| && At(data, cur + 8, k.payload)
    ensures next == cur + 8 + |k.payload| + |Padding(|k.payload|)| && next <= |data|
  {
    PaddedAt(data, cur, k.tag, k.payload);
  }

  /** A tag `decodeRegion` does not know, or a flag tag with a length other than 0, is kept. */
  lemma UnknownKind(data: seq<byte>, c: i32, k: Kept, g: Fields)
    requires 0 <= c <= |data| < 0x8000_0000 && IsUnknown(k)
    ensures ChunkBody(data, c, k.tag, |k.payload|, g) == UnknownBody(data, c, k.tag, |k.payload|, g)
  {
  }

  /**
   * Any unknown chunk is read into `unknownBytes` as its tag, length, payload and at most one
   * zero, and the cursor moves past its padding.
   */
  lemma UnknownStep(data: seq<byte>, cur: i32, g: Fields, k: Kept, next: i32, g': Fields)
    requires |data| < 0x8000_0000 && IsUnknown(k)
    requires At(data, cur, PaddedChunk(k.tag, k.payload))
    requires next == cur + |PaddedChunk(k.tag, k.payload)|
    requires g' == g.(unknownBytes := g.unknownBytes + UnknownRecord(k.tag, |k.payload|, k.payload))
    ensures 0 <= cur && cur + 8 <= |data| && ChunkStep(data, cur, g) == Continue(next, g')
  {
    UnknownLayout(data, cur, k, next);
    Framed(data, cur, g, k.tag, |k.payload|);
    UnknownKind(data, cur + 8, k, g);
    UnknownRead(data, cur + 8, k, g);
  }

  /** An unknown chunk that passes through is appended to `unknownBytes` as it stands. */
  lemma UnknownMoves(data: seq<byte>, cur: i32, g: Fields, k: Kept, next: i32, g': Fields)
    requires |data| < 0x8000_0000 && IsUnknown(k) && (|k.payload| % 4 == 0 || |k.payload| % 4 == 3)
    requires At(data, cur, PaddedChunk(k.tag, k.payload))
    requires next == cur + |PaddedChunk(k.tag, k.payload)|
    requires g' == g.(unknownBytes := g.unknownBytes + PaddedChunk(k.tag, k.payload))
    ensures 0 <= cur && cur + 8 <= |data| && ChunkStep(data, cur, g) == Continue(next, g')
  {
    UnknownPassThrough(k.tag, k.payload);
    UnknownStep(data, cur, g, k, next, g');
  }

  /** Unknown chunks that come back byte for byte. */
  predicate AllPass(ks: seq<Kept>)
  {
    forall i :: 0 <= i < |ks| ==> IsUnknown(ks[i]) && (|ks[i].payload| % 4 == 0 || |ks[i].payload| % 4 == 3)
  }

  lemma Appended(u: seq<byte>, a: seq<byte>, b: seq<byte>)
    ensures u + (a + b) == u + a + b
  {
  }

  /** The chunks `ks` one after the other. */
  function KeptBytes(ks: seq<Kept>): (r: seq<byte>)
    requires AllPass(ks)
    ensures |r| >= 8 * |ks|
  {
    if ks == [] then [] else PaddedChunk(ks[0].tag, ks[0].payload) + KeptBytes(ks[1..])
  }

  /** The first of the kept chunks and the others. */
  lemma KeptSplit(ks: seq<Kept>)
    requires AllPass(ks) && ks != []
    ensures AllPass(ks[1..])
    ensures KeptBytes(ks) == PaddedChunk(ks[0].tag, ks[0].payload) + KeptBytes(ks[1..])
  {
    var rest := ks[1..];
    forall i | 0 <= i < |rest|
      ensures IsUnknown(rest[i]) && (|rest[i].payload| % 4 == 0 || |rest[i].payload| % 4 == 3)
    {
      assert rest[i] == ks[i + 1];
    }
  }

  /** What is left to add to `unknownBytes` once the first of the chunks `ks` is read. */
  lemma KeptFields(g: Fields, ks: seq<Kept>, g': Fields, g1: Fields)
    requires AllPass(ks) && ks != [] && g' == g.(unknownBytes := g.unknownBytes + KeptBytes(ks))
    requires g1 == g.(unknownBytes := g.unknownBytes + PaddedChunk(ks[0].tag, ks[0].payload))
    ensures IsUnknown(ks[0]) && (|ks[0].payload| % 4 == 0 || |ks[0].payload| % 4 == 3) && AllPass(ks[1..])
    ensures KeptBytes(ks) == PaddedChunk(ks[0].tag, ks[0].payload) + KeptBytes(ks[1..])
    ensures g' == g1.(unknownBytes := g1.unknownBytes + KeptBytes(ks[1..]))
  {
    KeptSplit(ks);
    Appended(g.unknownBytes, PaddedChunk(ks[0].tag, ks[0].payload), KeptBytes(ks[1..]));
  }

  /** Chunks that pass through come out in `unknownBytes` exactly as they went in. */
  lemma {:induction false} UnknownStage(data: seq<byte>, cur: i32, g: Fields, fuel: nat, ks: seq<Kept>,
                                        next: i32, g': Fields, fuel': nat)
    requires |data| < 0x8000_0000 && AllPass(ks) && At(data, cur, KeptBytes(ks))
    requires next == cur + |KeptBytes(ks)| && g' == g.(unknownBytes := g.unknownBytes + KeptBytes(ks))
    requires fuel == fuel' + |ks|
    ensures DecodeLoop(data, cur, g, fuel) == DecodeLoop(data, next, g', fuel')
    decreases |ks|
  {
    if ks == [] {
      assert KeptBytes(ks) == [];
      assert g.unknownBytes + [] == g.unknownBytes;
      assert next == cur && g' == g && fuel' == fuel;
    } else {
      var c1: i32 := cur + |PaddedChunk(ks[0].tag, ks[0].payload)|;
      var g1 := g.(unknownBytes := g.unknownBytes + PaddedChunk(ks[0].tag, ks[0].payload));
      KeptFields(g, ks, g', g1);
      AtParts(data, cur, KeptBytes(ks), PaddedChunk(ks[0].tag, ks[0].payload), KeptBytes(ks[1..]), c1, next);
      UnknownMoves(data, cur, g, ks[0], c1, g1);
      var fuel1: nat := fuel - 1;
      LoopStep(data, cur, g, fuel, c1, g1, fuel1);
      UnknownStage(data, c1, g1, fuel1, ks[1..], next, g', fuel');
    }
  }

  // ---------------------------------------------------------------------------
  // The name and the tile data
  // ---------------------------------------------------------------------------

  /** A name that `readString` reads back as written. */
  predicate NameFits(name: string)
  {
    Latin1(name) && Untrimmed(name) && |name| < 0x1000_0000
  }

  /** The body of the name chunk reads the name back. */
  lemma NameRead(data: seq<byte>, c: i32, g: Fields, name: string)
    requires |data| < 0x8000_0000 && NameFits(name)
    requires At(data, c, CharBytes(name)) && c + |name| + |Padding(|name|)| < 0x8000_0000
    ensures NameBody(data, c, |name|, g) == Continue(c + |name| + |Padding(|name|)|, g.(name := name))
  {
    CharBytesLatin1(name);
    ReadStringOfLatin1(data, c, name);
    PadPadding(c + |name|, |name|);
  }

  /** Where the pieces of a name chunk stand. */
  lemma NameLayout(data: seq<byte>, cur: i32, name: string, next: i32)
    requires |data| < 0x8000_0000 && NameFits(name)
    requires At(data, cur, PaddedChunk(NAME_TAG, CharBytes(name)))
    requires next == cur + |PaddedChunk(NAME_TAG, CharBytes(name))|
    ensures GoodTag(NAME_TAG) && At(data, cur, CharBytes(NAME_TAG) + IntLE(|name|))
    ensures 0 <= cur && cur + 8 <= |data| && At(data, cur + 8, CharBytes(name))
    ensures next == cur + 8 + |name| + |Padding(|name|)| && next <= |data|
  {
    PaddedAt(data, cur, NAME_TAG, CharBytes(name));
  }

  /** The name chunk sets the name. */
  lemma NameMoves(data: seq<byte>, cur: i32, g: Fields, name: string, next: i32, g': Fields)
    requires |data| < 0x8000_0000 && NameFits(name)
    requires At(data, cur, PaddedChunk(NAME_TAG, CharBytes(name)))
    requires next == cur + |PaddedChunk(NAME_TAG, CharBytes(name))| && g' == g.(name := name)
    ensures 0 <= cur && cur + 8 <= |data| && ChunkStep(data, cur, g) == Continue(next, g')
  {
    NameLayout(data, cur, name, next);
    Framed(data, cur, g, NAME_TAG, |name|);
    NameKind(data, cur + 8, |name|, g);
    NameRead(data, cur + 8, g, name);
  }

  lemma NameStage(data: seq<byte>, cur: i32, g: Fields, fuel: nat, name: string,
                  next: i32, g': Fields, fuel': nat)
    requires |data| < 0x8000_0000 && NameFits(name) && fuel == fuel' + 1
    requires At(data, cur, PaddedChunk(NAME_TAG, CharBytes(name)))
    requires next == cur + |PaddedChunk(NAME_TAG, CharBytes(name))| && g' == g.(name := name)
    ensures DecodeLoop(data, cur, g, fuel) == DecodeLoop(data, next, g', fuel')
  {
    NameMoves(data, cur, g, name, next, g');
    LoopStep(data, cur, g, fuel, next, g', fuel');
  }

  /** The body of a tile chunk whose payload decodes to `grid` adds the decomposition of `grid`. */
  lemma TilesRead(data: seq<byte>, c: i32, g: Fields, tiles: seq<byte>, grid: Grid)
    requires |data| < 0x8000_0000 && At(data, c, tiles) && c + |tiles| + |Padding(|tiles|)| < 0x8000_0000
    requires DecodeGrid(data, c, |tiles|) == Tiles(grid)
    ensures TilesBody(data, c, |tiles|, g)
         == Continue(c + |tiles| + |Padding(|tiles|)|, g.(rects := g.rects + Decompose(grid)))
  {
    var len := |tiles|;
    assert Wrap32(c + len) == c + len;
    PadPadding(c + len, len);
  }

  /** Where the pieces of a tile chunk stand. */
  lemma TilesLayout(data: seq<byte>, cur: i32, tiles: seq<byte>, next: i32)
    requires |data| < 0x8000_0000 && |tiles| < 0x8000_0000
    requires At(data, cur, PaddedChunk(TILES_TAG, tiles))
    requires next == cur + |PaddedChunk(TILES_TAG, tiles)|
    ensures GoodTag(TILES_TAG) && At(data, cur, CharBytes(TILES_TAG) + IntLE(|tiles|))
    ensures 0 <= cur && cur + 8 <= |data| && At(data, cur + 8, tiles)
    ensures next == cur + 8 + |tiles| + |Padding(|tiles|)| && next <= |data|
  {
    PaddedAt(data, cur, TILES_TAG, tiles);
  }

  /** A tile chunk whose payload decodes to `grid` adds the decomposition of `grid`. */
  lemma TilesMoves(data: seq<byte>, cur: i32, g: Fields, tiles: seq<byte>, grid: Grid, next: i32, g': Fields)
    requires |data| < 0x8000_0000 && |tiles| < 0x8000_0000
    requires At(data, cur, PaddedChunk(TILES_TAG, tiles))
    requires DecodeGrid(data, cur + 8, |tiles|) == Tiles(grid)
    requires next == cur + |PaddedChunk(TILES_TAG, tiles)| && g' == g.(rects := g.rects + Decompose(grid))
    ensures 0 <= cur && cur + 8 <= |data| && ChunkStep(data, cur, g) == Continue(next, g')
  {
    TilesLayout(data, cur, tiles, next);
    Framed(data, cur, g, TILES_TAG, |tiles|);
    TilesKind(data, cur + 8, |tiles|, g);
    TilesRead(data, cur + 8, g, tiles, grid);
  }

  lemma TilesStage(data: seq<byte>, cur: i32, g: Fields, fuel: nat, tiles: seq<byte>, grid: Grid,
                   next: i32, g': Fields, fuel': nat)
    requires |data| < 0x8000_0000 && |tiles| < 0x8000_0000 && fuel == fuel' + 1
    requires At(data, cur, PaddedChunk(TILES_TAG, tiles))
    requires DecodeGrid(data, cur + 8, |tiles|) == Tiles(grid)
    requires next == cur + |PaddedChunk(TILES_TAG, tiles)| && g' == g.(rects := g.rects + Decompose(grid))
    ensures DecodeLoop(data, cur, g, fuel) == DecodeLoop(data, next, g', fuel')
  {
    TilesMoves(data, cur, g, tiles, grid, next, g');
    LoopStep(data, cur, g, fuel, next, g', fuel');
  }
}
