# Map regions of Subspace Infinity, in Dafny

An eLVL map can carry named *regions*: sets of tiles on the 1024 x 1024 map grid, with a few
flags (base, no flags, no weapons, no antiwarp), an optional auto-warp target (a position and
an arena name), and any sub-chunks the reader did not understand. On disk a region is a REGN
super-chunk. It is a sequence of sub-chunks, each made of:

- a four-character tag;
- a little-endian `int` length;
- the payload, padded with zeros to a multiple of four.

The tiles travel in an `rTIL` sub-chunk as a run-length-encoded bitmap. It has eight
instruction kinds, each in a one-byte or a two-byte form:

- runs of empty tiles;
- runs of present tiles;
- runs of empty rows;
- repeats of the last row.

On reading, the bitmap is replayed onto a grid. The grid is then cut, greedily and in row-major
order, into disjoint rectangles. On writing, the rectangles are drawn onto a grid and compressed
row by row. The class `ByteArray` is the byte buffer the codec works on: an array and an
insertion pointer, with big- and little-endian writers and readers.

The model follows the source's own form:

- **`JavaInts`**: Java `byte`/`short`/`int`/`long`. Wrap-around and the truncating `%` are
  written out.
- **`ByteArrays`**:
  - the byte-order encoders and the readers, as functions;
  - `ByteArray` as a class with an `array<byte>` and a pointer, whose writers are proved
    against `Overwrite`.
- **`Rle`**: the instruction headers, the three encoders and the header decoders, with their
  round trip.
- **`Grids`**: the grid, rectangles and rasterisation.
- **`TileDecoding`**: the first half of `decodeTiles` (the replay), as a function over the
  instruction stream, with its error cases.
- **`Decomposition`**: the second half of `decodeTiles` (the greedy rectangle scan), as a
  function, with the proof that the rectangles are disjoint, in row-major order and cover
  exactly the decoded tiles.
- **`Compression`**: `getCompressedRGN` as a function over the row loop's state, with the proof
  that it is lossless.
- **`Chunks`**: `decodeRegion` as a loop over sub-chunk steps, and `getEncodedRegion` as the
  concatenation of its chunks.
- **`RoundTrip`** and **`WholeRegion`**: what `decodeRegion` makes of what `getEncodedRegion`
  writes.
- **`GridLoops`** and **`Regions`**: the imperative loops of the class `Region` over its
  `boolean[1024][1024]` grid, its fields and its `ByteArray`, each proved to compute what the
  functions above describe.

The whole-region round trip has conditions, which the contracts state:

- The arena that `getEncodedRegion` writes is cut to the characters after the fifteenth.
- The rectangles come back as the decomposition of their union, not as they were.
- An unknown sub-chunk keeps only one byte of its padding. A kept chunk therefore writes back
  as it was read only when its length is 0 or 3 modulo 4 (`RoundTrip.UnknownPassThrough`).

## Model

Source paths are relative to the repository root.

| member | source | states |
|---|---|---|
| JavaInts.Wrap32 | infinity/src/main/java/infinity/map/Region.java:602 | Java `int` addition: the result is the `int` congruent to the sum modulo 2^32, and the sum itself when it fits |
| JavaInts.JavaRem4 | infinity/src/main/java/infinity/map/Region.java:571 | Java's `len % 4`: truncating, with the sign of `len`, and the Euclidean remainder for `len >= 0` |
| JavaInts.ByteOf | infinity/src/main/java/infinity/map/ByteArray.java:174-176 | `(byte) (v >> 8k)`: byte k of the two's-complement pattern; byte 0 is v mod 256 |
| ByteArrays.ShortBE | infinity/src/main/java/infinity/map/ByteArray.java:182-185 | two bytes, high first, whose unsigned big-endian value is v mod 2^16 |
| ByteArrays.ShortLE | infinity/src/main/java/infinity/map/ByteArray.java:192-195 | two bytes, low first, whose little-endian value is v mod 2^16 |
| ByteArrays.IntBE | infinity/src/main/java/infinity/map/ByteArray.java:202-207 | four bytes whose big-endian value is v mod 2^32 |
| ByteArrays.IntLE | infinity/src/main/java/infinity/map/ByteArray.java:216-221 | four bytes whose little-endian value is v mod 2^32 |
| ByteArrays.LongBE | infinity/src/main/java/infinity/map/ByteArray.java:230-239 | eight bytes whose big-endian value is v mod 2^64 |
| ByteArrays.LongLE | infinity/src/main/java/infinity/map/ByteArray.java:252-261 | eight bytes whose little-endian value is v mod 2^64 |
| ByteArrays.LEBytesValue | infinity/src/main/java/infinity/map/ByteArray.java:216-221 | the n little-endian bytes of v read back as v mod 256^n |
| ByteArrays.BEBytesValue | infinity/src/main/java/infinity/map/ByteArray.java:202-207 | the n big-endian bytes of v read back as v mod 256^n |
| ByteArrays.ByteOrderMirror | infinity/src/main/java/infinity/map/ByteArray.java:182-272 | for every width, the big-endian bytes are the little-endian bytes reversed |
| ByteArrays.Overwrite | infinity/src/main/java/infinity/map/ByteArray.java:166-362 | what every writer does to the array: the length is kept, the window holds the written bytes, and every byte outside it is unchanged |
| ByteArrays.OverwriteConcat | infinity/src/main/java/infinity/map/ByteArray.java:166-362 | two writes one after the other are one write of the concatenation |
| ByteArrays.Fill | infinity/src/main/java/infinity/map/ByteArray.java:471-475 | `repeatAdd`: n copies of the byte, none when n <= 0 |
| ByteArrays.ReadByte | infinity/src/main/java/infinity/map/ByteArray.java:503-505 | the signed byte, in -128..127, congruent to the stored pattern |
| ByteArrays.ReadShort | infinity/src/main/java/infinity/map/ByteArray.java:507-509 | a `short` congruent mod 2^16 to the big-endian value of the two bytes |
| ByteArrays.ReadLittleEndianShort | infinity/src/main/java/infinity/map/ByteArray.java:511-513 | a `short` congruent mod 2^16 to the little-endian value of the two bytes |
| ByteArrays.ReadInt | infinity/src/main/java/infinity/map/ByteArray.java:515-518 | an `int` congruent mod 2^32 to the big-endian value of the four bytes |
| ByteArrays.ReadLittleEndianInt | infinity/src/main/java/infinity/map/ByteArray.java:520-523 | an `int` congruent mod 2^32 to the little-endian value of the four bytes |
| ByteArrays.ShortRoundTrip | infinity/src/main/java/infinity/map/ByteArray.java:507-513 | a `short` written big- or little-endian anywhere in an array reads back as itself |
| ByteArrays.IntRoundTrip | infinity/src/main/java/infinity/map/ByteArray.java:515-518 | an `int` written big-endian reads back as itself |
| ByteArrays.LittleEndianIntRoundTrip | infinity/src/main/java/infinity/map/ByteArray.java:520-523 | an `int` written little-endian reads back as itself |
| ByteArrays.Latin1Decode | infinity/src/main/java/infinity/map/ByteArray.java:539-555 | each byte becomes the character with the same code |
| ByteArrays.Latin1Encode | infinity/src/main/java/infinity/map/ByteArray.java:274-285 | each character up to U+00FF becomes its code and every other one becomes `?` |
| ByteArrays.Trim | infinity/src/main/java/infinity/map/ByteArray.java:552 | `String.trim`: no longer than the input, and neither end is a character <= U+0020 |
| ByteArrays.TrimOnlyBlanks | infinity/src/main/java/infinity/map/ByteArray.java:552 | the trimmed string stands inside the input with only characters <= U+0020 around it |
| ByteArrays.TrimKeeps | infinity/src/main/java/infinity/map/ByteArray.java:552 | a string whose ends are above U+0020 is left as it is |
| ByteArrays.ReadString | infinity/src/main/java/infinity/map/ByteArray.java:539-555 | at most `length` characters, neither end a blank |
| ByteArrays.ReadStringTrims | infinity/src/main/java/infinity/map/ByteArray.java:539-555 | the result is the decoded bytes with only blanks removed at the two ends |
| ByteArrays.ReadStringOfLatin1 | infinity/src/main/java/infinity/map/ByteArray.java:539-555 | the Latin-1 bytes of a string without blank ends read back as that string |
| ByteArrays.FirstZero | infinity/src/main/java/infinity/map/ByteArray.java:557-565 | the found index holds a zero at or after the start, and no zero comes before it; `None` when there is none |
| ByteArrays.NullTerminated | infinity/src/main/java/infinity/map/ByteArray.java:557-565 | a string exactly when the index is not negative and a zero byte follows it, and no longer than the distance to that zero |
| ByteArrays.GetPartial | infinity/src/main/java/infinity/map/ByteArray.java:666-744 | a field narrower than 8 bits (its width taken mod 32, as Java's shift does) lies in 0..2^k-1 |
| ByteArrays.GetPartialIsBitField | infinity/src/main/java/infinity/map/ByteArray.java:666-744 | for fields up to 7 bits wide, the result is bits `right..left` of the value's two's-complement pattern |
| ByteArrays.GetPartialNarrow | infinity/src/main/java/infinity/map/ByteArray.java:666-744 | for fields up to 7 bits wide within the type's width, the result is bits `right..left` of the value itself |
| ByteArrays.GetPartialEightBitsUnmasked | infinity/src/main/java/infinity/map/ByteArray.java:666-744 | a field at least 8 bits wide (its width taken mod 32) is not masked: the result is the value shifted right, sign and all; from bit 0 it is the value itself |
| ByteArrays.DecrementAsWrittenAfterIncrement | infinity/src/main/java/infinity/map/ByteArray.java:159-163 | as written, an increment followed by a decrement leaves the pointer two on |
| ByteArrays.DecrementUndoesIncrement | infinity/src/main/java/infinity/map/ByteArray.java:151-163 | the intended decrement and the increment undo each other |
| ByteArrays.DecrementAsWritten | infinity/src/main/java/infinity/map/ByteArray.java:159-163 | `decrementPointer` as written: a pointer of 0 stays 0, and any other moves one forward |
| ByteArrays.Decrement | infinity/src/main/java/infinity/map/ByteArray.java:159-163 | `decrementPointer` as intended: a pointer of 0 stays 0, and a positive one moves one back, staying non-negative |
| ByteArrays.IntsPointerPastEnd | infinity/src/main/java/infinity/map/ByteArray.java:92-97 | a `ByteArray` built from n > 0 ints has an array of n bytes and its pointer at 2n, past the end of that array |
| ByteArrays.PaddedBytes | infinity/src/main/java/infinity/map/ByteArray.java:293-306 | zeros for a null string; otherwise the string followed by the zeros up to `totalLength` |
| ByteArrays.LowBytes | infinity/src/main/java/infinity/map/ByteArray.java:348-355 | one byte per int, the int's low eight bits |
| ByteArrays.ByteArray.OfSize | infinity/src/main/java/infinity/map/ByteArray.java:59-62 | a fresh zero-filled array of that size, pointer 0 |
| ByteArrays.ByteArray.OfBytes | infinity/src/main/java/infinity/map/ByteArray.java:80-85 | a fresh copy of the bytes, with the pointer just after them |
| ByteArrays.ByteArray.OfInts | infinity/src/main/java/infinity/map/ByteArray.java:92-97 | the low bytes of the ints; the pointer ends at twice their number |
| ByteArrays.ByteArray.Size | infinity/src/main/java/infinity/map/ByteArray.java:102-104 | the length of the backing array |
| ByteArrays.ByteArray.GetPointerIndex | infinity/src/main/java/infinity/map/ByteArray.java:143-146 | the insertion pointer |
| ByteArrays.ByteArray.GetByteArray | infinity/src/main/java/infinity/map/ByteArray.java:498-500 | the backing array itself (an alias, not a copy) |
| ByteArrays.ByteArray.GrowArray | infinity/src/main/java/infinity/map/ByteArray.java:111-116 | a fresh array of the new size: the old bytes, then zeros; the pointer is kept |
| ByteArrays.ByteArray.ShrinkArray | infinity/src/main/java/infinity/map/ByteArray.java:123-128 | a fresh array holding the first `newSize` bytes; the pointer is kept |
| ByteArrays.ByteArray.SetPointerIndex | infinity/src/main/java/infinity/map/ByteArray.java:135-138 | the pointer becomes the index; nothing else changes |
| ByteArrays.ByteArray.IncrementPointer | infinity/src/main/java/infinity/map/ByteArray.java:151-154 | the pointer moves on by one, with `int` wrap-around |
| ByteArrays.ByteArray.DecrementPointer | infinity/src/main/java/infinity/map/ByteArray.java:159-163 | as written: a pointer other than 0 moves ON by one, and 0 stays 0 |
| ByteArrays.ByteArray.DecrementPointerIntended | infinity/src/main/java/infinity/map/ByteArray.java:159-163 | a pointer other than 0 moves back by one, and 0 stays 0 |
| ByteArrays.ByteArray.AddByte | infinity/src/main/java/infinity/map/ByteArray.java:166-168 | the byte is stored at the pointer, which moves on by one; the other bytes are unchanged |
| ByteArrays.ByteArray.AddByteAt | infinity/src/main/java/infinity/map/ByteArray.java:170-172 | the byte is stored at the index; the other bytes and the pointer are unchanged |
| ByteArrays.ByteArray.AddIntByte | infinity/src/main/java/infinity/map/ByteArray.java:174-176 | the low byte of the int is stored at the pointer, which moves on by one |
| ByteArrays.ByteArray.AddIntByteAt | infinity/src/main/java/infinity/map/ByteArray.java:178-180 | the low byte of the int is stored at the index |
| ByteArrays.ByteArray.AddShort | infinity/src/main/java/infinity/map/ByteArray.java:182-185 | the big-endian bytes are written at the pointer, which moves on by 2 |
| ByteArrays.ByteArray.AddShortAt | infinity/src/main/java/infinity/map/ByteArray.java:187-190 | the big-endian bytes are written at the index |
| ByteArrays.ByteArray.AddLittleEndianShort | infinity/src/main/java/infinity/map/ByteArray.java:192-195 | the little-endian bytes are written at the pointer, which moves on by 2 |
| ByteArrays.ByteArray.AddLittleEndianShortAt | infinity/src/main/java/infinity/map/ByteArray.java:197-200 | the little-endian bytes are written at the index |
| ByteArrays.ByteArray.AddInt | infinity/src/main/java/infinity/map/ByteArray.java:202-207 | the big-endian bytes are written at the pointer, which moves on by 4 |
| ByteArrays.ByteArray.AddIntAt | infinity/src/main/java/infinity/map/ByteArray.java:209-214 | the big-endian bytes are written at the index |
| ByteArrays.ByteArray.AddLittleEndianInt | infinity/src/main/java/infinity/map/ByteArray.java:216-221 | the little-endian bytes are written at the pointer, which moves on by 4 |
| ByteArrays.ByteArray.AddLittleEndianIntAt | infinity/src/main/java/infinity/map/ByteArray.java:223-228 | the little-endian bytes are written at the index |
| ByteArrays.ByteArray.AddLong | infinity/src/main/java/infinity/map/ByteArray.java:230-239 | the eight big-endian bytes are written at the pointer, which moves on by 8 |
| ByteArrays.ByteArray.AddLongAt | infinity/src/main/java/infinity/map/ByteArray.java:241-250 | the eight big-endian bytes are written at the index |
| ByteArrays.ByteArray.AddLittleEndianLong | infinity/src/main/java/infinity/map/ByteArray.java:252-261 | the eight little-endian bytes are written at the pointer, which moves on by 8 |
| ByteArrays.ByteArray.AddLittleEndianLongAt | infinity/src/main/java/infinity/map/ByteArray.java:263-272 | the eight little-endian bytes are written at the index |
| ByteArrays.ByteArray.AddString | infinity/src/main/java/infinity/map/ByteArray.java:274-285 | the encoded characters are written at the pointer, which moves on by their number |
| ByteArrays.ByteArray.AddStringAt | infinity/src/main/java/infinity/map/ByteArray.java:287-291 | the encoded characters are written at the index |
| ByteArrays.ByteArray.AddPaddedString | infinity/src/main/java/infinity/map/ByteArray.java:293-306 | the string and its zero padding, or zeros for a null string, are written at the pointer, which moves past them |
| ByteArrays.ByteArray.AddPaddedStringAt | infinity/src/main/java/infinity/map/ByteArray.java:308-320 | zeros for a null string; otherwise the string is written at the index and then, as written, the padding zeros are written from the same index over it |
| ByteArrays.ByteArray.AddByteArray | infinity/src/main/java/infinity/map/ByteArray.java:322-328 | the other buffer's whole array is copied to the pointer, which moves past it |
| ByteArrays.ByteArray.AddByteArrayAt | infinity/src/main/java/infinity/map/ByteArray.java:330-334 | the other buffer's whole array is copied to the index |
| ByteArrays.ByteArray.AddBytes | infinity/src/main/java/infinity/map/ByteArray.java:336-341 | the bytes are copied to the pointer, which moves past them |
| ByteArrays.ByteArray.AddBytesAt | infinity/src/main/java/infinity/map/ByteArray.java:343-346 | the bytes are copied to the index |
| ByteArrays.ByteArray.AddInts | infinity/src/main/java/infinity/map/ByteArray.java:348-355 | the low bytes are written at the pointer; as written, the pointer then moves on by TWICE their number |
| ByteArrays.ByteArray.AddIntsIntended | infinity/src/main/java/infinity/map/ByteArray.java:348-355 | the low bytes are written at the pointer, which ends right after them |
| ByteArrays.ByteArray.AddIntsAt | infinity/src/main/java/infinity/map/ByteArray.java:357-362 | the low bytes are written at the index |
| ByteArrays.ByteArray.AddPartialByteArray | infinity/src/main/java/infinity/map/ByteArray.java:391-396 | the slice `src..src+len` of the other buffer is copied to the pointer, which moves past it |
| ByteArrays.ByteArray.AddPartialByteArrayAt | infinity/src/main/java/infinity/map/ByteArray.java:406-411 | the slice of the other buffer is copied to `destIndex` |
| ByteArrays.ByteArray.AddPartialBytes | infinity/src/main/java/infinity/map/ByteArray.java:420-424 | the slice of the bytes is copied to the pointer, which moves past it |
| ByteArrays.ByteArray.AddPartialBytesAt | infinity/src/main/java/infinity/map/ByteArray.java:434-438 | the slice of the bytes is copied to `destIndex` |
| ByteArrays.ByteArray.AddPartialInts | infinity/src/main/java/infinity/map/ByteArray.java:447-452 | the low bytes of the slice of the ints are written at the pointer, which moves past them |
| ByteArrays.ByteArray.AddPartialIntsAt | infinity/src/main/java/infinity/map/ByteArray.java:462-468 | the low bytes of the slice of the ints are written at `destIndex` |
| ByteArrays.ByteArray.RepeatAdd | infinity/src/main/java/infinity/map/ByteArray.java:471-475 | n copies of the byte are written at the pointer, which moves past them |
| ByteArrays.ByteArray.RepeatAddAt | infinity/src/main/java/infinity/map/ByteArray.java:477-481 | n copies of the byte are written at the index |
| ByteArrays.ByteArray.RepeatAddInt | infinity/src/main/java/infinity/map/ByteArray.java:483-487 | n copies of the int's low byte are written at the pointer, which moves past them |
| ByteArrays.ByteArray.RepeatAddIntAt | infinity/src/main/java/infinity/map/ByteArray.java:489-493 | n copies of the int's low byte are written at the index |
| ByteArrays.ByteArray.ReadNullTerminatedString | infinity/src/main/java/infinity/map/ByteArray.java:557-565 | the string the null-terminated reader describes: the bytes before the first zero, read by `readString`; `None` (the exception) when there is no zero |
| ByteArrays.ByteArray.ReadByteArray | infinity/src/main/java/infinity/map/ByteArray.java:567-575 | a fresh buffer holding bytes `begin..end` inclusive, with its pointer after them; empty for `begin == end + 1`, whatever `begin` is |
| ByteArrays.ToByteArray | infinity/src/main/java/infinity/map/ByteArray.java:646-654 | a fresh array of the ints' low bytes |
| Rle.GetBitFragment | infinity/src/main/java/infinity/map/Region.java:868-874 | a field of up to 7 bits of a byte lies in 0..2^n-1 |
| Rle.BitFragmentIsField | infinity/src/main/java/infinity/map/Region.java:868-874 | up to 7 bits, it is the unsigned bit field of the byte; 8 bits give the signed byte |
| Rle.GetEncodedType | infinity/src/main/java/infinity/map/Region.java:856-858 | an instruction kind 0..7 |
| Rle.GetEncodedShortLength | infinity/src/main/java/infinity/map/Region.java:833-835 | a count 1..32 |
| Rle.GetEncodedLongLength | infinity/src/main/java/infinity/map/Region.java:844-847 | a count 1..1024 |
| Rle.GetEncodedLength | infinity/src/main/java/infinity/map/Region.java:814-825 | a count 1..1024, read from one byte for an even kind and from two for an odd one |
| Rle.HeaderFields | infinity/src/main/java/infinity/map/Region.java:833-858 | the kind is the top three bits; a short count is the low five bits plus 1; a long count is the low two bits times 256, plus the second byte, plus 1 |
| Rle.LongFormIgnoresMiddleBits | infinity/src/main/java/infinity/map/Region.java:844-847 | bits 2..4 of a long form's first byte do not affect its count |
| Rle.EncodeEmptyRows | infinity/src/main/java/infinity/map/Region.java:385-413 | one byte exactly when the count is at most 32, of kind 4 or 5 |
| Rle.EncodeInstruction | infinity/src/main/java/infinity/map/Region.java:385-505 | the shared bit layout of the three encoders: the kind in the top three bits, short form for counts up to 32, and the count minus 1 in the low five bits or in the low two bits and the second byte |
| Rle.EncodeRun | infinity/src/main/java/infinity/map/Region.java:422-467 | one byte exactly when the count is at most 32; kind 0/1 for empty tiles and 2/3 for present ones |
| Rle.EncodeRepeatLastRow | infinity/src/main/java/infinity/map/Region.java:475-500 | one byte exactly when the count is at most 32, of kind 6 or 7 |
| Rle.EncodeInstructionFields | infinity/src/main/java/infinity/map/Region.java:385-500 | the header decoders read back the kind and the count each encoder wrote |
| Rle.OpRoundTrip | infinity/src/main/java/infinity/map/Region.java:814-858 | every instruction with a count 1..1024 decodes from its own bytes to itself |
| Rle.OpBytes | infinity/src/main/java/infinity/map/Region.java:338-366 | the bytes an instruction of the compressor is written as: one byte exactly when its count is at most 32 |
| Rle.DecodeOp | infinity/src/main/java/infinity/map/Region.java:656-700 | the branch `decodeTiles` takes for a kind: its count is the decoded length, and kinds 2k and 2k+1 give the same instruction |
| Rle.OpRoundTripAt | infinity/src/main/java/infinity/map/Region.java:650-654 | the same, for an instruction found at any offset of a longer array |
| Rle.ReadInstruction | infinity/src/main/java/infinity/map/Region.java:650-654 | a valid instruction of one or two bytes within the data; out of data exactly when an odd kind has no second byte |
| TileDecoding.ApplyOp | infinity/src/main/java/infinity/map/Region.java:656-708 | one instruction keeps the decoder's state valid, and never fails with the row-count error |
| TileDecoding.EndOfRow | infinity/src/main/java/infinity/map/Region.java:705-708 | a full row moves the decoder to column 0 of the next row, with `int` increment of the row; otherwise the state is unchanged |
| TileDecoding.RunTiles | infinity/src/main/java/infinity/map/Region.java:650-717 | the instruction loop keeps the state valid, and fails only with an instruction's own error |
| TileDecoding.DecodeGrid | infinity/src/main/java/infinity/map/Region.java:634-721 | a success is a 1024 x 1024 grid; the row-count error names a count other than 1024 |
| TileDecoding.RunFlatten | infinity/src/main/java/infinity/map/Region.java:650-717 | decoding the bytes of a sequence of instructions executes exactly that sequence |
| TileDecoding.DecodeFlattened | infinity/src/main/java/infinity/map/Region.java:634-721 | bytes whose instructions rebuild a grid and end on row 1024 decode to that grid |
| TileDecoding.OpErrors | infinity/src/main/java/infinity/map/Region.java:656-691 | a run past column 1024, empty rows or a repeat in mid-row, and a repeat on the first row each fail with their own error, and nothing else fails |
| TileDecoding.RepeatFirstFails | infinity/src/main/java/infinity/map/Region.java:683-691 | a bitmap that starts with a repeat is rejected at once |
| TileDecoding.EmptyBitmapFails | infinity/src/main/java/infinity/map/Region.java:719-721 | an empty bitmap is rejected with a row count of 0 |
| TileDecoding.TrailingEmptyRunAccepted | infinity/src/main/java/infinity/map/Region.java:705-721 | after the 1024th row an empty run still decodes, because the column is not checked at the end |
| Grids.RunEnd | infinity/src/main/java/infinity/map/Region.java:326-335 | the end of the maximal run of equal tiles starting at x |
| Grids.Raster | infinity/src/main/java/infinity/map/Region.java:262-280 | a tile is set exactly when some rectangle covers it |
| Grids.EndX | infinity/src/main/java/infinity/map/Region.java:272 | `r.x + r.width` congruent to the true sum mod 2^32, and equal to it when it fits an `int` |
| Grids.EndY | infinity/src/main/java/infinity/map/Region.java:273 | `r.y + r.height` congruent to the true sum mod 2^32, and equal to it when it fits an `int` |
| Grids.Drawable | infinity/src/main/java/infinity/map/Region.java:275-279 | the rasterising loops stay inside the 1024x1024 array exactly when every tile they visit lies in the grid |
| Grids.SetRun | infinity/src/main/java/infinity/map/Region.java:663-675 | the tiles of the run in the current row are set, and nothing else changes |
| Grids.CopyRows | infinity/src/main/java/infinity/map/Region.java:683-703 | the rows of the range become copies of the source row, and nothing else changes |
| Decomposition.SpanEnd | infinity/src/main/java/infinity/map/Region.java:744-760 | the first row at or below y that does not span the columns; every row before it does |
| Decomposition.Found | infinity/src/main/java/infinity/map/Region.java:728-762 | the rectangle cut at a tile is inside the grid and has that tile as its top-left corner |
| Decomposition.FoundOnSetTiles | infinity/src/main/java/infinity/map/Region.java:728-762 | at a set tile, that rectangle lies on set tiles only |
| Decomposition.Clear | infinity/src/main/java/infinity/map/Region.java:764-771 | a tile stays set exactly when it was set and is outside the rectangle |
| Decomposition.NextX | infinity/src/main/java/infinity/map/Region.java:777-780 | the next column of the row-major scan stays in 0..1023 |
| Decomposition.ScanFrom | infinity/src/main/java/infinity/map/Region.java:727-781 | every rectangle emitted is inside the grid |
| Decomposition.ScanFromScanned | infinity/src/main/java/infinity/map/Region.java:727-781 | the scan from any tile emits disjoint rectangles on set tiles, in row-major order, that cover the set tiles from there on |
| Decomposition.Decompose | infinity/src/main/java/infinity/map/Region.java:723-782 | every rectangle added for a decoded grid is inside the grid |
| Decomposition.DecomposeCorrect | infinity/src/main/java/infinity/map/Region.java:723-782 | the rectangles are pairwise disjoint, in row-major order, and their union is exactly the decoded grid |
| Compression.RowRuns | infinity/src/main/java/infinity/map/Region.java:324-339 | valid run instructions, at most two bytes per tile |
| Compression.RowRunsCons | infinity/src/main/java/infinity/map/Region.java:326-338 | a row's runs are the maximal run at x, then the runs from its end |
| Compression.RowBytes | infinity/src/main/java/infinity/map/Region.java:324-339 | a row's encoding is at most two bytes per tile |
| Compression.CompressRow | infinity/src/main/java/infinity/map/Region.java:287-375 | a blank row forgets the last row and counts one more empty row; any other row clears that count and becomes the last row |
| Compression.CompressRows | infinity/src/main/java/infinity/map/Region.java:282-377 | the counters after k rows are within what k rows can produce |
| Compression.CompressOps | infinity/src/main/java/infinity/map/Region.java:256-378 | every instruction written is valid |
| Compression.RowBytesInjective | infinity/src/main/java/infinity/map/Region.java:341-354 | two rows with the same encoding are the same row, so comparing encodings finds repeated rows |
| Compression.DecodeEmptyRows | infinity/src/main/java/infinity/map/Region.java:676-682 | an empty-rows instruction over blank rows keeps the decoder in step with the grid |
| Compression.DecodeRepeat | infinity/src/main/java/infinity/map/Region.java:683-703 | a repeat over rows equal to the last one keeps the decoder in step with the grid |
| Compression.DecodeRow | infinity/src/main/java/infinity/map/Region.java:656-708 | the runs of a row rebuild that row and move the decoder to the start of the next |
| Compression.InvStep | infinity/src/main/java/infinity/map/Region.java:287-375 | one turn of the row loop keeps its invariant: the output so far rebuilds the rows already written |
| Compression.InvRows | infinity/src/main/java/infinity/map/Region.java:282-377 | the invariant holds after every number of rows |
| Compression.FlushDecodes | infinity/src/main/java/infinity/map/Region.java:356-373 | writing out the pending counters brings the decoder to the current row |
| Compression.CompressOpsDecode | infinity/src/main/java/infinity/map/Region.java:256-378 | the compressor's instructions rebuild the grid and end on row 1024; the output is at most 2100 bytes per row plus 2 |
| Compression.Compress | infinity/src/main/java/infinity/map/Region.java:256-378 | the bytes `getCompressedRGN` returns: `decodeTiles` over them gives back the grid tile for tile, and there are at most 2100 per row plus 2 |
| Compression.CompressionLosslessAt | infinity/src/main/java/infinity/map/Region.java:634-721 | the same, for the compressed bytes found at any offset of a longer array |
| GridLoops.Execute | infinity/src/main/java/infinity/map/Region.java:656-708 | the grid updates of one instruction leave the array as the decoding function says, or report its error or exception |
| GridLoops.CopyRowsLoop | infinity/src/main/java/infinity/map/Region.java:693-700 | the copy loop leaves the array mirroring the grid with the rows copied |
| GridLoops.ReplayTiles | infinity/src/main/java/infinity/map/Region.java:634-717 | the instruction loop over a fresh array ends as the decoding function says |
| GridLoops.RunWidth | infinity/src/main/java/infinity/map/Region.java:733-740 | the width loop counts the run of set tiles |
| GridLoops.SameRow | infinity/src/main/java/infinity/map/Region.java:745-753 | the `sameRow` loop decides whether a row spans the columns |
| GridLoops.SpanHeight | infinity/src/main/java/infinity/map/Region.java:744-760 | the height loop counts the rows down to the first one that does not span |
| GridLoops.ClearRect | infinity/src/main/java/infinity/map/Region.java:764-771 | the clear loop leaves the array mirroring the grid with the rectangle cleared |
| GridLoops.ScanTile | infinity/src/main/java/infinity/map/Region.java:728-780 | one tile of the scan keeps "found so far plus what remains to scan" equal to the whole decomposition |
| GridLoops.CutRectangles | infinity/src/main/java/infinity/map/Region.java:723-782 | the scan over the array finds exactly the decomposition of the grid |
| GridLoops.FillRect | infinity/src/main/java/infinity/map/Region.java:272-279 | a tile is set afterwards exactly when it was set before or lies in the rectangle |
| GridLoops.Rasterize | infinity/src/main/java/infinity/map/Region.java:259-280 | a fresh array of the rectangles' union; the exception exactly when a rectangle reaches outside the grid |
| GridLoops.RowIsEmpty | infinity/src/main/java/infinity/map/Region.java:288-297 | the empty-row check decides whether the row is blank |
| GridLoops.RunLength | infinity/src/main/java/infinity/map/Region.java:327-335 | the counting loop finds the length of the maximal run |
| GridLoops.EncodeRow | infinity/src/main/java/infinity/map/Region.java:324-339 | the `encodedRow` loop produces the row's encoding |
| GridLoops.SameAsLastRow | infinity/src/main/java/infinity/map/Region.java:341-354 | the comparison is true exactly when the last row's encoding equals this one |
| GridLoops.BlankRowStep | infinity/src/main/java/infinity/map/Region.java:299-315 | a blank row updates the output and the counters as one turn of the row loop says |
| GridLoops.CodedRowStep | infinity/src/main/java/infinity/map/Region.java:317-373 | a non-blank row updates the output and the counters as one turn of the row loop says |
| GridLoops.CompressRowStep | infinity/src/main/java/infinity/map/Region.java:287-375 | any row updates the output and the counters as one turn of the row loop says |
| GridLoops.CompressGrid | infinity/src/main/java/infinity/map/Region.java:282-377 | the row loop over the array outputs exactly the compression of the grid |
| Chunks.KindOf | infinity/src/main/java/infinity/map/Region.java:543-590 | each known tag, and only that tag, selects its branch |
| Chunks.CharBytes | infinity/src/main/java/infinity/map/Region.java:209-211 | one byte per character, its low eight bits |
| Chunks.Pad | infinity/src/main/java/infinity/map/Region.java:571-574 | the cursor moves to where the payload plus padding is a multiple of four |
| Chunks.UnknownRecord | infinity/src/main/java/infinity/map/Region.java:590-615 | tag, length, payload, and one zero only when the length is not a multiple of four |
| Chunks.AutoWarpBody | infinity/src/main/java/infinity/map/Region.java:555-565 | the auto-warp flag is set; the arena is read only for a length of 20; the cursor moves 20 or 4 |
| Chunks.NameBody | infinity/src/main/java/infinity/map/Region.java:567-574 | it goes on exactly when the length fits the data; the name is no longer than the length |
| Chunks.TilesBody | infinity/src/main/java/infinity/map/Region.java:576-588 | the rectangles gain the decomposition of the decoded grid; a decoding error stops the loop and changes nothing |
| Chunks.UnknownBody | infinity/src/main/java/infinity/map/Region.java:590-615 | the chunk is appended to the unknown bytes as tag, length, payload and at most one zero |
| Chunks.ChunkBody | infinity/src/main/java/infinity/map/Region.java:542-615 | a body only adds; a flag is set only by its own tag with a length of 0; only `rTIL` changes the rectangles or can stop the loop |
| Chunks.ChunkStep | infinity/src/main/java/infinity/map/Region.java:531-616 | fewer than 8 bytes left is the short-header error, and an error leaves the fields unchanged |
| Chunks.StepExtends | infinity/src/main/java/infinity/map/Region.java:542-615 | a sub-chunk only adds to the region |
| Chunks.LoopStep | infinity/src/main/java/infinity/map/Region.java:531-616 | one turn of the loop hands the rest of the data to the next turn |
| Chunks.DecodeLoop | infinity/src/main/java/infinity/map/Region.java:531-624 | the loop ends cleanly when the cursor is exactly at the end, and reports running past the end only for a cursor beyond it |
| Chunks.Turn | infinity/src/main/java/infinity/map/Region.java:531-616 | a turn without fuel is the loop that does not end; the past-the-end error is as for DecodeLoop |
| Chunks.Advance | infinity/src/main/java/infinity/map/Region.java:531-616 | an exception in a sub-chunk ends the loop with the exception, and an error ends it with that error and the fields as they were |
| Chunks.DecodeRegion | infinity/src/main/java/infinity/map/Region.java:526-624 | `decodeRegion`: empty data succeeds unchanged, the loop only adds to the region, and the past-the-end error names a cursor beyond the data |
| Chunks.LoopExtends | infinity/src/main/java/infinity/map/Region.java:526-624 | the loop only adds: set flags stay set, and the rectangles and unknown bytes keep what they held |
| Chunks.CutArena | infinity/src/main/java/infinity/map/Region.java:159-161 | an arena longer than 15 characters is cut to the characters after the fifteenth |
| Chunks.CutArenaOverflows | infinity/src/main/java/infinity/map/Region.java:159-170 | as written, an arena of 32 characters or more leaves an auto-warp chunk longer than its header and declared length 20 |
| Chunks.CutArenaIntended | infinity/src/main/java/infinity/map/Region.java:36 | the intended cut keeps at most 15 characters, a prefix of the arena, and leaves a shorter arena as it is |
| Chunks.FlagChunks | infinity/src/main/java/infinity/map/Region.java:88-131 | eight bytes per flag that is set |
| Chunks.FlagChunk | infinity/src/main/java/infinity/map/Region.java:88-131 | a flag chunk is its tag followed by a zero length, and nothing when the flag is clear |
| Chunks.Word | infinity/src/main/java/infinity/map/Region.java:145-156 | `toWORD`: two bytes whose little-endian value is the value mod 2^16 |
| Chunks.CharByte | infinity/src/main/java/infinity/map/Region.java:210 | `(byte) c` is the code itself for a character below 256 |
| Chunks.AutoWarpChunk | infinity/src/main/java/infinity/map/Region.java:133-192 | nothing without auto-warp; 12 bytes without an arena; otherwise a 16-byte arena field |
| Chunks.Padding | infinity/src/main/java/infinity/map/Region.java:213-219 | fewer than four zeros, bringing the length to a multiple of four |
| Chunks.PaddedChunk | infinity/src/main/java/infinity/map/Region.java:197-219 | tag, length, payload, then its padding |
| Chunks.EncodeRegion | infinity/src/main/java/infinity/map/Region.java:86-249 | the encoding exists exactly when every rectangle can be drawn on the grid |
| RoundTrip.CharBytesLatin1 | infinity/src/main/java/infinity/map/Region.java:209-211 | for Latin-1 text, the byte casts agree with the charset encoding |
| RoundTrip.HeaderRead | infinity/src/main/java/infinity/map/Region.java:537-540 | a written tag and length read back as themselves |
| RoundTrip.Dispatch | infinity/src/main/java/infinity/map/Region.java:531-542 | with room for a header, a turn runs the body of the chunk found there |
| RoundTrip.LoopEnd | infinity/src/main/java/infinity/map/Region.java:531-536 | the loop stops without error at the end of the super-chunk |
| RoundTrip.PadPadding | infinity/src/main/java/infinity/map/Region.java:571-574 | the decoder skips exactly the padding the encoder wrote |
| RoundTrip.FlagBody | infinity/src/main/java/infinity/map/Region.java:543-553 | a flag chunk of length 0 sets its flag |
| RoundTrip.FlagsStage | infinity/src/main/java/infinity/map/Region.java:88-131 | the flag chunks written read back as the flags that were set |
| RoundTrip.ArenaRead | infinity/src/main/java/infinity/map/Region.java:563 | the 16-byte arena field reads back as the arena |
| RoundTrip.IntendedArenaRead | infinity/src/main/java/infinity/map/Region.java:159-170 | with the intended cut, the arena field is exactly 16 bytes and reads back as the cut arena |
| RoundTrip.PositionRead | infinity/src/main/java/infinity/map/Region.java:557-559 | the two little-endian shorts read back as the position |
| RoundTrip.WarpRead | infinity/src/main/java/infinity/map/Region.java:555-565 | the auto-warp body reads the position and the arena back |
| RoundTrip.WarpStage | infinity/src/main/java/infinity/map/Region.java:133-192 | the auto-warp chunk written reads back as the auto-warp fields |
| RoundTrip.UnknownPassThrough | infinity/src/main/java/infinity/map/Region.java:590-615 | a kept chunk is byte for byte the chunk read exactly when its length is 0 or 3 modulo 4 |
| RoundTrip.UnknownRead | infinity/src/main/java/infinity/map/Region.java:590-615 | an unknown chunk is appended to the unknown bytes and skipped with its padding |
| RoundTrip.UnknownKind | infinity/src/main/java/infinity/map/Region.java:543-590 | an unknown tag, or a flag tag with a payload, falls through to the unknown branch |
| RoundTrip.UnknownStage | infinity/src/main/java/infinity/map/Region.java:194-196 | the unknown bytes written read back as the same unknown bytes |
| RoundTrip.NameRead | infinity/src/main/java/infinity/map/Region.java:567-574 | the name body reads the name back |
| RoundTrip.NameStage | infinity/src/main/java/infinity/map/Region.java:197-219 | the name chunk written reads back as the name |
| RoundTrip.TilesRead | infinity/src/main/java/infinity/map/Region.java:576-588 | a tile body whose payload decodes to a grid adds that grid's decomposition |
| RoundTrip.TilesStage | infinity/src/main/java/infinity/map/Region.java:221-246 | the tile chunk written adds the decomposition of the grid it encodes |
| WholeRegion.EncodingLaid | infinity/src/main/java/infinity/map/Region.java:86-249 | the encoding is the flag chunks, the auto-warp chunk, the unknown bytes, the name chunk and the tile chunk, in that order |
| WholeRegion.RegionRoundTrip | infinity/src/main/java/infinity/map/Region.java:526-624 | decoding the encoding of a region into any region adds its flags, auto-warp fields, name, unknown bytes and the decomposition of its tiles |
| WholeRegion.FreshRoundTrip | infinity/src/main/java/infinity/map/Region.java:526-624 | decoded into a fresh region, the encoding gives back the flags, name, unknown bytes and auto-warp fields, and disjoint row-major rectangles with the same tiles |
| Regions.LoopStops | infinity/src/main/java/infinity/map/Region.java:531-616 | a turn that errs or throws ends the loop with that outcome |
| Regions.Region.constructor | infinity/src/main/java/infinity/map/Region.java:71-74 | a fresh region: the placeholder name, no flags, position 512,512, no arena, rectangles or unknown bytes |
| Regions.Region.Named | infinity/src/main/java/infinity/map/Region.java:76-79 | a fresh region with the given name |
| Regions.Region.GetCompressedRGN | infinity/src/main/java/infinity/map/Region.java:256-378 | the compressed union of the rectangles; the exception exactly when one cannot be drawn |
| Regions.Region.CharLoop | infinity/src/main/java/infinity/map/Region.java:209-211 | the byte-cast loop gives the bytes of the string |
| Regions.Region.ZeroLoop | infinity/src/main/java/infinity/map/Region.java:168-170 | the zero loop gives as many zeros as it runs turns |
| Regions.Region.ChunkBytes | infinity/src/main/java/infinity/map/Region.java:197-219 | tag, length, payload and padding, as the chunk function says |
| Regions.Region.FlagBytes | infinity/src/main/java/infinity/map/Region.java:88-131 | the flag chunks of the fields |
| Regions.Region.AutoWarpBytes | infinity/src/main/java/infinity/map/Region.java:133-192 | the auto-warp chunk; the arena field is left cut |
| Regions.Region.GetEncodedRegion | infinity/src/main/java/infinity/map/Region.java:86-249 | the encoding of the fields as the encoding function says, with the arena left cut |
| Regions.Region.DecodeTiles | infinity/src/main/java/infinity/map/Region.java:634-785 | on success the decomposition is appended to the rectangles; an error or exception leaves them unchanged |
| Regions.Region.ReadAutoWarp | infinity/src/main/java/infinity/map/Region.java:555-565 | the fields and the cursor end as the auto-warp body says |
| Regions.Region.ReadName | infinity/src/main/java/infinity/map/Region.java:567-574 | the fields and the cursor end as the name body says |
| Regions.Region.ReadTiles | infinity/src/main/java/infinity/map/Region.java:576-588 | the fields and the cursor end as the tile body says |
| Regions.Region.ReadUnknown | infinity/src/main/java/infinity/map/Region.java:590-615 | the copy loop keeps the chunk as the unknown body says |
| Regions.Region.ReadBody | infinity/src/main/java/infinity/map/Region.java:542-615 | the branch chosen by the tag ends as the chunk body says |
| Regions.Region.ReadChunk | infinity/src/main/java/infinity/map/Region.java:531-616 | one turn of the loop ends as the chunk step says |
| Regions.Region.DecodeRegion | infinity/src/main/java/infinity/map/Region.java:526-624 | the fields and the returned error end as the decoding function says, on success and on error alike |

## Findings

| source | as written | input that shows it | evidently intended | confidence | as-written member | corrected member |
|---|---|---|---|---|---|---|
| infinity/src/main/java/infinity/map/ByteArray.java:159-163 | `decrementPointer` runs `m_pointer++` when the pointer is not 0 | pointer 5: after `incrementPointer` and `decrementPointer` it is 7, not 5 | `m_pointer--` | high (not executed) | ByteArrays.DecrementAsWrittenAfterIncrement | ByteArrays.DecrementUndoesIncrement |
| infinity/src/main/java/infinity/map/ByteArray.java:348-355 | `addByteArray(int[])` moves the pointer once per element and then again by the length | `new ByteArray(new int[] {1})`: the array holds 1 byte and the pointer is 2 | the pointer ends right after the bytes written | high (not executed) | ByteArrays.IntsPointerPastEnd | ByteArrays.ByteArray.AddIntsIntended |
| infinity/src/main/java/infinity/map/Region.java:159-161 | `arena.substring(15)` keeps the characters after the fifteenth | an auto-warp region whose arena has 32 characters: 17 are written, no zero follows, and the chunk declaring length 20 carries 21 bytes | `arena.substring(0, 15)`, the "max 15 letters" of the class comment | high (not executed) | Chunks.CutArenaOverflows | Chunks.CutArenaIntended |

The class methods `ByteArrays.ByteArray.DecrementPointer`, `AddInts` and `OfInts` keep the
behaviour as written. The rest of the model does not call them.

The arena cut of `getEncodedRegion` (`Chunks.CutArena`) is also kept as written. The region
round trip is stated about the code as it stands, for an arena that survives that cut.
`RoundTrip.IntendedArenaRead` states what the intended cut gives.

## Left out

- `getRandomColor` and the `color` field: AWT colours drawn from a random source. The
  constructors' colour argument is not modelled.
- `getBinaryStringOfByte` is a debugging aid with no effect on the codec.
- The no-argument `ByteArray()` leaves the array null. Every later use of it would throw.
- The `ByteArray(Datagram)` constructor, `addFileContents` and the `show*`/`toString` methods:
  network, file and console I/O.
- `readLong` and `readLittleEndianLong` combine their bytes with `int` shifts (`<< 32` is a
  no-op on an `int`). They are not used by the codec.
- ByteArrays.ByteArray.AddStringAt: the platform default charset is taken to be a single-byte
  Latin-1 charset, with `?` for characters outside it. (`addString(str)` names ISO-8859-1
  itself, so `ByteArrays.ByteArray.AddString` is exact.)
- ByteArrays.ByteArray.AddPaddedString: the same charset assumption. Also, the model's strings
  hold one element per Unicode code point, where Java's `length()` counts UTF-16 units. The
  padding is therefore one zero short for each character above U+FFFF.
- ByteArrays.ByteArray.AddPaddedStringAt: the same charset assumption and the same padding
  count, in code points rather than UTF-16 units.
- ByteArrays.PaddedBytes: the zero count `totalLength - |s|` is in code points. Java subtracts
  `str.length()` in UTF-16 units, so strings with characters above U+FFFF are not modelled.
- Chunks.CharBytes: one byte per code point, the code point's low eight bits. Java writes
  `(byte) charAt(c)` for each UTF-16 unit and `length()` in units. A name or arena with a
  character above U+FFFF therefore gets a different length field and different bytes; for
  U+1F680, Java writes length 2 and bytes 0x3D 0x80. Such strings are not modelled.
- Chunks.CharByte: the same code-point reading of a Java `char`.
- Regions.Region.CharLoop: the same code-point reading of `charAt`.
- Chunks.AutoWarpChunk: the arena's length and bytes are counted in code points.
- Chunks.EncodeRegion: the name's length field and bytes are counted in code points.
- Regions.Region.GetEncodedRegion: the same code-point counting as Chunks.EncodeRegion.
- Regions.Region.AutoWarpBytes: the same code-point counting of the arena as Chunks.AutoWarpChunk.
- ByteArrays.ByteArray writers: a write outside the array throws in Java. The model excludes it
  by precondition instead of modelling the exception.
- `BitmapSaving.toDWORD` and `BitmapSaving.toWORD` are not part of this model. They are taken to
  be the little-endian encoders `ByteArrays.IntLE` and `Chunks.Word`, as their use on the
  little-endian fields implies.
- Regions.Region.DecodeRegion: when `decodeRegion` throws, the fields are not described. The
  appends made before the exception are not modelled.
- Chunks.DecodeRegion: the loop is bounded by one turn more than the data has bytes; past that
  it is reported as diverging. A negative length can send the cursor back. The cursor is the
  only state that steers the loop, so a run that exceeds the bound repeats a cursor. That it
  then runs for ever is argued here, not proved.
- Java's exceptions (array bounds, `ByteBuffer` slices with negative lengths) are modelled as
  their own outcomes (`Threw`, `Crashed`) decided by guards, not as control transfer.
- The zero-fill loops over new Java arrays are replaced by zero-initialised Dafny arrays.
- `Vector`, `ArrayList` and `List<Byte>` are modelled as sequences.
- A `null` string argument is modelled only where the source tests for it (`addPaddedString`).
