# wadremip, modelled in Dafny

wadremip regenerates mip levels 1 to 3 of the paletted textures in Quake
WAD2 archives and BSP version 29 maps. It works in place. For every miptex
record it takes the full-size level 0, shrinks it with a bilinear filter
and maps each blended colour back to the nearest palette entry. Then it
writes levels 1, 2 and 3 over the old bytes at the offsets the record
gives.

This project models the core of `wadremip.c`:

- `palette.dfy` (module `Palette`): `isqr`, `imin`, `imax` and the
  descending nearest-colour scan `palette_search`. The scan is proved to
  return the unique entry with the smallest squared distance, where a tie
  goes to the highest index.
- `resample.dfy` (module `Resample`): the integer skeleton of
  `bilinear_u8` and `blend4_u8`:
  - which four source pixels feed a destination pixel;
  - the clamp to the last row and column;
  - the transparency rule;
  - the row-major output buffer.

  The floating-point coordinates, weights and blend are a `Filter`
  parameter. The only thing required of it is that the truncated source
  coordinate lies inside the source image.
- `layout.dfy` (module `Layout`):
  - bytes, and little-endian `int32_t`/`uint32_t` decoding with an encoder
    as its inverse;
  - `fseek` + `fwrite` as a write over a byte sequence;
  - lists of such writes and their algebra (frame, last write wins,
    concatenation, repetition).
- `texture.dfy` (module `Texture`):
  - the 40-byte `miptex_t` record;
  - `>>` on sizes;
  - the slots of levels 1 to 3;
  - one record's three writes, each computed from level 0 as it was read;
  - `RemipTexture`, the loop body that `process_wad` and `process_bsp`
    share.
- `patch.dfy` (module `Patch`): processing a list of records in order.

  Suppose no slot of levels 1 to 3 overlaps a byte that some record reads
  (its 40 bytes or its level 0). Then a whole run is proved to equal one
  list of writes computed from the original file. As consequences:
  - bytes outside the slots are unchanged;
  - every slot byte holds the level computed from the original level 0;
  - a second run changes nothing.
- `container.dfy` (module `Container`):
  - the WAD2 header and 32-byte directory entries, with the type filter
    on 0x44;
  - the BSP texture lump table;
  - the signature dispatch of `main`;
  - `ProcessWad`, `ProcessBsp` and `ProcessFile` on an `array<Byte>`
    holding the file.

Each method is proved against a function over the file's bytes: `Remip`,
`RemipAll`, `RemipFile`, `Resampled` and `Nearest`. The lemmas state what
those functions do to the file.

Behaviour of `wadremip.c` worth knowing:

- **Ties.** `palette_search` scans from 255 down to 0 with a strict `<`,
  so a tie goes to the highest index, not the first one in ascending
  order.
- **Small textures.** No texture is skipped for being too small. A level
  whose size shifts down to 0 writes 0 bytes.
- **Validation.** No count or offset is validated. The model's functions
  return `None` where a read or a write would leave the file, and its
  methods require that this does not happen.

## Model

| member | source | states |
|---|---|---|
| Layout.U32 | wadremip.c:364-365 | the uint32_t read from four bytes lies in 0..2^32-1 and its low byte is the first byte |
| Layout.U32Bytes | wadremip.c:365-370 | comparing the decoded uint32_t with a magic number is the same as `memcmp` of the four bytes with the magic's bytes |
| Layout.I32 | wadremip.c:281-282 | an int32_t read from four bytes is in int32 range and is negative exactly when the top bit of the last byte is set |
| Layout.EncodeI32 | wadremip.c:281-282 | the four bytes that store a value, with the sign in the top bit of the last one |
| Layout.DecodeEncodeI32 | wadremip.c:281-282 | decoding the bytes of an encoded int32_t gives the value back |
| Layout.EncodeDecodeI32 | wadremip.c:281-282 | encoding a decoded int32_t gives back the four bytes it came from |
| Layout.I32Agree | wadremip.c:214-220 | a field decodes the same in two files that agree on its four bytes |
| Layout.I32Shift | wadremip.c:214-220 | an int32_t depends on its own four bytes only |
| Layout.I32s | wadremip.c:223-224 | reading n int32_t one after another gives n values in int32 range |
| Layout.DecodeEncodeI32s | wadremip.c:223-224 | an encoded int32_t array decodes back to itself |
| Layout.EncodeDecodeI32s | wadremip.c:223-224 | a decoded int32_t array encodes back to the bytes it came from |
| Layout.Overwrite | wadremip.c:255-256 | a write keeps the file's length |
| Layout.OverwriteAt | wadremip.c:255-256 | after a write, bytes inside the range hold the data and every other byte is unchanged |
| Layout.WriteAt | wadremip.c:327-328 | `fseek` + `fwrite` on the in-memory file leaves exactly `Overwrite` of the old contents |
| Layout.Written | wadremip.c:243-256 | a list of in-file writes keeps the file's length |
| Layout.WrittenFrame | wadremip.c:315-328 | a byte no write covers keeps its value |
| Layout.WrittenLast | wadremip.c:315-328 | a byte holds what the last write covering it put there |
| Layout.WrittenAppend | wadremip.c:243-256 | making one list of writes and then another is making their concatenation |
| Layout.WrittenStep | wadremip.c:243-256 | making one more write extends the written prefix by one |
| Layout.WrittenAgree | wadremip.c:243-256 | a byte that some write covers ends up the same whatever it held before |
| Layout.WrittenTwice | wadremip.c:243-256 | making the same writes a second time changes nothing |
| Palette.Sqr | wadremip.c:106 | `isqr` of a channel difference, as a non-negative int built without multiplication; SqrIsProduct proves it is a*a |
| Palette.SqrIsProduct | wadremip.c:106 | `isqr(a)` is a*a for every int |
| Palette.SqrZero | wadremip.c:106 | `isqr(a)` is 0 exactly when a is 0 |
| Palette.SqrBelow | wadremip.c:106 | the square of a channel difference is at most 255*255 |
| Palette.Min | wadremip.c:107 | `imin` is one of its arguments and is no greater than either |
| Palette.Max | wadremip.c:108 | `imax` is one of its arguments and is no smaller than either |
| Palette.Rank | wadremip.c:116-118 | the rank of entry i: the sum of the squares of its three channel differences to (r, g, b); RankBelow and RankZero bound it |
| Palette.RankBelow | wadremip.c:112-118 | every rank is between 0 and 3*255*255, below INT32_MAX, so the first step of the scan always sets `pen` |
| Palette.RankZero | wadremip.c:116-118 | a rank is 0 exactly when the entry has the searched colour |
| Palette.NearestFrom | wadremip.c:114-124 | the index the descending scan holds after reaching `lo` lies in lo..255 |
| Palette.NearestFromIsArgmin | wadremip.c:114-124 | that index has the smallest rank in lo..255, and every entry above it has a strictly larger rank |
| Palette.Nearest | wadremip.c:110-128 | the search result is an index in 0..255 |
| Palette.NearestIsUniqueNearest | wadremip.c:110-128 | the result is nearest among all 256 entries with ties to the highest index, and it is the only index with that property |
| Palette.PaletteSearch | wadremip.c:110-128 | the loop returns the nearest entry, with ties going to the highest index |
| Palette.NearestOfEntryColor | wadremip.c:114-124 | searching for entry k's exact colour returns an entry of that colour at index k or above |
| Palette.NearestOfUniqueColor | wadremip.c:114-124 | when no entry above k shares its colour, searching for that colour returns k |
| Resample.ExactLowInRange | wadremip.c:175-179 | with exact arithmetic, the truncated source coordinate of a shrink lies inside the source |
| Resample.ExactFilterIsValid | wadremip.c:166-179 | a filter using exact arithmetic for the coordinates meets the one assumption made of the float parts |
| Resample.RowMajor | wadremip.c:185-188 | pixel (x, y) of a row-major image lies inside the image |
| Resample.TapsAt | wadremip.c:179-182 | the four source coordinates are in range, and the high one is the low one plus 1 or is clamped to the last column or row |
| Resample.Neighbours | wadremip.c:185-188 | the four source pixels a, b, c and d at (xlow, ylow), (xhigh, ylow), (xlow, yhigh) and (xhigh, yhigh), all read inside the image |
| Resample.Pixel | wadremip.c:179-200 | destination pixel (x, y): 255 if any neighbour is 255, otherwise the nearest palette entry to the blend; TransparencyIsContagious and OpaquePixelIsBlend state both cases |
| Resample.NeighbourReadsInBounds | wadremip.c:179-188 | all four neighbour reads fall inside the w*h source |
| Resample.FlattenAt | wadremip.c:193-199 | byte y*width+x of the flattened rows is pixel (x, y) |
| Resample.Grid | wadremip.c:170-172 | the destination has newH rows of newW pixels |
| Resample.GridRow | wadremip.c:170-202 | row y of the grid holds the destination pixels of row y and extends the flattened image by one row |
| Resample.Resampled | wadremip.c:163 | the shrunk image has exactly newW*newH bytes |
| Resample.ResampledAt | wadremip.c:193-199 | byte y*newW+x of the shrunk image is destination pixel (x, y) |
| Resample.TransparencyIsContagious | wadremip.c:191-194 | if any of the four neighbours is 255, the destination pixel is 255 whatever the other three are |
| Resample.OpaquePixelIsBlend | wadremip.c:195-200 | a pixel with four opaque neighbours is the palette entry nearest to their blend |
| Palette.Color | wadremip.c:136-139 | the colour of entry i is bytes 3i, 3i+1 and 3i+2 of the palette |
| Resample.Mixed | wadremip.c:141-149 | the blended colour: `Filter.mix` of the four neighbours' palette colours, weighted by the fractional parts of the source coordinates |
| Resample.Blend4 | wadremip.c:130-150 | blend4_u8 returns the nearest palette entry to the mixed colour of its four inputs |
| Resample.SamplePixel | wadremip.c:174-200 | one pass of the inner loop body computes destination pixel (x, y) |
| Resample.PixelRow | wadremip.c:172-201 | row y of the destination has newW pixels |
| Resample.FillRow | wadremip.c:172-201 | the inner loop writes the destination pixels of row y at bytes row to row+newW-1 and leaves every byte before and after them unchanged |
| Resample.FlattenPrefix | wadremip.c:170-202 | the first k rows of a row-major image are the flattening of those k rows |
| Resample.FillNextRow | wadremip.c:170-202 | one pass of the outer loop extends the filled prefix of the buffer from the first y rows of the shrunk image to the first y+1, and leaves the bytes after row y unchanged |
| Resample.Bilinear | wadremip.c:152-205 | the returned buffer is newly allocated, has newW*newH bytes and is the shrunk image, row-major |
| Texture.ReadMiptex | wadremip.c:40-45 | the 40 bytes decode to a 16-byte name and six int32_t fields |
| Texture.EncodeMiptex | wadremip.c:40-45 | a record is stored in 40 bytes |
| Texture.ReadEncodeMiptex | wadremip.c:40-45 | decoding an encoded record gives it back |
| Texture.EncodeReadMiptex | wadremip.c:40-45 | encoding a decoded record gives back its 40 bytes |
| Texture.ReadMiptexAgree | wadremip.c:234-235 | a record decodes the same from two files that agree on its 40 bytes |
| Texture.Shr | wadremip.c:248-249 | `v >> m` as m halvings that round down; ShrIsFloorDivision proves it is floor division by 2^m |
| Texture.ShrIsFloorDivision | wadremip.c:248-249 | `v >> m` is floor division by 2^m, negative values included |
| Texture.ShrBounds | wadremip.c:320-321 | a shifted non-negative size lies between 0 and the size |
| Texture.SlotStart | wadremip.c:255 | the slot of level m starts at the record's base plus offsets[m] |
| Texture.LevelSize | wadremip.c:256 | level m holds (width >> m) * (height >> m) bytes |
| Texture.SlotInFile | wadremip.c:255-256 | the slot of every level of a record that fits lies inside the file |
| Texture.Source | wadremip.c:238-240 | `src` is width*height bytes read at base + offsets[0] |
| Texture.Shrinker | wadremip.c:252 | bilinear_u8, as a resampler, returns newW*newH bytes |
| Texture.Level | wadremip.c:245-252 | level m has (width >> m)*(height >> m) bytes |
| Texture.LevelIsBilinear | wadremip.c:324 | level m is bilinear_u8 applied to `src`, never to the level before it |
| Texture.Plan | wadremip.c:243-256 | a record makes three writes, all inside the file |
| Texture.PlanAt | wadremip.c:315-328 | write k puts level k+1 exactly over [base+offsets[k+1], base+offsets[k+1]+size) |
| Texture.Remip | wadremip.c:243-256 | processing a record keeps the file's length |
| Texture.PlanFrame | wadremip.c:243-256 | the writes for a record leave every byte outside its slots alone |
| Texture.PlanSlot | wadremip.c:243-256 | a slot byte holds the byte of the last level whose slot covers it |
| Texture.RemipFrame | wadremip.c:315-328 | processing a record changes no byte outside the slots of levels 1 to 3, including the record itself |
| Texture.RemipSlot | wadremip.c:315-328 | after processing, a slot byte holds the matching byte of the level computed from `src` |
| Texture.RecordAgree | wadremip.c:305-307 | files that agree on a record's 40 bytes give it the same fields, slots and read bytes |
| Texture.PlanFromLevelZero | wadremip.c:238-252 | the writes for a record depend only on its 40 bytes and on level 0 |
| Texture.RemipTexture | wadremip.c:231-259 | the per-record loop body of process_bsp and process_wad leaves the file as `Remip` of the old file |
| Patch.RemipAll | wadremip.c:229-264 | processing records in order keeps the file's length |
| Patch.RemipAllAppend | wadremip.c:295-336 | processing two lists in turn is processing their concatenation |
| Patch.RemipAllPrefix | wadremip.c:229-264 | if the whole run stays inside the file, so does every prefix of it |
| Patch.RemipAllStep | wadremip.c:229-264 | record k is processed on the file the first k records left |
| Patch.AllWrites | wadremip.c:243-256 | all records' writes are inside the file, three per record |
| Patch.AllWritesFrame | wadremip.c:315-328 | a byte in no slot is left alone by all the writes |
| Patch.AllWritesSlot | wadremip.c:315-328 | a byte holds the level of the last slot that covers it |
| Patch.SeparatePrefix | wadremip.c:229-264 | a prefix of a separate list is separate |
| Patch.ReadsOutsideSlots | wadremip.c:305-312 | with separate slots, no slot covers a byte that a record reads |
| Patch.RemipAllSeparate | wadremip.c:295-336 | with separate slots, processing records one by one equals making all their writes computed from the original file |
| Patch.SeparateHeaders | wadremip.c:295-336 | separate slots keep clear of every record's 40 bytes |
| Patch.RemipAllFrame | wadremip.c:295-336 | when no slot covers a record's 40 bytes, bytes outside all slots are unchanged |
| Patch.HeaderNoSlot | wadremip.c:295-336 | when no slot covers a record's 40 bytes, the 40 bytes of record n lie in no slot of the records before it, so they are as in the original file when its turn comes |
| Patch.FrameLast | wadremip.c:301-336 | a byte outside a record's slots keeps its value when the record is processed on a file that still holds the record's 40 bytes |
| Patch.RemipAllSlot | wadremip.c:229-264 | with separate slots, a slot byte holds the level computed from the original level 0 |
| Patch.AllWritesFromReads | wadremip.c:305-312 | files that agree on every byte the records read get the same writes |
| Patch.SeparateAgree | wadremip.c:233-235 | files that agree on every record's 40 bytes have the same slots and stay separate |
| Patch.RemipAllTwice | wadremip.c:295-336 | with separate slots, processing the records again changes nothing |
| Container.KindOf | wadremip.c:363-379 | the signature dispatch: "WAD2" is tested first, then 29,0,0,0; anything else, and a file under four bytes, is unknown |
| Container.KindOfSignature | wadremip.c:363-379 | the WAD path is taken exactly for "WAD2" and the BSP path exactly for 29,0,0,0; any other signature or a short file is neither |
| Container.ReadLump | wadremip.c:49-57 | a directory entry decodes to three int32_t, the type and compression bytes, the padding and a 16-byte name |
| Container.EncodeLump | wadremip.c:49-57 | an entry is stored in 32 bytes |
| Container.ReadEncodeLump | wadremip.c:49-57 | decoding an encoded entry gives it back |
| Container.EncodeReadLump | wadremip.c:49-57 | encoding a decoded entry gives back its 32 bytes |
| Container.ReadLumpAgree | wadremip.c:288-289 | an entry decodes the same from equal bytes |
| Container.ReadLumps | wadremip.c:288-289 | reading n entries gives n entries |
| Container.ReadEncodeLumps | wadremip.c:288-289 | a directory of encoded entries reads back as those entries |
| Container.WadDirectory | wadremip.c:280-289 | when read, the directory has num_lumps entries, taken from the header after the magic |
| Container.WadDirectoryOfEncoded | wadremip.c:280-289 | a file whose header encodes the count and offset of an encoded directory reads back as that directory |
| Container.MiptexBases | wadremip.c:295-303 | the filtered list is no longer than the directory |
| Container.MiptexBasesAppend | wadremip.c:295-303 | the type filter distributes over concatenation |
| Container.MiptexBasesMembers | wadremip.c:299-306 | an offset is processed exactly when some entry of type 0x44 has it |
| Container.NoMiptexNoBases | wadremip.c:299-303 | a directory without type 0x44 entries yields no record |
| Container.MiptexBasesStep | wadremip.c:295-303 | entry l adds its offset when its type is 0x44 and nothing otherwise |
| Container.MiptexBasesPrefix | wadremip.c:295-303 | the records of a directory are those of a prefix followed by those of the rest |
| Container.WadBases | wadremip.c:299-306 | the bases exist exactly when the directory does, and they are the offsets of its 0x44 entries |
| Container.BspBases | wadremip.c:213-224 | when read, the table has num_textures entries, read at the offset stored at byte 20 |
| Container.ReadTable | wadremip.c:223-224 | reading n int32_t gives n values |
| Container.BspBasesOfEncoded | wadremip.c:213-234 | a file that encodes the lump offset, count and table gives exactly the rebased table: base t is ofs_miptex + ofs_textures[t], in table order |
| Container.RemipFile | wadremip.c:363-379 | a handled file keeps its length |
| Container.UnknownUnchanged | wadremip.c:363-379 | a file shorter than four bytes or whose signature is neither "WAD2" nor 29 has no records and is not written |
| Container.NoMiptexUnchanged | wadremip.c:299-303 | a WAD2 with no 0x44 entry is not written |
| Container.WadFrame | wadremip.c:274-345 | when no slot covers a record's 40 bytes, a WAD2 byte outside every 0x44 record's slots is unchanged |
| Container.BspFrame | wadremip.c:207-272 | when no slot covers a record's 40 bytes, a BSP byte outside every texture's slots is unchanged |
| Container.RemipFileSlot | wadremip.c:243-256 | with separate slots, a slot byte holds the level computed from the original level 0 |
| Container.WadStep | wadremip.c:295-336 | entry l of type 0x44 processes one record; any other entry changes nothing |
| Container.TablesAgree | wadremip.c:280-289 | files that agree on the signature, header and table find the same records |
| Container.RemipFileTwice | wadremip.c:347-382 | running the program a second time on its own output changes nothing, when slots are separate and outside the tables |
| Container.ProcessWad | wadremip.c:274-345 | process_wad leaves the file as `RemipAll` over the 0x44 entries' offsets, in directory order |
| Container.ProcessBsp | wadremip.c:207-272 | process_bsp leaves the file as `RemipAll` over ofs_miptex + ofs_textures[t], in table order |
| Container.ProcessFile | wadremip.c:363-379 | main dispatches on the signature, reports the kind and leaves the file as `RemipFile` of the old one |

## Left out

- Floating point: `xscale`, `yscale`, `src_x`, `src_y`, `alpha`, `beta` and the channel blend of `blend4_u8` are the `Filter` parameter. Only the in-range truncated coordinate is assumed of them.
- Resample.Bilinear: the blended colour is whatever `Filter.mix` returns. That the blend of four opaque colours lies between them is not stated.
- The contents of `quake_palette.h`: every member takes the 768-byte palette as a parameter.
- stdio: `fopen`, `fclose`, `printf` and `reset`, the globals and their cleanup, `wad_allocate`/`wad_free`, and the argv loop of `main`. The model handles one file held in memory.
- Palette.PaletteSearch: requires r, g and b to be bytes. Its only caller passes blended channels of byte colours.
- Container.ProcessWad: requires every read and write to stay inside the file. The code checks no count or offset. Reads past the end of the file and `fwrite`s past the end that grow the file are not modelled. After a short `fread` the code would see: zeros in the freshly `calloc`'d directory, offset table and level-0 buffer `src`; the previous record's fields (zeros for the first record) in the shared `miptex` buffer, which is allocated once per file and read again for every record; and indeterminate values in the uninitialised header locals `ofs_miptex`, `len_miptex`, `num_textures`, `num_lumps` and `ofs_lumps`.
- Container.ProcessBsp: the same in-file requirement as ProcessWad. A negative `num_textures` passed to `calloc` is not modelled.
- Container.ProcessFile: a file shorter than four bytes is treated as unknown. The code would compare an indeterminate `magic`: it is declared once, outside the loop over the files, so its unread bytes are uninitialised for the first file and left over from an earlier file after that.
- Texture.RemipTexture: requires a non-negative width and height and slots inside the file.
- int32_t overflow: the sums `ofs_miptex + ofs_textures[t] + offsets[m]` and the products `width * height` and `new_w * new_h` are computed without wrap-around.
- `len_miptex`: the code reads it and never uses it. The model does not read it: the BSP header is read only as far as `ofs_miptex`.
- Directory entry fields: a directory entry's sizes, compression and name are decoded and affect nothing, as in the code.
- `mipheader_t`: the code declares it and never uses it.
