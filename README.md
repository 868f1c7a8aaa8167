# bm-font-import in Dafny

This project models the two halves of bm-font-import that share one binary font format.

The producer is `glyph.c`. It is a glyph registry with a 512 x 512 RGBA atlas, filled by a skyline packer. It keeps:
- one metric slot per 16-bit code;
- a bitset of the codes that were added;
- an export that writes the atlas size, the raw atlas and one eight-field record per exported code.

The consumer is `font-render.c`. It loads such a stream and finds glyphs by binary search. It renders a string in three passes:
- a measuring pass that finds the bounding box;
- a compositing pass that copies each glyph's atlas rows into a zeroed RGBA canvas;
- a shading pass that turns each texel into a palette entry and a ramp character.

The modules follow the files:
- `Bytes` (bytes.dfy) holds octets, the `int16_t` and `unsigned int` conversions, and `memcpy` as `Splice` and `CopyBytes`.
- `Glyph` (glyph.dfy) holds glyph.c. `Glyph.Registry` is a class over the four static arrays: `bitmap`, `glyphs`, `loadedGlyphs` (as `bv32` words) and `top`. Its methods follow the source's loops.
  - Ghost state adds two things:
    - the set of loaded codes;
    - the sequence of rectangles handed out, which is what non-overlap is stated over.
- `FontLoad` (font_load.dfy) holds `fr_ReadS16`, `fr_LoadFont` and `fr_FindGlyph`. Each method is proved against a pure decoding or search function.
- `Palette` (palette.dfy) holds `fr_PutRGB`.
- `Render` (render.dfy) holds `fr_RenderString`. Its three passes are proved against specification functions:
  - `Placed` gives the glyphs found and their pens.
  - `Top`, `Bottom` and `Right` give the box.
  - `Canvas` gives the composited canvas, built from `Paint` and `PaintRow`.
  - `ShadeOf` describes the shaded cells.
- `LeftEdge` (left_edge.dfy) holds the left box edge of `fr_RenderString`, as written and as evidently intended.
- `Interchange` (interchange.dfy) ties the two halves together:
  - the loader reads back what the export writes;
  - the binary search finds exactly the exported codes.

In three places the code does something one might not expect, and the model follows the code:
- The bounding box's `left` never moves off 0. The comparison at font-render.c:172 is unsigned against 0. The destination column at font-render.c:204 does not subtract `left`. A glyph whose x bearing exceeds its pen therefore makes that column wrap (see "## Findings").
- A short atlas read is not an error. The atlas comes from `calloc` and the unchecked `fread` leaves the rest zeroed, so `DecodeFont` zero-fills and reads no records.
- A code is exported only when it was added and its width and height are not both 0. A blank glyph such as a space therefore has no record, so the renderer's own lookup skips it and does not advance the pen (`RenderedLookup`).

## Model

| member | source | states |
|---|---|---|
| Bytes.ToS16 | font-render.c:38 | conversion to `int16_t`: in range, congruent modulo 65536, identity on values that fit |
| Bytes.AsU32 | font-render.c:81 | conversion to `unsigned int`: below 2^32, congruent modulo 2^32, identity on values that fit |
| Bytes.Splice | glyph.c:77-79 | `memcpy` into a buffer: bytes in the written run come from the piece, all others are unchanged |
| Bytes.CopyBytes | glyph.c:77-79 | the byte loop leaves the array equal to `Splice` of its old contents |
| Glyph.Stamp | glyph.c:86-91 | the stored width and height are the glyph's when they fit 16 bits; x, y, xOffset and yOffset are `int16_t`; u and v are as given |
| Glyph.SpanMax | glyph.c:50-56 | v_max is at least every column top of the span and equals one of them |
| Glyph.RestingRow | glyph.c:50-56 | the row a glyph of the given width rests on at column u: the highest column top it spans (v_max) |
| Glyph.LowestLeftmost | glyph.c:45-63 | column u is the search's choice: it rests lowest, and strictly lower than every column to its left |
| Glyph.HasRoom | glyph.c:65-67 | some column lets the glyph rest with its bottom edge at most row 512, so the atlas is not full |
| Glyph.Raised | glyph.c:82-83 | the skyline after a placement: the spanned columns at the new level, every other column as it was |
| Glyph.Src | glyph.c:78 | the source offset of a pixel byte lies inside the glyph's width * height * 4 buffer |
| Glyph.RowInBuffer | glyph.c:78 | row r of a glyph buffer ends inside the buffer |
| Glyph.BitOf | glyph.c:39 | `code & 31` is `code % 32` |
| Glyph.SetBit | glyph.c:39 | OR-ing in bit i sets bit j exactly when it was set or j is i |
| Glyph.SameWord | glyph.c:39 | within one word, setting code's bit sets another code's bit only when it is that code |
| Glyph.SetLoaded | glyph.c:39 | setting code's bit adds exactly that code to the set the bitset holds |
| Glyph.PlaceOnSkyline | glyph.c:45-83 | a rectangle at the lowest leftmost column lies inside the atlas, overlaps no earlier rectangle, and every rectangle stays beneath the raised skyline |
| Glyph.SkylineRises | glyph.c:82-83 | after a placement no column of the skyline is lower than it was |
| Glyph.CopyRow | glyph.c:75-80 | copying row k extends a copy of rows 0..k-1 to rows 0..k and writes no byte outside the rectangle |
| Glyph.CopiedByte | glyph.c:77-79 | each pixel byte of rows 0..k sits at its atlas offset after row k is copied |
| Glyph.WithinRow | glyph.c:77 | an atlas byte lies in a copied run exactly when it is in that row and those columns |
| Glyph.Covers | glyph.c:75-80 | the atlas bytes the first `rows` rows of a placed glyph occupy: rows v to v + rows - 1, byte columns 4u to 4(u + width) - 1 |
| Glyph.BlittedRows | glyph.c:75-80 | after rows 0 to rows - 1 are copied, each of their glyph bytes sits at its atlas offset, and every atlas byte outside them is as it was |
| Glyph.Packs | glyph.c:45-83 | a successful placement: the glyph rests at the lowest leftmost column, all its rows are copied in, and the skyline over its span is raised to its bottom edge |
| Glyph.WriteS16 | glyph.c:130-134 | two bytes, low first, whose value is v modulo 65536 |
| Glyph.EncodeRecord | glyph.c:153-160 | one record is 16 bytes |
| Glyph.EncodeTable | glyph.c:145-161 | the table is 16 bytes per record |
| Glyph.RecordAt | glyph.c:145-161 | bytes 16k..16k+15 of the table are record k |
| Glyph.TableAppend | glyph.c:153-160 | writing one more record appends its 16 bytes to the table |
| Glyph.Stream | glyph.c:141-161 | the export stream: the atlas size 512 as two bytes, the raw atlas, then the table of records |
| Glyph.Registry.constructor | glyph.c:21-31 | an empty atlas and skyline, no code loaded, every slot zeroed, and the registry invariant |
| Glyph.Registry.IsLoaded | glyph.c:96-103 | true exactly for codes of 65536 or more and for codes that were added |
| Glyph.Registry.Get | glyph.c:105-127 | an in-range code's slot; zeroed metrics and u = v = 0 for a code of 65536 or more |
| Glyph.Registry.ScanSpan | glyph.c:50-56 | below the bound, v_max is the maximum of the span; an early exit at the bound means the maximum is at least the bound |
| Glyph.Registry.SearchColumns | glyph.c:45-63 | the column chosen rests lowest, and strictly lower than every column to its left; the (512, 512) result means no column rests above row 512 |
| Glyph.Registry.Blit | glyph.c:75-80 | each glyph row goes to its atlas row at column u, and no other atlas byte changes |
| Glyph.Registry.Raise | glyph.c:82-83 | the spanned columns of `top` take the new level, and the others are unchanged |
| Glyph.Registry.MarkLoaded | glyph.c:39 | exactly `code` joins the loaded set, and the bitset still agrees with it |
| Glyph.Registry.Place | glyph.c:41-84 | placed exactly when some column has room; otherwise atlas and skyline are unchanged; if placed, the new rectangle is packed and copied |
| Glyph.Registry.Commit | glyph.c:72-83 | the copy and skyline update keep every rectangle inside the atlas, pairwise apart and beneath the skyline |
| Glyph.Registry.Add | glyph.c:33-94 | an out-of-range code changes nothing; otherwise exactly that code is loaded; atlas full exactly when a glyph with pixels has no room, and then nothing else changes; a glyph with pixels is packed at the lowest leftmost column and its slot stamped; a zero-size glyph keeps u and v (full list below) |
| Glyph.Registry.Emitted | glyph.c:147-151 | a code gets a record exactly when it was added and its width and height are not both 0 |
| Glyph.Registry.TableUpTo | glyph.c:145-151 | the records the export loop writes for the codes below n, in code order |
| Glyph.Registry.TableSound | glyph.c:145-161 | the export holds only added codes that are not 0 x 0, each with its own slot, in strictly ascending code order |
| Glyph.Registry.TableStep | glyph.c:147-153 | code i adds a record exactly when it is loaded and not 0 x 0 |
| Glyph.Registry.TableComplete | glyph.c:145-161 | every added code that is not 0 x 0 has its record in the export |
| Glyph.Registry.ExportStep | glyph.c:145-161 | one pass of the export loop appends code i's record exactly when code i is emitted |
| Glyph.Registry.Export | glyph.c:136-162 | the output is the header 512, the raw atlas, then the record table |
| FontLoad.ReadS16 | font-render.c:30-39 | the first byte is the low 8 bits and the second the high 8 bits, read as `int16_t` |
| FontLoad.FieldAt | font-render.c:56-63 | each field read is an `int16_t` |
| FontLoad.DecodeRecord | font-render.c:54-65 | every field of a record is an `int16_t` |
| FontLoad.DecodeRecords | font-render.c:52-66 | at most 256 records; they stop at 256 or when no complete record is left |
| FontLoad.Zeros | font-render.c:48 | `calloc` gives n zero bytes |
| FontLoad.DecodeFont | font-render.c:41-67 | fails only on a stream under 2 bytes; the atlas size is the header, the atlas holds 4 * size * size bytes, and at most 256 records are kept |
| FontLoad.LoadFont | font-render.c:41-67 | the loader's result is `DecodeFont` of the stream |
| FontLoad.ReadRecords | font-render.c:52-66 | the record loop reads `DecodeRecords` of the rest of the stream |
| FontLoad.Key | font-render.c:81 | the compared key is below 2^32 |
| FontLoad.Search | font-render.c:69-94 | any record found lies inside the range searched and has the key |
| FontLoad.SearchComplete | font-render.c:76-91 | a key held at an index where the table is in order is found |
| FontLoad.IndexOf | font-render.c:69-94 | reference scan: the first index with the key, or None when no record has it |
| FontLoad.SearchIsIndexOf | font-render.c:69-94 | on a strictly sorted table the binary search equals the reference scan |
| FontLoad.FindGlyph | font-render.c:69-94 | the loop returns `Search`'s answer on any table order; a record returned is in range and has the key |
| FontLoad.SortedFound | font-render.c:69-94 | on a sorted table the search finds the key exactly when the table holds it |
| Palette.Score | font-render.c:139-145 | the score is the largest channel gap |
| Palette.Covers | font-render.c:136 | an entry is a candidate for a texel exactly when no channel of the texel exceeds the entry's |
| Palette.IsNearest | font-render.c:132-151 | entry i covers the texel, has the least score among covering entries, and every covering entry before it scores strictly more |
| Palette.RampChar | font-render.c:154 | the ramp character at index score * 13 / 256 |
| Palette.PutRGB | font-render.c:96-155 | the nearest covering entry, first among ties; score below 256; the ramp character of that score; alpha is not read |
| Palette.Nearest | font-render.c:126-152 | the scan keeps a covering entry with the least score, and the first such entry |
| Palette.NearestUnique | font-render.c:132-151 | only one entry can be the pick |
| Palette.WhiteAlwaysCovers | font-render.c:122 | the last entry, white, covers every texel |
| Palette.ChannelsDistinct | font-render.c:107-122 | no two entries share all three channels |
| Palette.ExactMatch | font-render.c:107-154 | a texel equal to entry k picks entry k, at score 0, and prints '%' |
| Palette.BlackIsFirst | font-render.c:107-154 | a black texel picks entry 0, at score 0, and prints '%' |
| Render.Lookup | font-render.c:169 | a glyph found is in the table and has the character's key |
| Render.Advance | font-render.c:184 | the pen moves by the glyph's xOffset, and not at all for a character without a glyph |
| Render.Pen | font-render.c:165-184 | the pen after a text: 0, plus the advance of every character |
| Render.Placed | font-render.c:165-185 | no more marks than characters |
| Render.PlacedEach | font-render.c:165-185 | when every character has a glyph, mark i is character i's glyph at the pen after the characters before it |
| Render.PlacedPrefix | font-render.c:165-185 | the marks of a prefix of the text are a prefix of the marks |
| Render.UnknownSkipped | font-render.c:169-170 | a character without a glyph changes neither the pen nor any mark |
| Render.BoxStep | font-render.c:172-182 | each box edge after one more glyph |
| Render.Top | font-render.c:178-179 | top starts at 0 and is lowered to -y of any glyph that reaches higher |
| Render.Bottom | font-render.c:181-182 | bottom starts at 0 and is raised to height - y of any glyph that reaches lower |
| Render.Right | font-render.c:175-176 | right starts at 0 and is moved out to pen + width - x of any glyph that reaches further |
| Render.Reach | font-render.c:175 | how far right a glyph reaches: its pen plus its width, less its x bearing |
| Render.TopIsLeast | font-render.c:178-179 | top is the least of 0 and every -y, and equals one of them |
| Render.BottomIsGreatest | font-render.c:181-182 | bottom is the greatest of 0 and every height - y, and equals one of them |
| Render.RightIsGreatest | font-render.c:175-176 | right is the greatest of 0 and every pen + width - x, and equals one of them |
| Render.Offset | font-render.c:204 | a row offset is at least its column |
| Render.Area | font-render.c:190 | the canvas byte count; `AreaIsProduct` gives 4 * width * height |
| Render.OffsetIsProduct | font-render.c:204 | the offset of (row, col) is row * 4 * width + col |
| Render.AreaIsProduct | font-render.c:190 | the canvas holds 4 * width * height bytes |
| Render.TexelOffset | font-render.c:215 | the shading offset (y * width + x) * 4 is byte 4x of row y |
| Render.OffsetShift | font-render.c:204 | moving along a row adds the column to the row's start |
| Render.OffsetMonotone | font-render.c:204 | later rows start no earlier |
| Render.SaneFits | font-render.c:187-188 | right >= 0, bottom >= top, and every glyph fits the box the measuring pass sizes |
| Render.FrameOf | font-render.c:187-188 | the canvas the code sizes: width = right - left with left at 0, height = bottom - top, and row 0 at the top edge |
| Render.CoveredSource | font-render.c:205 | a canvas byte a fitting glyph covers is copied from a byte inside the atlas |
| Render.RunInImage | font-render.c:204-206 | a row run of a fitting glyph lies inside the image |
| Render.InRun | font-render.c:204-206 | a byte lies in a copied run exactly when it is in that row and those columns |
| Render.DestRow | font-render.c:204 | the destination of row k is output row -y - top + k at column pen - x, and the run lies inside the canvas |
| Render.SrcRow | font-render.c:205 | the source of row k is atlas row v + k at column u, and the run lies inside the atlas |
| Render.PaintRow | font-render.c:204-206 | the `memcpy` of row k: atlas row v + k from column u, width * 4 bytes, over output row -y - top + k from column pen - x |
| Render.Paint | font-render.c:202-207 | the canvas after the first `rows` rows of a glyph are copied, in order |
| Render.Canvas | font-render.c:190-210 | the composited canvas: `calloc` zeros, then each found glyph painted in text order |
| Render.PaintNext | font-render.c:202-207 | painting one more row copies that row over the rows painted before |
| Render.PaintRowHit | font-render.c:204-206 | a canvas byte in row k's run receives the atlas byte it is copied from |
| Render.PaintRowMiss | font-render.c:204-206 | a canvas byte outside row k's run keeps its value |
| Render.PaintAt | font-render.c:202-207 | after a glyph's rows are copied, a covered byte holds its atlas byte and every other byte is unchanged |
| Render.CanvasStep | font-render.c:192-210 | the canvas after one more glyph is that glyph painted over the canvas before |
| Render.CanvasBlank | font-render.c:190-210 | a canvas byte no glyph covers stays 0 |
| Render.CanvasTop | font-render.c:192-210 | a covered canvas byte holds the atlas byte of the last glyph that covers it |
| Render.NextMark | font-render.c:165-185 | for one character: no glyph leaves pen and marks alone; a glyph adds its mark at the pen and moves the pen by its advance; this is the same step in both passes |
| Render.Measure | font-render.c:163-185 | left stays 0; right, top and bottom are the box edges over the glyphs found |
| Render.Calloc | font-render.c:190 | a fresh zeroed canvas of 4 * width * height bytes |
| Render.Compose | font-render.c:190-210 | the canvas is each found glyph, in text order, painted over a zeroed canvas |
| Render.ComposeStep | font-render.c:192-210 | one character of the compositing pass: pen and marks move on to the next prefix of the text, and the canvas is that prefix's canvas |
| Render.ComposeMark | font-render.c:197-209 | copying one found glyph's rows paints its mark over the canvas, and every mark so far still fits |
| Render.CopyGlyph | font-render.c:200-207 | the row loop paints all rows of one glyph |
| Render.CopyGlyphRow | font-render.c:204-206 | one pass of the row loop extends the rows painted so far by one |
| Render.Shade | font-render.c:212-218 | `height` lines of `width` cells; each cell is the palette pick for its texel |
| Render.ShadeTexel | font-render.c:215 | the texel at (y * width + x) * 4 goes through `fr_PutRGB` |
| Render.ShadeOf | font-render.c:212-218 | the cell printed for texel (y, x): the nearest covering entry for the three bytes at (y * width + x) * 4, and the ramp character of its score |
| Render.RenderString | font-render.c:157-219 | every glyph fits the box; the output has one line per canvas row and one cell per texel; each cell is the pick for the composited canvas |
| Interchange.Imported | font-render.c:52 | the loader keeps min(records, 256) of an exported table |
| Interchange.Received | font-render.c:56-63 | the record the loader reads back for an exported entry: each field written at glyph.c:153-160 as the `int16_t` it was written as |
| Interchange.CodeKey | glyph.c:153 | the key of an exported code: written with `glyph_WriteS16`, read back as `int16_t` (font-render.c:56) and compared as `wint_t` (font-render.c:81) |
| Interchange.S16RoundTrip | font-render.c:31-39 | reading back `glyph_WriteS16(v)` gives v as `int16_t`, which is v for every v in [-32768, 32767] |
| Interchange.FieldRoundTrip | font-render.c:56-63 | a field written by `glyph_WriteS16` reads back as its `int16_t` |
| Interchange.RecordRoundTrip | glyph.c:153-160 | the export's record layout and the loader's agree field for field |
| Interchange.DecodedAt | font-render.c:52-66 | record i of an exported table reads back as the entry written |
| Interchange.TableRoundTrip | font-render.c:52-66 | the record loop reads back the first 256 entries of an exported table |
| Interchange.StreamRoundTrip | glyph.c:136-161 | loading an exported stream gives atlas size 512, the atlas as written, and the first 256 records read back |
| Interchange.KeyOrder | font-render.c:81-84 | converting codes below 65536 to `int16_t` and then to `wint_t` keeps their order |
| Interchange.ImportedSorted | glyph.c:145-161 | an ascending export loads as a table strictly sorted by search key |
| Interchange.ExportedLookup | font-render.c:69-94 | on a loaded export, the search finds a code exactly when it has one of the first 256 records, and lands on that record |
| Interchange.RegistryLookup | glyph.c:145-161 | a registry's export loads back whole; a code is found only if it was added and is not 0 x 0, then with its own slot; with at most 256 records every such code is found |
| Interchange.CodeKeyIsKey | font-render.c:81 | for codes below 0x8000, the export's key and the renderer's key agree |
| Interchange.RenderedLookup | font-render.c:169 | through the renderer's own lookup: a code below 0x8000 gets a glyph only if it was added and is not 0 x 0, then its own slot; an unexported code gets none and does not move the pen; with at most 256 records every exported code gets its glyph |
| LeftEdge.DestOffsetAsWritten | font-render.c:204 | the destination offset in `unsigned int`: below 2^32, and the exact offset while nothing wraps |
| LeftEdge.BoxExampleWraps | font-render.c:172-206 | for text "A" whose glyph has x bearing 1 at pen 0: right 7, top -9, bottom 1, a 280-byte canvas, and row 0 copied to offset 0xFFFFFFFC; the text is not `Drawable`; with the left edge kept, left is -1 and the width 8 |
| LeftEdge.Left | font-render.c:172-173 | the left edge as intended: 0, lowered to pen - x of any glyph that starts further left |
| LeftEdge.LeftIsLeast | font-render.c:172-173 | that left edge is the least of 0 and every pen - x, and equals one of them |
| LeftEdge.LeftFits | font-render.c:187-206 | with that left edge, every glyph's column pen - x - left is not negative and its run ends within the width right - left |

`Glyph.Registry.Add` states, in full:
- A code of 65536 or more changes nothing.
- Otherwise exactly that code joins the loaded set.
- The atlas-full result happens exactly when the glyph has pixels and no column has room.
- Failure, a zero-size glyph or an out-of-range code leaves the atlas, the skyline and the placements unchanged.
- On success, every other slot is unchanged.
- A zero-size glyph keeps its old u and v.
- A glyph with pixels is packed at the lowest leftmost column and copied in, the skyline over it is raised, and its slot takes the new metrics.

`Interchange.RegistryLookup` states, for a registry's export of the codes below n:
- The loader reads back the atlas and the records.
- A code is found only if it was added and is not 0 x 0, and then with its own slot.
- When the export has at most 256 records, every such code is found.

## Left out

- font-import.c is not part of this model. It parses options and calls `GLYPH_Add` for fixed code ranges, and the font backend it calls is not visible.
- File I/O is modelled as byte sequences: `fputc`, `fwrite`, `fgetc`, `fread`, `printf` and `putchar`.
  - The export returns its bytes.
  - The loader takes the whole stream.
  - The render returns lines of `Cell`s (palette index, ramp character) in place of SGR sequences, characters and newlines.
- The atlas is written with `fwrite` of `uint32_t` texels in host byte order. Texels are kept as four opaque bytes.
- FontLoad.DecodeFont: a stream under 2 bytes gives no font, where the C code would read EOF values as the header.
- FontLoad.DecodeRecords: only complete 16-byte records are decoded. The C loop tests `feof` before reading, so it can also store one record made of EOF reads past the end.
- Allocation failure of `calloc` is not modelled.
- The process exit of `errx` in `GLYPH_Add` becomes the `AtlasFull` result.
- `glyph_dirty` is not modelled, because nothing reads it.
- Glyph.Registry.Add: requires `Admissible`. The glyph is at most 512 wide (the column bound at glyph.c:48 assumes it), and its pixel buffer holds width * height * 4 bytes.
- The text of `fr_RenderString` is a sequence of integer character values, without the signed-`char` conversion and the terminating NUL. Each value is compared as `wint_t` through `Key`.
- Render.RenderString: requires `Drawable`, which keeps the C unsigned and `int` arithmetic exact. Its conditions:
  - every found glyph lies in the atlas;
  - pen - x is not negative. A text with a negative pen - x makes the column at font-render.c:204 wrap and the copy write outside the canvas; it is the defect under "## Findings", and `Drawable` excludes it;
  - right stays below 2^31;
  - 4 * width * height fits in `unsigned int`.

  Wrap-around outside these ranges is not modelled.
- Render.Measure: requires `Sane`, the per-glyph part of the same conditions.
- Render.Compose: requires that every glyph fits the frame it is given.
- FontLoad.FindGlyph: its contract holds for any table order. That it finds every key a sorted table holds is proved separately, in `FontLoad.SortedFound`.
- Interchange.RegistryLookup: states completeness only for exports of at most 256 records. The loader drops records beyond 256.

## Findings

| source | as written | input that shows it | evidently intended | confidence | as-written member | corrected member |
|---|---|---|---|---|---|---|
| font-render.c:172-204 | `x - glyph->x < left` is compared in `unsigned int`, so `left` stays 0 and the width is `right`. The row copy at :204 writes at column `x - glyph->x`, and that column wraps when the x bearing exceeds the pen | the text "A" with one glyph 'A' of 8 x 10 texels, x bearing 1, y bearing 9, advance 9: the canvas is 7 x 10 texels (280 bytes), and row 0 is copied to byte offset 0xFFFFFFFC, far outside it | left is the least of 0 and every pen - x, the width is right - left, and each glyph is copied at column pen - x - left, which is never negative | not executed | LeftEdge.BoxExampleWraps | LeftEdge.LeftFits |

`LeftEdge.DestOffsetAsWritten` is the offset as the code computes it. `LeftEdge.Left` is the intended edge. The rest of the model keeps the code as written: `Render.Measure` requires `Sane` and `Render.RenderString` requires `Drawable`, and both demand pen - x >= 0, which excludes this input.
