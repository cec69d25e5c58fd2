# FreeTypeTexture text renderer — a Dafny model

`TextRenderer` draws ASCII text with OpenGL from one texture atlas. Building
the atlas (`createAtlas`) takes two passes over the character codes 32..127.
Both passes skip any code whose glyph fails to load and any code on a small
denylist.

- The sizing pass packs the glyph bitmaps greedily into rows narrower than
  1024 texels, unless a single glyph is 1023 or more texels wide. It
  accumulates the atlas width and height into `m_width` and `m_height`.
- The packing pass repeats the same walk with the same row-break test. It
  moves an `(xOffset, yOffset)` cursor and fills the 128-slot table
  `m_characters` in place. Each placed code's slot records its advances in
  whole pixels, its bitmap size and bearings, and its offset in the atlas.

`RenderText(text, x, y, scale)` walks a string. It draws one quad per
character whose slot has a non-zero advance, and moves the pen on by each
advance.

The model is split into these modules:

- `Font` is what FreeType delivers. A face is the load outcome for each code
  0..127. Both passes see the same outcome for a code.
- `Metrics` holds the `Character` record and the value-initialised table.
- `Packing` states the two passes as folds over the accepted glyphs. It
  proves that they break rows at the same glyphs, that every placed rectangle
  lies inside the atlas, that no two rectangles overlap, and that the atlas
  is the bounding box of the greedy rows.
- `Atlas` covers the codes: the denylist, which codes both passes accept, and
  the table the packing pass produces.
- `Drawing` states what the draw loop draws for a string.
- `Renderer` has the class `TextRenderer`. Its fields are `texture`, `width`
  and `height`, and the table is the array `characters`. Its methods are the
  two passes and the draw loop as loops, each proved against the functions
  above.

## Model

Rows marked (proof step) are lemmas that the larger proofs use; they state one step of a loop rather than a behaviour of their own.

| member | source | states |
|---|---|---|
| Metrics.Blank | TextRenderer.h:53 | the value-initialised table has 128 slots, and every slot has advance 0 |
| Atlas.SkipWithinVisited | TextRenderer.cpp:99-104 | for a visited code 32..127, the denylist lookup matches exactly the 14 characters ' \| @ ~ / > < ^ { } [ ] \ " (the diaeresis bytes never match) |
| Atlas.IncludedNext | TextRenderer.cpp:111-123 | (proof step) visiting a code adds its glyph to the accepted list when it loads and is not skipped; a failed load or a skipped code adds nothing |
| Atlas.Pixels | TextRenderer.cpp:183-184 | a 26.6 fixed-point advance shifted right by 6 is the whole-pixel floor: r*64 <= v < r*64+64 |
| Atlas.Filled | TextRenderer.cpp:161-197 | the table after the packing pass still has 128 slots |
| Atlas.FilledAt | TextRenderer.cpp:161-197 | after the packing pass visits the codes below n, slot c holds the packed slot when c is an accepted code already visited, and is untouched otherwise |
| Atlas.Built | TextRenderer.h:53 | a freshly built table has 128 slots |
| Atlas.BuiltAt | TextRenderer.cpp:161-197 | in a fresh renderer's built table, slot c holds the packed slot when c is an accepted code in 32..127, and the zero record otherwise |
| Atlas.IncludedPrefix | TextRenderer.cpp:111-123 | the glyphs accepted before code c are a prefix of those accepted before any later code |
| Atlas.SlotIsPackedGlyph | TextRenderer.cpp:175-193 | an accepted code's glyph is the one at its index in the full accepted list, and its slot's position is where the packing pass puts that index |
| Atlas.IndexIncreases | TextRenderer.cpp:161-172 | accepted codes are packed in ascending code order |
| Atlas.BuiltInAtlas | TextRenderer.cpp:175-193 | an accepted code's rectangle lies inside the atlas: tx and ty are over m_width and m_height, xOffset + bw < m_width, and yOffset + bh <= m_height |
| Atlas.BuiltNoOverlap | TextRenderer.cpp:175-196 | the rectangles of two accepted codes are disjoint: the lower code's lies in an earlier row, or in the same row at least one padding column to the left |
| Atlas.BuiltMetrics | TextRenderer.cpp:183-190 | an accepted code's slot holds floor(advance/64) for ax and ay, and the bitmap width, rows, left and top unchanged |
| Atlas.BuiltUnplacedZero | TextRenderer.cpp:113-123 | a code that fails to load, is skipped, or lies outside 32..127 keeps the zero record, and so advance 0 |
| Atlas.IncludedSource | TextRenderer.cpp:111-123 | every accepted glyph comes from an accepted code in the visited range |
| Atlas.AtlasBelowMaxWidth | TextRenderer.cpp:125-136 | the built atlas is narrower than 1024 if and only if every accepted glyph has width + 1 < 1024; otherwise the widest glyph's row makes it at least 1024 wide |
| Packing.Append | TextRenderer.cpp:125-133 | (proof step) accepting one more glyph is one step of each pass: close the row when row width + width + 1 >= 1024, then widen the row by width + 1 and raise its height to the glyph's rows |
| Packing.PassesAgree | TextRenderer.cpp:157-196 | after the same glyphs, the packing cursor's x is the sizing pass's row width, the row heights agree, and yOffset is the height the sizing pass has closed |
| Packing.SameBreaks | TextRenderer.cpp:175-179 | the packing pass breaks a row before glyph i exactly when the sizing pass does (cpp:125), and glyph i's yOffset is the height of the rows closed before it |
| Packing.BehindStep | TextRenderer.cpp:195-196 | (proof step) one more packing step keeps a placed rectangle behind the cursor |
| Packing.PlacedBehindCursor | TextRenderer.cpp:175-196 | every placed rectangle lies behind the cursor: in an earlier row, or left of the cursor with a padding column |
| Packing.Separated | TextRenderer.cpp:175-196 | an earlier glyph's rectangle lies above a later glyph's row, or in the same row with a padding column before it |
| Packing.NoOverlap | TextRenderer.cpp:175-196 | any two distinct placed rectangles share no texel |
| Packing.WithinMeasuredWidth | TextRenderer.cpp:125-136 | a placed glyph with its padding column ends within the measured width |
| Packing.InBounds | TextRenderer.cpp:175-196 | every placed glyph has xOffset + width < m_width and yOffset + rows <= m_height |
| Packing.OpenRowBelowMax | TextRenderer.cpp:125-133 | when every glyph has width + 1 < 1024, both the closed width and the open row's width stay below 1024 |
| Packing.WidthBelowMax | TextRenderer.cpp:136 | m_width < 1024 whenever it starts below 1024 and every glyph has width + 1 < 1024 |
| Packing.Rows | TextRenderer.cpp:125-133 | greedy packing always leaves one row open, possibly empty |
| Packing.RowsPartition | TextRenderer.cpp:125-133 | the greedy rows hold exactly the accepted glyphs, in order |
| Packing.MeasuredRows | TextRenderer.cpp:125-133 | the sizing state is the rows so far: the open row's width and height, the widest closed row, and the closed rows' heights summed |
| Packing.AtlasIsRowsBoundingBox | TextRenderer.cpp:125-137 | m_width is the widest row, and m_height is the sum of the rows' tallest glyphs, both on top of the initial field values |
| Drawing.AdvanceSumConcat | TextRenderer.cpp:261 | the advances of a concatenation add up |
| Drawing.PenShift | TextRenderer.cpp:261 | (proof step) moving the pen by a + b at a scale is moving it by a, then by b |
| Drawing.DrawsConcat | TextRenderer.cpp:228-262 | drawing a + b draws a, then draws b from the pen position a leaves |
| Drawing.ZeroAdvanceInvisible | TextRenderer.cpp:231-235 | a character whose slot has ax == 0 neither draws nor moves the pen: removing it from any string changes nothing |
| Drawing.DrawCount | TextRenderer.cpp:228-262 | one quad is drawn per character with a non-zero advance |
| Drawing.BlankTableDrawsNothing | TextRenderer.cpp:231-235 | with every advance zero, nothing is drawn and the pen does not move |
| Renderer.TextRenderer.constructor | TextRenderer.cpp:19-40 | the fields start at zero and the table at the zero record; then the atlas is built. An opened face gives the measured size and the built table. A failed library or face leaves everything zero |
| Renderer.TextRenderer.CreateAtlas | TextRenderer.cpp:75-202 | when FreeType init or the face fails, nothing changes (cpp:79-92). Otherwise the texture is set, the size is measured onto the old fields, and the table is filled in place from its old contents |
| Renderer.TextRenderer.SizeAtlas | TextRenderer.cpp:107-137 | the loop leaves m_width and m_height as the measured size of the accepted glyphs, starting from the old field values |
| Renderer.TextRenderer.FillAtlas | TextRenderer.cpp:157-197 | the loop writes exactly the accepted codes' slots, with their packed positions, and leaves every other slot as it was |
| Renderer.TextRenderer.RenderText | TextRenderer.cpp:225-262 | the quads drawn, in order, are those of the draw specification. The pen ends at x plus the scaled sum of the advances. The empty string draws nothing and leaves x unchanged |
| Renderer.FailedBuildDrawsNothing | TextRenderer.cpp:79-92 | a renderer whose build gave up early draws nothing for any string |
| Renderer.UnplacedCodeInvisible | TextRenderer.cpp:231-235 | in a built renderer, a skipped, failed or out-of-range code neither draws nor moves the pen |

## Left out

- OpenGL is not modelled: texture creation and upload, texture parameters, VAO binding, blending, the uniforms and `glDrawArrays`. Each draw call is observed as a `Quad` value holding its translation, scale and texture-coordinate rectangle. The texture name the driver hands out is a parameter.
- FreeType is not modelled: library init, face loading, pixel size and the rasterised bitmaps. The face is an input sequence of load outcomes. The library and face failures are the `InitFailed` and `FaceFailed` inputs.
- The console error messages are not modelled.
- The shader setup, the orthographic projection read from `Config::windowX/Y`, and the `glm` matrices are not modelled. The same goes for the destructor's `glDeleteTextures`, the constructor's unit-quad vertex lists, and the parameterless `RenderText()` demo.
- Renderer.TextRenderer.RenderText: uses exact reals for the pen and the quad, not IEEE single precision. `tx`, `ty` and the texture-rectangle sizes are kept as exact quotients (`Ratio`) of the values the source divides.
- Renderer.TextRenderer.RenderText: requires every character code to be below 128. A negative `char` indexes outside the table in the source, which is undefined behaviour, so it is excluded rather than modelled.
- Renderer.TextRenderer.RenderText: its pen result is ghost. The source's pen is a local that no caller sees.
- Renderer.TextRenderer.SizeAtlas: does not model 32-bit unsigned wrap-around of `row_width`, `m_width` or `m_height`. Widths and heights are unbounded naturals, because wrapping would need more than 4·10⁹ texels of glyphs.
- Atlas.BuiltMetrics: does not model the truncation of the advances to `FT_Int`. A 26.6 advance shifted right by 6 fits in it.
- Renderer.TextRenderer.CreateAtlas: the two passes are separate methods here, SizeAtlas and FillAtlas. This has no effect on behaviour: the texture name is set between them, as in the source.
- Packing.WidthBelowMax: a glyph with width + 1 >= 1024 is placed at x = 0 of a row of its own and makes the atlas at least 1024 wide. This lemma states the bound only under the premise the source relies on; Atlas.AtlasBelowMaxWidth states both directions.
