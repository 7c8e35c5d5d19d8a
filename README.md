# textwal `render`: a verified model of text layout and glyph compositing

This project models `render` in `src/main.c`, the routine that turns a text
into an RGB image. It follows the routine from the background fill to the end
of the line loop:

- **Fill.** A `w*h*3`-byte canvas is filled with the background colour.
- **Measurement pass.** One scan of the text adds the line height once per
  `'\n'`. It also keeps the longest `'\n'`-terminated run, which gives the
  width estimate `max_line_len * font_size / 2`.
- **Start position.** The text block is centred with C's truncating division,
  and the ascender is added to `y`.
- **`strtok` walk.** The text is split on `'\n'`; empty segments are skipped.
- **Compositor.** Each character's glyph is looked up. Each bitmap cell with
  non-zero coverage that lands on the canvas blends the text colour into its
  pixel. The pen moves by `advance.x >> 6` after each glyph. After each line,
  `x` returns to `x_start` and `y` moves down by the font size.

FreeType is not part of this model. The font is an oracle `Font = char ->
Option<Glyph>`: a failed `FT_Load_Glyph` is `None`, a loaded glyph is its
coverage bitmap, `bitmap_top` and 26.6 advance. The size metrics `height` and
`ascender` are parameters in 26.6 fixed point.

Modules, one per stage of `render`:

- `CArith`: C's truncating `/` and the arithmetic `>> 6`.
- `Pixels`: bytes, colours, the blend formula, the canvas fill and pixel numbering.
- `Lines`: `'\n'` splitting, the measurement pass and the `strtok` walk.
- `Layout`: the font oracle, start positions and the pen position of every glyph drawn.
- `Compositor`: drawing one glyph cell by cell into the `array<Byte>` canvas, and the
  specification functions `Stamp` (one glyph drawn over a canvas) and `Composite`
  (a sequence of glyphs drawn in order).
- `Render`: the line and character loops, and `Render`, whose result is proved equal to
  the specification `Image`.

The imperative parts stay imperative. `Fill`, `DrawGlyph`, `DrawLine` and
`DrawText` are methods whose loops write into the `array<Byte>` canvas; each
is proved to leave the canvas equal to a specification function: `Background`
for the fill, and `Stamp` or `Composite` of the old canvas for the drawing
loops. `Render` allocates the canvas and
calls them in turn, with no loop of its own, and is proved to return `Image`.
`Measure`, `SkipNewlines`, `TokenEnd` and `NextToken` are loops over the
text: `Measure` is proved to return `TotalHeight`, `MaxLen` and `TotalWidth`,
and `NextToken` to satisfy the predicate `Token`, which describes one
`strtok` call in terms of `DrawnLines`. The properties of the specification
functions are proved as lemmas.

Behaviours of `render` a reader may not expect:

- The block height is `(number of '\n') * (height >> 6)`, not the number of
  lines times the line height. A text without `'\n'` measures 0 high and
  0 wide (`Render.OneLinePenAtCentre`).
- The block width is `max_line_len * font_size / 2`, a per-character
  estimate, not a sum of glyph advances. The final segment is only counted
  when a `'\n'` ends it (`Lines.UnterminatedTailIgnored`).
- Placement is always centred. The only options are f, b, t, s, w, h, o
  and help, and none of them sets an alignment or a text direction.
- A blank line takes no room between drawn lines: `strtok` skips empty
  segments, so `y` moves only after a drawn line (`Lines.BlankLineSkipped`,
  `Layout.LinesStackByFontSize`). Its `'\n'` still adds `height >> 6` to the
  block height used for centring (`Lines.TotalHeight`), so `"a\n\nb\n"` draws
  the same two lines as `"a\nb\n"`, about half a line height higher.
- Bitmap row `r` lands on canvas row `y - bitmap_top + 1 + r`, one row below
  where a baseline at `y` would put it (`Compositor.CellLands`).

## Model

| member | source | states |
|---|---|---|
| CArith.TruncDiv | src/main.c:85-90 | C's `/` by a positive divisor rounds toward zero: the remainder is in `[0, b)` for a non-negative dividend and in `(-b, 0]` for a negative one |
| CArith.Shr6 | src/main.c:136 | `v >> 6` is the floor of `v / 64`: `64*r <= v < 64*r + 64` |
| Pixels.Blend | src/main.c:129-131 | the blended channel lies between the text and destination values; coverage 0 leaves the destination, coverage 255 gives exactly the text colour, equal colours are fixed |
| Pixels.BlendBounds | src/main.c:129-131 | `(txt*cov + dst*(255-cov)) / 255` lies between `min(txt,dst)` and `max(txt,dst)`, so it fits the byte it is stored in |
| Pixels.Background | src/main.c:56-69 | the filled canvas has `3*pixels` bytes, and byte `ch` of every pixel holds background channel `ch` |
| Pixels.Fill | src/main.c:65-69 | the fill loop leaves the buffer equal to `Background` |
| Pixels.PixelNumbering | src/main.c:126 | an on-canvas pixel `(px, py)` has number `py*w+px` in `[0, w*h)`, and `/ w`, `% w` recover `py`, `px` |
| Pixels.IndexGuardRedundant | src/main.c:123-128 | the coordinate guards imply the index guard: `0 <= idx` and `idx + 2 < w*h*3` |
| Lines.SplitLines | src/main.c:104 | every text has at least one segment, possibly empty |
| Lines.NonEmpty | src/main.c:104 | dropping the empty segments yields at most as many segments as it was given |
| Lines.DrawnLines | src/main.c:104-105 | a text without `'\n'` is its own only drawn line, and an empty text draws none |
| Lines.MaxLen | src/main.c:79 | the result bounds the length of every segment and is attained by one of them; it is 0 when there are none |
| Lines.SplitLinesCount | src/main.c:76-78 | a text has one more `'\n'`-separated segment than it has newlines |
| Lines.SegmentsNewlineFree | src/main.c:104 | no segment contains the delimiter |
| Lines.SplitLinesJoin | src/main.c:104 | joining the segments with `'\n'` gives the text back |
| Lines.JoinSplitLines | src/main.c:104 | newline-free segments are recovered by splitting their join |
| Lines.SplitLinesNoNewline | src/main.c:104 | a text without `'\n'` is one segment |
| Lines.SplitLinesAt | src/main.c:104 | the segments of `a + "\n" + b` are those of `a` followed by those of `b` |
| Lines.NonEmptyElements | src/main.c:104 | dropping empty segments keeps only non-empty elements of the input |
| Lines.DrawnLinesShape | src/main.c:104 | every line drawn is non-empty and contains no `'\n'`, like every `strtok` token |
| Lines.BlankLineSkipped | src/main.c:104 | a repeated `'\n'` draws the same lines as a single one |
| Lines.DrawnLinesAt | src/main.c:104 | the lines drawn from `a + "\n" + b` are the non-empty segments of `a` followed by the lines of `b` |
| Lines.LinesLeadingNewline | src/main.c:104 | a leading `'\n'` draws nothing |
| Lines.LinesAt | src/main.c:104 | a non-empty newline-free run followed by `'\n'` is exactly one drawn line |
| Lines.UnterminatedTailIgnored | src/main.c:76-84 | the measured segments of `a + "\n" + t` are those of `a`: a final segment without `'\n'` never reaches the width |
| Lines.MeasureStep | src/main.c:77-83 | one more character adds one to the newline count for `'\n'`, otherwise lengthens the open segment; `'\n'` closes the open segment |
| Lines.MaxLenSnoc | src/main.c:79 | adding a segment raises the maximum to its length if it is longer |
| Lines.MeasureAt | src/main.c:76-83 | one iteration of the measurement loop updates the newline count, the maximum and the open segment's length as the loop body does |
| Lines.TotalHeight | src/main.c:72-78 | the block height is one `height >> 6` per `'\n'`-terminated segment, blank segments included |
| Lines.TotalWidth | src/main.c:73-85 | at a non-negative font size the block width is half of `max_line_len * font_size`, rounded down, and every terminated segment's `length * font_size` is at most `2*total_width + 1` |
| Lines.Measure | src/main.c:72-85 | the measurement loop returns `total_height` equal to `TotalHeight`, `max_line_len` equal to the longest `'\n'`-terminated segment, and `total_width` equal to `TotalWidth` |
| Lines.TokenTaken | src/main.c:142 | a returned token moves from the text left to the lines returned |
| Lines.NoTokenLeft | src/main.c:105 | when `strtok` returns NULL, the tokens returned are exactly the lines to draw |
| Lines.SkipNewlines | src/main.c:104 | skipping the run of `'\n'` at the cursor stops at a non-`'\n'` or the end and changes no line to draw |
| Lines.TokenEnd | src/main.c:104 | the token extends to the next `'\n'` or the end and contains no `'\n'` |
| Lines.NothingLeft | src/main.c:104-105 | at the end of the text no line is left, so `strtok` returns NULL |
| Lines.LastToken | src/main.c:104 | a token that runs to the end of the text is the last line drawn |
| Lines.NextToken | src/main.c:142 | one `strtok` call returns the first line left to draw and resumes past its delimiter, or returns nothing exactly when no line is left |
| Layout.CellIndex | src/main.c:119 | cell `(row, col)` of a `rows × width` bitmap is inside the coverage buffer |
| Layout.Advance | src/main.c:109-136 | a character whose glyph fails moves the pen by 0; a loaded glyph moves it by `advance.x >> 6`, the floor of the 26.6 advance over 64 |
| Layout.LineAdvance | src/main.c:106-137 | a line none of whose glyphs loads leaves the pen where it started |
| Layout.LinePlacements | src/main.c:106-137 | a line yields at most one glyph per character, all on the line's pen row, all well-formed when the font is |
| Layout.LinePlacementsSnoc | src/main.c:106-136 | one more character adds its glyph at the pen position after the earlier advances, or nothing if its glyph fails; the pen moves by its advance |
| Layout.LoadedCount | src/main.c:109-111 | a line yields exactly one glyph per character whose glyph loads |
| Layout.GlyphOfCharacter | src/main.c:106-136 | the character at `i` whose glyph loads is drawn at `x0` plus the advances of the characters before it |
| Layout.FailedGlyphSkipped | src/main.c:109-111 | a character whose glyph fails draws nothing and leaves the pen where it was |
| Layout.TwoGlyphs | src/main.c:136 | of two loaded characters, the second is drawn `advance.x >> 6` right of the first |
| Layout.LineYNext | src/main.c:140 | the next line's pen row is `font_size` lower |
| Layout.TextPlacements | src/main.c:101-142 | every glyph placed for the drawn lines has a well-formed bitmap when the font's glyphs do |
| Layout.TextPlacementsRows | src/main.c:139-141 | every glyph of the text sits on the pen row `y_start + k*font_size` of some drawn line `k` |
| Layout.LinesStackByFontSize | src/main.c:139-142 | the line drawn after `k` lines starts at `(x_start, y_start + k*font_size)`, after the glyphs of the first `k` lines |
| Layout.StartX | src/main.c:90 | `x_start` centres the block: its left and right margins differ by at most one pixel, the odd pixel going right when the block fits and left when it overflows |
| Layout.StartY | src/main.c:89 | `y_start` is the block's top plus `ascender >> 6`, and the block's top and bottom margins differ by at most one pixel |
| Compositor.Stamp | src/main.c:113-134 | drawing one glyph keeps the canvas size; which bytes it changes, and to what, is stated by `StampCell` and `StampUninked` |
| Compositor.Composite | src/main.c:105-143 | drawing a sequence of glyphs in order keeps the canvas size; its bytes are stated by `CompositeConcat`, `UntouchedPixel` and `CompositeBetween` |
| Compositor.StampUninked | src/main.c:120-124 | drawing a glyph leaves every byte of a pixel it does not ink unchanged |
| Compositor.CompositeConcat | src/main.c:105-143 | drawing two runs of glyphs one after the other equals drawing them all in order |
| Compositor.PixelOfByte | src/main.c:126 | byte `ch` of on-canvas pixel `(px, py)` is in the buffer, is channel `ch`, and belongs to that pixel |
| Compositor.CellLands | src/main.c:114-126 | bitmap cell `(row, col)` lands on pixel `(x + col, y - bitmap_top + 1 + row)`, and that pixel's cell is `(row, col)` again |
| Compositor.StampCell | src/main.c:114-131 | the pixel of an on-canvas cell gets, per channel, the blend of the text colour into its old value weighted by the cell's coverage |
| Compositor.UntouchedPixel | src/main.c:120-124 | a pixel no drawn glyph inks keeps its value through any number of glyphs |
| Compositor.CompositeBetween | src/main.c:129-131 | however many glyphs overlap, every channel stays between the text colour and its starting value |
| Compositor.BackgroundBetween | src/main.c:129-131 | drawn over the background, every channel lies between the background and text colours |
| Compositor.BlendPixel | src/main.c:129-131 | the three bytes of the pixel at `idx` are blended and no other byte changes |
| Compositor.DrawGlyph | src/main.c:113-134 | the cell-by-cell loops leave the buffer equal to `Stamp` of the old buffer; every index written is in range |
| Compositor.ScanWrites | src/main.c:126-131 | blending an on-canvas cell's pixel moves the scan one cell on |
| Compositor.ScanSkipsOffCanvas | src/main.c:123-124 | an off-canvas cell changes no byte of the buffer |
| Compositor.ScanSkipsBlank | src/main.c:119-120 | a zero-coverage cell changes nothing |
| Compositor.ScanNextRow | src/main.c:117-118 | the end of a bitmap row is the start of the next |
| Render.LaidOut | src/main.c:101-142 | the glyphs `render` draws, from the drawn lines and the centred start position, all have well-formed bitmaps when the font's glyphs do |
| Render.Image | src/main.c:56-143 | the image has `w*h*3` bytes |
| Render.DrawCharStep | src/main.c:106-136 | one character either stamps its glyph at the pen and advances it, or changes nothing |
| Render.DrawLineStep | src/main.c:106-136 | the same step, on the prefix of the line drawn so far |
| Render.DrawLine | src/main.c:106-137 | the character loop composites the line's glyphs in order and returns `x0` plus the line's advance |
| Render.DrawNextLine | src/main.c:105-141 | drawing the next line onto the lines already drawn gives the lines drawn so far plus that one |
| Render.DrawText | src/main.c:101-143 | the `strtok` loop composites exactly the glyphs of every drawn line, line `k` at `(x_start, y_start + k*font_size)` |
| Render.Render | src/main.c:31-143 | `render`'s buffer is new, has `w*h*3` bytes, and equals `Image` |
| Render.UninkedIsBackground | src/main.c:65-69 | every pixel no glyph inks keeps the exact background colour |
| Render.ImageBetweenColours | src/main.c:129-131 | every channel of every pixel lies between the background and text colours |
| Render.OneLinePenAtCentre | src/main.c:76-90 | a text without `'\n'` starts its pen at the canvas centre (plus the ascender) |
| Render.BlankHasNoLines | src/main.c:104 | a text of newlines only has no lines to draw |
| Render.BlankTextIsBackground | src/main.c:104-105 | a text of newlines only renders as the plain background |

## Left out

- FreeType (`src/main.c:36-53`, `107-109`, `113`): library set-up, font loading, pixel sizing and rasterisation are foreign calls. They are replaced by the `Font` oracle and the `SizeMetrics` parameters. The bitmap is read as the code reads it, row `r` at `r * width` (the `pitch` field is not consulted).
- `FT_Get_Char_Index`'s treatment of a signed `char` above 127 is part of the oracle.
- `stbi_write_png` (`src/main.c:146`): image encoding is an external library call.
- Allocation failure and cleanup (`src/main.c:57-62`, `93-99`, `149-152`): `malloc` and `strdup` are taken to succeed, and the release of handles has no behaviour to model. `Render` returns the buffer it would pass to the encoder.
- `strtok`'s writes of NUL into the copy of the text are not modelled. Only the scan is modelled (`Lines.NextToken`): the copy is never read again except through the tokens.
- The text is the contents of the C string, that is the characters before its NUL terminator.
- The index guard at `src/main.c:128` is not repeated in `Compositor.DrawGlyph`. `Pixels.IndexGuardRedundant` proves it can never fire after the guards at lines 123-124.
- `parse_options`, `get_text`, `main` and `print_help` (`src/main.c:157-288`) are not part of this model. They are option parsing, standard-input I/O and process plumbing.
- Render.Render: does not model 32-bit `int` overflow of `w*h*3`; integers are unbounded, and `w > 0 && h > 0` is required.
- Compositor.DrawGlyph: does not model the unsigned wrap-around in `y + rows - bitmap_top` and `rows - 1 - row`; the result is taken as the mathematical value, which is what the conversion back to `int` gives whenever it fits.
- Lines.Measure: does not model overflow of `total_height` or of `max_line_len * font_size`; integers are unbounded.
