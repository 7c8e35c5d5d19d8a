/** Where `render` puts things: the glyphs the font hands back, the start
    position of the (centred) text block, and the pen position of every
    glyph drawn, line by line. */
module Layout {
  import opened CArith
  import opened Pixels
  import opened Lines

  datatype Option<T> = None | Some(value: T)

  /** One glyph as FreeType returns it after `FT_Load_Glyph(…, FT_LOAD_RENDER)`:
      a `rows` × `width` coverage bitmap stored row by row (pitch = width),
      the distance `bitmapTop` from the baseline up to the bitmap's top row,
      and the horizontal advance in 26.6 fixed point. */
  datatype Glyph = Glyph(rows: nat, width: nat, bitmapTop: int, advanceX: int, coverage: seq<Byte>)
  {
    predicate Valid() { |coverage| == rows * width }

    /** `bitmap->buffer[row * bitmap->width + col]`. */
    function Cov(row: int, col: int): Byte
      requires Valid() && 0 <= row < rows && 0 <= col < width
    {
      CellIndex(rows, width, row, col);
      coverage[row * width + col]
    }
  }

  lemma CellIndex(rows: int, width: int, row: int, col: int)
    requires 0 <= row < rows && 0 <= col < width
    ensures 0 <= row * width + col < rows * width
  {
    MulLeft(row, rows - 1, width);
    assert (rows - 1) * width + width == rows * width;
  }

  /** The font, seen from `render`: looking up and rendering the glyph of a
      character either fails (`FT_Load_Glyph` returned an error) or yields
      a glyph. */
  type Font = char -> Option<Glyph>

  ghost predicate FontValid(font: Font)
  {
    forall c :: font(c).Some? ==> font(c).value.Valid()
  }

  /** `face->glyph->advance.x >> 6` for a glyph that loads; nothing for one
      that does not, since the loop `continue`s before the advance. */
  function Advance(font: Font, c: char): (r: int)
    ensures font(c).None? ==> r == 0
    ensures font(c).Some? ==> 64 * r <= font(c).value.advanceX < 64 * r + 64
  {
    match font(c)
    case None => 0
    case Some(g) => Shr6(g.advanceX)
  }

  /** How far the pen moves across `line`: a line none of whose glyphs
      loads leaves the pen where it was. */
  function LineAdvance(line: seq<char>, font: Font): (r: int)
    ensures Loaded(line, font) == 0 ==> r == 0
    decreases |line|
  {
    if line == [] then 0 else LineAdvance(line[..|line| - 1], font) + Advance(font, line[|line| - 1])
  }

  /** A glyph drawn with its pen at `(x, y)`. */
  datatype Placement = Placement(glyph: Glyph, x: int, y: int)

  predicate AllValid(ps: seq<Placement>)
  {
    forall j :: 0 <= j < |ps| ==> ps[j].glyph.Valid()
  }

  /** The glyphs of one line, left to right, with the pen starting at
      `(x0, y)`: each loaded glyph is drawn where the pen is, then the pen
      moves by its advance; a character whose glyph fails is skipped. */
  function LinePlacements(line: seq<char>, font: Font, x0: int, y: int): (ps: seq<Placement>)
    ensures |ps| <= |line|
    ensures forall k :: 0 <= k < |ps| ==> ps[k].y == y
    ensures FontValid(font) ==> AllValid(ps)
    decreases |line|
  {
    if line == [] then []
    else
      var init, c := line[..|line| - 1], line[|line| - 1];
      var pre := LinePlacements(init, font, x0, y);
      match font(c)
      case None => pre
      case Some(g) => pre + [Placement(g, x0 + LineAdvance(init, font), y)]
  }

  /** The pen's y for the `k`-th drawn line: each line is `fontSize` below
      the previous one. */
  function LineY(y0: int, k: int, fontSize: int): int { y0 + k * fontSize }

  lemma LineYNext(y0: int, k: int, fontSize: int)
    ensures LineY(y0, k + 1, fontSize) == LineY(y0, k, fontSize) + fontSize
  {
    assert (k + 1) * fontSize == k * fontSize + fontSize;
  }

  /** The glyphs of all drawn lines, top to bottom; line `k` starts at
      `(x0, LineY(y0, k, fontSize))`. */
  function TextPlacements(lines: seq<seq<char>>, font: Font, x0: int, y0: int, fontSize: int): (ps: seq<Placement>)
    ensures FontValid(font) ==> AllValid(ps)
    decreases |lines|
  {
    if lines == [] then []
    else
      var k := |lines| - 1;
      TextPlacements(lines[..k], font, x0, y0, fontSize) + LinePlacements(lines[k], font, x0, LineY(y0, k, fontSize))
  }

  /** Every glyph of the text sits on the pen row of one of the lines. */
  lemma {:induction false} TextPlacementsRows(lines: seq<seq<char>>, font: Font, x0: int, y0: int, fontSize: int, j: int)
    requires 0 <= j < |TextPlacements(lines, font, x0, y0, fontSize)|
    ensures exists k :: 0 <= k < |lines| && TextPlacements(lines, font, x0, y0, fontSize)[j].y == LineY(y0, k, fontSize)
    decreases |lines|
  {
    var k := |lines| - 1;
    var pre := TextPlacements(lines[..k], font, x0, y0, fontSize);
    if j < |pre| {
      TextPlacementsRows(lines[..k], font, x0, y0, fontSize, j);
      var k' :| 0 <= k' < k && pre[j].y == LineY(y0, k', fontSize);
      assert TextPlacements(lines, font, x0, y0, fontSize)[j] == pre[j];
    } else {
      assert TextPlacements(lines, font, x0, y0, fontSize)[j].y == LineY(y0, k, fontSize);
    }
  }

  /** `x_start = (w - total_width) / 2`, with C's division. Centring: the
      margins left and right of a block `totalWidth` wide starting at `r`
      differ by at most one pixel; the odd pixel goes to the right when the
      block fits and to the left when it overflows. */
  function StartX(w: int, totalWidth: int): (r: int)
    ensures var right := w - totalWidth - r;
      (w >= totalWidth ==> 0 <= right - r <= 1) && (w < totalWidth ==> 0 <= r - right <= 1)
  {
    TruncDiv(w - totalWidth, 2)
  }

  /** `y_start = (h - total_height) / 2 + (ascender >> 6)`, with C's division.
      The pen's baseline sits the ascender below the block's top, and the
      block's top and bottom margins differ by at most one pixel. */
  function StartY(h: int, totalHeight: int, ascender: int): (r: int)
    ensures var top := r - Shr6(ascender);
      var bottom := h - totalHeight - top;
      (h >= totalHeight ==> 0 <= bottom - top <= 1) && (h < totalHeight ==> 0 <= top - bottom <= 1)
  {
    TruncDiv(h - totalHeight, 2) + Shr6(ascender)
  }

  lemma LinePlacementsSnoc(line: seq<char>, c: char, font: Font, x0: int, y: int)
    ensures LinePlacements(line + [c], font, x0, y) ==
      match font(c)
      case None => LinePlacements(line, font, x0, y)
      case Some(g) => LinePlacements(line, font, x0, y) + [Placement(g, x0 + LineAdvance(line, font), y)]
    ensures LineAdvance(line + [c], font) == LineAdvance(line, font) + Advance(font, c)
  {
    assert (line + [c])[..|line|] == line;
  }

  /** The number of characters of `line` whose glyph loads. */
  function Loaded(line: seq<char>, font: Font): nat
    decreases |line|
  {
    if line == [] then 0
    else Loaded(line[..|line| - 1], font) + (if font(line[|line| - 1]).Some? then 1 else 0)
  }

  /** Every character whose glyph loads is drawn, in order, with the pen at
      the start plus the advances of the characters before it: the character
      at `i` is the `Loaded(line[..i])`-th glyph of the line. */
  lemma {:induction false} GlyphOfCharacter(line: seq<char>, font: Font, x0: int, y: int, i: int)
    requires 0 <= i < |line| && font(line[i]).Some?
    ensures var ps := LinePlacements(line, font, x0, y);
      Loaded(line[..i], font) < |ps| &&
      ps[Loaded(line[..i], font)] == Placement(font(line[i]).value, x0 + LineAdvance(line[..i], font), y)
    decreases |line|
  {
    var init, c := line[..|line| - 1], line[|line| - 1];
    assert line == init + [c];
    LinePlacementsSnoc(init, c, font, x0, y);
    LoadedCount(init, font, x0, y);
    if i == |line| - 1 {
      assert line[..i] == init;
    } else {
      assert init[i] == line[i] && init[..i] == line[..i];
      GlyphOfCharacter(init, font, x0, y, i);
    }
  }

  /** One placement per character whose glyph loads. */
  lemma {:induction false} LoadedCount(line: seq<char>, font: Font, x0: int, y: int)
    ensures |LinePlacements(line, font, x0, y)| == Loaded(line, font)
    decreases |line|
  {
    if line != [] {
      LoadedCount(line[..|line| - 1], font, x0, y);
    }
  }

  /** A character whose glyph fails draws nothing and leaves the pen where
      it was; the next glyph is drawn exactly there. */
  lemma FailedGlyphSkipped(line: seq<char>, c: char, font: Font, x0: int, y: int)
    requires font(c).None?
    ensures LinePlacements(line + [c], font, x0, y) == LinePlacements(line, font, x0, y)
    ensures LineAdvance(line + [c], font) == LineAdvance(line, font)
  {
    LinePlacementsSnoc(line, c, font, x0, y);
  }

  /** Two characters that both load: the second is drawn one advance
      (`advance.x >> 6`) to the right of the first. */
  lemma TwoGlyphs(a: char, b: char, font: Font, x0: int, y: int)
    requires font(a).Some? && font(b).Some?
    ensures LinePlacements([a, b], font, x0, y) ==
      [Placement(font(a).value, x0, y), Placement(font(b).value, x0 + Shr6(font(a).value.advanceX), y)]
  {
    LinePlacementsSnoc([], a, font, x0, y);
    assert [a, b] == [a] + [b];
    LinePlacementsSnoc([a], b, font, x0, y);
  }

  /** A line drawn after `lines` is laid out with its pen on row
      `y0 + |lines| * fontSize`, after the glyphs of `lines`. */
  lemma LinesStackByFontSize(lines: seq<seq<char>>, line: seq<char>, font: Font, x0: int, y0: int, fontSize: int)
    ensures TextPlacements(lines + [line], font, x0, y0, fontSize) ==
      TextPlacements(lines, font, x0, y0, fontSize) + LinePlacements(line, font, x0, LineY(y0, |lines|, fontSize))
  {
    assert (lines + [line])[..|lines|] == lines;
  }
}
