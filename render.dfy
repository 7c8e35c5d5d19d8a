/** `render` itself: fill the canvas, measure the text, centre the block,
    then walk the lines with `strtok` and draw every glyph of every line.
    The font is an oracle (FreeType is not part of this model); writing the
    PNG file is left out. */
module Render {
  import opened CArith
  import opened Pixels
  import opened Lines
  import opened Layout
  import opened Compositor

  /** The options `render` uses (the font and output paths only name files). */
  datatype Options = Options(fontSize: int, width: int, height: int, bg: Color, txt: Color)

  /** `face->size->metrics` once the pixel size is set, in 26.6 fixed point. */
  datatype SizeMetrics = SizeMetrics(height: int, ascender: int)

  /** Every glyph `render` draws, in drawing order, with its pen position. */
  function LaidOut(text: seq<char>, opts: Options, m: SizeMetrics, font: Font): (ps: seq<Placement>)
    ensures FontValid(font) ==> AllValid(ps)
  {
    TextPlacements(DrawnLines(text), font,
                   StartX(opts.width, TotalWidth(text, opts.fontSize)),
                   StartY(opts.height, TotalHeight(text, m.height), m.ascender), opts.fontSize)
  }

  /** The image `render` hands to the PNG writer. */
  function Image(text: seq<char>, opts: Options, m: SizeMetrics, font: Font): (img: seq<Byte>)
    requires opts.width > 0 && opts.height > 0 && FontValid(font)
    ensures |img| == opts.width * opts.height * 3
  {
    Composite(Background(opts.width * opts.height, opts.bg), opts.width, opts.txt, LaidOut(text, opts, m, font))
  }

  lemma CompositeSnoc(c: seq<Byte>, w: int, txt: Color, ps: seq<Placement>, p: Placement)
    requires w > 0 && AllValid(ps) && p.glyph.Valid()
    ensures AllValid(ps + [p])
    ensures Composite(c, w, txt, ps + [p]) == Stamp(Composite(c, w, txt, ps), w, txt, p)
  {
    assert (ps + [p])[..|ps|] == ps;
  }

  /** One step of the character loop, on the prefixes it has drawn. */
  lemma DrawCharStep(c0: seq<Byte>, w: int, txt: Color, pre: seq<char>, c: char, font: Font, x0: int, y: int)
    requires w > 0 && FontValid(font)
    ensures LineAdvance(pre + [c], font) == LineAdvance(pre, font) + Advance(font, c)
    ensures font(c).None? ==>
      Composite(c0, w, txt, LinePlacements(pre + [c], font, x0, y)) ==
      Composite(c0, w, txt, LinePlacements(pre, font, x0, y))
    ensures font(c).Some? ==>
      Composite(c0, w, txt, LinePlacements(pre + [c], font, x0, y)) ==
      Stamp(Composite(c0, w, txt, LinePlacements(pre, font, x0, y)), w, txt,
            Placement(font(c).value, x0 + LineAdvance(pre, font), y))
  {
    LinePlacementsSnoc(pre, c, font, x0, y);
    if font(c).Some? {
      CompositeSnoc(c0, w, txt, LinePlacements(pre, font, x0, y), Placement(font(c).value, x0 + LineAdvance(pre, font), y));
    }
  }

  lemma DrawLineStep(c0: seq<Byte>, w: int, txt: Color, line: seq<char>, font: Font, x0: int, y: int, i: int)
    requires w > 0 && FontValid(font) && 0 <= i < |line|
    ensures LineAdvance(line[..i + 1], font) == LineAdvance(line[..i], font) + Advance(font, line[i])
    ensures font(line[i]).None? ==>
      Composite(c0, w, txt, LinePlacements(line[..i + 1], font, x0, y)) ==
      Composite(c0, w, txt, LinePlacements(line[..i], font, x0, y))
    ensures font(line[i]).Some? ==>
      Composite(c0, w, txt, LinePlacements(line[..i + 1], font, x0, y)) ==
      Stamp(Composite(c0, w, txt, LinePlacements(line[..i], font, x0, y)), w, txt,
            Placement(font(line[i]).value, x0 + LineAdvance(line[..i], font), y))
  {
    assert line[..i + 1] == line[..i] + [line[i]];
    DrawCharStep(c0, w, txt, line[..i], line[i], font, x0, y);
  }

  /** The character loop of one line: the glyph of each character is drawn
      with the pen at `x`, which then moves by the glyph's advance; a
      character whose glyph fails to load is skipped and does not move the
      pen. Returns the pen's final `x`. */
  method DrawLine(buf: array<Byte>, w: int, h: int, txt: Color, line: seq<char>, font: Font, x0: int, y: int)
    returns (x: int)
    requires w > 0 && h > 0 && buf.Length == w * h * 3 && FontValid(font)
    modifies buf
    ensures x == x0 + LineAdvance(line, font)
    ensures buf[..] == Composite(old(buf[..]), w, txt, LinePlacements(line, font, x0, y))
  {
    ghost var c0 := buf[..];
    x := x0;
    for i := 0 to |line|
      invariant x == x0 + LineAdvance(line[..i], font)
      invariant buf[..] == Composite(c0, w, txt, LinePlacements(line[..i], font, x0, y))
    {
      DrawLineStep(c0, w, txt, line, font, x0, y, i);
      var glyph := font(line[i]);
      if glyph.Some? {
        DrawGlyph(buf, w, h, txt, glyph.value, x, y);
        x := x + Shr6(glyph.value.advanceX);
      }
    }
    assert line[..|line|] == line;
  }

  /** One pass of the line loop: with the lines `drawn` already drawn over
      `c0`, drawing `line` with the pen starting at `xStart` on row
      `LineY(yStart, |drawn|, fontSize)` leaves `drawn + [line]` drawn. */
  method DrawNextLine(buf: array<Byte>, w: int, h: int, txt: Color, ghost c0: seq<Byte>,
                      ghost drawn: seq<seq<char>>, line: seq<char>, font: Font,
                      xStart: int, yStart: int, fontSize: int, y: int)
    returns (x: int)
    requires w > 0 && h > 0 && buf.Length == w * h * 3 && FontValid(font)
    requires y == LineY(yStart, |drawn|, fontSize)
    requires buf[..] == Composite(c0, w, txt, TextPlacements(drawn, font, xStart, yStart, fontSize))
    modifies buf
    ensures x == xStart + LineAdvance(line, font)
    ensures buf[..] == Composite(c0, w, txt, TextPlacements(drawn + [line], font, xStart, yStart, fontSize))
  {
    LinesStackByFontSize(drawn, line, font, xStart, yStart, fontSize);
    CompositeConcat(c0, w, txt, TextPlacements(drawn, font, xStart, yStart, fontSize),
                    LinePlacements(line, font, xStart, y));
    x := DrawLine(buf, w, h, txt, line, font, xStart, y);
  }

  /** The `strtok` loop: each non-empty line is drawn with the pen starting
      at `xStart`, and `y` moves down by the font size after each line. */
  method DrawText(buf: array<Byte>, w: int, h: int, txt: Color, text: seq<char>, font: Font,
                  xStart: int, yStart: int, fontSize: int)
    requires w > 0 && h > 0 && buf.Length == w * h * 3 && FontValid(font)
    modifies buf
    ensures buf[..] == Composite(old(buf[..]), w, txt, TextPlacements(DrawnLines(text), font, xStart, yStart, fontSize))
  {
    ghost var c0 := buf[..];
    ghost var drawn: seq<seq<char>> := [];
    var y, x := yStart, xStart;
    var pos := 0;
    var found, start, end, next := NextToken(text, pos);
    assert text[0..] == text;
    while found
      invariant Remaining(text, pos, drawn)
      invariant Token(text, pos, found, start, end, next)
      invariant y == LineY(yStart, |drawn|, fontSize)
      invariant x == xStart
      invariant buf[..] == Composite(c0, w, txt, TextPlacements(drawn, font, xStart, yStart, fontSize))
      decreases |text| - pos
    {
      var line := text[start..end];
      x := DrawNextLine(buf, w, h, txt, c0, drawn, line, font, x, yStart, fontSize, y);
      LineYNext(yStart, |drawn|, fontSize);
      y := y + fontSize;
      x := xStart;
      TokenTaken(text, pos, drawn, start, end, next);
      drawn := drawn + [line];
      pos := next;
      found, start, end, next := NextToken(text, pos);
    }
    NoTokenLeft(text, pos, drawn, start, end, next);
  }

  /** `render`, from the background fill to the end of the line loop: the
      buffer it leaves is exactly Image. */
  method Render(text: seq<char>, opts: Options, m: SizeMetrics, font: Font) returns (buf: array<Byte>)
    requires opts.width > 0 && opts.height > 0 && FontValid(font)
    ensures fresh(buf)
    ensures buf.Length == opts.width * opts.height * 3
    ensures buf[..] == Image(text, opts, m, font)
  {
    var w, h := opts.width, opts.height;
    buf := new Byte[w * h * 3];
    Fill(buf, w * h, opts.bg);

    var totalHeight, totalWidth, maxLineLen := Measure(text, m.height, opts.fontSize);
    var yStart := TruncDiv(h - totalHeight, 2) + Shr6(m.ascender);
    var xStart := TruncDiv(w - totalWidth, 2);
    assert xStart == StartX(w, TotalWidth(text, opts.fontSize));
    assert yStart == StartY(h, TotalHeight(text, m.height), m.ascender);

    DrawText(buf, w, h, opts.txt, text, font, xStart, yStart, opts.fontSize);
  }

  /** Every pixel no glyph inks keeps the background colour exactly. */
  lemma UninkedIsBackground(text: seq<char>, opts: Options, m: SizeMetrics, font: Font, px: int, py: int, ch: int)
    requires opts.width > 0 && opts.height > 0 && FontValid(font)
    requires 0 <= px < opts.width && 0 <= py < opts.height && 0 <= ch < 3
    requires Uninked(LaidOut(text, opts, m, font), px, py)
    ensures 0 <= ByteIndex(py * opts.width + px, ch) < opts.width * opts.height * 3
    ensures Image(text, opts, m, font)[ByteIndex(py * opts.width + px, ch)] == opts.bg.At(ch)
  {
    var w := opts.width;
    PixelOfByte(w, opts.height, px, py, ch);
    UntouchedPixel(Background(w * opts.height, opts.bg), w, opts.txt, LaidOut(text, opts, m, font), ByteIndex(py * w + px, ch));
  }

  /** Every channel of every pixel of the image lies between the background
      and text colours' values for that channel. */
  lemma ImageBetweenColours(text: seq<char>, opts: Options, m: SizeMetrics, font: Font, p: int, ch: int)
    requires opts.width > 0 && opts.height > 0 && FontValid(font)
    requires 0 <= p < opts.width * opts.height && 0 <= ch < 3
    ensures Min(opts.txt.At(ch), opts.bg.At(ch)) <= Image(text, opts, m, font)[ByteIndex(p, ch)]
    ensures Image(text, opts, m, font)[ByteIndex(p, ch)] <= Max(opts.txt.At(ch), opts.bg.At(ch))
  {
    BackgroundBetween(opts.width * opts.height, opts.bg, opts.width, opts.txt, LaidOut(text, opts, m, font), p, ch);
  }

  /** A text with no '\n' measures as 0 × 0, so its first glyph's pen starts
      at the canvas centre rather than half the text's width to the left. */
  lemma OneLinePenAtCentre(text: seq<char>, opts: Options, m: SizeMetrics)
    requires '\n' !in text
    ensures StartX(opts.width, TotalWidth(text, opts.fontSize)) == TruncDiv(opts.width, 2)
    ensures StartY(opts.height, TotalHeight(text, m.height), m.ascender) == TruncDiv(opts.height, 2) + Shr6(m.ascender)
  {
    UnterminatedTailIgnored([], text);
    assert multiset(text)['\n'] == 0;
  }

  /** A text made only of newlines draws nothing: the image is the background. */
  lemma BlankTextIsBackground(n: nat, opts: Options, m: SizeMetrics, font: Font)
    requires opts.width > 0 && opts.height > 0 && FontValid(font)
    ensures Image(seq(n, _ => '\n'), opts, m, font) == Background(opts.width * opts.height, opts.bg)
  {
    var text := seq(n, _ => '\n');
    BlankHasNoLines(n);
    assert LaidOut(text, opts, m, font) == [];
  }

  lemma {:induction false} BlankHasNoLines(n: nat)
    ensures DrawnLines(seq(n, _ => '\n')) == []
  {
    if n == 0 {
    } else {
      assert seq(n, _ => '\n') == ['\n'] + seq(n - 1, _ => '\n');
      LinesLeadingNewline(seq(n - 1, _ => '\n'));
      BlankHasNoLines(n - 1);
    }
  }
}
