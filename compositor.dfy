/** Drawing glyphs onto the canvas. A placed glyph's bitmap cell
    `(row, col)` lands on canvas pixel `(x + col, y - bitmapTop + 1 + row)`;
    cells with zero coverage and cells off the canvas are skipped, every
    other cell blends the text colour into its pixel. */
module Compositor {
  import opened Pixels
  import opened Layout

  /** Column and row of the pixel that byte `i` of a `w`-wide canvas
      belongs to, and its channel. */
  function PixelX(i: int, w: int): int requires w > 0 { (i / 3) % w }
  function PixelY(i: int, w: int): int requires w > 0 { (i / 3) / w }

  /** The bitmap cell of placement `pl` that covers canvas pixel `(px, py)`,
      if any: the inverse of the cell-to-pixel mapping. */
  function CellRow(pl: Placement, py: int): int { py - (pl.y - pl.glyph.bitmapTop + 1) }
  function CellCol(pl: Placement, px: int): int { px - pl.x }

  predicate OnBitmap(pl: Placement, px: int, py: int)
  {
    0 <= CellRow(pl, py) < pl.glyph.rows && 0 <= CellCol(pl, px) < pl.glyph.width
  }

  /** Cell `(row, col)` comes before the cursor `(rDone, cDone)` of the
      row-by-row, column-by-column scan. */
  predicate Before(row: int, col: int, rDone: int, cDone: int)
  {
    row < rDone || (row == rDone && col < cDone)
  }

  /** The coverage `pl` puts on pixel `(px, py)`, counting only the cells
      the scan has reached; 0 where no such cell covers the pixel. */
  function InkUpTo(pl: Placement, px: int, py: int, rDone: int, cDone: int): Byte
    requires pl.glyph.Valid()
  {
    if OnBitmap(pl, px, py) && Before(CellRow(pl, py), CellCol(pl, px), rDone, cDone)
    then pl.glyph.Cov(CellRow(pl, py), CellCol(pl, px))
    else 0
  }

  /** The coverage `pl` puts on pixel `(px, py)`. */
  function Ink(pl: Placement, px: int, py: int): Byte
    requires pl.glyph.Valid()
  {
    InkUpTo(pl, px, py, pl.glyph.rows, 0)
  }

  /** Byte `i` of canvas `c` once the scan of `pl` has reached `(rDone, cDone)`:
      a covered pixel holds the blend of the text colour into its old value,
      any other byte is unchanged. */
  function StampedByte(c: seq<Byte>, w: int, txt: Color, pl: Placement, i: int, rDone: int, cDone: int): Byte
    requires w > 0 && 0 <= i < |c| && pl.glyph.Valid()
  {
    var k := InkUpTo(pl, PixelX(i, w), PixelY(i, w), rDone, cDone);
    if k != 0 then Blend(txt.At(i % 3), c[i], k) else c[i]
  }

  /** Canvas `c` once the scan of `pl` has reached `(rDone, cDone)`. */
  function Scanned(c: seq<Byte>, w: int, txt: Color, pl: Placement, rDone: int, cDone: int): (r: seq<Byte>)
    requires w > 0 && pl.glyph.Valid()
    ensures |r| == |c|
  {
    seq(|c|, i requires 0 <= i < |c| => StampedByte(c, w, txt, pl, i, rDone, cDone))
  }

  /** The canvas after drawing one placed glyph. */
  function Stamp(c: seq<Byte>, w: int, txt: Color, pl: Placement): (r: seq<Byte>)
    requires w > 0 && pl.glyph.Valid()
    ensures |r| == |c|
  {
    Scanned(c, w, txt, pl, pl.glyph.rows, 0)
  }

  /** A byte whose pixel the glyph does not ink is left as it was. */
  lemma StampUninked(c: seq<Byte>, w: int, txt: Color, pl: Placement, i: int)
    requires w > 0 && pl.glyph.Valid() && 0 <= i < |c|
    requires Ink(pl, PixelX(i, w), PixelY(i, w)) == 0
    ensures Stamp(c, w, txt, pl)[i] == c[i]
  {
  }

  /** The canvas after drawing the placed glyphs in order; a later glyph
      blends over what an earlier one left. */
  function Composite(c: seq<Byte>, w: int, txt: Color, ps: seq<Placement>): (r: seq<Byte>)
    requires w > 0 && AllValid(ps)
    ensures |r| == |c|
    decreases |ps|
  {
    if ps == [] then c
    else Stamp(Composite(c, w, txt, ps[..|ps| - 1]), w, txt, ps[|ps| - 1])
  }

  lemma {:induction false} CompositeConcat(c: seq<Byte>, w: int, txt: Color, ps: seq<Placement>, qs: seq<Placement>)
    requires w > 0 && AllValid(ps) && AllValid(qs)
    ensures AllValid(ps + qs)
    ensures Composite(c, w, txt, ps + qs) == Composite(Composite(c, w, txt, ps), w, txt, qs)
    decreases |qs|
  {
    if qs == [] {
      assert ps + qs == ps;
    } else {
      var qs', q := qs[..|qs| - 1], qs[|qs| - 1];
      CompositeConcat(c, w, txt, ps, qs');
      assert (ps + qs)[..|ps + qs| - 1] == ps + qs';
    }
  }

  /** Byte `ch` of pixel `(px, py)` lies in the buffer and belongs to that pixel. */
  lemma PixelOfByte(w: int, h: int, px: int, py: int, ch: int)
    requires w > 0 && 0 <= px < w && 0 <= py < h && 0 <= ch < 3
    ensures var i := ByteIndex(py * w + px, ch);
      0 <= i < w * h * 3 && i % 3 == ch && PixelX(i, w) == px && PixelY(i, w) == py
  {
    PixelNumbering(w, h, px, py);
    IndexGuardRedundant(w, h, px, py);
    var p := py * w + px;
    assert ByteIndex(p, ch) / 3 == p;
  }

  /** Where a cell lands: with `px = x + col` and `py = y - bitmapTop + 1 + row`
      on the canvas, the three bytes of pixel `(px, py)` are those of the
      cell, whose coverage they take on. */
  lemma CellLands(w: int, h: int, pl: Placement, row: int, col: int, ch: int)
    requires w > 0 && pl.glyph.Valid()
    requires 0 <= row < pl.glyph.rows && 0 <= col < pl.glyph.width && 0 <= ch < 3
    requires 0 <= pl.x + col < w && 0 <= pl.y - pl.glyph.bitmapTop + 1 + row < h
    ensures var i := ByteIndex((pl.y - pl.glyph.bitmapTop + 1 + row) * w + pl.x + col, ch);
      i / 3 < w * h && i % 3 == ch &&
      PixelX(i, w) == pl.x + col && PixelY(i, w) == pl.y - pl.glyph.bitmapTop + 1 + row &&
      CellRow(pl, PixelY(i, w)) == row && CellCol(pl, PixelX(i, w)) == col
  {
    var px, py := pl.x + col, pl.y - pl.glyph.bitmapTop + 1 + row;
    PixelNumbering(w, h, px, py);
    var p := py * w + px;
    assert ByteIndex(p, ch) / 3 == p;
  }

  /** Drawing one glyph: bitmap row `row` lands on canvas row
      `y - bitmapTop + 1 + row` and column `col` on canvas column `x + col`;
      each channel of that pixel becomes the blend of the text colour into
      its old value, weighted by the cell's coverage. */
  lemma StampCell(c: seq<Byte>, w: int, h: int, txt: Color, pl: Placement, row: int, col: int, ch: int)
    requires w > 0 && |c| == w * h * 3 && pl.glyph.Valid()
    requires 0 <= row < pl.glyph.rows && 0 <= col < pl.glyph.width && 0 <= ch < 3
    requires 0 <= pl.x + col < w && 0 <= pl.y - pl.glyph.bitmapTop + 1 + row < h
    ensures var i := ((pl.y - pl.glyph.bitmapTop + 1 + row) * w + pl.x + col) * 3 + ch;
      0 <= i < |c| && Stamp(c, w, txt, pl)[i] == Blend(txt.At(ch), c[i], pl.glyph.Cov(row, col))
  {
    var px, py := pl.x + col, pl.y - pl.glyph.bitmapTop + 1 + row;
    IndexGuardRedundant(w, h, px, py);
    CellLands(w, h, pl, row, col, ch);
    assert ByteIndex(py * w + px, ch) == (py * w + px) * 3 + ch;
  }

  /** No glyph of `ps` puts coverage on pixel `(px, py)`. */
  predicate Uninked(ps: seq<Placement>, px: int, py: int)
    requires AllValid(ps)
  {
    forall j :: 0 <= j < |ps| ==> Ink(ps[j], px, py) == 0
  }

  /** A pixel that no drawn glyph inks keeps the value it had. */
  lemma {:induction false} UntouchedPixel(c: seq<Byte>, w: int, txt: Color, ps: seq<Placement>, i: int)
    requires w > 0 && AllValid(ps) && 0 <= i < |c|
    requires Uninked(ps, PixelX(i, w), PixelY(i, w))
    ensures Composite(c, w, txt, ps)[i] == c[i]
    decreases |ps|
  {
    if ps != [] {
      UntouchedPixel(c, w, txt, ps[..|ps| - 1], i);
      StampUninked(Composite(c, w, txt, ps[..|ps| - 1]), w, txt, ps[|ps| - 1], i);
    }
  }

  /** However many glyphs overlap on a pixel, each channel stays between
      the text colour's and its starting value. */
  lemma {:induction false} CompositeBetween(c: seq<Byte>, w: int, txt: Color, ps: seq<Placement>, i: int)
    requires w > 0 && AllValid(ps) && 0 <= i < |c|
    ensures Min(txt.At(i % 3), c[i]) <= Composite(c, w, txt, ps)[i] <= Max(txt.At(i % 3), c[i])
    decreases |ps|
  {
    if ps != [] {
      CompositeBetween(c, w, txt, ps[..|ps| - 1], i);
    }
  }

  /** Drawn onto a background, every channel of every pixel lies between
      the background's and the text colour's values for that channel. */
  lemma BackgroundBetween(pixels: nat, bg: Color, w: int, txt: Color, ps: seq<Placement>, p: int, ch: int)
    requires w > 0 && AllValid(ps) && 0 <= p < pixels && 0 <= ch < 3
    ensures var r := Composite(Background(pixels, bg), w, txt, ps)[ByteIndex(p, ch)];
      Min(txt.At(ch), bg.At(ch)) <= r <= Max(txt.At(ch), bg.At(ch))
  {
    var i := ByteIndex(p, ch);
    assert i % 3 == ch;
    CompositeBetween(Background(pixels, bg), w, txt, ps, i);
  }

  /** Blends the text colour, weighted by `cov`, into the three bytes of
      the pixel that starts at byte `idx`; no other byte changes. */
  method BlendPixel(buf: array<Byte>, idx: int, txt: Color, cov: Byte)
    requires 0 <= idx && idx + 2 < buf.Length
    modifies buf
    ensures buf[..] == old(buf[..])[idx := Blend(txt.r, old(buf[idx]), cov)]
                                   [idx + 1 := Blend(txt.g, old(buf[idx + 1]), cov)]
                                   [idx + 2 := Blend(txt.b, old(buf[idx + 2]), cov)]
  {
    buf[idx + 0] := Blend(txt.r, buf[idx + 0], cov);
    buf[idx + 1] := Blend(txt.g, buf[idx + 1], cov);
    buf[idx + 2] := Blend(txt.b, buf[idx + 2], cov);
  }

  /** Drawing one glyph, cell by cell, as the compositor's inner loops do:
      the pixel of every cell with non-zero coverage that lies on the canvas
      is blended; no other byte changes, and no index leaves the buffer. */
  method DrawGlyph(buf: array<Byte>, w: int, h: int, txt: Color, g: Glyph, x: int, y: int)
    requires w > 0 && h > 0 && buf.Length == w * h * 3 && g.Valid()
    modifies buf
    ensures buf[..] == Stamp(old(buf[..]), w, txt, Placement(g, x, y))
  {
    ghost var c0 := buf[..];
    ghost var pl := Placement(g, x, y);
    var baseline := y + g.rows - g.bitmapTop;
    var row := 0;
    while row < g.rows
      invariant 0 <= row <= g.rows
      invariant buf[..] == Scanned(c0, w, txt, pl, row, 0)
    {
      var col := 0;
      while col < g.width
        invariant 0 <= col <= g.width
        invariant buf[..] == Scanned(c0, w, txt, pl, row, col)
      {
        CellIndex(g.rows, g.width, row, col);
        var cov := g.coverage[row * g.width + col];
        if cov != 0 {
          var px := x + col;
          var py := baseline - (g.rows - 1 - row);
          if 0 <= px < w && 0 <= py < h {
            var idx := (py * w + px) * 3;
            IndexGuardRedundant(w, h, px, py);
            ghost var before := buf[..];
            BlendPixel(buf, idx, txt, cov);
            ScanWrites(c0, w, h, txt, pl, row, col, before, idx);
          } else {
            ScanSkipsOffCanvas(c0, w, h, txt, pl, row, col);
          }
        } else {
          ScanSkipsBlank(c0, w, txt, pl, row, col);
        }
        col := col + 1;
      }
      ScanNextRow(c0, w, txt, pl, row);
      row := row + 1;
    }
  }

  /** Moving the scan past a cell that lies on the canvas: the three bytes
      of its pixel are blended, nothing else changes. */
  lemma ScanWrites(c0: seq<Byte>, w: int, h: int, txt: Color, pl: Placement, row: int, col: int,
                   before: seq<Byte>, idx: int)
    requires w > 0 && |c0| == w * h * 3 && pl.glyph.Valid() && |before| == |c0|
    requires 0 <= row < pl.glyph.rows && 0 <= col < pl.glyph.width && pl.glyph.Cov(row, col) != 0
    requires 0 <= pl.x + col < w && 0 <= pl.y - pl.glyph.bitmapTop + 1 + row < h
    requires idx == ((pl.y - pl.glyph.bitmapTop + 1 + row) * w + pl.x + col) * 3
    requires 0 <= idx && idx + 2 < |c0|
    requires before == Scanned(c0, w, txt, pl, row, col)
    ensures var cov := pl.glyph.Cov(row, col);
      before[idx := Blend(txt.r, before[idx], cov)]
            [idx + 1 := Blend(txt.g, before[idx + 1], cov)]
            [idx + 2 := Blend(txt.b, before[idx + 2], cov)] == Scanned(c0, w, txt, pl, row, col + 1)
  {
    var cov := pl.glyph.Cov(row, col);
    var after := before[idx := Blend(txt.r, before[idx], cov)]
                       [idx + 1 := Blend(txt.g, before[idx + 1], cov)]
                       [idx + 2 := Blend(txt.b, before[idx + 2], cov)];
    var next := Scanned(c0, w, txt, pl, row, col + 1);
    forall i | 0 <= i < |c0|
      ensures after[i] == next[i]
    {
      assert before[i] == StampedByte(c0, w, txt, pl, i, row, col);
      if idx <= i <= idx + 2 {
        ScanWritesCell(c0, w, h, txt, pl, row, col, idx, i);
        assert after[i] == Blend(txt.At(i - idx), before[i], cov);
      } else {
        ScanWritesOther(c0, w, txt, pl, row, col, idx, i);
      }
    }
  }

  lemma ScanWritesCell(c0: seq<Byte>, w: int, h: int, txt: Color, pl: Placement, row: int, col: int,
                       idx: int, i: int)
    requires w > 0 && |c0| == w * h * 3 && pl.glyph.Valid()
    requires 0 <= row < pl.glyph.rows && 0 <= col < pl.glyph.width
    requires 0 <= pl.x + col < w && 0 <= pl.y - pl.glyph.bitmapTop + 1 + row < h
    requires idx == ((pl.y - pl.glyph.bitmapTop + 1 + row) * w + pl.x + col) * 3
    requires 0 <= idx <= i <= idx + 2 < |c0|
    ensures i % 3 == i - idx
    ensures StampedByte(c0, w, txt, pl, i, row, col) == c0[i]
    ensures pl.glyph.Cov(row, col) != 0 ==>
      StampedByte(c0, w, txt, pl, i, row, col + 1) == Blend(txt.At(i - idx), c0[i], pl.glyph.Cov(row, col))
  {
    CellLands(w, h, pl, row, col, i - idx);
    assert ByteIndex((pl.y - pl.glyph.bitmapTop + 1 + row) * w + pl.x + col, i - idx) == i;
  }

  lemma ScanWritesOther(c0: seq<Byte>, w: int, txt: Color, pl: Placement, row: int, col: int,
                        idx: int, i: int)
    requires w > 0 && pl.glyph.Valid() && 0 <= i < |c0|
    requires 0 <= pl.x + col < w
    requires idx == ((pl.y - pl.glyph.bitmapTop + 1 + row) * w + pl.x + col) * 3
    requires !(idx <= i <= idx + 2)
    ensures StampedByte(c0, w, txt, pl, i, row, col + 1) == StampedByte(c0, w, txt, pl, i, row, col)
  {
    var px, py := PixelX(i, w), PixelY(i, w);
    if CellRow(pl, py) == row && CellCol(pl, px) == col {
      SamePixel(w, i, idx, pl.x + col, pl.y - pl.glyph.bitmapTop + 1 + row);
      assert false;
    }
  }

  /** Two bytes in the same pixel are at most two apart. */
  lemma SamePixel(w: int, i: int, idx: int, px: int, py: int)
    requires w > 0 && 0 <= i && 0 <= px < w && idx == (py * w + px) * 3
    requires PixelX(i, w) == px && PixelY(i, w) == py
    ensures idx <= i <= idx + 2
  {
    var p := i / 3;
    assert p == (p / w) * w + p % w;
  }

  /** A cell whose pixel is off the canvas changes nothing: no byte of the
      buffer belongs to such a pixel. */
  lemma ScanSkipsOffCanvas(c0: seq<Byte>, w: int, h: int, txt: Color, pl: Placement, row: int, col: int)
    requires w > 0 && |c0| == w * h * 3 && pl.glyph.Valid()
    requires 0 <= row < pl.glyph.rows && 0 <= col < pl.glyph.width
    requires !(0 <= pl.x + col < w && 0 <= pl.y - pl.glyph.bitmapTop + 1 + row < h)
    ensures Scanned(c0, w, txt, pl, row, col + 1) == Scanned(c0, w, txt, pl, row, col)
  {
    forall i | 0 <= i < |c0|
      ensures Scanned(c0, w, txt, pl, row, col + 1)[i] == Scanned(c0, w, txt, pl, row, col)[i]
    {
      PixelInCanvas(w, h, i);
    }
  }

  /** Every byte of a `w*h*3` buffer belongs to a pixel on the canvas. */
  lemma PixelInCanvas(w: int, h: int, i: int)
    requires w > 0 && 0 <= i < w * h * 3
    ensures 0 <= PixelX(i, w) < w && 0 <= PixelY(i, w) < h
  {
    var p := i / 3;
    assert p < w * h;
  }

  /** A cell with zero coverage changes nothing. */
  lemma ScanSkipsBlank(c0: seq<Byte>, w: int, txt: Color, pl: Placement, row: int, col: int)
    requires w > 0 && pl.glyph.Valid()
    requires 0 <= row < pl.glyph.rows && 0 <= col < pl.glyph.width && pl.glyph.Cov(row, col) == 0
    ensures Scanned(c0, w, txt, pl, row, col + 1) == Scanned(c0, w, txt, pl, row, col)
  {
    forall i | 0 <= i < |c0|
      ensures Scanned(c0, w, txt, pl, row, col + 1)[i] == Scanned(c0, w, txt, pl, row, col)[i]
    {
    }
  }

  /** The end of a row is the start of the next. */
  lemma ScanNextRow(c0: seq<Byte>, w: int, txt: Color, pl: Placement, row: int)
    requires w > 0 && pl.glyph.Valid()
    ensures Scanned(c0, w, txt, pl, row, pl.glyph.width) == Scanned(c0, w, txt, pl, row + 1, 0)
  {
    forall i | 0 <= i < |c0|
      ensures Scanned(c0, w, txt, pl, row, pl.glyph.width)[i] == Scanned(c0, w, txt, pl, row + 1, 0)[i]
    {
    }
  }
}
