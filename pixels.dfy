/** The RGB canvas of `render`: a row-major buffer of `w*h` pixels, three
    bytes (R, G, B) per pixel, the blend that composites one coverage value
    onto one byte, and the background fill. */
module Pixels {

  /** An `unsigned char`. */
  type Byte = x: int | 0 <= x < 256

  /** An RGB colour, as the source's `color` (three unsigned bytes). */
  datatype Color = Color(r: Byte, g: Byte, b: Byte)
  {
    /** Channel `ch` (0 = R, 1 = G, 2 = B), as `color[ch]`. */
    function At(ch: int): Byte
      requires 0 <= ch < 3
    {
      if ch == 0 then r else if ch == 1 then g else b
    }
  }

  function Min(a: int, b: int): int { if a <= b then a else b }
  function Max(a: int, b: int): int { if a <= b then b else a }

  /** One channel of the compositing formula
      `(txt * cov + dst * (255 - cov)) / 255`. The dividend is never negative,
      so C's truncating division and Dafny's agree, and the quotient always
      fits back into the destination byte. */
  function Blend(txt: Byte, dst: Byte, cov: Byte): (r: Byte)
    ensures Min(txt, dst) <= r <= Max(txt, dst)
    ensures cov == 0 ==> r == dst
    ensures cov == 255 ==> r == txt
    ensures txt == dst ==> r == dst
  {
    BlendBounds(txt, dst, cov);
    (txt * cov + dst * (255 - cov)) / 255
  }

  lemma BlendBounds(txt: Byte, dst: Byte, cov: Byte)
    ensures Min(txt, dst) <= (txt * cov + dst * (255 - cov)) / 255 <= Max(txt, dst)
  {
    var n := txt * cov + dst * (255 - cov);
    var lo, hi := Min(txt, dst), Max(txt, dst);
    WeightedSum(txt - lo, dst - lo, cov);
    assert n - 255 * lo == (txt - lo) * cov + (dst - lo) * (255 - cov) by { Distribute(txt, dst, lo, cov); }
    WeightedSum(hi - txt, hi - dst, cov);
    assert 255 * hi - n == (hi - txt) * cov + (hi - dst) * (255 - cov) by { Distribute(txt, dst, hi, cov); }
    DivBetween(n, lo, hi);
  }

  lemma WeightedSum(a: int, b: int, cov: Byte)
    requires a >= 0 && b >= 0
    ensures a * cov + b * (255 - cov) >= 0
  {
    MulNonNegative(a, cov);
    MulNonNegative(b, 255 - cov);
  }

  lemma MulNonNegative(a: int, b: int)
    requires a >= 0 && b >= 0
    ensures a * b >= 0
  {
  }

  lemma Distribute(t: int, d: int, m: int, cov: int)
    ensures (t - m) * cov + (d - m) * (255 - cov) == t * cov + d * (255 - cov) - 255 * m
  {
  }

  lemma DivBetween(n: int, lo: int, hi: int)
    requires 0 <= lo && 255 * lo <= n <= 255 * hi
    ensures lo <= n / 255 <= hi
  {
  }

  /** Pixel `p` of a buffer, channel `ch`, is byte `3 * p + ch`. */
  function ByteIndex(p: int, ch: int): int { 3 * p + ch }

  /** The canvas right after the fill loop: every pixel holds `bg`. */
  function Background(pixels: nat, bg: Color): (c: seq<Byte>)
    ensures |c| == 3 * pixels
    ensures forall p, ch :: 0 <= p < pixels && 0 <= ch < 3 ==> c[ByteIndex(p, ch)] == bg.At(ch)
  {
    seq(3 * pixels, i requires 0 <= i < 3 * pixels => bg.At(i % 3))
  }

  /** The background loop: writes bytes `3i`, `3i+1`, `3i+2` of every pixel `i`
      with the three background channels. */
  method Fill(buf: array<Byte>, pixels: nat, bg: Color)
    requires buf.Length == 3 * pixels
    modifies buf
    ensures buf[..] == Background(pixels, bg)
  {
    var i := 0;
    while i < pixels
      invariant 0 <= i <= pixels
      invariant forall j :: 0 <= j < 3 * i ==> buf[j] == bg.At(j % 3)
    {
      buf[3 * i + 0] := bg.r;
      buf[3 * i + 1] := bg.g;
      buf[3 * i + 2] := bg.b;
      i := i + 1;
    }
  }

  /** Row-major pixel numbering: pixel `(px, py)` of a `w`-wide canvas is
      pixel `py * w + px`, and that numbering is inverted by `/ w` and `% w`. */
  lemma PixelNumbering(w: int, h: int, px: int, py: int)
    requires w > 0 && 0 <= px < w && 0 <= py < h
    ensures 0 <= py * w + px < w * h
    ensures (py * w + px) / w == py && (py * w + px) % w == px
  {
    assert py * w + px <= (h - 1) * w + (w - 1) by { MulLeft(py, h - 1, w); }
    assert (h - 1) * w + (w - 1) == w * h - 1;
    DivModUnique(py * w + px, w, py, px);
  }

  lemma MulLeft(a: int, b: int, w: int)
    requires w > 0 && 0 <= a <= b
    ensures a * w <= b * w
  {
  }

  lemma DivModUnique(n: int, w: int, q: int, r: int)
    requires w > 0 && 0 <= r < w && n == q * w + r
    ensures n / w == q && n % w == r
  {
    var q', r' := n / w, n % w;
    assert (q - q') * w == r' - r;
    SmallMultipleIsZero(q - q', w);
  }

  lemma SmallMultipleIsZero(k: int, w: int)
    requires w > 0 && -w < k * w < w
    ensures k == 0
  {
  }

  /** The buffer-index guard of the compositor is implied by the two
      coordinate guards before it: an in-canvas pixel's three bytes lie
      inside the `w*h*3`-byte buffer. */
  lemma IndexGuardRedundant(w: int, h: int, px: int, py: int)
    requires w > 0 && 0 <= px < w && 0 <= py < h
    ensures 0 <= (py * w + px) * 3
    ensures (py * w + px) * 3 + 2 < w * h * 3
  {
    PixelNumbering(w, h, px, py);
  }
}
