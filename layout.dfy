/** Row-major buffer geometry shared by the pixel converters: where pixel
    (row, column) of a padded source lies, and where a converter puts it in
    its destination. */
module PixelLayout {

  /** Offset of cell (r, c) in a row-major buffer of `h` rows of `w` cells. */
  function RowMajor(w: nat, h: nat, r: nat, c: nat): (k: nat)
    requires r < h && c < w
    ensures r * w <= k < r * w + w
    ensures k < w * h
  {
    MulLeft(r + 1, h, w);
    r * w + c
  }

  /** Destination of source cell (r, c) under a vertical flip: the row
      order is reversed and the column order kept. */
  function Flipped(w: nat, h: nat, r: nat, c: nat): (k: nat)
    requires r < h && c < w
    ensures k < w * h
  {
    RowMajor(w, h, h - 1 - r, c)
  }

  /** Destination of source cell (r, c) under a horizontal mirror: the
      column order is reversed and the row order kept. */
  function Mirrored(w: nat, h: nat, r: nat, c: nat): (k: nat)
    requires r < h && c < w
    ensures k < w * h
  {
    RowMajor(w, h, r, w - 1 - c)
  }

  /** Number of units a source buffer must hold for `h` rows of `rowLen`
      units, each row but the last followed by `pitch` padding units. */
  function Span(h: nat, rowLen: nat, pitch: nat): nat
  {
    if h == 0 then 0 else (h - 1) * (rowLen + pitch) + rowLen
  }

  /** Offset of unit `i` of row `r` in a source buffer whose rows hold
      `rowLen` units followed by `pitch` padding units. */
  function RowUnit(h: nat, rowLen: nat, pitch: nat, r: nat, i: nat): (k: nat)
    requires r < h && i < rowLen
    ensures r * (rowLen + pitch) <= k < r * (rowLen + pitch) + rowLen
    ensures k < Span(h, rowLen, pitch)
  {
    MulLeft(r, h - 1, rowLen + pitch);
    r * (rowLen + pitch) + i
  }

  /** Offset of the first byte of pixel (r, c) in a source whose rows hold
      `w` pixels of `bpp` bytes followed by `pitch` padding bytes. */
  function PixelStart(h: nat, w: nat, bpp: nat, pitch: nat, r: nat, c: nat): (k: nat)
    requires r < h && c < w && bpp > 0
    ensures k == r * (bpp * w + pitch) + bpp * c
    ensures k + bpp <= Span(h, bpp * w, pitch)
  {
    MulLeft(c + 1, w, bpp);
    assert (c + 1) * bpp == bpp * c + bpp && w * bpp == bpp * w;
    RowUnit(h, bpp * w, pitch, r, bpp * c)
  }

  /** Bytes of one row of a 1-bit image: eight pixels per byte, the last
      byte possibly partly used. */
  function MonoRowBytes(w: nat): nat { (w + 7) / 8 }

  /** Bytes of one row of a 4-bit image: two pixels per byte. */
  function NibbleRowBytes(w: nat): nat { (w + 1) / 2 }

  /** Advancing a 1-bit column by one either moves on to the next byte,
      when the column was the last of its byte, or stays in it. */
  lemma NextBitColumn(x: nat)
    ensures (x + 1) % 8 == (if x % 8 == 7 then 0 else x % 8 + 1)
    ensures (x + 1) / 8 == (if x % 8 == 7 then x / 8 + 1 else x / 8)
  {
  }

  /** Advancing a 4-bit column by one moves from the high to the low nibble
      of a byte, or from a low nibble on to the next byte. */
  lemma NextNibbleColumn(x: nat)
    ensures (x + 1) % 2 == (if x % 2 == 1 then 0 else 1)
    ensures (x + 1) / 2 == (if x % 2 == 1 then x / 2 + 1 else x / 2)
  {
  }

  /** Stepping back one row from the end of row `r + 1`. */
  lemma RowBack(w: nat, h: nat, y: nat)
    requires y < h
    ensures w * h - y * w - w == (h - 1 - y) * w >= 0
    ensures (h - y) * w == (h - 1 - y) * w + w
  {
    calc {
      (h - 1 - y) * w;
      h * w - y * w - 1 * w;
    }
    MulLeft(0, h - 1 - y, w);
  }

  /** Under a vertical flip, the first `y` source rows occupy the last `y`
      destination rows. */
  lemma FlippedRowsAbove(w: nat, h: nat, y: nat)
    requires y <= h
    ensures forall r, c :: 0 <= r < y && 0 <= c < w ==> Flipped(w, h, r, c) >= (h - y) * w
  {
    forall r, c | 0 <= r < y && 0 <= c < w
      ensures Flipped(w, h, r, c) >= (h - y) * w
    {
      MulLeft(h - y, h - 1 - r, w);
    }
  }

  /** Without a flip, the first `y` source rows occupy the first `y`
      destination rows, mirrored or not. */
  lemma RowsBelow(w: nat, h: nat, y: nat)
    requires y <= h
    ensures forall r, c :: 0 <= r < y && 0 <= c < w ==> RowMajor(w, h, r, c) < y * w
    ensures forall r, c :: 0 <= r < y && 0 <= c < w ==> Mirrored(w, h, r, c) < y * w
  {
    forall r, c | 0 <= r < y && 0 <= c < w
      ensures RowMajor(w, h, r, c) < y * w
    {
      MulLeft(r + 1, y, w);
    }
  }

  /** The start of row `y + 1` is one row length past the start of row `y`. */
  lemma NextRow(y: nat, len: nat)
    ensures (y + 1) * len == y * len + len
  {
  }

  lemma MulLeft(a: nat, b: nat, w: nat)
    requires a <= b
    ensures a * w <= b * w
  {
  }

  /** Two cells of different rows never share an offset: the lower row
      lies wholly before the higher one. */
  lemma RowsApart(w: nat, h: nat, r1: nat, c1: nat, r2: nat, c2: nat)
    requires r1 < r2 < h && c1 < w && c2 < w
    ensures RowMajor(w, h, r1, c1) < RowMajor(w, h, r2, c2)
  {
    MulLeft(r1 + 1, r2, w);
  }
}
