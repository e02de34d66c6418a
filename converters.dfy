/** The image converters of the colour converter: each walks a packed source
    buffer row by row and writes a 16-bit (or 24/32-bit) destination buffer,
    applying a fixed geometric rewrite on the way. */
module ColorConverter {
  import opened PixelLayout

  /** Colour of pixel `c` of a 1-bit row, `b` being the byte that holds it:
      bit 7 is the leftmost pixel of each byte; a set bit gives 0xffff and a
      clear bit 0x0000. */
  function MonoPixel(b: bv8, c: nat): bv16
  {
    if (b >> (7 - c % 8)) & 1 == 1 then 0xffff else 0x0000
  }

  /** Converts a 1-bit bitmap to 16 bits per pixel. Despite its name, the
      routine flips the image vertically only: source row r lands in
      destination row height-1-r with its columns in their original order. */
  method Convert1BitTo16BitFlipMirror(input: seq<bv8>, out: array<bv16>, width: nat, height: nat, pitch: nat)
    requires |input| >= Span(height, MonoRowBytes(width), pitch)
    requires out.Length >= width * height
    modifies out
    ensures forall r, c :: 0 <= r < height && 0 <= c < width ==>
      out[Flipped(width, height, r, c)] == MonoPixel(input[RowUnit(height, MonoRowBytes(width), pitch, r, c / 8)], c)
    ensures forall k :: width * height <= k < out.Length ==> out[k] == old(out[k])
  {
    var rowBytes := MonoRowBytes(width);
    var top := width * height;
    var inPos := 0;
    var y := 0;
    ghost var lo := top;
    while y < height
      invariant 0 <= y <= height
      invariant lo == (height - y) * width
      invariant inPos == y * (rowBytes + pitch)
      invariant forall r, c :: 0 <= r < y && 0 <= c < width ==>
        out[Flipped(width, height, r, c)] == MonoPixel(input[RowUnit(height, rowBytes, pitch, r, c / 8)], c)
      invariant forall k :: 0 <= k < out.Length && !(lo <= k < top) ==> out[k] == old(out[k])
    {
      FlippedRowsAbove(width, height, y);
      var o := top - y * width - width;
      RowBack(width, height, y);
      inPos := MonoRow(input, out, width, height, pitch, y, inPos, o);
      inPos := inPos + pitch;
      NextRow(y, rowBytes + pitch);
      y := y + 1;
      lo := lo - width;
    }
  }

  /** One row of Convert1BitTo16BitFlipMirror: pixel x of source row y goes
      to out[o + x], the bit counter `shift` running from 7 down to 0 within
      each byte; a partly used last byte is skipped as a whole. Returns the
      offset just past the row's bytes. */
  method MonoRow(input: seq<bv8>, out: array<bv16>, width: nat, height: nat, pitch: nat, y: nat, inPos: nat, o: nat)
      returns (next: nat)
    requires |input| >= Span(height, MonoRowBytes(width), pitch)
    requires out.Length >= width * height
    requires y < height && inPos == y * (MonoRowBytes(width) + pitch) && o == (height - 1 - y) * width
    modifies out
    ensures next == inPos + MonoRowBytes(width)
    ensures forall c :: 0 <= c < width ==>
      out[Flipped(width, height, y, c)] == MonoPixel(input[RowUnit(height, MonoRowBytes(width), pitch, y, c / 8)], c)
    ensures forall k :: 0 <= k < out.Length && !(o <= k < o + width) ==> out[k] == old(out[k])
  {
    var rowBytes := MonoRowBytes(width);
    var shift := 7;
    next := inPos;
    var x := 0;
    while x < width
      invariant 0 <= x <= width
      invariant shift == 7 - x % 8
      invariant next == inPos + x / 8
      invariant forall c :: 0 <= c < x ==>
        out[Flipped(width, height, y, c)] == MonoPixel(input[RowUnit(height, rowBytes, pitch, y, c / 8)], c)
      invariant forall k :: 0 <= k < out.Length && !(o <= k < o + x) ==> out[k] == old(out[k])
    {
      assert next == RowUnit(height, rowBytes, pitch, y, x / 8);
      assert o + x == Flipped(width, height, y, x);
      out[o + x] := if (input[next] >> shift) & 1 == 1 then 0xffff else 0x0000;
      shift := shift - 1;
      if shift < 0 {
        shift := 7;
        next := next + 1;
      }
      NextBitColumn(x);
      x := x + 1;
    }
    if shift != 7 {
      next := next + 1;
    }
  }

  /** Palette index held by pixel `c` of a 4-bit row, `b` being the byte
      that holds it: the high nibble is the left pixel of each byte. */
  function NibbleIndex(b: bv8, c: nat): (i: nat)
    ensures i < 16
  {
    ((b >> (4 - 4 * (c % 2))) & 0xf) as nat
  }

  /** Converts a 4-bit palettised image to 16 bits per pixel, each nibble
      picking a palette entry that `x8r8g8b8ToA1r5g5b5` packs. Like the 1-bit
      routine it flips vertically only. */
  method Convert4BitTo16BitFlipMirror(input: seq<bv8>, out: array<bv16>, width: nat, height: nat, pitch: nat,
                                      palette: seq<bv32>, x8r8g8b8ToA1r5g5b5: bv32 -> bv16)
    requires |input| >= Span(height, NibbleRowBytes(width), pitch)
    requires |palette| >= 16
    requires out.Length >= width * height
    modifies out
    ensures forall r, c :: 0 <= r < height && 0 <= c < width ==>
      out[Flipped(width, height, r, c)] ==
        x8r8g8b8ToA1r5g5b5(palette[NibbleIndex(input[RowUnit(height, NibbleRowBytes(width), pitch, r, c / 2)], c)])
    ensures forall k :: width * height <= k < out.Length ==> out[k] == old(out[k])
  {
    var rowBytes := NibbleRowBytes(width);
    var top := width * height;
    var inPos := 0;
    var y := 0;
    ghost var lo := top;
    while y < height
      invariant 0 <= y <= height
      invariant lo == (height - y) * width
      invariant inPos == y * (rowBytes + pitch)
      invariant forall r, c :: 0 <= r < y && 0 <= c < width ==>
        out[Flipped(width, height, r, c)] ==
          x8r8g8b8ToA1r5g5b5(palette[NibbleIndex(input[RowUnit(height, rowBytes, pitch, r, c / 2)], c)])
      invariant forall k :: 0 <= k < out.Length && !(lo <= k < top) ==> out[k] == old(out[k])
    {
      FlippedRowsAbove(width, height, y);
      var o := top - y * width - width;
      RowBack(width, height, y);
      inPos := NibbleRow(input, out, width, height, pitch, palette, x8r8g8b8ToA1r5g5b5, y, inPos, o);
      inPos := inPos + pitch;
      NextRow(y, rowBytes + pitch);
      y := y + 1;
      lo := lo - width;
    }
  }

  /** One row of Convert4BitTo16BitFlipMirror: `shift` alternates between 4
      and 0; a half-used last byte is skipped as a whole. */
  method NibbleRow(input: seq<bv8>, out: array<bv16>, width: nat, height: nat, pitch: nat,
                   palette: seq<bv32>, x8r8g8b8ToA1r5g5b5: bv32 -> bv16, y: nat, inPos: nat, o: nat)
      returns (next: nat)
    requires |input| >= Span(height, NibbleRowBytes(width), pitch)
    requires |palette| >= 16
    requires out.Length >= width * height
    requires y < height && inPos == y * (NibbleRowBytes(width) + pitch) && o == (height - 1 - y) * width
    modifies out
    ensures next == inPos + NibbleRowBytes(width)
    ensures forall c :: 0 <= c < width ==>
      out[Flipped(width, height, y, c)] ==
        x8r8g8b8ToA1r5g5b5(palette[NibbleIndex(input[RowUnit(height, NibbleRowBytes(width), pitch, y, c / 2)], c)])
    ensures forall k :: 0 <= k < out.Length && !(o <= k < o + width) ==> out[k] == old(out[k])
  {
    var rowBytes := NibbleRowBytes(width);
    var shift := 4;
    next := inPos;
    var x := 0;
    while x < width
      invariant 0 <= x <= width
      invariant shift == 4 - 4 * (x % 2)
      invariant next == inPos + x / 2
      invariant forall c :: 0 <= c < x ==>
        out[Flipped(width, height, y, c)] ==
          x8r8g8b8ToA1r5g5b5(palette[NibbleIndex(input[RowUnit(height, rowBytes, pitch, y, c / 2)], c)])
      invariant forall k :: 0 <= k < out.Length && !(o <= k < o + x) ==> out[k] == old(out[k])
    {
      assert next == RowUnit(height, rowBytes, pitch, y, x / 2);
      assert o + x == Flipped(width, height, y, x);
      out[o + x] := x8r8g8b8ToA1r5g5b5(palette[((input[next] >> shift) & 0xf) as nat]);
      shift := shift - 4;
      if shift < 0 {
        shift := 4;
        next := next + 1;
      }
      NextNibbleColumn(x);
      x := x + 1;
    }
    if shift != 4 {
      next := next + 1;
    }
  }

  /** Writes destination row `height-1-y` of a vertically flipped image from
      its last cell backwards, as the flip-mirror routines do: step x stores
      the value of source column width-1-x one cell below the previous one.
      `base` is where the destination image starts. */
  method FlipRow<T>(out: array<T>, width: nat, height: nat, base: nat, y: nat, pixel: nat --> T)
    requires y < height && out.Length >= base + width * height
    requires forall c :: 0 <= c < width ==> pixel.requires(c)
    modifies out
    ensures forall c :: 0 <= c < width ==> out[base + Flipped(width, height, y, c)] == pixel(c)
    ensures forall k :: 0 <= k < out.Length && !(base + (height - 1 - y) * width <= k < base + (height - y) * width) ==>
      out[k] == old(out[k])
  {
    RowBack(width, height, y);
    MulLeft(height - y, height, width);
    var e := base + (height - y) * width;
    var x := 0;
    while x < width
      invariant 0 <= x <= width
      invariant forall c :: width - x <= c < width ==> out[base + Flipped(width, height, y, c)] == pixel(c)
      invariant forall k :: 0 <= k < out.Length && !(e - x <= k < e) ==> out[k] == old(out[k])
    {
      assert e - 1 - x == base + Flipped(width, height, y, width - 1 - x);
      out[e - 1 - x] := pixel(width - 1 - x);
      x := x + 1;
    }
  }

  /** Writes destination row `y` of a horizontally mirrored image from its
      first cell forwards: step x stores the value of source column
      width-1-x. */
  method MirrorRow<T>(out: array<T>, width: nat, height: nat, y: nat, pixel: nat --> T)
    requires y < height && out.Length >= width * height
    requires forall c :: 0 <= c < width ==> pixel.requires(c)
    modifies out
    ensures forall c :: 0 <= c < width ==> out[Mirrored(width, height, y, c)] == pixel(c)
    ensures forall k :: 0 <= k < out.Length && !(y * width <= k < y * width + width) ==> out[k] == old(out[k])
  {
    MulLeft(y + 1, height, width);
    var o := y * width;
    var x := 0;
    while x < width
      invariant 0 <= x <= width
      invariant forall c :: width - x <= c < width ==> out[Mirrored(width, height, y, c)] == pixel(c)
      invariant forall k :: 0 <= k < out.Length && !(o <= k < o + x) ==> out[k] == old(out[k])
    {
      assert o + x == Mirrored(width, height, y, width - 1 - x);
      out[o + x] := pixel(width - 1 - x);
      x := x + 1;
    }
  }

  /** Writes destination row `y` in source order: step x stores the value of
      source column x. */
  method ForwardRow<T>(out: array<T>, width: nat, height: nat, y: nat, pixel: nat --> T)
    requires y < height && out.Length >= width * height
    requires forall c :: 0 <= c < width ==> pixel.requires(c)
    modifies out
    ensures forall c :: 0 <= c < width ==> out[RowMajor(width, height, y, c)] == pixel(c)
    ensures forall k :: 0 <= k < out.Length && !(y * width <= k < y * width + width) ==> out[k] == old(out[k])
  {
    MulLeft(y + 1, height, width);
    var o := y * width;
    var x := 0;
    while x < width
      invariant 0 <= x <= width
      invariant forall c :: 0 <= c < x ==> out[RowMajor(width, height, y, c)] == pixel(c)
      invariant forall k :: 0 <= k < out.Length && !(o <= k < o + x) ==> out[k] == old(out[k])
    {
      assert o + x == RowMajor(width, height, y, x);
      out[o + x] := pixel(x);
      x := x + 1;
    }
  }

  /** The 16-bit colour of palette entry `i`. */
  function PaletteColor(palette: seq<bv32>, x8r8g8b8ToA1r5g5b5: bv32 -> bv16, i: bv8): bv16
    requires |palette| >= 256
  {
    x8r8g8b8ToA1r5g5b5(palette[i as nat])
  }

  /** Bytes convert8BitTo16Bit reads: the first row, and every later row
      including the `pitch` bytes past its end. */
  function SkewedSpan(h: nat, w: nat, pitch: nat): nat
  {
    if h == 0 then 0 else if h == 1 then w else h * (w + pitch)
  }

  /** Offset read by Convert8BitTo16Bit for pixel (r, c): the first row at
      offset 0, each later row `pitch` bytes past its true start. */
  function SkewedRowUnit(h: nat, w: nat, pitch: nat, r: nat, c: nat): (k: nat)
    requires r < h && c < w
    ensures k == SkewedRowStart(w, pitch, r) + c
    ensures k < SkewedSpan(h, w, pitch)
  {
    if r == 0 then
      MulLeft(1, h, w + pitch);
      c
    else
      MulLeft(r + 1, h, w + pitch);
      NextRow(r, w + pitch);
      SkewedRowStart(w, pitch, r) + c
  }

  /** Where Convert8BitTo16Bit starts reading row r. */
  function SkewedRowStart(w: nat, pitch: nat, r: nat): nat
  {
    if r == 0 then 0 else r * (w + pitch) + pitch
  }

  /** Converts an 8-bit palettised image to 16 bits per pixel, keeping rows
      and columns in place. As written, every row after the first is read
      starting `pitch` bytes past its start (see SkewedRowUnit), so the
      routine also reads the padding of the last row. */
  method Convert8BitTo16Bit(input: seq<bv8>, out: array<bv16>, width: nat, height: nat, pitch: nat,
                            palette: seq<bv32>, x8r8g8b8ToA1r5g5b5: bv32 -> bv16)
    requires |input| >= SkewedSpan(height, width, pitch)
    requires |palette| >= 256
    requires out.Length >= width * height
    modifies out
    ensures forall r, c :: 0 <= r < height && 0 <= c < width ==>
      out[RowMajor(width, height, r, c)] ==
        PaletteColor(palette, x8r8g8b8ToA1r5g5b5, input[SkewedRowUnit(height, width, pitch, r, c)])
    ensures forall k :: width * height <= k < out.Length ==> out[k] == old(out[k])
  {
    var lineWidth := width + pitch;
    var p := 0;
    var y := 1;
    while y <= height
      invariant 1 <= y <= height + 1
      invariant p == SkewedRowStart(width, pitch, y - 1)
      invariant forall r, c :: 0 <= r < y - 1 && 0 <= c < width ==>
        out[RowMajor(width, height, r, c)] ==
          PaletteColor(palette, x8r8g8b8ToA1r5g5b5, input[SkewedRowUnit(height, width, pitch, r, c)])
      invariant forall k :: 0 <= k < out.Length && !(0 <= k < (y - 1) * width) ==> out[k] == old(out[k])
    {
      RowsBelow(width, height, y - 1);
      SkewedRow(input, out, width, height, pitch, palette, x8r8g8b8ToA1r5g5b5, y - 1, p);
      p := y * lineWidth + pitch;
      NextRow(y - 1, width);
      y := y + 1;
    }
  }

  /** One row of Convert8BitTo16Bit, read from `p`. */
  method SkewedRow(input: seq<bv8>, out: array<bv16>, width: nat, height: nat, pitch: nat,
                   palette: seq<bv32>, x8r8g8b8ToA1r5g5b5: bv32 -> bv16, y: nat, p: nat)
    requires |input| >= SkewedSpan(height, width, pitch)
    requires |palette| >= 256
    requires out.Length >= width * height
    requires y < height && p == SkewedRowStart(width, pitch, y)
    modifies out
    ensures forall c :: 0 <= c < width ==>
      out[RowMajor(width, height, y, c)] ==
        PaletteColor(palette, x8r8g8b8ToA1r5g5b5, input[SkewedRowUnit(height, width, pitch, y, c)])
    ensures forall k :: 0 <= k < out.Length && !(y * width <= k < y * width + width) ==> out[k] == old(out[k])
  {
    assert width > 0 ==> p + width <= |input| by {
      if width > 0 { var _ := SkewedRowUnit(height, width, pitch, y, width - 1); }
    }
    ForwardRow(out, width, height, y,
      (c: nat) requires c < width => PaletteColor(palette, x8r8g8b8ToA1r5g5b5, input[p + c]));
  }

  /** Convert8BitTo16Bit as evidently intended: row r is read from
      r * (width + pitch). */
  method Convert8BitTo16BitCorrected(input: seq<bv8>, out: array<bv16>, width: nat, height: nat, pitch: nat,
                                     palette: seq<bv32>, x8r8g8b8ToA1r5g5b5: bv32 -> bv16)
    requires |input| >= Span(height, width, pitch)
    requires |palette| >= 256
    requires out.Length >= width * height
    modifies out
    ensures forall r, c :: 0 <= r < height && 0 <= c < width ==>
      out[RowMajor(width, height, r, c)] ==
        PaletteColor(palette, x8r8g8b8ToA1r5g5b5, input[RowUnit(height, width, pitch, r, c)])
    ensures forall k :: width * height <= k < out.Length ==> out[k] == old(out[k])
  {
    var lineWidth := width + pitch;
    var p := 0;
    var y := 0;
    while y < height
      invariant 0 <= y <= height
      invariant p == y * lineWidth
      invariant forall r, c :: 0 <= r < y && 0 <= c < width ==>
        out[RowMajor(width, height, r, c)] ==
          PaletteColor(palette, x8r8g8b8ToA1r5g5b5, input[RowUnit(height, width, pitch, r, c)])
      invariant forall k :: 0 <= k < out.Length && !(0 <= k < y * width) ==> out[k] == old(out[k])
    {
      RowsBelow(width, height, y);
      PaletteRow(input, out, width, height, pitch, palette, x8r8g8b8ToA1r5g5b5, y, p);
      p := p + lineWidth;
      NextRow(y, width);
      NextRow(y, lineWidth);
      y := y + 1;
    }
  }

  /** One row of Convert8BitTo16BitCorrected, read from `p`. */
  method PaletteRow(input: seq<bv8>, out: array<bv16>, width: nat, height: nat, pitch: nat,
                    palette: seq<bv32>, x8r8g8b8ToA1r5g5b5: bv32 -> bv16, y: nat, p: nat)
    requires |input| >= Span(height, width, pitch)
    requires |palette| >= 256
    requires out.Length >= width * height
    requires y < height && p == y * (width + pitch)
    modifies out
    ensures forall c :: 0 <= c < width ==>
      out[RowMajor(width, height, y, c)] ==
        PaletteColor(palette, x8r8g8b8ToA1r5g5b5, input[RowUnit(height, width, pitch, y, c)])
    ensures forall k :: 0 <= k < out.Length && !(y * width <= k < y * width + width) ==> out[k] == old(out[k])
  {
    assert width > 0 ==> p + width <= |input| by {
      if width > 0 { var _ := RowUnit(height, width, pitch, y, width - 1); }
    }
    ForwardRow(out, width, height, y,
      (c: nat) requires c < width => PaletteColor(palette, x8r8g8b8ToA1r5g5b5, input[p + c]));
  }

  /** Converts an 8-bit palettised image to 16 bits per pixel and flips it
      vertically (the mirrored read and the backward write cancel out
      horizontally). Row y is read backwards from its last byte. */
  method Convert8BitTo16BitFlipMirror(input: seq<bv8>, out: array<bv16>, width: nat, height: nat, pitch: nat,
                                      palette: seq<bv32>, x8r8g8b8ToA1r5g5b5: bv32 -> bv16)
    requires |input| >= Span(height, width, pitch)
    requires |palette| >= 256
    requires out.Length >= width * height
    modifies out
    ensures forall r, c :: 0 <= r < height && 0 <= c < width ==>
      out[Flipped(width, height, r, c)] ==
        PaletteColor(palette, x8r8g8b8ToA1r5g5b5, input[RowUnit(height, width, pitch, r, c)])
    ensures forall k :: width * height <= k < out.Length ==> out[k] == old(out[k])
  {
    var lineWidth := width + pitch;
    var y := 1;
    while y <= height
      invariant 1 <= y <= height + 1
      invariant forall r, c :: 0 <= r < y - 1 && 0 <= c < width ==>
        out[Flipped(width, height, r, c)] ==
          PaletteColor(palette, x8r8g8b8ToA1r5g5b5, input[RowUnit(height, width, pitch, r, c)])
      invariant forall k :: 0 <= k < out.Length && !((height - (y - 1)) * width <= k < width * height) ==>
        out[k] == old(out[k])
    {
      FlippedRowsAbove(width, height, y - 1);
      RowBack(width, height, y - 1);
      NextRow(y - 1, lineWidth);
      var p := lineWidth * y - pitch;
      PaletteFlipRow(input, out, width, height, pitch, palette, x8r8g8b8ToA1r5g5b5, y - 1, p);
      y := y + 1;
    }
  }

  /** One row of Convert8BitTo16BitFlipMirror, read backwards from `rowEnd`,
      one past the row's last byte. */
  method PaletteFlipRow(input: seq<bv8>, out: array<bv16>, width: nat, height: nat, pitch: nat,
                        palette: seq<bv32>, x8r8g8b8ToA1r5g5b5: bv32 -> bv16, y: nat, rowEnd: nat)
    requires |input| >= Span(height, width, pitch)
    requires |palette| >= 256
    requires out.Length >= width * height
    requires y < height && rowEnd == y * (width + pitch) + width
    modifies out
    ensures forall c :: 0 <= c < width ==>
      out[Flipped(width, height, y, c)] ==
        PaletteColor(palette, x8r8g8b8ToA1r5g5b5, input[RowUnit(height, width, pitch, y, c)])
    ensures forall k :: 0 <= k < out.Length && !((height - 1 - y) * width <= k < (height - y) * width) ==>
      out[k] == old(out[k])
  {
    assert width > 0 ==> rowEnd <= |input| by {
      if width > 0 { var _ := RowUnit(height, width, pitch, y, width - 1); }
    }
    FlipRow(out, width, height, 0, y,
      (c: nat) requires c < width => PaletteColor(palette, x8r8g8b8ToA1r5g5b5, input[rowEnd - width + c]));
  }

  /** Copies a 16-bit image, flipping it vertically; `pitch` counts 16-bit
      units. */
  method Convert16BitTo16BitFlipMirror(input: seq<bv16>, out: array<bv16>, width: nat, height: nat, pitch: nat)
    requires |input| >= Span(height, width, pitch)
    requires out.Length >= width * height
    modifies out
    ensures forall r, c :: 0 <= r < height && 0 <= c < width ==>
      out[Flipped(width, height, r, c)] == input[RowUnit(height, width, pitch, r, c)]
    ensures forall k :: width * height <= k < out.Length ==> out[k] == old(out[k])
  {
    var lineWidth := width + pitch;
    var row := 0;
    var y := 0;
    while y < height
      invariant 0 <= y <= height
      invariant row == y * lineWidth
      invariant forall r, c :: 0 <= r < y && 0 <= c < width ==>
        out[Flipped(width, height, r, c)] == input[RowUnit(height, width, pitch, r, c)]
      invariant forall k :: 0 <= k < out.Length && !((height - y) * width <= k < width * height) ==>
        out[k] == old(out[k])
    {
      FlippedRowsAbove(width, height, y);
      RowBack(width, height, y);
      CopyFlipRow(input, out, width, height, pitch, y, row);
      row := row + lineWidth;
      NextRow(y, lineWidth);
      y := y + 1;
    }
  }

  /** One row of Convert16BitTo16BitFlipMirror. */
  method CopyFlipRow(input: seq<bv16>, out: array<bv16>, width: nat, height: nat, pitch: nat, y: nat, row: nat)
    requires |input| >= Span(height, width, pitch)
    requires out.Length >= width * height
    requires y < height && row == y * (width + pitch)
    modifies out
    ensures forall c :: 0 <= c < width ==> out[Flipped(width, height, y, c)] == input[RowUnit(height, width, pitch, y, c)]
    ensures forall k :: 0 <= k < out.Length && !((height - 1 - y) * width <= k < (height - y) * width) ==>
      out[k] == old(out[k])
  {
    assert width > 0 ==> row + width <= |input| by {
      if width > 0 { var _ := RowUnit(height, width, pitch, y, width - 1); }
    }
    FlipRow(out, width, height, 0, y, (c: nat) requires c < width => input[row + c]);
  }

  /** The colour of a 3-byte pixel starting at `k`, packed by `rgb16` from
      its bytes in reverse order (the byte at k+2 first). */
  function Reversed24(input: seq<bv8>, k: nat, rgb16: (bv8, bv8, bv8) -> bv16): bv16
    requires k + 3 <= |input|
  {
    rgb16(input[k + 2], input[k + 1], input[k])
  }

  /** The colour of a 3-byte pixel starting at `k`, packed by `rgb16` from
      its bytes in memory order. */
  function InOrder24(input: seq<bv8>, k: nat, rgb16: (bv8, bv8, bv8) -> bv16): bv16
    requires k + 3 <= |input|
  {
    rgb16(input[k], input[k + 1], input[k + 2])
  }

  /** The colour of a 4-byte pixel starting at `k`: its first three bytes
      in reverse order, the fourth ignored. */
  function Reversed32(input: seq<bv8>, k: nat, rgb16: (bv8, bv8, bv8) -> bv16): bv16
    requires k + 4 <= |input|
  {
    rgb16(input[k + 2], input[k + 1], input[k])
  }

  /** Converts a 24-bit image to 16 bits per pixel, flipping it vertically;
      each pixel's bytes are handed to `rgb16` last byte first. */
  method Convert24BitTo16BitFlipMirror(input: seq<bv8>, out: array<bv16>, width: nat, height: nat, pitch: nat,
                                       rgb16: (bv8, bv8, bv8) -> bv16)
    requires |input| >= Span(height, 3 * width, pitch)
    requires out.Length >= width * height
    modifies out
    ensures forall r, c :: 0 <= r < height && 0 <= c < width ==>
      out[Flipped(width, height, r, c)] == Reversed24(input, PixelStart(height, width, 3, pitch, r, c), rgb16)
    ensures forall k :: width * height <= k < out.Length ==> out[k] == old(out[k])
  {
    var lineWidth := 3 * width + pitch;
    var row := 0;
    var y := 0;
    while y < height
      invariant 0 <= y <= height
      invariant row == y * lineWidth
      invariant forall r, c :: 0 <= r < y && 0 <= c < width ==>
        out[Flipped(width, height, r, c)] == Reversed24(input, PixelStart(height, width, 3, pitch, r, c), rgb16)
      invariant forall k :: 0 <= k < out.Length && !((height - y) * width <= k < width * height) ==>
        out[k] == old(out[k])
    {
      FlippedRowsAbove(width, height, y);
      RowBack(width, height, y);
      Reversed24FlipRow(input, out, width, height, pitch, rgb16, y, row);
      row := row + lineWidth;
      NextRow(y, lineWidth);
      y := y + 1;
    }
  }

  /** One row of Convert24BitTo16BitFlipMirror. */
  method Reversed24FlipRow(input: seq<bv8>, out: array<bv16>, width: nat, height: nat, pitch: nat,
                           rgb16: (bv8, bv8, bv8) -> bv16, y: nat, row: nat)
    requires |input| >= Span(height, 3 * width, pitch)
    requires out.Length >= width * height
    requires y < height && row == y * (3 * width + pitch)
    modifies out
    ensures forall c :: 0 <= c < width ==>
      out[Flipped(width, height, y, c)] == Reversed24(input, PixelStart(height, width, 3, pitch, y, c), rgb16)
    ensures forall k :: 0 <= k < out.Length && !((height - 1 - y) * width <= k < (height - y) * width) ==>
      out[k] == old(out[k])
  {
    assert width > 0 ==> row + 3 * width <= |input| by {
      if width > 0 { var _ := PixelStart(height, width, 3, pitch, y, width - 1); }
    }
    FlipRow(out, width, height, 0, y, (c: nat) requires c < width => Reversed24(input, row + 3 * c, rgb16));
    forall c | 0 <= c < width
      ensures out[Flipped(width, height, y, c)] == Reversed24(input, PixelStart(height, width, 3, pitch, y, c), rgb16)
    {
      assert row + 3 * c == PixelStart(height, width, 3, pitch, y, c);
    }
  }

  /** Converts a 24-bit image to 16 bits per pixel, mirroring it
      horizontally; each pixel's bytes are handed to `rgb16` in memory
      order. */
  method Convert24BitTo16BitColorShuffle(input: seq<bv8>, out: array<bv16>, width: nat, height: nat, pitch: nat,
                                         rgb16: (bv8, bv8, bv8) -> bv16)
    requires |input| >= Span(height, 3 * width, pitch)
    requires out.Length >= width * height
    modifies out
    ensures forall r, c :: 0 <= r < height && 0 <= c < width ==>
      out[Mirrored(width, height, r, c)] == InOrder24(input, PixelStart(height, width, 3, pitch, r, c), rgb16)
    ensures forall k :: width * height <= k < out.Length ==> out[k] == old(out[k])
  {
    var lineWidth := 3 * width + pitch;
    var row := 0;
    var y := 0;
    while y < height
      invariant 0 <= y <= height
      invariant row == y * lineWidth
      invariant forall r, c :: 0 <= r < y && 0 <= c < width ==>
        out[Mirrored(width, height, r, c)] == InOrder24(input, PixelStart(height, width, 3, pitch, r, c), rgb16)
      invariant forall k :: 0 <= k < out.Length && !(0 <= k < y * width) ==> out[k] == old(out[k])
    {
      RowsBelow(width, height, y);
      InOrder24MirrorRow(input, out, width, height, pitch, rgb16, y, row);
      row := row + lineWidth;
      NextRow(y, lineWidth);
      NextRow(y, width);
      y := y + 1;
    }
  }

  /** One row of Convert24BitTo16BitColorShuffle. */
  method InOrder24MirrorRow(input: seq<bv8>, out: array<bv16>, width: nat, height: nat, pitch: nat,
                            rgb16: (bv8, bv8, bv8) -> bv16, y: nat, row: nat)
    requires |input| >= Span(height, 3 * width, pitch)
    requires out.Length >= width * height
    requires y < height && row == y * (3 * width + pitch)
    modifies out
    ensures forall c :: 0 <= c < width ==>
      out[Mirrored(width, height, y, c)] == InOrder24(input, PixelStart(height, width, 3, pitch, y, c), rgb16)
    ensures forall k :: 0 <= k < out.Length && !(y * width <= k < y * width + width) ==> out[k] == old(out[k])
  {
    assert width > 0 ==> row + 3 * width <= |input| by {
      if width > 0 { var _ := PixelStart(height, width, 3, pitch, y, width - 1); }
    }
    MirrorRow(out, width, height, y, (c: nat) requires c < width => InOrder24(input, row + 3 * c, rgb16));
    forall c | 0 <= c < width
      ensures out[Mirrored(width, height, y, c)] == InOrder24(input, PixelStart(height, width, 3, pitch, y, c), rgb16)
    {
      assert row + 3 * c == PixelStart(height, width, 3, pitch, y, c);
    }
  }

  /** Converts a 24-bit image to 16 bits per pixel keeping rows and columns
      in place; despite its name, nothing is flipped. */
  method Convert24BitTo16BitFlipColorShuffle(input: seq<bv8>, out: array<bv16>, width: nat, height: nat, pitch: nat,
                                             rgb16: (bv8, bv8, bv8) -> bv16)
    requires |input| >= Span(height, 3 * width, pitch)
    requires out.Length >= width * height
    modifies out
    ensures forall r, c :: 0 <= r < height && 0 <= c < width ==>
      out[RowMajor(width, height, r, c)] == InOrder24(input, PixelStart(height, width, 3, pitch, r, c), rgb16)
    ensures forall k :: width * height <= k < out.Length ==> out[k] == old(out[k])
  {
    var lineWidth := 3 * width + pitch;
    var row := 0;
    var y := 0;
    while y < height
      invariant 0 <= y <= height
      invariant row == y * lineWidth
      invariant forall r, c :: 0 <= r < y && 0 <= c < width ==>
        out[RowMajor(width, height, r, c)] == InOrder24(input, PixelStart(height, width, 3, pitch, r, c), rgb16)
      invariant forall k :: 0 <= k < out.Length && !(0 <= k < y * width) ==> out[k] == old(out[k])
    {
      RowsBelow(width, height, y);
      InOrder24Row(input, out, width, height, pitch, rgb16, y, row);
      row := row + lineWidth;
      NextRow(y, lineWidth);
      NextRow(y, width);
      y := y + 1;
    }
  }

  /** One row of Convert24BitTo16BitFlipColorShuffle. */
  method InOrder24Row(input: seq<bv8>, out: array<bv16>, width: nat, height: nat, pitch: nat,
                      rgb16: (bv8, bv8, bv8) -> bv16, y: nat, row: nat)
    requires |input| >= Span(height, 3 * width, pitch)
    requires out.Length >= width * height
    requires y < height && row == y * (3 * width + pitch)
    modifies out
    ensures forall c :: 0 <= c < width ==>
      out[RowMajor(width, height, y, c)] == InOrder24(input, PixelStart(height, width, 3, pitch, y, c), rgb16)
    ensures forall k :: 0 <= k < out.Length && !(y * width <= k < y * width + width) ==> out[k] == old(out[k])
  {
    assert width > 0 ==> row + 3 * width <= |input| by {
      if width > 0 { var _ := PixelStart(height, width, 3, pitch, y, width - 1); }
    }
    ForwardRow(out, width, height, y, (c: nat) requires c < width => InOrder24(input, row + 3 * c, rgb16));
    forall c | 0 <= c < width
      ensures out[RowMajor(width, height, y, c)] == InOrder24(input, PixelStart(height, width, 3, pitch, y, c), rgb16)
    {
      assert row + 3 * c == PixelStart(height, width, 3, pitch, y, c);
    }
  }

  /** Converts a 32-bit image to 16 bits per pixel, mirroring it
      horizontally; the first three bytes of each pixel are handed to
      `rgb16` last byte first. */
  method Convert32BitTo16BitColorShuffle(input: seq<bv8>, out: array<bv16>, width: nat, height: nat, pitch: nat,
                                         rgb16: (bv8, bv8, bv8) -> bv16)
    requires |input| >= Span(height, 4 * width, pitch)
    requires out.Length >= width * height
    modifies out
    ensures forall r, c :: 0 <= r < height && 0 <= c < width ==>
      out[Mirrored(width, height, r, c)] == Reversed32(input, PixelStart(height, width, 4, pitch, r, c), rgb16)
    ensures forall k :: width * height <= k < out.Length ==> out[k] == old(out[k])
  {
    var lineWidth := 4 * width + pitch;
    var row := 0;
    var y := 0;
    while y < height
      invariant 0 <= y <= height
      invariant row == y * lineWidth
      invariant forall r, c :: 0 <= r < y && 0 <= c < width ==>
        out[Mirrored(width, height, r, c)] == Reversed32(input, PixelStart(height, width, 4, pitch, r, c), rgb16)
      invariant forall k :: 0 <= k < out.Length && !(0 <= k < y * width) ==> out[k] == old(out[k])
    {
      RowsBelow(width, height, y);
      Reversed32MirrorRow(input, out, width, height, pitch, rgb16, y, row);
      row := row + lineWidth;
      NextRow(y, lineWidth);
      NextRow(y, width);
      y := y + 1;
    }
  }

  /** One row of Convert32BitTo16BitColorShuffle. */
  method Reversed32MirrorRow(input: seq<bv8>, out: array<bv16>, width: nat, height: nat, pitch: nat,
                             rgb16: (bv8, bv8, bv8) -> bv16, y: nat, row: nat)
    requires |input| >= Span(height, 4 * width, pitch)
    requires out.Length >= width * height
    requires y < height && row == y * (4 * width + pitch)
    modifies out
    ensures forall c :: 0 <= c < width ==>
      out[Mirrored(width, height, y, c)] == Reversed32(input, PixelStart(height, width, 4, pitch, y, c), rgb16)
    ensures forall k :: 0 <= k < out.Length && !(y * width <= k < y * width + width) ==> out[k] == old(out[k])
  {
    assert width > 0 ==> row + 4 * width <= |input| by {
      if width > 0 { var _ := PixelStart(height, width, 4, pitch, y, width - 1); }
    }
    MirrorRow(out, width, height, y, (c: nat) requires c < width => Reversed32(input, row + 4 * c, rgb16));
    forall c | 0 <= c < width
      ensures out[Mirrored(width, height, y, c)] == Reversed32(input, PixelStart(height, width, 4, pitch, y, c), rgb16)
    {
      assert row + 4 * c == PixelStart(height, width, 4, pitch, y, c);
    }
  }

  /** Where convert32BitTo16BitFlipMirrorColorShuffle as written stores
      source pixel (r, c): its destination pointer starts at
      (width + pitch) * height instead of width * height, which shifts the
      whole flipped image `pitch * height` cells up. */
  function ShiftedFlipped(w: nat, h: nat, pitch: nat, r: nat, c: nat): (k: nat)
    requires r < h && c < w
    ensures pitch * h <= k < pitch * h + w * h
  {
    pitch * h + Flipped(w, h, r, c)
  }

  lemma PitchedArea(w: nat, pitch: nat, h: nat)
    ensures (w + pitch) * h == pitch * h + w * h
  {
  }

  /** Converts a 32-bit image to 16 bits per pixel, flipping it vertically,
      as written: the destination must hold (width + pitch) * height cells,
      and the image lands at offset pitch * height. */
  method Convert32BitTo16BitFlipMirrorColorShuffle(input: seq<bv8>, out: array<bv16>, width: nat, height: nat, pitch: nat,
                                                   rgb16: (bv8, bv8, bv8) -> bv16)
    requires |input| >= Span(height, 4 * width, pitch)
    requires out.Length >= (width + pitch) * height
    modifies out
    ensures forall r, c :: 0 <= r < height && 0 <= c < width ==>
      out[ShiftedFlipped(width, height, pitch, r, c)] == Reversed32(input, PixelStart(height, width, 4, pitch, r, c), rgb16)
    ensures forall k :: 0 <= k < out.Length && !(pitch * height <= k < (width + pitch) * height) ==>
      out[k] == old(out[k])
  {
    PitchedArea(width, pitch, height);
    Reversed32FlipFrom(input, out, width, height, pitch, rgb16, pitch * height);
  }

  /** convert32BitTo16BitFlipMirrorColorShuffle as evidently intended: the
      destination pointer starts at width * height, so the image fills the
      destination exactly, like the other flip-mirror routines. */
  method Convert32BitTo16BitFlipMirrorColorShuffleCorrected(input: seq<bv8>, out: array<bv16>, width: nat, height: nat,
                                                            pitch: nat, rgb16: (bv8, bv8, bv8) -> bv16)
    requires |input| >= Span(height, 4 * width, pitch)
    requires out.Length >= width * height
    modifies out
    ensures forall r, c :: 0 <= r < height && 0 <= c < width ==>
      out[Flipped(width, height, r, c)] == Reversed32(input, PixelStart(height, width, 4, pitch, r, c), rgb16)
    ensures forall k :: width * height <= k < out.Length ==> out[k] == old(out[k])
  {
    Reversed32FlipFrom(input, out, width, height, pitch, rgb16, 0);
  }

  /** The loop of both 32-bit flip routines: the destination pointer starts
      `width * height` cells past `base` and walks backwards, so the
      flipped image fills the cells from `base` on. */
  method Reversed32FlipFrom(input: seq<bv8>, out: array<bv16>, width: nat, height: nat, pitch: nat,
                            rgb16: (bv8, bv8, bv8) -> bv16, base: nat)
    requires |input| >= Span(height, 4 * width, pitch)
    requires out.Length >= base + width * height
    modifies out
    ensures forall r, c :: 0 <= r < height && 0 <= c < width ==>
      out[base + Flipped(width, height, r, c)] == Reversed32(input, PixelStart(height, width, 4, pitch, r, c), rgb16)
    ensures forall k :: 0 <= k < out.Length && !(base <= k < base + width * height) ==> out[k] == old(out[k])
  {
    var lineWidth := 4 * width + pitch;
    var row := 0;
    var y := 0;
    while y < height
      invariant 0 <= y <= height
      invariant row == y * lineWidth
      invariant forall r, c :: 0 <= r < y && 0 <= c < width ==>
        out[base + Flipped(width, height, r, c)] == Reversed32(input, PixelStart(height, width, 4, pitch, r, c), rgb16)
      invariant forall k :: 0 <= k < out.Length && !(base + (height - y) * width <= k < base + width * height) ==>
        out[k] == old(out[k])
    {
      FlippedRowsAbove(width, height, y);
      RowBack(width, height, y);
      Reversed32FlipRow(input, out, width, height, pitch, rgb16, base, y, row);
      row := row + lineWidth;
      NextRow(y, lineWidth);
      y := y + 1;
    }
  }

  /** One row of either 32-bit flip routine, into an image starting at
      `base`. */
  method Reversed32FlipRow(input: seq<bv8>, out: array<bv16>, width: nat, height: nat, pitch: nat,
                           rgb16: (bv8, bv8, bv8) -> bv16, base: nat, y: nat, row: nat)
    requires |input| >= Span(height, 4 * width, pitch)
    requires out.Length >= base + width * height
    requires y < height && row == y * (4 * width + pitch)
    modifies out
    ensures forall c :: 0 <= c < width ==>
      out[base + Flipped(width, height, y, c)] == Reversed32(input, PixelStart(height, width, 4, pitch, y, c), rgb16)
    ensures forall k :: 0 <= k < out.Length && !(base + (height - 1 - y) * width <= k < base + (height - y) * width) ==>
      out[k] == old(out[k])
  {
    assert width > 0 ==> row + 4 * width <= |input| by {
      if width > 0 { var _ := PixelStart(height, width, 4, pitch, y, width - 1); }
    }
    FlipRow(out, width, height, base, y, (c: nat) requires c < width => Reversed32(input, row + 4 * c, rgb16));
    forall c | 0 <= c < width
      ensures out[base + Flipped(width, height, y, c)] == Reversed32(input, PixelStart(height, width, 4, pitch, y, c), rgb16)
    {
      assert row + 4 * c == PixelStart(height, width, 4, pitch, y, c);
    }
  }

  /** The three destination bytes at `o` hold the three source bytes at `p`
      in reverse order. */
  ghost predicate ReversedTriple(out: array<bv8>, o: nat, input: seq<bv8>, p: nat)
    requires o + 3 <= out.Length && p + 3 <= |input|
    reads out
  {
    out[o] == input[p + 2] && out[o + 1] == input[p + 1] && out[o + 2] == input[p]
  }

  /** Copies a 24-bit image to a 24-bit destination, flipping it vertically
      and reversing the three bytes of every pixel. */
  method Convert24BitTo24BitFlipMirrorColorShuffle(input: seq<bv8>, out: array<bv8>, width: nat, height: nat, pitch: nat)
    requires |input| >= Span(height, 3 * width, pitch)
    requires out.Length >= 3 * (width * height)
    modifies out
    ensures forall r, c :: 0 <= r < height && 0 <= c < width ==>
      ReversedTriple(out, 3 * Flipped(width, height, r, c), input, PixelStart(height, width, 3, pitch, r, c))
    ensures forall k :: 3 * (width * height) <= k < out.Length ==> out[k] == old(out[k])
  {
    var lineWidth := 3 * width + pitch;
    var row := 0;
    var y := 0;
    while y < height
      invariant 0 <= y <= height
      invariant row == y * lineWidth
      invariant forall r, c :: 0 <= r < y && 0 <= c < width ==>
        ReversedTriple(out, 3 * Flipped(width, height, r, c), input, PixelStart(height, width, 3, pitch, r, c))
      invariant forall k :: 0 <= k < out.Length && !(3 * ((height - y) * width) <= k < 3 * (width * height)) ==>
        out[k] == old(out[k])
    {
      FlippedRowsAbove(width, height, y);
      RowBack(width, height, y);
      ByteFlipRow(input, out, width, height, pitch, y, row);
      row := row + lineWidth;
      NextRow(y, lineWidth);
      y := y + 1;
    }
  }

  /** One row of Convert24BitTo24BitFlipMirrorColorShuffle: the destination
      pointer steps back three bytes per pixel. */
  method ByteFlipRow(input: seq<bv8>, out: array<bv8>, width: nat, height: nat, pitch: nat, y: nat, row: nat)
    requires |input| >= Span(height, 3 * width, pitch)
    requires out.Length >= 3 * (width * height)
    requires y < height && row == y * (3 * width + pitch)
    modifies out
    ensures forall c :: 0 <= c < width ==>
      ReversedTriple(out, 3 * Flipped(width, height, y, c), input, PixelStart(height, width, 3, pitch, y, c))
    ensures forall k :: 0 <= k < out.Length && !(3 * ((height - 1 - y) * width) <= k < 3 * ((height - y) * width)) ==>
      out[k] == old(out[k])
  {
    RowBack(width, height, y);
    MulLeft(height - y, height, width);
    var e := 3 * ((height - y) * width);
    var x := 0;
    while x < width
      invariant 0 <= x <= width
      invariant forall c :: width - x <= c < width ==>
        ReversedTriple(out, 3 * Flipped(width, height, y, c), input, PixelStart(height, width, 3, pitch, y, c))
      invariant forall k :: 0 <= k < out.Length && !(e - 3 * x <= k < e) ==> out[k] == old(out[k])
    {
      var p := PixelStart(height, width, 3, pitch, y, width - x - 1);
      var o := e - 3 * x - 3;
      assert o == 3 * Flipped(width, height, y, width - x - 1);
      out[o] := input[p + 2];
      out[o + 1] := input[p + 1];
      out[o + 2] := input[p];
      x := x + 1;
    }
  }

  /** Copies a 32-bit image, flipping it vertically. The source is read as
      rows of exactly `width` pixels: `pitch` is not used. */
  method Convert32BitTo32BitFlipMirror(input: seq<bv32>, out: array<bv32>, width: nat, height: nat, pitch: nat)
    requires |input| >= width * height
    requires out.Length >= width * height
    modifies out
    ensures forall r, c :: 0 <= r < height && 0 <= c < width ==>
      out[Flipped(width, height, r, c)] == input[RowMajor(width, height, r, c)]
    ensures forall k :: width * height <= k < out.Length ==> out[k] == old(out[k])
  {
    var lineWidth := width;
    var row := 0;
    var y := 0;
    while y < height
      invariant 0 <= y <= height
      invariant row == y * lineWidth
      invariant forall r, c :: 0 <= r < y && 0 <= c < width ==>
        out[Flipped(width, height, r, c)] == input[RowMajor(width, height, r, c)]
      invariant forall k :: 0 <= k < out.Length && !((height - y) * width <= k < width * height) ==>
        out[k] == old(out[k])
    {
      FlippedRowsAbove(width, height, y);
      RowBack(width, height, y);
      Copy32FlipRow(input, out, width, height, y, row);
      row := row + lineWidth;
      NextRow(y, lineWidth);
      y := y + 1;
    }
  }

  /** One row of Convert32BitTo32BitFlipMirror. */
  method Copy32FlipRow(input: seq<bv32>, out: array<bv32>, width: nat, height: nat, y: nat, row: nat)
    requires |input| >= width * height
    requires out.Length >= width * height
    requires y < height && row == y * width
    modifies out
    ensures forall c :: 0 <= c < width ==> out[Flipped(width, height, y, c)] == input[RowMajor(width, height, y, c)]
    ensures forall k :: 0 <= k < out.Length && !((height - 1 - y) * width <= k < (height - y) * width) ==>
      out[k] == old(out[k])
  {
    MulLeft(y + 1, height, width);
    FlipRow(out, width, height, 0, y, (c: nat) requires c < width => input[row + c]);
  }

  /** With padding, every row after the first is read `pitch` bytes past
      its start by Convert8BitTo16Bit. */
  lemma SkewedRowsLate(h: nat, w: nat, pitch: nat, r: nat, c: nat)
    requires 1 <= r < h && c < w
    ensures SkewedRowUnit(h, w, pitch, r, c) == RowUnit(h, w, pitch, r, c) + pitch
  {
  }

  /** A two-row image one pixel wide with one byte of padding: the second
      pixel is read from offset 3, the padding after it, instead of 2. */
  lemma SkewedReadExample()
    ensures SkewedRowUnit(2, 1, 1, 1, 0) == 3
    ensures RowUnit(2, 1, 1, 1, 0) == 2
  {
  }

  /** With any padding, convert32BitTo16BitFlipMirrorColorShuffle as
      written stores the last pixel of the first source row past the end of
      a width * height destination. */
  lemma ShiftedPastImage(w: nat, h: nat, pitch: nat)
    requires w > 0 && h > 0 && pitch > 0
    ensures ShiftedFlipped(w, h, pitch, 0, w - 1) >= w * h
  {
    MulLeft(1, h, pitch);
    RowBack(w, h, 0);
  }

  /** Cell k of a row-major image is written by no other (row, column). */
  lemma OtherCells(w: nat, h: nat, r: nat, c: nat)
    requires r < h && c < w
    ensures forall r2, c2 :: 0 <= r2 < h && 0 <= c2 < w && (r2 != r || c2 != c) ==>
      RowMajor(w, h, r2, c2) != RowMajor(w, h, r, c)
  {
    forall r2, c2 | 0 <= r2 < h && 0 <= c2 < w && (r2 != r || c2 != c)
      ensures RowMajor(w, h, r2, c2) != RowMajor(w, h, r, c)
    {
      if r2 < r {
        RowsApart(w, h, r2, c2, r, c);
      } else if r < r2 {
        RowsApart(w, h, r, c, r2, c2);
      }
    }
  }

  /** Source row (or column) sampled for destination row `i` when `n`
      source rows are stretched over `m` destination rows: floor(i * n / m),
      the integer part of i steps of n / m. */
  function ScaledIndex(i: nat, n: nat, m: nat): (s: nat)
    requires i < m && n > 0
    ensures s < n
  {
    ScaledBelow(i, n, m);
    i * n / m
  }

  lemma ScaledBelow(i: nat, n: nat, m: nat)
    requires i < m && n > 0
    ensures i * n / m < n
  {
    MulLeft(i + 1, m, n);
    var q := i * n / m;
    assert q * m <= i * n;
    if q >= n {
      MulLeft(n, q, m);
      assert false;
    }
  }

  /** Destination row order is kept: a later destination row samples the
      same or a later source row. */
  lemma ScaledIndexMonotone(i: nat, j: nat, n: nat, m: nat)
    requires i <= j < m && n > 0
    ensures ScaledIndex(i, n, m) <= ScaledIndex(j, n, m)
  {
    MulLeft(i, j, n);
    var q := i * n / m;
    assert q * m <= i * n;
    DivLowerBound(q, j * n, m);
  }

  /** Whole multiples of `m` below `c` stay below c / m. */
  lemma DivLowerBound(a: nat, c: nat, m: nat)
    requires m > 0 && a * m <= c
    ensures a <= c / m
  {
    var q := c / m;
    assert c == q * m + c % m;
    if a > q {
      MulLeft(q + 1, a, m);
      assert false;
    }
  }

  /** Division by `m` recovers the quotient of b * m + f when f < m. */
  lemma DivExact(b: nat, f: nat, m: nat)
    requires f < m
    ensures (b * m + f) / m == b
  {
    var a := b * m + f;
    var q := a / m;
    assert a == q * m + a % m;
    if q > b {
      MulLeft(b + 1, q, m);
      assert false;
    } else if q < b {
      MulLeft(q + 1, b, m);
      assert false;
    }
  }

  /** Without scaling, every destination row samples its own source row. */
  lemma ScaledIndexSame(i: nat, n: nat)
    requires i < n
    ensures ScaledIndex(i, n, n) == i
  {
    DivExact(i, 0, n);
  }

  /** Offset of the source pixel convert16bitToA8R8G8B8andResize samples for
      destination pixel (r, c). */
  function ResizeSource(cw: nat, ch: nat, nw: nat, nh: nat, r: nat, c: nat): (k: nat)
    requires r < nh && c < nw && cw > 0 && ch > 0
    ensures k < cw * ch
  {
    RowMajor(cw, ch, ScaledIndex(r, ch, nh), ScaledIndex(c, cw, nw))
  }

  /** Resizing to the current size samples every pixel at its own place. */
  lemma ResizeSameSize(w: nat, h: nat, r: nat, c: nat)
    requires r < h && c < w
    ensures ResizeSource(w, h, w, h, r, c) == RowMajor(w, h, r, c)
  {
    ScaledIndexSame(r, h);
    ScaledIndexSame(c, w);
  }

  /** The A8R8G8B8 colour convert16bitToA8R8G8B8andResize makes of an
      A1R5G5B5 pixel: the alpha bit to bit 31, each 5-bit channel to the
      top of its byte. */
  function ExpandA1R5G5B5(t: bv16): (v: bv32)
    ensures v & 0x7f070707 == 0
  {
    var w := t as bv32;
    (((w >> 15) & 1) << 31) | (((w >> 10) & 0x1f) << 19) | (((w >> 5) & 0x1f) << 11) | ((w & 0x1f) << 3)
  }

  /** Takes the top bit of each channel byte back to A1R5G5B5. */
  function TruncateToA1R5G5B5(v: bv32): bv16
  {
    ((((v >> 31) & 1) << 15) | (((v >> 19) & 0x1f) << 10) | (((v >> 11) & 0x1f) << 5) | ((v >> 3) & 0x1f)) as bv16
  }

  /** Expansion loses nothing: truncating an expanded pixel gives it back. */
  lemma ExpandTruncate(t: bv16)
    ensures TruncateToA1R5G5B5(ExpandA1R5G5B5(t)) == t
  {
  }

  /** Resizes an A1R5G5B5 image of currentWidth x currentHeight to
      newWidth x newHeight while expanding it to A8R8G8B8, by sampling the
      nearest source pixel above and to the left. Does nothing when either
      new dimension is zero. */
  method Convert16BitToA8R8G8B8AndResize(input: seq<bv16>, out: array<bv32>, newWidth: nat, newHeight: nat,
                                         currentWidth: nat, currentHeight: nat)
    requires newWidth > 0 && newHeight > 0 ==>
      currentWidth > 0 && currentHeight > 0 && |input| >= currentWidth * currentHeight
    requires out.Length >= newWidth * newHeight
    modifies out
    ensures forall r, c :: 0 <= r < newHeight && 0 <= c < newWidth ==>
      out[RowMajor(newWidth, newHeight, r, c)] ==
        ExpandA1R5G5B5(input[ResizeSource(currentWidth, currentHeight, newWidth, newHeight, r, c)])
    ensures forall k :: newWidth * newHeight <= k < out.Length ==> out[k] == old(out[k])
  {
    if newWidth == 0 || newHeight == 0 {
      return;
    }
    var x := 0;
    while x < newWidth
      invariant 0 <= x <= newWidth
      invariant forall r, c :: 0 <= r < newHeight && 0 <= c < x ==>
        out[RowMajor(newWidth, newHeight, r, c)] ==
          ExpandA1R5G5B5(input[ResizeSource(currentWidth, currentHeight, newWidth, newHeight, r, c)])
      invariant forall r, c :: 0 <= r < newHeight && x <= c < newWidth ==>
        out[RowMajor(newWidth, newHeight, r, c)] == old(out[RowMajor(newWidth, newHeight, r, c)])
      invariant forall k :: newWidth * newHeight <= k < out.Length ==> out[k] == old(out[k])
    {
      ResizeColumn(input, out, newWidth, newHeight, currentWidth, currentHeight, x);
      x := x + 1;
    }
  }

  /** Fills destination column `x` of Convert16BitToA8R8G8B8AndResize top to
      bottom. The source's floating-point row position is kept exactly, as
      its numerator `syNum` over newHeight. */
  method ResizeColumn(input: seq<bv16>, out: array<bv32>, newWidth: nat, newHeight: nat,
                      currentWidth: nat, currentHeight: nat, x: nat)
    requires currentWidth > 0 && currentHeight > 0 && |input| >= currentWidth * currentHeight
    requires x < newWidth && out.Length >= newWidth * newHeight
    modifies out
    ensures forall r :: 0 <= r < newHeight ==>
      out[RowMajor(newWidth, newHeight, r, x)] ==
        ExpandA1R5G5B5(input[ResizeSource(currentWidth, currentHeight, newWidth, newHeight, r, x)])
    ensures forall r, c :: 0 <= r < newHeight && 0 <= c < newWidth && c != x ==>
      out[RowMajor(newWidth, newHeight, r, c)] == old(out[RowMajor(newWidth, newHeight, r, c)])
    ensures forall k :: newWidth * newHeight <= k < out.Length ==> out[k] == old(out[k])
  {
    var syNum := 0;
    var y := 0;
    while y < newHeight
      invariant 0 <= y <= newHeight
      invariant syNum == y * currentHeight
      invariant forall r :: 0 <= r < y ==>
        out[RowMajor(newWidth, newHeight, r, x)] ==
          ExpandA1R5G5B5(input[ResizeSource(currentWidth, currentHeight, newWidth, newHeight, r, x)])
      invariant forall r, c :: 0 <= r < newHeight && 0 <= c < newWidth && (c != x || y <= r) ==>
        out[RowMajor(newWidth, newHeight, r, c)] == old(out[RowMajor(newWidth, newHeight, r, c)])
      invariant forall k :: newWidth * newHeight <= k < out.Length ==> out[k] == old(out[k])
    {
      assert syNum / newHeight == ScaledIndex(y, currentHeight, newHeight);
      assert x * currentWidth / newWidth == ScaledIndex(x, currentWidth, newWidth);
      ghost var source := ResizeSource(currentWidth, currentHeight, newWidth, newHeight, y, x);
      assert (syNum / newHeight) * currentWidth + x * currentWidth / newWidth == source;
      var t := input[(syNum / newHeight) * currentWidth + x * currentWidth / newWidth];
      var k := y * newWidth + x;
      assert k == RowMajor(newWidth, newHeight, y, x);
      OtherCells(newWidth, newHeight, y, x);
      out[k] := ExpandA1R5G5B5(t);
      syNum := syNum + currentHeight;
      NextRow(y, currentHeight);
      y := y + 1;
    }
  }
}
