/** The span converters of the colour converter: each turns `n` pixels of one
    colour format into `n` pixels of another, reading and writing through
    typed pointers. 16- and 32-bit pixels are sequences of bv16 and bv32;
    byte-addressed formats are sequences of bv8. Where a 32-bit pixel is
    later read as bytes, memory is little-endian (see LittleEndian). */
module SpanConverter {

  // ---------------------------------------------------------------------
  // Pixel formulas

  /** Byte `j` of an R8G8B8 pixel made from A1R5G5B5 `v`: byte 0 blue,
      1 green, 2 red, each 5-bit channel moved to the top of its byte. */
  function A1R5G5B5Byte(v: bv16, j: nat): bv8
    requires j < 3
  {
    if j == 0 then ((v & 0x1f) << 3) as bv8
    else if j == 1 then (((v >> 5) & 0x1f) << 3) as bv8
    else (((v >> 10) & 0x1f) << 3) as bv8
  }

  /** Byte `j` of an R8G8B8 pixel made from R5G6B5 `v`: byte 0 blue,
      1 green (6 bits), 2 red. */
  function R5G6B5Byte(v: bv16, j: nat): bv8
    requires j < 3
  {
    if j == 0 then ((v & 0x1f) << 3) as bv8
    else if j == 1 then (((v >> 5) & 0x3f) << 2) as bv8
    else (((v >> 11) & 0x1f) << 3) as bv8
  }

  /** The R5G6B5 pixel packed from the top 5, 6 and 5 bits of red, green
      and blue. */
  function PackR5G6B5(r: bv8, g: bv8, b: bv8): bv16
  {
    ((r >> 3) as bv16 << 11) | ((g >> 2) as bv16 << 5) | (b >> 3) as bv16
  }

  /** The A1R5G5B5 pixel packed, opaque, from the top 5 bits of red, green
      and blue. */
  function PackA1R5G5B5(r: bv8, g: bv8, b: bv8): bv16
  {
    0x8000 | ((r >> 3) as bv16 << 10) | ((g >> 3) as bv16 << 5) | (b >> 3) as bv16
  }

  /** The opaque A8R8G8B8 pixel holding red, green and blue. */
  function PackA8R8G8B8(r: bv8, g: bv8, b: bv8): bv32
  {
    0xff000000 | (r as bv32 << 16) | (g as bv32 << 8) | b as bv32
  }

  /** Byte `j` of a 32-bit value in little-endian memory order. */
  function ByteOf(v: bv32, j: nat): bv8
    requires j < 4
  {
    if j == 0 then (v & 0xff) as bv8
    else if j == 1 then ((v >> 8) & 0xff) as bv8
    else if j == 2 then ((v >> 16) & 0xff) as bv8
    else (v >> 24) as bv8
  }

  /** 32-bit pixels seen as the bytes they occupy in little-endian memory. */
  function LittleEndian(d: seq<bv32>): (b: seq<bv8>)
    ensures |b| == 4 * |d|
  {
    seq(4 * |d|, k requires 0 <= k < 4 * |d| => ByteOf(d[k / 4], k % 4))
  }

  // ---------------------------------------------------------------------
  // Span specifications

  /** convert_A1R5G5B5toR8G8B8 on `n` pixels: three bytes per pixel. */
  function A1R5G5B5ToR8G8B8(s: seq<bv16>, n: nat): (d: seq<bv8>)
    requires |s| >= n
    ensures |d| == 3 * n
  {
    seq(3 * n, k requires 0 <= k < 3 * n => A1R5G5B5Byte(s[k / 3], k % 3))
  }

  /** convert_A8R8G8B8toR8G8B8 on `n` pixels: the first three bytes of
      every four, the alpha byte dropped. */
  function A8R8G8B8ToR8G8B8(s: seq<bv8>, n: nat): (d: seq<bv8>)
    requires |s| >= 4 * n
    ensures |d| == 3 * n
  {
    seq(3 * n, k requires 0 <= k < 3 * n => s[4 * (k / 3) + k % 3])
  }

  /** convert_A8R8G8B8toR5G6B5 on `n` pixels. */
  function A8R8G8B8ToR5G6B5(s: seq<bv8>, n: nat): (d: seq<bv16>)
    requires |s| >= 4 * n
    ensures |d| == n
  {
    seq(n, i requires 0 <= i < n => PackR5G6B5(s[4 * i + 2], s[4 * i + 1], s[4 * i]))
  }

  /** convert_R8G8B8toA8R8G8B8 on `n` pixels. */
  function R8G8B8ToA8R8G8B8(s: seq<bv8>, n: nat): (d: seq<bv32>)
    requires |s| >= 3 * n
    ensures |d| == n
  {
    seq(n, i requires 0 <= i < n => PackA8R8G8B8(s[3 * i + 2], s[3 * i + 1], s[3 * i]))
  }

  /** convert_R8G8B8toA1R5G5B5 on `n` pixels. */
  function R8G8B8ToA1R5G5B5(s: seq<bv8>, n: nat): (d: seq<bv16>)
    requires |s| >= 3 * n
    ensures |d| == n
  {
    seq(n, i requires 0 <= i < n => PackA1R5G5B5(s[3 * i + 2], s[3 * i + 1], s[3 * i]))
  }

  /** convert_R8G8B8toR5G6B5 on `n` pixels. */
  function R8G8B8ToR5G6B5(s: seq<bv8>, n: nat): (d: seq<bv16>)
    requires |s| >= 3 * n
    ensures |d| == n
  {
    seq(n, i requires 0 <= i < n => PackR5G6B5(s[3 * i + 2], s[3 * i + 1], s[3 * i]))
  }

  /** R5G6B5 to R8G8B8 on `n` pixels, reading consecutive source pixels. */
  function R5G6B5ToR8G8B8(s: seq<bv16>, n: nat): (d: seq<bv8>)
    requires |s| >= n
    ensures |d| == 3 * n
  {
    seq(3 * n, k requires 0 <= k < 3 * n => R5G6B5Byte(s[k / 3], k % 3))
  }

  /** Source pixels convert_R5G6B5toR8G8B8 as written needs: it steps its
      16-bit source pointer by 4, so pixel i is read from source pixel 4i. */
  function StridedLength(n: nat): nat
  {
    if n == 0 then 0 else 4 * (n - 1) + 1
  }

  /** convert_R5G6B5toR8G8B8 as written on `n` pixels. */
  function R5G6B5ToR8G8B8Strided(s: seq<bv16>, n: nat): (d: seq<bv8>)
    requires |s| >= StridedLength(n)
    ensures |d| == 3 * n
  {
    seq(3 * n, k requires 0 <= k < 3 * n => R5G6B5Byte(s[4 * (k / 3)], k % 3))
  }

  /** A conversion done by an external per-pixel helper, on `n` pixels. */
  function MapPixels<S, T>(s: seq<S>, n: nat, f: S -> T): (d: seq<T>)
    requires |s| >= n
    ensures |d| == n
  {
    seq(n, i requires 0 <= i < n => f(s[i]))
  }

  // ---------------------------------------------------------------------
  // The converters

  /** convert_A1R5G5B5toR8G8B8. */
  method ConvertA1R5G5B5ToR8G8B8(sP: seq<bv16>, sN: nat, dP: array<bv8>)
    requires |sP| >= sN && dP.Length >= 3 * sN
    modifies dP
    ensures dP[..3 * sN] == A1R5G5B5ToR8G8B8(sP, sN)
    ensures dP[3 * sN..] == old(dP[3 * sN..])
  {
    var sB := 0;
    var dB := 0;
    for x := 0 to sN
      invariant sB == x && dB == 3 * x
      invariant forall k :: 0 <= k < dB ==> dP[k] == A1R5G5B5ToR8G8B8(sP, sN)[k]
      invariant forall k :: dB <= k < dP.Length ==> dP[k] == old(dP[k])
    {
      dP[dB + 2] := A1R5G5B5Byte(sP[sB], 2);
      dP[dB + 1] := A1R5G5B5Byte(sP[sB], 1);
      dP[dB] := A1R5G5B5Byte(sP[sB], 0);
      sB := sB + 1;
      dB := dB + 3;
    }
  }

  /** Applies an external per-pixel helper to `sN` pixels, as the routines
      built on the colour helpers do. */
  method MapSpan<S, T>(sP: seq<S>, sN: nat, dP: array<T>, f: S -> T)
    requires |sP| >= sN && dP.Length >= sN
    modifies dP
    ensures dP[..sN] == MapPixels(sP, sN, f)
    ensures dP[sN..] == old(dP[sN..])
  {
    for x := 0 to sN
      invariant forall k :: 0 <= k < x ==> dP[k] == f(sP[k])
      invariant forall k :: x <= k < dP.Length ==> dP[k] == old(dP[k])
    {
      dP[x] := f(sP[x]);
    }
  }

  /** The memcpy of the same-format routines: `count` bytes copied as they
      are. */
  method CopyBytes(sP: seq<bv8>, count: nat, dP: array<bv8>)
    requires |sP| >= count && dP.Length >= count
    modifies dP
    ensures dP[..count] == sP[..count]
    ensures dP[count..] == old(dP[count..])
  {
    forall k | 0 <= k < count {
      dP[k] := sP[k];
    }
  }

  /** convert_A1R5G5B5toA8R8G8B8, by the A1R5G5B5toA8R8G8B8 colour helper. */
  method ConvertA1R5G5B5ToA8R8G8B8(sP: seq<bv16>, sN: nat, dP: array<bv32>, a1r5g5b5ToA8r8g8b8: bv16 -> bv32)
    requires |sP| >= sN && dP.Length >= sN
    modifies dP
    ensures dP[..sN] == MapPixels(sP, sN, a1r5g5b5ToA8r8g8b8)
    ensures dP[sN..] == old(dP[sN..])
  {
    MapSpan(sP, sN, dP, a1r5g5b5ToA8r8g8b8);
  }

  /** convert_A1R5G5B5toA1R5G5B5: copies 2 * sN bytes. */
  method ConvertA1R5G5B5ToA1R5G5B5(sP: seq<bv8>, sN: nat, dP: array<bv8>)
    requires |sP| >= 2 * sN && dP.Length >= 2 * sN
    modifies dP
    ensures dP[..2 * sN] == sP[..2 * sN]
    ensures dP[2 * sN..] == old(dP[2 * sN..])
  {
    CopyBytes(sP, sN * 2, dP);
  }

  /** convert_A1R5G5B5toR5G6B5, by the A1R5G5B5toR5G6B5 colour helper. */
  method ConvertA1R5G5B5ToR5G6B5(sP: seq<bv16>, sN: nat, dP: array<bv16>, a1r5g5b5ToR5g6b5: bv16 -> bv16)
    requires |sP| >= sN && dP.Length >= sN
    modifies dP
    ensures dP[..sN] == MapPixels(sP, sN, a1r5g5b5ToR5g6b5)
    ensures dP[sN..] == old(dP[sN..])
  {
    MapSpan(sP, sN, dP, a1r5g5b5ToR5g6b5);
  }

  /** convert_A8R8G8B8toR8G8B8: keeps bytes 0..2 of every four. */
  method ConvertA8R8G8B8ToR8G8B8(sP: seq<bv8>, sN: nat, dP: array<bv8>)
    requires |sP| >= 4 * sN && dP.Length >= 3 * sN
    modifies dP
    ensures dP[..3 * sN] == A8R8G8B8ToR8G8B8(sP, sN)
    ensures dP[3 * sN..] == old(dP[3 * sN..])
  {
    var sB := 0;
    var dB := 0;
    for x := 0 to sN
      invariant sB == 4 * x && dB == 3 * x
      invariant forall k :: 0 <= k < dB ==> dP[k] == A8R8G8B8ToR8G8B8(sP, sN)[k]
      invariant forall k :: dB <= k < dP.Length ==> dP[k] == old(dP[k])
    {
      dP[dB] := sP[sB];
      dP[dB + 1] := sP[sB + 1];
      dP[dB + 2] := sP[sB + 2];
      sB := sB + 4;
      dB := dB + 3;
    }
  }

  /** convert_A8R8G8B8toA8R8G8B8: copies 4 * sN bytes. */
  method ConvertA8R8G8B8ToA8R8G8B8(sP: seq<bv8>, sN: nat, dP: array<bv8>)
    requires |sP| >= 4 * sN && dP.Length >= 4 * sN
    modifies dP
    ensures dP[..4 * sN] == sP[..4 * sN]
    ensures dP[4 * sN..] == old(dP[4 * sN..])
  {
    CopyBytes(sP, sN * 4, dP);
  }

  /** convert_A8R8G8B8toA1R5G5B5, by the A8R8G8B8toA1R5G5B5 colour helper. */
  method ConvertA8R8G8B8ToA1R5G5B5(sP: seq<bv32>, sN: nat, dP: array<bv16>, a8r8g8b8ToA1r5g5b5: bv32 -> bv16)
    requires |sP| >= sN && dP.Length >= sN
    modifies dP
    ensures dP[..sN] == MapPixels(sP, sN, a8r8g8b8ToA1r5g5b5)
    ensures dP[sN..] == old(dP[sN..])
  {
    MapSpan(sP, sN, dP, a8r8g8b8ToA1r5g5b5);
  }

  /** convert_A8R8G8B8toR5G6B5. */
  method ConvertA8R8G8B8ToR5G6B5(sP: seq<bv8>, sN: nat, dP: array<bv16>)
    requires |sP| >= 4 * sN && dP.Length >= sN
    modifies dP
    ensures dP[..sN] == A8R8G8B8ToR5G6B5(sP, sN)
    ensures dP[sN..] == old(dP[sN..])
  {
    var sB := 0;
    for x := 0 to sN
      invariant sB == 4 * x
      invariant forall k :: 0 <= k < x ==> dP[k] == A8R8G8B8ToR5G6B5(sP, sN)[k]
      invariant forall k :: x <= k < dP.Length ==> dP[k] == old(dP[k])
    {
      dP[x] := PackR5G6B5(sP[sB + 2], sP[sB + 1], sP[sB]);
      sB := sB + 4;
    }
  }

  /** convert_R8G8B8toR8G8B8: copies 3 * sN bytes. */
  method ConvertR8G8B8ToR8G8B8(sP: seq<bv8>, sN: nat, dP: array<bv8>)
    requires |sP| >= 3 * sN && dP.Length >= 3 * sN
    modifies dP
    ensures dP[..3 * sN] == sP[..3 * sN]
    ensures dP[3 * sN..] == old(dP[3 * sN..])
  {
    CopyBytes(sP, sN * 3, dP);
  }

  /** convert_R8G8B8toA8R8G8B8: alpha set to 0xff. */
  method ConvertR8G8B8ToA8R8G8B8(sP: seq<bv8>, sN: nat, dP: array<bv32>)
    requires |sP| >= 3 * sN && dP.Length >= sN
    modifies dP
    ensures dP[..sN] == R8G8B8ToA8R8G8B8(sP, sN)
    ensures dP[sN..] == old(dP[sN..])
  {
    var sB := 0;
    for x := 0 to sN
      invariant sB == 3 * x
      invariant forall k :: 0 <= k < x ==> dP[k] == R8G8B8ToA8R8G8B8(sP, sN)[k]
      invariant forall k :: x <= k < dP.Length ==> dP[k] == old(dP[k])
    {
      dP[x] := PackA8R8G8B8(sP[sB + 2], sP[sB + 1], sP[sB]);
      sB := sB + 3;
    }
  }

  /** convert_R8G8B8toA1R5G5B5: alpha bit set. */
  method ConvertR8G8B8ToA1R5G5B5(sP: seq<bv8>, sN: nat, dP: array<bv16>)
    requires |sP| >= 3 * sN && dP.Length >= sN
    modifies dP
    ensures dP[..sN] == R8G8B8ToA1R5G5B5(sP, sN)
    ensures dP[sN..] == old(dP[sN..])
  {
    var sB := 0;
    for x := 0 to sN
      invariant sB == 3 * x
      invariant forall k :: 0 <= k < x ==> dP[k] == R8G8B8ToA1R5G5B5(sP, sN)[k]
      invariant forall k :: x <= k < dP.Length ==> dP[k] == old(dP[k])
    {
      dP[x] := PackA1R5G5B5(sP[sB + 2], sP[sB + 1], sP[sB]);
      sB := sB + 3;
    }
  }

  /** convert_R8G8B8toR5G6B5. */
  method ConvertR8G8B8ToR5G6B5(sP: seq<bv8>, sN: nat, dP: array<bv16>)
    requires |sP| >= 3 * sN && dP.Length >= sN
    modifies dP
    ensures dP[..sN] == R8G8B8ToR5G6B5(sP, sN)
    ensures dP[sN..] == old(dP[sN..])
  {
    var sB := 0;
    for x := 0 to sN
      invariant sB == 3 * x
      invariant forall k :: 0 <= k < x ==> dP[k] == R8G8B8ToR5G6B5(sP, sN)[k]
      invariant forall k :: x <= k < dP.Length ==> dP[k] == old(dP[k])
    {
      dP[x] := PackR5G6B5(sP[sB + 2], sP[sB + 1], sP[sB]);
      sB := sB + 3;
    }
  }

  /** convert_R5G6B5toR5G6B5: copies 2 * sN bytes. */
  method ConvertR5G6B5ToR5G6B5(sP: seq<bv8>, sN: nat, dP: array<bv8>)
    requires |sP| >= 2 * sN && dP.Length >= 2 * sN
    modifies dP
    ensures dP[..2 * sN] == sP[..2 * sN]
    ensures dP[2 * sN..] == old(dP[2 * sN..])
  {
    CopyBytes(sP, sN * 2, dP);
  }

  /** convert_R5G6B5toR8G8B8 as written: the 16-bit source pointer advances
      by 4 pixels per destination pixel. */
  method ConvertR5G6B5ToR8G8B8(sP: seq<bv16>, sN: nat, dP: array<bv8>)
    requires |sP| >= StridedLength(sN) && dP.Length >= 3 * sN
    modifies dP
    ensures dP[..3 * sN] == R5G6B5ToR8G8B8Strided(sP, sN)
    ensures dP[3 * sN..] == old(dP[3 * sN..])
  {
    var sB := 0;
    var dB := 0;
    for x := 0 to sN
      invariant sB == 4 * x && dB == 3 * x
      invariant forall k :: 0 <= k < dB ==> dP[k] == R5G6B5ToR8G8B8Strided(sP, sN)[k]
      invariant forall k :: dB <= k < dP.Length ==> dP[k] == old(dP[k])
    {
      dP[dB + 2] := R5G6B5Byte(sP[sB], 2);
      dP[dB + 1] := R5G6B5Byte(sP[sB], 1);
      dP[dB] := R5G6B5Byte(sP[sB], 0);
      sB := sB + 4;
      dB := dB + 3;
    }
  }

  /** convert_R5G6B5toR8G8B8 as evidently intended: one source pixel per
      destination pixel. */
  method ConvertR5G6B5ToR8G8B8Corrected(sP: seq<bv16>, sN: nat, dP: array<bv8>)
    requires |sP| >= sN && dP.Length >= 3 * sN
    modifies dP
    ensures dP[..3 * sN] == R5G6B5ToR8G8B8(sP, sN)
    ensures dP[3 * sN..] == old(dP[3 * sN..])
  {
    var sB := 0;
    var dB := 0;
    for x := 0 to sN
      invariant sB == x && dB == 3 * x
      invariant forall k :: 0 <= k < dB ==> dP[k] == R5G6B5ToR8G8B8(sP, sN)[k]
      invariant forall k :: dB <= k < dP.Length ==> dP[k] == old(dP[k])
    {
      dP[dB + 2] := R5G6B5Byte(sP[sB], 2);
      dP[dB + 1] := R5G6B5Byte(sP[sB], 1);
      dP[dB] := R5G6B5Byte(sP[sB], 0);
      sB := sB + 1;
      dB := dB + 3;
    }
  }

  /** convert_R5G6B5toA8R8G8B8, by the R5G6B5toA8R8G8B8 colour helper. */
  method ConvertR5G6B5ToA8R8G8B8(sP: seq<bv16>, sN: nat, dP: array<bv32>, r5g6b5ToA8r8g8b8: bv16 -> bv32)
    requires |sP| >= sN && dP.Length >= sN
    modifies dP
    ensures dP[..sN] == MapPixels(sP, sN, r5g6b5ToA8r8g8b8)
    ensures dP[sN..] == old(dP[sN..])
  {
    MapSpan(sP, sN, dP, r5g6b5ToA8r8g8b8);
  }

  /** convert_R5G6B5toA1R5G5B5, by the R5G6B5toA1R5G5B5 colour helper. */
  method ConvertR5G6B5ToA1R5G5B5(sP: seq<bv16>, sN: nat, dP: array<bv16>, r5g6b5ToA1r5g5b5: bv16 -> bv16)
    requires |sP| >= sN && dP.Length >= sN
    modifies dP
    ensures dP[..sN] == MapPixels(sP, sN, r5g6b5ToA1r5g5b5)
    ensures dP[sN..] == old(dP[sN..])
  {
    MapSpan(sP, sN, dP, r5g6b5ToA1r5g5b5);
  }

  // ---------------------------------------------------------------------
  // Properties

  /** R8G8B8 to A8R8G8B8 makes every pixel opaque. */
  lemma R8G8B8ToA8R8G8B8Opaque(s: seq<bv8>, n: nat, i: nat)
    requires |s| >= 3 * n && i < n
    ensures R8G8B8ToA8R8G8B8(s, n)[i] >> 24 == 0xff
  {
  }

  /** Reading the A8R8G8B8 pixels made from R8G8B8 pixels back as bytes,
      through A8R8G8B8 to R8G8B8, returns the original bytes. */
  lemma R8G8B8RoundTrip(s: seq<bv8>, n: nat)
    requires |s| >= 3 * n
    ensures A8R8G8B8ToR8G8B8(LittleEndian(R8G8B8ToA8R8G8B8(s, n)), n) == s[..3 * n]
  {
    var back := A8R8G8B8ToR8G8B8(LittleEndian(R8G8B8ToA8R8G8B8(s, n)), n);
    forall k | 0 <= k < 3 * n
      ensures back[k] == s[k]
    {
      Thirds(k);
      R8G8B8RoundTripByte(s, n, k / 3, k % 3);
    }
  }

  /** Byte j of pixel i survives the round trip through A8R8G8B8. */
  lemma R8G8B8RoundTripByte(s: seq<bv8>, n: nat, i: nat, j: nat)
    requires |s| >= 3 * n && i < n && j < 3
    ensures A8R8G8B8ToR8G8B8(LittleEndian(R8G8B8ToA8R8G8B8(s, n)), n)[3 * i + j] == s[3 * i + j]
  {
    var wide := R8G8B8ToA8R8G8B8(s, n);
    ThirdOf(i, j);
    QuarterOf(i, j);
    assert A8R8G8B8ToR8G8B8(LittleEndian(wide), n)[3 * i + j] == LittleEndian(wide)[4 * i + j];
    assert LittleEndian(wide)[4 * i + j] == ByteOf(wide[i], j);
    PackedBytes(s[3 * i + 2], s[3 * i + 1], s[3 * i]);
  }

  /** Index 3i + j of a three-bytes-per-pixel span is byte j of pixel i. */
  lemma ThirdOf(i: nat, j: nat)
    requires j < 3
    ensures (3 * i + j) / 3 == i && (3 * i + j) % 3 == j
  {
  }

  /** Index 4i + j of a four-bytes-per-pixel span is byte j of pixel i. */
  lemma QuarterOf(i: nat, j: nat)
    requires j < 4
    ensures (4 * i + j) / 4 == i && (4 * i + j) % 4 == j
  {
  }

  /** Every index of a three-bytes-per-pixel span splits into a pixel and
      a byte. */
  lemma Thirds(k: nat)
    ensures k == 3 * (k / 3) + k % 3 && k % 3 < 3
  {
  }

  /** The little-endian bytes of an opaque A8R8G8B8 pixel: blue, green,
      red, then 0xff. */
  lemma PackedBytes(r: bv8, g: bv8, b: bv8)
    ensures ByteOf(PackA8R8G8B8(r, g, b), 0) == b
    ensures ByteOf(PackA8R8G8B8(r, g, b), 1) == g
    ensures ByteOf(PackA8R8G8B8(r, g, b), 2) == r
    ensures ByteOf(PackA8R8G8B8(r, g, b), 3) == 0xff
  {
  }

  /** Expanding an R5G6B5 pixel to bytes and packing it again loses
      nothing. */
  lemma R5G6B5ExpandPack(v: bv16)
    ensures PackR5G6B5(R5G6B5Byte(v, 2), R5G6B5Byte(v, 1), R5G6B5Byte(v, 0)) == v
  {
  }

  /** Packing bytes to R5G6B5 and expanding them again clears the low 3, 2
      and 3 bits of red, green and blue. */
  lemma R5G6B5PackExpand(r: bv8, g: bv8, b: bv8)
    ensures R5G6B5Byte(PackR5G6B5(r, g, b), 2) == r & 0xf8
    ensures R5G6B5Byte(PackR5G6B5(r, g, b), 1) == g & 0xfc
    ensures R5G6B5Byte(PackR5G6B5(r, g, b), 0) == b & 0xf8
  {
  }

  /** The bits of byte `j` of an R8G8B8 pixel that survive R5G6B5. */
  function R5G6B5Mask(j: nat): bv8
    requires j < 3
  {
    if j == 1 then 0xfc else 0xf8
  }

  /** R8G8B8 through R5G6B5 and back through the one-pixel-step reading
      that ConvertR5G6B5ToR8G8B8Corrected implements; the routine as
      written agrees with it on one pixel (StridedRoundTripOnePixel). */
  function R5G6B5RoundTrip(s: seq<bv8>, n: nat): (d: seq<bv8>)
    requires |s| >= 3 * n
    ensures |d| == 3 * n
  {
    R5G6B5ToR8G8B8(R8G8B8ToR5G6B5(s, n), n)
  }

  /** The round trip through R5G6B5 clears exactly the low bits each
      channel loses. */
  lemma R5G6B5RoundTripTruncates(s: seq<bv8>, n: nat)
    requires |s| >= 3 * n
    ensures forall k :: 0 <= k < 3 * n ==> R5G6B5RoundTrip(s, n)[k] == s[k] & R5G6B5Mask(k % 3)
  {
    forall k | 0 <= k < 3 * n
      ensures R5G6B5RoundTrip(s, n)[k] == s[k] & R5G6B5Mask(k % 3)
    {
      Thirds(k);
      R5G6B5RoundTripByte(s, n, k / 3, k % 3);
    }
  }

  /** Byte j of pixel i keeps only the bits R5G6B5 holds. */
  lemma R5G6B5RoundTripByte(s: seq<bv8>, n: nat, i: nat, j: nat)
    requires |s| >= 3 * n && i < n && j < 3
    ensures R5G6B5RoundTrip(s, n)[3 * i + j] == s[3 * i + j] & R5G6B5Mask(j)
  {
    var packed := R8G8B8ToR5G6B5(s, n);
    ThirdOf(i, j);
    assert R5G6B5RoundTrip(s, n)[3 * i + j] == R5G6B5Byte(packed[i], j);
    R5G6B5PackExpand(s[3 * i + 2], s[3 * i + 1], s[3 * i]);
  }

  /** A second round trip through R5G6B5 changes nothing. */
  lemma R5G6B5RoundTripIdempotent(s: seq<bv8>, n: nat)
    requires |s| >= 3 * n
    ensures R5G6B5RoundTrip(R5G6B5RoundTrip(s, n), n) == R5G6B5RoundTrip(s, n)
  {
    var once := R5G6B5RoundTrip(s, n);
    R5G6B5RoundTripTruncates(s, n);
    R5G6B5RoundTripTruncates(once, n);
    forall k | 0 <= k < 3 * n
      ensures R5G6B5RoundTrip(once, n)[k] == once[k]
    {
      MaskTwice(s[k], R5G6B5Mask(k % 3));
    }
  }

  lemma MaskTwice(b: bv8, m: bv8)
    ensures b & m & m == b & m
  {
  }

  /** A1R5G5B5 expanded to R8G8B8 and packed back to A1R5G5B5 keeps every
      colour bit and sets the alpha bit. */
  lemma A1R5G5B5RoundTrip(s: seq<bv16>, n: nat)
    requires |s| >= n
    ensures forall i :: 0 <= i < n ==> R8G8B8ToA1R5G5B5(A1R5G5B5ToR8G8B8(s, n), n)[i] == s[i] | 0x8000
  {
    forall i | 0 <= i < n
      ensures R8G8B8ToA1R5G5B5(A1R5G5B5ToR8G8B8(s, n), n)[i] == s[i] | 0x8000
    {
      var bytes := A1R5G5B5ToR8G8B8(s, n);
      A1R5G5B5ByteAt(s, n, i, 0);
      A1R5G5B5ByteAt(s, n, i, 1);
      A1R5G5B5ByteAt(s, n, i, 2);
      assert R8G8B8ToA1R5G5B5(bytes, n)[i] == PackA1R5G5B5(bytes[3 * i + 2], bytes[3 * i + 1], bytes[3 * i]);
      A1R5G5B5ExpandPack(s[i]);
    }
  }

  /** Byte j of pixel i of convert_A1R5G5B5toR8G8B8 comes from source pixel i. */
  lemma A1R5G5B5ByteAt(s: seq<bv16>, n: nat, i: nat, j: nat)
    requires |s| >= n && i < n && j < 3
    ensures A1R5G5B5ToR8G8B8(s, n)[3 * i + j] == A1R5G5B5Byte(s[i], j)
  {
    ThirdOf(i, j);
  }

  lemma A1R5G5B5ExpandPack(v: bv16)
    ensures PackA1R5G5B5(A1R5G5B5Byte(v, 2), A1R5G5B5Byte(v, 1), A1R5G5B5Byte(v, 0)) == v | 0x8000
  {
  }

  /** A8R8G8B8 to R5G6B5 equals dropping alpha first and packing the
      R8G8B8 result. */
  lemma A8R8G8B8ToR5G6B5ViaR8G8B8(s: seq<bv8>, n: nat)
    requires |s| >= 4 * n
    ensures R8G8B8ToR5G6B5(A8R8G8B8ToR8G8B8(s, n), n) == A8R8G8B8ToR5G6B5(s, n)
  {
    var bytes := A8R8G8B8ToR8G8B8(s, n);
    forall i | 0 <= i < n
      ensures R8G8B8ToR5G6B5(bytes, n)[i] == A8R8G8B8ToR5G6B5(s, n)[i]
    {
      DroppedAlphaAt(s, n, i, 0);
      DroppedAlphaAt(s, n, i, 1);
      DroppedAlphaAt(s, n, i, 2);
    }
  }

  /** Byte j of pixel i of convert_A8R8G8B8toR8G8B8 is byte j of source
      pixel i. */
  lemma DroppedAlphaAt(s: seq<bv8>, n: nat, i: nat, j: nat)
    requires |s| >= 4 * n && i < n && j < 3
    ensures A8R8G8B8ToR8G8B8(s, n)[3 * i + j] == s[4 * i + j]
  {
    ThirdOf(i, j);
  }

  /** With the pointer stepped by 4, destination pixel i of
      convert_R5G6B5toR8G8B8 is source pixel 4i, not i. */
  lemma StridedReadsEveryFourth(s: seq<bv16>, n: nat, i: nat, j: nat)
    requires |s| >= StridedLength(n) && i < n && j < 3
    ensures R5G6B5ToR8G8B8Strided(s, n)[3 * i + j] == R5G6B5Byte(s[4 * i], j)
  {
  }

  /** Two pixels, black then white: as written the second destination
      pixel comes from the fifth source pixel (black), where one pixel per
      step gives white. */
  lemma StridedExample()
    ensures R5G6B5ToR8G8B8Strided([0, 0xffff, 0, 0, 0], 2)[3..6] == [0, 0, 0]
    ensures R5G6B5ToR8G8B8([0, 0xffff, 0, 0, 0], 2)[3..6] == [0xf8, 0xfc, 0xf8]
  {
    var s: seq<bv16> := [0, 0xffff, 0, 0, 0];
    assert R5G6B5ToR8G8B8Strided(s, 2)[3] == R5G6B5Byte(s[4], 0);
    assert R5G6B5ToR8G8B8Strided(s, 2)[4] == R5G6B5Byte(s[4], 1);
    assert R5G6B5ToR8G8B8Strided(s, 2)[5] == R5G6B5Byte(s[4], 2);
    assert R5G6B5ToR8G8B8(s, 2)[3] == R5G6B5Byte(s[1], 0);
    assert R5G6B5ToR8G8B8(s, 2)[4] == R5G6B5Byte(s[1], 1);
    assert R5G6B5ToR8G8B8(s, 2)[5] == R5G6B5Byte(s[1], 2);
  }

  /** On a single pixel the stride never comes into play: the routine as
      written and the corrected one agree. */
  lemma StridedOnePixel(s: seq<bv16>)
    requires |s| >= 1
    ensures R5G6B5ToR8G8B8Strided(s, 1) == R5G6B5ToR8G8B8(s, 1)
  {
  }

  /** One R8G8B8 pixel through convert_R8G8B8toR5G6B5 and back through
      convert_R5G6B5toR8G8B8 as written keeps exactly the bits R5G6B5
      holds: the as-written routine satisfies the round trip for n == 1. */
  lemma StridedRoundTripOnePixel(s: seq<bv8>)
    requires |s| >= 3
    ensures forall k :: 0 <= k < 3 ==>
      R5G6B5ToR8G8B8Strided(R8G8B8ToR5G6B5(s, 1), 1)[k] == s[k] & R5G6B5Mask(k)
  {
    StridedOnePixel(R8G8B8ToR5G6B5(s, 1));
    R5G6B5RoundTripTruncates(s, 1);
    forall k | 0 <= k < 3
      ensures R5G6B5ToR8G8B8Strided(R8G8B8ToR5G6B5(s, 1), 1)[k] == s[k] & R5G6B5Mask(k)
    {
      assert k % 3 == k;
    }
  }
}
