/** Pixel formats: BGRx framebuffer pixels, their wire form (with the
    position-dependent ordered dither) and the byte layout of a rect. */
module Pixels {
  import opened Common
  import opened Wire

  /** One BGRx pixel read as a little-endian 32-bit word, 0xXXRRGGBB. */
  type Pixel = p: int | 0 <= p < 0x1_0000_0000

  datatype PixFmt = XRGB8888 | RGB565 {
    function Bytes(): (n: nat)
      ensures n > 0
    {
      if RGB565? then 2 else 4
    }
  }

  const BAYER: seq<seq<nat>> := [[0, 8, 2, 10], [12, 4, 14, 6], [3, 11, 1, 9], [15, 7, 13, 5]]

  function Red(p: Pixel): nat { (p / 65536) % 256 }
  function Green(p: Pixel): nat { (p / 256) % 256 }
  function Blue(p: Pixel): nat { p % 256 }

  function Pack565(r: nat, g: nat, b: nat): nat {
    (r / 8) * 2048 + (g / 4) * 32 + b / 8
  }

  /** The wire value of framebuffer pixel p at screen position (x, y). */
  function WirePixel(fmt: PixFmt, dither: bool, p: Pixel, x: nat, y: nat): nat {
    if fmt.XRGB8888? then p
    else if !dither then Pack565(Red(p), Green(p), Blue(p))
    else
      var t := BAYER[y % 4][x % 4];
      Pack565(Clamp(Red(p) + t / 2 - 4, 0, 255),
              Clamp(Green(p) + t / 4 - 2, 0, 255),
              Clamp(Blue(p) + t / 2 - 4, 0, 255))
  }

  // ------------------------------------------------ what a pixel looks like

  /** p is made of these bytes, 0xAARRGGBB. */
  predicate Argb(p: int, a: nat, r: nat, g: nat, b: nat) {
    a < 256 && r < 256 && g < 256 && b < 256 && p == a * 0x100_0000 + r * 0x1_0000 + g * 0x100 + b
  }

  predicate Near(f: int, c: int, below: nat, above: nat) { c - below <= f <= c + above }

  /** The three fields of v are the channels cut to five, six and five bits,
      red on top, off by no more than the cut and half a step of dither. */
  predicate Shows565(dither: bool, r: nat, g: nat, b: nat, v: nat) {
    && v < 0x1_0000
    && Near(8 * (v / 2048), r, if dither then 11 else 7, if dither then 3 else 0)
    && Near(4 * (v / 32 % 64), g, if dither then 5 else 3, if dither then 1 else 0)
    && Near(8 * (v % 32), b, if dither then 11 else 7, if dither then 3 else 0)
  }

  /** The wire value v shows pixel p: p itself, or its three channels. */
  ghost predicate Looks(fmt: PixFmt, dither: bool, p: Pixel, v: nat) {
    && (fmt.XRGB8888? ==> v == p)
    && (fmt.RGB565? ==> forall a: nat, r: nat, g: nat, b: nat | Argb(p, a, r, g, b) :: Shows565(dither, r, g, b, v))
  }

  lemma ArgbChannels(p: Pixel, a: nat, r: nat, g: nat, b: nat)
    requires Argb(p, a, r, g, b)
    ensures a == p / 0x100_0000 && r == Red(p) && g == Green(p) && b == Blue(p)
  {
    assert p / 65536 == a * 256 + r;
    assert p / 256 == a * 65536 + r * 256 + g;
  }

  /** A pixel is made of its bytes in one way only. */
  lemma SameChannels(p: Pixel, a: nat, r: nat, g: nat, b: nat, a': nat, r': nat, g': nat, b': nat)
    requires Argb(p, a, r, g, b) && Argb(p, a', r', g', b')
    ensures a == a' && r == r' && g == g' && b == b'
  {
    ArgbChannels(p, a, r, g, b);
    ArgbChannels(p, a', r', g', b');
  }

  /** The fields of a packed value read back. */
  lemma PackedFields(r: nat, g: nat, b: nat)
    requires r < 256 && g < 256 && b < 256
    ensures var v := Pack565(r, g, b);
            v < 0x1_0000 && v / 2048 == r / 8 && v / 32 % 64 == g / 4 && v % 32 == b / 8
  {
    var hi, mid, lo := r / 8, g / 4, b / 8;
    assert hi < 32 && mid < 64 && lo < 32;
    assert (hi * 2048 + mid * 32 + lo) / 32 == hi * 64 + mid;
  }

  lemma PackedLooks(r: nat, g: nat, b: nat)
    requires r < 256 && g < 256 && b < 256
    ensures Shows565(false, r, g, b, Pack565(r, g, b))
  {
    hide Pack565;
    PackedFields(r, g, b);
  }

  lemma DitheredLooks(r: nat, g: nat, b: nat, t: nat)
    requires r < 256 && g < 256 && b < 256 && t < 16
    ensures Shows565(true, r, g, b, Pack565(Clamp(r + t / 2 - 4, 0, 255), Clamp(g + t / 4 - 2, 0, 255),
                                            Clamp(b + t / 2 - 4, 0, 255)))
  {
    hide Pack565;
    PackedFields(Clamp(r + t / 2 - 4, 0, 255), Clamp(g + t / 4 - 2, 0, 255), Clamp(b + t / 2 - 4, 0, 255));
  }

  /** What goes out for a pixel looks like it. */
  lemma WirePixelLooks(fmt: PixFmt, dither: bool, p: Pixel, x: nat, y: nat)
    ensures Looks(fmt, dither, p, WirePixel(fmt, dither, p, x, y))
  {
    hide Pack565, Clamp, Shows565, Argb;
    var t := BAYER[y % 4][x % 4];
    PackedLooks(Red(p), Green(p), Blue(p));
    DitheredLooks(Red(p), Green(p), Blue(p), t);
    forall a: nat, r: nat, g: nat, b: nat | Argb(p, a, r, g, b)
      ensures r == Red(p) && g == Green(p) && b == Blue(p)
    {
      ArgbChannels(p, a, r, g, b);
    }
  }

  // ----------------------------------------------------- dithered colours

  /** Red, green and blue of a dithered wire pixel, in units of 8, 4 and 8. */
  function Dithered(p: Pixel, x: nat, y: nat): (f: (nat, nat, nat)) {
    var v := WirePixel(RGB565, true, p, x, y);
    (v / 2048, v / 32 % 64, v % 32)
  }

  function Plus(a: (nat, nat, nat), b: (nat, nat, nat)): (nat, nat, nat) { (a.0 + b.0, a.1 + b.1, a.2 + b.2) }

  function RowSum(p: Pixel, x: nat, y: nat): (nat, nat, nat) {
    Plus(Plus(Dithered(p, x, y), Dithered(p, x + 1, y)), Plus(Dithered(p, x + 2, y), Dithered(p, x + 3, y)))
  }

  /** Of the 4 by 4 block at (x, y), filled with p. */
  function BlockSum(p: Pixel, x: nat, y: nat): (nat, nat, nat) {
    Plus(Plus(RowSum(p, x, y), RowSum(p, x, y + 1)), Plus(RowSum(p, x, y + 2), RowSum(p, x, y + 3)))
  }

  /** No channel is so near to black or white that dithering cuts it. */
  predicate Midtone(p: Pixel) { 4 <= Red(p) <= 252 && 2 <= Green(p) <= 254 && 4 <= Blue(p) <= 252 }

  function Step5(c: nat, u: nat): nat
    requires c >= 4
  {
    (c - 4 + u) / 8
  }

  function Step6(c: nat, u: nat): nat
    requires c >= 2
  {
    (c - 2 + u) / 4
  }

  lemma DitheredAt(p: Pixel, x: nat, y: nat, t: nat)
    requires Midtone(p) && t == BAYER[y % 4][x % 4]
    ensures Dithered(p, x, y) == (Step5(Red(p), t / 2), Step6(Green(p), t / 4), Step5(Blue(p), t / 2))
  {
    hide Pack565, Red, Green, Blue;
    assert t < 16;
    PackedFields(Red(p) + t / 2 - 4, Green(p) + t / 4 - 2, Blue(p) + t / 2 - 4);
  }

  /** The floors of equally spread eighths, or quarters, add up without loss. */
  lemma Floors(c: nat)
    ensures c >= 4 ==> Step5(c, 0) + Step5(c, 1) + Step5(c, 2) + Step5(c, 3)
                       + Step5(c, 4) + Step5(c, 5) + Step5(c, 6) + Step5(c, 7) == c - 4
    ensures c >= 2 ==> Step6(c, 0) + Step6(c, 1) + Step6(c, 2) + Step6(c, 3) == c - 2
  {
    if c >= 4 {
      forall u: nat | u < 8
        ensures Step5(c, u) == (c - 4) / 8 + if (c - 4) % 8 + u >= 8 then 1 else 0
      {
        Carry(c - 4, u, 8);
      }
    }
    if c >= 2 {
      forall u: nat | u < 4
        ensures Step6(c, u) == (c - 2) / 4 + if (c - 2) % 4 + u >= 4 then 1 else 0
      {
        Carry(c - 2, u, 4);
      }
    }
  }

  lemma Carry(n: nat, u: nat, m: nat)
    requires u < m && m in {4, 8}
    ensures (n + u) / m == n / m + if n % m + u >= m then 1 else 0
  {}

  lemma RowsAt(p: Pixel, x: nat, y: nat)
    requires Midtone(p) && x % 4 == 0
    ensures var (r, g, b) := (Red(p), Green(p), Blue(p));
      && (y % 4 == 0 ==> RowSum(p, x, y) == (Step5(r, 0) + Step5(r, 4) + Step5(r, 1) + Step5(r, 5),
                                            Step6(g, 0) + Step6(g, 2) + Step6(g, 0) + Step6(g, 2),
                                            Step5(b, 0) + Step5(b, 4) + Step5(b, 1) + Step5(b, 5)))
      && (y % 4 == 1 ==> RowSum(p, x, y) == (Step5(r, 6) + Step5(r, 2) + Step5(r, 7) + Step5(r, 3),
                                            Step6(g, 3) + Step6(g, 1) + Step6(g, 3) + Step6(g, 1),
                                            Step5(b, 6) + Step5(b, 2) + Step5(b, 7) + Step5(b, 3)))
      && (y % 4 == 2 ==> RowSum(p, x, y) == (Step5(r, 1) + Step5(r, 5) + Step5(r, 0) + Step5(r, 4),
                                            Step6(g, 0) + Step6(g, 2) + Step6(g, 0) + Step6(g, 2),
                                            Step5(b, 1) + Step5(b, 5) + Step5(b, 0) + Step5(b, 4)))
      && (y % 4 == 3 ==> RowSum(p, x, y) == (Step5(r, 7) + Step5(r, 3) + Step5(r, 6) + Step5(r, 2),
                                            Step6(g, 3) + Step6(g, 1) + Step6(g, 3) + Step6(g, 1),
                                            Step5(b, 7) + Step5(b, 3) + Step5(b, 6) + Step5(b, 2)))
  {
    hide Dithered, Midtone, Step5, Step6, Red, Green, Blue;
    var row := BAYER[y % 4];
    DitheredAt(p, x, y, row[0]);
    DitheredAt(p, x + 1, y, row[1]);
    DitheredAt(p, x + 2, y, row[2]);
    DitheredAt(p, x + 3, y, row[3]);
  }

  /** Dithering keeps the average colour: over a 4 by 4 block of one colour it
      is that of the colour less half a step, exactly. */
  lemma DitherKeepsAverage(p: Pixel, x: nat, y: nat)
    requires Midtone(p) && x % 4 == 0 && y % 4 == 0
    ensures BlockSum(p, x, y) == (2 * (Red(p) - 4), 4 * (Green(p) - 2), 2 * (Blue(p) - 4))
  {
    hide RowSum, Step5, Step6, Red, Green, Blue;
    RowsAt(p, x, y);
    RowsAt(p, x, y + 1);
    RowsAt(p, x, y + 2);
    RowsAt(p, x, y + 3);
    Floors(Red(p));
    Floors(Green(p));
    Floors(Blue(p));
  }

  /** Black stays black whatever the dither phase: a receiver that starts
      zeroed already shows every black pixel. */
  lemma BlackIsBlack(fmt: PixFmt, dither: bool, x: nat, y: nat)
    ensures WirePixel(fmt, dither, 0, x, y) == 0
  {
    var t := BAYER[y % 4][x % 4];
    assert t <= 15;
  }

  lemma PackFits(r: nat, g: nat, b: nat)
    requires r < 256 && g < 256 && b < 256
    ensures Pack565(r, g, b) < 0x1_0000
  {
    assert r / 8 < 32 && g / 4 < 64 && b / 8 < 32;
  }

  lemma WirePixelFits(fmt: PixFmt, dither: bool, p: Pixel, x: nat, y: nat)
    ensures WirePixel(fmt, dither, p, x, y) < Pow256(fmt.Bytes())
  {
    hide Pack565;
    Widths();
    if fmt.RGB565? {
      forall r: nat, g: nat, b: nat | r < 256 && g < 256 && b < 256
        ensures Pack565(r, g, b) < 0x1_0000
      {
        PackFits(r, g, b);
      }
    }
  }

  function EncodeRow(row: seq<nat>, bpp: nat): (s: seq<byte>)
    ensures |s| == |row| * bpp
  {
    if row == [] then [] else LittleEndian(bpp, row[0]) + EncodeRow(row[1..], bpp)
  }

  function DecodeRow(s: seq<byte>, bpp: nat): seq<nat>
    requires bpp > 0
    decreases |s|
  {
    if |s| < bpp then [] else [FromLittleEndian(s[..bpp])] + DecodeRow(s[bpp..], bpp)
  }

  ghost predicate RowFits(row: seq<nat>, bpp: nat) {
    forall j | 0 <= j < |row| :: row[j] < Pow256(bpp)
  }

  lemma {:induction false} RowRoundTrip(row: seq<nat>, bpp: nat)
    requires bpp > 0 && RowFits(row, bpp)
    ensures DecodeRow(EncodeRow(row, bpp), bpp) == row
  {
    if row != [] {
      var s := EncodeRow(row, bpp);
      LittleEndianRoundTrip(bpp, row[0]);
      assert s[..bpp] == LittleEndian(bpp, row[0]) && s[bpp..] == EncodeRow(row[1..], bpp);
      RowRoundTrip(row[1..], bpp);
    }
  }

  /** Rows of wire values. */
  type Image = seq<seq<nat>>

  ghost predicate IsImage(img: Image, w: nat, h: nat, bpp: nat) {
    |img| == h && forall i | 0 <= i < h :: |img[i]| == w && RowFits(img[i], bpp)
  }

  function EncodeImage(img: Image, bpp: nat): seq<byte> {
    if img == [] then [] else EncodeRow(img[0], bpp) + EncodeImage(img[1..], bpp)
  }

  /** Cuts tightly packed rows of rowLen bytes. */
  function DecodeImage(s: seq<byte>, rowLen: nat, bpp: nat): Image
    requires bpp > 0 && rowLen > 0
    decreases |s|
  {
    if |s| < rowLen then [] else [DecodeRow(s[..rowLen], bpp)] + DecodeImage(s[rowLen..], rowLen, bpp)
  }

  lemma {:induction false} ImageRoundTrip(img: Image, w: nat, h: nat, bpp: nat, rowLen: nat)
    requires bpp > 0 && rowLen > 0 && rowLen == w * bpp && IsImage(img, w, h, bpp)
    ensures DecodeImage(EncodeImage(img, bpp), rowLen, bpp) == img
    ensures |EncodeImage(img, bpp)| == h * rowLen
    decreases h
  {
    if h > 0 {
      var head, tail := EncodeRow(img[0], bpp), EncodeImage(img[1..], bpp);
      assert |head| == rowLen;
      var s := EncodeImage(img, bpp);
      assert s == head + tail;
      RowRoundTrip(img[0], bpp);
      ImageRoundTrip(img[1..], w, h - 1, bpp, rowLen);
      assert s[..rowLen] == head && s[rowLen..] == tail;
      assert h * rowLen == (h - 1) * rowLen + rowLen;
    } else {
      assert img == [];
    }
  }
}
