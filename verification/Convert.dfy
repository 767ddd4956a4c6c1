/** Captured bytes (RGB24 or UYVY) to BGRx pixels of the master image. */
module Convert {
  import opened Common
  import opened Wire
  import opened Pixels
  import opened Geometry
  import opened Tiles

  /** Inverse BT.601, fixed point with 8 fraction bits. */
  datatype Coef = Coef(ky: int, yoff: int, rv: int, gu: int, gv: int, bu: int)

  const LIMITED: Coef := Coef(298, 16, 409, 100, 208, 516)
  const FULL: Coef := Coef(256, 0, 359, 88, 183, 454)

  function Sat8(v: int): byte { if v < 0 then 0 else if v > 255 then 255 else v }

  function Opaque(r: byte, g: byte, b: byte): Pixel { 0xFF00_0000 + r * 65536 + g * 256 + b }

  function Yuv(k: Coef, y: byte, u: byte, v: byte): Pixel {
    var l := k.ky * (y - k.yoff) + 128;
    Opaque(Sat8((l + k.rv * (v - 128)) / 256),
           Sat8((l - k.gu * (u - 128) - k.gv * (v - 128)) / 256),
           Sat8((l + k.bu * (u - 128)) / 256))
  }

  /** UYVY codes pixels by pairs: an odd last column never gets converted. */
  predicate Converts(s: Source, x: int) {
    0 <= x < if s.rgb then s.w else s.w - s.w % 2
  }

  function Even(x: nat): (e: nat)
    ensures e <= x < e + 2 && e % 2 == 0
  {
    x - x % 2
  }

  /** Pixel (x, y) of a captured frame. */
  function Conv(s: Source, full: bool, f: Frame, x: nat, y: nat): Pixel
    requires s.Valid() && FrameOk(s, f) && Converts(s, x) && y < s.h
  {
    var row := f[y];
    if s.rgb then Opaque(row[3 * x], row[3 * x + 1], row[3 * x + 2])
    else
      var i := 2 * Even(x);
      Yuv(if full then FULL else LIMITED, row[2 * x + 1], row[i], row[i + 2])
  }

  /** What converting r writes: r cut to the frame, widened to whole pairs. */
  function Region(s: Source, r: Rect): Rect {
    var c := Rect(Max(r.x1, 0), Max(r.y1, 0), Min(r.x2, s.w), Min(r.y2, s.h));
    if s.rgb || c.x2 <= c.x1 then c
    else Rect(c.x1 - c.x1 % 2, c.y1, Min(c.x2 + c.x2 % 2, s.w - s.w % 2), c.y2)
  }

  ghost predicate MasterOk(s: Source, master: array2<Pixel>) {
    master.Length0 == s.h && master.Length1 == s.w
  }

  method UyvyRow(s: Source, full: bool, master: array2<Pixel>, f: Frame, y: nat, x1: nat, pairs: nat)
    requires s.Valid() && !s.rgb && FrameOk(s, f) && MasterOk(s, master) && y < s.h
    requires x1 % 2 == 0 && x1 + 2 * pairs <= s.w
    modifies master
    ensures forall i, x | 0 <= i < s.h && 0 <= x < s.w ::
              master[i, x] == if i == y && x1 <= x < x1 + 2 * pairs then Conv(s, full, f, x, y) else old(master[i, x])
  {
    hide Yuv;
    var k := if full then FULL else LIMITED;
    var row := f[y];
    for p := 0 to pairs
      invariant forall i, x | 0 <= i < s.h && 0 <= x < s.w ::
                  master[i, x] == if i == y && x1 <= x < x1 + 2 * p then Conv(s, full, f, x, y) else old(master[i, x])
    {
      var at := x1 + 2 * p;
      var b := 2 * at;
      var u, y0, v, y1 := row[b], row[b + 1], row[b + 2], row[b + 3];
      master[y, at] := Yuv(k, y0, u, v);
      master[y, at + 1] := Yuv(k, y1, u, v);
    }
  }

  method Rgb24Row(s: Source, full: bool, master: array2<Pixel>, f: Frame, y: nat, x1: nat, n: nat)
    requires s.Valid() && s.rgb && FrameOk(s, f) && MasterOk(s, master) && y < s.h && x1 + n <= s.w
    modifies master
    ensures forall i, x | 0 <= i < s.h && 0 <= x < s.w ::
              master[i, x] == if i == y && x1 <= x < x1 + n then Conv(s, full, f, x, y) else old(master[i, x])
  {
    hide Opaque;
    var row := f[y];
    for j := 0 to n
      invariant forall i, x | 0 <= i < s.h && 0 <= x < s.w ::
                  master[i, x] == if i == y && x1 <= x < x1 + j then Conv(s, full, f, x, y) else old(master[i, x])
    {
      var b := 3 * (x1 + j);
      master[y, x1 + j] := Opaque(row[b], row[b + 1], row[b + 2]);
    }
  }

  method ConvertRows(s: Source, full: bool, master: array2<Pixel>, f: Frame, c: Rect)
    requires s.Valid() && FrameOk(s, f) && MasterOk(s, master)
    requires 0 <= c.x1 <= c.x2 <= s.w && 0 <= c.y1 <= c.y2 <= s.h
    requires !s.rgb ==> c.x1 % 2 == 0 && c.x2 % 2 == 0
    modifies master
    ensures forall x, y | 0 <= x < s.w && 0 <= y < s.h ::
              master[y, x] == if c.Has(x, y) then Conv(s, full, f, x, y) else old(master[y, x])
  {
    hide Conv, Source.Valid;
    for y := c.y1 to c.y2
      invariant forall x, i | 0 <= x < s.w && 0 <= i < s.h ::
                  master[i, x] == if c.Has(x, i) && i < y then Conv(s, full, f, x, i) else old(master[i, x])
    {
      if s.rgb {
        Rgb24Row(s, full, master, f, y, c.x1, c.x2 - c.x1);
      } else {
        UyvyRow(s, full, master, f, y, c.x1, (c.x2 - c.x1) / 2);
      }
    }
  }

  /** Converts one rect of the frame into the master image. */
  method ConvertRect(s: Source, full: bool, master: array2<Pixel>, f: Frame, r: Rect)
    requires s.Valid() && FrameOk(s, f) && MasterOk(s, master)
    modifies master
    ensures forall x, y | 0 <= x < s.w && 0 <= y < s.h ::
              master[y, x] == if Region(s, r).Has(x, y) && Converts(s, x) then Conv(s, full, f, x, y) else old(master[y, x])
  {
    hide Conv, Source.Valid, FrameOk;
    var x1, y1, x2, y2 := Max(r.x1, 0), Max(r.y1, 0), Min(r.x2, s.w), Min(r.y2, s.h);
    if x2 <= x1 || y2 <= y1 { return; }
    if !s.rgb {
      x1 := x1 - x1 % 2;
      x2 := Min(x2 + x2 % 2, s.w - s.w % 2);
      if x2 <= x1 { return; }
    }
    ConvertRows(s, full, master, f, Rect(x1, y1, x2, y2));
  }

  // ------------------------------------------------ what the colours mean

  /** Luma and chroma in 0..255 and -127.5..127.5, from bytes of the full or
      of the limited range. */
  function Luma(full: bool, y: byte): real { if full then y as real else (y - 16) as real * 255.0 / 219.0 }
  function Chroma(full: bool, c: byte): real { if full then (c - 128) as real else (c - 128) as real * 255.0 / 224.0 }

  /** c is x, cut to a byte, give or take less than one. */
  predicate Close(c: nat, x: real) {
    var cut := if x < 0.0 then 0.0 else if x > 255.0 then 255.0 else x;
    -1.0 < c as real - cut < 1.0
  }

  /** The pixel shows the colour that BT.601 codes by y, u and v: luma weighs
      red by 0.299, green by 0.587 and blue by 0.114, chroma is the difference
      of blue and of red from luma, scaled to the same span. */
  ghost predicate Bt601(full: bool, y: byte, u: byte, v: byte, p: Pixel) {
    var l := Luma(full, y);
    var red, blue := l + 2.0 * (1.0 - 0.299) * Chroma(full, v), l + 2.0 * (1.0 - 0.114) * Chroma(full, u);
    var green := (l - 0.299 * red - 0.114 * blue) / 0.587;
    forall a: nat, r: nat, g: nat, b: nat | Argb(p, a, r, g, b) :: a == 255 && Close(r, red) && Close(g, green) && Close(b, blue)
  }

  lemma RedIsClose(full: bool, y: byte, v: byte)
    ensures var k := if full then FULL else LIMITED;
            Close(Sat8((k.ky * (y - k.yoff) + 128 + k.rv * (v - 128)) / 256), Luma(full, y) + 2.0 * (1.0 - 0.299) * Chroma(full, v))
  {}

  lemma BlueIsClose(full: bool, y: byte, u: byte)
    ensures var k := if full then FULL else LIMITED;
            Close(Sat8((k.ky * (y - k.yoff) + 128 + k.bu * (u - 128)) / 256), Luma(full, y) + 2.0 * (1.0 - 0.114) * Chroma(full, u))
  {}

  lemma GreenIsClose(full: bool, y: byte, u: byte, v: byte)
    ensures var k := if full then FULL else LIMITED;
            var l := Luma(full, y);
            var red, blue := l + 2.0 * (1.0 - 0.299) * Chroma(full, v), l + 2.0 * (1.0 - 0.114) * Chroma(full, u);
            Close(Sat8((k.ky * (y - k.yoff) + 128 - k.gu * (u - 128) - k.gv * (v - 128)) / 256),
                  (l - 0.299 * red - 0.114 * blue) / 0.587)
  {}

  lemma YuvIsBt601(full: bool, y: byte, u: byte, v: byte)
    ensures Bt601(full, y, u, v, Yuv(if full then FULL else LIMITED, y, u, v))
  {
    hide Sat8, Close, Luma, Chroma, Argb, Opaque;
    var k := if full then FULL else LIMITED;
    var p := Yuv(k, y, u, v);
    var l := k.ky * (y - k.yoff) + 128;
    var r', g', b' := Sat8((l + k.rv * (v - 128)) / 256), Sat8((l - k.gu * (u - 128) - k.gv * (v - 128)) / 256),
                      Sat8((l + k.bu * (u - 128)) / 256);
    OpaqueChannels(r', g', b');
    RedIsClose(full, y, v);
    GreenIsClose(full, y, u, v);
    BlueIsClose(full, y, u);
    forall a: nat, r: nat, g: nat, b: nat | Argb(p, a, r, g, b)
      ensures a == 255 && r == r' && g == g' && b == b'
    {
      SameChannels(p, a, r, g, b, 255, r', g', b');
    }
  }

  lemma OpaqueChannels(r: byte, g: byte, b: byte)
    ensures Argb(Opaque(r, g, b), 255, r, g, b)
  {}

  /** p is the colour of pixel (x, y) of the captured bytes. */
  ghost predicate Coloured(s: Source, full: bool, f: Frame, x: nat, y: nat, p: Pixel)
    requires s.Valid() && FrameOk(s, f) && Converts(s, x) && y < s.h
  {
    if s.rgb then Argb(p, 255, f[y][3 * x], f[y][3 * x + 1], f[y][3 * x + 2])
    else Bt601(full, f[y][2 * x + 1], f[y][4 * (x / 2)], f[y][4 * (x / 2) + 2], p)
  }

  lemma ConvColoured(s: Source, full: bool, f: Frame, x: nat, y: nat)
    requires s.Valid() && FrameOk(s, f) && Converts(s, x) && y < s.h
    ensures Coloured(s, full, f, x, y, Conv(s, full, f, x, y))
  {
    hide Yuv, Opaque, Bt601, Argb;
    if s.rgb {
      OpaqueChannels(f[y][3 * x], f[y][3 * x + 1], f[y][3 * x + 2]);
    } else {
      assert 2 * Even(x) == 4 * (x / 2);
      YuvIsBt601(full, f[y][2 * x + 1], f[y][4 * (x / 2)], f[y][4 * (x / 2) + 2]);
    }
  }

  // -------------------------------------------------------------- lemmas

  /** A pixel is made of its own bytes and, in UYVY, those of its pair. */
  lemma ConvSame(s: Source, full: bool, a: Frame, b: Frame, x: nat, y: nat)
    requires s.Valid() && FrameOk(s, a) && FrameOk(s, b) && Converts(s, x) && y < s.h
    requires if s.rgb then !PixelDiffers(s, a, b, x, y)
             else !PixelDiffers(s, a, b, Even(x), y) && !PixelDiffers(s, a, b, Even(x) + 1, y)
    ensures Conv(s, full, a, x, y) == Conv(s, full, b, x, y)
  {
    hide Yuv, Opaque, PixelDiffers;
    if s.rgb {
      SameBytes(s, a, b, x, y);
    } else {
      SameBytes(s, a, b, Even(x), y);
      SameBytes(s, a, b, Even(x) + 1, y);
    }
  }

  lemma SameBytes(s: Source, a: Frame, b: Frame, x: nat, y: nat)
    requires s.Valid() && FrameOk(s, a) && FrameOk(s, b) && x < s.w && y < s.h && !PixelDiffers(s, a, b, x, y)
    ensures (x + 1) * s.Bpp() <= s.stride
    ensures forall k | x * s.Bpp() <= k < (x + 1) * s.Bpp() :: a[y][k] == b[y][k]
  {
    PixelBounds(s, x);
    var lo, hi := x * s.Bpp(), (x + 1) * s.Bpp();
    forall k | lo <= k < hi
      ensures a[y][k] == b[y][k]
    {
      assert a[y][lo..hi][k - lo] == a[y][k] && b[y][lo..hi][k - lo] == b[y][k];
    }
  }

  /** A pixel whose pair touches a converted rect is converted. */
  lemma PairConverted(s: Source, r: Rect, x: nat, y: nat)
    requires Converts(s, x) && y < s.h
    requires r.Has(x, y) || (!s.rgb && (r.Has(Even(x), y) || r.Has(Even(x) + 1, y)))
    ensures Region(s, r).Has(x, y)
  {}

  /** Rects that start on even columns and end on even ones or at the edge. */
  predicate Aligned(s: Source, r: Rect) {
    r.x1 % 2 == 0 && (r.x2 % 2 == 0 || r.x2 == s.w)
  }

  lemma AlignedStays(s: Source, r: Rect, x: nat, y: nat)
    requires r.Inside(s.w, s.h) && (s.rgb || Aligned(s, r)) && Region(s, r).Has(x, y)
    ensures r.Has(x, y)
  {}
}
