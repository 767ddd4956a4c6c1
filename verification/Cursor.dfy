/** The cursor composed into the grabbed frame: around every grab and every
    cursor event it is lifted off and put back, so the frame always is the
    bare desktop with the cursor blended on top. */
module Cursor {
  import opened Common
  import opened Pixels
  import opened Geometry

  /** Premultiplied source over an opaque channel, rounded. */
  function Over8(s: nat, d: nat, ia: nat): nat {
    var t := d * ia + 128;
    var v := s + (t + t / 256) / 256;
    if v > 255 then 255 else v
  }

  /** Cursor pixel s (0xAARRGGBB) over desktop pixel d. */
  function Blend(s: Pixel, d: Pixel): Pixel {
    var a := s / 0x100_0000;
    if a == 0 then d
    else if a == 255 then s % 0x100_0000
    else
      Over8(Blue(s), Blue(d), 255 - a) +
      Over8(Green(s), Green(d), 255 - a) * 256 +
      Over8(Red(s), Red(d), 255 - a) * 65536
  }

  /** v is premultiplied s of alpha a plus what it lets through of d, to the
      nearest integer and at most 255. */
  predicate Mixes(a: nat, s: nat, d: nat, v: nat) {
    var off := 255 * (v - s) - d * (255 - a);
    v <= 255 && 2 * off <= 255 && (v < 255 || s <= a ==> -255 <= 2 * off)
  }

  /** The division by 255 that Over8 does with shifts rounds to the nearest. */
  lemma Rounded(x: nat)
    requires x <= 255 * 255
    ensures var t := x + 128; -255 <= 2 * (255 * ((t + t / 256) / 256) - x) <= 255
  {
    var t := x + 128;
    var h, l := t / 256, t % 256;
    assert (t + h) / 256 == h + (l + h) / 256;
    assert (l + h) / 256 == if l + h < 256 then 0 else 1;
  }

  lemma Saturates(a: nat, s: nat, x: nat, q: nat, v: nat)
    requires a <= 255 && s <= 255 && x <= 255 * (255 - a) && -255 <= 2 * (255 * q - x) <= 255
    requires v == if s + q > 255 then 255 else s + q
    ensures v <= 255 && 2 * (255 * (v - s) - x) <= 255 && (v < 255 || s <= a ==> -255 <= 2 * (255 * (v - s) - x))
  {}

  lemma Mixed(a: nat, s: nat, d: nat)
    requires a <= 255 && s <= 255 && d <= 255
    ensures Mixes(a, s, d, Over8(s, d, 255 - a)) && Over8(s, d, 255 - a) < 256
  {
    var x, t := d * (255 - a), d * (255 - a) + 128;
    Product(d, 255 - a);
    Rounded(x);
    Saturates(a, s, x, (t + t / 256) / 256, Over8(s, d, 255 - a));
  }

  lemma Product(d: nat, n: nat)
    requires d <= 255
    ensures 0 <= d * n <= 255 * n
  {
    assert 255 * n == d * n + (255 - d) * n;
  }

  /** v is what cursor pixel s leaves of desktop pixel d: the cursor's own
      colour where it is opaque, the desktop where it is clear, and a mix of
      each channel in between. */
  ghost predicate OnTop(s: Pixel, d: Pixel, v: Pixel) {
    && (forall a: nat, r: nat, g: nat, b: nat | Argb(s, a, r, g, b) :: (a == 0 ==> v == d) && (a == 255 ==> Argb(v, 0, r, g, b)))
    && (forall a: nat, r: nat, g: nat, b: nat, da: nat, dr: nat, dg: nat, db: nat, va: nat, vr: nat, vg: nat, vb: nat |
          Argb(s, a, r, g, b) && Argb(d, da, dr, dg, db) && Argb(v, va, vr, vg, vb) && 0 < a < 255 ::
            va == 0 && Mixes(a, r, dr, vr) && Mixes(a, g, dg, vg) && Mixes(a, b, db, vb))
  }

  lemma BlendOnTop(s: Pixel, d: Pixel)
    ensures OnTop(s, d, Blend(s, d))
  {
    hide Over8, Mixes, Red, Green, Blue;
    var v := Blend(s, d);
    forall a: nat, r: nat, g: nat, b: nat | Argb(s, a, r, g, b)
      ensures (a == 0 ==> v == d) && (a == 255 ==> Argb(v, 0, r, g, b))
    {
      ArgbChannels(s, a, r, g, b);
    }
    forall a: nat, r: nat, g: nat, b: nat, da: nat, dr: nat, dg: nat, db: nat, va: nat, vr: nat, vg: nat, vb: nat |
      Argb(s, a, r, g, b) && Argb(d, da, dr, dg, db) && Argb(v, va, vr, vg, vb) && 0 < a < 255
      ensures va == 0 && Mixes(a, r, dr, vr) && Mixes(a, g, dg, vg) && Mixes(a, b, db, vb)
    {
      ArgbChannels(s, a, r, g, b);
      ArgbChannels(d, da, dr, dg, db);
      Mixed(a, r, dr);
      Mixed(a, g, dg);
      Mixed(a, b, db);
      SameChannels(v, va, vr, vg, vb, 0, Over8(r, dr, 255 - a), Over8(g, dg, 255 - a), Over8(b, db, 255 - a));
    }
  }

  /** The cursor plane: its image by rows, at least w pixels each. */
  datatype Plane = Plane(on: bool, x: int, y: int, w: nat, h: nat, pix: seq<seq<Pixel>>) {
    predicate Valid() {
      on ==> |pix| >= h && forall i | 0 <= i < h :: |pix[i]| >= w
    }

    /** The plane clipped to the screen. */
    function Clip(width: nat, height: nat): Rect {
      Rect(Max(x, 0), Max(y, 0), Min(x + w, width), Min(y + h, height))
    }

    predicate Visible(width: nat, height: nat) {
      on && Clip(width, height).x1 < Clip(width, height).x2 && Clip(width, height).y1 < Clip(width, height).y2
    }

    /** The frame pixel at (px, py) with this plane on top of desktop pixel d. */
    function Over(px: int, py: int, d: Pixel): Pixel
      requires Valid()
    {
      if on && x <= px < x + w && y <= py < y + h then Blend(pix[py - y][px - x], d) else d
    }
  }

  /** The kernel's cursor event: an ARGB image of `stride` bytes a row. */
  datatype CursorSet = CursorSet(enabled: bool, width: nat, height: nat, stride: nat, words: seq<Pixel>) {
    predicate Usable() {
      && enabled && 0 < width <= 512 && 0 < height <= 512
      && stride >= width * 4 && stride % 4 == 0
      && |words| * 4 >= stride * height
    }

    function Line(i: nat): (line: seq<Pixel>)
      requires Usable() && i < height
      ensures |line| == width
    {
      var step := stride / 4;
      RowFitsIn(i, height, step, width, |words|);
      words[i * step..i * step + width]
    }

    function Rows(): (rows: seq<seq<Pixel>>)
      requires Usable()
      ensures |rows| == height && forall i | 0 <= i < height :: rows[i] == Line(i)
    {
      hide Usable, Line;
      seq(height, i requires 0 <= i < height && Usable() => Line(i))
    }

    lemma RowsAreWords()
      requires Usable()
      ensures forall i: nat, j: nat | i < height && j < width ::
                i * (stride / 4) + j < |words| && Rows()[i][j] == words[i * (stride / 4) + j]
    {
      forall i: nat, j: nat | i < height && j < width
        ensures i * (stride / 4) + j < |words| && Rows()[i][j] == words[i * (stride / 4) + j]
      {
        RowFitsIn(i, height, stride / 4, width, |words|);
      }
    }
  }

  /** A tightly packed image of any size up to 512 by 512 can be used. */
  lemma TightUsable(w: nat, h: nat, words: seq<Pixel>)
    requires 0 < w <= 512 && 0 < h <= 512 && |words| >= w * h
    ensures CursorSet(true, w, h, 4 * w, words).Usable()
  {}

  lemma RowFitsIn(i: nat, n: nat, step: nat, w: nat, size: nat)
    requires i < n && w <= step && step * n <= size
    ensures i * step + w <= size
  {
    assert (i + 1) * step <= n * step;
  }

  type Desktop = (int, int) -> Pixel   // y, x

  /** The desktop pixels of r, row by row. */
  ghost predicate Saved(rows: seq<seq<Pixel>>, r: Rect, desk: Desktop) {
    && |rows| == r.y2 - r.y1
    && forall i | 0 <= i < |rows| :: |rows[i]| == r.x2 - r.x1
         && forall j | 0 <= j < |rows[i]| :: rows[i][j] == desk(r.y1 + i, r.x1 + j)
  }

  class Overlay {
    const width: nat
    const height: nat
    const grabbuf: array2<Pixel>       // [y, x]
    var plane: Plane
    var drawn: bool
    var rect: Rect                     // where it is drawn
    var under: seq<seq<Pixel>>         // the pixels it covers
    ghost var desk: Desktop            // the bare desktop

    ghost predicate InFrame(x: int, y: int) { 0 <= x < width && 0 <= y < height }

    ghost predicate Shape()
      reads this
    {
      grabbuf.Length0 == height && grabbuf.Length1 == width && plane.Valid()
    }


    /** What grabbuf holds: the desktop, with the cursor where it is drawn. */
    ghost function Composed(x: int, y: int): Pixel
      requires plane.Valid()
      reads this
    {
      if drawn then plane.Over(x, y, desk(y, x)) else desk(y, x)
    }

    ghost predicate Valid()
      reads this, grabbuf
    {
      && Shape()
      && (drawn ==> plane.Visible(width, height) && rect == plane.Clip(width, height) && Saved(under, rect, desk))
      && forall x, y | InFrame(x, y) :: grabbuf[y, x] == Composed(x, y)
    }

    /** The cursor is on the frame whenever it should be seen. */
    ghost predicate Synced()
      reads this
    {
      drawn == plane.Visible(width, height)
    }

    /** The cursor can be seen where it is: each of its pixels inside the
        screen is on top of the desktop, and nothing else is. */
    ghost predicate Seen()
      requires Shape()
      reads this, grabbuf
    {
      && (forall x, y | InFrame(x, y) && plane.on && plane.x <= x < plane.x + plane.w && plane.y <= y < plane.y + plane.h ::
            OnTop(plane.pix[y - plane.y][x - plane.x], desk(y, x), grabbuf[y, x]))
      && (forall x, y | InFrame(x, y) && !(plane.on && plane.x <= x < plane.x + plane.w && plane.y <= y < plane.y + plane.h) ::
            grabbuf[y, x] == desk(y, x))
    }

    lemma SyncedSeen()
      requires Valid() && Synced()
      ensures Seen()
    {
      hide Blend, OnTop, Saved;
      OutsideClip(plane, width, height);
      forall x, y | InFrame(x, y) && plane.on && plane.x <= x < plane.x + plane.w && plane.y <= y < plane.y + plane.h
        ensures OnTop(plane.pix[y - plane.y][x - plane.x], desk(y, x), grabbuf[y, x])
      {
        BlendOnTop(plane.pix[y - plane.y][x - plane.x], desk(y, x));
      }
    }

    /** Freshly registered buffers: whatever is in the frame is the desktop,
        the plane is kept but not drawn yet. */
    constructor (width: nat, height: nat, grabbuf: array2<Pixel>, plane: Plane, ghost desk: Desktop)
      requires grabbuf.Length0 == height && grabbuf.Length1 == width && plane.Valid()
      requires forall x, y | 0 <= x < width && 0 <= y < height :: grabbuf[y, x] == desk(y, x)
      ensures Valid() && !drawn && this.grabbuf == grabbuf && this.width == width && this.height == height
      ensures this.plane == plane && this.desk == desk
    {
      this.width, this.height, this.grabbuf, this.plane, this.desk := width, height, grabbuf, plane, desk;
      drawn, rect, under := false, Rect(0, 0, 0, 0), [];
    }

    /** Puts the covered pixels back. */
    method Lift() returns (had: bool, old': Rect)
      requires Valid()
      modifies this`drawn, grabbuf
      ensures Valid() && !drawn
      ensures had == old(drawn) && old' == rect
    {
      hide Plane.Over, Plane.Clip;
      old' := rect;
      had := drawn;
      if !drawn { return; }
      drawn := false;
      var r := rect;
      ClipBounds(plane, width, height);
      OutsideClip(plane, width, height);
      var y := r.y1;
      while y < r.y2
        modifies grabbuf
        invariant r.y1 <= y <= r.y2
        invariant forall i, x | InFrame(x, i) ::
                    grabbuf[i, x] == if r.Has(x, i) && i >= y then plane.Over(x, i, desk(i, x)) else desk(i, x)
      {
        PutRow(r.x1, y, under[y - r.y1]);
        y := y + 1;
      }
    }

    method PutRow(x1: int, y: int, row: seq<Pixel>)
      requires Shape() && 0 <= y < height && 0 <= x1 && x1 + |row| <= width
      requires forall j | 0 <= j < |row| :: row[j] == desk(y, x1 + j)
      modifies grabbuf
      ensures forall i, x | InFrame(x, i) ::
                grabbuf[i, x] == if i == y && x1 <= x < x1 + |row| then desk(i, x) else old(grabbuf[i, x])
    {
      hide Plane.Over;
      forall x | x1 <= x < x1 + |row| {
        grabbuf[y, x] := row[x - x1];
      }
    }

    /** One row: saves what the cursor covers and blends it. */
    method BlendRow(r: Rect, y: int) returns (row: seq<Pixel>)
      requires Shape() && plane.Visible(width, height) && r == plane.Clip(width, height) && r.y1 <= y < r.y2
      modifies grabbuf
      ensures |row| == r.x2 - r.x1 && forall j | 0 <= j < |row| :: row[j] == old(grabbuf[y, r.x1 + j])
      ensures forall i, x | InFrame(x, i) ::
                grabbuf[i, x] == if i == y && r.x1 <= x < r.x2 then plane.Over(x, i, old(grabbuf[i, x])) else old(grabbuf[i, x])
    {
      hide Blend, Plane.Clip, Plane.Over;
      ClipBounds(plane, width, height);
      row := Slice(grabbuf, y, r.x1, r.x2);
      forall x | r.x1 <= x < r.x2 {
        grabbuf[y, x] := plane.Over(x, y, grabbuf[y, x]);
      }
    }

    /** Blends the cursor at its current place, saving what it covers. */
    method Draw() returns (did: bool, r: Rect)
      requires Valid()
      modifies this`drawn, this`rect, this`under, grabbuf
      ensures Valid() && Synced() && Seen()
      ensures did == (!old(drawn) && drawn) && (did ==> r == rect)
    {
      hide Plane.Over, Seen;
      r := plane.Clip(width, height);
      did := !drawn && plane.Visible(width, height);
      if !did {
        SyncedSeen();
        return;
      }
      var saved: seq<seq<Pixel>> := [];
      var y := r.y1;
      while y < r.y2
        modifies grabbuf
        invariant r.y1 <= y <= r.y2 && |saved| == y - r.y1
        invariant Saved(saved, r.(y2 := y), desk)
        invariant forall i, x | InFrame(x, i) ::
                    grabbuf[i, x] == if r.Has(x, i) && i < y then plane.Over(x, i, desk(i, x)) else desk(i, x)
      {
        var row := BlendRow(r, y);
        saved := saved + [row];
        y := y + 1;
      }
      under := saved;
      rect := r;
      drawn := true;
      OutsideClip(plane, width, height);
      SyncedSeen();
    }

    /** After a cursor change: put it back and report the old and new places. */
    method Repaint(before: Rect, had: bool) returns (damage: seq<Rect>)
      requires Valid() && !drawn
      modifies this`drawn, this`rect, this`under, grabbuf
      ensures Valid() && Synced() && Seen()
      ensures damage == (if had then [before] else []) + (if drawn then [rect] else [])
    {
      damage := [];
      if had {
        damage := damage + [before];
      }
      var did, r := Draw();
      if did {
        damage := damage + [r];
      }
    }

    /** Every pixel of the image that is inside the screen is on top of the
        desktop, read from the words by rows of `stride` bytes. */
    ghost predicate Wears(cs: CursorSet)
      requires Shape()
      reads this, grabbuf
    {
      forall x, y | InFrame(x, y) && 0 <= x - plane.x < cs.width && 0 <= y - plane.y < cs.height ::
        var k := (y - plane.y) * (cs.stride / 4) + (x - plane.x);
        k < |cs.words| && OnTop(cs.words[k], desk(y, x), grabbuf[y, x])
    }

    lemma WearsWords(cs: CursorSet)
      requires Shape() && Seen() && cs.Usable() && plane == Plane(true, plane.x, plane.y, cs.width, cs.height, cs.Rows())
      ensures Wears(cs)
    {
      hide OnTop, CursorSet.Usable, CursorSet.Rows, CursorSet.Line;
      cs.RowsAreWords();
    }

    /** The image of a cursor event becomes the plane's, where it was. */
    method Adopt(cs: CursorSet)
      requires Valid() && !drawn
      modifies this`plane
      ensures Valid()
      ensures plane == if cs.Usable() then Plane(true, old(plane).x, old(plane).y, cs.width, cs.height, cs.Rows())
                       else old(plane).(on := false)
    {
      hide CursorSet.Usable, CursorSet.Rows, CursorSet.Line, Blend;
      if cs.Usable() {
        plane := Plane(true, plane.x, plane.y, cs.width, cs.height, cs.Rows());
      } else {
        plane := plane.(on := false);
      }
    }

    /** A new shape, a hide or a show. An unusable image hides the cursor. */
    method Set(cs: CursorSet) returns (damage: seq<Rect>)
      requires Valid()
      modifies this`drawn, this`rect, this`under, this`plane, grabbuf
      ensures Valid() && Synced() && Seen()
      ensures cs.Usable() ==> Wears(cs)
      ensures !cs.Usable() ==> forall x, y | InFrame(x, y) :: grabbuf[y, x] == desk(y, x)
      ensures plane.on == cs.Usable() && plane.x == old(plane.x) && plane.y == old(plane.y)
      ensures plane.on ==> plane.w == cs.width && plane.h == cs.height && plane.pix == cs.Rows()
      ensures Reported(damage)
    {
      hide Blend, OnTop, Saved, Wears, CursorSet.Usable, CursorSet.Rows, CursorSet.Line;
      var had, before := Lift();
      Adopt(cs);
      damage := Repaint(before, had);
      OldAndNewPlace(damage);
      if cs.Usable() {
        WearsWords(cs);
      }
    }

    method Move(x: int, y: int) returns (damage: seq<Rect>)
      requires Valid()
      modifies this`drawn, this`rect, this`under, this`plane, grabbuf
      ensures Valid() && Synced() && Seen()
      ensures plane == old(plane).(x := x, y := y)
      ensures Reported(damage)
    {
      hide Blend;
      var had, before := Lift();
      plane := plane.(x := x, y := y);
      damage := Repaint(before, had);
      OldAndNewPlace(damage);
    }

    /** A grab: the kernel rewrites the damaged rects with the bare desktop,
        so the cursor comes off first and goes back on the fresh pixels. */
    method Grab(rects: seq<Rect>, next: Desktop)
      requires Valid() && AllInside(rects, width, height)
      requires forall x, y | InFrame(x, y) && (x, y) !in Areas(rects, |rects|) :: next(y, x) == desk(y, x)
      modifies this`drawn, this`rect, this`under, this`desk, grabbuf
      ensures Valid() && Synced() && Seen() && desk == next && plane == old(plane)
      ensures old(Synced()) ==> Reported(rects)
    {
      hide Plane.Over, Saved, Areas, Plane.Clip;
      var had, before := Lift();
      WriteRects(rects, next);
      var did, r := Draw();
    }

    /** What the grab call does to the buffer. */
    method WriteRects(rects: seq<Rect>, next: Desktop)
      requires Valid() && !drawn && AllInside(rects, width, height)
      requires forall x, y | InFrame(x, y) && (x, y) !in Areas(rects, |rects|) :: next(y, x) == desk(y, x)
      modifies this`desk, grabbuf
      ensures Valid() && desk == next
    {
      hide Plane.Over, Saved, Areas, Area;
      var k := 0;
      while k < |rects|
        modifies grabbuf
        invariant 0 <= k <= |rects|
        invariant forall x, y | InFrame(x, y) :: grabbuf[y, x] == if (x, y) in Areas(rects, k) then next(y, x) else desk(y, x)
      {
        AreasStep(rects, k);
        var r := rects[k];
        forall y, x | r.y1 <= y < r.y2 && r.x1 <= x < r.x2 {
          grabbuf[y, x] := next(y, x);
        }
        k := k + 1;
      }
      desk := next;
    }

    /** Between two composed frames over the same desktop only the old and the
        new place of the cursor can differ. */
    twostate lemma OldAndNewPlace(damage: seq<Rect>)
      requires old(Valid()) && Valid() && desk == old(desk)
      requires damage == (if old(drawn) then [old(rect)] else []) + (if drawn then [rect] else [])
      ensures Reported(damage)
    {
      hide Plane.Over, Saved, Plane.Clip;
      OutsideClip(old(plane), width, height);
      OutsideClip(plane, width, height);
      forall x, y | InFrame(x, y) && grabbuf[y, x] != old(grabbuf[y, x])
        ensures (x, y) in Areas(damage, |damage|)
      {
        AreasMeaning(damage, |damage|, x, y);
        if old(drawn) && old(rect).Has(x, y) {
          assert damage[0].Has(x, y);
        } else {
          assert drawn && rect.Has(x, y);
          assert damage[|damage| - 1].Has(x, y);
        }
      }
    }

    /** Every pixel that changed lies in a reported rect. */
    twostate predicate Reported(damage: seq<Rect>)
      requires old(Shape()) && Shape()
      reads this, grabbuf
    {
      forall x, y | InFrame(x, y) && grabbuf[y, x] != old(grabbuf[y, x]) :: (x, y) in Areas(damage, |damage|)
    }
  }

  lemma ClipBounds(p: Plane, width: nat, height: nat)
    requires p.Visible(width, height)
    ensures var r := p.Clip(width, height);
      && r.Inside(width, height) && p.x <= r.x1 && r.x2 <= p.x + p.w && p.y <= r.y1 && r.y2 <= p.y + p.h
  {}

  /** The plane shows nothing outside its clipped rect. */
  lemma OutsideClip(p: Plane, width: nat, height: nat)
    requires p.Valid()
    ensures forall x, y, d | 0 <= x < width && 0 <= y < height && !p.Clip(width, height).Has(x, y) :: p.Over(x, y, d) == d
  {
    hide Blend;
  }

  function Row(a: array2<Pixel>, y: nat): (r: seq<Pixel>)
    requires y < a.Length0
    reads a
    ensures |r| == a.Length1 && forall x | 0 <= x < a.Length1 :: r[x] == a[y, x]
  {
    seq(a.Length1, x requires 0 <= x < a.Length1 reads a => a[y, x])
  }

  function Slice(a: array2<Pixel>, y: nat, x1: nat, x2: nat): (r: seq<Pixel>)
    requires y < a.Length0 && x1 <= x2 <= a.Length1
    reads a
    ensures |r| == x2 - x1 && forall j | 0 <= j < |r| :: r[j] == a[y, x1 + j]
  {
    Row(a, y)[x1..x2]
  }
}
