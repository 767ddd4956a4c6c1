/** Incremental capture: rotating driver buffers, one of them retained as the
    previous frame, and a master image that is always the conversion of the
    whole of it. */
module Capture {
  import opened Pixels
  import opened Geometry
  import opened Common
  import opened Tiles
  import opened TileRects
  import opened Convert

  const MAX_RECTS: nat := 16

  // ------------------------------------------------------ rects and pairs

  lemma EvenMultiple(k: nat, tile: nat)
    requires tile % 2 == 0
    ensures k * tile % 2 == 0
  {
    var half := tile / 2;
    assert k * tile == 2 * (k * half);
  }

  lemma ScaleAligned(s: Source, b: Rect)
    requires s.Valid() && s.tile % 2 == 0 && b.Inside(s.TilesX(), s.TilesY())
    ensures Aligned(s, Scale(s, b))
  {
    EvenMultiple(b.x1, s.tile);
    EvenMultiple(b.x2, s.tile);
  }

  /** The bounding box of aligned rects is aligned: otherwise it would not be
      the smallest one. */
  lemma BoxAligned(s: Source, box: Rect, rs: seq<Rect>)
    requires Tight(box, rs) && AllInside(rs, s.w, s.h) && box.Inside(s.w, s.h)
    requires forall i | 0 <= i < |rs| :: Aligned(s, rs[i])
    ensures Aligned(s, box)
  {
    var v := box.(x1 := box.x1 + box.x1 % 2, x2 := if box.x2 == s.w then s.w else box.x2 - box.x2 % 2);
    assert forall i | 0 <= i < |rs| :: Contains(v, rs[i]);
    assert Contains(v, box);
  }

  /** What the rect scan returns, for any limit, reports no less than the
      dirty tiles, in bounds and aligned when the tiles are. */
  lemma RectsReport(s: Source, grid: array2<bool>, max: nat, out: seq<Rect>)
    requires s.Valid() && GridOk(s, grid) && max > 0
    requires |GridBlocks(grid)| <= max ==> out == Scaled(s, GridBlocks(grid))
    requires max < |GridBlocks(grid)| ==> |out| == 1 && Tight(out[0], Scaled(s, GridBlocks(grid)))
    ensures |out| <= max && AllInside(out, s.w, s.h)
    ensures s.tile % 2 == 0 ==> forall i | 0 <= i < |out| :: Aligned(s, out[i])
    ensures forall x: nat, y: nat | x < s.w && y < s.h && Covered(Scaled(s, GridBlocks(grid)), x, y) :: Covered(out, x, y)
  {
    hide Scale, GridBlocks, Source.TilesX, Source.TilesY, Tight, Aligned, Exact;
    var rs := Scaled(s, GridBlocks(grid));
    RectsExact(s, grid);
    if s.tile % 2 == 0 {
      GridExact(s, grid);
      BlocksInside(s, grid);
      forall i | 0 <= i < |rs|
        ensures Aligned(s, rs[i])
      {
        ScaleAligned(s, GridBlocks(grid)[i]);
      }
    }
    if |rs| > max {
      OverflowBox(s, grid, out[0]);
      if s.tile % 2 == 0 {
        BoxAligned(s, out[0], rs);
      }
      assert forall x: nat, y: nat | x < s.w && y < s.h && Covered(rs, x, y) :: out[0].Has(x, y);
    }
  }

  lemma BlocksInside(s: Source, grid: array2<bool>)
    requires s.Valid() && GridOk(s, grid)
    ensures AllInside(GridBlocks(grid), s.TilesX(), s.TilesY())
  {
    hide Source.TilesX, Source.TilesY, GridBlocks;
    GridExact(s, grid);
  }

  /** Pixel (x, y) is inside what converting the rects writes. */
  ghost predicate Written(s: Source, rects: seq<Rect>, n: nat, x: int, y: int)
    requires n <= |rects|
  {
    Converts(s, x) && exists j | 0 <= j < n :: Region(s, rects[j]).Has(x, y)
  }

  /** master is the conversion of the whole frame f. */
  ghost predicate Shows(s: Source, full: bool, master: array2<Pixel>, f: Frame)
    requires s.Valid() && FrameOk(s, f) && MasterOk(s, master)
    reads master
  {
    forall x, y | Converts(s, x) && 0 <= y < s.h :: master[y, x] == Conv(s, full, f, x, y)
  }

  /** The rects hold every pixel that is not what it was. */
  ghost predicate Reports(s: Source, cur: Frame, prev: Option<Frame>, rects: seq<Rect>)
    requires s.Valid() && FrameOk(s, cur) && (prev.Some? ==> FrameOk(s, prev.value))
  {
    forall x: nat, y: nat | x < s.w && y < s.h && (prev.None? || PixelDiffers(s, cur, prev.value, x, y)) :: Covered(rects, x, y)
  }

  /** Some pixel of tile (tx, ty) is not what it was. */
  ghost predicate TileChanged(s: Source, cur: Frame, prev: Option<Frame>, tx: nat, ty: nat)
    requires s.Valid() && FrameOk(s, cur) && (prev.Some? ==> FrameOk(s, prev.value))
  {
    prev.Some? ==>
      exists x: nat, y: nat | x < s.w && y < s.h && x / s.tile == tx && y / s.tile == ty :: PixelDiffers(s, cur, prev.value, x, y)
  }

  /** The rects hold no pixel but those of changed tiles. */
  ghost predicate Precise(s: Source, cur: Frame, prev: Option<Frame>, rects: seq<Rect>)
    requires s.Valid() && FrameOk(s, cur) && (prev.Some? ==> FrameOk(s, prev.value))
  {
    forall x: nat, y: nat | x < s.w && y < s.h && Covered(rects, x, y) :: TileChanged(s, cur, prev, x / s.tile, y / s.tile)
  }

  /** A pixel that no conversion touched converts to what it was. */
  lemma Untouched(s: Source, full: bool, cur: Frame, prev: Option<Frame>, rects: seq<Rect>, x: nat, y: nat)
    requires s.Valid() && FrameOk(s, cur) && (prev.Some? ==> FrameOk(s, prev.value)) && Reports(s, cur, prev, rects)
    requires Converts(s, x) && y < s.h && !Written(s, rects, |rects|, x, y)
    ensures prev.Some? && Conv(s, full, cur, x, y) == Conv(s, full, prev.value, x, y)
  {
    hide Conv, Region, PixelDiffers;
    NotCovered(s, rects, x, x, y);
    if !s.rgb {
      NotCovered(s, rects, x, Even(x), y);
      NotCovered(s, rects, x, Even(x) + 1, y);
    }
    ConvSame(s, full, cur, prev.value, x, y);
  }

  lemma NotCovered(s: Source, rects: seq<Rect>, x: nat, x': nat, y: nat)
    requires Converts(s, x) && y < s.h && !Written(s, rects, |rects|, x, y)
    requires x' == x || (!s.rgb && (x' == Even(x) || x' == Even(x) + 1))
    ensures !Covered(rects, x', y)
  {
    hide Region;
    forall i | 0 <= i < |rects| && rects[i].Has(x', y)
      ensures false
    {
      PairConverted(s, rects[i], x, y);
    }
  }

  // ------------------------------------------------------------- capture

  class Grabber {
    const s: Source
    const full: bool                 // quantization range
    const grid: array2<bool>         // tile_dirty
    const master: array2<Pixel>
    var bufs: seq<Frame>             // the mapped buffers
    var queued: seq<bool>            // owned by the driver
    var prev: int                    // the retained frame, -1 when none
    ghost var lost: set<int>         // buffers the driver refused to take back

    ghost predicate Shape()
      reads this`bufs
    {
      && s.Valid() && GridOk(s, grid) && MasterOk(s, master)
      && forall i | 0 <= i < |bufs| :: FrameOk(s, bufs[i])
    }

    /** Every buffer is with the driver, retained or lost, and only one of
        these. */
    ghost predicate Owned()
      reads this`bufs, this`queued, this`prev, this`lost
    {
      && |queued| == |bufs| && -1 <= prev < |bufs| && prev !in lost
      && forall i | 0 <= i < |bufs| :: queued[i] <==> i != prev && i !in lost
    }

    ghost predicate Valid()
      reads this`bufs, this`queued, this`prev, this`lost, master
    {
      && Shape() && Owned()
      && (prev >= 0 ==> Shows(s, full, master, bufs[prev]))
    }

    /** A stream just started: all buffers queued, nothing retained. */
    constructor (s: Source, full: bool, bufs: seq<Frame>)
      requires s.Valid() && forall i | 0 <= i < |bufs| :: FrameOk(s, bufs[i])
      ensures Valid() && prev == -1 && lost == {} && this.s == s && fresh(master)
      ensures forall x, y | 0 <= x < s.w && 0 <= y < s.h :: master[y, x] == 0
    {
      hide Source.TilesX, Source.TilesY;
      this.s, this.full, this.bufs := s, full, bufs;
      grid := new bool[s.TilesY(), s.TilesX()];
      master := new Pixel[s.h, s.w]((i, j) => 0);
      queued := seq(|bufs|, i => true);
      prev, lost := -1, {};
    }

    /** The driver fills a buffer it owns; it may do so at any moment. */
    method Fill(idx: nat, f: Frame)
      requires Valid() && idx < |bufs| && queued[idx] && FrameOk(s, f)
      modifies this`bufs
      ensures Valid() && bufs == old(bufs)[idx := f]
    {
      bufs := bufs[idx := f];
    }

    /** Hands a buffer back; `accepted` answers the ioctl. */
    method Release(idx: int, accepted: bool)
      requires |queued| == |bufs| && (0 <= idx < |bufs| ==> !queued[idx])
      modifies this`queued, this`lost
      ensures queued == if 0 <= idx < |bufs| && accepted then old(queued)[idx := true] else old(queued)
      ensures lost == old(lost) + if 0 <= idx < |bufs| && !accepted then {idx} else {}
    {
      if idx < 0 || idx >= |bufs| { return; }
      if !accepted {
        lost := lost + {idx};
        return;
      }
      queued := queued[idx := true];
    }

    method ConvertAll(cur: Frame, rects: seq<Rect>)
      requires s.Valid() && FrameOk(s, cur) && MasterOk(s, master)
      modifies master
      ensures forall x, y | 0 <= x < s.w && 0 <= y < s.h ::
                master[y, x] == if Written(s, rects, |rects|, x, y) then Conv(s, full, cur, x, y) else old(master[y, x])
    {
      hide Conv, Region, Converts, Source.Valid;
      for i := 0 to |rects|
        invariant forall x, y | 0 <= x < s.w && 0 <= y < s.h ::
                    master[y, x] == if Written(s, rects, i, x, y) then Conv(s, full, cur, x, y) else old(master[y, x])
      {
        ConvertRect(s, full, master, cur, rects[i]);
        WrittenStep(s, rects, i);
      }
    }

    /** Compares with the previous frame and covers what changed. */
    method Survey(cur: Frame, before: Option<Frame>) returns (rects: seq<Rect>)
      requires Shape() && FrameOk(s, cur) && (before.Some? ==> FrameOk(s, before.value))
      modifies grid
      ensures |rects| <= MAX_RECTS && AllInside(rects, s.w, s.h) && Reports(s, cur, before, rects)
      ensures s.tile % 2 == 0 ==> forall i | 0 <= i < |rects| :: Aligned(s, rects[i])
      ensures before == Some(cur) ==> rects == []
      ensures |GridBlocks(grid)| <= MAX_RECTS ==> Precise(s, cur, before, rects)
    {
      hide GridBlocks, Source.TilesX, Source.TilesY, Dirties, Source.Valid, Tight, Dirty, PixelDiffers, Scaled, TileChanged;
      var n := Diff(s, grid, cur, before);
      rects := [];
      if n > 0 {
        rects := Rects(s, grid, MAX_RECTS);
        RectsReport(s, grid, MAX_RECTS, rects);
      }
      CountReports(s, grid, cur, before, n);
      forall x: nat, y: nat | x < s.w && y < s.h && (before.None? || PixelDiffers(s, cur, before.value, x, y))
        ensures Covered(rects, x, y)
      {
        DirtyCovered(s, grid, cur, before, x, y, n);
      }
      if n > 0 && |GridBlocks(grid)| <= MAX_RECTS {
        BlocksPrecise(s, grid, cur, before);
      }
    }

    /** Compares, converts what changed. The master image then is the current
        frame; every pixel of it that moved lies in a returned rect. */
    method Refresh(cur: Frame, before: Option<Frame>) returns (rects: seq<Rect>)
      requires Shape() && FrameOk(s, cur) && (before.Some? ==> FrameOk(s, before.value) && Shows(s, full, master, before.value))
      modifies grid, master
      ensures Shows(s, full, master, cur)
      ensures |rects| <= MAX_RECTS && AllInside(rects, s.w, s.h) && Reports(s, cur, before, rects)
      ensures before == Some(cur) ==> rects == []
      ensures |GridBlocks(grid)| <= MAX_RECTS ==> Precise(s, cur, before, rects)
      ensures s.rgb || s.tile % 2 == 0 ==> Kept(rects)
    {
      hide Precise, GridBlocks, Source.TilesX, Source.TilesY, Source.Valid, Conv, Reports, Written, Covered, Region;
      rects := Survey(cur, before);
      ConvertAll(cur, rects);
      forall x, y | Converts(s, x) && 0 <= y < s.h
        ensures master[y, x] == Conv(s, full, cur, x, y)
      {
        if !Written(s, rects, |rects|, x, y) {
          Untouched(s, full, cur, before, rects, x, y);
        }
      }
      if s.rgb || s.tile % 2 == 0 {
        forall x, y | 0 <= x < s.w && 0 <= y < s.h && Written(s, rects, |rects|, x, y)
          ensures Covered(rects, x, y)
        {
          WrittenCovered(s, rects, x, y);
        }
      }
    }

    /** Outside the rects the master image did not move. */
    twostate predicate Kept(rects: seq<Rect>)
      requires MasterOk(s, master)
      reads master
    {
      forall x, y | 0 <= x < s.w && 0 <= y < s.h && master[y, x] != old(master[y, x]) :: Covered(rects, x, y)
    }

    /** The previous frame. */
    function Retained(): Option<Frame>
      requires prev < |bufs|
      reads this`bufs, this`prev
    {
      if prev >= 0 then Some(bufs[prev]) else None
    }

    /** A frame is ready in buffer idx: it is compared with the retained one,
        which then goes back to the driver; idx is retained instead. */
    method FrameReady(idx: nat, accepted: bool) returns (rects: seq<Rect>)
      requires Valid() && idx < |bufs| && queued[idx]
      modifies this`queued, this`prev, this`lost, grid, master
      ensures Valid() && prev == idx
      ensures lost == old(lost) + if old(prev) >= 0 && !accepted then {old(prev)} else {}
      ensures |rects| <= MAX_RECTS && AllInside(rects, s.w, s.h)
      ensures s.rgb || s.tile % 2 == 0 ==> Kept(rects)
      ensures Reports(s, bufs[idx], old(Retained()), rects)
      ensures |GridBlocks(grid)| <= MAX_RECTS ==> Precise(s, bufs[idx], old(Retained()), rects)
      ensures old(prev) >= 0 && bufs[idx] == bufs[old(prev)] ==> rects == []
    {
      hide Precise, GridBlocks, Shows, Source.TilesX, Source.TilesY, Source.Valid, Reports, Covered;
      var before := Retained();
      queued := queued[idx := false];
      rects := Refresh(bufs[idx], before);
      Release(prev, accepted);
      prev := idx;
    }

    /** A buffer came back truncated or in error: straight to the driver. */
    method FrameDropped(idx: nat, accepted: bool)
      requires Valid() && idx < |bufs| && queued[idx]
      modifies this`queued, this`lost
      ensures Valid() && lost == old(lost) + if accepted then {} else {idx}
    {
      hide Shows, Source.TilesX, Source.TilesY, Source.Valid;
      queued := queued[idx := false];
      Release(idx, accepted);
    }
  }

  /** No dirty tile is counted only when there is none. */
  lemma {:induction false} NoneDirty(rows: seq<seq<bool>>)
    ensures Dirties(rows) == 0 <==> forall i, j | 0 <= i < |rows| && 0 <= j < |rows[i]| :: !rows[i][j]
  {
    if rows != [] {
      NoneDirty(rows[..|rows| - 1]);
      NoneDirtyRow(rows[|rows| - 1]);
    }
  }

  lemma {:induction false} NoneDirtyRow(row: seq<bool>)
    ensures CountDirty(row) == 0 <==> forall j | 0 <= j < |row| :: !row[j]
  {
    if row != [] {
      NoneDirtyRow(row[..|row| - 1]);
    }
  }

  ghost predicate Marked(s: Source, grid: array2<bool>, cur: Frame, before: Option<Frame>)
    requires s.Valid() && GridOk(s, grid) && FrameOk(s, cur) && (before.Some? ==> FrameOk(s, before.value))
    reads grid
  {
    forall ty, tx | 0 <= ty < s.TilesY() && 0 <= tx < s.TilesX() :: grid[ty, tx] == Dirty(s, cur, before, tx, ty)
  }

  lemma CountReports(s: Source, grid: array2<bool>, cur: Frame, before: Option<Frame>, n: nat)
    requires s.Valid() && GridOk(s, grid) && FrameOk(s, cur) && (before.Some? ==> FrameOk(s, before.value))
    requires Marked(s, grid, cur, before) && n == Dirties(GridRows(grid, s.TilesY()))
    ensures n == 0 ==> forall ty, tx | 0 <= ty < s.TilesY() && 0 <= tx < s.TilesX() :: !grid[ty, tx]
    ensures before == Some(cur) ==> n == 0
  {
    hide Dirties, Source.TilesX, Source.TilesY;
    var rows := GridRows(grid, s.TilesY());
    NoneDirty(rows);
    if n == 0 {
      forall ty, tx | 0 <= ty < s.TilesY() && 0 <= tx < s.TilesX()
        ensures !grid[ty, tx]
      {
        assert !rows[ty][tx];
      }
    }
  }

  lemma DirtyCovered(s: Source, grid: array2<bool>, cur: Frame, before: Option<Frame>, x: nat, y: nat, n: nat)
    requires s.Valid() && GridOk(s, grid) && FrameOk(s, cur) && (before.Some? ==> FrameOk(s, before.value))
    requires Marked(s, grid, cur, before) && n == Dirties(GridRows(grid, s.TilesY()))
    requires x < s.w && y < s.h && (before.None? || PixelDiffers(s, cur, before.value, x, y))
    ensures n > 0 && Covered(Scaled(s, GridBlocks(grid)), x, y)
  {
    hide Dirties, Source.TilesX, Source.TilesY, GridBlocks, PixelDiffers, Differs, Covered;
    var tx, ty := x / s.tile, y / s.tile;
    RectsCover(s, grid, x, y, tx, ty);
    if before.Some? {
      DirtyMeansChanged(s, cur, before.value, tx, ty);
    }
    CountReports(s, grid, cur, before, n);
  }

  /** Within the limit the rects hold nothing but dirty tiles. */
  lemma BlocksPrecise(s: Source, grid: array2<bool>, cur: Frame, before: Option<Frame>)
    requires s.Valid() && GridOk(s, grid) && FrameOk(s, cur) && (before.Some? ==> FrameOk(s, before.value))
    requires Marked(s, grid, cur, before)
    ensures Precise(s, cur, before, Scaled(s, GridBlocks(grid)))
  {
    hide Source.TilesX, Source.TilesY, GridBlocks, PixelDiffers, Differs, Covered;
    forall x: nat, y: nat | x < s.w && y < s.h && Covered(Scaled(s, GridBlocks(grid)), x, y)
      ensures TileChanged(s, cur, before, x / s.tile, y / s.tile)
    {
      RectsCover(s, grid, x, y, x / s.tile, y / s.tile);
      if before.Some? {
        DirtyMeansChanged(s, cur, before.value, x / s.tile, y / s.tile);
      }
    }
  }

  lemma WrittenCovered(s: Source, rects: seq<Rect>, x: nat, y: nat)
    requires AllInside(rects, s.w, s.h) && (s.rgb || forall i | 0 <= i < |rects| :: Aligned(s, rects[i]))
    requires x < s.w && y < s.h && Written(s, rects, |rects|, x, y)
    ensures Covered(rects, x, y)
  {
    hide Region, Converts, Aligned;
    var j :| 0 <= j < |rects| && Region(s, rects[j]).Has(x, y);
    AlignedStays(s, rects[j], x, y);
  }

  lemma WrittenStep(s: Source, rects: seq<Rect>, i: nat)
    requires i < |rects|
    ensures forall x, y :: Written(s, rects, i + 1, x, y) <==>
              Written(s, rects, i, x, y) || (Converts(s, x) && Region(s, rects[i]).Has(x, y))
  {
    hide Region, Converts;
  }
}
