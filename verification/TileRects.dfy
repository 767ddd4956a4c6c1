/** From dirty tiles to rects: runs of tiles in a row, extended downwards
    while the next row has the same run; one bounding box when there are too
    many. */
module TileRects {
  import opened Common
  import opened Geometry
  import opened Tiles

  type Grid = seq<seq<bool>>

  ghost predicate Shaped(g: Grid, w: nat) { forall ty | 0 <= ty < |g| :: |g[ty]| == w }

  // ------------------------------------------------- blocks, in tile units

  /** Where the run of dirty tiles that starts at tx ends. */
  function RunEnd(row: seq<bool>, tx: nat): (e: nat)
    requires tx < |row| && row[tx]
    ensures tx < e <= |row| && (forall k | tx <= k < e :: row[k]) && (e < |row| ==> !row[e])
    decreases |row| - tx
  {
    if tx + 1 < |row| && row[tx + 1] then RunEnd(row, tx + 1) else tx + 1
  }

  /** r continues b downwards. */
  predicate Stacks(b: Rect, r: Rect) { b.y2 == r.y1 && b.x1 == r.x1 && b.x2 == r.x2 }

  /** The last rect that r continues, or -1. */
  function Above(bs: seq<Rect>, r: Rect): (i: int)
    ensures -1 <= i < |bs| && (i >= 0 ==> Stacks(bs[i], r))
    ensures forall k | i < k < |bs| :: !Stacks(bs[k], r)
  {
    if bs == [] then -1
    else if Stacks(bs[|bs| - 1], r) then |bs| - 1
    else Above(bs[..|bs| - 1], r)
  }

  function Extend(bs: seq<Rect>, r: Rect): seq<Rect> {
    var i := Above(bs, r);
    if i >= 0 then bs[i := bs[i].(y2 := r.y2)] else bs + [r]
  }

  /** Row ty from tile tx on. */
  function RowBlocks(row: seq<bool>, ty: nat, tx: nat, bs: seq<Rect>): seq<Rect>
    decreases |row| - tx
  {
    if tx >= |row| then bs
    else if !row[tx] then RowBlocks(row, ty, tx + 1, bs)
    else
      var e := RunEnd(row, tx);
      RowBlocks(row, ty, e, Extend(bs, Rect(tx, ty, e, ty + 1)))
  }

  /** Rows ty and below. */
  function Blocks(g: Grid, ty: nat, bs: seq<Rect>): seq<Rect>
    decreases |g| - ty
  {
    if ty >= |g| then bs else Blocks(g, ty + 1, RowBlocks(g[ty], ty, 0, bs))
  }

  ghost predicate Disjoint(bs: seq<Rect>) {
    forall i, j, x, y | 0 <= i < |bs| && 0 <= j < |bs| && bs[i].Has(x, y) && bs[j].Has(x, y) :: i == j
  }

  ghost predicate DirtyAt(g: Grid, w: nat, x: int, y: int)
    requires Shaped(g, w)
  {
    0 <= y < |g| && 0 <= x < w && g[y][x]
  }

  /** The blocks are the dirty tiles above row ty and those of row ty left of
      tx, each exactly once. */
  ghost predicate Exact(bs: seq<Rect>, g: Grid, w: nat, ty: nat, tx: nat)
    requires Shaped(g, w)
  {
    && AllInside(bs, w, |g|) && Disjoint(bs)
    && forall x, y :: Covered(bs, x, y) <==> (y < ty || (y == ty && x < tx)) && DirtyAt(g, w, x, y)
  }

  lemma ExtendCovers(bs: seq<Rect>, r: Rect)
    requires forall i | 0 <= i < |bs| :: bs[i].y1 <= bs[i].y2
    requires r.y1 <= r.y2
    ensures forall x, y :: Covered(Extend(bs, r), x, y) <==> Covered(bs, x, y) || r.Has(x, y)
  {
    var out := Extend(bs, r);
    var i := Above(bs, r);
    forall x, y
      ensures Covered(out, x, y) <==> Covered(bs, x, y) || r.Has(x, y)
    {
      if Covered(bs, x, y) {
        var k :| 0 <= k < |bs| && bs[k].Has(x, y);
        assert out[k].Has(x, y);
      }
      if r.Has(x, y) {
        assert out[if i >= 0 then i else |bs|].Has(x, y);
      }
      if k :| 0 <= k < |out| && out[k].Has(x, y) && !r.Has(x, y) {
        assert bs[k].Has(x, y);
      }
    }
  }

  /** Extending changes one rect only. */
  lemma OnlyThere(bs: seq<Rect>, r: Rect, i: nat, x: int, y: int)
    requires i < |Extend(bs, r)| && Extend(bs, r)[i].Has(x, y)
    ensures i == (if Above(bs, r) >= 0 then Above(bs, r) else |bs|) || Covered(bs, x, y)
  {
    if i != (if Above(bs, r) >= 0 then Above(bs, r) else |bs|) {
      assert bs[i].Has(x, y);
    }
  }

  /** A run of tiles not covered so far joins the blocks. */
  lemma ExtendDisjoint(bs: seq<Rect>, r: Rect)
    requires Disjoint(bs) && r.y1 <= r.y2
    requires forall i | 0 <= i < |bs| :: bs[i].y1 <= bs[i].y2
    requires forall x, y | r.Has(x, y) :: !Covered(bs, x, y)
    ensures Disjoint(Extend(bs, r))
  {
    var out := Extend(bs, r);
    forall i, j, x, y | 0 <= i < |out| && 0 <= j < |out| && out[i].Has(x, y) && out[j].Has(x, y)
      ensures i == j
    {
      if r.Has(x, y) {
        OnlyThere(bs, r, i, x, y);
        OnlyThere(bs, r, j, x, y);
      } else {
        assert bs[i].Has(x, y) && bs[j].Has(x, y);
      }
    }
  }

  lemma ExtendExact(bs: seq<Rect>, g: Grid, w: nat, ty: nat, tx: nat, e: nat)
    requires Shaped(g, w) && Exact(bs, g, w, ty, tx) && ty < |g| && tx < w && g[ty][tx] && e == RunEnd(g[ty], tx)
    ensures Exact(Extend(bs, Rect(tx, ty, e, ty + 1)), g, w, ty, e)
  {
    hide Disjoint, Covered, Extend, RunEnd;
    var r := Rect(tx, ty, e, ty + 1);
    ExtendCovers(bs, r);
    ExtendDisjoint(bs, r);
    ExtendInside(bs, r, w, |g|);
  }

  lemma ExtendInside(bs: seq<Rect>, r: Rect, w: nat, h: nat)
    requires AllInside(bs, w, h) && r.Inside(w, h)
    ensures AllInside(Extend(bs, r), w, h) && |bs| <= |Extend(bs, r)|
  {}

  lemma {:induction false} RowExact(bs: seq<Rect>, g: Grid, w: nat, ty: nat, tx: nat)
    requires Shaped(g, w) && ty < |g| && tx <= w && Exact(bs, g, w, ty, tx)
    ensures Exact(RowBlocks(g[ty], ty, tx, bs), g, w, ty + 1, 0)
    decreases w - tx
  {
    hide Disjoint, Covered, Extend, RunEnd;
    if tx < w {
      if !g[ty][tx] {
        RowExact(bs, g, w, ty, tx + 1);
      } else {
        var e := RunEnd(g[ty], tx);
        ExtendExact(bs, g, w, ty, tx, e);
        RowExact(Extend(bs, Rect(tx, ty, e, ty + 1)), g, w, ty, e);
      }
    }
  }

  lemma {:induction false} BlocksExact(bs: seq<Rect>, g: Grid, w: nat, ty: nat)
    requires Shaped(g, w) && ty <= |g| && Exact(bs, g, w, ty, 0)
    ensures Exact(Blocks(g, ty, bs), g, w, |g|, 0)
    decreases |g| - ty
  {
    hide Exact, RowBlocks;
    if ty < |g| {
      RowExact(bs, g, w, ty, 0);
      BlocksExact(RowBlocks(g[ty], ty, 0, bs), g, w, ty + 1);
    }
  }

  lemma {:induction false} RowGrows(row: seq<bool>, ty: nat, tx: nat, bs: seq<Rect>)
    ensures |bs| <= |RowBlocks(row, ty, tx, bs)|
    decreases |row| - tx
  {
    if tx < |row| {
      if !row[tx] {
        RowGrows(row, ty, tx + 1, bs);
      } else {
        RowGrows(row, ty, RunEnd(row, tx), Extend(bs, Rect(tx, ty, RunEnd(row, tx), ty + 1)));
      }
    }
  }

  lemma {:induction false} BlocksGrow(g: Grid, ty: nat, bs: seq<Rect>)
    ensures |bs| <= |Blocks(g, ty, bs)|
    decreases |g| - ty
  {
    if ty < |g| {
      RowGrows(g[ty], ty, 0, bs);
      BlocksGrow(g, ty + 1, RowBlocks(g[ty], ty, 0, bs));
    }
  }

  // ------------------------------------------------------ pixel rects

  /** The pixels of a block of tiles. */
  function Scale(s: Source, b: Rect): Rect
  {
    Rect(b.x1 * s.tile, b.y1 * s.tile, Min(b.x2 * s.tile, s.w), Min(b.y2 * s.tile, s.h))
  }

  function Scaled(s: Source, bs: seq<Rect>): (rs: seq<Rect>)
    ensures |rs| == |bs| && forall i | 0 <= i < |bs| :: rs[i] == Scale(s, bs[i])
  {
    seq(|bs|, i requires 0 <= i < |bs| => Scale(s, bs[i]))
  }

  /** Along one axis of n pixels: a pixel lies in the tiles k1..k2. */
  lemma AxisHas(x: nat, k1: nat, k2: nat, tile: nat, n: nat)
    requires tile > 0 && x < n
    ensures k1 * tile <= x < Min(k2 * tile, n) <==> k1 <= x / tile < k2
  {
    TileOf(x, k1, tile);
    TileOf(x, k2, tile);
  }

  lemma AxisInside(k1: nat, k2: nat, tile: nat, n: nat)
    requires tile > 0 && k1 < k2 <= (n + tile - 1) / tile
    ensures 0 <= k1 * tile < Min(k2 * tile, n) <= n
  {
    TileBounds(k1, tile, n);
    assert k1 * tile < k2 * tile;
  }

  /** Ends of tile runs are equal exactly when the runs end at the same tile. */
  lemma AxisEnd(a: nat, b: nat, tile: nat, n: nat)
    requires tile > 0 && 0 < a <= (n + tile - 1) / tile && 0 < b <= (n + tile - 1) / tile
    ensures Min(a * tile, n) == Min(b * tile, n) <==> a == b
  {
    TileBounds(a - 1, tile, n);
    TileBounds(b - 1, tile, n);
    if a < b {
      EndsGrow(a, b, tile, n);
    } else if b < a {
      EndsGrow(b, a, tile, n);
    }
  }

  lemma EndsGrow(a: nat, b: nat, tile: nat, n: nat)
    requires tile > 0 && a < b && (b - 1) * tile < n
    ensures Min(a * tile, n) < Min(b * tile, n)
  {
    assert a * tile <= (b - 1) * tile;
    assert b * tile == (b - 1) * tile + tile;
  }

  lemma ScaleHas(s: Source, b: Rect, x: nat, y: nat)
    requires s.Valid() && b.Inside(s.TilesX(), s.TilesY()) && x < s.w && y < s.h
    ensures Scale(s, b).Has(x, y) <==> b.Has(x / s.tile, y / s.tile)
  {
    AxisHas(x, b.x1, b.x2, s.tile, s.w);
    AxisHas(y, b.y1, b.y2, s.tile, s.h);
  }

  lemma ScaleInside(s: Source, b: Rect)
    requires s.Valid() && b.Inside(s.TilesX(), s.TilesY())
    ensures Scale(s, b).Inside(s.w, s.h)
  {
    AxisInside(b.x1, b.x2, s.tile, s.w);
    AxisInside(b.y1, b.y2, s.tile, s.h);
  }

  /** Stacking is seen the same way in pixels and in tiles. */
  lemma ScaleStacks(s: Source, b: Rect, r: Rect)
    requires s.Valid() && b.Inside(s.TilesX(), s.TilesY()) && r.Inside(s.TilesX(), s.TilesY())
    ensures Stacks(Scale(s, b), Scale(s, r)) <==> Stacks(b, r)
  {
    assert 0 < b.x2 <= (s.w + s.tile - 1) / s.tile && 0 < r.x2 <= (s.w + s.tile - 1) / s.tile;
    AxisEnd(b.x2, r.x2, s.tile, s.w);
    AxisStart(b.x1, r.x1, s.tile);
    AxisMeets(b.y2, r.y1, s.tile, s.h);
  }

  /** A run that ends where tile row k starts ends with the row above it. */
  lemma AxisMeets(e: nat, k: nat, tile: nat, n: nat)
    requires tile > 0 && k < (n + tile - 1) / tile
    ensures Min(e * tile, n) == k * tile <==> e == k
  {
    TileBounds(k, tile, n);
    AxisStart(e, k, tile);
  }

  lemma AxisStart(a: nat, b: nat, tile: nat)
    requires tile > 0
    ensures a * tile == b * tile <==> a == b
  {
    if a < b {
      assert (a + 1) * tile <= b * tile;
    } else if b < a {
      assert (b + 1) * tile <= a * tile;
    }
  }

  lemma ScaledExtend(s: Source, bs: seq<Rect>, r: Rect)
    requires s.Valid() && AllInside(bs, s.TilesX(), s.TilesY()) && r.Inside(s.TilesX(), s.TilesY())
    ensures Extend(Scaled(s, bs), Scale(s, r)) == Scaled(s, Extend(bs, r))
  {
    hide Scale, Source.TilesX, Source.TilesY, Source.Valid;
    var rs := Scaled(s, bs);
    forall i | 0 <= i < |bs|
      ensures Stacks(rs[i], Scale(s, r)) <==> Stacks(bs[i], r)
    {
      ScaleStacks(s, bs[i], r);
    }
    var i := Above(bs, r);
    assert Above(rs, Scale(s, r)) == i by {
      var j := Above(rs, Scale(s, r));
      assert i < 0 || Stacks(rs[i], Scale(s, r));
      assert j < 0 || Stacks(bs[j], r);
    }
    if i >= 0 {
      ScaleY2(s, bs[i], r);
    }
  }

  lemma ScaleY2(s: Source, b: Rect, r: Rect)
    ensures Scale(s, b).(y2 := Scale(s, r).y2) == Scale(s, b.(y2 := r.y2))
  {}

  lemma TightExtend(box: Rect, rs: seq<Rect>, r: Rect)
    requires Tight(box, rs) && r.y1 <= r.y2 && forall i | 0 <= i < |rs| :: rs[i].y1 <= rs[i].y2
    ensures Tight(Union(box, r), Extend(rs, r))
  {
    var out := Extend(rs, r);
    var i := Above(rs, r);
    forall v | forall i | 0 <= i < |out| :: Contains(v, out[i])
      ensures Contains(v, Union(box, r))
    {
      assert Contains(v, out[if i >= 0 then i else |rs|]);
      assert forall k | 0 <= k < |rs| :: Contains(out[k], rs[k]);
    }
  }

  lemma TightFirst(box: Rect, r: Rect, w: nat, h: nat)
    requires r.Inside(w, h) && box == Rect(w, h, 0, 0)
    ensures Tight(Union(box, r), Extend([], r))
  {
    assert Union(box, r) == r && Extend([], r) == [r];
    TightOne(r);
  }

  // ------------------------------------------------------------ the method

  /** The blocks of a whole grid. */
  function GridBlocks(grid: array2<bool>): seq<Rect>
    reads grid
  {
    Blocks(GridRows(grid, grid.Length0), 0, [])
  }

  /** What the scan has so far: the pixel rects of the blocks bs while they
      fit, and their bounding box. */
  datatype Scan = Scan(out: seq<Rect>, overflow: bool, box: Rect) {
    ghost predicate Of(s: Source, bs: seq<Rect>, max: nat)
      requires s.Valid()
    {
      && AllInside(bs, s.TilesX(), s.TilesY())
      && (if overflow then |bs| > max else |bs| <= max && out == Scaled(s, bs))
      && (if bs == [] then box == Rect(s.w, s.h, 0, 0) else Tight(box, Scaled(s, bs)))
    }
  }

  /** The last rect that r prolongs. */
  method FindAbove(out: seq<Rect>, r: Rect) returns (i: int)
    ensures i == Above(out, r)
  {
    i := |out| - 1;
    while i >= 0 && !Stacks(out[i], r)
      invariant -1 <= i < |out|
      invariant forall k | i < k < |out| :: !Stacks(out[k], r)
    {
      i := i - 1;
    }
  }

  /** One more run of dirty tiles, b in tile units. */
  method AddRun(s: Source, b: Rect, max: nat, ghost bs: seq<Rect>, scan: Scan) returns (next: Scan)
    requires s.Valid() && max > 0 && scan.Of(s, bs, max) && b.Inside(s.TilesX(), s.TilesY())
    ensures next.Of(s, Extend(bs, b), max)
  {
    hide Scale, Source.TilesX, Source.TilesY, Tight, Extend;
    var r := Scale(s, b);
    ScaledExtend(s, bs, b);
    ExtendInside(bs, b, s.TilesX(), s.TilesY());
    BoxExtends(s, bs, b, scan.box);
    next := scan.(box := Union(scan.box, r));
    if scan.overflow { return; }
    var i := FindAbove(scan.out, r);
    ExtendSize(scan.out, r);
    if i >= 0 {
      next := next.(out := scan.out[i := scan.out[i].(y2 := r.y2)]);
    } else if |scan.out| < max {
      next := next.(out := scan.out + [r]);
    } else {
      next := next.(overflow := true);
    }
  }

  lemma ExtendSize(rs: seq<Rect>, r: Rect)
    ensures var i := Above(rs, r);
            Extend(rs, r) == if i >= 0 then rs[i := rs[i].(y2 := r.y2)] else rs + [r]
  {}

  lemma BoxExtends(s: Source, bs: seq<Rect>, b: Rect, box: Rect)
    requires s.Valid() && AllInside(bs, s.TilesX(), s.TilesY()) && b.Inside(s.TilesX(), s.TilesY())
    requires if bs == [] then box == Rect(s.w, s.h, 0, 0) else Tight(box, Scaled(s, bs))
    ensures Tight(Union(box, Scale(s, b)), Scaled(s, Extend(bs, b))) && Extend(bs, b) != []
  {
    hide Scale, Source.TilesX, Source.TilesY, Tight;
    ScaledExtend(s, bs, b);
    ScaleInside(s, b);
    forall i | 0 <= i < |bs|
      ensures Scale(s, bs[i]).y1 <= Scale(s, bs[i]).y2
    {
      ScaleInside(s, bs[i]);
    }
    if bs == [] {
      TightFirst(box, Scale(s, b), s.w, s.h);
      assert Scaled(s, bs) == [];
    } else {
      TightExtend(box, Scaled(s, bs), Scale(s, b));
    }
  }

  /** The runs of one row of tiles. */
  method ScanRow(s: Source, row: seq<bool>, ty: nat, max: nat, ghost bs: seq<Rect>, scan: Scan) returns (next: Scan)
    requires s.Valid() && max > 0 && scan.Of(s, bs, max) && ty < s.TilesY() && |row| == s.TilesX()
    ensures next.Of(s, RowBlocks(row, ty, 0, bs), max)
  {
    hide Scan.Of, Source.TilesX, Source.TilesY, Source.Valid, Extend;
    next := scan;
    ghost var now := bs;
    var tx := 0;
    while tx < |row|
      invariant 0 <= tx <= |row| && next.Of(s, now, max)
      invariant RowBlocks(row, ty, 0, bs) == RowBlocks(row, ty, tx, now)
    {
      if !row[tx] {
        tx := tx + 1;
        continue;
      }
      var e := tx;
      while e + 1 < |row| && row[e + 1]
        invariant tx <= e < |row| && row[e] && RunEnd(row, tx) == RunEnd(row, e)
      {
        e := e + 1;
      }
      next := AddRun(s, Rect(tx, ty, e + 1, ty + 1), max, now, next);
      now := Extend(now, Rect(tx, ty, e + 1, ty + 1));
      tx := e + 1;
    }
  }

  /** The dirty tiles as at most max rects of pixels. */
  method Rects(s: Source, grid: array2<bool>, max: int) returns (out: seq<Rect>)
    requires s.Valid() && GridOk(s, grid)
    ensures max <= 0 ==> out == []
    ensures 0 < max && |GridBlocks(grid)| <= max ==> out == Scaled(s, GridBlocks(grid))
    ensures 0 < max < |GridBlocks(grid)| ==> |out| == 1 && Tight(out[0], Scaled(s, GridBlocks(grid)))
  {
    hide Source.TilesX, Source.TilesY, Source.Valid, RowBlocks, Tight;
    if max <= 0 { return []; }
    var scan := Scan([], false, Rect(s.w, s.h, 0, 0));
    ghost var bs := [];
    ghost var g := GridRows(grid, grid.Length0);
    var ty := 0;
    while ty < grid.Length0
      invariant 0 <= ty <= grid.Length0 && scan.Of(s, bs, max)
      invariant GridBlocks(grid) == Blocks(g, ty, bs)
    {
      var row := GridRow(grid, ty);
      scan := ScanRow(s, row, ty, max, bs, scan);
      bs := RowBlocks(g[ty], ty, 0, bs);
      ty := ty + 1;
    }
    out := if scan.overflow then [scan.box] else scan.out;
  }

  // -------------------------------------------------------------- results

  /** Without overflow: in bounds, no pixel twice, and exactly the pixels of
      the dirty tiles. */
  lemma RectsExact(s: Source, grid: array2<bool>)
    requires s.Valid() && GridOk(s, grid)
    ensures var out := Scaled(s, GridBlocks(grid));
      && AllInside(out, s.w, s.h) && Disjoint(out)
  {
    hide Scale, Source.TilesX, Source.TilesY, Blocks;
    var bs := GridBlocks(grid);
    GridExact(s, grid);
    var out := Scaled(s, bs);
    forall i | 0 <= i < |bs|
      ensures out[i].Inside(s.w, s.h)
    {
      ScaleInside(s, bs[i]);
    }
    forall i, j, x, y | 0 <= i < |out| && 0 <= j < |out| && out[i].Has(x, y) && out[j].Has(x, y)
      ensures i == j
    {
      ScaleHas(s, bs[i], x, y);
      ScaleHas(s, bs[j], x, y);
    }
  }

  lemma GridExact(s: Source, grid: array2<bool>)
    requires s.Valid() && GridOk(s, grid)
    ensures Exact(GridBlocks(grid), GridRows(grid, grid.Length0), s.TilesX(), s.TilesY(), 0)
  {
    hide Blocks, Source.TilesX, Source.TilesY;
    BlocksExact([], GridRows(grid, grid.Length0), s.TilesX(), 0);
  }

  lemma PixelInGrid(s: Source, x: nat, y: nat)
    requires s.Valid() && x < s.w && y < s.h
    ensures x / s.tile < s.TilesX() && y / s.tile < s.TilesY()
  {
    PixelTile(x, s.w, s.tile);
    PixelTile(y, s.h, s.tile);
  }

  /** A pixel is covered exactly when its tile is dirty. */
  lemma RectsCover(s: Source, grid: array2<bool>, x: nat, y: nat, tx: nat, ty: nat)
    requires s.Valid() && GridOk(s, grid) && x < s.w && y < s.h && tx == x / s.tile && ty == y / s.tile
    ensures tx < s.TilesX() && ty < s.TilesY()
    ensures Covered(Scaled(s, GridBlocks(grid)), x, y) <==> grid[ty, tx]
  {
    hide Scale, GridBlocks, Source.TilesX, Source.TilesY, Exact, Covered;
    PixelInGrid(s, x, y);
    ExactAt(s, grid, tx, ty);
    ScaledCovered(s, GridBlocks(grid), x, y);
  }

  lemma ExactAt(s: Source, grid: array2<bool>, tx: nat, ty: nat)
    requires s.Valid() && GridOk(s, grid) && tx < s.TilesX() && ty < s.TilesY()
    ensures Covered(GridBlocks(grid), tx, ty) <==> grid[ty, tx]
    ensures AllInside(GridBlocks(grid), s.TilesX(), s.TilesY())
  {
    hide Source.TilesX, Source.TilesY, Covered, GridBlocks;
    GridExact(s, grid);
  }

  lemma ScaledCovered(s: Source, bs: seq<Rect>, x: nat, y: nat)
    requires s.Valid() && AllInside(bs, s.TilesX(), s.TilesY()) && x < s.w && y < s.h
    ensures Covered(Scaled(s, bs), x, y) <==> Covered(bs, x / s.tile, y / s.tile)
  {
    hide Scale, Source.TilesX, Source.TilesY;
    forall i | 0 <= i < |bs|
      ensures Scale(s, bs[i]).Has(x, y) <==> bs[i].Has(x / s.tile, y / s.tile)
    {
      ScaleHas(s, bs[i], x, y);
    }
  }

  /** v holds every pixel of every dirty tile. */
  ghost predicate HoldsDirty(s: Source, grid: array2<bool>, v: Rect)
    requires s.Valid() && GridOk(s, grid)
    reads grid
  {
    forall x: nat, y: nat | x < s.w && y < s.h && Covered(Scaled(s, GridBlocks(grid)), x, y) :: v.Has(x, y)
  }

  /** On overflow: the smallest rect that holds every pixel of the dirty
      tiles, inside the frame. */
  lemma OverflowBox(s: Source, grid: array2<bool>, box: Rect)
    requires s.Valid() && GridOk(s, grid) && GridBlocks(grid) != [] && Tight(box, Scaled(s, GridBlocks(grid)))
    ensures box.Inside(s.w, s.h) && HoldsDirty(s, grid, box)
    ensures forall v | HoldsDirty(s, grid, v) :: Contains(v, box)
  {
    hide Scale, GridBlocks, Source.TilesX, Source.TilesY;
    RectsExact(s, grid);
    var rs := Scaled(s, GridBlocks(grid));
    assert Contains(Rect(0, 0, s.w, s.h), box);
    assert Contains(box, rs[0]) && rs[0].Inside(s.w, s.h);
    forall v | HoldsDirty(s, grid, v)
      ensures Contains(v, box)
    {
      forall i | 0 <= i < |rs|
        ensures Contains(v, rs[i])
      {
        assert rs[i].Inside(s.w, s.h) && rs[i].Has(rs[i].x1, rs[i].y1) && rs[i].Has(rs[i].x2 - 1, rs[i].y2 - 1);
        assert v.Has(rs[i].x1, rs[i].y1) && v.Has(rs[i].x2 - 1, rs[i].y2 - 1);
      }
    }
  }
}
