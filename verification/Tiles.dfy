/** Tile diff of a captured frame against the previous one, and the rects
    that cover the dirty tiles. */
module Tiles {
  import opened Wire
  import opened Common

  datatype Source = Source(w: nat, h: nat, tile: nat, rgb: bool, stride: nat) {
    predicate Valid() { w > 0 && h > 0 && tile > 0 && stride >= w * Bpp() }
    function Bpp(): nat { if rgb then 3 else 2 }
    function TilesX(): nat requires tile > 0 { (w + tile - 1) / tile }
    function TilesY(): nat requires tile > 0 { (h + tile - 1) / tile }
  }

  /** A captured frame, by rows of `stride` bytes. */
  type Frame = seq<seq<byte>>

  ghost predicate FrameOk(s: Source, f: Frame) {
    |f| == s.h && forall y | 0 <= y < s.h :: |f[y]| == s.stride
  }

  ghost predicate GridOk(s: Source, grid: array2<bool>) {
    s.tile > 0 && grid.Length0 == s.TilesY() && grid.Length1 == s.TilesX()
  }

  /** The end of tile number k along an axis of n pixels. */
  function TileEnd(k: nat, tile: nat, n: nat): nat { Min((k + 1) * tile, n) }

  // ------------------------------------------------------ tile arithmetic

  lemma TileOf(x: nat, k: nat, tile: nat)
    requires tile > 0
    ensures k * tile <= x <==> k <= x / tile
  {
    var q, r := x / tile, x % tile;
    assert x == q * tile + r;
    if k <= q {
      assert k * tile <= q * tile;
    } else {
      assert (q + 1) * tile <= k * tile;
    }
  }

  /** The tiles 0..n of an axis: inside, not empty, and every pixel in one. */
  lemma TileBounds(k: nat, tile: nat, n: nat)
    requires tile > 0
    ensures k < (n + tile - 1) / tile <==> k * tile < n
    ensures k * tile < n ==> k * tile < TileEnd(k, tile, n) <= n
  {
    TileOf(n + tile - 1, k + 1, tile);
    assert (k + 1) * tile == k * tile + tile;
  }

  lemma PixelTile(x: nat, n: nat, tile: nat)
    requires tile > 0 && x < n
    ensures var k := x / tile; k < (n + tile - 1) / tile && k * tile <= x < TileEnd(k, tile, n)
  {
    TileOf(x, x / tile, tile);
    TileOf(x, x / tile + 1, tile);
    TileBounds(x / tile, tile, n);
  }

  lemma TileMember(x: nat, k: nat, tile: nat, n: nat)
    requires tile > 0 && k * tile <= x < TileEnd(k, tile, n)
    ensures k == x / tile && x < n
  {
    TileOf(x, k, tile);
    TileOf(x, k + 1, tile);
  }

  // ---------------------------------------------------------------- diff

  /** The bytes of tile column tx in one row. */
  function Span(s: Source, row: seq<byte>, tx: nat): seq<byte>
    requires s.Valid() && |row| == s.stride && tx < s.TilesX()
  {
    SpanBounds(s, tx);
    row[tx * s.tile * s.Bpp()..TileEnd(tx, s.tile, s.w) * s.Bpp()]
  }

  lemma SpanBounds(s: Source, tx: nat)
    requires s.Valid() && tx < s.TilesX()
    ensures 0 <= tx * s.tile * s.Bpp() <= TileEnd(tx, s.tile, s.w) * s.Bpp() <= s.stride
  {
    TileBounds(tx, s.tile, s.w);
    var e := TileEnd(tx, s.tile, s.w);
    assert tx * s.tile <= e <= s.w;
  }

  /** Row y of tile column tx is not what it was. */
  predicate RowDiffers(s: Source, cur: Frame, prev: Frame, tx: nat, y: nat)
    requires s.Valid() && FrameOk(s, cur) && FrameOk(s, prev) && tx < s.TilesX() && y < s.h
  {
    Span(s, cur[y], tx) != Span(s, prev[y], tx)
  }

  /** Some row of tile (tx, ty) above row `end` is not what it was. */
  ghost predicate Differs(s: Source, cur: Frame, prev: Frame, tx: nat, ty: nat, end: nat)
    requires s.Valid() && FrameOk(s, cur) && FrameOk(s, prev) && tx < s.TilesX() && end <= s.h
  {
    exists y | ty * s.tile <= y < end :: RowDiffers(s, cur, prev, tx, y)
  }

  function CountDirty(row: seq<bool>): (n: nat)
    ensures n <= |row|
    ensures n == |row| ==> forall i | 0 <= i < |row| :: row[i]
  {
    if row == [] then 0
    else CountDirty(row[..|row| - 1]) + if row[|row| - 1] then 1 else 0
  }

  lemma {:induction false} CountFlip(row: seq<bool>, i: nat)
    requires i < |row| && !row[i]
    ensures CountDirty(row[i := true]) == CountDirty(row) + 1
  {
    var n := |row| - 1;
    if i < n {
      CountFlip(row[..n], i);
      assert row[i := true][..n] == row[..n][i := true];
    } else {
      assert row[i := true][..n] == row[..n];
    }
  }

  lemma {:induction false} CountClean(row: seq<bool>)
    requires forall i | 0 <= i < |row| :: !row[i]
    ensures CountDirty(row) == 0
  {
    if row != [] {
      CountClean(row[..|row| - 1]);
    }
  }

  function GridRow(grid: array2<bool>, ty: nat): (row: seq<bool>)
    requires ty < grid.Length0
    reads grid
    ensures |row| == grid.Length1 && forall tx | 0 <= tx < |row| :: row[tx] == grid[ty, tx]
  {
    seq(grid.Length1, tx requires 0 <= tx < grid.Length1 reads grid => grid[ty, tx])
  }

  function Dirties(rows: seq<seq<bool>>): nat {
    if rows == [] then 0 else Dirties(rows[..|rows| - 1]) + CountDirty(rows[|rows| - 1])
  }

  function GridRows(grid: array2<bool>, n: nat): (rows: seq<seq<bool>>)
    requires n <= grid.Length0
    reads grid
    ensures |rows| == n && forall ty | 0 <= ty < n :: rows[ty] == GridRow(grid, ty)
  {
    seq(n, ty requires 0 <= ty < n && n <= grid.Length0 reads grid => GridRow(grid, ty))
  }

  /** One line of pixels: one comparison for each tile that is still clean. */
  method DiffLine(s: Source, grid: array2<bool>, ty: nat, y: nat, cur: Frame, prev: Frame, clean0: nat) returns (clean: nat)
    requires s.Valid() && GridOk(s, grid) && FrameOk(s, cur) && FrameOk(s, prev) && ty < s.TilesY() && y < s.h
    requires clean0 == s.TilesX() - CountDirty(GridRow(grid, ty))
    modifies grid
    ensures clean == s.TilesX() - CountDirty(GridRow(grid, ty))
    ensures forall i, tx | 0 <= i < s.TilesY() && 0 <= tx < s.TilesX() ::
              grid[i, tx] == (old(grid[i, tx]) || (i == ty && RowDiffers(s, cur, prev, tx, y)))
  {
    hide RowDiffers, CountDirty, Source.TilesX, Source.TilesY, Source.Valid;
    clean := clean0;
    for tx := 0 to s.TilesX()
      invariant clean == s.TilesX() - CountDirty(GridRow(grid, ty))
      invariant forall i, k | 0 <= i < s.TilesY() && 0 <= k < s.TilesX() ::
                  grid[i, k] == (old(grid[i, k]) || (i == ty && k < tx && RowDiffers(s, cur, prev, k, y)))
    {
      if !grid[ty, tx] && RowDiffers(s, cur, prev, tx, y) {
        CountFlip(GridRow(grid, ty), tx);
        ghost var was := GridRow(grid, ty);
        grid[ty, tx] := true;
        clean := clean - 1;
        assert GridRow(grid, ty) == was[tx := true];
      }
    }
  }

  /** One row of tiles; stops as soon as all of them are dirty. */
  method DiffTiles(s: Source, grid: array2<bool>, ty: nat, cur: Frame, prev: Frame) returns (dirty: nat)
    requires s.Valid() && GridOk(s, grid) && FrameOk(s, cur) && FrameOk(s, prev) && ty < s.TilesY()
    requires forall tx | 0 <= tx < s.TilesX() :: !grid[ty, tx]
    modifies grid
    ensures dirty == CountDirty(GridRow(grid, ty))
    ensures forall tx | 0 <= tx < s.TilesX() :: grid[ty, tx] == Differs(s, cur, prev, tx, ty, TileEnd(ty, s.tile, s.h))
    ensures forall i, tx | 0 <= i < s.TilesY() && 0 <= tx < s.TilesX() && i != ty :: grid[i, tx] == old(grid[i, tx])
  {
    hide RowDiffers, Source.TilesX, Source.TilesY, Source.Valid, CountDirty;
    var y0, y1 := ty * s.tile, TileEnd(ty, s.tile, s.h);
    TileRowBounds(s, ty);
    CountClean(GridRow(grid, ty));
    var clean := s.TilesX();
    var y := y0;
    while y < y1 && clean > 0
      invariant y0 <= y <= y1
      invariant clean == s.TilesX() - CountDirty(GridRow(grid, ty))
      invariant forall tx | 0 <= tx < s.TilesX() :: grid[ty, tx] == Differs(s, cur, prev, tx, ty, y)
      invariant forall i, tx | 0 <= i < s.TilesY() && 0 <= tx < s.TilesX() && i != ty :: grid[i, tx] == old(grid[i, tx])
    {
      clean := DiffLine(s, grid, ty, y, cur, prev, clean);
      y := y + 1;
    }
    dirty := s.TilesX() - clean;
  }

  lemma TileRowBounds(s: Source, ty: nat)
    requires s.Valid() && ty < s.TilesY()
    ensures ty * s.tile <= TileEnd(ty, s.tile, s.h) <= s.h
  {
    TileBounds(ty, s.tile, s.h);
  }

  /** Without a previous frame every tile is dirty. */
  ghost predicate Dirty(s: Source, cur: Frame, prev: Option<Frame>, tx: nat, ty: nat)
    requires s.Valid() && FrameOk(s, cur) && (prev.Some? ==> FrameOk(s, prev.value)) && tx < s.TilesX() && ty < s.TilesY()
  {
    TileRowBounds(s, ty);
    prev.None? || Differs(s, cur, prev.value, tx, ty, TileEnd(ty, s.tile, s.h))
  }

  /** Marks exactly the dirty tiles and counts them. */
  method Diff(s: Source, grid: array2<bool>, cur: Frame, prev: Option<Frame>) returns (n: nat)
    requires s.Valid() && GridOk(s, grid) && FrameOk(s, cur) && (prev.Some? ==> FrameOk(s, prev.value))
    modifies grid
    ensures forall ty, tx | 0 <= ty < s.TilesY() && 0 <= tx < s.TilesX() :: grid[ty, tx] == Dirty(s, cur, prev, tx, ty)
    ensures n == Dirties(GridRows(grid, s.TilesY()))
  {
    hide RowDiffers, Source.TilesX, Source.TilesY, Source.Valid, CountDirty, Differs, Dirties;
    if prev.None? {
      SetAll(grid, true);
      AllDirties(GridRows(grid, s.TilesY()), s.TilesX());
      return s.TilesX() * s.TilesY();
    }
    SetAll(grid, false);
    n := 0;
    NoDirties();
    ghost var dirties := [];
    for ty := 0 to s.TilesY()
      invariant forall i, tx | 0 <= i < s.TilesY() && 0 <= tx < s.TilesX() ::
                  grid[i, tx] == (i < ty && Dirty(s, cur, prev, tx, i))
      invariant |dirties| == ty && forall i | 0 <= i < ty :: dirties[i] == GridRow(grid, i)
      invariant n == Dirties(dirties)
    {
      var dirty := DiffTiles(s, grid, ty, cur, prev.value);
      DirtiesSnoc(dirties, GridRow(grid, ty));
      dirties := dirties + [GridRow(grid, ty)];
      n := n + dirty;
    }
    assert dirties == GridRows(grid, s.TilesY());
  }

  method SetAll(grid: array2<bool>, v: bool)
    modifies grid
    ensures forall ty, tx | 0 <= ty < grid.Length0 && 0 <= tx < grid.Length1 :: grid[ty, tx] == v
  {
    forall ty, tx | 0 <= ty < grid.Length0 && 0 <= tx < grid.Length1 {
      grid[ty, tx] := v;
    }
  }

  lemma {:induction false} AllDirties(rows: seq<seq<bool>>, w: nat)
    requires forall i | 0 <= i < |rows| :: |rows[i]| == w && forall j | 0 <= j < w :: rows[i][j]
    ensures Dirties(rows) == w * |rows|
  {
    if rows != [] {
      AllDirties(rows[..|rows| - 1], w);
      FullRow(rows[|rows| - 1]);
    }
  }

  lemma NoDirties()
    ensures Dirties([]) == 0
  {}

  lemma DirtiesSnoc(rows: seq<seq<bool>>, row: seq<bool>)
    ensures Dirties(rows + [row]) == Dirties(rows) + CountDirty(row)
  {
    assert (rows + [row])[..|rows|] == rows;
  }

  lemma {:induction false} FullRow(row: seq<bool>)
    requires forall i | 0 <= i < |row| :: row[i]
    ensures CountDirty(row) == |row|
  {
    if row != [] {
      FullRow(row[..|row| - 1]);
    }
  }

  /** Pixel (x, y) has a byte that is not what it was. */
  predicate PixelDiffers(s: Source, cur: Frame, prev: Frame, x: nat, y: nat)
    requires s.Valid() && FrameOk(s, cur) && FrameOk(s, prev) && x < s.w && y < s.h
  {
    PixelBounds(s, x);
    cur[y][x * s.Bpp()..(x + 1) * s.Bpp()] != prev[y][x * s.Bpp()..(x + 1) * s.Bpp()]
  }

  lemma PixelBounds(s: Source, x: nat)
    requires s.Valid() && x < s.w
    ensures (x + 1) * s.Bpp() <= s.stride
  {
    assert (x + 1) * s.Bpp() <= s.w * s.Bpp();
  }

  /** A tile is dirty if and only if one of its pixels changed. */
  lemma DirtyMeansChanged(s: Source, cur: Frame, prev: Frame, tx: nat, ty: nat)
    requires s.Valid() && FrameOk(s, cur) && FrameOk(s, prev) && tx < s.TilesX() && ty < s.TilesY()
    ensures Dirty(s, cur, Some(prev), tx, ty) <==>
            exists x: nat, y: nat | x < s.w && y < s.h && x / s.tile == tx && y / s.tile == ty :: PixelDiffers(s, cur, prev, x, y)
  {
    hide RowDiffers, PixelDiffers, Source.TilesX, Source.TilesY, Source.Valid, TileEnd;
    TileRowBounds(s, ty);
    assert s.tile > 0 by { SourceTile(s); }
    if x: nat, y: nat :| x < s.w && y < s.h && x / s.tile == tx && y / s.tile == ty && PixelDiffers(s, cur, prev, x, y) {
      PixelTile(x, s.w, s.tile);
      PixelTile(y, s.h, s.tile);
      PixelInSpan(s, cur, prev, x, y, tx);
      assert RowDiffers(s, cur, prev, tx, y);
    }
    if Dirty(s, cur, Some(prev), tx, ty) {
      var y :| ty * s.tile <= y < TileEnd(ty, s.tile, s.h) && RowDiffers(s, cur, prev, tx, y);
      TileMember(y, ty, s.tile, s.h);
      var x := SpanPixel(s, cur, prev, tx, y);
    }
  }

  lemma SourceTile(s: Source)
    requires s.Valid()
    ensures s.tile > 0
  {}

  lemma PixelInSpan(s: Source, cur: Frame, prev: Frame, x: nat, y: nat, tx: nat)
    requires s.Valid() && FrameOk(s, cur) && FrameOk(s, prev) && x < s.w && y < s.h && tx < s.TilesX()
    requires tx * s.tile <= x < TileEnd(tx, s.tile, s.w)
    requires PixelDiffers(s, cur, prev, x, y)
    ensures RowDiffers(s, cur, prev, tx, y)
  {
    hide Source.TilesX;
    PixelBounds(s, x);
    SpanBounds(s, tx);
    var lo, hi := tx * s.tile * s.Bpp(), TileEnd(tx, s.tile, s.w) * s.Bpp();
    var a, b := x * s.Bpp(), (x + 1) * s.Bpp();
    assert lo <= a <= b <= hi;
    assert cur[y][lo..hi][a - lo..b - lo] == cur[y][a..b];
    assert prev[y][lo..hi][a - lo..b - lo] == prev[y][a..b];
  }

  /** The pixel that byte k of a row belongs to. */
  lemma BytePixel(k: nat, lo: nat, hi: nat, bpp: nat)
    requires bpp > 0 && lo * bpp <= k < hi * bpp
    ensures lo <= k / bpp < hi && (k / bpp) * bpp <= k < (k / bpp + 1) * bpp
  {
    TileOf(k, lo, bpp);
    TileOf(k, hi, bpp);
    TileOf(k, k / bpp, bpp);
    TileOf(k, k / bpp + 1, bpp);
  }

  lemma SpanPixel(s: Source, cur: Frame, prev: Frame, tx: nat, y: nat) returns (x: nat)
    requires s.Valid() && FrameOk(s, cur) && FrameOk(s, prev) && tx < s.TilesX() && y < s.h && RowDiffers(s, cur, prev, tx, y)
    ensures x < s.w && x / s.tile == tx && PixelDiffers(s, cur, prev, x, y)
  {
    hide Source.TilesX, TileEnd, Source.Valid;
    SpanBounds(s, tx);
    var bpp := s.Bpp();
    var lo, hi := tx * s.tile, TileEnd(tx, s.tile, s.w);
    var k :| lo * bpp <= k < hi * bpp && cur[y][k] != prev[y][k];
    BytePixel(k, lo, hi, bpp);
    x := k / bpp;
    TilePixel(s, tx, x);
    PixelBounds(s, x);
    ByteDiffers(cur[y], prev[y], x * bpp, (x + 1) * bpp, k);
  }

  lemma TilePixel(s: Source, tx: nat, x: nat)
    requires s.Valid() && tx * s.tile <= x < TileEnd(tx, s.tile, s.w)
    ensures x < s.w && x / s.tile == tx
  {
    TileMember(x, tx, s.tile, s.w);
  }

  lemma ByteDiffers(a: seq<byte>, b: seq<byte>, lo: nat, hi: nat, k: nat)
    requires lo <= k < hi <= |a| && |a| == |b| && a[k] != b[k]
    ensures a[lo..hi] != b[lo..hi]
  {
    assert a[lo..hi][k - lo] == a[k] && b[lo..hi][k - lo] == b[k];
  }
}
