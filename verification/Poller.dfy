/** The polling detector (desktop/Poller.cpp): compare the whole screen with the
    backup tile by tile and report the tiles that differ. */
module Pollers {
  import opened Geometry
  import opened Frames
  import opened FrameBuffers
  import opened PixelDiffs
  import opened ScreenDrivers
  import opened UpdateKeepers

  const TILE := 16

  predicate SameTile(p: Point, q: Point) {
    p.x / TILE == q.x / TILE && p.y / TILE == q.y / TILE
  }

  ghost predicate TileDiffers(f: Frame, g: Frame, p: Point) {
    exists q :: SameTile(p, q) && Differs(f, g, q)
  }

  /** The pixels of the tiles that hold a difference. */
  ghost function ChangedTiles(f: Frame, g: Frame): Region {
    set p | p in f && TileDiffers(f, g, p)
  }

  /** Polling misses nothing: the reported region contains the simple diff. */
  lemma TilesCoverDiff(f: Frame, g: Frame)
    ensures Diff(f, g, f.Keys) <= ChangedTiles(f, g) <= f.Keys
  {
    forall p | p in Diff(f, g, f.Keys) ensures p in ChangedTiles(f, g) {
      assert SameTile(p, p);
    }
  }

  /** A pixel is reported exactly when one of its square of 16 by 16 differs, so
      nothing is reported exactly when nothing differs. */
  lemma ReportedIff(f: Frame, g: Frame, p: Point)
    requires p in f
    ensures p in ChangedTiles(f, g) <==>
            exists q :: q in Diff(f, g, f.Keys) && q.x / 16 == p.x / 16 && q.y / 16 == p.y / 16
    ensures ChangedTiles(f, g) == {} <==> Diff(f, g, f.Keys) == {}
  {
    TilesCoverDiff(f, g);
    if o :| o in ChangedTiles(f, g) {
      var q :| SameTile(o, q) && Differs(f, g, q);
      assert q in Diff(f, g, f.Keys);
    }
    if p in ChangedTiles(f, g) {
      var q :| SameTile(p, q) && Differs(f, g, q);
      assert q in Diff(f, g, f.Keys);
    }
  }

  /** The tile in row `a` and column `b` of the tiling, cut at the screen's edge. */
  function TileRect(dim: Dimension, a: nat, b: nat): Rect {
    Rect(b * TILE, a * TILE, Min(b * TILE + TILE, dim.width), Min(a * TILE + TILE, dim.height))
  }

  lemma TileRectAt(dim: Dimension, a: nat, b: nat, p: Point)
    requires dim.GetRect().Contains(p)
    ensures TileRect(dim, a, b).Contains(p) <==> p.y / TILE == a && p.x / TILE == b
  {
  }

  lemma TileRectDiffers(f: Frame, g: Frame, dim: Dimension, a: nat, b: nat, p: Point)
    requires f.Keys == g.Keys == Pixels(dim.GetRect())
    requires p in f && TileRect(dim, a, b).Contains(p)
    ensures TileDiffers(f, g, p) <==> !SameWhereBoth(f, TileRect(dim, a, b), g, TileRect(dim, a, b).TopLeft())
  {
    var r := TileRect(dim, a, b);
    TileRectAt(dim, a, b, p);
    forall q | q in f
      ensures Plus(Minus(q, r.TopLeft()), r.TopLeft()) == q
      ensures r.Contains(q) <==> SameTile(p, q)
    {
      TileRectAt(dim, a, b, q);
    }
  }

  /** The tiles before `(a, b)` in reading order. */
  predicate Scanned(p: Point, a: nat, b: nat) {
    p.y / TILE < a || (p.y / TILE == a && p.x / TILE < b)
  }

  ghost predicate ScannedTiles(f: Frame, g: Frame, a: nat, b: nat, region: Region) {
    forall p :: p in region <==> p in f && Scanned(p, a, b) && TileDiffers(f, g, p)
  }

  lemma ScanTile(f: Frame, g: Frame, dim: Dimension, a: nat, b: nat, region: Region)
    requires f.Keys == g.Keys == Pixels(dim.GetRect()) && ScannedTiles(f, g, a, b, region)
    ensures var r := TileRect(dim, a, b);
            ScannedTiles(f, g, a, b + 1, if SameWhereBoth(f, r, g, r.TopLeft()) then region else region + Pixels(r))
  {
    hide TileDiffers, SameWhereBoth, Differs, TileRect;
    var r := TileRect(dim, a, b);
    var next := if SameWhereBoth(f, r, g, r.TopLeft()) then region else region + Pixels(r);
    TileInside(dim, a, b);
    forall p ensures p in next <==> p in f && Scanned(p, a, b + 1) && TileDiffers(f, g, p) {
      if p in f {
        TileRectAt(dim, a, b, p);
        if r.Contains(p) {
          TileRectDiffers(f, g, dim, a, b, p);
        }
      }
    }
  }

  lemma TileInside(dim: Dimension, a: nat, b: nat)
    ensures forall p :: TileRect(dim, a, b).Contains(p) ==> dim.GetRect().Contains(p)
  {
  }

  lemma NextTileRow(f: Frame, g: Frame, dim: Dimension, a: nat, b: nat, region: Region)
    requires f.Keys == Pixels(dim.GetRect()) && b * TILE >= dim.width
    requires ScannedTiles(f, g, a, b, region)
    ensures ScannedTiles(f, g, a + 1, 0, region)
  {
    hide TileDiffers;
    forall p | p in f ensures Scanned(p, a, b) <==> Scanned(p, a + 1, 0) {
    }
  }

  lemma AllTilesScanned(f: Frame, g: Frame, dim: Dimension, a: nat, region: Region)
    requires f.Keys == Pixels(dim.GetRect()) && a * TILE >= dim.height
    requires ScannedTiles(f, g, a, 0, region)
    ensures region == ChangedTiles(f, g)
  {
    hide TileDiffers;
    forall p | p in f ensures Scanned(p, a, 0) {
    }
  }

  /** The tile loops of `execute`. */
  method ScanScreen(screen: FrameBuffer, backup: FrameBuffer) returns (region: Region)
    requires screen.Valid() && backup.Valid() && screen.IsEqualTo(backup)
    ensures region == ChangedTiles(screen.Content(), backup.Content())
  {
    hide FrameBuffer.Content, TileDiffers, Scanned, ScannedTiles, SameWhereBoth, ChangedTiles, Dimension.Area, Pixels;
    ghost var f, g := screen.Content(), backup.Content();
    region := {};
    NothingScanned(f, g, screen.dim);
    var row, a := 0, 0;
    while row < screen.dim.height
      invariant row == a * TILE && a >= 0
      invariant ScannedTiles(f, g, a, 0, region)
      decreases screen.dim.height - row
    {
      var col, b := 0, 0;
      while col < screen.dim.width
        invariant col == b * TILE && b >= 0
        invariant ScannedTiles(f, g, a, b, region)
        decreases screen.dim.width - col
      {
        var scanRect := Rect(col, row, Min(col + TILE, screen.dim.width), Min(row + TILE, screen.dim.height));
        var same := screen.CmpFrom(scanRect, backup, scanRect.left, scanRect.top);
        ScanTile(f, g, screen.dim, a, b, region);
        if !same {
          region := region + Pixels(scanRect);
        }
        col, b := col + TILE, b + 1;
      }
      NextTileRow(f, g, screen.dim, a, b, region);
      row, a := row + TILE, a + 1;
    }
    AllTilesScanned(f, g, screen.dim, a, region);
  }

  lemma NothingScanned(f: Frame, g: Frame, dim: Dimension)
    requires f.Keys == Pixels(dim.GetRect())
    ensures ScannedTiles(f, g, 0, 0, {})
  {
  }

  class Poller {
    var keeper: UpdateKeeper
    var driver: ScreenDriver
    var backup: FrameBuffer

    constructor (keeper: UpdateKeeper, driver: ScreenDriver, backup: FrameBuffer)
      ensures this.keeper == keeper && this.driver == driver && this.backup == backup
    {
      this.keeper, this.driver, this.backup := keeper, driver, backup;
    }

    /** One turn of the polling loop.  The result of the grab is ignored. */
    method Poll() returns (ghost grabbed: bool)
      requires driver.Valid() && backup.Valid() && backup.buffer != driver.screen.buffer
      modifies keeper`container, driver.screen.buffer
      ensures driver.Valid() && backup.Content() == old(backup.Content())
      ensures !driver.screen.IsEqualTo(backup) ==>
                keeper.container == old(keeper.container).(screenSizeChanged := true)
      ensures driver.screen.IsEqualTo(backup) ==>
                keeper.container == AddChanged(old(keeper.container), keeper.borderRect,
                                               ChangedTiles(driver.screen.Content(), backup.Content()))
      ensures driver.screen.IsEqualTo(backup) && grabbed ==>
                Shows(driver.screen.Content(), Pixels(driver.screen.dim.GetRect()), driver.desktop.Content())
    {
      hide FrameBuffer.Content, ChangedTiles, Dimension.Area, Pixels, Shows, OnlyRefreshed;
      grabbed := false;
      if !driver.screen.IsEqualTo(backup) {
        keeper.SetScreenSizeChanged();
      } else {
        var ok := driver.GrabFb(driver.screen.dim.GetRect());
        grabbed := ok;
        var region := ScanScreen(driver.screen, backup);
        keeper.AddChangedRegion(region);
      }
    }
  }
}
