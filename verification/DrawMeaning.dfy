/** The fragment rendering of cpp/src/draw.cpp draws the same picture as the one canvas it replaces. */
module DrawMeaning {
  import opened Wrappers
  import opened Pixels
  import opened Draw
  import opened DrawColors

  // ---- what is asked of the rasteriser ----

  // The frame pixels an outline of thickness t may touch: the band around a box, the
  // surroundings of a polyline.
  predicate Stroked(s: Shape, t: int, p: Point) {
    if s.BoxShape? then
      Within(p, Rect4(s.x1 - t - 1, s.y1 - t - 1, s.x2 + t + 1, s.y2 + t + 1)) &&
      !(s.x1 + t < p.x < s.x2 - t && s.y1 + t < p.y < s.y2 - t)
    else
      (exists i | 0 <= i < |s.pts| :: s.pts[i].x - t - 1 <= p.x) &&
      (exists i | 0 <= i < |s.pts| :: p.x < s.pts[i].x + t + 1) &&
      (exists i | 0 <= i < |s.pts| :: s.pts[i].y - t - 1 <= p.y) &&
      (exists i | 0 <= i < |s.pts| :: p.y < s.pts[i].y + t + 1)
  }

  // The band is that of a box with x1 <= x2 and y1 <= y2. The source takes other boxes too; on those
  // a rasteriser that sorts corners, as cv::rectangle does, is not in band, and nothing is claimed.
  ghost predicate InBand(items: seq<Shape>, t: int, raster: Raster) {
    forall s, x, y | s in items && raster.stroke(s, t, x, y) > 0 :: Stroked(s, t, Point(x, y))
  }

  ghost predicate HardEdged(items: seq<Shape>, t: int, raster: Raster) {
    forall s, x, y | s in items :: raster.stroke(s, t, x, y) in {0, 255}
  }

  predicate Plain(items: seq<Shape>) {
    forall i | 0 <= i < |items| :: !Captioned(items[i])
  }

  // ---- every stroke pixel of the frame lies in a fragment ----

  predicate Covers(frags: seq<Rect4>, p: Point) {
    exists f | f in frags :: Within(p, f)
  }

  lemma StrokeInBBox(s: Shape, fw: int, fh: int, t: int, run: Rect4, p: Point)
    requires Stroked(s, t, p)
    ensures Within(p, BBox(s, fw, fh, t))
    ensures s.LineShape? ==> Within(p, Extent(s.pts, run, t))
  {
  }

  lemma EdgesCover(s: Shape, u: Rect4, fw: int, fh: int, t: int, raster: Raster, p: Point)
    requires !Captioned(s) && Stroked(s, t, p) && Within(p, u)
    ensures Covers(EdgeFrags(s, u, fw, fh, t, raster), p) && Covers(ShapeFrag(s, u, fw, fh, t), p)
  {
    StrokeInBBox(s, fw, fh, t, Start(fw, fh), p);
    assert ClampTo(BBox(s, fw, fh, t), u) in ShapeFrag(s, u, fw, fh, t);
    if s.BoxShape? {
      var frags := EdgeFrags(s, u, fw, fh, t, raster);
      if p.y < s.y1 + t + 1 {
        assert Within(p, TopFrag(s, u, t, raster)) && TopFrag(s, u, t, raster) in frags;
      } else if p.y >= s.y2 - t {
        assert Within(p, BottomFrag(s, u, t, raster)) && BottomFrag(s, u, t, raster) in frags;
      } else if p.x < s.x1 + t + 1 {
        assert Within(p, LeftFrag(s, u, t, raster)) && LeftFrag(s, u, t, raster) in frags;
      } else {
        assert Within(p, RightFrag(s, u, t, raster)) && RightFrag(s, u, t, raster) in frags;
      }
    }
  }

  lemma TiersCover(items: seq<Shape>, i: nat, u: Rect4, fw: int, fh: int, t: int, raster: Raster, p: Point)
    requires i < |items| && Plain(items) && Stroked(items[i], t, p) && Within(p, u)
    ensures Covers(AllEdges(items, u, fw, fh, t, raster), p) && Covers(AllShapes(items, u, fw, fh, t), p)
  {
    EdgesCover(items[i], u, fw, fh, t, raster, p);
    EdgeMembers(items, i, u, fw, fh, t, raster);
  }

  // What a tier keeps of a shape is in the tier, and nothing else is.
  lemma EdgeMembers(items: seq<Shape>, i: nat, u: Rect4, fw: int, fh: int, t: int, raster: Raster)
    requires i < |items|
    ensures forall f | f in EdgeFrags(items[i], u, fw, fh, t, raster) :: f in AllEdges(items, u, fw, fh, t, raster)
    ensures forall f | f in ShapeFrag(items[i], u, fw, fh, t) :: f in AllShapes(items, u, fw, fh, t)
  {
    forall f | f in EdgeFrags(items[i], u, fw, fh, t, raster) ensures f in AllEdges(items, u, fw, fh, t, raster) {
      var tiles := EdgeTiles(items, u, fw, fh, t, raster);
      FlatMembers(tiles, f);
      assert tiles[i] in tiles;
    }
    forall f | f in ShapeFrag(items[i], u, fw, fh, t) ensures f in AllShapes(items, u, fw, fh, t) {
      var tiles := ClippedTiles(BBoxes(items, fw, fh, t), u);
      FlatMembers(tiles, f);
      assert tiles[i] in tiles;
    }
  }

  lemma EdgeOwner(items: seq<Shape>, u: Rect4, fw: int, fh: int, t: int, raster: Raster, f: Rect4) returns (s: Shape)
    requires f in AllEdges(items, u, fw, fh, t, raster)
    ensures s in items && f in EdgeFrags(s, u, fw, fh, t, raster)
  {
    var tiles := EdgeTiles(items, u, fw, fh, t, raster);
    FlatMembers(tiles, f);
    var i :| 0 <= i < |tiles| && f in tiles[i];
    s := items[i];
  }

  lemma ShapeOwner(items: seq<Shape>, u: Rect4, fw: int, fh: int, t: int, f: Rect4) returns (s: Shape)
    requires f in AllShapes(items, u, fw, fh, t)
    ensures s in items && f in ShapeFrag(s, u, fw, fh, t)
  {
    var tiles := ClippedTiles(BBoxes(items, fw, fh, t), u);
    FlatMembers(tiles, f);
    var i :| 0 <= i < |tiles| && f in tiles[i];
    s := items[i];
  }

  predicate Inside(a: Rect4, b: Rect4) { b.x0 <= a.x0 && b.y0 <= a.y0 && a.x1 <= b.x1 && a.y1 <= b.y1 }

  // Both renderers' extents hold every stroke pixel.
  lemma {:induction false} ExtentsHold(items: seq<Shape>, i: nat, fw: int, fh: int, t: int, p: Point)
    requires i < |items| && Stroked(items[i], t, p)
    ensures Within(p, FragExtents(items, fw, fh, t)) && Within(p, CanvasExtents(items, fw, fh, t))
  {
    var k := |items| - 1;
    if i == k {
      StrokeInBBox(items[k], fw, fh, t, CanvasExtents(items[..k], fw, fh, t), p);
    } else {
      ExtentsHold(items[..k], i, fw, fh, t, p);
    }
  }

  /** Whichever tier is taken, a stroke pixel of the frame lies in some fragment. */
  lemma FragsCover(items: seq<Shape>, i: nat, fw: int, fh: int, t: int, raster: Raster, p: Point)
    requires i < |items| && Plain(items) && Stroked(items[i], t, p) && InFrame(fw, fh, p)
    ensures Covers(Frags(items, Clamp(FragExtents(items, fw, fh, t), fw, fh), fw, fh, t, raster), p)
  {
    hide AllEdges, AllShapes, FragExtents, CanvasExtents, Stroked;
    var u := Clamp(FragExtents(items, fw, fh, t), fw, fh);
    ExtentsHold(items, i, fw, fh, t, p);
    TiersCover(items, i, u, fw, fh, t, raster, p);
    assert u in [u];
  }

  // The floor, the even rounding and the slide never push a fragment's frame pixels out.
  lemma WindowHolds(frag: Rect4, items: seq<Shape>, fw: int, fh: int, p: Point)
    requires Within(p, frag) && InFrame(fw, fh, p)
    ensures Within(p, Window(frag, items, fw, fh))
  {
  }

  // ---- a shape missing the window never shows in it ----

  // The colour and alpha all shapes together give a frame pixel.
  function Ink(items: seq<Shape>, cols: seq<Rgb>, t: int, raster: Raster, p: Point): Rgba
    requires |items| <= |cols|
  {
    PaintedAt(items, cols, Rect4(0, 0, 0, 0), t, false, raster, p)
  }

  lemma PlainCovs(items: seq<Shape>, win: Rect4, other: Rect4, t: int, raster: Raster, p: Point)
    requires Plain(items)
    ensures Covs(items, win, t, true, raster, p) == Covs(items, other, t, false, raster, p)
    ensures Covs(items, win, t, false, raster, p) == Covs(items, other, t, false, raster, p)
  {
  }

  lemma SelectionPaintsAll(items: seq<Shape>, cols: seq<Rgb>, win: Rect4, fw: int, fh: int, t: int, raster: Raster,
          p: Point)
    requires |items| == |cols| && Plain(items) && InBand(items, t, raster) && Within(p, win)
    ensures var keep := Meets(items, win, fw, fh, t);
            |Pick(items, keep)| == |Pick(cols, keep)| &&
            PaintedAt(Pick(items, keep), Pick(cols, keep), win, t, true, raster, p) == Ink(items, cols, t, raster, p)
  {
    var keep := Meets(items, win, fw, fh, t);
    var covs := Covs(items, win, t, true, raster, p);
    forall i | 0 <= i < |items| && !keep[i] ensures covs[i] == 0 {
      if covs[i] > 0 {
        assert items[i] in items;
        StrokeInBBox(items[i], fw, fh, t, Start(fw, fh), p);
      }
    }
    PaintPicked(covs, cols, keep);
    PickMapped(items, s => MaskAt(s, win, t, true, raster, p), keep);
    PlainCovs(items, win, Rect4(0, 0, 0, 0), t, raster, p);
  }

  lemma {:induction false} PaintAlpha(covs: seq<Byte>, cols: seq<Rgb>)
    requires |covs| <= |cols|
    ensures Paint(covs, cols).a > 0 ==> exists i | 0 <= i < |covs| :: covs[i] > 0
    ensures Paint(covs, cols).a == 0 ==> Paint(covs, cols) == CLEAR
    ensures (forall i | 0 <= i < |covs| :: covs[i] in {0, 255}) ==> Paint(covs, cols).a in {0, 255}
  {
    if covs != [] {
      PaintAlpha(covs[..|covs| - 1], cols);
    }
  }

  // ---- the picture ----

  // The same overlay pixel blended k times.
  function Blends(k: nat, src: Rgba, bg: Rgb): Rgb {
    if k == 0 then bg else Over(src, Blends(k - 1, src, bg))
  }

  // Which fragment windows contain p.
  function Hits(frags: seq<Rect4>, items: seq<Shape>, fw: int, fh: int, p: Point): (hits: seq<bool>)
    ensures |hits| == |frags|
    ensures forall i | 0 <= i < |frags| :: hits[i] == Within(p, Window(frags[i], items, fw, fh))
  {
    seq(|frags|, i requires 0 <= i < |frags| => Within(p, Window(frags[i], items, fw, fh)))
  }

  function Count(hits: seq<bool>): (n: nat)
    ensures true in hits ==> n >= 1
  {
    if hits == [] then 0 else Count(hits[..|hits| - 1]) + if hits[|hits| - 1] then 1 else 0
  }

  lemma CoveredIsHit(frags: seq<Rect4>, items: seq<Shape>, fw: int, fh: int, p: Point)
    requires Covers(frags, p) && InFrame(fw, fh, p)
    ensures Count(Hits(frags, items, fw, fh, p)) >= 1
  {
    var i :| 0 <= i < |frags| && Within(p, frags[i]);
    WindowHolds(frags[i], items, fw, fh, p);
    assert Hits(frags, items, fw, fh, p)[i];
  }

  lemma OneOverlay(bg: Rgb, c: Canvas, x: int, y: int)
    ensures PixelAfter(bg, [c], x, y) == Stamp(c, bg, x, y)
  {
    PixelAfterAppend(bg, [], c, x, y);
    assert [] + [c] == [c];
  }

  lemma TilePixel(f: Rect4, items: seq<Shape>, cols: seq<Rgb>, fw: int, fh: int, t: int, raster: Raster, bg: Rgb,
          p: Point)
    requires |items| == |cols| && Plain(items) && InBand(items, t, raster)
    ensures PixelAfter(bg, Tile(f, items, cols, fw, fh, t, raster), p.x, p.y)
         == if Within(p, Window(f, items, fw, fh)) then Over(Ink(items, cols, t, raster, p), bg) else bg
  {
    var win := Window(f, items, fw, fh);
    var keep := Meets(items, win, fw, fh, t);
    PickSameLength(items, cols, keep);
    if Within(p, win) {
      SelectionPaintsAll(items, cols, win, fw, fh, t, raster, p);
    }
    if true !in keep {
      PickNone(items, keep);
      ClearStamp(bg);
    } else {
      var c := Rendered(Pick(items, keep), Pick(cols, keep), win, t, true, raster);
      OneOverlay(bg, c, p.x, p.y);
      assert Lands(c, p.x, p.y) <==> Within(p, win);
    }
  }

  ghost predicate Puts(tile: seq<Canvas>, hit: bool, ink: Rgba, x: int, y: int) {
    forall under :: PixelAfter(under, tile, x, y) == if hit then Over(ink, under) else under
  }

  // Canvases that each put the same ink on a pixel, or nothing.
  lemma {:induction false} SameInkPixel(tiles: seq<seq<Canvas>>, hits: seq<bool>, ink: Rgba, bg: Rgb, x: int, y: int)
    requires |tiles| == |hits|
    requires forall i | 0 <= i < |tiles| :: Puts(tiles[i], hits[i], ink, x, y)
    ensures PixelAfter(bg, Flat(tiles), x, y) == Blends(Count(hits), ink, bg)
  {
    if tiles != [] {
      var k := |tiles| - 1;
      SameInkPixel(tiles[..k], hits[..k], ink, bg, x, y);
      PixelAfterConcat(bg, Flat(tiles[..k]), tiles[k], x, y);
    }
  }

  lemma FragmentPixel(frags: seq<Rect4>, items: seq<Shape>, cols: seq<Rgb>, fw: int, fh: int, t: int, raster: Raster,
          bg: Rgb, p: Point)
    requires |items| == |cols| && Plain(items) && InBand(items, t, raster)
    ensures PixelAfter(bg, Flat(Tiles(frags, items, cols, fw, fh, t, raster)), p.x, p.y)
         == Blends(Count(Hits(frags, items, fw, fh, p)), Ink(items, cols, t, raster, p), bg)
  {
    var tiles, hits := Tiles(frags, items, cols, fw, fh, t, raster), Hits(frags, items, fw, fh, p);
    var ink := Ink(items, cols, t, raster, p);
    forall i | 0 <= i < |frags| ensures Puts(tiles[i], hits[i], ink, p.x, p.y) {
      forall under ensures PixelAfter(under, tiles[i], p.x, p.y) == if hits[i] then Over(ink, under) else under {
        TilePixel(frags[i], items, cols, fw, fh, t, raster, under, p);
      }
    }
    SameInkPixel(tiles, hits, ink, bg, p.x, p.y);
  }

  lemma InkIsStroked(items: seq<Shape>, cols: seq<Rgb>, t: int, raster: Raster, p: Point) returns (i: nat)
    requires |items| == |cols| && Plain(items) && InBand(items, t, raster)
    requires Ink(items, cols, t, raster, p).a > 0
    ensures i < |items| && Stroked(items[i], t, p)
  {
    var covs := Covs(items, Rect4(0, 0, 0, 0), t, false, raster, p);
    PaintAlpha(covs, cols);
    i :| 0 <= i < |covs| && covs[i] > 0;
    assert items[i] in items;
  }

  lemma InkIsHit(fw: int, fh: int, items: seq<Shape>, cols: seq<Rgb>, t: int, raster: Raster, p: Point)
    requires |items| == |cols| && Plain(items) && InBand(items, t, raster) && InFrame(fw, fh, p)
    requires Ink(items, cols, t, raster, p).a > 0
    ensures Count(Hits(Frags(items, Clamp(FragExtents(items, fw, fh, t), fw, fh), fw, fh, t, raster), items, fw, fh, p)) >= 1
  {
    var i := InkIsStroked(items, cols, t, raster, p);
    FragsCover(items, i, fw, fh, t, raster, p);
    CoveredIsHit(Frags(items, Clamp(FragExtents(items, fw, fh, t), fw, fh), fw, fh, t, raster), items, fw, fh, p);
  }

  lemma CanvasPixel(fw: int, fh: int, items: seq<Shape>, cols: seq<Rgb>, t: int, raster: Raster, bg: Rgb, p: Point)
    requires |items| == |cols| && Plain(items) && InBand(items, t, raster) && InFrame(fw, fh, p)
    requires OneCanvas(fw, fh, items, cols, t, raster).Ok?
    ensures PixelAfter(bg, [OneCanvas(fw, fh, items, cols, t, raster).value], p.x, p.y) == Over(Ink(items, cols, t, raster, p), bg)
  {
    var u := Clamp(CanvasExtents(items, fw, fh, t), fw, fh);
    PlainCovs(items, CanvasWindow(u), Rect4(0, 0, 0, 0), t, raster, p);
    OneOverlay(bg, OneCanvas(fw, fh, items, cols, t, raster).value, p.x, p.y);
    if Ink(items, cols, t, raster, p).a > 0 {
      var i := InkIsStroked(items, cols, t, raster, p);
      ExtentsHold(items, i, fw, fh, t, p);
    } else {
      PaintAlpha(Covs(items, Rect4(0, 0, 0, 0), t, false, raster, p), cols);
      ClearStamp(bg);
    }
  }

  /** The exact effect of both renderings on a frame pixel, for any coverage the rasteriser
      gives: the one canvas blends the pixel's ink once, the fragments blend it once per window
      that contains it, and a pixel with ink is in at least one. */
  lemma PicturePixel(fw: int, fh: int, items: seq<Shape>, cols: seq<Rgb>, t: int, raster: Raster, bg: Rgb, p: Point)
    requires |items| == |cols| && Plain(items) && InBand(items, t, raster) && InFrame(fw, fh, p)
    ensures var fragments, canvas := Fragments(fw, fh, items, cols, t, raster), OneCanvas(fw, fh, items, cols, t, raster);
            var u := Clamp(FragExtents(items, fw, fh, t), fw, fh);
            var hits := Count(Hits(Frags(items, u, fw, fh, t, raster), items, fw, fh, p));
            var ink := Ink(items, cols, t, raster, p);
            fragments.Ok? && canvas.Ok? ==>
              && PixelAfter(bg, fragments.value, p.x, p.y) == Blends(hits, ink, bg)
              && PixelAfter(bg, [canvas.value], p.x, p.y) == Over(ink, bg)
              && (ink.a > 0 ==> hits >= 1)
  {
    if Fragments(fw, fh, items, cols, t, raster).Ok? && OneCanvas(fw, fh, items, cols, t, raster).Ok? {
      var u := Clamp(FragExtents(items, fw, fh, t), fw, fh);
      FragmentPixel(Frags(items, u, fw, fh, t, raster), items, cols, fw, fh, t, raster, bg, p);
      CanvasPixel(fw, fh, items, cols, t, raster, bg, p);
      if Ink(items, cols, t, raster, p).a > 0 {
        InkIsHit(fw, fh, items, cols, t, raster, p);
      }
    }
  }

  lemma {:induction false} OpaqueBlendsOnce(k: nat, src: Rgba, bg: Rgb)
    requires src.a in {0, 255} && (k >= 1 || src.a == 0)
    ensures Blends(k, src, bg) == Over(src, bg)
  {
    if k > 1 || (k == 1 && src.a == 0) {
      OpaqueBlendsOnce(k - 1, src, bg);
    }
  }

  lemma InkIsOpaque(items: seq<Shape>, cols: seq<Rgb>, t: int, raster: Raster, p: Point)
    requires |items| == |cols| && Plain(items) && HardEdged(items, t, raster)
    ensures Ink(items, cols, t, raster, p).a in {0, 255}
  {
    var covs := Covs(items, Rect4(0, 0, 0, 0), t, false, raster, p);
    forall i | 0 <= i < |covs| ensures covs[i] in {0, 255} {
      assert items[i] in items;
    }
    PaintAlpha(covs, cols);
  }

  /** Fragments preserve the picture: for every list of uncaptioned hard-edged shapes, in all
      three tiers, blending the fragments leaves every frame pixel as the one canvas leaves it. */
  lemma SamePicture(fw: int, fh: int, items: seq<Shape>, cols: seq<Rgb>, t: int, raster: Raster, bg: Rgb, p: Point)
    requires |items| == |cols| && t >= 1
    requires Plain(items) && InBand(items, t, raster) && HardEdged(items, t, raster) && InFrame(fw, fh, p)
    ensures var fragments, canvas := Fragments(fw, fh, items, cols, t, raster), OneCanvas(fw, fh, items, cols, t, raster);
            && (fragments.Ok? <==> canvas.Ok?)
            && (fragments.Ok? ==> PixelAfter(bg, fragments.value, p.x, p.y) == PixelAfter(bg, [canvas.value], p.x, p.y))
  {
    hide PixelAfter, Blends, Ink, Frags, Hits, Over, FragExtents, CanvasExtents;
    SameRefusal(fw, fh, items, cols, t, raster);
    PicturePixel(fw, fh, items, cols, t, raster, bg, p);
    InkIsOpaque(items, cols, t, raster, p);
    if Fragments(fw, fh, items, cols, t, raster).Ok? {
      var u := Clamp(FragExtents(items, fw, fh, t), fw, fh);
      OpaqueBlendsOnce(Count(Hits(Frags(items, u, fw, fh, t, raster), items, fw, fh, p)), Ink(items, cols, t, raster, p), bg);
    }
  }

  // ---- the two renderings refuse the same annotations ----

  predicate Reaches(r: Rect4, fw: int, fh: int) { r.x0 <= fw && r.y0 <= fh && r.x1 >= 0 && r.y1 >= 0 }

  // A line never reaches further from the frame than from the shapes drawn before it.
  lemma {:induction false} LineExtentsCompare(pts: seq<Point>, run: Rect4, fw: int, fh: int, t: int)
    requires Reaches(run, fw, fh)
    ensures Inside(Extent(pts, Start(fw, fh), t), Extent(pts, run, t))
    ensures t >= 1 ==> Reaches(Extent(pts, run, t), fw, fh)
  {
    if pts != [] {
      LineExtentsCompare(pts[..|pts| - 1], run, fw, fh, t);
    }
  }

  lemma {:induction false} ExtentsCompare(items: seq<Shape>, fw: int, fh: int, t: int)
    requires t >= 1
    ensures Inside(FragExtents(items, fw, fh, t), CanvasExtents(items, fw, fh, t))
    ensures (forall s | s in items :: s.BoxShape?) ==> FragExtents(items, fw, fh, t) == CanvasExtents(items, fw, fh, t)
    ensures Reaches(CanvasExtents(items, fw, fh, t), fw, fh)
  {
    if items != [] {
      var k := |items| - 1;
      ExtentsCompare(items[..k], fw, fh, t);
      var s := items[k];
      if s.LineShape? {
        assert s in items;
        LineExtentsCompare(s.pts, CanvasExtents(items[..k], fw, fh, t), fw, fh, t);
      }
    }
  }

  lemma {:induction false} ExtentsHoldBBox(items: seq<Shape>, i: nat, fw: int, fh: int, t: int)
    requires i < |items|
    ensures Inside(BBox(items[i], fw, fh, t), FragExtents(items, fw, fh, t))
  {
    if i < |items| - 1 {
      ExtentsHoldBBox(items[..|items| - 1], i, fw, fh, t);
    }
  }

  lemma LineMeetsFrame(items: seq<Shape>, i: nat, fw: int, fh: int, t: int)
    requires i < |items| && items[i].LineShape? && !BadLine(items[i]) && t >= 1
    ensures Empty(Clamp(FragExtents(items, fw, fh, t), fw, fh)) <==> fw <= 0 || fh <= 0
  {
    ExtentsHoldBBox(items, i, fw, fh, t);
    var p, b := items[i].pts[0], BBox(items[i], fw, fh, t);
    assert b.x0 <= p.x - t - 1 && p.x + t + 1 <= b.x1 && b.y0 <= p.y - t - 1 && p.y + t + 1 <= b.y1;
    assert b.x0 <= fw - t - 1 && t + 1 <= b.x1 && b.y0 <= fh - t - 1 && t + 1 <= b.y1;
  }

  lemma EmptyTogether(items: seq<Shape>, fw: int, fh: int, t: int)
    requires t >= 1 && forall i | 0 <= i < |items| :: !BadLine(items[i])
    ensures Empty(Clamp(FragExtents(items, fw, fh, t), fw, fh)) <==> Empty(Clamp(CanvasExtents(items, fw, fh, t), fw, fh))
  {
    ExtentsCompare(items, fw, fh, t);
    if s :| s in items && s.LineShape? {
      var i :| 0 <= i < |items| && items[i] == s;
      LineMeetsFrame(items, i, fw, fh, t);
    }
  }

  lemma {:induction false} LineExtremes(pts: seq<Point>, run: Rect4, fw: int, fh: int)
    requires Reaches(run, fw, fh)
    ensures MinX(pts, run.x0) == Min(run.x0, MinX(pts, fw)) && MinY(pts, run.y0) == Min(run.y0, MinY(pts, fh))
    ensures MaxX(pts, run.x1) == Max(run.x1, MaxX(pts, 0)) && MaxY(pts, run.y1) == Max(run.y1, MaxY(pts, 0))
  {
    if pts != [] { LineExtremes(pts[..|pts| - 1], run, fw, fh); }
  }

  /** The two extents of boxes followed by lines are the same exactly when there is no line, or the
      last line's own points reach on all four sides at least as far as the union canvas did before
      it. Clamped to the frame they are the same exactly when, side by side, that holds or the
      fragments' extents reach past the frame anyway. */
  lemma ExtentsAgreeExactly(rects: seq<RectItem>, lines: seq<LineItem>, fw: int, fh: int, t: int)
    requires t >= 1
    ensures var items := rects + lines;
      var f, c := FragExtents(items, fw, fh, t), CanvasExtents(items, fw, fh, t);
      if lines == [] then f == c
      else
        var pts, e := lines[|lines| - 1].pts, CanvasExtents(rects + lines[..|lines| - 1], fw, fh, t);
        && (f == c <==> MinX(pts, fw) <= e.x0 && MinY(pts, fh) <= e.y0 && MaxX(pts, 0) >= e.x1 && MaxY(pts, 0) >= e.y1)
        && (Clamp(f, fw, fh) == Clamp(c, fw, fh) <==>
              && (MinX(pts, fw) <= e.x0 || f.x0 <= 0) && (MinY(pts, fh) <= e.y0 || f.y0 <= 0)
              && (MaxX(pts, 0) >= e.x1 || f.x1 >= fw) && (MaxY(pts, 0) >= e.y1 || f.y1 >= fh))
  {
    hide Join, Clamp, Extent, Reaches, Max, Min, Inside;
    var items := rects + lines;
    if lines == [] {
      assert items == rects;
      ExtentsCompare(items, fw, fh, t);
    } else {
      var k := |items| - 1;
      assert items[..k] == rects + lines[..|lines| - 1] && items[k] == lines[|lines| - 1];
      ExtentsCompare(items[..k], fw, fh, t);
      LastLine(FragExtents(items[..k], fw, fh, t), CanvasExtents(items[..k], fw, fh, t), items[k].pts, fw, fh, t);
    }
  }

  // f and e: the fragments' and the canvas's extents before the last line.
  lemma LastLine(f: Rect4, e: Rect4, pts: seq<Point>, fw: int, fh: int, t: int)
    requires Inside(f, e) && Reaches(e, fw, fh) && t >= 1
    ensures var frag, canvas := Join(f, Extent(pts, Start(fw, fh), t)), Join(e, Extent(pts, e, t));
      && (frag == canvas <==> MinX(pts, fw) <= e.x0 && MinY(pts, fh) <= e.y0 && MaxX(pts, 0) >= e.x1 && MaxY(pts, 0) >= e.y1)
      && (Clamp(frag, fw, fh) == Clamp(canvas, fw, fh) <==>
            && (MinX(pts, fw) <= e.x0 || frag.x0 <= 0) && (MinY(pts, fh) <= e.y0 || frag.y0 <= 0)
            && (MaxX(pts, 0) >= e.x1 || frag.x1 >= fw) && (MaxY(pts, 0) >= e.y1 || frag.y1 >= fh))
  {
    LineExtremes(pts, e, fw, fh);
    hide Max, Min, MinX, MinY, MaxX, MaxY, Reaches;
    LowSide(f.x0, e.x0, MinX(pts, fw), t + 1);
    LowSide(f.y0, e.y0, MinY(pts, fh), t + 1);
    HighSide(f.x1, e.x1, MaxX(pts, 0), t + 1, fw);
    HighSide(f.y1, e.y1, MaxY(pts, 0), t + 1, fh);
  }

  // One side: the fragments' run, the canvas's run, and a line's own extreme.
  lemma LowSide(f: int, e: int, m: int, margin: int)
    requires e <= f && margin > 0
    ensures var frag, canvas := Min(f, m - margin), Min(e, Min(e, m) - margin);
      (frag == canvas <==> m <= e) && (Max(0, frag) == Max(0, canvas) <==> m <= e || frag <= 0)
  {
  }

  lemma HighSide(f: int, e: int, m: int, margin: int, bound: int)
    requires f <= e && margin > 0
    ensures var frag, canvas := Max(f, m + margin), Max(e, Max(e, m) + margin);
      (frag == canvas <==> m >= e) && (Min(bound, frag) == Min(bound, canvas) <==> m >= e || frag >= bound)
  {
  }

  /** They do differ: a line inside a box pushes the union canvas out by a stroke margin. */
  lemma ExtentsDiffer(box: RectItem, line: LineItem, pts: seq<Point>)
    requires box == BoxShape(20, 20, 40, 40, "") && pts == [Point(25, 25), Point(30, 30)] && line.pts == pts
    ensures Clamp(FragExtents([box, line], 64, 64, 1), 64, 64).x0 == 18
    ensures Clamp(CanvasExtents([box, line], 64, 64, 1), 64, 64).x0 == 16
  {
    assert [box, line][..1] == [box] && [box][..0] == [];
    assert pts[..1] == [Point(25, 25)] && pts[..1][..0] == [];
    assert FragExtents([], 64, 64, 1) == CanvasExtents([], 64, 64, 1) == Start(64, 64);
    assert FragExtents([box], 64, 64, 1) == CanvasExtents([box], 64, 64, 1) == Rect4(18, 18, 42, 42);
    LineExtremes(pts, Rect4(18, 18, 42, 42), 64, 64);
    assert MinX(pts[..1], 64) == 25 && MinX(pts, 64) == 25;
  }

  /** Although their extents can differ, the two renderings accept and refuse exactly the same
      annotations, captions included, with the same error. */
  lemma SameRefusal(fw: int, fh: int, items: seq<Shape>, cols: seq<Rgb>, t: int, raster: Raster)
    requires |items| == |cols| && t >= 1
    ensures Fragments(fw, fh, items, cols, t, raster).Err? <==> OneCanvas(fw, fh, items, cols, t, raster).Err?
    ensures Fragments(fw, fh, items, cols, t, raster).Err? ==>
              Fragments(fw, fh, items, cols, t, raster).error == OneCanvas(fw, fh, items, cols, t, raster).error
  {
    if forall i | 0 <= i < |items| :: !BadLine(items[i]) {
      EmptyTogether(items, fw, fh, t);
    }
  }

  // ---- what blend_hw accepts without padding ----

  predicate Accepted(c: Canvas, w: int, h: int) {
    && MIN_DIM <= c.image.cols <= MAX_DIM && MIN_DIM <= c.image.rows <= MAX_DIM
    && c.image.rows % 2 == 0
    && 0 <= c.x && 0 <= c.y && c.x + c.image.cols <= w && c.y + c.image.rows <= h
  }

  predicate Bounded(f: Rect4, fw: int, fh: int) { f.x1 - f.x0 <= fw && f.y1 - f.y0 <= fh }

  // The side strips of a box run from below its upper edge to above its lower one, and are not cut
  // at the top and bottom of the frame; f is one of them, with some width, and taller than the frame.
  predicate TallSide(s: Shape, f: Rect4, u: Rect4, fh: int, t: int, raster: Raster) {
    s.BoxShape? &&
    var top, bottom := Min(u.y1, s.y1 + t + 1), Max(u.y0, s.y2 - t);
    bottom - top > fh && f.y0 == top && f.y1 == bottom && f.x0 < f.x1 &&
    ((f.x0 == Max(u.x0, s.x1 - t - 1) && f.x1 == Min(u.x1, s.x1 + t + 1)) ||
     (f.x0 == Max(u.x0, s.x2 - t) && f.x1 == StripX(s, u, t, raster).1))
  }

  lemma SidesAreNarrow(s: RectItem, u: Rect4, t: int, raster: Raster, fw: int)
    requires 0 <= u.x0 && u.x1 <= fw
    ensures !Empty(LeftFrag(s, u, t, raster)) ==> LeftFrag(s, u, t, raster).x1 - LeftFrag(s, u, t, raster).x0 <= fw
    ensures !Empty(RightFrag(s, u, t, raster)) ==> RightFrag(s, u, t, raster).x1 - RightFrag(s, u, t, raster).x0 <= fw
  {
  }

  lemma EdgesBounded(s: Shape, u: Rect4, fw: int, fh: int, t: int, raster: Raster, f: Rect4)
    requires Inside(u, Rect4(0, 0, fw, fh)) && !Empty(u)
    ensures f in EdgeFrags(s, u, fw, fh, t, raster) && !Bounded(f, fw, fh) <==> TallSide(s, f, u, fh, t, raster)
    ensures f in ShapeFrag(s, u, fw, fh, t) ==> Bounded(f, fw, fh)
  {
    if s.BoxShape? {
      FlatStrips(s, u, fw, fh, t, raster);
      TallIsSide(s, u, fw, fh, t, raster, f);
      StripsOf(s, u, fw, fh, t, raster, f);
      hide TopFrag, BottomFrag, LeftFrag, RightFrag, TallSide, Bounded, EdgeFrags;
      assert Bounded(ClampTo(BBox(s, fw, fh, t), u), fw, fh);
    }
  }

  lemma FlatStrips(s: RectItem, u: Rect4, fw: int, fh: int, t: int, raster: Raster)
    requires Inside(u, Rect4(0, 0, fw, fh)) && !Empty(u)
    ensures Bounded(TopFrag(s, u, t, raster), fw, fh) && Bounded(BottomFrag(s, u, t, raster), fw, fh)
  {
  }

  lemma StripsOf(s: RectItem, u: Rect4, fw: int, fh: int, t: int, raster: Raster, f: Rect4)
    ensures f in EdgeFrags(s, u, fw, fh, t, raster) ==>
      || f == TopFrag(s, u, t, raster) || f == BottomFrag(s, u, t, raster)
      || (!Empty(f) && (f == LeftFrag(s, u, t, raster) || f == RightFrag(s, u, t, raster)))
    ensures !Empty(f) && (f == LeftFrag(s, u, t, raster) || f == RightFrag(s, u, t, raster)) ==> f in EdgeFrags(s, u, fw, fh, t, raster)
  {
    hide TopFrag, BottomFrag, LeftFrag, RightFrag;
  }

  lemma TallIsSide(s: RectItem, u: Rect4, fw: int, fh: int, t: int, raster: Raster, f: Rect4)
    requires Inside(u, Rect4(0, 0, fw, fh)) && !Empty(u)
    ensures TallSide(s, f, u, fh, t, raster) <==>
      (f == LeftFrag(s, u, t, raster) || f == RightFrag(s, u, t, raster)) && !Empty(f) && !Bounded(f, fw, fh)
  {
    SidesAreNarrow(s, u, t, raster, fw);
    hide StripX;
  }

  /** A fragment window, captioned or not, is inside the frame exactly when it is no larger. */
  lemma WindowInFrame(frag: Rect4, items: seq<Shape>, fw: int, fh: int)
    ensures var w := Window(frag, items, fw, fh);
            Inside(w, Rect4(0, 0, fw, fh)) <==> w.x1 - w.x0 <= fw && w.y1 - w.y0 <= fh
  {
  }

  predicate LegalFrame(fw: int, fh: int) {
    MIN_DIM <= fw <= MAX_DIM && MIN_DIM <= fh <= MAX_DIM && fh % 2 == 0
  }

  lemma PlainWindowAccepted(frag: Rect4, items: seq<Shape>, fw: int, fh: int)
    requires Plain(items) && LegalFrame(fw, fh)
    ensures var w := Window(frag, items, fw, fh);
            && w.x1 - w.x0 >= MIN_DIM && w.y1 - w.y0 >= MIN_DIM && (w.y1 - w.y0) % 2 == 0
            && (Inside(w, Rect4(0, 0, fw, fh)) <==> Bounded(frag, fw, fh))
  {
    WindowInFrame(frag, items, fw, fh);
  }

  // Where the window of a fragment lands on the 64x64 frame of the examples below.
  lemma WindowOf(f: Rect4, items: seq<Shape>, w: Rect4)
    requires Plain(items)
    requires w.x1 - w.x0 == Max(MIN_DIM, f.x1 - f.x0) && w.y1 - w.y0 == Even(Max(MIN_DIM, f.y1 - f.y0))
    requires w.x0 == Max(0, Min(f.x0, 64 - (w.x1 - w.x0))) && w.y0 == Max(0, Min(f.y0, 64 - (w.y1 - w.y0)))
    ensures Window(f, items, 64, 64) == w
  {
  }

  // Some shape meets the fragment's window, so a canvas is produced for it.
  predicate Seen(f: Rect4, items: seq<Shape>, fw: int, fh: int, t: int) {
    exists s | s in items :: Overlaps(BBox(s, fw, fh, t), Window(f, items, fw, fh))
  }

  lemma LegalWindow(c: Canvas, win: Rect4, fw: int, fh: int)
    requires c.x == win.x0 && c.y == win.y0 && c.image.cols == win.x1 - win.x0 && c.image.rows == win.y1 - win.y0
    requires LegalFrame(fw, fh) && c.image.rows >= MIN_DIM && c.image.cols >= MIN_DIM && c.image.rows % 2 == 0
    ensures Accepted(c, fw, fh) <==> Inside(win, Rect4(0, 0, fw, fh))
  {
  }

  lemma TileAccepted(f: Rect4, items: seq<Shape>, cols: seq<Rgb>, fw: int, fh: int, t: int, raster: Raster)
    requires |items| == |cols| && Plain(items) && LegalFrame(fw, fh)
    ensures (forall c | c in Tile(f, items, cols, fw, fh, t, raster) :: Accepted(c, fw, fh)) <==>
            (Seen(f, items, fw, fh, t) ==> Bounded(f, fw, fh))
  {
    hide Tile, Window, Bounded, Accepted;
    var win := Window(f, items, fw, fh);
    PlainWindowAccepted(f, items, fw, fh);
    var tile := Tile(f, items, cols, fw, fh, t, raster);
    assert Seen(f, items, fw, fh, t) <==> true in Meets(items, win, fw, fh, t);
    if tile != [] {
      assert tile[0] in tile;
      LegalWindow(tile[0], win, fw, fh);
    }
  }

  lemma TilesAccepted(frags: seq<Rect4>, items: seq<Shape>, cols: seq<Rgb>, fw: int, fh: int, t: int, raster: Raster)
    requires |items| == |cols| && Plain(items) && LegalFrame(fw, fh)
    ensures (forall c | c in Flat(Tiles(frags, items, cols, fw, fh, t, raster)) :: Accepted(c, fw, fh)) <==>
            (forall f | f in frags && Seen(f, items, fw, fh, t) :: Bounded(f, fw, fh))
  {
    hide Tile, Window, Bounded, Accepted;
    var tiles := Tiles(frags, items, cols, fw, fh, t, raster);
    forall i | 0 <= i < |frags|
      ensures (forall c | c in tiles[i] :: Accepted(c, fw, fh)) <==> (Seen(frags[i], items, fw, fh, t) ==> Bounded(frags[i], fw, fh))
    {
      TileAccepted(frags[i], items, cols, fw, fh, t, raster);
    }
    forall c ensures c in Flat(tiles) <==> exists tile | tile in tiles :: c in tile {
      FlatMembers(tiles, c);
    }
    if f :| f in frags && Seen(f, items, fw, fh, t) && !Bounded(f, fw, fh) {
      var i :| 0 <= i < |frags| && frags[i] == f;
      var c :| c in tiles[i] && !Accepted(c, fw, fh);
      assert tiles[i] in tiles;
      assert c in Flat(tiles);
    }
  }

  // In the first tier, a box keeps a side strip taller than the frame, in a window some shape meets.
  ghost predicate Overshoots(items: seq<Shape>, fw: int, fh: int, t: int, raster: Raster) {
    var u := Clamp(FragExtents(items, fw, fh, t), fw, fh);
    |AllEdges(items, u, fw, fh, t, raster)| <= MAX_OVERLAY_BATCH &&
    exists s, f | s in items :: TallSide(s, f, u, fh, t, raster) && Seen(f, items, fw, fh, t)
  }

  lemma FragsBoundedUnlessTall(items: seq<Shape>, fw: int, fh: int, t: int, raster: Raster)
    requires !Empty(Clamp(FragExtents(items, fw, fh, t), fw, fh))
    ensures var u := Clamp(FragExtents(items, fw, fh, t), fw, fh);
            (forall f | f in Frags(items, u, fw, fh, t, raster) && Seen(f, items, fw, fh, t) :: Bounded(f, fw, fh)) <==>
            !Overshoots(items, fw, fh, t, raster)
  {
    var u := Clamp(FragExtents(items, fw, fh, t), fw, fh);
    var frags := Frags(items, u, fw, fh, t, raster);
    if Overshoots(items, fw, fh, t, raster) {
      var s, f :| s in items && TallSide(s, f, u, fh, t, raster) && Seen(f, items, fw, fh, t);
      TallIsKept(items, s, u, fw, fh, t, raster, f);
    }
    forall f | f in frags && Seen(f, items, fw, fh, t) && !Bounded(f, fw, fh)
      ensures Overshoots(items, fw, fh, t, raster)
    {
      var s := UnboundedIsTall(items, u, fw, fh, t, raster, f);
    }
  }

  lemma TallIsKept(items: seq<Shape>, s: Shape, u: Rect4, fw: int, fh: int, t: int, raster: Raster, f: Rect4)
    requires s in items && Inside(u, Rect4(0, 0, fw, fh)) && !Empty(u) && TallSide(s, f, u, fh, t, raster)
    ensures f in AllEdges(items, u, fw, fh, t, raster) && !Bounded(f, fw, fh)
  {
    var i :| 0 <= i < |items| && items[i] == s;
    hide TallSide, AllEdges, EdgeFrags;
    EdgeMembers(items, i, u, fw, fh, t, raster);
    EdgesBounded(s, u, fw, fh, t, raster, f);
  }

  lemma UnboundedIsTall(items: seq<Shape>, u: Rect4, fw: int, fh: int, t: int, raster: Raster, f: Rect4) returns (s: Shape)
    requires Inside(u, Rect4(0, 0, fw, fh)) && !Empty(u) && f in Frags(items, u, fw, fh, t, raster) && !Bounded(f, fw, fh)
    ensures s in items && TallSide(s, f, u, fh, t, raster) && |AllEdges(items, u, fw, fh, t, raster)| <= MAX_OVERLAY_BATCH
  {
    hide AllEdges, AllShapes, EdgeFrags, ShapeFrag, TallSide;
    if |AllEdges(items, u, fw, fh, t, raster)| <= MAX_OVERLAY_BATCH {
      s := EdgeOwner(items, u, fw, fh, t, raster, f);
      EdgesBounded(s, u, fw, fh, t, raster, f);
    } else if |AllShapes(items, u, fw, fh, t)| <= MAX_OVERLAY_BATCH {
      s := ShapeOwner(items, u, fw, fh, t, f);
      EdgesBounded(s, u, fw, fh, t, raster, f);
      assert false;
    } else {
      assert false;
    }
  }

  /** One blend job takes the fragments: never more than 64 for any input. Uncaptioned on an even
      frame of legal size, every one of them is accepted by blend_hw without padding exactly when
      no box keeps a side strip taller than the frame. */
  lemma FragmentsFitOneJob(fw: int, fh: int, items: seq<Shape>, cols: seq<Rgb>, t: int, raster: Raster)
    requires |items| == |cols|
    ensures var r := Fragments(fw, fh, items, cols, t, raster);
            r.Ok? ==>
              && |r.value| <= MAX_OVERLAY_BATCH
              && (Plain(items) && LegalFrame(fw, fh) ==>
                    ((forall c | c in r.value :: Accepted(c, fw, fh)) <==> !Overshoots(items, fw, fh, t, raster)))
  {
    if Fragments(fw, fh, items, cols, t, raster).Ok? && Plain(items) && LegalFrame(fw, fh) {
      FragsBoundedUnlessTall(items, fw, fh, t, raster);
      var u := Clamp(FragExtents(items, fw, fh, t), fw, fh);
      TilesAccepted(Frags(items, u, fw, fh, t, raster), items, cols, fw, fh, t, raster);
    }
  }

  /** Boxes whose strokes start no higher and end no lower than the frame never overshoot. */
  lemma BoxesInFrameFit(items: seq<Shape>, fw: int, fh: int, t: int, raster: Raster)
    requires !Empty(Clamp(FragExtents(items, fw, fh, t), fw, fh))
    requires forall s | s in items && s.BoxShape? :: s.y1 + t + 1 >= 0 && s.y2 - t <= fh
    ensures !Overshoots(items, fw, fh, t, raster)
  {
  }

  /** Accepted fragments reach the device as they are: padding leaves each one alone. */
  lemma AcceptedNeedsNoPadding(out: seq<Canvas>, fw: int, fh: int)
    requires forall c | c in out :: Accepted(c, fw, fh)
    ensures PaddedAll(out) == out
  {
    forall i | 0 <= i < |out| ensures Padded(out[i]) == out[i] {
      assert Accepted(out[i], fw, fh);
    }
  }

  /** The refusal is real: a box running from row 10 to row 200 of a 64x64 frame. */
  lemma TallBoxIsRefused(items: seq<Shape>, cols: seq<Rgb>, raster: Raster)
    requires items == [BoxShape(10, 10, 40, 200, "")] && |cols| == 1
    ensures var out := Fragments(64, 64, items, cols, 2, raster);
            out.Ok? && exists c | c in out.value :: !Accepted(c, 64, 64)
  {
    var box, u := items[0], Rect4(7, 7, 43, 64);
    SingleShape(items, u, 64, 64, 2, raster);
    var left := Rect4(7, 13, 13, 198);
    TallLeft(box, u, raster, left);
    WindowOf(left, items, Rect4(7, 0, 23, 186));
    assert Overlaps(BBox(box, 64, 64, 2), Rect4(7, 0, 23, 186));
    assert box in items;
    FragmentsFitOneJob(64, 64, items, cols, 2, raster);
  }

  lemma TallLeft(box: Shape, u: Rect4, raster: Raster, left: Rect4)
    requires box == BoxShape(10, 10, 40, 200, "") && u == Rect4(7, 7, 43, 64) && left == Rect4(7, 13, 13, 198)
    ensures left == LeftFrag(box, u, 2, raster) && left in EdgeFrags(box, u, 64, 64, 2, raster) && TallSide(box, left, u, 64, 2, raster)
  {
  }

  lemma SingleShape(items: seq<Shape>, u: Rect4, fw: int, fh: int, t: int, raster: Raster)
    requires |items| == 1
    ensures FragExtents(items, fw, fh, t) == Join(Start(fw, fh), BBox(items[0], fw, fh, t))
    ensures AllEdges(items, u, fw, fh, t, raster) == EdgeFrags(items[0], u, fw, fh, t, raster)
  {
    assert items[..0] == [];
    var tiles := EdgeTiles(items, u, fw, fh, t, raster);
    assert tiles[..0] == [] && Flat([]) + tiles[0] == tiles[0];
  }

  // ---- soft edges ----

  // Half coverage everywhere an outline may go.
  function SoftRaster(): Raster {
    Raster((s, t, x, y) => if Stroked(s, t, Point(x, y)) then 128 else 0, (text, dx, dy, m) => m, text => 0)
  }

  /** The hard edges are needed: one white box whose stroke is half covered comes out brighter
      from its fragments, since its top and left windows overlap at (20, 25). */
  lemma SoftEdgesBlendTwice(items: seq<Shape>, cols: seq<Rgb>, raster: Raster, bg: Rgb, p: Point)
    requires items == [BoxShape(20, 20, 40, 40, "")] && cols == [Rgb(255, 255, 255)] && raster == SoftRaster()
    requires bg == Rgb(0, 0, 0) && p == Point(20, 25)
    ensures var fragments, canvas := Fragments(64, 64, items, cols, 1, raster), OneCanvas(64, 64, items, cols, 1, raster);
            && InBand(items, 1, raster) && fragments.Ok? && canvas.Ok?
            && PixelAfter(bg, [canvas.value], p.x, p.y) == Rgb(128, 128, 128)
            && PixelAfter(bg, fragments.value, p.x, p.y) == Rgb(191, 191, 191)
  {
    hide Frags, Ink, Hits, Blends, Over, PixelAfter, Fragments, OneCanvas, Clamp, FragExtents, SoftStrips, SoftRaster, InBand, Stroked;
    SoftFrags(items, raster);
    SoftHits(items, p);
    SoftInk(items, cols, raster, p, bg);
    SoftAccepted(items, cols, raster);
    SoftInBand(items, raster);
    PicturePixel(64, 64, items, cols, 1, raster, bg, p);
  }

  lemma SoftAccepted(items: seq<Shape>, cols: seq<Rgb>, raster: Raster)
    requires items == [BoxShape(20, 20, 40, 40, "")] && |cols| == 1
    ensures Fragments(64, 64, items, cols, 1, raster).Ok? && OneCanvas(64, 64, items, cols, 1, raster).Ok?
  {
    hide Frags, Tiles, Rendered;
    SoftFrags(items, raster);
    SameRefusal(64, 64, items, cols, 1, raster);
  }

  lemma SoftInBand(items: seq<Shape>, raster: Raster)
    requires raster == SoftRaster()
    ensures InBand(items, 1, raster)
  {
  }

  lemma SoftInk(items: seq<Shape>, cols: seq<Rgb>, raster: Raster, p: Point, bg: Rgb)
    requires items == [BoxShape(20, 20, 40, 40, "")] && cols == [Rgb(255, 255, 255)] && raster == SoftRaster()
    requires bg == Rgb(0, 0, 0) && p == Point(20, 25)
    ensures var ink := Ink(items, cols, 1, raster, p);
            Over(ink, bg) == Rgb(128, 128, 128) && Blends(2, ink, bg) == Rgb(191, 191, 191)
  {
    var ink := Rgba(255, 255, 255, 128);
    SoftCoverage(items, cols, raster, p);
    hide Ink;
    assert Mix(128, 255, 0) == 128 && Mix(128, 255, 128) == 191;
    assert Blends(1, ink, bg) == Over(ink, Blends(0, ink, bg));
    assert Blends(2, ink, bg) == Over(ink, Blends(1, ink, bg));
  }

  lemma SoftCoverage(items: seq<Shape>, cols: seq<Rgb>, raster: Raster, p: Point)
    requires items == [BoxShape(20, 20, 40, 40, "")] && cols == [Rgb(255, 255, 255)] && raster == SoftRaster()
    requires p == Point(20, 25)
    ensures Ink(items, cols, 1, raster, p) == Rgba(255, 255, 255, 128)
  {
    assert Stroked(items[0], 1, p);
    var covs := Covs(items, Rect4(0, 0, 0, 0), 1, false, raster, p);
    assert covs == [128] && covs[..0] == [];
    hide Covs, Stroked, SoftRaster;
    assert Paint(covs[..0], cols) == CLEAR;
    assert Paint(covs, cols) == Coat(CLEAR, 128, cols[0]);
  }

  function SoftStrips(): seq<Rect4> {
    [Rect4(18, 18, 42, 22), Rect4(18, 39, 42, 42), Rect4(18, 22, 22, 39), Rect4(39, 22, 42, 39)]
  }

  lemma SoftFrags(items: seq<Shape>, raster: Raster)
    requires items == [BoxShape(20, 20, 40, 40, "")]
    ensures var u := Clamp(FragExtents(items, 64, 64, 1), 64, 64);
            !Empty(u) && Frags(items, u, 64, 64, 1, raster) == SoftStrips()
  {
    var u := Rect4(18, 18, 42, 42);
    SingleShape(items, u, 64, 64, 1, raster);
    assert EdgeFrags(items[0], u, 64, 64, 1, raster) == SoftStrips();
  }

  lemma SoftHits(items: seq<Shape>, p: Point)
    requires items == [BoxShape(20, 20, 40, 40, "")] && p == Point(20, 25)
    ensures Count(Hits(SoftStrips(), items, 64, 64, p)) == 2
  {
    var strips := SoftStrips();
    WindowOf(strips[0], items, Rect4(18, 18, 42, 34));
    WindowOf(strips[1], items, Rect4(18, 39, 42, 55));
    WindowOf(strips[2], items, Rect4(18, 22, 34, 40));
    WindowOf(strips[3], items, Rect4(39, 22, 55, 40));
    assert Hits(strips, items, 64, 64, p) == [true, false, true, false];
    CountAppend([true, false, true], false);
    CountAppend([true, false], true);
    CountAppend([true], false);
    CountAppend([], true);
    assert [] + [true] == [true] && [true] + [false] == [true, false];
    assert [true, false] + [true] == [true, false, true] && [true, false, true] + [false] == [true, false, true, false];
  }

  lemma CountAppend(hits: seq<bool>, hit: bool)
    ensures Count(hits + [hit]) == Count(hits) + if hit then 1 else 0
  {
    assert (hits + [hit])[..|hits|] == hits;
  }
}
