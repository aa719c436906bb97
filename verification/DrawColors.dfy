/** What a rendered pixel is, told from the masks (cpp/src/draw.cpp:43-52, 85-133): whose colour,
    what alpha, and where a caption's ink goes. */
module DrawColors {
  import opened Wrappers
  import opened Pixels
  import opened Draw

  // The last mask that covers the pixel.
  predicate Topmost(covs: seq<Byte>, i: nat) {
    i < |covs| && covs[i] > 0 && forall k | i < k < |covs| :: covs[k] == 0
  }

  // Transparent black where nothing covers; else the colour of the last covering mask, and for alpha
  // a mask's value that no other exceeds.
  ghost predicate Painted(px: Rgba, covs: seq<Byte>, cols: seq<Rgb>)
    requires |covs| <= |cols|
  {
    if forall k | 0 <= k < |covs| :: covs[k] == 0 then px.r == 0 && px.g == 0 && px.b == 0 && px.a == 0
    else
      && (exists i: nat :: Topmost(covs, i) && px.r == cols[i].r && px.g == cols[i].g && px.b == cols[i].b)
      && px.a in covs && forall k | 0 <= k < |covs| :: covs[k] <= px.a
  }

  lemma {:induction false} PaintIsPainted(covs: seq<Byte>, cols: seq<Rgb>)
    requires |covs| <= |cols|
    ensures Painted(Paint(covs, cols), covs, cols)
  {
    if covs != [] {
      var k := |covs| - 1;
      PaintIsPainted(covs[..k], cols);
      OneMoreCoat(Paint(covs[..k], cols), covs, cols);
    }
  }

  lemma OneMoreCoat(under: Rgba, covs: seq<Byte>, cols: seq<Rgb>)
    requires 0 < |covs| <= |cols| && Painted(under, covs[..|covs| - 1], cols)
    ensures Painted(Coat(under, covs[|covs| - 1], cols[|covs| - 1]), covs, cols)
  {
    var k := |covs| - 1;
    var before, px := covs[..k], Coat(under, covs[k], cols[k]);
    assert covs[k] in covs;
    forall c | c in before ensures c in covs {
      var j :| 0 <= j < k && before[j] == c;
      assert covs[j] == c;
    }
    forall j | 0 <= j < k ensures covs[j] == before[j] {}
    if covs[k] > 0 {
      assert Topmost(covs, k);
    } else if exists j :: 0 <= j < k && before[j] != 0 {
      var i: nat :| Topmost(before, i) && under.r == cols[i].r && under.g == cols[i].g && under.b == cols[i].b;
      assert Topmost(covs, i);
    }
  }

  // Leaving out layers without coverage changes nothing.
  lemma {:induction false} PaintPicked(covs: seq<Byte>, cols: seq<Rgb>, keep: seq<bool>)
    requires |covs| == |cols| == |keep| && forall i | 0 <= i < |keep| && !keep[i] :: covs[i] == 0
    ensures |Pick(covs, keep)| == |Pick(cols, keep)| && Paint(Pick(covs, keep), Pick(cols, keep)) == Paint(covs, cols)
  {
    if covs != [] {
      var k := |covs| - 1;
      PaintPicked(covs[..k], cols[..k], keep[..k]);
      PaintPickedStep(covs[..k], cols[..k], keep[..k], covs[k], cols[k], keep[k]);
      assert covs == covs[..k] + [covs[k]] && cols == cols[..k] + [cols[k]] && keep == keep[..k] + [keep[k]];
    }
  }

  lemma PaintPickedStep(covs: seq<Byte>, cols: seq<Rgb>, keep: seq<bool>, cov: Byte, col: Rgb, b: bool)
    requires |covs| == |cols| == |keep| && (!b ==> cov == 0) && |Pick(covs, keep)| == |Pick(cols, keep)|
    requires Paint(Pick(covs, keep), Pick(cols, keep)) == Paint(covs, cols)
    ensures |Pick(covs + [cov], keep + [b])| == |Pick(cols + [col], keep + [b])|
    ensures Paint(Pick(covs + [cov], keep + [b]), Pick(cols + [col], keep + [b])) == Paint(covs + [cov], cols + [col])
  {
    PaintAppend(covs, cols, cov, col);
    PickAppend(covs, keep, cov, b);
    PickAppend(cols, keep, col, b);
    PaintAppend(Pick(covs, keep), Pick(cols, keep), cov, col);
    assert !b ==> Pick(covs + [cov], keep + [b]) == Pick(covs, keep) && Pick(cols + [col], keep + [b]) == Pick(cols, keep);
  }

  lemma PaintAppend(covs: seq<Byte>, cols: seq<Rgb>, cov: Byte, col: Rgb)
    requires |covs| == |cols|
    ensures Paint(covs + [cov], cols + [col]) == Coat(Paint(covs, cols), cov, col)
  {
    assert (covs + [cov])[..|covs|] == covs;
    PaintPrefix(covs, cols, cols + [col]);
  }

  lemma {:induction false} PaintPrefix(covs: seq<Byte>, cols: seq<Rgb>, more: seq<Rgb>)
    requires |covs| <= |cols| <= |more| && cols == more[..|cols|]
    ensures Paint(covs, cols) == Paint(covs, more)
  {
    if covs != [] {
      PaintPrefix(covs[..|covs| - 1], cols, more);
    }
  }


  // ---- the coverage a shape gives a pixel ----

  // The row of the frame a caption stands on: six above its box's top, at least row 12 on a canvas
  // that starts at the frame's top; on the one canvas kept off its first 12 rows and its last two.
  function CaptionRow(y1: int, win: Rect4, fragment: bool): int {
    if fragment then (if win.y0 == 0 && y1 - 6 < 12 then 12 else y1 - 6)
    else if y1 - 6 < win.y0 + 12 then Min(win.y0 + 12, win.y1 - 2)
    else Min(y1 - 6, win.y1 - 2)
  }

  /** A shape covers a pixel as its stroke does; a caption adds its ink, at the box's left edge and on
      its row of the frame, wherever the canvas starts; a fragment that does not hold that row leaves
      it out. */
  lemma MaskExactly(s: Shape, win: Rect4, t: int, fragment: bool, raster: Raster, p: Point)
    ensures var stroke := raster.stroke(s, t, p.x, p.y);
      MaskAt(s, win, t, fragment, raster, p) ==
        if !(s.BoxShape? && s.text != "") then stroke
        else
          var row := CaptionRow(s.y1, win, fragment);
          if fragment && !(win.y0 <= row < win.y1) then stroke else raster.ink(s.text, p.x - s.x1, p.y - row, stroke)
  {
  }

  // What each shape gives a pixel of the frame in a fragment: nothing if its extent misses the window.
  function SeenCovs(items: seq<Shape>, win: Rect4, fw: int, fh: int, t: int, raster: Raster, p: Point): (c: seq<Byte>)
    ensures |c| == |items| && forall k | 0 <= k < |c| ::
      c[k] == if Overlaps(BBox(items[k], fw, fh, t), win) then MaskAt(items[k], win, t, true, raster, p) else 0
  {
    seq(|items|, k requires 0 <= k < |items| =>
      if Overlaps(BBox(items[k], fw, fh, t), win) then MaskAt(items[k], win, t, true, raster, p) else 0)
  }

  // Two extents overlap when some pixel is in both.
  lemma OverlapsExactly(a: Rect4, b: Rect4)
    requires !Empty(a) && !Empty(b)
    ensures Overlaps(a, b) <==> exists p :: Within(p, a) && Within(p, b)
  {
    var p := Point(Max(a.x0, b.x0), Max(a.y0, b.y0));
    if Overlaps(a, b) { assert Within(p, a) && Within(p, b); }
  }

  function WindowOfCanvas(c: Canvas): Rect4 { Rect4(c.x, c.y, c.x + c.image.cols, c.y + c.image.rows) }

  // Every pixel of the canvas is painted from the coverage its shapes give that place of the frame.
  ghost predicate ShowsAll(c: Canvas, items: seq<Shape>, cols: seq<Rgb>, t: int, raster: Raster) {
    |items| <= |cols| && forall y, x | 0 <= y < c.image.rows && 0 <= x < c.image.cols ::
      Painted(c.image.px[y][x], Covs(items, WindowOfCanvas(c), t, false, raster, Point(c.x + x, c.y + y)), cols)
  }

  ghost predicate ShowsSeen(c: Canvas, items: seq<Shape>, cols: seq<Rgb>, fw: int, fh: int, t: int, raster: Raster) {
    |items| <= |cols| && forall y, x | 0 <= y < c.image.rows && 0 <= x < c.image.cols ::
      Painted(c.image.px[y][x], SeenCovs(items, WindowOfCanvas(c), fw, fh, t, raster, Point(c.x + x, c.y + y)), cols)
  }

  lemma RenderedPixel(items: seq<Shape>, cols: seq<Rgb>, win: Rect4, t: int, fragment: bool, raster: Raster, y: nat, x: nat)
    requires |items| <= |cols| && 0 <= win.x0 <= win.x0 + x < win.x1 && 0 <= win.y0 <= win.y0 + y < win.y1
    ensures var c := Rendered(items, cols, win, t, fragment, raster);
      c.image.px[y][x] == Paint(Covs(items, win, t, fragment, raster, Point(win.x0 + x, win.y0 + y)), cols)
  {
    hide Rendered, PaintedAt, Lands, At, Paint, Covs;
    PixelIsAt(Rendered(items, cols, win, t, fragment, raster), y, x);
    PaintedFrom(items, cols, win, t, fragment, raster, Point(win.x0 + x, win.y0 + y));
  }

  lemma PixelIsAt(c: Canvas, y: nat, x: nat)
    requires 0 <= c.x && 0 <= c.y && y < c.image.rows && x < c.image.cols
    ensures Lands(c, c.x + x, c.y + y) && At(c, c.x + x, c.y + y) == c.image.px[y][x]
  {
  }

  lemma PaintedFrom(items: seq<Shape>, cols: seq<Rgb>, win: Rect4, t: int, fragment: bool, raster: Raster, p: Point)
    requires |items| <= |cols|
    ensures PaintedAt(items, cols, win, t, fragment, raster, p) == Paint(Covs(items, win, t, fragment, raster, p), cols)
  {
  }

  lemma RenderedShows(items: seq<Shape>, cols: seq<Rgb>, win: Rect4, t: int, raster: Raster)
    requires |items| <= |cols| && 0 <= win.x0 <= win.x1 && 0 <= win.y0 <= win.y1
    ensures ShowsAll(Rendered(items, cols, win, t, false, raster), items, cols, t, raster)
  {
    hide Rendered, Paint, Covs, Painted;
    var c := Rendered(items, cols, win, t, false, raster);
    assert WindowOfCanvas(c) == win;
    forall y, x | 0 <= y < c.image.rows && 0 <= x < c.image.cols
      ensures Painted(c.image.px[y][x], Covs(items, win, t, false, raster, Point(c.x + x, c.y + y)), cols)
    {
      RenderedPixel(items, cols, win, t, false, raster, y, x);
      PaintIsPainted(Covs(items, win, t, false, raster, Point(c.x + x, c.y + y)), cols);
    }
  }

  // The canvas of a window: the shapes that meet it.
  function WindowCanvas(items: seq<Shape>, cols: seq<Rgb>, win: Rect4, fw: int, fh: int, t: int, raster: Raster): (c: Canvas)
    requires |items| == |cols| && 0 <= win.x0 <= win.x1 && 0 <= win.y0 <= win.y1
    ensures WindowOfCanvas(c) == win && c.image.rows == win.y1 - win.y0 && c.image.cols == win.x1 - win.x0
  {
    var keep := Meets(items, win, fw, fh, t);
    PickSameLength(items, cols, keep);
    Rendered(Pick(items, keep), Pick(cols, keep), win, t, true, raster)
  }

  lemma WindowShows(items: seq<Shape>, cols: seq<Rgb>, win: Rect4, fw: int, fh: int, t: int, raster: Raster)
    requires |items| == |cols| && 0 <= win.x0 <= win.x1 && 0 <= win.y0 <= win.y1
    ensures ShowsSeen(WindowCanvas(items, cols, win, fw, fh, t, raster), items, cols, fw, fh, t, raster)
  {
    hide WindowCanvas, SeenCovs, Painted, Rendered, Pick, Meets;
    var c := WindowCanvas(items, cols, win, fw, fh, t, raster);
    forall y, x | 0 <= y < c.image.rows && 0 <= x < c.image.cols
      ensures Painted(c.image.px[y][x], SeenCovs(items, win, fw, fh, t, raster, Point(c.x + x, c.y + y)), cols)
    {
      SeenPixel(items, cols, win, fw, fh, t, raster, y, x);
    }
  }

  lemma TileIs(frag: Rect4, items: seq<Shape>, cols: seq<Rgb>, fw: int, fh: int, t: int, raster: Raster, c: Canvas)
    requires |items| == |cols| && c in Tile(frag, items, cols, fw, fh, t, raster)
    ensures c == WindowCanvas(items, cols, Window(frag, items, fw, fh), fw, fh, t, raster)
  {
    hide Rendered, Window, Pick, Meets;
  }

  lemma SeenPixel(items: seq<Shape>, cols: seq<Rgb>, win: Rect4, fw: int, fh: int, t: int, raster: Raster, y: nat, x: nat)
    requires |items| == |cols| && 0 <= win.x0 <= win.x0 + x < win.x1 && 0 <= win.y0 <= win.y0 + y < win.y1
    ensures var keep := Meets(items, win, fw, fh, t);
      |Pick(items, keep)| == |Pick(cols, keep)| &&
      Painted(WindowCanvas(items, cols, win, fw, fh, t, raster).image.px[y][x],
              SeenCovs(items, win, fw, fh, t, raster, Point(win.x0 + x, win.y0 + y)), cols)
  {
    var p, keep := Point(win.x0 + x, win.y0 + y), Meets(items, win, fw, fh, t);
    var covs := SeenCovs(items, win, fw, fh, t, raster, p);
    hide Rendered, Paint, Painted, Pick, MaskAt, Overlaps, BBox;
    PickSameLength(items, cols, keep);
    RenderedPixel(Pick(items, keep), Pick(cols, keep), win, t, true, raster, y, x);
    PickedCovs(items, keep, win, fw, fh, t, raster, p);
    PaintPicked(covs, cols, keep);
    PaintIsPainted(covs, cols);
  }

  lemma {:induction false} PickedCovs(items: seq<Shape>, keep: seq<bool>, win: Rect4, fw: int, fh: int, t: int,
          raster: Raster, p: Point)
    requires keep == Meets(items, win, fw, fh, t)
    ensures Covs(Pick(items, keep), win, t, true, raster, p) == Pick(SeenCovs(items, win, fw, fh, t, raster, p), keep)
  {
    if items != [] {
      var k := |items| - 1;
      PickedCovs(items[..k], keep[..k], win, fw, fh, t, raster, p);
      LastCov(items, keep, win, fw, fh, t, raster, p);
      hide Pick, Covs, SeenCovs, Meets;
      CovsAppend(Pick(items[..k], keep[..k]), if keep[k] then [items[k]] else [], win, t, raster, p);
    }
  }

  lemma CovsAppend(items: seq<Shape>, more: seq<Shape>, win: Rect4, t: int, raster: Raster, p: Point)
    ensures Covs(items + more, win, t, true, raster, p) == Covs(items, win, t, true, raster, p) + Covs(more, win, t, true, raster, p)
  {
    hide MaskAt;
  }

  // Both sides of the above take the last shape together.
  lemma LastCov(items: seq<Shape>, keep: seq<bool>, win: Rect4, fw: int, fh: int, t: int, raster: Raster, p: Point)
    requires items != [] && keep == Meets(items, win, fw, fh, t)
    ensures var k, seen := |items| - 1, SeenCovs(items, win, fw, fh, t, raster, p);
      && keep[..k] == Meets(items[..k], win, fw, fh, t)
      && Pick(items, keep) == Pick(items[..k], keep[..k]) + (if keep[k] then [items[k]] else [])
      && Pick(seen, keep) == Pick(SeenCovs(items[..k], win, fw, fh, t, raster, p), keep[..k]) +
           Covs(if keep[k] then [items[k]] else [], win, t, true, raster, p)
  {
    hide MaskAt, BBox, Overlaps, Pick;
    var k, seen := |items| - 1, SeenCovs(items, win, fw, fh, t, raster, p);
    assert seen[..k] == SeenCovs(items[..k], win, fw, fh, t, raster, p);
    PickLast(items, keep);
    PickLast(seen, keep);
  }

  lemma PickLast<T>(s: seq<T>, keep: seq<bool>)
    requires 0 < |s| == |keep|
    ensures var k := |s| - 1; Pick(s, keep) == Pick(s[..k], keep[..k]) + if keep[k] then [s[k]] else []
  {
  }

  /** Every canvas the fragment rendering returns shows the shapes that meet it. */
  lemma FragmentsShow(fw: int, fh: int, items: seq<Shape>, cols: seq<Rgb>, t: int, raster: Raster, c: Canvas)
    requires |items| == |cols| && Fragments(fw, fh, items, cols, t, raster).Ok?
    requires c in Fragments(fw, fh, items, cols, t, raster).value
    ensures ShowsSeen(c, items, cols, fw, fh, t, raster)
    ensures exists f | f in Frags(items, Clamp(FragExtents(items, fw, fh, t), fw, fh), fw, fh, t, raster) ::
      WindowOfCanvas(c) == Window(f, items, fw, fh)
  {
    hide Frags, Tile, ShowsSeen, Window;
    var frags := Frags(items, Clamp(FragExtents(items, fw, fh, t), fw, fh), fw, fh, t, raster);
    var tiles := Tiles(frags, items, cols, fw, fh, t, raster);
    FlatMembers(tiles, c);
    var i :| 0 <= i < |tiles| && c in tiles[i];
    TileIs(frags[i], items, cols, fw, fh, t, raster, c);
    assert frags[i] in frags;
    WindowShows(items, cols, Window(frags[i], items, fw, fh), fw, fh, t, raster);
  }

  /** And so does the one canvas, all of them. */
  lemma OneCanvasShows(fw: int, fh: int, items: seq<Shape>, cols: seq<Rgb>, t: int, raster: Raster)
    requires |items| == |cols| && OneCanvas(fw, fh, items, cols, t, raster).Ok?
    ensures ShowsAll(OneCanvas(fw, fh, items, cols, t, raster).value, items, cols, t, raster)
    ensures WindowOfCanvas(OneCanvas(fw, fh, items, cols, t, raster).value) == CanvasWindow(Clamp(CanvasExtents(items, fw, fh, t), fw, fh))
  {
    RenderedShows(items, cols, CanvasWindow(Clamp(CanvasExtents(items, fw, fh, t), fw, fh)), t, raster);
  }
}
