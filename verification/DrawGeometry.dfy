/** The rectangles of cpp/src/draw.cpp:341-465 told by the pixels they hold: extents, refusals, the
    strips of each tier and the windows around them. */
module DrawGeometry {
  import opened Wrappers
  import opened Pixels
  import opened Draw
  import opened DrawMeaning

  // ---- extents ----

  // m is the least of from and the values at.
  predicate Least(m: int, from: int, at: seq<int>) { (m == from || m in at) && m <= from && forall i | 0 <= i < |at| :: m <= at[i] }
  predicate Most(m: int, from: int, at: seq<int>) { (m == from || m in at) && m >= from && forall i | 0 <= i < |at| :: m >= at[i] }

  function Xs(pts: seq<Point>): (xs: seq<int>)
    ensures |xs| == |pts| && forall i | 0 <= i < |pts| :: xs[i] == pts[i].x
  { seq(|pts|, i requires 0 <= i < |pts| => pts[i].x) }

  function Ys(pts: seq<Point>): (ys: seq<int>)
    ensures |ys| == |pts| && forall i | 0 <= i < |pts| :: ys[i] == pts[i].y
  { seq(|pts|, i requires 0 <= i < |pts| => pts[i].y) }

  lemma {:induction false} ExtremesOf(pts: seq<Point>, run: Rect4)
    ensures Least(MinX(pts, run.x0), run.x0, Xs(pts)) && Least(MinY(pts, run.y0), run.y0, Ys(pts))
    ensures Most(MaxX(pts, run.x1), run.x1, Xs(pts)) && Most(MaxY(pts, run.y1), run.y1, Ys(pts))
  {
    if pts != [] {
      var k := |pts| - 1;
      ExtremesOf(pts[..k], run);
      assert Xs(pts) == Xs(pts[..k]) + [pts[k].x] && Ys(pts) == Ys(pts[..k]) + [pts[k].y];
    }
  }

  /** A shape's extent is its coordinates and a stroke margin, with room for a label above a captioned
      box; a line's reaches to the far sides of the frame at least. */
  lemma BBoxExactly(s: Shape, fw: int, fh: int, t: int)
    ensures var b := BBox(s, fw, fh, t);
      if s.BoxShape? then
        && b.x0 == s.x1 - t - 1 && b.x1 == s.x2 + t + 1 && b.y1 == s.y2 + t + 1
        && b.y0 == s.y1 - t - 1 - (if s.text == "" then 0 else 20)
      else
        && Least(b.x0 + t + 1, fw, Xs(s.pts)) && Least(b.y0 + t + 1, fh, Ys(s.pts))
        && Most(b.x1 - t - 1, 0, Xs(s.pts)) && Most(b.y1 - t - 1, 0, Ys(s.pts))
  {
    if s.LineShape? { ExtremesOf(s.pts, Start(fw, fh)); }
  }

  lemma ClampExactly(r: Rect4, fw: int, fh: int, p: Point)
    ensures Within(p, Clamp(r, fw, fh)) <==> Within(p, r) && InFrame(fw, fh, p)
  {
  }

  // One of the shapes gives the side, or none reaches further than the side's start.
  lemma {:induction false} ExtentsTight(items: seq<Shape>, fw: int, fh: int, t: int)
    ensures var e := FragExtents(items, fw, fh, t);
      && (e.x0 == fw || exists s | s in items :: e.x0 == BBox(s, fw, fh, t).x0)
      && (e.y0 == fh || exists s | s in items :: e.y0 == BBox(s, fw, fh, t).y0)
      && (e.x1 == 0 || exists s | s in items :: e.x1 == BBox(s, fw, fh, t).x1)
      && (e.y1 == 0 || exists s | s in items :: e.y1 == BBox(s, fw, fh, t).y1)
  {
    if items != [] {
      var k := |items| - 1;
      ExtentsTight(items[..k], fw, fh, t);
      hide BBox;
      assert items == items[..k] + [items[k]];
      assert items[k] in items;
    }
  }

  // ---- refusals ----

  /** What is refused, and why, in this order: no shape at all; a line of fewer than two points; shapes
      whose joint extents hold no pixel of the frame. */
  lemma RefusedExactly(fw: int, fh: int, items: seq<Shape>, cols: seq<Rgb>, t: int, raster: Raster)
    requires |items| == |cols| && t >= 1
    ensures var r := Fragments(fw, fh, items, cols, t, raster);
      var short := exists i | 0 <= i < |items| :: items[i].LineShape? && |items[i].pts| < 2;
      var seen := exists p :: InFrame(fw, fh, p) && Within(p, FragExtents(items, fw, fh, t));
      if items == [] then r == Err(NoShape)
      else if short then r == Err(BadPoints)
      else if !seen then r == Err(OutsideFrame)
      else r.Ok?
  {
    var u := Clamp(FragExtents(items, fw, fh, t), fw, fh);
    forall p ensures Within(p, u) <==> Within(p, FragExtents(items, fw, fh, t)) && InFrame(fw, fh, p) {
      ClampExactly(FragExtents(items, fw, fh, t), fw, fh, p);
    }
    if !Empty(u) {
      var p := Point(u.x0, u.y0);
      assert Within(p, u);
    }
    hide FragExtents, Frags, Clamp;
  }

  // ---- the first tier ----

  // The ring of a box: its extent, as wide as its caption, without the hole inside the strokes.
  predicate InRing(s: RectItem, t: int, raster: Raster, p: Point) {
    && s.x1 - t - 1 <= p.x && (p.x < s.x2 + t + 1 || (s.text != "" && p.x < s.x1 + raster.textWidth(s.text)))
    && s.y1 - t - 1 - (if s.text == "" then 0 else 20) <= p.y < s.y2 + t + 1
    && !(s.x1 + t + 1 <= p.x < s.x2 - t && s.y1 + t + 1 <= p.y < s.y2 - t)
  }

  // In the union, the strips of a box hold exactly the pixels of its ring, and none of its inside.
  lemma StripsAreTheRing(s: RectItem, u: Rect4, fw: int, fh: int, t: int, raster: Raster, p: Point)
    requires s.x1 <= s.x2 && s.y1 <= s.y2 && t >= 0 && Within(p, u)
    ensures Covers(EdgeFrags(s, u, fw, fh, t, raster), p) <==> InRing(s, t, raster, p)
  {
    var frags := EdgeFrags(s, u, fw, fh, t, raster);
    var top, bottom := TopFrag(s, u, t, raster), BottomFrag(s, u, t, raster);
    var left, right := LeftFrag(s, u, t, raster), RightFrag(s, u, t, raster);
    assert forall f | f in frags :: f == top || f == bottom || f == left || f == right;
    if InRing(s, t, raster, p) {
      if p.y < s.y1 + t + 1 {
        assert Within(p, top) && top in frags;
      } else if p.y >= s.y2 - t {
        assert Within(p, bottom) && bottom in frags;
      } else if p.x < s.x1 + t + 1 {
        assert Within(p, left) && left in frags;
      } else {
        assert Within(p, right) && right in frags;
      }
    }
  }

  lemma ExtentOnly(s: Shape, u: Rect4, fw: int, fh: int, t: int, p: Point)
    ensures Covers(ShapeFrag(s, u, fw, fh, t), p) <==> Within(p, BBox(s, fw, fh, t)) && Within(p, u)
  {
    hide BBox;
    var b := BBox(s, fw, fh, t);
    if Within(p, b) && Within(p, u) { assert ClampTo(b, u) in ShapeFrag(s, u, fw, fh, t); }
  }

  // What a shape's own fragments hold in the first tier and in the second.
  predicate Thin(s: Shape, fw: int, fh: int, t: int, raster: Raster, p: Point) {
    if s.BoxShape? then InRing(s, t, raster, p) else Within(p, BBox(s, fw, fh, t))
  }

  predicate Upright(items: seq<Shape>) { forall s | s in items && s.BoxShape? :: s.x1 <= s.x2 && s.y1 <= s.y2 }

  lemma EdgesHold(items: seq<Shape>, u: Rect4, fw: int, fh: int, t: int, raster: Raster, p: Point)
    requires Upright(items) && t >= 0 && Within(p, u)
    ensures Covers(AllEdges(items, u, fw, fh, t, raster), p) <==> exists s | s in items :: Thin(s, fw, fh, t, raster, p)
  {
    hide InRing, BBox, EdgeFrags, AllEdges;
    forall s | s in items ensures Covers(EdgeFrags(s, u, fw, fh, t, raster), p) <==> Thin(s, fw, fh, t, raster, p) {
      EdgesOfOne(s, u, fw, fh, t, raster, p);
    }
    if Covers(AllEdges(items, u, fw, fh, t, raster), p) {
      var f :| f in AllEdges(items, u, fw, fh, t, raster) && Within(p, f);
      var s := EdgeOwner(items, u, fw, fh, t, raster, f);
      assert Covers(EdgeFrags(s, u, fw, fh, t, raster), p);
    }
    if s :| s in items && Thin(s, fw, fh, t, raster, p) {
      var i :| 0 <= i < |items| && items[i] == s;
      EdgeMembers(items, i, u, fw, fh, t, raster);
      var f :| f in EdgeFrags(s, u, fw, fh, t, raster) && Within(p, f);
      assert f in AllEdges(items, u, fw, fh, t, raster);
    }
  }

  lemma EdgesOfOne(s: Shape, u: Rect4, fw: int, fh: int, t: int, raster: Raster, p: Point)
    requires (s.BoxShape? ==> s.x1 <= s.x2 && s.y1 <= s.y2) && t >= 0 && Within(p, u)
    ensures Covers(EdgeFrags(s, u, fw, fh, t, raster), p) <==> Thin(s, fw, fh, t, raster, p)
  {
    if s.BoxShape? { StripsAreTheRing(s, u, fw, fh, t, raster, p); } else { ExtentOnly(s, u, fw, fh, t, p); }
  }

  lemma ShapesHold(items: seq<Shape>, u: Rect4, fw: int, fh: int, t: int, p: Point)
    requires Within(p, u)
    ensures Covers(AllShapes(items, u, fw, fh, t), p) <==> exists s | s in items :: Within(p, BBox(s, fw, fh, t))
  {
    hide BBox, ShapeFrag, AllShapes;
    forall s | s in items ensures Covers(ShapeFrag(s, u, fw, fh, t), p) <==> Within(p, BBox(s, fw, fh, t)) {
      ExtentOnly(s, u, fw, fh, t, p);
    }
    if Covers(AllShapes(items, u, fw, fh, t), p) {
      var f :| f in AllShapes(items, u, fw, fh, t) && Within(p, f);
      var s := ShapeOwner(items, u, fw, fh, t, f);
      assert Covers(ShapeFrag(s, u, fw, fh, t), p);
    }
    if s :| s in items && Within(p, BBox(s, fw, fh, t)) {
      var i :| 0 <= i < |items| && items[i] == s;
      EdgeMembers(items, i, u, fw, fh, t, NoRaster());
      var f :| f in ShapeFrag(s, u, fw, fh, t) && Within(p, f);
      assert f in AllShapes(items, u, fw, fh, t);
    }
  }

  function NoRaster(): Raster { Raster((s, t, x, y) => 0, (text, dx, dy, m) => m, text => 0) }

  // Four strips for each box, one extent for each line.
  function MostStrips(items: seq<Shape>): nat {
    if items == [] then 0 else MostStrips(items[..|items| - 1]) + if items[|items| - 1].BoxShape? then 4 else 1
  }

  lemma {:induction false} StripsCounted(items: seq<Shape>, u: Rect4, fw: int, fh: int, t: int, raster: Raster)
    ensures |AllEdges(items, u, fw, fh, t, raster)| <= MostStrips(items) && |AllShapes(items, u, fw, fh, t)| <= |items|
  {
    hide EdgeFrags, ShapeFrag, BBox, Clipped;
    if items != [] {
      var k := |items| - 1;
      StripsCounted(items[..k], u, fw, fh, t, raster);
      assert EdgeTiles(items, u, fw, fh, t, raster)[..k] == EdgeTiles(items[..k], u, fw, fh, t, raster);
      assert ClippedTiles(BBoxes(items, fw, fh, t), u)[..k] == ClippedTiles(BBoxes(items[..k], fw, fh, t), u);
      LineIsOne(items[k], u, fw, fh, t, raster);
    }
  }

  lemma LineIsOne(s: Shape, u: Rect4, fw: int, fh: int, t: int, raster: Raster)
    ensures s.LineShape? ==> |EdgeFrags(s, u, fw, fh, t, raster)| <= 1
  {
  }

  /** Which pixels of the union the fragments hold. While four strips a box and one a line make at most
      64: the rings of the boxes and the extents of the lines, so never a box's inside. Beyond 64 strips
      but not 64 shapes: the shapes' extents. */
  lemma FragmentsHold(items: seq<Shape>, fw: int, fh: int, t: int, raster: Raster, p: Point)
    requires Upright(items) && t >= 0
    requires Within(p, Clamp(FragExtents(items, fw, fh, t), fw, fh))
    ensures var u := Clamp(FragExtents(items, fw, fh, t), fw, fh);
      var frags := Frags(items, u, fw, fh, t, raster);
      && (MostStrips(items) <= 64 ==> (Covers(frags, p) <==> exists s | s in items :: Thin(s, fw, fh, t, raster, p)))
      && (|AllEdges(items, u, fw, fh, t, raster)| > 64 && |items| <= 64 ==>
            (Covers(frags, p) <==> exists s | s in items :: Within(p, BBox(s, fw, fh, t))))
  {
    hide AllEdges, AllShapes, FragExtents, BBox, InRing, Clamp;
    var u := Clamp(FragExtents(items, fw, fh, t), fw, fh);
    StripsCounted(items, u, fw, fh, t, raster);
    EdgesHold(items, u, fw, fh, t, raster, p);
    ShapesHold(items, u, fw, fh, t, p);
  }

  // ---- windows ----

  // A window starts where its fragment does, or as near as the frame lets it.
  lemma WindowMovesOnlyToFit(frag: Rect4, items: seq<Shape>, fw: int, fh: int)
    ensures var w := Window(frag, items, fw, fh);
      var cw, ch := w.x1 - w.x0, w.y1 - w.y0;
      && (0 <= frag.x0 && frag.x0 + cw <= fw ==> w.x0 == frag.x0) && (0 <= frag.y0 && frag.y0 + ch <= fh ==> w.y0 == frag.y0)
      && (frag.x0 + cw > fw && cw <= fw ==> w.x1 == fw) && (frag.y0 + ch > fh && ch <= fh ==> w.y1 == fh)
  {
    hide CaptionedHeight;
  }

  /** A caption whose row lies in a fragment of the floored height has six rows below it in the window,
      and a window is no taller than that, the floor and an even height ask for. */
  lemma {:induction false} CaptionsHaveRoom(items: seq<Shape>, y0: int, floor: int)
    requires floor >= MIN_DIM
    ensures var h := CaptionedHeight(items, y0, floor);
      && (forall i | 0 <= i < |items| && Captioned(items[i]) && y0 <= items[i].y1 - 6 < y0 + floor :: items[i].y1 - 6 - y0 + 6 <= h)
      && (h == floor || exists i | 0 <= i < |items| && Captioned(items[i]) ::
            h == items[i].y1 - 6 - y0 + 6 || (y0 == 0 && items[i].y1 - 6 < 12 && h == 12 + 6))
  {
    if items != [] {
      var k := |items| - 1;
      CaptionsHaveRoom(items[..k], y0, floor);
      forall i | 0 <= i < k ensures items[..k][i] == items[i] {}
    }
  }
}
