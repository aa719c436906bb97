/** The rendering loops of cpp/src/draw.cpp, proved against the functions of Draw. */
module DrawRender {
  import opened Wrappers
  import opened Pixels
  import opened Draw
  import opened DrawColors

  // The coverage values every mask gives one pixel.
  ghost predicate Masks(masks: seq<RawImage<Byte>>, ch: nat, cw: nat) {
    forall k | 0 <= k < |masks| :: masks[k].Valid() && masks[k].rows == ch && masks[k].cols == cw
  }

  ghost function Coverage(masks: seq<RawImage<Byte>>, ch: nat, cw: nat, y: nat, x: nat): (c: seq<Byte>)
    requires Masks(masks, ch, cw) && y < ch && x < cw
    ensures |c| == |masks|
  {
    seq(|masks|, k requires 0 <= k < |masks| => masks[k].px[y][x])
  }

  /** Every pixel is the painter's fold of its coverages: colour of the last covering mask, alpha
      the largest coverage. */
  method Colorize(masks: seq<RawImage<Byte>>, cols: seq<Rgb>, ch: nat, cw: nat) returns (out: array2<Rgba>)
    requires Masks(masks, ch, cw) && |masks| <= |cols|
    ensures fresh(out) && out.Length0 == ch && out.Length1 == cw
    ensures forall y, x | 0 <= y < ch && 0 <= x < cw :: out[y, x] == Paint(Coverage(masks, ch, cw, y, x), cols)
    ensures forall y, x | 0 <= y < ch && 0 <= x < cw :: Painted(out[y, x], Coverage(masks, ch, cw, y, x), cols)
  {
    out := new Rgba[ch, cw]((y, x) => CLEAR);
    for k := 0 to |masks|
      invariant forall y, x | 0 <= y < ch && 0 <= x < cw :: out[y, x] == Paint(Coverage(masks[..k], ch, cw, y, x), cols)
    {
      CoatAll(out, masks[k], cols[k]);
      forall y, x | 0 <= y < ch && 0 <= x < cw
        ensures out[y, x] == Paint(Coverage(masks[..k + 1], ch, cw, y, x), cols)
      {
        assert Coverage(masks[..k + 1], ch, cw, y, x)[..k] == Coverage(masks[..k], ch, cw, y, x);
      }
    }
    assert masks[..|masks|] == masks;
    forall y, x | 0 <= y < ch && 0 <= x < cw ensures Painted(out[y, x], Coverage(masks, ch, cw, y, x), cols) {
      PaintIsPainted(Coverage(masks, ch, cw, y, x), cols);
    }
  }

  /** One mask's turn in colorize, in place. */
  method CoatAll(out: array2<Rgba>, m: RawImage<Byte>, col: Rgb)
    requires m.Valid() && m.rows == out.Length0 && m.cols == out.Length1
    modifies out
    ensures forall y, x | 0 <= y < m.rows && 0 <= x < m.cols :: out[y, x] == Coat(old(out[y, x]), m.px[y][x], col)
    ensures forall y, x | 0 <= y < m.rows && 0 <= x < m.cols ::
      out[y, x] == if m.px[y][x] == 0 then old(out[y, x])
                   else Rgba(col.r, col.g, col.b, if m.px[y][x] < old(out[y, x]).a then old(out[y, x]).a else m.px[y][x])
  {
    for y := 0 to m.rows
      invariant forall r, c | 0 <= r < m.rows && 0 <= c < m.cols ::
                  out[r, c] == if r < y then Coat(old(out[r, c]), m.px[r][c], col) else old(out[r, c])
    {
      for x := 0 to m.cols
        invariant forall r, c | 0 <= r < m.rows && 0 <= c < m.cols ::
                    out[r, c] == if r < y || (r == y && c < x) then Coat(old(out[r, c]), m.px[r][c], col) else old(out[r, c])
      {
        var cov := m.px[y][x];
        if cov > 0 {
          out[y, x] := Rgba(col.r, col.g, col.b, Max(out[y, x].a, cov));
        }
      }
    }
  }

  // Mask k shows shape k of the window.
  ghost predicate ShowsShapes(masks: seq<RawImage<Byte>>, items: seq<Shape>, win: Rect4, t: int, fragment: bool,
          raster: Raster)
    requires win.x0 <= win.x1 && win.y0 <= win.y1
  {
    && |masks| == |items| && Masks(masks, win.y1 - win.y0, win.x1 - win.x0)
    && forall k, y, x | 0 <= k < |items| && 0 <= y < win.y1 - win.y0 && 0 <= x < win.x1 - win.x0 ::
         masks[k].px[y][x] == MaskAt(items[k], win, t, fragment, raster, Point(win.x0 + x, win.y0 + y))
  }

  method DrawMask(win: Rect4, t: int, s: Shape, fragment: bool, raster: Raster, ghost items: seq<Shape>,
          masks: seq<RawImage<Byte>>)
    returns (more: seq<RawImage<Byte>>)
    requires win.x0 <= win.x1 && win.y0 <= win.y1 && ShowsShapes(masks, items, win, t, fragment, raster)
    ensures ShowsShapes(more, items + [s], win, t, fragment, raster)
  {
    var m := Grid(win.y1 - win.y0, win.x1 - win.x0,
                  (y, x) => MaskAt(s, win, t, fragment, raster, Point(win.x0 + x, win.y0 + y)));
    more := masks + [m];
  }

  method DrawMasks(win: Rect4, t: int, rects: seq<RectItem>, lines: seq<LineItem>, fragment: bool, raster: Raster)
    returns (masks: seq<RawImage<Byte>>)
    requires win.x0 <= win.x1 && win.y0 <= win.y1
    ensures ShowsShapes(masks, rects + lines, win, t, fragment, raster)
  {
    masks := [];
    for i := 0 to |rects|
      invariant ShowsShapes(masks, rects[..i], win, t, fragment, raster)
    {
      assert rects[..i + 1] == rects[..i] + [rects[i]];
      masks := DrawMask(win, t, rects[i], fragment, raster, rects[..i], masks);
    }
    assert rects + lines[..0] == rects[..|rects|];
    for i := 0 to |lines|
      invariant ShowsShapes(masks, rects + lines[..i], win, t, fragment, raster)
    {
      assert rects + lines[..i + 1] == (rects + lines[..i]) + [lines[i]];
      masks := DrawMask(win, t, lines[i], fragment, raster, rects + lines[..i], masks);
    }
    assert lines[..|lines|] == lines;
  }

  /** Masks, then colours: one canvas of the given window. */
  method RenderWindow(win: Rect4, t: int, rects: seq<RectItem>, lines: seq<LineItem>, cols: seq<Rgb>, fragment: bool,
          raster: Raster)
    returns (c: Canvas)
    requires 0 <= win.x0 <= win.x1 && 0 <= win.y0 <= win.y1 && |rects| + |lines| <= |cols|
    ensures c == Rendered(rects + lines, cols, win, t, fragment, raster)
  {
    hide Paint, MaskAt;
    var masks := DrawMasks(win, t, rects, lines, fragment, raster);
    var ch, cw := win.y1 - win.y0, win.x1 - win.x0;
    var pixels := Colorize(masks, cols, ch, cw);
    c := Canvas(Frozen(pixels), win.x0, win.y0);
    forall y, x | 0 <= y < ch && 0 <= x < cw
      ensures c.image.px[y][x] == PaintedAt(rects + lines, cols, win, t, fragment, raster, Point(win.x0 + x, win.y0 + y))
    {
      assert Coverage(masks, ch, cw, y, x) == Covs(rects + lines, win, t, fragment, raster, Point(win.x0 + x, win.y0 + y));
    }
    RenderedIs(c, rects + lines, cols, win, t, fragment, raster);
  }

  lemma RenderedIs(c: Canvas, items: seq<Shape>, cols: seq<Rgb>, win: Rect4, t: int, fragment: bool, raster: Raster)
    requires |items| <= |cols| && 0 <= win.x0 <= win.x1 && 0 <= win.y0 <= win.y1
    requires c.x == win.x0 && c.y == win.y0 && c.image.rows == win.y1 - win.y0 && c.image.cols == win.x1 - win.x0
    requires forall y, x | 0 <= y < c.image.rows && 0 <= x < c.image.cols ::
               c.image.px[y][x] == PaintedAt(items, cols, win, t, fragment, raster, Point(win.x0 + x, win.y0 + y))
    ensures c == Rendered(items, cols, win, t, fragment, raster)
  {
    hide PaintedAt, Rendered;
    var r := Rendered(items, cols, win, t, fragment, raster);
    forall y, x | 0 <= y < c.image.rows && 0 <= x < c.image.cols ensures c.image.px[y][x] == r.image.px[y][x] {
      assert Lands(r, win.x0 + x, win.y0 + y);
      assert r.image.px[y][x] == At(r, win.x0 + x, win.y0 + y);
    }
    SameImage(c.image, r.image);
  }

  lemma SameImage<T>(a: RawImage<T>, b: RawImage<T>)
    requires a.Valid() && b.Valid() && a.rows == b.rows && a.cols == b.cols
    requires forall r, c | 0 <= r < a.rows && 0 <= c < a.cols :: a.px[r][c] == b.px[r][c]
    ensures a == b
  {
    forall r | 0 <= r < a.rows ensures a.px[r] == b.px[r] {
    }
    assert a.px == b.px;
  }

  // The running minimum and maximum over a polyline's points.
  method LineExtent(pts: seq<Point>, run: Rect4, t: int) returns (e: Rect4)
    ensures e == Extent(pts, run, t)
  {
    var lxMin, lyMin, lxMax, lyMax := run.x0, run.y0, run.x1, run.y1;
    for i := 0 to |pts|
      invariant lxMin == MinX(pts[..i], run.x0) && lyMin == MinY(pts[..i], run.y0)
      invariant lxMax == MaxX(pts[..i], run.x1) && lyMax == MaxY(pts[..i], run.y1)
    {
      lxMin, lyMin := Min(lxMin, pts[i].x), Min(lyMin, pts[i].y);
      lxMax, lyMax := Max(lxMax, pts[i].x), Max(lyMax, pts[i].y);
      assert pts[..i + 1][..i] == pts[..i];
    }
    assert pts[..|pts|] == pts;
    e := Rect4(lxMin - t - 1, lyMin - t - 1, lxMax + t + 1, lyMax + t + 1);
  }

  method CheckShapes(rects: seq<RectItem>, lines: seq<LineItem>) returns (e: Option<Error>)
    ensures e == Refusal(rects + lines, Rect4(0, 0, 1, 1))
  {
    if rects == [] && lines == [] {
      return Some(NoShape);
    }
    for i := 0 to |lines|
      invariant forall j | 0 <= j < i :: !BadLine(lines[j])
    {
      if |lines[i].pts| < 2 {
        assert (rects + lines)[|rects| + i] == lines[i];
        return Some(BadPoints);
      }
    }
    e := None;
  }

  /** render_overlay_rgba. */
  method RenderOverlayRgba(fw: int, fh: int, rects: seq<RectItem>, lines: seq<LineItem>, cols: seq<Rgb>,
          thickness: int, raster: Raster)
    returns (r: Result<Canvas, Error>)
    requires |cols| == |rects| + |lines|
    ensures r == OneCanvas(fw, fh, rects + lines, cols, Max(1, thickness), raster)
    ensures r.Ok? ==> ShowsAll(r.value, rects + lines, cols, Max(1, thickness), raster)
  {
    hide Max, Min, Extent, BoxExtent, Rendered, ShowsAll;
    var t := Max(1, thickness);
    var bad := CheckShapes(rects, lines);
    if bad.Some? {
      return Err(bad.value);
    }
    var e := Start(fw, fh);
    for i := 0 to |rects|
      invariant e == CanvasExtents(rects[..i], fw, fh, t)
    {
      e := Join(e, BoxExtent(rects[i], t));
      assert rects[..i + 1][..i] == rects[..i];
    }
    assert rects + lines[..0] == rects[..|rects|];
    for i := 0 to |lines|
      invariant e == CanvasExtents(rects + lines[..i], fw, fh, t)
    {
      var l := LineExtent(lines[i].pts, e, t);
      assert (rects + lines[..i + 1])[..|rects| + i] == rects + lines[..i];
      e := Join(e, l);
    }
    assert lines[..|lines|] == lines;
    var u := Clamp(e, fw, fh);
    if u.x1 <= u.x0 || u.y1 <= u.y0 {
      return Err(OutsideFrame);
    }
    var c := RenderWindow(CanvasWindow(u), t, rects, lines, cols, false, raster);
    r := Ok(c);
    OneCanvasShows(fw, fh, rects + lines, cols, t, raster);
  }

  /** Stroke extents of every shape and their union. */
  method Extents(fw: int, fh: int, rects: seq<RectItem>, lines: seq<LineItem>, t: int)
    returns (e: Rect4, boxes: seq<Rect4>, lineBoxes: seq<Rect4>)
    ensures e == FragExtents(rects + lines, fw, fh, t)
    ensures boxes == BBoxes(rects, fw, fh, t)
    ensures lineBoxes == BBoxes(lines, fw, fh, t)
  {
    hide Extent, BoxExtent, FragExtents, BBoxes, Join, Start;
    NoExtents(fw, fh, t);
    e, boxes, lineBoxes := Start(fw, fh), [], [];
    for i := 0 to |rects|
      invariant e == FragExtents(rects[..i], fw, fh, t)
      invariant boxes == BBoxes(rects[..i], fw, fh, t)
    {
      boxes := boxes + [BoxExtent(rects[i], t)];
      e := Join(e, BoxExtent(rects[i], t));
      ExtentsAppend([], rects, i, fw, fh, t);
    }
    assert rects + lines[..0] == rects == rects[..|rects|];
    for i := 0 to |lines|
      invariant e == FragExtents(rects + lines[..i], fw, fh, t)
      invariant lineBoxes == BBoxes(lines[..i], fw, fh, t)
    {
      var bb := LineExtent(lines[i].pts, Start(fw, fh), t);
      lineBoxes := lineBoxes + [bb];
      e := Join(e, bb);
      ExtentsAppend(rects, lines, i, fw, fh, t);
    }
    assert rects[..|rects|] == rects && lines[..|lines|] == lines;
  }

  lemma NoExtents(fw: int, fh: int, t: int)
    ensures FragExtents([], fw, fh, t) == Start(fw, fh) && BBoxes([], fw, fh, t) == []
  {
  }

  // One more shape, after those done before.
  lemma ExtentsAppend(done: seq<Shape>, items: seq<Shape>, i: nat, fw: int, fh: int, t: int)
    requires i < |items|
    ensures var bb := BBox(items[i], fw, fh, t);
      && FragExtents(done + items[..i + 1], fw, fh, t) == Join(FragExtents(done + items[..i], fw, fh, t), bb)
      && BBoxes(items[..i + 1], fw, fh, t) == BBoxes(items[..i], fw, fh, t) + [bb]
      && (done == [] ==> FragExtents(items[..i + 1], fw, fh, t) == Join(FragExtents(items[..i], fw, fh, t), bb))
  {
    hide BBox, Join, Start;
    assert (done + items[..i + 1])[..|done| + i] == done + items[..i];
    assert items[..i + 1][..i] == items[..i];
  }

  lemma EdgesAppend(items: seq<Shape>, s: Shape, u: Rect4, fw: int, fh: int, t: int, raster: Raster)
    ensures AllEdges(items + [s], u, fw, fh, t, raster) == AllEdges(items, u, fw, fh, t, raster) + EdgeFrags(s, u, fw, fh, t, raster)
  {
    hide EdgeFrags;
    assert EdgeTiles(items + [s], u, fw, fh, t, raster)[..|items|] == EdgeTiles(items, u, fw, fh, t, raster);
  }

  lemma ClippedAppend(boxes: seq<Rect4>, b: Rect4, u: Rect4)
    ensures AllClipped(boxes + [b], u) == AllClipped(boxes, u) + Clipped(b, u)
  {
    hide Clipped;
    assert ClippedTiles(boxes + [b], u)[..|boxes|] == ClippedTiles(boxes, u);
  }

  /** The four strips of one box, pushed in order. */
  method PushEdges(frags: seq<Rect4>, r: RectItem, u: Rect4, fw: int, fh: int, t: int, raster: Raster)
    returns (more: seq<Rect4>)
    ensures more == frags + EdgeFrags(r, u, fw, fh, t, raster)
  {
    hide Max, Min;
    var fx0 := Max(u.x0, r.x1 - t - 1);
    var fx1 := Min(u.x1, r.x2 + t + 1);
    if r.text != "" {
      fx1 := Min(u.x1, Max(fx1, r.x1 + raster.textWidth(r.text)));
    }
    var top0, top1 := Max(u.y0, r.y1 - t - 1 - Strip(r)), Min(u.y1, r.y1 + t + 1);
    var bot0, bot1 := Max(u.y0, r.y2 - t), Min(u.y1, r.y2 + t + 1);
    var lx1, rx0 := Min(u.x1, r.x1 + t + 1), Max(u.x0, r.x2 - t);
    assert TopFrag(r, u, t, raster) == Rect4(fx0, top0, fx1, top1);
    assert BottomFrag(r, u, t, raster) == Rect4(fx0, bot0, fx1, bot1);
    assert LeftFrag(r, u, t, raster) == Rect4(fx0, top1, lx1, bot0);
    assert RightFrag(r, u, t, raster) == Rect4(rx0, top1, fx1, bot0);
    hide TopFrag, BottomFrag, LeftFrag, RightFrag;
    more := frags;
    if top1 > top0 { more := more + [Rect4(fx0, top0, fx1, top1)]; }
    if bot1 > bot0 { more := more + [Rect4(fx0, bot0, fx1, bot1)]; }
    if bot0 > top1 {
      if lx1 > fx0 { more := more + [Rect4(fx0, top1, lx1, bot0)]; }
      if fx1 > rx0 { more := more + [Rect4(rx0, top1, fx1, bot0)]; }
    }
  }

  /** The first tier: four strips a box, one extent a line. */
  method CutEdges(fw: int, fh: int, rects: seq<RectItem>, lines: seq<LineItem>, lineBoxes: seq<Rect4>, u: Rect4,
          t: int, raster: Raster)
    returns (frags: seq<Rect4>)
    requires lineBoxes == BBoxes(lines, fw, fh, t)
    ensures frags == AllEdges(rects + lines, u, fw, fh, t, raster)
  {
    hide Max, Min, BBox, ClampTo, AllEdges, TopFrag, BottomFrag, LeftFrag, RightFrag;
    frags := [];
    NoEdges(u, fw, fh, t, raster);
    for i := 0 to |rects|
      invariant frags == AllEdges(rects[..i], u, fw, fh, t, raster)
    {
      frags := PushEdges(frags, rects[i], u, fw, fh, t, raster);
      EdgesAppend(rects[..i], rects[i], u, fw, fh, t, raster);
      assert rects[..i + 1] == rects[..i] + [rects[i]];
    }
    assert rects + lines[..0] == rects[..|rects|];
    for i := 0 to |lines|
      invariant frags == AllEdges(rects + lines[..i], u, fw, fh, t, raster)
    {
      EdgesAppend(rects + lines[..i], lines[i], u, fw, fh, t, raster);
      assert rects + lines[..i + 1] == rects + lines[..i] + [lines[i]];
      var f := ClampTo(lineBoxes[i], u);
      if f.x1 > f.x0 && f.y1 > f.y0 { frags := frags + [f]; }
    }
    assert lines[..|lines|] == lines;
  }

  lemma NoEdges(u: Rect4, fw: int, fh: int, t: int, raster: Raster)
    ensures AllEdges([], u, fw, fh, t, raster) == []
  {
  }

  /** The fragment list: per edge; past 64 one extent a shape; past 64 shapes the union. */
  method CutFragments(fw: int, fh: int, rects: seq<RectItem>, lines: seq<LineItem>, boxes: seq<Rect4>,
          lineBoxes: seq<Rect4>, u: Rect4, t: int, raster: Raster)
    returns (frags: seq<Rect4>)
    requires boxes == BBoxes(rects, fw, fh, t) && lineBoxes == BBoxes(lines, fw, fh, t)
    ensures frags == Frags(rects + lines, u, fw, fh, t, raster)
  {
    hide BBox, AllEdges, AllClipped;
    frags := CutEdges(fw, fh, rects, lines, lineBoxes, u, t, raster);
    if |frags| > MAX_OVERLAY_BATCH {
      assert boxes + lineBoxes == BBoxes(rects + lines, fw, fh, t);
      frags := CutShapes(boxes, lineBoxes, u);
      if |frags| > MAX_OVERLAY_BATCH {
        frags := [u];
      }
    }
  }

  method CutShapes(boxes: seq<Rect4>, lineBoxes: seq<Rect4>, u: Rect4) returns (frags: seq<Rect4>)
    ensures frags == AllClipped(boxes + lineBoxes, u)
  {
    hide Max, Min, ClampTo;
    frags := [];
    for i := 0 to |boxes|
      invariant frags == AllClipped(boxes[..i], u)
    {
      ClippedAppend(boxes[..i], boxes[i], u);
      assert boxes[..i + 1] == boxes[..i] + [boxes[i]];
      var f := ClampTo(boxes[i], u);
      if f.x1 > f.x0 && f.y1 > f.y0 { frags := frags + [f]; }
    }
    assert boxes + lineBoxes[..0] == boxes[..|boxes|];
    for i := 0 to |lineBoxes|
      invariant frags == AllClipped(boxes + lineBoxes[..i], u)
    {
      ClippedAppend(boxes + lineBoxes[..i], lineBoxes[i], u);
      assert boxes + lineBoxes[..i + 1] == boxes + lineBoxes[..i] + [lineBoxes[i]];
      var f := ClampTo(lineBoxes[i], u);
      if f.x1 > f.x0 && f.y1 > f.y0 { frags := frags + [f]; }
    }
    assert lineBoxes[..|lineBoxes|] == lineBoxes;
  }

  /** The window of one fragment: floored, raised for captions, made even, slid back. */
  method PlaceWindow(frag: Rect4, rects: seq<RectItem>, lines: seq<LineItem>, fw: int, fh: int) returns (win: Rect4)
    ensures win == Window(frag, rects + lines, fw, fh)
  {
    hide Max, Min, TextRow;
    var cw := Max(MIN_DIM, frag.x1 - frag.x0);
    var ch := Max(MIN_DIM, frag.y1 - frag.y0);
    ghost var floor := ch;
    for i := 0 to |rects|
      invariant ch == CaptionedHeight(rects[..i], frag.y0, floor)
    {
      assert rects[..i + 1][..i] == rects[..i];
      if rects[i].text != "" {
        var row := TextRow(rects[i].y1, frag.y0, ch, true);
        if row.Some? {
          ch := Max(ch, row.value + TEXT_BELOW);
        }
      }
    }
    assert rects[..|rects|] == rects;
    LinesCarryNoCaption(rects, lines, frag.y0, floor);
    ch := ch + ch % 2;
    var fx, fy := Max(0, Min(frag.x0, fw - cw)), Max(0, Min(frag.y0, fh - ch));
    win := Rect4(fx, fy, fx + cw, fy + ch);
  }

  lemma {:induction false} LinesCarryNoCaption(rects: seq<RectItem>, lines: seq<LineItem>, y0: int, ch: int)
    ensures CaptionedHeight(rects + lines, y0, ch) == CaptionedHeight(rects, y0, ch)
  {
    if lines == [] {
      assert rects + lines == rects;
    } else {
      var k := |lines| - 1;
      LinesCarryNoCaption(rects, lines[..k], y0, ch);
      assert (rects + lines)[..|rects| + k] == rects + lines[..k];
      assert !Captioned((rects + lines)[|rects| + k]);
    }
  }

  /** The shapes meeting a window, with their colours: boxes first, then lines. */
  method SelectShapes(rects: seq<RectItem>, lines: seq<LineItem>, cols: seq<Rgb>, boxes: seq<Rect4>,
          lineBoxes: seq<Rect4>, win: Rect4, ghost fw: int, ghost fh: int, ghost t: int)
    returns (selRects: seq<RectItem>, selLines: seq<LineItem>, selCols: seq<Rgb>)
    requires |cols| == |rects| + |lines| && boxes == BBoxes(rects, fw, fh, t) && lineBoxes == BBoxes(lines, fw, fh, t)
    ensures var keep := Meets(rects + lines, win, fw, fh, t);
            selRects + selLines == Pick(rects + lines, keep) && selCols == Pick(cols, keep)
  {
    hide BBox, Overlaps, Pick, Meets;
    ghost var items := rects + lines;
    ghost var keep := Meets(items, win, fw, fh, t);
    selRects, selLines, selCols := [], [], [];
    PickNone(items[..0], keep[..0]);
    PickNone(cols[..0], keep[..0]);
    for i := 0 to |rects|
      invariant selRects == Pick(items[..i], keep[..i])
      invariant selCols == Pick(cols[..i], keep[..i])
    {
      PickStep(items, keep, i);
      PickStep(cols, keep, i);
      assert items[i] == rects[i];
      if Overlaps(boxes[i], win) {
        selRects, selCols := selRects + [rects[i]], selCols + [cols[i]];
      }
    }
    for i := 0 to |lines|
      invariant selRects + selLines == Pick(items[..|rects| + i], keep[..|rects| + i])
      invariant selCols == Pick(cols[..|rects| + i], keep[..|rects| + i])
    {
      PickStep(items, keep, |rects| + i);
      PickStep(cols, keep, |rects| + i);
      assert items[|rects| + i] == lines[i];
      if Overlaps(lineBoxes[i], win) {
        assert selRects + (selLines + [lines[i]]) == (selRects + selLines) + [lines[i]];
        selLines, selCols := selLines + [lines[i]], selCols + [cols[|rects| + i]];
      }
    }
    assert items[..|items|] == items && cols[..|cols|] == cols && keep[..|keep|] == keep;
  }

  lemma PickStep<T>(s: seq<T>, keep: seq<bool>, i: nat)
    requires i < |s| == |keep|
    ensures Pick(s[..i + 1], keep[..i + 1]) == Pick(s[..i], keep[..i]) + if keep[i] then [s[i]] else []
  {
    PickAppend(s[..i], keep[..i], s[i], keep[i]);
    assert s[..i + 1] == s[..i] + [s[i]] && keep[..i + 1] == keep[..i] + [keep[i]];
  }

  /** render_overlay_fragments. */
  method RenderOverlayFragments(fw: int, fh: int, rects: seq<RectItem>, lines: seq<LineItem>, cols: seq<Rgb>,
          thickness: int, raster: Raster)
    returns (r: Result<seq<Canvas>, Error>)
    requires |cols| == |rects| + |lines|
    ensures r == Fragments(fw, fh, rects + lines, cols, Max(1, thickness), raster)
    ensures r.Ok? ==> forall c | c in r.value :: ShowsSeen(c, rects + lines, cols, fw, fh, Max(1, thickness), raster)
  {
    hide Tile, Frags, Max, Min, Extent, BoxExtent, ShowsSeen;
    var t := Max(1, thickness);
    ghost var items := rects + lines;
    var bad := CheckShapes(rects, lines);
    if bad.Some? {
      return Err(bad.value);
    }
    var e, boxes, lineBoxes := Extents(fw, fh, rects, lines, t);
    var u := Clamp(e, fw, fh);
    if u.x1 <= u.x0 || u.y1 <= u.y0 {
      return Err(OutsideFrame);
    }
    var frags := CutFragments(fw, fh, rects, lines, boxes, lineBoxes, u, t, raster);
    var out: seq<Canvas> := [];
    for i := 0 to |frags|
      invariant out == Flat(Tiles(frags[..i], items, cols, fw, fh, t, raster))
    {
      var tile := RenderTile(frags[i], rects, lines, cols, boxes, lineBoxes, fw, fh, t, raster);
      out := out + tile;
      assert Tiles(frags[..i + 1], items, cols, fw, fh, t, raster)[..i] == Tiles(frags[..i], items, cols, fw, fh, t, raster);
    }
    assert frags[..|frags|] == frags;
    r := Ok(out);
    forall c | c in out ensures ShowsSeen(c, items, cols, fw, fh, t, raster) {
      FragmentsShow(fw, fh, items, cols, t, raster, c);
    }
  }

  /** One turn of the fragment loop: nothing when no shape meets the window, else its canvas. */
  method RenderTile(frag: Rect4, rects: seq<RectItem>, lines: seq<LineItem>, cols: seq<Rgb>, boxes: seq<Rect4>,
          lineBoxes: seq<Rect4>, fw: int, fh: int, t: int, raster: Raster)
    returns (tile: seq<Canvas>)
    requires |cols| == |rects| + |lines| && boxes == BBoxes(rects, fw, fh, t) && lineBoxes == BBoxes(lines, fw, fh, t)
    ensures tile == Tile(frag, rects + lines, cols, fw, fh, t, raster)
  {
    hide Window, PaintedAt, BBox;
    ghost var items := rects + lines;
    var win := PlaceWindow(frag, rects, lines, fw, fh);
    var selRects, selLines, selCols := SelectShapes(rects, lines, cols, boxes, lineBoxes, win, fw, fh, t);
    ghost var keep := Meets(items, win, fw, fh, t);
    PickSameLength(items, cols, keep);
    PickEmpty(items, keep);
    if selRects == [] && selLines == [] {
      return [];
    }
    var c := RenderWindow(win, t, selRects, selLines, selCols, true, raster);
    tile := [c];
  }

  lemma {:induction false} PickEmpty<T>(s: seq<T>, keep: seq<bool>)
    requires |s| == |keep|
    ensures Pick(s, keep) == [] <==> true !in keep
  {
    if s != [] {
      PickEmpty(s[..|s| - 1], keep[..|s| - 1]);
      assert keep == keep[..|s| - 1] + [keep[|s| - 1]];
    }
  }
}
