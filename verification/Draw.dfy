/** Overlay rasterisation (cpp/src/draw.cpp): the shapes, the canvas geometry and the two
    renderings of one annotation, as functions. The rasteriser itself is a parameter. */
module Draw {
  import opened Wrappers
  import opened Pixels

  // Half-open [x0, x1) x [y0, y1).
  datatype Rect4 = Rect4(x0: int, y0: int, x1: int, y1: int)
  datatype Point = Point(x: int, y: int)

  datatype Shape =
    | BoxShape(x1: int, y1: int, x2: int, y2: int, text: string)
    | LineShape(pts: seq<Point>, closed: bool)
  type RectItem = s: Shape | s.BoxShape? witness BoxShape(0, 0, 0, 0, "")
  type LineItem = s: Shape | s.LineShape? witness LineShape([], false)

  datatype Error = NoShape | BadPoints | OutsideFrame

  const TEXT_OFFSET := 6
  const TEXT_FLOOR := 12
  const TEXT_BELOW := 6
  const LABEL_STRIP := 20
  const MAX_OVERLAY_BATCH: nat := 64

  // What OpenCV draws. stroke is the coverage an outline of thickness t leaves on a frame
  // pixel; ink is the mask value a caption leaves dx, dy away from its anchor on top of the
  // value already there; textWidth is the painted width of a caption.
  datatype Raster = Raster(
    stroke: (Shape, int, int, int) -> Byte,
    ink: (string, int, int, Byte) -> Byte,
    textWidth: string -> int)

  predicate Captioned(s: Shape) { s.BoxShape? && s.text != "" }

  predicate Within(p: Point, r: Rect4) { r.x0 <= p.x < r.x1 && r.y0 <= p.y < r.y1 }
  predicate InFrame(fw: int, fh: int, p: Point) { 0 <= p.x < fw && 0 <= p.y < fh }

  predicate Overlaps(a: Rect4, b: Rect4) {
    a.x0 < b.x1 && b.x0 < a.x1 && a.y0 < b.y1 && b.y0 < a.y1
  }

  // ---- sequences ----

  // The elements a flag keeps, in order.
  function Pick<T>(s: seq<T>, keep: seq<bool>): (r: seq<T>)
    requires |s| == |keep|
    ensures |r| <= |s|
  {
    if s == [] then [] else Pick(s[..|s| - 1], keep[..|s| - 1]) + if keep[|s| - 1] then [s[|s| - 1]] else []
  }

  lemma PickAppend<T>(s: seq<T>, keep: seq<bool>, x: T, b: bool)
    requires |s| == |keep|
    ensures Pick(s + [x], keep + [b]) == Pick(s, keep) + if b then [x] else []
  {
    assert (s + [x])[..|s|] == s && (keep + [b])[..|s|] == keep;
  }

  lemma {:induction false} PickNone<T>(s: seq<T>, keep: seq<bool>)
    requires |s| == |keep| && true !in keep
    ensures Pick(s, keep) == []
  {
    if s != [] {
      PickNone(s[..|s| - 1], keep[..|s| - 1]);
    }
  }

  lemma {:induction false} PickSameLength<S, T>(s: seq<S>, u: seq<T>, keep: seq<bool>)
    requires |s| == |u| == |keep|
    ensures |Pick(s, keep)| == |Pick(u, keep)|
  {
    if s != [] {
      PickSameLength(s[..|s| - 1], u[..|s| - 1], keep[..|s| - 1]);
    }
  }

  function Mapped<S, T>(s: seq<S>, f: S -> T): (r: seq<T>)
    ensures |r| == |s| && forall i | 0 <= i < |s| :: r[i] == f(s[i])
  {
    seq(|s|, i requires 0 <= i < |s| => f(s[i]))
  }

  lemma {:induction false} PickMapped<S, T>(s: seq<S>, f: S -> T, keep: seq<bool>)
    requires |s| == |keep|
    ensures Pick(Mapped(s, f), keep) == Mapped(Pick(s, keep), f)
  {
    if s != [] {
      var k := |s| - 1;
      PickMapped(s[..k], f, keep[..k]);
      assert Mapped(s, f)[..k] == Mapped(s[..k], f);
    }
  }

  function Flat<T>(tiles: seq<seq<T>>): (out: seq<T>)
    ensures (forall i | 0 <= i < |tiles| :: |tiles[i]| <= 1) ==> |out| <= |tiles|
  {
    if tiles == [] then [] else Flat(tiles[..|tiles| - 1]) + tiles[|tiles| - 1]
  }

  lemma {:induction false} FlatMembers<T>(tiles: seq<seq<T>>, c: T)
    ensures c in Flat(tiles) <==> exists tile | tile in tiles :: c in tile
  {
    if tiles != [] {
      FlatMembers(tiles[..|tiles| - 1], c);
      assert tiles == tiles[..|tiles| - 1] + [tiles[|tiles| - 1]];
    }
  }

  // ---- stroke extents ----

  function MinX(pts: seq<Point>, start: int): (m: int)
    ensures m <= start && forall i | 0 <= i < |pts| :: m <= pts[i].x
  { if pts == [] then start else Min(MinX(pts[..|pts| - 1], start), pts[|pts| - 1].x) }

  function MinY(pts: seq<Point>, start: int): (m: int)
    ensures m <= start && forall i | 0 <= i < |pts| :: m <= pts[i].y
  { if pts == [] then start else Min(MinY(pts[..|pts| - 1], start), pts[|pts| - 1].y) }

  function MaxX(pts: seq<Point>, start: int): (m: int)
    ensures m >= start && forall i | 0 <= i < |pts| :: m >= pts[i].x
  { if pts == [] then start else Max(MaxX(pts[..|pts| - 1], start), pts[|pts| - 1].x) }

  function MaxY(pts: seq<Point>, start: int): (m: int)
    ensures m >= start && forall i | 0 <= i < |pts| :: m >= pts[i].y
  { if pts == [] then start else Max(MaxY(pts[..|pts| - 1], start), pts[|pts| - 1].y) }

  function Strip(s: RectItem): int { if s.text == "" then 0 else LABEL_STRIP }

  // The extents of a polyline, grown by the running values in lo and hi.
  function Extent(pts: seq<Point>, run: Rect4, t: int): Rect4 {
    Rect4(MinX(pts, run.x0) - t - 1, MinY(pts, run.y0) - t - 1,
          MaxX(pts, run.x1) + t + 1, MaxY(pts, run.y1) + t + 1)
  }

  function BoxExtent(s: RectItem, t: int): Rect4 {
    Rect4(s.x1 - t - 1, s.y1 - t - 1 - Strip(s), s.x2 + t + 1, s.y2 + t + 1)
  }

  function Start(fw: int, fh: int): Rect4 { Rect4(fw, fh, 0, 0) }

  // The fragment renderer's extents: every line starts from the frame, not from the shapes before it.
  function BBox(s: Shape, fw: int, fh: int, t: int): Rect4 {
    if s.BoxShape? then BoxExtent(s, t) else Extent(s.pts, Start(fw, fh), t)
  }

  function Join(a: Rect4, b: Rect4): Rect4 {
    Rect4(Min(a.x0, b.x0), Min(a.y0, b.y0), Max(a.x1, b.x1), Max(a.y1, b.y1))
  }

  function Clamp(r: Rect4, fw: int, fh: int): (c: Rect4)
    ensures 0 <= c.x0 && 0 <= c.y0
  {
    Rect4(Max(0, r.x0), Max(0, r.y0), Min(fw, r.x1), Min(fh, r.y1))
  }

  predicate Empty(r: Rect4) { r.x1 <= r.x0 || r.y1 <= r.y0 }

  // Running extents of the fragment renderer.
  function FragExtents(items: seq<Shape>, fw: int, fh: int, t: int): Rect4 {
    if items == [] then Start(fw, fh)
    else Join(FragExtents(items[..|items| - 1], fw, fh, t), BBox(items[|items| - 1], fw, fh, t))
  }

  // Running extents of the one-canvas renderer: a line grows the extents reached so far.
  function CanvasExtents(items: seq<Shape>, fw: int, fh: int, t: int): Rect4 {
    if items == [] then Start(fw, fh)
    else
      var run := CanvasExtents(items[..|items| - 1], fw, fh, t);
      var s := items[|items| - 1];
      Join(run, if s.BoxShape? then BoxExtent(s, t) else Extent(s.pts, run, t))
  }

  // ---- masks and colours ----

  // The canvas row of a caption, if it has one on this canvas.
  function TextRow(y1: int, y0: int, ch: int, fragment: bool): Option<int> {
    var row := y1 - TEXT_OFFSET - y0;
    if !fragment then Some(Min(Max(row, TEXT_FLOOR), ch - 2))
    else
      var floored := if y0 == 0 then Max(row, TEXT_FLOOR) else row;
      if 0 <= floored < ch then Some(floored) else None
  }

  // One mask value: the stroke, then the caption where this canvas carries one.
  function MaskAt(s: Shape, win: Rect4, t: int, fragment: bool, raster: Raster, p: Point): Byte {
    var m := raster.stroke(s, t, p.x, p.y);
    if !Captioned(s) then m
    else
      var row := TextRow(s.y1, win.y0, win.y1 - win.y0, fragment);
      if row.None? then m else raster.ink(s.text, p.x - s.x1, p.y - win.y0 - row.value, m)
  }

  // One coat: covered pixels take the new colour and keep the larger coverage.
  function Coat(under: Rgba, cov: Byte, col: Rgb): Rgba {
    if cov > 0 then Rgba(col.r, col.g, col.b, Max(under.a, cov)) else under
  }

  // The painter's fold over coverage values: the last colour wins, alpha is the union.
  function Paint(covs: seq<Byte>, cols: seq<Rgb>): Rgba
    requires |covs| <= |cols|
  {
    if covs == [] then CLEAR
    else Coat(Paint(covs[..|covs| - 1], cols), covs[|covs| - 1], cols[|covs| - 1])
  }

  // Which shapes' extents meet the window.
  function Meets(items: seq<Shape>, win: Rect4, fw: int, fh: int, t: int): (keep: seq<bool>)
    ensures |keep| == |items|
    ensures forall i | 0 <= i < |items| :: keep[i] == Overlaps(BBox(items[i], fw, fh, t), win)
  {
    seq(|items|, i requires 0 <= i < |items| => Overlaps(BBox(items[i], fw, fh, t), win))
  }

  function Covs(items: seq<Shape>, win: Rect4, t: int, fragment: bool, raster: Raster, p: Point): (c: seq<Byte>)
    ensures |c| == |items| && forall k | 0 <= k < |c| :: c[k] == MaskAt(items[k], win, t, fragment, raster, p)
  {
    Mapped(items, s => MaskAt(s, win, t, fragment, raster, p))
  }

  function PaintedAt(items: seq<Shape>, cols: seq<Rgb>, win: Rect4, t: int, fragment: bool, raster: Raster,
          p: Point): Rgba
    requires |items| <= |cols|
  {
    Paint(Covs(items, win, t, fragment, raster, p), cols)
  }

  function Rendered(items: seq<Shape>, cols: seq<Rgb>, win: Rect4, t: int, fragment: bool, raster: Raster): (c: Canvas)
    requires |items| <= |cols| && win.x0 <= win.x1 && win.y0 <= win.y1
    ensures c.x == win.x0 && c.y == win.y0
    ensures c.image.cols == win.x1 - win.x0 && c.image.rows == win.y1 - win.y0
    ensures forall x, y | Lands(c, x, y) :: At(c, x, y) == PaintedAt(items, cols, win, t, fragment, raster, Point(x, y))
  {
    Canvas(Grid(win.y1 - win.y0, win.x1 - win.x0,
                (r, c) => PaintedAt(items, cols, win, t, fragment, raster, Point(win.x0 + c, win.y0 + r))),
           win.x0, win.y0)
  }

  // ---- the one-canvas rendering ----

  predicate BadLine(s: Shape) { s.LineShape? && |s.pts| < 2 }

  function Refusal(items: seq<Shape>, union: Rect4): Option<Error> {
    if items == [] then Some(NoShape)
    else if exists i | 0 <= i < |items| :: BadLine(items[i]) then Some(BadPoints)
    else if Empty(union) then Some(OutsideFrame)
    else None
  }

  function CanvasWindow(u: Rect4): (w: Rect4)
    ensures u.x0 == w.x0 <= w.x1 && u.y0 == w.y0 <= w.y1
    ensures w.x1 == (if u.x1 - u.x0 < 16 then u.x0 + 16 else u.x1) && w.y1 == if u.y1 - u.y0 < 16 then u.y0 + 16 else u.y1
  {
    Rect4(u.x0, u.y0, u.x0 + Max(MIN_DIM, u.x1 - u.x0), u.y0 + Max(MIN_DIM, u.y1 - u.y0))
  }

  function OneCanvas(fw: int, fh: int, items: seq<Shape>, cols: seq<Rgb>, t: int, raster: Raster): Result<Canvas, Error>
    requires |items| == |cols|
  {
    var u := Clamp(CanvasExtents(items, fw, fh, t), fw, fh);
    var refused := Refusal(items, u);
    if refused.Some? then Err(refused.value)
    else Ok(Rendered(items, cols, CanvasWindow(u), t, false, raster))
  }

  // ---- the fragment rendering ----

  function Keep(r: Rect4, ok: bool): seq<Rect4> { if ok then [r] else [] }

  // The four strips around a box. A captioned box's horizontal strips reach its caption's width.
  function StripX(s: RectItem, u: Rect4, t: int, raster: Raster): (int, int) {
    var tight := Min(u.x1, s.x2 + t + 1);
    (Max(u.x0, s.x1 - t - 1),
     if s.text != "" then Min(u.x1, Max(tight, s.x1 + raster.textWidth(s.text))) else tight)
  }

  function TopFrag(s: RectItem, u: Rect4, t: int, raster: Raster): Rect4 {
    var (fx0, fx1) := StripX(s, u, t, raster);
    Rect4(fx0, Max(u.y0, s.y1 - t - 1 - Strip(s)), fx1, Min(u.y1, s.y1 + t + 1))
  }

  function BottomFrag(s: RectItem, u: Rect4, t: int, raster: Raster): Rect4 {
    var (fx0, fx1) := StripX(s, u, t, raster);
    Rect4(fx0, Max(u.y0, s.y2 - t), fx1, Min(u.y1, s.y2 + t + 1))
  }

  function LeftFrag(s: RectItem, u: Rect4, t: int, raster: Raster): Rect4 {
    Rect4(StripX(s, u, t, raster).0, TopFrag(s, u, t, raster).y1,
          Min(u.x1, s.x1 + t + 1), BottomFrag(s, u, t, raster).y0)
  }

  function RightFrag(s: RectItem, u: Rect4, t: int, raster: Raster): Rect4 {
    Rect4(Max(u.x0, s.x2 - t), TopFrag(s, u, t, raster).y1,
          StripX(s, u, t, raster).1, BottomFrag(s, u, t, raster).y0)
  }

  // What the first tier keeps of a shape: the strips with any height (and, at the sides, any
  // width) of a box; the extent of a line.
  function EdgeFrags(s: Shape, u: Rect4, fw: int, fh: int, t: int, raster: Raster): (f: seq<Rect4>)
    ensures |f| <= 4
  {
    if s.LineShape? then ShapeFrag(s, u, fw, fh, t)
    else
      var top, bottom := TopFrag(s, u, t, raster), BottomFrag(s, u, t, raster);
      var left, right := LeftFrag(s, u, t, raster), RightFrag(s, u, t, raster);
      Keep(top, top.y1 > top.y0) + Keep(bottom, bottom.y1 > bottom.y0) +
      Keep(left, !Empty(left)) + Keep(right, !Empty(right))
  }

  function ClampTo(r: Rect4, u: Rect4): Rect4 {
    Rect4(Max(u.x0, r.x0), Max(u.y0, r.y0), Min(u.x1, r.x1), Min(u.y1, r.y1))
  }

  // What of an extent lies in the union, if anything.
  function Clipped(b: Rect4, u: Rect4): (f: seq<Rect4>)
    ensures |f| <= 1
  {
    Keep(ClampTo(b, u), !Empty(ClampTo(b, u)))
  }

  function ShapeFrag(s: Shape, u: Rect4, fw: int, fh: int, t: int): (f: seq<Rect4>)
    ensures |f| <= 1
  {
    Clipped(BBox(s, fw, fh, t), u)
  }

  function EdgeTiles(items: seq<Shape>, u: Rect4, fw: int, fh: int, t: int, raster: Raster): (tiles: seq<seq<Rect4>>)
    ensures |tiles| == |items| && forall i | 0 <= i < |items| :: tiles[i] == EdgeFrags(items[i], u, fw, fh, t, raster)
  {
    seq(|items|, i requires 0 <= i < |items| => EdgeFrags(items[i], u, fw, fh, t, raster))
  }

  function BBoxes(items: seq<Shape>, fw: int, fh: int, t: int): (boxes: seq<Rect4>)
    ensures |boxes| == |items| && forall i | 0 <= i < |items| :: boxes[i] == BBox(items[i], fw, fh, t)
  {
    seq(|items|, i requires 0 <= i < |items| => BBox(items[i], fw, fh, t))
  }

  function ClippedTiles(boxes: seq<Rect4>, u: Rect4): (tiles: seq<seq<Rect4>>)
    ensures |tiles| == |boxes| && forall i | 0 <= i < |boxes| :: tiles[i] == Clipped(boxes[i], u)
  {
    seq(|boxes|, i requires 0 <= i < |boxes| => Clipped(boxes[i], u))
  }

  function AllEdges(items: seq<Shape>, u: Rect4, fw: int, fh: int, t: int, raster: Raster): seq<Rect4> {
    Flat(EdgeTiles(items, u, fw, fh, t, raster))
  }

  function AllClipped(boxes: seq<Rect4>, u: Rect4): seq<Rect4> { Flat(ClippedTiles(boxes, u)) }

  function AllShapes(items: seq<Shape>, u: Rect4, fw: int, fh: int, t: int): seq<Rect4> {
    AllClipped(BBoxes(items, fw, fh, t), u)
  }

  // The three tiers: per edge, per shape, one shared window.
  function Frags(items: seq<Shape>, u: Rect4, fw: int, fh: int, t: int, raster: Raster): (f: seq<Rect4>)
    ensures |f| <= MAX_OVERLAY_BATCH
  {
    var edges := AllEdges(items, u, fw, fh, t, raster);
    if |edges| <= MAX_OVERLAY_BATCH then edges
    else
      var shapes := AllShapes(items, u, fw, fh, t);
      if |shapes| <= MAX_OVERLAY_BATCH then shapes else [u]
  }

  // Captions landing in a fragment can make it taller.
  function CaptionedHeight(items: seq<Shape>, y0: int, ch: int): (h: int)
    ensures h >= ch
    ensures (forall i | 0 <= i < |items| :: !Captioned(items[i])) ==> h == ch
  {
    if items == [] then ch
    else
      var h := CaptionedHeight(items[..|items| - 1], y0, ch);
      var s := items[|items| - 1];
      if !Captioned(s) then h
      else
        var row := TextRow(s.y1, y0, h, true);
        if row.None? then h else Max(h, row.value + TEXT_BELOW)
  }

  function Even(h: int): (e: int)
    ensures e % 2 == 0 && h <= e <= h + 1
  { h + h % 2 }

  // Floored at 16x16, rounded to an even height, slid back into the frame.
  function Window(frag: Rect4, items: seq<Shape>, fw: int, fh: int): (w: Rect4)
    ensures 0 <= w.x0 && 0 <= w.y0 && w.x1 - w.x0 == Max(MIN_DIM, frag.x1 - frag.x0)
    ensures w.y1 - w.y0 == Even(CaptionedHeight(items, frag.y0, Max(MIN_DIM, frag.y1 - frag.y0)))
  {
    var cw := Max(MIN_DIM, frag.x1 - frag.x0);
    var ch := Even(CaptionedHeight(items, frag.y0, Max(MIN_DIM, frag.y1 - frag.y0)));
    var fx, fy := Max(0, Min(frag.x0, fw - cw)), Max(0, Min(frag.y0, fh - ch));
    Rect4(fx, fy, fx + cw, fy + ch)
  }

  // The canvas of one fragment, when some shape meets its window.
  function Tile(frag: Rect4, items: seq<Shape>, cols: seq<Rgb>, fw: int, fh: int, t: int,
          raster: Raster): (out: seq<Canvas>)
    requires |items| == |cols|
    ensures var win := Window(frag, items, fw, fh);
            && |out| == (if true in Meets(items, win, fw, fh, t) then 1 else 0)
            && forall c | c in out :: c.x == win.x0 && c.y == win.y0 && c.image.cols == win.x1 - win.x0 && c.image.rows == win.y1 - win.y0
  {
    var win := Window(frag, items, fw, fh);
    var keep := Meets(items, win, fw, fh, t);
    PickSameLength(items, cols, keep);
    if true !in keep then [] else [Rendered(Pick(items, keep), Pick(cols, keep), win, t, true, raster)]
  }

  function Tiles(frags: seq<Rect4>, items: seq<Shape>, cols: seq<Rgb>, fw: int, fh: int, t: int,
          raster: Raster): (tiles: seq<seq<Canvas>>)
    requires |items| == |cols|
    ensures |tiles| == |frags| && forall i | 0 <= i < |frags| :: tiles[i] == Tile(frags[i], items, cols, fw, fh, t, raster)
    ensures forall i | 0 <= i < |frags| :: |tiles[i]| <= 1
  {
    seq(|frags|, i requires 0 <= i < |frags| => Tile(frags[i], items, cols, fw, fh, t, raster))
  }

  function Fragments(fw: int, fh: int, items: seq<Shape>, cols: seq<Rgb>, t: int, raster: Raster): Result<seq<Canvas>, Error>
    requires |items| == |cols|
  {
    var u := Clamp(FragExtents(items, fw, fh, t), fw, fh);
    var refused := Refusal(items, u);
    if refused.Some? then Err(refused.value)
    else Ok(Flat(Tiles(Frags(items, u, fw, fh, t, raster), items, cols, fw, fh, t, raster)))
  }
}
