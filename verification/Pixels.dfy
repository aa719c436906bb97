/** Pixels, images and the straight-alpha compositor (cpp/src/dsp_format.cpp, cpu_blend). */
module Pixels {
  import opened Wrappers

  datatype Rgb = Rgb(r: Byte, g: Byte, b: Byte)
  datatype Rgba = Rgba(r: Byte, g: Byte, b: Byte, a: Byte)

  const CLEAR := Rgba(0, 0, 0, 0)

  // A row-major pixel matrix, frozen as a value.
  datatype RawImage<T> = Image(rows: nat, cols: nat, px: seq<seq<T>>) {
    ghost predicate Valid() {
      |px| == rows && forall r | 0 <= r < rows :: |px[r]| == cols
    }
  }

  function Row<T>(cols: nat, f: int -> T): (row: seq<T>)
    ensures |row| == cols && forall c | 0 <= c < cols :: row[c] == f(c)
  {
    seq(cols, c => f(c))
  }

  function Grid<T>(rows: nat, cols: nat, f: (int, int) -> T): (image: RawImage<T>)
    ensures image.Valid() && image.rows == rows && image.cols == cols
    ensures forall r, c | 0 <= r < rows && 0 <= c < cols :: image.px[r][c] == f(r, c)
  {
    var px := seq(rows, r => Row(cols, c => f(r, c)));
    assert forall r | 0 <= r < rows :: |px[r]| == cols;
    Image(rows, cols, px)
  }

  // A rendered overlay and the frame position of its top-left pixel.
  datatype RawCanvas = Canvas(image: RawImage<Rgba>, x: int, y: int)
  type Canvas = c: RawCanvas | c.image.Valid() witness Canvas(Image(0, 0, []), 0, 0)

  // The pixel of overlay c at frame position (x, y), when the blend reaches it.
  predicate Lands(c: Canvas, x: int, y: int) {
    0 <= c.x <= x < c.x + c.image.cols && 0 <= c.y <= y < c.y + c.image.rows
  }

  function At(c: Canvas, x: int, y: int): Rgba
    requires Lands(c, x, y)
  {
    c.image.px[y - c.y][x - c.x]
  }

  // m is the exact blend of s over bg at alpha a out of 255, rounded down.
  predicate Blended(a: Byte, s: Byte, bg: Byte, m: Byte) { 255 * m <= a * s + (255 - a) * bg < 255 * m + 255 }

  /** One channel of the integer alpha formula: less than one below the exact blend and never above;
      transparent keeps the background, opaque replaces it, and every other alpha stays between. */
  function Mix(a: Byte, s: Byte, bg: Byte): (m: Byte)
    ensures Blended(a, s, bg, m)
    ensures a == 0 ==> m == bg
    ensures a == 255 ==> m == s
    ensures (s <= m <= bg) || (bg <= m <= s)
  {
    MixBetween(a, s, bg);
    (a * s + (255 - a) * bg) / 255
  }

  lemma MixBetween(a: Byte, s: Byte, bg: Byte)
    ensures s <= bg ==> s <= (a * s + (255 - a) * bg) / 255 <= bg
    ensures bg <= s ==> bg <= (a * s + (255 - a) * bg) / 255 <= s
  {
    var d := s - bg;
    var e := a * d;
    assert a * s + (255 - a) * bg == 255 * bg + e;
    if 0 <= d { Scaled(a, d); } else { Scaled(a, -d); assert a * -d == -e; }
  }

  lemma Scaled(a: Byte, d: nat)
    ensures 0 <= a * d <= 255 * d
  {
  }

  function Over(src: Rgba, bg: Rgb): Rgb {
    Rgb(Mix(src.a, src.r, bg.r), Mix(src.a, src.g, bg.g), Mix(src.a, src.b, bg.b))
  }

  function Stamp(c: Canvas, bg: Rgb, x: int, y: int): Rgb {
    if Lands(c, x, y) then Over(At(c, x, y), bg) else bg
  }

  /** What one frame pixel holds once every overlay was blended, in list order. */
  function PixelAfter(bg: Rgb, overlays: seq<Canvas>, x: int, y: int): Rgb {
    if overlays == [] then bg
    else Stamp(overlays[|overlays| - 1], PixelAfter(bg, overlays[..|overlays| - 1], x, y), x, y)
  }

  lemma PixelAfterAppend(bg: Rgb, overlays: seq<Canvas>, c: Canvas, x: int, y: int)
    ensures PixelAfter(bg, overlays + [c], x, y) == Stamp(c, PixelAfter(bg, overlays, x, y), x, y)
  {
    assert (overlays + [c])[..|overlays|] == overlays;
  }

  lemma {:induction false} PixelAfterConcat(bg: Rgb, first: seq<Canvas>, second: seq<Canvas>, x: int, y: int)
    ensures PixelAfter(bg, first + second, x, y) == PixelAfter(PixelAfter(bg, first, x, y), second, x, y)
  {
    if second == [] {
      assert first + second == first;
    } else {
      var n := |second| - 1;
      assert first + second == (first + second[..n]) + [second[n]];
      PixelAfterAppend(bg, first + second[..n], second[n], x, y);
      PixelAfterConcat(bg, first, second[..n], x, y);
    }
  }

  // A frame pixel before and after one overlay: each channel of the overlay's pixel at that place is
  // blended over the same channel; a pixel the overlay does not reach is left alone.
  predicate BlendedOnce(c: Canvas, x: int, y: int, before: Rgb, after: Rgb) {
    if 0 <= c.x <= x < c.x + c.image.cols && 0 <= c.y <= y < c.y + c.image.rows then
      var px := c.image.px[y - c.y][x - c.x];
      Blended(px.a, px.r, before.r, after.r) && Blended(px.a, px.g, before.g, after.g) && Blended(px.a, px.b, before.b, after.b)
    else after == before
  }

  /** What a list of overlays leaves, from its first to its last: each blends what the ones before it
      left. */
  lemma PixelExactly(bg: Rgb, overlays: seq<Canvas>, x: int, y: int)
    ensures PixelAfter(bg, [], x, y) == bg
    ensures forall k | 0 <= k < |overlays| ::
      BlendedOnce(overlays[k], x, y, PixelAfter(bg, overlays[..k], x, y), PixelAfter(bg, overlays[..k + 1], x, y))
  {
    forall k | 0 <= k < |overlays|
      ensures BlendedOnce(overlays[k], x, y, PixelAfter(bg, overlays[..k], x, y), PixelAfter(bg, overlays[..k + 1], x, y))
    {
      assert overlays[..k + 1] == overlays[..k] + [overlays[k]];
      PixelAfterAppend(bg, overlays[..k], overlays[k], x, y);
      StampBlends(overlays[k], PixelAfter(bg, overlays[..k], x, y), x, y);
    }
  }

  lemma StampBlends(c: Canvas, bg: Rgb, x: int, y: int)
    ensures BlendedOnce(c, x, y, bg, Stamp(c, bg, x, y))
  {
    hide Blended, Mix;
  }

  // The rectangle of frame pixels an overlay can touch is disjoint from the other's.
  predicate Apart(c: Canvas, d: Canvas) {
    c.x + c.image.cols <= d.x || d.x + d.image.cols <= c.x ||
    c.y + c.image.rows <= d.y || d.y + d.image.rows <= c.y
  }

  /** Overlays over disjoint rectangles commute, wherever they stand in the list. */
  lemma DisjointOverlaysCommute(bg: Rgb, before: seq<Canvas>, c: Canvas, d: Canvas, after: seq<Canvas>, x: int, y: int)
    requires Apart(c, d)
    ensures PixelAfter(bg, before + [c, d] + after, x, y) == PixelAfter(bg, before + [d, c] + after, x, y)
  {
    forall e: Canvas, f: Canvas
      ensures PixelAfter(bg, before + [e, f] + after, x, y)
           == PixelAfter(Stamp(f, Stamp(e, PixelAfter(bg, before, x, y), x, y), x, y), after, x, y)
    {
      PixelAfterConcat(bg, before + [e, f], after, x, y);
      assert before + [e, f] == (before + [e]) + [f];
      PixelAfterAppend(bg, before + [e], f, x, y);
      PixelAfterAppend(bg, before, e, x, y);
    }
  }

  // ---- the padding blend_hw adds (cpp/src/dsp.cpp) ----

  const MIN_DIM: nat := 16
  const MAX_DIM: nat := 8192

  function Max(a: int, b: int): int { if a < b then b else a }
  function Min(a: int, b: int): int { if a < b then a else b }

  // Transparent rows below and transparent columns to the right.
  function Grown(image: RawImage<Rgba>, rows: nat, cols: nat): (g: RawImage<Rgba>)
    requires image.Valid() && image.rows <= rows && image.cols <= cols
    ensures g.Valid() && g.rows == rows && g.cols == cols
    ensures forall r, c | 0 <= r < rows && 0 <= c < cols ::
              g.px[r][c] == if r < image.rows && c < image.cols then image.px[r][c] else CLEAR
  {
    Grid(rows, cols, (r, c) => if 0 <= r < image.rows && 0 <= c < image.cols then image.px[r][c] else CLEAR)
  }

  function Padded(c: Canvas): (p: Canvas)
    ensures p.image.rows >= MIN_DIM && p.image.cols >= MIN_DIM && p.image.rows % 2 == 0
    ensures c.image.rows >= MIN_DIM && c.image.cols >= MIN_DIM && c.image.rows % 2 == 0 ==> p == c
    ensures p.x == c.x && p.y == c.y && p.image.cols == if c.image.cols < 16 then 16 else c.image.cols
    ensures p.image.rows == if c.image.rows < 16 then 16 else c.image.rows + c.image.rows % 2
    ensures forall y, x | 0 <= y < p.image.rows && 0 <= x < p.image.cols ::
      p.image.px[y][x] == if y < c.image.rows && x < c.image.cols then c.image.px[y][x] else Rgba(0, 0, 0, 0)
  {
    var floored := if c.image.cols < MIN_DIM || c.image.rows < MIN_DIM
                   then Grown(c.image, Max(c.image.rows, MIN_DIM), Max(c.image.cols, MIN_DIM)) else c.image;
    var evened := if floored.rows % 2 == 1 then Grown(floored, floored.rows + 1, floored.cols) else floored;
    Canvas(evened, c.x, c.y)
  }

  function PaddedAll(overlays: seq<Canvas>): (p: seq<Canvas>)
    ensures |p| == |overlays| && forall i | 0 <= i < |p| :: p[i] == Padded(overlays[i])
  {
    seq(|overlays|, i requires 0 <= i < |overlays| => Padded(overlays[i]))
  }

  /** The transparent padding never changes a blended picture, for any list of overlays. */
  lemma {:induction false} PaddingIsInvisible(bg: Rgb, overlays: seq<Canvas>, x: int, y: int)
    ensures PixelAfter(bg, PaddedAll(overlays), x, y) == PixelAfter(bg, overlays, x, y)
  {
    if overlays != [] {
      var n := |overlays| - 1;
      assert PaddedAll(overlays)[..n] == PaddedAll(overlays[..n]);
      PaddingIsInvisible(bg, overlays[..n], x, y);
      PaddedStamp(overlays[n], PixelAfter(bg, overlays[..n], x, y), x, y);
    }
  }

  lemma PaddedStamp(c: Canvas, bg: Rgb, x: int, y: int)
    ensures Stamp(Padded(c), bg, x, y) == Stamp(c, bg, x, y)
  {
    ClearStamp(bg);
    if Lands(Padded(c), x, y) {
      assert At(Padded(c), x, y) == if Lands(c, x, y) then At(c, x, y) else CLEAR;
    }
  }

  lemma ClearStamp(bg: Rgb)
    ensures Over(CLEAR, bg) == bg
  {
  }

  // ---- the blend loop ----

  // The frozen contents of a pixel matrix.
  function Frozen<T>(a: array2<T>): (image: RawImage<T>)
    reads a
    ensures image.Valid() && image.rows == a.Length0 && image.cols == a.Length1
    ensures forall r, c | 0 <= r < a.Length0 && 0 <= c < a.Length1 :: image.px[r][c] == a[r, c]
  {
    Image(a.Length0, a.Length1,
      seq(a.Length0, r requires 0 <= r < a.Length0 reads a =>
        seq(a.Length1, c requires 0 <= c < a.Length1 reads a => a[r, c])))
  }

  /** The software compositor on an rgb24 base: every pixel of the result is the list-order
      blend of the overlays that land on it, and the base is left alone. */
  method CpuBlend(base: array2<Rgb>, overlays: seq<Canvas>) returns (work: array2<Rgb>)
    ensures fresh(work) && work.Length0 == base.Length0 && work.Length1 == base.Length1
    ensures forall y, x | 0 <= y < work.Length0 && 0 <= x < work.Length1 ::
              work[y, x] == PixelAfter(base[y, x], overlays, x, y)
  {
    work := new Rgb[base.Length0, base.Length1]((y, x) requires 0 <= y < base.Length0 && 0 <= x < base.Length1 reads base => base[y, x]);
    for i := 0 to |overlays|
      invariant forall y, x | 0 <= y < work.Length0 && 0 <= x < work.Length1 ::
                  work[y, x] == PixelAfter(base[y, x], overlays[..i], x, y)
    {
      BlendOne(work, overlays[i]);
      assert overlays[..i + 1] == overlays[..i] + [overlays[i]];
      forall y, x | 0 <= y < work.Length0 && 0 <= x < work.Length1
        ensures work[y, x] == PixelAfter(base[y, x], overlays[..i + 1], x, y)
      {
        PixelAfterAppend(base[y, x], overlays[..i], overlays[i], x, y);
      }
    }
    assert overlays[..|overlays|] == overlays;
  }

  /** One turn of the compositor's outer loop, in place: overhang is clipped, an overlay with a
      negative or off-frame origin is skipped. */
  method BlendOne(work: array2<Rgb>, ov: Canvas)
    modifies work
    ensures forall y, x | 0 <= y < work.Length0 && 0 <= x < work.Length1 ::
              work[y, x] == Stamp(ov, old(work[y, x]), x, y)
    ensures forall y, x | 0 <= y < work.Length0 && 0 <= x < work.Length1 :: BlendedOnce(ov, x, y, old(work[y, x]), work[y, x])
  {
    hide Mix;
    if ov.y >= work.Length0 || ov.x >= work.Length1 || ov.y < 0 || ov.x < 0 {
      return;
    }
    var rh := Min(ov.image.rows, work.Length0 - ov.y);
    var rw := Min(ov.image.cols, work.Length1 - ov.x);
    for r := 0 to rh
      invariant forall y, x | 0 <= y < work.Length0 && 0 <= x < work.Length1 ::
                  work[y, x] == if y < ov.y + r then Stamp(ov, old(work[y, x]), x, y) else old(work[y, x])
    {
      for c := 0 to rw
        invariant forall y, x | 0 <= y < work.Length0 && 0 <= x < work.Length1 ::
                    work[y, x] == if y < ov.y + r || (y == ov.y + r && x < ov.x + c)
                                  then Stamp(ov, old(work[y, x]), x, y) else old(work[y, x])
      {
        work[ov.y + r, ov.x + c] := Over(ov.image.px[r][c], work[ov.y + r, ov.x + c]);
      }
    }
    forall y, x | 0 <= y < work.Length0 && 0 <= x < work.Length1 ensures BlendedOnce(ov, x, y, old(work[y, x]), work[y, x]) {
      StampBlends(ov, old(work[y, x]), x, y);
    }
  }
}
