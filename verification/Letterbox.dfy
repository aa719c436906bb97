/** Where scaled content goes (cpp/src/dsp_format.cpp:106-223), in exact arithmetic: the letterbox
    canvas, the scale-and-crop window, and the crop rectangles a caller may ask for. */
module Letterbox {
  import opened Pixels

  // Nearest integer, halves to the even one.
  function HalfEven(x: real): int {
    var f := x.Floor;
    var d := x - f as real;
    if d < 0.5 then f else if d > 0.5 then f + 1 else if f % 2 == 0 then f else f + 1
  }

  /** Nothing is nearer; a tie goes to the even neighbour. */
  lemma HalfEvenIsNearest(x: real, n: int)
    ensures var r := HalfEven(x) as real - x; -0.5 <= r <= 0.5
    ensures n as real - x == 0.5 || n as real - x == -0.5 ==> HalfEven(x) % 2 == 0
    ensures -0.5 < n as real - x < 0.5 ==> HalfEven(x) == n
  {
    var f := x.Floor;
    var d := x - f as real;
    EvenNext(f);
    if -0.5 <= n as real - x <= 0.5 {
      assert (n - f) as real == n as real - f as real;
      assert n == f || n == f + 1;
    }
  }

  lemma EvenNext(f: int)
    ensures f % 2 == 0 || (f + 1) % 2 == 0
  {
  }

  lemma HalfEvenBounds(x: real, n: int)
    ensures x <= n as real ==> HalfEven(x) <= n
    ensures x >= n as real ==> HalfEven(x) >= n
  {
  }

  // x & ~1, for negative numbers too.
  function Evened(x: int): (r: int)
    ensures r % 2 == 0 && x - 1 <= r <= x
  {
    x - x % 2
  }

  // C++ division by two rounds towards zero.
  function Half(x: int): int { if x >= 0 then x / 2 else -((-x) / 2) }

  datatype Size = Size(w: int, h: int)

  function Ratio(a: int, b: int): real
    requires b > 0
  {
    a as real / b as real
  }

  // The one scale for both axes: the smaller of the two to fit inside, the larger to cover.
  function Scale(src: Size, dst: Size, cover: bool): real
    requires src.w > 0 && src.h > 0
  {
    var a, b := Ratio(dst.w, src.w), Ratio(dst.h, src.h);
    if cover then (if a < b then b else a) else if b < a then b else a
  }

  function Scaled(side: int, scale: real): real { side as real * scale }

  function Rounded(nv12: bool, side: int, scale: real): int {
    var r := Max(1, HalfEven(Scaled(side, scale)));
    if nv12 then Evened(r) else r
  }

  // The size the content is stretched to.
  function Content(nv12: bool, src: Size, dst: Size, cover: bool): Size
    requires src.w > 0 && src.h > 0
  {
    var s := Scale(src, dst, cover);
    Size(Rounded(nv12, src.w, s), Rounded(nv12, src.h, s))
  }

  lemma RatioUndone(a: int, b: int)
    requires b > 0
    ensures Scaled(b, Ratio(a, b)) == a as real
  {
  }

  lemma ScaleMono(side: int, a: real, b: real)
    requires side > 0 && a <= b
    ensures Scaled(side, a) <= Scaled(side, b)
  {
  }

  // Both sides stay on one side of the destination, and one of them meets it.
  lemma ScaleMeets(src: Size, dst: Size, cover: bool)
    requires src.w > 0 && src.h > 0
    ensures var s, w, h := Scale(src, dst, cover), dst.w as real, dst.h as real;
      && (if cover then Scaled(src.w, s) >= w && Scaled(src.h, s) >= h else Scaled(src.w, s) <= w && Scaled(src.h, s) <= h)
      && (Scaled(src.w, s) == w || Scaled(src.h, s) == h)
  {
    var a, b, s := Ratio(dst.w, src.w), Ratio(dst.h, src.h), Scale(src, dst, cover);
    hide Ratio, Scaled;
    RatioUndone(dst.w, src.w);
    RatioUndone(dst.h, src.h);
    if cover {
      ScaleMono(src.w, a, s);
      ScaleMono(src.h, b, s);
    } else {
      ScaleMono(src.w, s, a);
      ScaleMono(src.h, s, b);
    }
  }

  // n is a/b rounded to the nearest integer, evened downwards in nv12; at least one before that.
  predicate Near(nv12: bool, n: int, a: int, b: int) {
    n <= 1 || -b * (if nv12 then 3 else 1) <= 2 * (n * b - a) <= b
  }

  /** The content keeps the picture's shape: the side that decides the scale becomes the destination's, the
      other one as long as the sizes' proportion asks for, each up to rounding. */
  lemma ContentKeepsShape(nv12: bool, src: Size, dst: Size, cover: bool)
    requires src.w > 0 && src.h > 0 && dst.w > 0 && dst.h > 0
    ensures var c := Content(nv12, src, dst, cover);
      var byWidth := if cover then dst.w * src.h >= dst.h * src.w else dst.w * src.h <= dst.h * src.w;
      if byWidth then Near(nv12, c.w, dst.w, 1) && Near(nv12, c.h, src.h * dst.w, src.w)
      else Near(nv12, c.h, dst.h, 1) && Near(nv12, c.w, src.w * dst.h, src.h)
  {
    hide Rounded, Ratio, Near;
    RatioOrder(dst.w, src.w, dst.h, src.h);
    RatioOrder(dst.h, src.h, dst.w, src.w);
    OwnSideNear(nv12, src.w, dst.w);
    OwnSideNear(nv12, src.h, dst.h);
    RoundedNear(nv12, src.h, dst.w, src.w);
    RoundedNear(nv12, src.w, dst.h, src.h);
  }

  lemma RatioOrder(a: int, b: int, c: int, d: int)
    requires b > 0 && d > 0
    ensures Ratio(a, b) <= Ratio(c, d) <==> a * d <= c * b
  {
    var p, q := Ratio(a, b), Ratio(c, d);
    assert p * b as real == a as real && q * d as real == c as real;
    var k := b as real * d as real;
    assert p * k == a as real * d as real && q * k == c as real * b as real;
    NotAbove(p, q, k);
    assert (a * d) as real == a as real * d as real && (c * b) as real == c as real * b as real;
  }

  lemma NotAbove(x: real, y: real, b: real)
    requires b > 0.0
    ensures x <= y <==> x * b <= y * b
  {
  }

  lemma OwnSideNear(nv12: bool, side: int, want: int)
    requires side > 0
    ensures Near(nv12, Rounded(nv12, side, Ratio(want, side)), want, 1)
  {
    hide HalfEven, Ratio, Scaled;
    RatioUndone(want, side);
    HalfEvenIsNearest(want as real, want);
  }

  lemma RoundedNear(nv12: bool, side: int, a: int, b: int)
    requires side > 0 && b > 0
    ensures Near(nv12, Rounded(nv12, side, Ratio(a, b)), side * a, b)
  {
    hide HalfEven, Ratio, Scaled, Near;
    var x := Scaled(side, Ratio(a, b));
    HalfEvenIsNearest(x, 0);
    ScaledTimes(side, a, b);
    assert (side * a) as real == side as real * a as real;
    RealToInt(HalfEven(x), b, side * a, x);
    NearFrom(nv12, HalfEven(x), side * a, b);
  }

  function Times(a: real, b: real): real { a * b }

  lemma RealToInt(r: int, b: int, m: int, x: real)
    requires b > 0 && b as real * x == m as real && -0.5 <= r as real - x <= 0.5
    ensures -b <= 2 * (r * b - m) <= b
  {
    assert Times(b as real, x) == m as real;
    TimesBetween(r as real - x, b as real);
    TimesMinus(b as real, r as real, x);
    CastProduct(r, b);
    hide Times;
    Casts(r * b, m, Times(b as real, r as real - x), b);
  }

  lemma TimesMinus(b: real, r: real, x: real)
    ensures Times(b, r - x) == Times(b, r) - Times(b, x)
  {
  }

  lemma CastProduct(r: int, b: int)
    ensures (r * b) as real == Times(b as real, r as real)
  {
  }

  lemma Casts(p: int, m: int, d: real, b: int)
    requires p as real - m as real == d && -(b as real) <= 2.0 * d <= b as real
    ensures -b <= 2 * (p - m) <= b
  {
  }

  lemma ScaledTimes(side: int, a: int, b: int)
    requires b > 0
    ensures b as real * Scaled(side, Ratio(a, b)) == side as real * a as real
  {
    var q := Ratio(a, b);
    RatioUndone(a, b);
    ProductTurns(side as real, b as real, q);
  }

  lemma TimesBetween(d: real, b: real)
    requires -0.5 <= d <= 0.5 && b > 0.0
    ensures -b <= 2.0 * Times(b, d) <= b
  {
    var above, below := 0.5 - d, d + 0.5;
    assert b * above >= 0.0 && b * below >= 0.0;
    assert b * above == 0.5 * b - b * d && b * below == b * d + 0.5 * b;
  }

  lemma NearFrom(nv12: bool, r: int, a: int, b: int)
    requires b > 0 && -b <= 2 * (r * b - a) <= b
    ensures Near(nv12, if nv12 then Evened(Max(1, r)) else Max(1, r), a, b)
  {
    var n := if nv12 then Evened(Max(1, r)) else Max(1, r);
    if n > 1 {
      assert n == r || (nv12 && n == r - 1);
      OneLess(r, b);
    }
  }

  lemma OneLess(r: int, b: int)
    ensures (r - 1) * b == r * b - b
  {
  }

  // ---- letterbox ----

  datatype Frame = Frame(x: int, y: int, w: int, h: int)

  function LetterboxFrame(nv12: bool, upLeft: bool, src: Size, dst: Size): Frame
    requires src.w > 0 && src.h > 0
  {
    var c := Content(nv12, src, dst, false);
    var ox := if upLeft then 0 else Half(dst.w - c.w);
    var oy := if upLeft then 0 else Half(dst.h - c.h);
    if nv12 then Frame(Evened(ox), Evened(oy), c.w, c.h) else Frame(ox, oy, c.w, c.h)
  }

  /** The content lies inside the canvas; in nv12 every offset and size is even, and its chroma rows
      land inside the canvas's, one for every two rows of luma. */
  lemma ContentFits(nv12: bool, upLeft: bool, src: Size, dst: Size)
    requires src.w > 0 && src.h > 0 && dst.w > 0 && dst.h > 0
    ensures var f := LetterboxFrame(nv12, upLeft, src, dst);
      && 0 <= f.x && f.x + f.w <= dst.w && 0 <= f.y && f.y + f.h <= dst.h
      && (nv12 ==> f.x % 2 == 0 && f.y % 2 == 0 && f.w % 2 == 0 && f.h % 2 == 0)
      && (nv12 ==> dst.h + (f.y + f.h) / 2 <= dst.h * 3 / 2 && (f.y + f.h) / 2 - f.y / 2 == f.h / 2)
  {
    hide HalfEven, Scale, Scaled;
    var s := Scale(src, dst, false);
    ScaleMeets(src, dst, false);
    HalfEvenBounds(Scaled(src.w, s), dst.w);
    HalfEvenBounds(Scaled(src.h, s), dst.h);
  }

  /** It is as large as fits: in a format of whole pixels one side is the canvas's own; and in the
      middle position the margins on both sides differ by at most one pixel, in nv12 by at most
      three. */
  lemma ContentFillsAndCentres(nv12: bool, src: Size, dst: Size)
    requires src.w > 0 && src.h > 0 && dst.w > 0 && dst.h > 0
    ensures var f := LetterboxFrame(nv12, false, src, dst);
      && (!nv12 ==> f.w == dst.w || f.h == dst.h)
      && 0 <= (dst.w - f.w - f.x) - f.x <= (if nv12 then 3 else 1)
      && 0 <= (dst.h - f.h - f.y) - f.y <= (if nv12 then 3 else 1)
  {
    hide HalfEven, Scale, Scaled;
    var s := Scale(src, dst, false);
    ScaleMeets(src, dst, false);
    HalfEvenBounds(Scaled(src.w, s), dst.w);
    HalfEvenBounds(Scaled(src.h, s), dst.h);
  }

  /** In the upper-left position the same content starts at the canvas's corner. */
  lemma UpLeftIsCornered(nv12: bool, src: Size, dst: Size)
    requires src.w > 0 && src.h > 0
    ensures var f, m := LetterboxFrame(nv12, true, src, dst), LetterboxFrame(nv12, false, src, dst);
      f.x == 0 && f.y == 0 && f.w == m.w && f.h == m.h
  {
    hide Content;
  }

  /** In nv12 the content vanishes exactly when a side of the destination is one pixel or the other
      side's scale takes a side of the source below one and a half; in the other formats it never
      does. */
  lemma ContentVanishes(nv12: bool, src: Size, dst: Size)
    requires src.w > 0 && src.h > 0 && dst.w > 0 && dst.h > 0
    ensures var c := Content(nv12, src, dst, false);
      && (c.w == 0 || c.h == 0 <==>
            nv12 && (dst.w == 1 || dst.h == 1 || 2 * src.w * dst.h < 3 * src.h || 2 * src.h * dst.w < 3 * src.w))
      && c.w >= 0 && c.h >= 0
  {
    hide HalfEven, Scale, Scaled;
    SideVanishes(src, dst);
  }

  lemma SideVanishes(src: Size, dst: Size)
    requires src.w > 0 && src.h > 0 && dst.w > 0 && dst.h > 0
    ensures var s := Scale(src, dst, false);
      && (HalfEven(Scaled(src.w, s)) <= 1 <==> dst.w == 1 || 2 * src.w * dst.h < 3 * src.h)
      && (HalfEven(Scaled(src.h, s)) <= 1 <==> dst.h == 1 || 2 * src.h * dst.w < 3 * src.w)
  {
    hide HalfEven, Ratio, Scaled;
    var s := Scale(src, dst, false);
    AtMostOne(Scaled(src.w, s));
    AtMostOne(Scaled(src.h, s));
    SideBelow(src.w, dst.w, src.h, dst.h, 3);
    SideBelow(src.h, dst.h, src.w, dst.w, 3);
  }

  lemma AtMostOne(x: real)
    ensures HalfEven(x) <= 1 <==> x < 3 as real / 2.0
  {
  }

  // A side scaled to its own wanted length, and by the other side's scale, against n halves.
  lemma SideBelow(side: int, want: int, other: int, otherWant: int, n: int)
    requires side > 0 && other > 0
    ensures var a, b := Ratio(want, side), Ratio(otherWant, other);
      && Scaled(side, a) == want as real
      && (Scaled(side, b) < n as real / 2.0 <==> 2 * side * otherWant < n * other)
      && (a <= b ==> want as real <= Scaled(side, b))
      && (b <= a ==> Scaled(side, b) <= want as real)
  {
    hide Ratio, Scaled;
    var a, b := Ratio(want, side), Ratio(otherWant, other);
    RatioUndone(want, side);
    ScaledBelow(side, otherWant, other, n);
    if a <= b { ScaleMono(side, a, b); }
    if b <= a { ScaleMono(side, b, a); }
  }

  lemma ScaledBelow(side: int, a: int, b: int, n: int)
    requires b > 0
    ensures Scaled(side, Ratio(a, b)) < n as real / 2.0 <==> 2 * side * a < n * b
  {
    var q, x := Ratio(a, b), Scaled(side, Ratio(a, b));
    RatioUndone(a, b);
    ProductTurns(side as real, b as real, q);
    assert b as real * x == side as real * a as real;
    BelowTimes(x, n as real / 2.0, b as real);
    assert (side * a) as real == side as real * a as real;
    assert (n * b) as real == n as real * b as real;
  }

  lemma ProductTurns(m: real, b: real, q: real)
    ensures b * (m * q) == m * (b * q)
  {
  }

  lemma BelowTimes(x: real, y: real, b: real)
    requires b > 0.0
    ensures x < y <==> b * x < b * y
  {
  }

  /** It happens: an nv12 picture of 8192x16 letterboxed to 16x16 keeps no row. */
  lemma ThinPictureVanishes()
    ensures Content(true, Size(8192, 16), Size(16, 16), false).h == 0
  {
    var src, dst := Size(8192, 16), Size(16, 16);
    hide HalfEven, Scaled, Scale, Rounded;
    SideVanishes(src, dst);
    OneIsNone(src.h, Scale(src, dst, false));
  }

  lemma OneIsNone(side: int, scale: real)
    requires HalfEven(Scaled(side, scale)) <= 1
    ensures Rounded(true, side, scale) == 0
  {
    hide HalfEven, Scaled;
  }

  // ---- scale and crop ----

  function CropWindow(nv12: bool, src: Size, dst: Size): Frame
    requires src.w > 0 && src.h > 0
  {
    var big := Content(nv12, src, dst, true);
    Frame(Evened(Half(big.w - dst.w)), Evened(Half(big.h - dst.h)), dst.w, dst.h)
  }

  // An odd nv12 side that the scale, the other side's if that is the larger, takes no half pixel
  // beyond what is wanted: it is rounded back to it, and then evened below it.
  predicate Short(nv12: bool, side: int, want: int, other: int, otherWant: int) {
    nv12 && want % 2 == 1 && 2 * side * otherWant < (2 * want + 1) * other
  }

  lemma OddMet(x: real, want: int)
    requires want % 2 == 1 && x >= want as real
    ensures HalfEven(x) == want <==> x < (2 * want + 1) as real / 2.0
  {
  }

  lemma SideMet(src: Size, dst: Size)
    requires src.w > 0 && src.h > 0
    ensures var s := Scale(src, dst, true);
      && (dst.w % 2 == 1 ==> (HalfEven(Scaled(src.w, s)) == dst.w <==> 2 * src.w * dst.h < (2 * dst.w + 1) * src.h))
      && (dst.h % 2 == 1 ==> (HalfEven(Scaled(src.h, s)) == dst.h <==> 2 * src.h * dst.w < (2 * dst.h + 1) * src.w))
  {
    hide HalfEven, Ratio, Scaled;
    var s := Scale(src, dst, true);
    SideBelow(src.w, dst.w, src.h, dst.h, 2 * dst.w + 1);
    SideBelow(src.h, dst.h, src.w, dst.w, 2 * dst.h + 1);
    if dst.w % 2 == 1 { OddMet(Scaled(src.w, s), dst.w); }
    if dst.h % 2 == 1 { OddMet(Scaled(src.h, s), dst.h); }
  }

  /** The window lies inside the scaled image exactly when no odd nv12 side is met to the half pixel:
      always in the other formats, and always for an even destination. */
  lemma WindowInsideExactly(nv12: bool, src: Size, dst: Size)
    requires src.w > 0 && src.h > 0 && dst.w > 0 && dst.h > 0
    ensures var big, f := Content(nv12, src, dst, true), CropWindow(nv12, src, dst);
      && (0 <= f.x && f.x + f.w <= big.w && 0 <= f.y && f.y + f.h <= big.h <==>
          !Short(nv12, src.w, dst.w, src.h, dst.h) && !Short(nv12, src.h, dst.h, src.w, dst.w))
      && f.x % 2 == 0 && f.y % 2 == 0
  {
    hide HalfEven, Scale, Scaled;
    var s := Scale(src, dst, true);
    ScaleMeets(src, dst, true);
    SideMet(src, dst);
    HalfEvenBounds(Scaled(src.w, s), dst.w);
    HalfEvenBounds(Scaled(src.h, s), dst.h);
  }

  /** The window is the destination's size and centred in the scaled image: where it is inside, what is cut
      off on the two sides differs by at most three pixels. */
  lemma WindowIsCentred(nv12: bool, src: Size, dst: Size)
    requires src.w > 0 && src.h > 0
    ensures var big, f := Content(nv12, src, dst, true), CropWindow(nv12, src, dst);
      && f.w == dst.w && f.h == dst.h
      && (big.w >= dst.w ==> 0 <= (big.w - f.w - f.x) - f.x <= 3) && (big.h >= dst.h ==> 0 <= (big.h - f.h - f.y) - f.y <= 3)
  {
    hide Content;
  }

  /** For an even destination, which validate_geometry asks of every nv12 caller, it always does. */
  lemma EvenWindowIsInside(nv12: bool, src: Size, dst: Size)
    requires src.w > 0 && src.h > 0 && dst.w > 0 && dst.h > 0 && (nv12 ==> dst.w % 2 == 0 && dst.h % 2 == 0)
    ensures var big, f := Content(nv12, src, dst, true), CropWindow(nv12, src, dst);
      0 <= f.x && f.x + f.w <= big.w && 0 <= f.y && f.y + f.h <= big.h
  {
    hide Content, CropWindow, Scale, HalfEven, Scaled;
    WindowInsideExactly(nv12, src, dst);
  }

  /** For an odd one it need not: scaling 2x2 to cover 3x3 gives a picture of 2x2. */
  lemma OddWindowIsNot()
    ensures var big, f := Content(true, Size(2, 2), Size(3, 3), true), CropWindow(true, Size(2, 2), Size(3, 3));
      f.x + f.w > big.w && f.y + f.h > big.h
  {
    var src, dst := Size(2, 2), Size(3, 3);
    var s := Scale(src, dst, true);
    assert s == 1.5 && Scaled(2, s) == 3.0;
    assert HalfEven(3.0) == 3;
  }

  // ---- crop rectangles ----

  datatype RectError = Empty | Outside | Odd | Range
  datatype Checked = Accepted | Refused(error: RectError)

  function ValidatedRect(nv12: bool, src: Size, r: Frame, dst: Size): Checked {
    if r.w < 1 || r.h < 1 then Refused(Empty)
    else if r.x < 0 || r.y < 0 || r.x + r.w > src.w || r.y + r.h > src.h then Refused(Outside)
    else if nv12 && !(r.x % 2 == 0 && r.y % 2 == 0 && r.w % 2 == 0 && r.h % 2 == 0 && dst.w % 2 == 0 && dst.h % 2 == 0) then Refused(Odd)
    else if !(MIN_DIM <= dst.w <= MAX_DIM && MIN_DIM <= dst.h <= MAX_DIM) then Refused(Range)
    else Accepted
  }

  // What a copy of this rectangle needs: it lies in the picture, and in nv12 the chroma rows it
  // takes are as many as the cropped picture has and lie in the picture's.
  predicate Croppable(nv12: bool, src: Size, r: Frame) {
    && 0 <= r.x && 0 <= r.w && r.x + r.w <= src.w && 0 <= r.y && 0 <= r.h && r.y + r.h <= src.h
    && (nv12 ==> (r.y + r.h) / 2 - r.y / 2 == r.h / 2 && (r.y + r.h) / 2 <= src.h / 2)
  }

  /** Every rectangle that passes validation can be copied, luma and chroma. */
  lemma AcceptedIsCroppable(nv12: bool, src: Size, r: Frame, dst: Size)
    requires ValidatedRect(nv12, src, r, dst) == Accepted
    ensures Croppable(nv12, src, r)
  {
  }

  /** Nothing else is refused: a rectangle passes exactly when it has some size, can be copied, is even
      throughout in nv12, and its destination has a size the device takes. */
  lemma AcceptedExactly(nv12: bool, src: Size, r: Frame, dst: Size)
    ensures ValidatedRect(nv12, src, r, dst) == Accepted <==>
      && r.w >= 1 && r.h >= 1 && 0 <= r.x && 0 <= r.y && r.x + r.w <= src.w && r.y + r.h <= src.h
      && (nv12 ==> Croppable(nv12, src, r) && r.x % 2 == 0 && r.y % 2 == 0 && r.w % 2 == 0 && r.h % 2 == 0 && dst.w % 2 == 0 && dst.h % 2 == 0)
      && 16 <= dst.w <= 8192 && 16 <= dst.h <= 8192
  {
  }

  /** So can the window of scale-and-crop, whenever it lies inside the scaled image. */
  lemma WindowIsCroppable(nv12: bool, src: Size, dst: Size)
    requires src.w > 0 && src.h > 0 && dst.w > 0 && dst.h > 0
    requires !Short(nv12, src.w, dst.w, src.h, dst.h) && !Short(nv12, src.h, dst.h, src.w, dst.w)
    ensures Croppable(nv12, Content(nv12, src, dst, true), CropWindow(nv12, src, dst))
  {
    WindowInsideExactly(nv12, src, dst);
    hide Content, Short;
  }
}
