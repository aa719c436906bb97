/** Placing content on a canvas and cropping pictures (cpp/src/dsp_format.cpp:181-223). A cell is a
    byte, or a pixel of three; an nv12 picture is its luma rows above half as many chroma rows. */
module LetterboxImage {
  import opened Letterbox

  // Luma rows of a picture, as the source works them out.
  function LumaRows(nv12: bool, rows: nat): nat { if nv12 then rows * 2 / 3 else rows }

  // A picture of an even number of luma rows, if nv12.
  predicate Picture(nv12: bool, rows: nat) {
    nv12 ==> LumaRows(true, rows) % 2 == 0 && rows == LumaRows(true, rows) + LumaRows(true, rows) / 2
  }

  lemma EvenRowsMakeAPicture(h: nat)
    requires h % 2 == 0
    ensures h * 3 / 2 == h + h / 2 && LumaRows(true, h * 3 / 2) == h && Picture(true, h * 3 / 2)
  {
  }

  predicate In(x: int, from: int, size: int) { from <= x < from + size }

  method CopyRegion<T>(src: array2<T>, sy: nat, sx: nat, dst: array2<T>, dy: nat, dx: nat, h: nat, w: nat)
    requires src != dst
    requires sy + h <= src.Length0 && sx + w <= src.Length1 && dy + h <= dst.Length0 && dx + w <= dst.Length1
    modifies dst
    ensures forall i, j | 0 <= i < dst.Length0 && 0 <= j < dst.Length1 ::
      dst[i, j] == if In(i, dy, h) && In(j, dx, w) then src[sy + i - dy, sx + j - dx] else old(dst[i, j])
  {
    for r := 0 to h
      invariant forall i, j | 0 <= i < dst.Length0 && 0 <= j < dst.Length1 ::
        dst[i, j] == if In(i, dy, r) && In(j, dx, w) then src[sy + i - dy, sx + j - dx] else old(dst[i, j])
    {
      for c := 0 to w
        invariant forall i, j | 0 <= i < dst.Length0 && 0 <= j < dst.Length1 ::
          dst[i, j] == if (In(i, dy, r) && In(j, dx, w)) || (i == dy + r && In(j, dx, c))
                       then src[sy + i - dy, sx + j - dx] else old(dst[i, j])
      {
        dst[dy + r, dx + c] := src[sy + r, sx + c];
      }
    }
  }

  // The frame lies in the canvas, chroma included.
  predicate Inside(nv12: bool, dst: Size, f: Frame) {
    && 0 <= f.x && 0 <= f.w && f.x + f.w <= dst.w && 0 <= f.y && 0 <= f.h && f.y + f.h <= dst.h
    && (nv12 ==> f.y % 2 == 0 && f.h % 2 == 0)
  }

  function Rows(nv12: bool, h: nat): nat { if nv12 then h * 3 / 2 else h }

  method Place<T>(content: array2<T>, nv12: bool, dst: Size, f: Frame, black: T, neutral: T) returns (canvas: array2<T>)
    requires Inside(nv12, dst, f) && content.Length0 == Rows(nv12, f.h) && content.Length1 == f.w
    ensures fresh(canvas) && canvas.Length0 == Rows(nv12, dst.h) && canvas.Length1 == dst.w
    ensures forall i, j | 0 <= i < dst.h && 0 <= j < dst.w ::
      canvas[i, j] == if In(i, f.y, f.h) && In(j, f.x, f.w) then content[i - f.y, j - f.x] else black
    ensures nv12 ==> forall i, j | dst.h <= i < canvas.Length0 && 0 <= j < dst.w ::
      canvas[i, j] == if In(i - dst.h, f.y / 2, f.h / 2) && In(j, f.x, f.w)
                      then content[f.h + i - dst.h - f.y / 2, j - f.x] else neutral
  {
    if nv12 {
      EvenRowsMakeAPicture(f.h);
      var dh := dst.h;
      canvas := new T[dh * 3 / 2, dst.w]((i, j) => if i < dh then black else neutral);
      CopyRegion(content, 0, 0, canvas, f.y, f.x, f.h, f.w);
      CopyRegion(content, f.h, 0, canvas, dst.h + f.y / 2, f.x, f.h / 2, f.w);
    } else {
      canvas := new T[dst.h, dst.w]((i, j) => black);
      CopyRegion(content, 0, 0, canvas, f.y, f.x, f.h, f.w);
    }
  }

  method CpuCrop<T(0)>(src: array2<T>, nv12: bool, r: Frame) returns (out: array2<T>)
    requires Picture(nv12, src.Length0) && Croppable(nv12, Size(src.Length1, LumaRows(nv12, src.Length0)), r)
    ensures fresh(out) && out.Length0 == (if nv12 then r.h + r.h / 2 else r.h) && out.Length1 == r.w
    ensures forall i, j | 0 <= i < r.h && 0 <= j < r.w :: out[i, j] == src[r.y + i, r.x + j]
    ensures nv12 ==> forall i, j | r.h <= i < out.Length0 && 0 <= j < r.w ::
      out[i, j] == src[LumaRows(true, src.Length0) + r.y / 2 + i - r.h, r.x + j]
  {
    if nv12 {
      var sh := LumaRows(nv12, src.Length0);
      out := new T[r.h + r.h / 2, r.w];
      CopyRegion(src, r.y, r.x, out, 0, 0, r.h, r.w);
      var cRows := (r.y + r.h) / 2 - r.y / 2;
      CopyRegion(src, sh + r.y / 2, r.x, out, r.h, 0, cRows, r.w);
    } else {
      out := new T[r.h, r.w];
      CopyRegion(src, r.y, r.x, out, 0, 0, r.h, r.w);
    }
  }

  predicate Same<T(==)>(a: array2<T>, b: array2<T>)
    reads a, b
  {
    a.Length0 == b.Length0 && a.Length1 == b.Length1 &&
    forall i, j | 0 <= i < a.Length0 && 0 <= j < a.Length1 :: a[i, j] == b[i, j]
  }

  /** Letterboxing stretched content of the computed size and cropping the canvas at the computed
      offset returns the content byte for byte, luma and chroma, wherever it is placed. */
  method LetterboxAndBack<T(0, ==)>(content: array2<T>, nv12: bool, upLeft: bool, src: Size, dst: Size, black: T,
          neutral: T)
    returns (out: array2<T>)
    requires src.w > 0 && src.h > 0 && dst.w > 0 && dst.h > 0 && (nv12 ==> dst.h % 2 == 0)
    requires var c := Content(nv12, src, dst, false);
      c.w >= 0 && c.h >= 0 && content.Length0 == Rows(nv12, c.h) && content.Length1 == c.w
    ensures Same(out, content)
  {
    ContentFits(nv12, upLeft, src, dst);
    var f := LetterboxFrame(nv12, upLeft, src, dst);
    hide LetterboxFrame, Content;
    out := PlaceAndCrop(content, nv12, dst, f, black, neutral);
  }

  // A rectangle of content, seen through the canvas it was placed on.
  lemma Through<T>(content: array2<T>, canvas: array2<T>, out: array2<T>, at: nat, y: nat, x: nat, h: nat, w: nat)
    requires at + h <= content.Length0 && w <= content.Length1 && at + h <= out.Length0 && w <= out.Length1
    requires y + h <= canvas.Length0 && x + w <= canvas.Length1
    requires forall i, j | y <= i < y + h && x <= j < x + w :: canvas[i, j] == content[at + i - y, j - x]
    requires forall i, j | at <= i < at + h && 0 <= j < w :: out[i, j] == canvas[y + i - at, x + j]
    ensures forall i, j | at <= i < at + h && 0 <= j < w :: out[i, j] == content[i, j]
  {
    forall i, j | at <= i < at + h && 0 <= j < w ensures out[i, j] == content[i, j] {
      assert out[i, j] == canvas[y + i - at, x + j];
    }
  }

  method PlaceAndCrop<T(0, ==)>(content: array2<T>, nv12: bool, dst: Size, f: Frame, black: T, neutral: T)
    returns (out: array2<T>)
    requires Inside(nv12, dst, f) && (nv12 ==> dst.h % 2 == 0)
    requires content.Length0 == Rows(nv12, f.h) && content.Length1 == f.w
    ensures Same(out, content)
  {
    if nv12 {
      EvenRowsMakeAPicture(dst.h);
      EvenRowsMakeAPicture(f.h);
    }
    hide LumaRows, Picture;
    var canvas := Place(content, nv12, dst, f, black, neutral);
    out := CpuCrop(canvas, nv12, f);
    Through(content, canvas, out, 0, f.y, f.x, f.h, f.w);
    if nv12 { Through(content, canvas, out, f.h, dst.h + f.y / 2, f.x, f.h / 2, f.w); }
  }
}
