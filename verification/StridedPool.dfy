/** Images in and out of strided plane memory (cpp/src/dsp.cpp:158-173, 472-571;
    cpp/src/detail/dsp_wire.hpp:232-244). */
module StridedPool {
  import opened Wrappers
  import opened Division

  datatype Format = Nv12 | Rgb24 | Argb | Gray8
  datatype Error = Released | BadIndex | BadShape

  // A contiguous 8-bit matrix.
  datatype Mat = Mat(rows: nat, cols: nat, channels: nat, bytes: seq<Byte>)

  datatype PlaneRows = PlaneRows(rowBytes: nat, rows: nat)

  function PlaneRowsOf(fmt: Format, width: nat, height: nat): (p: seq<PlaneRows>)
    ensures |p| == PlaneCount(fmt)
  {
    match fmt
    case Nv12 => [PlaneRows(width, height), PlaneRows(width, height / 2)]
    case Rgb24 => [PlaneRows(width * 3, height)]
    case Argb => [PlaneRows(width * 4, height)]
    case Gray8 => [PlaneRows(width, height)]
  }

  function PlaneCount(fmt: Format): nat { if fmt.Nv12? then 2 else 1 }

  // ---- rows between packed bytes and strided memory ----

  function Spliced(s: seq<Byte>, at: nat, piece: seq<Byte>): (r: seq<Byte>)
    requires at + |piece| <= |s|
    ensures |r| == |s|
  {
    s[..at] + piece + s[at + |piece|..]
  }

  // The first byte of a row.
  function Start(width: nat, row: nat): nat { width * row }

  lemma NextStart(width: nat, row: nat)
    ensures Start(width, row + 1) == Start(width, row) + width && Start(width, 0) == 0
  {
  }

  lemma {:induction false} StartsAscend(width: nat, row: nat, later: nat)
    requires row < later
    ensures Start(width, row) + width <= Start(width, later)
    decreases later
  {
    hide Start;
    NextStart(width, later - 1);
    if row + 1 < later { StartsAscend(width, row, later - 1); }
  }

  // rows rows of rowBytes bytes fit in len bytes at that stride.
  predicate Fits(len: nat, stride: nat, rowBytes: nat, rows: nat) {
    rowBytes <= stride && (rows > 0 ==> Start(stride, rows - 1) + rowBytes <= len)
  }

  lemma FewerFit(len: nat, stride: nat, rowBytes: nat, rows: nat)
    requires Fits(len, stride, rowBytes, rows) && rows > 0
    ensures Fits(len, stride, rowBytes, rows - 1) && Start(stride, rows - 1) + rowBytes <= len
  {
    hide Start;
    if rows > 1 { NextStart(stride, rows - 2); }
  }

  // Memory after the rows of packed[off..] have been laid out in it.
  function Strided(mem: seq<Byte>, stride: nat, packed: seq<Byte>, off: nat, rowBytes: nat, rows: nat): (r: seq<Byte>)
    requires Fits(|mem|, stride, rowBytes, rows) && off + Start(rowBytes, rows) <= |packed|
    ensures |r| == |mem|
  {
    if rows == 0 then mem
    else
      FewerFit(|mem|, stride, rowBytes, rows);
      NextStart(rowBytes, rows - 1);
      var from := off + Start(rowBytes, rows - 1);
      Spliced(Strided(mem, stride, packed, off, rowBytes, rows - 1), Start(stride, rows - 1), packed[from..from + rowBytes])
  }

  // The rows gathered out of memory.
  function Packed(mem: seq<Byte>, stride: nat, rowBytes: nat, rows: nat): (r: seq<Byte>)
    requires Fits(|mem|, stride, rowBytes, rows)
    ensures |r| == Start(rowBytes, rows)
  {
    if rows == 0 then []
    else
      FewerFit(|mem|, stride, rowBytes, rows);
      NextStart(rowBytes, rows - 1);
      Packed(mem, stride, rowBytes, rows - 1) + mem[Start(stride, rows - 1)..Start(stride, rows - 1) + rowBytes]
  }

  lemma {:induction false} PackedPrefix(a: seq<Byte>, b: seq<Byte>, stride: nat, rowBytes: nat, rows: nat, n: nat)
    requires Fits(|a|, stride, rowBytes, rows) && Fits(|b|, stride, rowBytes, rows)
    requires n <= |a| && n <= |b| && a[..n] == b[..n] && Fits(n, stride, rowBytes, rows)
    ensures Packed(a, stride, rowBytes, rows) == Packed(b, stride, rowBytes, rows)
  {
    hide Start;
    if rows > 0 {
      FewerFit(|a|, stride, rowBytes, rows);
      FewerFit(|b|, stride, rowBytes, rows);
      FewerFit(n, stride, rowBytes, rows);
      PackedPrefix(a, b, stride, rowBytes, rows - 1, n);
      var from := Start(stride, rows - 1);
      assert a[from..from + rowBytes] == a[..n][from..from + rowBytes] == b[..n][from..from + rowBytes] == b[from..from + rowBytes];
    }
  }

  /** What is laid out is what is gathered again, at any stride. */
  lemma {:induction false} RowsReadBack(mem: seq<Byte>, stride: nat, packed: seq<Byte>, off: nat, rowBytes: nat,
          rows: nat)
    requires Fits(|mem|, stride, rowBytes, rows) && off + Start(rowBytes, rows) <= |packed|
    ensures Packed(Strided(mem, stride, packed, off, rowBytes, rows), stride, rowBytes, rows) ==
      packed[off..off + Start(rowBytes, rows)]
  {
    hide Start, Spliced, Fits;
    NextStart(rowBytes, 0);
    if rows > 0 {
      FewerFit(|mem|, stride, rowBytes, rows);
      NextStart(rowBytes, rows - 1);
      RowsReadBack(mem, stride, packed, off, rowBytes, rows - 1);
      StridedStep(mem, stride, packed, off, rowBytes, rows - 1);
      var from := off + Start(rowBytes, rows - 1);
      LastReadsBack(Strided(mem, stride, packed, off, rowBytes, rows - 1), stride, rowBytes, rows - 1, packed[from..from + rowBytes]);
      assert packed[off..from] + packed[from..from + rowBytes] == packed[off..from + rowBytes];
    }
  }

  // Laying one more row behind the others leaves what the others read as.
  lemma LastReadsBack(mem: seq<Byte>, stride: nat, rowBytes: nat, r: nat, row: seq<Byte>)
    requires Fits(|mem|, stride, rowBytes, r) && Fits(|mem|, stride, rowBytes, r + 1)
    requires Start(stride, r) + rowBytes <= |mem| && |row| == rowBytes
    ensures Packed(Spliced(mem, Start(stride, r), row), stride, rowBytes, r + 1) == Packed(mem, stride, rowBytes, r) + row
  {
    hide Start, Packed, Spliced;
    var after := Spliced(mem, Start(stride, r), row);
    PackedStep(after, stride, rowBytes, r);
    SpliceRead(mem, Start(stride, r), row);
    NextStart(stride, 0);
    if r > 0 { NextStart(stride, r - 1); }
    PackedPrefix(mem, after, stride, rowBytes, r, Start(stride, r));
  }

  lemma SpliceRead(s: seq<Byte>, at: nat, piece: seq<Byte>)
    requires at + |piece| <= |s|
    ensures Spliced(s, at, piece)[..at] == s[..at]
    ensures Spliced(s, at, piece)[at..at + |piece|] == piece
  {
  }

  // Byte k lies in one of the rows, not in the padding behind them.
  ghost predicate InRows(stride: nat, rowBytes: nat, rows: nat, k: int) {
    exists r | 0 <= r < rows :: Start(stride, r) <= k < Start(stride, r) + rowBytes
  }

  /** Nothing outside the rows is written, padding included. */
  lemma {:induction false} PaddingUntouched(mem: seq<Byte>, stride: nat, packed: seq<Byte>, off: nat, rowBytes: nat,
          rows: nat, k: nat)
    requires Fits(|mem|, stride, rowBytes, rows) && off + Start(rowBytes, rows) <= |packed|
    requires k < |mem| && !InRows(stride, rowBytes, rows, k)
    ensures Strided(mem, stride, packed, off, rowBytes, rows)[k] == mem[k]
  {
    if rows > 0 {
      hide Start;
      FewerFit(|mem|, stride, rowBytes, rows);
      NextStart(rowBytes, rows - 1);
      PaddingUntouched(mem, stride, packed, off, rowBytes, rows - 1, k);
    }
  }

  lemma TightFits(len: nat, rowBytes: nat, rows: nat)
    requires Fits(len, rowBytes, rowBytes, rows)
    ensures Start(rowBytes, rows) <= len
  {
    hide Start;
    NextStart(rowBytes, 0);
    if rows > 0 { NextStart(rowBytes, rows - 1); }
  }

  /** With no padding the rows are one block, which is what the single copy moves. */
  lemma {:induction false} TightRows(mem: seq<Byte>, packed: seq<Byte>, off: nat, rowBytes: nat, rows: nat)
    requires Fits(|mem|, rowBytes, rowBytes, rows) && off + Start(rowBytes, rows) <= |packed|
    ensures Start(rowBytes, rows) <= |mem|
    ensures Strided(mem, rowBytes, packed, off, rowBytes, rows) == Spliced(mem, 0, packed[off..off + Start(rowBytes, rows)])
    ensures Packed(mem, rowBytes, rowBytes, rows) == mem[..Start(rowBytes, rows)]
  {
    hide Start, Spliced, Fits;
    TightFits(|mem|, rowBytes, rows);
    NextStart(rowBytes, 0);
    if rows == 0 {
      assert packed[off..off] == [];
      SpliceNothing(mem, 0);
    } else {
      FewerFit(|mem|, rowBytes, rowBytes, rows);
      NextStart(rowBytes, rows - 1);
      TightRows(mem, packed, off, rowBytes, rows - 1);
      TightStep(mem, packed, off, rowBytes, rows - 1);
    }
  }

  lemma TightStep(mem: seq<Byte>, packed: seq<Byte>, off: nat, rowBytes: nat, r: nat)
    requires Fits(|mem|, rowBytes, rowBytes, r) && Fits(|mem|, rowBytes, rowBytes, r + 1) && off + Start(rowBytes, r + 1) <= |packed|
    requires Start(rowBytes, r + 1) == Start(rowBytes, r) + rowBytes <= |mem|
    requires Strided(mem, rowBytes, packed, off, rowBytes, r) == Spliced(mem, 0, packed[off..off + Start(rowBytes, r)])
    requires Packed(mem, rowBytes, rowBytes, r) == mem[..Start(rowBytes, r)]
    ensures Strided(mem, rowBytes, packed, off, rowBytes, r + 1) == Spliced(mem, 0, packed[off..off + Start(rowBytes, r + 1)])
    ensures Packed(mem, rowBytes, rowBytes, r + 1) == mem[..Start(rowBytes, r + 1)]
  {
    hide Start, Spliced, Strided, Packed, Fits;
    StridedStep(mem, rowBytes, packed, off, rowBytes, r);
    PackedStep(mem, rowBytes, rowBytes, r);
    var n := Start(rowBytes, r);
    SpliceTwice(mem, packed[off..off + n], packed[off + n..off + n + rowBytes]);
    assert packed[off..off + n] + packed[off + n..off + n + rowBytes] == packed[off..off + n + rowBytes];
    assert mem[..n] + mem[n..n + rowBytes] == mem[..n + rowBytes];
  }

  lemma SpliceTwice(s: seq<Byte>, a: seq<Byte>, b: seq<Byte>)
    requires |a| + |b| <= |s|
    ensures Spliced(Spliced(s, 0, a), |a|, b) == Spliced(s, 0, a + b)
  {
    SpliceOn(s, 0, a, b);
  }

  // Byte b of row r of the packed bytes, from off on, is at stride * r + b of the memory.
  ghost predicate RowsLie(mem: seq<Byte>, stride: nat, packed: seq<Byte>, off: nat, rowBytes: nat, rows: nat) {
    forall r, b | 0 <= r < rows && 0 <= b < rowBytes :: RowByte(mem, stride, packed, off, rowBytes, r, b)
  }

  predicate RowByte(mem: seq<Byte>, stride: nat, packed: seq<Byte>, off: nat, rowBytes: nat, r: nat, b: nat) {
    stride * r + b < |mem| && off + rowBytes * r + b < |packed| && mem[stride * r + b] == packed[off + rowBytes * r + b]
  }

  lemma {:induction false} PackedRows(mem: seq<Byte>, stride: nat, rowBytes: nat, rows: nat)
    requires Fits(|mem|, stride, rowBytes, rows)
    ensures RowsLie(mem, stride, Packed(mem, stride, rowBytes, rows), 0, rowBytes, rows)
  {
    if rows > 0 {
      FewerFit(|mem|, stride, rowBytes, rows);
      PackedRows(mem, stride, rowBytes, rows - 1);
      var before, after := Packed(mem, stride, rowBytes, rows - 1), Packed(mem, stride, rowBytes, rows);
      NextStart(rowBytes, rows - 1);
      hide Start, Fits;
      forall r, b | 0 <= r < rows && 0 <= b < rowBytes ensures RowByte(mem, stride, after, 0, rowBytes, r, b) {
        if r < rows - 1 {
          assert RowByte(mem, stride, before, 0, rowBytes, r, b);
        } else {
          StartIs(rowBytes, r);
          StartIs(stride, r);
        }
      }
    }
  }

  lemma StartIs(width: nat, row: nat)
    ensures Start(width, row) == width * row
  {
  }

  lemma RowsMoved(mem: seq<Byte>, stride: nat, packed: seq<Byte>, whole: seq<Byte>, off: nat, rowBytes: nat, rows: nat)
    requires RowsLie(mem, stride, packed, 0, rowBytes, rows) && off + |packed| <= |whole| && whole[off..off + |packed|] == packed
    ensures RowsLie(mem, stride, whole, off, rowBytes, rows)
  {
    forall r, b | 0 <= r < rows && 0 <= b < rowBytes ensures RowByte(mem, stride, whole, off, rowBytes, r, b) {
      assert RowByte(mem, stride, packed, 0, rowBytes, r, b);
      var k := rowBytes * r + b;
      assert whole[off + k] == whole[off..off + |packed|][k];
    }
  }

  // ---- the copies ----

  lemma SplicedNext(mem: seq<Byte>, at: nat, s: seq<Byte>, from: nat, k: nat)
    requires from + k < |s| && at + k < |mem|
    ensures Spliced(mem, at, s[from..from + k + 1]) == Spliced(mem, at, s[from..from + k])[at + k := s[from + k]]
  {
  }

  lemma SplicedNothing(mem: seq<Byte>, at: nat, s: seq<Byte>, from: nat)
    requires at <= |mem| && from <= |s|
    ensures Spliced(mem, at, s[from..from]) == mem
  {
  }

  method Memcpy(dst: array<Byte>, at: nat, src: array<Byte>, from: nat, n: nat)
    requires dst != src && at + n <= dst.Length && from + n <= src.Length
    modifies dst
    ensures dst[..] == Spliced(old(dst[..]), at, src[from..from + n])
  {
    hide Spliced;
    SplicedNothing(dst[..], at, src[..], from);
    for i := 0 to n
      invariant dst[..] == Spliced(old(dst[..]), at, src[..][from..from + i])
    {
      SplicedNext(old(dst[..]), at, src[..], from, i);
      dst[at + i] := src[from + i];
    }
    assert src[..][from..from + n] == src[from..from + n];
  }

  method CopyRows(mem: array<Byte>, stride: nat, packed: array<Byte>, off: nat, rowBytes: nat, rows: nat, toMem: bool)
    requires mem != packed && Fits(mem.Length, stride, rowBytes, rows) && off + Start(rowBytes, rows) <= packed.Length
    modifies if toMem then {mem} else {packed}
    ensures mem[..] == if toMem then Strided(old(mem[..]), stride, old(packed[..]), off, rowBytes, rows) else old(mem[..])
    ensures packed[..] == if toMem then old(packed[..]) else Spliced(old(packed[..]), off, Packed(old(mem[..]), stride, rowBytes, rows))
  {
    hide Strided, Packed, Spliced, Fits, Start;
    if stride == rowBytes {
      CopyBlock(mem, packed, off, rowBytes, rows, toMem);
    } else if toMem {
      LayRows(mem, stride, packed, off, rowBytes, rows);
    } else {
      GatherRows(mem, stride, packed, off, rowBytes, rows);
    }
  }

  method CopyBlock(mem: array<Byte>, packed: array<Byte>, off: nat, rowBytes: nat, rows: nat, toMem: bool)
    requires mem != packed && Fits(mem.Length, rowBytes, rowBytes, rows) && off + Start(rowBytes, rows) <= packed.Length
    modifies if toMem then {mem} else {packed}
    ensures mem[..] == if toMem then Strided(old(mem[..]), rowBytes, old(packed[..]), off, rowBytes, rows) else old(mem[..])
    ensures packed[..] == if toMem then old(packed[..]) else Spliced(old(packed[..]), off, Packed(old(mem[..]), rowBytes, rowBytes, rows))
  {
    TightRows(mem[..], packed[..], off, rowBytes, rows);
    hide Strided, Packed, Spliced;
    if toMem {
      Memcpy(mem, 0, packed, off, rows * rowBytes);
    } else {
      Memcpy(packed, off, mem, 0, rows * rowBytes);
    }
  }

  method LayRows(mem: array<Byte>, stride: nat, packed: array<Byte>, off: nat, rowBytes: nat, rows: nat)
    requires mem != packed && Fits(mem.Length, stride, rowBytes, rows) && off + Start(rowBytes, rows) <= packed.Length
    modifies mem
    ensures mem[..] == Strided(old(mem[..]), stride, packed[..], off, rowBytes, rows)
  {
    hide Spliced;
    for r := 0 to rows
      invariant RowFits(mem.Length, stride, packed.Length, off, rowBytes, r)
      invariant mem[..] == Strided(old(mem[..]), stride, packed[..], off, rowBytes, r)
    {
      RowOfMany(mem.Length, stride, packed.Length, off, rowBytes, rows, r);
      hide Start;
      ghost var from := off + Start(rowBytes, r);
      Memcpy(mem, Start(stride, r), packed, off + Start(rowBytes, r), rowBytes);
      StridedStep(old(mem[..]), stride, packed[..], off, rowBytes, r);
      assert packed[..][from..from + rowBytes] == packed[from..from + rowBytes];
    }
  }

  predicate RowFits(len: nat, stride: nat, packed: nat, off: nat, rowBytes: nat, rows: nat) {
    Fits(len, stride, rowBytes, rows) && off + Start(rowBytes, rows) <= packed
  }

  lemma RowOfMany(len: nat, stride: nat, packed: nat, off: nat, rowBytes: nat, rows: nat, r: nat)
    requires RowFits(len, stride, packed, off, rowBytes, rows) && r < rows
    ensures RowFits(len, stride, packed, off, rowBytes, r + 1)
    ensures Start(stride, r) + rowBytes <= len && off + Start(rowBytes, r) + rowBytes <= packed
  {
    hide Start;
    NextStart(rowBytes, r);
    StartsAscend(rowBytes, r, rows);
    if r < rows - 1 { StartsAscend(stride, r, rows - 1); }
  }

  lemma StridedStep(mem: seq<Byte>, stride: nat, packed: seq<Byte>, off: nat, rowBytes: nat, r: nat)
    requires RowFits(|mem|, stride, |packed|, off, rowBytes, r) && RowFits(|mem|, stride, |packed|, off, rowBytes, r + 1)
    requires Start(stride, r) + rowBytes <= |mem| && off + Start(rowBytes, r) + rowBytes <= |packed|
    ensures Strided(mem, stride, packed, off, rowBytes, r + 1) ==
      Spliced(Strided(mem, stride, packed, off, rowBytes, r), Start(stride, r),
              packed[off + Start(rowBytes, r)..off + Start(rowBytes, r) + rowBytes])
  {
  }

  method GatherRows(mem: array<Byte>, stride: nat, packed: array<Byte>, off: nat, rowBytes: nat, rows: nat)
    requires mem != packed && Fits(mem.Length, stride, rowBytes, rows) && off + Start(rowBytes, rows) <= packed.Length
    modifies packed
    ensures packed[..] == Spliced(old(packed[..]), off, Packed(mem[..], stride, rowBytes, rows))
  {
    hide Spliced, Packed;
    NoRows(mem[..], stride, rowBytes);
    SpliceNothing(packed[..], off);
    for r := 0 to rows
      invariant RowFits(mem.Length, stride, packed.Length, off, rowBytes, r)
      invariant packed[..] == Spliced(old(packed[..]), off, Packed(mem[..], stride, rowBytes, r))
    {
      RowOfMany(mem.Length, stride, packed.Length, off, rowBytes, rows, r);
      hide Start;
      ghost var got := Packed(mem[..], stride, rowBytes, r);
      Memcpy(packed, off + Start(rowBytes, r), mem, Start(stride, r), rowBytes);
      PackedStep(mem[..], stride, rowBytes, r);
      SpliceOn(old(packed[..]), off, got, mem[Start(stride, r)..Start(stride, r) + rowBytes]);
      assert mem[..][Start(stride, r)..Start(stride, r) + rowBytes] == mem[Start(stride, r)..Start(stride, r) + rowBytes];
    }
  }

  lemma PackedStep(mem: seq<Byte>, stride: nat, rowBytes: nat, r: nat)
    requires Fits(|mem|, stride, rowBytes, r) && Fits(|mem|, stride, rowBytes, r + 1) && Start(stride, r) + rowBytes <= |mem|
    ensures Packed(mem, stride, rowBytes, r + 1) == Packed(mem, stride, rowBytes, r) + mem[Start(stride, r)..Start(stride, r) + rowBytes]
  {
  }

  lemma SpliceAll(s: seq<Byte>, piece: seq<Byte>)
    requires |piece| == |s|
    ensures Spliced(s, 0, piece) == piece
  {
  }

  lemma NoRows(mem: seq<Byte>, stride: nat, rowBytes: nat)
    requires rowBytes <= stride
    ensures Packed(mem, stride, rowBytes, 0) == []
  {
  }

  lemma SpliceNothing(s: seq<Byte>, at: nat)
    requires at <= |s|
    ensures Spliced(s, at, []) == s
  {
  }

  lemma SpliceOn(s: seq<Byte>, at: nat, a: seq<Byte>, b: seq<Byte>)
    requires at + |a| + |b| <= |s|
    ensures Spliced(Spliced(s, at, a), at + |a|, b) == Spliced(s, at, a + b)
  {
  }

  // ---- the pool ----

  // The shape an image of the pool's format must have.
  predicate Shaped(fmt: Format, width: nat, height: nat, img: Mat) {
    match fmt
    case Nv12 => img.channels == 1 && img.rows == height * 3 / 2 && img.cols == width
    case Rgb24 => img.channels == 3 && img.rows == height && img.cols == width
    case Argb => img.channels == 4 && img.rows == height && img.cols == width
    case Gray8 => img.channels == 1 && img.rows == height && img.cols == width
  }

  /** The image of a format: as wide as the pool, as many rows as it is high, half as many again in nv12. */
  lemma ShapedExactly(fmt: Format, width: nat, height: nat, img: Mat)
    ensures Shaped(fmt, width, height, img) <==>
      && img.cols == width && img.rows == height + (if fmt.Nv12? then height / 2 else 0)
      && img.channels == if fmt.Rgb24? then 3 else if fmt.Argb? then 4 else 1
  {
  }

  predicate Whole(img: Mat) { |img.bytes| == Start(img.cols * img.channels, img.rows) }

  lemma PlanesFillImage(fmt: Format, width: nat, height: nat, img: Mat)
    requires Shaped(fmt, width, height, img) && Whole(img)
    ensures var spec := PlaneRowsOf(fmt, width, height);
      && Start(spec[0].rowBytes, spec[0].rows) <= |img.bytes|
      && (fmt.Nv12? ==> Start(width, height) + Start(width, height / 2) == |img.bytes|)
      && (!fmt.Nv12? ==> Start(spec[0].rowBytes, spec[0].rows) == |img.bytes|)
  {
    if fmt.Nv12? {
      assert height * 3 / 2 == height + height / 2;
      Sums(width, height, height / 2);
    }
  }

  lemma Sums(w: nat, a: nat, b: nat)
    ensures Start(w, a + b) == Start(w, a) + Start(w, b)
  {
  }

  class DspBufferPool {
    const fmt: Format
    const width: nat
    const height: nat
    const count: nat
    const strides: seq<nat>
    const planes: seq<array<Byte>>    // the mapped memory, slot by slot, plane by plane
    var released: bool

    // Every plane is its own memory, large enough for its rows at its stride.
    ghost predicate Valid() {
      && |strides| == PlaneCount(fmt) && |planes| == count * PlaneCount(fmt)
      && (forall i, j | 0 <= i < j < |planes| :: planes[i] != planes[j])
      && forall i | 0 <= i < |planes| :: PlaneFits(planes[i].Length, i % PlaneCount(fmt))
    }

    predicate PlaneFits(len: nat, p: nat)
      requires |strides| == PlaneCount(fmt) && p < PlaneCount(fmt)
    {
      var spec := PlaneRowsOf(fmt, width, height)[p];
      Fits(len, strides[p], spec.rowBytes, spec.rows)
    }

    constructor (fmt: Format, width: nat, height: nat, count: nat, strides: seq<nat>, planes: seq<array<Byte>>)
      ensures this.fmt == fmt && this.width == width && this.height == height && this.count == count
      ensures this.strides == strides && this.planes == planes && !released
    {
      this.fmt, this.width, this.height, this.count := fmt, width, height, count;
      this.strides, this.planes, released := strides, planes, false;
    }

    predicate Owns(index: int) { 0 <= index < count }

    lemma PlaneOfSlot(index: nat, p: nat)
      requires Valid() && Owns(index) && p < PlaneCount(fmt)
      ensures index * PlaneCount(fmt) + p < |planes| && PlaneFits(planes[index * PlaneCount(fmt) + p].Length, p)
    {
      PlaceBelow(PlaneCount(fmt), count, index, p);
      Unique(index * PlaneCount(fmt) + p, PlaneCount(fmt), index, p);
    }

    // Where plane p of a slot is among the planes.
    function PlaneAt(index: nat, p: nat): (k: nat)
      requires Valid() && Owns(index) && p < PlaneCount(fmt)
      ensures k < |planes| && PlaneFits(planes[k].Length, p)
    {
      PlaneOfSlot(index, p);
      index * PlaneCount(fmt) + p
    }

    lemma PlanesDiffer(index: nat)
      requires Valid() && Owns(index) && fmt.Nv12?
      ensures PlaneAt(index, 0) != PlaneAt(index, 1) && planes[PlaneAt(index, 0)] != planes[PlaneAt(index, 1)]
    {
      var a, b := PlaneAt(index, 0), PlaneAt(index, 1);
      assert a == b - 1;
    }

    // The packed bytes of one of a slot's planes.
    ghost function PlaneBytes(index: nat, p: nat): seq<Byte>
      requires Valid() && Owns(index) && p < PlaneCount(fmt)
      reads planes[PlaneAt(index, p)]
    {
      var spec := PlaneRowsOf(fmt, width, height)[p];
      Packed(planes[PlaneAt(index, p)][..], strides[p], spec.rowBytes, spec.rows)
    }

    ghost function SlotBytes(index: nat): seq<Byte>
      requires Valid() && Owns(index)
      reads planes
    {
      if fmt.Nv12? then PlaneBytes(index, 0) + PlaneBytes(index, 1) else PlaneBytes(index, 0)
    }

    // The image's bytes in the slot's planes: in nv12 its first height rows of width bytes are the rows of the
    // slot's first plane, the half as many behind them those of its second; in the other formats its rows,
    // of 3, 4 or 1 bytes a pixel, are those of the only plane.
    ghost predicate InPlace(index: int, bytes: seq<Byte>)
      reads planes
    {
      if fmt.Nv12? then
        && |strides| == 2 && 0 <= 2 * index < 2 * index + 1 < |planes|
        && RowsLie(planes[2 * index][..], strides[0], bytes, 0, width, height)
        && RowsLie(planes[2 * index + 1][..], strides[1], bytes, width * height, width, height / 2)
      else
        && |strides| == 1 && 0 <= index < |planes|
        && RowsLie(planes[index][..], strides[0], bytes, 0, if fmt.Rgb24? then 3 * width else if fmt.Argb? then 4 * width else width, height)
    }

    lemma SlotIsInPlace(index: nat, bytes: seq<Byte>)
      requires Valid() && Owns(index) && SlotBytes(index) == bytes
      ensures InPlace(index, bytes)
    {
      hide Start, Packed, RowsLie, Fits;
      PlaneOfSlot(index, 0);
      var first := PlaneBytes(index, 0);
      PackedRows(planes[PlaneAt(index, 0)][..], strides[0], PlaneRowsOf(fmt, width, height)[0].rowBytes, height);
      assert bytes[0..|first|] == first;
      RowsMoved(planes[PlaneAt(index, 0)][..], strides[0], first, bytes, 0, PlaneRowsOf(fmt, width, height)[0].rowBytes, height);
      if fmt.Nv12? {
        PlaneOfSlot(index, 1);
        var second := PlaneBytes(index, 1);
        PackedRows(planes[PlaneAt(index, 1)][..], strides[1], width, height / 2);
        StartIs(width, height);
        assert bytes[|first|..|first| + |second|] == second;
        RowsMoved(planes[PlaneAt(index, 1)][..], strides[1], second, bytes, width * height, width, height / 2);
      }
    }

    // Byte b of plane p is in a row, not in padding.
    ghost predicate Painted(p: nat, b: nat)
      requires |strides| == PlaneCount(fmt) && p < PlaneCount(fmt)
    {
      InRows(strides[p], PlaneRowsOf(fmt, width, height)[p].rowBytes, PlaneRowsOf(fmt, width, height)[p].rows, b)
    }

    method WritePlane(index: nat, p: nat, packed: array<Byte>, off: nat)
      requires Valid() && Owns(index) && p < PlaneCount(fmt) && packed !in planes
      requires var spec := PlaneRowsOf(fmt, width, height)[p]; off + Start(spec.rowBytes, spec.rows) <= packed.Length
      modifies planes[PlaneAt(index, p)]
      ensures var spec := PlaneRowsOf(fmt, width, height)[p];
        PlaneBytes(index, p) == packed[off..off + Start(spec.rowBytes, spec.rows)]
      ensures forall b: nat | b < planes[PlaneAt(index, p)].Length && !Painted(p, b) ::
        planes[PlaneAt(index, p)][b] == old(planes[PlaneAt(index, p)][b])
    {
      hide Start, Strided, Packed, Spliced, InRows;
      var spec, mem := PlaneRowsOf(fmt, width, height)[p], planes[PlaneAt(index, p)];
      ghost var was := mem[..];
      CopyRows(mem, strides[p], packed, off, spec.rowBytes, spec.rows, true);
      RowsReadBack(was, strides[p], packed[..], off, spec.rowBytes, spec.rows);
      forall b: nat | b < mem.Length && !Painted(p, b) ensures mem[b] == was[b] {
        PaddingUntouched(was, strides[p], packed[..], off, spec.rowBytes, spec.rows, b);
        assert mem[..][b] == mem[b];
      }
    }

    // Plane k is not one of the slot's.
    predicate Foreign(index: int,
          k: nat) { !(Owns(index) && index * PlaneCount(fmt) <= k < (index + 1) * PlaneCount(fmt)) }

    /** After a write the slot's rows are the image; the padding behind its rows and every plane of
        every other slot are as they were. */
    method Write(index: int, img: Mat) returns (r: Result<(), Error>)
      requires Valid() && Whole(img)
      modifies planes
      ensures r == if released then Err(Released) else if !Owns(index) then Err(BadIndex)
                   else if !Shaped(fmt, width, height, img) then Err(BadShape) else Ok(())
      ensures r.Ok? ==> SlotBytes(index) == img.bytes && InPlace(index, img.bytes)
      ensures forall k | 0 <= k < |planes| && (r.Err? || Foreign(index, k)) :: planes[k][..] == old(planes[k][..])
      ensures r.Ok? ==> forall p, b: nat | 0 <= p < PlaneCount(fmt) && b < planes[PlaneAt(index, p)].Length && !Painted(p, b) ::
        planes[PlaneAt(index, p)][b] == old(planes[PlaneAt(index, p)][b])
    {
      if released { return Err(Released); }
      if index < 0 || index >= count { return Err(BadIndex); }
      if !Shaped(fmt, width, height, img) { return Err(BadShape); }
      hide Start, Packed, Painted, Shaped, Fits, InPlace;
      WriteImage(index, img);
      SlotIsInPlace(index, img.bytes);
      r := Ok(());
    }

    method WriteImage(index: nat, img: Mat)
      requires Valid() && Whole(img) && Owns(index) && Shaped(fmt, width, height, img)
      modifies planes
      ensures SlotBytes(index) == img.bytes
      ensures forall k | 0 <= k < |planes| && Foreign(index, k) :: planes[k][..] == old(planes[k][..])
      ensures forall p, b: nat | 0 <= p < PlaneCount(fmt) && b < planes[PlaneAt(index, p)].Length && !Painted(p, b) ::
        planes[PlaneAt(index, p)][b] == old(planes[PlaneAt(index, p)][b])
    {
      hide Start, Packed, Painted, Shaped, Fits;
      PlanesFillImage(fmt, width, height, img);
      var packed := new Byte[|img.bytes|](i requires 0 <= i < |img.bytes| => img.bytes[i]);
      assert packed[..] == img.bytes;
      WritePlane(index, 0, packed, 0);
      if fmt.Nv12? {
        PlanesDiffer(index);
        WritePlane(index, 1, packed, Start(width, height));
      }
    }

    /** Reading a slot gives its rows, in the format's shape, and changes nothing. */
    method Read(index: int) returns (r: Result<Mat, Error>)
      requires Valid()
      ensures r.Err? <==> released || !Owns(index)
      ensures released ==> r == Err(Released)
      ensures !released && !Owns(index) ==> r == Err(BadIndex)
      ensures r.Ok? ==> Shaped(fmt, width, height, r.value) && r.value.bytes == SlotBytes(index) && InPlace(index, r.value.bytes)
    {
      if released { return Err(Released); }
      if index < 0 || index >= count { return Err(BadIndex); }
      var spec := PlaneRowsOf(fmt, width, height);
      var channels := if fmt.Rgb24? then 3 else if fmt.Argb? then 4 else 1;
      var rows := if fmt.Nv12? then height * 3 / 2 else height;
      hide Start, Packed, Strided, Spliced, InPlace;
      var size := Start(spec[0].rowBytes, spec[0].rows) + if fmt.Nv12? then Start(spec[1].rowBytes, spec[1].rows) else 0;
      var out := new Byte[size];
      ghost var blank := out[..];
      ReadPlane(index, 0, out, 0);
      if !fmt.Nv12? { SpliceAll(blank, PlaneBytes(index, 0)); }
      if fmt.Nv12? {
        ReadPlane(index, 1, out, Start(spec[0].rowBytes, spec[0].rows));
        SpliceTwice(blank, PlaneBytes(index, 0), PlaneBytes(index, 1));
        SpliceAll(blank, PlaneBytes(index, 0) + PlaneBytes(index, 1));
      }
      SlotIsInPlace(index, out[..]);
      r := Ok(Mat(rows, width, channels, out[..]));
    }

    method ReadPlane(index: nat, p: nat, out: array<Byte>, off: nat)
      requires Valid() && Owns(index) && p < PlaneCount(fmt) && out !in planes
      requires var spec := PlaneRowsOf(fmt, width, height)[p]; off + Start(spec.rowBytes, spec.rows) <= out.Length
      modifies out
      ensures off + |PlaneBytes(index, p)| <= out.Length
      ensures out[..] == Spliced(old(out[..]), off, PlaneBytes(index, p))
    {
      hide Start, Packed, Strided, Spliced;
      var spec := PlaneRowsOf(fmt, width, height)[p];
      CopyRows(planes[PlaneAt(index, p)], strides[p], out, off, spec.rowBytes, spec.rows, false);
    }

    /** Reading after a write returns the written image, for all four formats and any strides. */
    method WriteThenRead(index: int, img: Mat) returns (r: Result<Mat, Error>)
      requires Valid() && Whole(img)
      modifies planes
      ensures r == if released then Err(Released) else if !Owns(index) then Err(BadIndex)
                   else if !Shaped(fmt, width, height, img) then Err(BadShape) else Ok(img)
    {
      var w := Write(index, img);
      if w.Err? { return Err(w.error); }
      r := Read(index);
    }
  }
}
