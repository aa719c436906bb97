/** The suppression loop and the YOLO finish as they run: an overlap matrix, class pairs zeroed, a
    suppressed flag per box (cpp/src/postprocess.cpp:71-195). */
module NmsCode {
  import opened Wrappers
  import opened Sequences
  import opened Nms
  import opened NmsLaws
  import opened NmsFinish

  // What the matrix holds once the rows below i are filled.
  function Cell(boxes: seq<Box>, i: int, p: int, q: int): real
    requires 0 <= p < |boxes| && 0 <= q < |boxes|
  {
    if p == q || (p >= i && q >= i) then 0.0 else Iou(boxes[p], boxes[q])
  }

  method FillOverlaps(boxes: seq<Box>) returns (iou: array2<real>)
    ensures fresh(iou) && iou.Length0 == iou.Length1 == |boxes|
    ensures forall p, q | 0 <= p < |boxes| && 0 <= q < |boxes| :: iou[p, q] == Overlap(boxes, None, p, q)
  {
    hide Iou, PairOverlap;
    var n := |boxes|;
    var area := new real[n];
    for i := 0 to n
      invariant forall p | 0 <= p < i :: area[p] == Area(boxes[p])
    {
      var b := boxes[i];
      area[i] := MaxR(b.x2 - b.x1, 0.0) * MaxR(b.y2 - b.y1, 0.0);
    }
    iou := new real[n, n]((_, _) => 0.0);
    for i := 0 to n
      invariant forall p | 0 <= p < n :: area[p] == Area(boxes[p])
      invariant forall p, q | 0 <= p < n && 0 <= q < n :: iou[p, q] == Cell(boxes, i, p, q)
    {
      for j := i + 1 to n
        invariant forall p | 0 <= p < n :: area[p] == Area(boxes[p])
        invariant forall p, q | 0 <= p < n && 0 <= q < n ::
          iou[p, q] == if (p == i && i < q < j) || (q == i && i < p < j) then Iou(boxes[p], boxes[q]) else Cell(boxes, i, p, q)
      {
        var v := PairOverlap(boxes[i], boxes[j], area[i], area[j]);
        PairIsIou(boxes[i], boxes[j]);
        iou[i, j] := v;
        iou[j, i] := v;
      }
    }
  }

  function PairOverlap(a: Box, b: Box, areaA: real, areaB: real): real {
    var iw := MinR(a.x2, b.x2) - MaxR(a.x1, b.x1);
    var ih := MinR(a.y2, b.y2) - MaxR(a.y1, b.y1);
    var inter := MaxR(iw, 0.0) * MaxR(ih, 0.0);
    var union := areaA + areaB - inter;
    if union > 0.0 then inter / union else 0.0
  }

  lemma PairIsIou(a: Box, b: Box)
    ensures PairOverlap(a, b, Area(a), Area(b)) == Iou(a, b) == Iou(b, a)
  {
    hide Area, MaxR, MinR;
    IouSymmetric(a, b);
  }

  method ZeroAcrossClasses(iou: array2<real>, boxes: seq<Box>, classes: seq<int>)
    requires iou.Length0 == iou.Length1 == |boxes| == |classes|
    requires forall p, q | 0 <= p < |boxes| && 0 <= q < |boxes| :: iou[p, q] == Overlap(boxes, None, p, q)
    modifies iou
    ensures forall p, q | 0 <= p < |boxes| && 0 <= q < |boxes| :: iou[p, q] == Overlap(boxes, Some(classes), p, q)
  {
    hide Iou;
    var n := |boxes|;
    for i := 0 to n
      invariant forall p, q | 0 <= p < n && 0 <= q < n ::
        iou[p, q] == Overlap(boxes, if p < i then Some(classes) else None, p, q)
    {
      for j := 0 to n
        invariant forall p, q | 0 <= p < n && 0 <= q < n ::
          iou[p, q] == Overlap(boxes, if p < i || (p == i && q < j) then Some(classes) else None, p, q)
      {
        if classes[i] != classes[j] { iou[i, j] := 0.0; }
      }
    }
  }

  // The visit: a kept box strikes every box it overlaps, and itself.
  method Visit(order: seq<int>, iou: array2<real>, threshold: real, hits: (int, int) -> bool) returns (keep: seq<int>)
    requires iou.Length0 == iou.Length1 && Distinct(order)
    requires forall i | i in order :: 0 <= i < iou.Length0
    requires forall p, q | 0 <= p < iou.Length0 && 0 <= q < iou.Length0 :: hits(p, q) <==> iou[p, q] > threshold
    ensures keep == Greedy(order, hits)
  {
    hide Greedy, Struck;
    NothingStrikes(hits);
    var n := iou.Length0;
    var suppressed := new bool[n](_ => false);
    keep := [];
    assert Greedy(order[..0], hits) == [] by { EmptyGreedy(hits); }
    for k := 0 to |order|
      invariant keep == Greedy(order[..k], hits)
      invariant forall j | 0 <= j < n :: suppressed[j] <==> j in keep || Struck(keep, hits, j)
    {
      var idx := order[k];
      assert idx in order;
      GreedyAppend(order[..k], idx, hits);
      assert order[..k + 1] == order[..k] + [idx];
      FirstMeeting(order, hits, k);
      StruckAppend(keep, idx, hits);
      if !suppressed[idx] {
        ghost var before := keep;
        keep := keep + [idx];
        for j := 0 to n
          invariant forall q | 0 <= q < n ::
            suppressed[q] <==> q in before || Struck(before, hits, q) || (q < j && hits(idx, q))
        {
          if iou[idx, j] > threshold { suppressed[j] := true; }
        }
        suppressed[idx] := true;
      }
    }
    assert order[..|order|] == order;
  }

  lemma EmptyGreedy(hits: (int, int) -> bool)
    ensures Greedy([], hits) == []
  {
  }

  lemma NothingStrikes(hits: (int, int) -> bool)
    ensures forall j :: !Struck([], hits, j)
  {
  }

  lemma StruckAppend(keep: seq<int>, x: int, hits: (int, int) -> bool)
    ensures forall j :: Struck(keep + [x], hits, j) <==> Struck(keep, hits, j) || hits(x, j)
  {
    forall j ensures Struck(keep + [x], hits, j) <==> Struck(keep, hits, j) || hits(x, j) {
      if hits(x, j) { assert x in keep + [x]; }
      if Struck(keep, hits, j) {
        var k :| k in keep && hits(k, j);
        assert k in keep + [x];
      }
    }
  }

  lemma FirstMeeting(order: seq<int>, hits: (int, int) -> bool, k: nat)
    requires Distinct(order) && k < |order|
    ensures order[k] !in Greedy(order[..k], hits)
  {
    GreedyMembers(order[..k], hits);
    forall i | 0 <= i < k ensures order[..k][i] != order[k] {}
  }

  /** The matrix form computes the greedy rule, errors in the source's order. */
  method RunNms(boxes: seq<Box>, scores: seq<real>, threshold: real, classes: Option<seq<int>>)
    returns (r: Result<seq<int>, Error>)
    ensures r == Suppress(boxes, scores, threshold, classes)
    ensures r.Ok? && boxes != [] ==> SuppressedRight(boxes, scores, threshold, classes, r.value)
  {
    SuppressIsRight(boxes, scores, threshold, classes);
    hide SuppressedRight;
    if |boxes| != |scores| { return Err(ScoreLength); }
    if |boxes| == 0 { return Ok([]); }
    if !(0.0 <= threshold <= 1.0) { return Err(Threshold); }
    var iou := FillOverlaps(boxes);
    if classes.Some? {
      if |classes.value| != |boxes| { return Err(ClassLength); }
      ZeroAcrossClasses(iou, boxes, classes.value);
    }
    hide Greedy, Sorted, Overlap;
    OrderDescends(scores);
    var keep := Visit(Order(scores), iou, threshold, Hits(boxes, classes, threshold));
    r := Ok(keep);
  }

  lemma GatherNothing<T>(s: seq<T>)
    ensures Gather(s, []) == []
  {
  }

  lemma GatherAppend<T>(s: seq<T>, sel: seq<int>, i: nat)
    requires i < |s| && forall k | k in sel :: 0 <= k < |s|
    ensures Gather(s, sel + [i]) == Gather(s, sel) + [s[i]]
  {
    assert forall k | 0 <= k < |sel| :: (sel + [i])[k] == sel[k];
  }

  lemma GatherSelected<T>(s: seq<T>, i: nat, p: int -> bool)
    requires i < |s|
    ensures Gather(s, Selected(i + 1, p)) == if p(i) then Gather(s, Selected(i, p)) + [s[i]] else Gather(s, Selected(i, p))
  {
    hide Selected, Gather;
    SelectedStep(i, p);
    if p(i) { GatherAppend(s, Selected(i, p), i); }
  }

  // What passes among the first n entries.
  function Passed<T>(s: seq<T>, scores: seq<real>, least: real, n: nat): seq<T>
    requires n <= |scores| == |s|
  {
    Gather(s, Selected(n, Passing(scores, least)))
  }

  lemma PassedStep<T>(s: seq<T>, scores: seq<real>, least: real, i: nat)
    requires i < |scores| == |s|
    ensures Passed(s, scores, least, i + 1) == Passed(s, scores, least, i) + if scores[i] >= least then [s[i]] else []
  {
    GatherSelected(s, i, Passing(scores, least));
  }

  lemma PassedNone<T>(s: seq<T>, scores: seq<real>, least: real)
    requires |scores| == |s|
    ensures Passed(s, scores, least, 0) == []
  {
    SelectedStep(0, Passing(scores, least));
    GatherNothing(s);
  }

  method KeepHighScores(boxes: seq<Box>, scores: seq<real>, classes: seq<int>, least: real)
    returns (bs: seq<Box>, ss: seq<real>, cs: seq<int>)
    requires |boxes| == |scores| == |classes|
    ensures bs == Passed(boxes, scores, least, |scores|) && ss == Passed(scores, scores, least, |scores|)
    ensures cs == Passed(classes, scores, least, |scores|)
  {
    hide Passed;
    bs, ss, cs := [], [], [];
    PassedNone(boxes, scores, least);
    PassedNone(scores, scores, least);
    PassedNone(classes, scores, least);
    for i := 0 to |scores|
      invariant bs == Passed(boxes, scores, least, i) && ss == Passed(scores, scores, least, i)
      invariant cs == Passed(classes, scores, least, i)
    {
      PassedStep(boxes, scores, least, i);
      PassedStep(scores, scores, least, i);
      PassedStep(classes, scores, least, i);
      if scores[i] >= least {
        bs, ss, cs := bs + [boxes[i]], ss + [scores[i]], cs + [classes[i]];
      }
    }
  }

  /** Score filter, suppression, mapping back, clipping: the objects are those of the plain reading,
      which suppresses first and filters afterwards. */
  method Finish(boxes: seq<Box>, scores: seq<real>, classes: seq<int>, least: real, threshold: real,
                meta: Option<Meta>, clip: bool) returns (r: Result<seq<Object>, Error>)
    requires |boxes| == |scores| == |classes|
    ensures r == Finished(boxes, scores, classes, least, threshold, meta, clip)
  {
    var bs, ss, cs := KeepHighScores(boxes, scores, classes, least);
    hide Selected, Gather, Kept, Finished, Objects, Suppress;
    var kept := RunNms(bs, ss, threshold, Some(cs));
    FilteringFirst(boxes, scores, classes, least, threshold, meta, clip);
    if kept.Err? { return Err(kept.error); }
    var objects := CollectObjects(kept.value, bs, ss, cs, meta, clip);
    r := Ok(objects);
  }

  // What is left of finish once the score filter has run, against the plain reading.
  lemma FilteringFirst(boxes: seq<Box>, scores: seq<real>, classes: seq<int>, least: real, threshold: real,
                       meta: Option<Meta>, clip: bool)
    requires |boxes| == |scores| == |classes|
    ensures var sel := Selected(|scores|, Passing(scores, least));
      var (bs, ss, cs) := (Gather(boxes, sel), Gather(scores, sel), Gather(classes, sel));
      var kept := Suppress(bs, ss, threshold, Some(cs));
      && Finished(boxes, scores, classes, least, threshold, meta, clip).Err? == kept.Err?
      && (kept.Err? ==> Finished(boxes, scores, classes, least, threshold, meta, clip) == Err(kept.error))
      && (kept.Ok? ==>
          && (forall k | 0 <= k < |kept.value| :: 0 <= kept.value[k] < |bs|)
          && Finished(boxes, scores, classes, least, threshold, meta, clip) == Ok(Objects(kept.value, bs, ss, cs, meta, clip)))
  {
    var sel := Selected(|scores|, Passing(scores, least));
    if sel != [] && 0.0 <= threshold <= 1.0 {
      var bs, ss, cs := Gather(boxes, sel), Gather(scores, sel), Gather(classes, sel);
      var kept := Kept(bs, ss, threshold, Some(cs));
      hide Selected, Kept, Gather, Objects;
      forall k | 0 <= k < |kept| ensures 0 <= kept[k] < |bs| {
        var i := kept[k];
        assert i in kept;
      }
      ThresholdCommutes(boxes, scores, threshold, classes, least);
      ObjectsThrough(kept, sel, boxes, scores, classes, meta, clip);
    }
  }

  lemma SelectedStep(n: nat, p: int -> bool)
    ensures Selected(0, p) == []
    ensures Selected(n + 1, p) == if p(n) then Selected(n, p) + [n] else Selected(n, p)
  {
    assert Range(0, n + 1) == Range(0, n) + [n];
    FilterAppend(Range(0, n), n, p);
  }

  method CollectObjects(kept: seq<int>, boxes: seq<Box>, scores: seq<real>, classes: seq<int>, meta: Option<Meta>,
          clip: bool)
    returns (objects: seq<Object>)
    requires |boxes| == |scores| == |classes| && forall i | 0 <= i < |kept| :: 0 <= kept[i] < |boxes|
    ensures objects == Objects(kept, boxes, scores, classes, meta, clip)
  {
    objects := [];
    for k := 0 to |kept|
      invariant objects == Objects(kept[..k], boxes, scores, classes, meta, clip)
    {
      var i := kept[k];
      assert kept[..k + 1][..k] == kept[..k];
      var b := boxes[i];
      if meta.Some? {
        b := meta.value.toSource(b);
        if clip {
          b := Box(MaxR(0.0, b.x1), MaxR(0.0, b.y1), MinR(meta.value.width, b.x2), MinR(meta.value.height, b.y2));
          if b.x2 - b.x1 <= 0.0 || b.y2 - b.y1 <= 0.0 { continue; }
        }
      }
      objects := objects + [Detected(b, scores[i], classes[i])];
    }
    assert kept[..|kept|] == kept;
  }
}
