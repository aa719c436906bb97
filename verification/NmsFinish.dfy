/** The objects the YOLO post-processor returns (cpp/src/postprocess.cpp:149-195): as a function, and
    told in scores and coordinates. */
module NmsFinish {
  import opened Wrappers
  import opened Sequences
  import opened Nms
  import opened NmsLaws

  // Where the frame came from: the letterbox inverse (not part of this model) and the source size.
  datatype Meta = Meta(toSource: Box -> Box, width: real, height: real)
  datatype Object = Object(score: real, x: real, y: real, width: real, height: real, classId: int)

  function Placed(b: Box, meta: Option<Meta>, clip: bool): Option<Box> {
    if meta.None? then Some(b)
    else
      var m := meta.value.toSource(b);
      if !clip then Some(m)
      else
        var c := Box(MaxR(0.0, m.x1), MaxR(0.0, m.y1), MinR(meta.value.width, m.x2), MinR(meta.value.height, m.y2));
        if c.x2 - c.x1 <= 0.0 || c.y2 - c.y1 <= 0.0 then None else Some(c)
  }

  function Detected(b: Box, score: real, classId: int): Object {
    Object(score, b.x1, b.y1, b.x2 - b.x1, b.y2 - b.y1, classId)
  }

  // The objects of the kept indices, in order, without those that fall into the padding.
  function Objects(kept: seq<int>, boxes: seq<Box>, scores: seq<real>, classes: seq<int>, meta: Option<Meta>,
          clip: bool): seq<Object>
    requires |boxes| == |scores| == |classes| && forall i | 0 <= i < |kept| :: 0 <= kept[i] < |boxes|
  {
    if kept == [] then []
    else
      var init, i := kept[..|kept| - 1], kept[|kept| - 1];
      var rest, placed := Objects(init, boxes, scores, classes, meta, clip), Placed(boxes[i], meta, clip);
      if placed.None? then rest else rest + [Detected(placed.value, scores[i], classes[i])]
  }

  // The plain reading: suppress everything, then drop what scores too low.
  function Finished(boxes: seq<Box>, scores: seq<real>, classes: seq<int>, least: real, threshold: real,
                    meta: Option<Meta>, clip: bool): Result<seq<Object>, Error>
    requires |boxes| == |scores| == |classes|
  {
    if Selected(|scores|, Passing(scores, least)) != [] && !(0.0 <= threshold <= 1.0) then Err(Threshold)
    else if Selected(|scores|, Passing(scores, least)) == [] then Ok([])
    else
      var kept := Kept(boxes, scores, threshold, Some(classes));
      FilterMembers(kept, Passing(scores, least));
      FilterWithin(kept, Passing(scores, least), |boxes|);
      Ok(Objects(Filter(kept, Passing(scores, least)), boxes, scores, classes, meta, clip))
  }

  lemma FilterWithin(s: seq<int>, p: int -> bool, n: nat)
    requires forall i | i in s :: 0 <= i < n
    ensures forall k | 0 <= k < |Filter(s, p)| :: 0 <= Filter(s, p)[k] < n
  {
    FilterMembers(s, p);
    forall k | 0 <= k < |Filter(s, p)| ensures 0 <= Filter(s, p)[k] < n {
      var i := Filter(s, p)[k];
      assert i in Filter(s, p);
    }
  }

  lemma {:induction false} ObjectsThrough(kept: seq<int>, sel: seq<int>, boxes: seq<Box>, scores: seq<real>,
                                          classes: seq<int>, meta: Option<Meta>, clip: bool)
    requires |boxes| == |scores| == |classes| && forall i | i in sel :: 0 <= i < |boxes|
    requires forall k | 0 <= k < |kept| :: 0 <= kept[k] < |sel|
    ensures forall k | 0 <= k < |kept| :: 0 <= Map(kept, Through(sel))[k] < |boxes|
    ensures Objects(kept, Gather(boxes, sel), Gather(scores, sel), Gather(classes, sel), meta, clip) ==
      Objects(Map(kept, Through(sel)), boxes, scores, classes, meta, clip)
  {
    forall k | 0 <= k < |kept| ensures 0 <= Map(kept, Through(sel))[k] < |boxes| {
      Contains(sel, kept[k]);
      var i := sel[kept[k]];
      assert i in sel;
    }
    if kept != [] {
      var init, i := kept[..|kept| - 1], kept[|kept| - 1];
      ObjectsThrough(init, sel, boxes, scores, classes, meta, clip);
      assert Map(kept, Through(sel))[..|kept| - 1] == Map(init, Through(sel));
    }
  }

  // ---- the same in scores and coordinates ----

  // Where the source's letterbox inverse puts a box.
  function Mapped(b: Box, meta: Option<Meta>): Box { if meta.Some? then meta.value.toSource(b) else b }

  // Clipping leaves something of the mapped box: it has some width and height inside the picture.
  predicate Shows(b: Box, meta: Option<Meta>, clip: bool) {
    meta.Some? && clip ==>
      var m := Mapped(b, meta);
      && m.x1 < m.x2 && m.y1 < m.y2 && 0.0 < m.x2 && 0.0 < m.y2
      && m.x1 < meta.value.width && m.y1 < meta.value.height && 0.0 < meta.value.width && 0.0 < meta.value.height
  }

  // v cut to 0..most.
  predicate Cut(v: real, low: bool, most: real, r: real) {
    if low then r == if v < 0.0 then 0.0 else v else r == if v > most then most else v
  }

  // The object's corners are those of the mapped box, cut to the picture when clipping.
  predicate Describes(o: Object, b: Box, score: real, classId: int, meta: Option<Meta>, clip: bool) {
    var m := Mapped(b, meta);
    && o.score == score && o.classId == classId
    && if meta.Some? && clip then
         && Cut(m.x1, true, 0.0, o.x) && Cut(m.y1, true, 0.0, o.y)
         && Cut(m.x2, false, meta.value.width, o.x + o.width) && Cut(m.y2, false, meta.value.height, o.y + o.height)
       else o.x == m.x1 && o.y == m.y1 && o.x + o.width == m.x2 && o.y + o.height == m.y2
  }

  lemma PlacedExactly(b: Box, score: real, classId: int, meta: Option<Meta>, clip: bool)
    ensures Placed(b, meta, clip).Some? <==> Shows(b, meta, clip)
    ensures Placed(b, meta, clip).Some? ==> Describes(Detected(Placed(b, meta, clip).value, score, classId), b, score, classId, meta, clip)
  {
  }

  // idxs are the indices behind the objects.
  ghost predicate Behind(idxs: seq<int>, objects: seq<Object>, boxes: seq<Box>, scores: seq<real>, classes: seq<int>,
                         meta: Option<Meta>, clip: bool)
    requires |boxes| == |scores| == |classes|
  {
    |idxs| == |objects| && forall k | 0 <= k < |idxs| ::
      0 <= idxs[k] < |boxes| && Describes(objects[k], boxes[idxs[k]], scores[idxs[k]], classes[idxs[k]], meta, clip)
  }

  function Showing(boxes: seq<Box>, meta: Option<Meta>, clip: bool): int -> bool {
    i => 0 <= i < |boxes| && Shows(boxes[i], meta, clip)
  }

  lemma {:induction false} ObjectsBehind(kept: seq<int>, boxes: seq<Box>, scores: seq<real>, classes: seq<int>,
                                         meta: Option<Meta>, clip: bool)
    requires |boxes| == |scores| == |classes| && forall i | 0 <= i < |kept| :: 0 <= kept[i] < |boxes|
    ensures Behind(Filter(kept, Showing(boxes, meta, clip)), Objects(kept, boxes, scores, classes, meta, clip), boxes, scores, classes, meta, clip)
  {
    if kept != [] {
      var init, i := kept[..|kept| - 1], kept[|kept| - 1];
      ObjectsBehind(init, boxes, scores, classes, meta, clip);
      PlacedExactly(boxes[i], scores[i], classes[i], meta, clip);
      hide Placed, Shows, Describes, Detected;
    }
  }

  lemma {:induction false} FilterDescends(score: int -> real, s: seq<int>, p: int -> bool)
    requires Descending(score, s)
    ensures Descending(score, Filter(s, p))
  {
    if s != [] {
      var k := |s| - 1;
      FilterDescends(score, s[..k], p);
      FilterMembers(s[..k], p);
      var rest := Filter(s[..k], p);
      forall q | 0 <= q < |rest| ensures Before(score, rest[q], s[k]) {
        assert rest[q] in rest;
        var i :| 0 <= i < k && s[..k][i] == rest[q];
      }
    }
  }

  // Some kept boxes are behind the objects: those of the right score that show, best score first.
  ghost predicate FinishedRight(boxes: seq<Box>, scores: seq<real>, classes: seq<int>, least: real, threshold: real,
                                meta: Option<Meta>, clip: bool, objects: seq<Object>)
    requires |boxes| == |scores| == |classes|
  {
    exists kept: seq<int>, idxs: seq<int> ::
      && KeptRight(boxes, scores, threshold, Some(classes), kept)
      && (forall i | 0 <= i < |boxes| :: i in idxs <==> i in kept && scores[i] >= least && Shows(boxes[i], meta, clip))
      && Behind(idxs, objects, boxes, scores, classes, meta, clip)
      && forall p, q | 0 <= p < q < |idxs| :: Outranks(scores, idxs[p], idxs[q])
  }

  /** The objects, told from the inputs alone. */
  lemma FinishedIsRight(boxes: seq<Box>, scores: seq<real>, classes: seq<int>, least: real, threshold: real,
                        meta: Option<Meta>, clip: bool)
    requires |boxes| == |scores| == |classes|
    ensures var r := Finished(boxes, scores, classes, least, threshold, meta, clip);
      var passes := exists i | 0 <= i < |scores| :: scores[i] >= least;
      && (passes && !(0.0 <= threshold <= 1.0) ==> r == Err(Threshold))
      && (!passes ==> r == Ok([]))
      && (passes && 0.0 <= threshold <= 1.0 ==> r.Ok? && FinishedRight(boxes, scores, classes, least, threshold, meta, clip, r.value))
  {
    var p := Passing(scores, least);
    var sel := Selected(|scores|, p);
    assert (exists i | 0 <= i < |scores| :: scores[i] >= least) <==> sel != [] by {
      if i :| 0 <= i < |scores| && scores[i] >= least { assert Holds(p, i); assert i in sel; }
      if sel != [] { assert sel[0] in sel; assert Holds(p, sel[0]); }
    }
    if sel != [] && 0.0 <= threshold <= 1.0 { FinishedOk(boxes, scores, classes, least, threshold, meta, clip); }
  }

  lemma FinishedOk(boxes: seq<Box>, scores: seq<real>, classes: seq<int>, least: real, threshold: real,
                   meta: Option<Meta>, clip: bool)
    requires |boxes| == |scores| == |classes| && 0.0 <= threshold <= 1.0
    requires Selected(|scores|, Passing(scores, least)) != []
    ensures var r := Finished(boxes, scores, classes, least, threshold, meta, clip);
      r.Ok? && FinishedRight(boxes, scores, classes, least, threshold, meta, clip, r.value)
  {
    hide Selected, Kept, KeptRight, Objects, Shows;
    var kept, p, shown := Kept(boxes, scores, threshold, Some(classes)), Passing(scores, least), Showing(boxes, meta, clip);
    var passed := Filter(kept, p);
    FilterMembers(kept, p);
    FilterWithin(kept, p, |boxes|);
    var idxs := Filter(passed, shown);
    FilterMembers(passed, shown);
    KeptIsRight(boxes, scores, threshold, Some(classes));
    KeptExactly(boxes, scores, threshold, Some(classes));
    FilterDescends(Score(scores), kept, p);
    FilterDescends(Score(scores), passed, shown);
    ObjectsBehind(passed, boxes, scores, classes, meta, clip);
    forall i | 0 <= i < |boxes| ensures i in idxs <==> i in kept && scores[i] >= least && Shows(boxes[i], meta, clip) {
      assert i in idxs <==> i in kept && Holds(p, i) && Holds(shown, i);
    }
    forall j, k | 0 <= j < k < |idxs| ensures 0 <= idxs[j] < |boxes| && 0 <= idxs[k] < |boxes| && Outranks(scores, idxs[j], idxs[k]) {
      assert idxs[j] in idxs && idxs[k] in idxs && Before(Score(scores), idxs[j], idxs[k]);
    }
  }
}
