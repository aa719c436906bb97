/** What suppression as a whole guarantees (cpp/src/postprocess.cpp:71-195): who is kept, and that
    it commutes with the score threshold, splits by class and changes nothing when run again. */
module NmsLaws {
  import opened Wrappers
  import opened Sequences
  import opened Nms

  // The overlap the suppression sees: none with itself, none across classes.
  function Overlap(boxes: seq<Box>, classes: Option<seq<int>>, i: int, j: int): real {
    if !(0 <= i < |boxes|) || !(0 <= j < |boxes|) || i == j || !SameClass(classes, i, j) then 0.0
    else Iou(boxes[i], boxes[j])
  }

  predicate SameClass(classes: Option<seq<int>>, i: int, j: int) {
    classes.Some? && 0 <= i < |classes.value| && 0 <= j < |classes.value| ==> classes.value[i] == classes.value[j]
  }

  function Hits(boxes: seq<Box>, classes: Option<seq<int>>, threshold: real): (int, int) -> bool {
    (i, j) => Overlap(boxes, classes, i, j) > threshold
  }

  function Score(scores: seq<real>): int -> real { i => if 0 <= i < |scores| then scores[i] else 0.0 }

  function Order(scores: seq<real>): seq<int> { Sorted(Score(scores), Range(0, |scores|)) }

  function Kept(boxes: seq<Box>, scores: seq<real>, threshold: real, classes: Option<seq<int>>): (kept: seq<int>)
    ensures forall k | k in kept :: 0 <= k < |scores|
  {
    RangeMembers(|scores|);
    SortedMembers(Score(scores), Range(0, |scores|));
    GreedyMembers(Order(scores), Hits(boxes, classes, threshold));
    Greedy(Order(scores), Hits(boxes, classes, threshold))
  }

  // An empty list is answered before the threshold is looked at.
  function Suppress(boxes: seq<Box>, scores: seq<real>, threshold: real, classes: Option<seq<int>>): Result<seq<int>, Error> {
    if |boxes| != |scores| then Err(ScoreLength)
    else if |boxes| == 0 then Ok([])
    else if !(0.0 <= threshold <= 1.0) then Err(Threshold)
    else if classes.Some? && |classes.value| != |boxes| then Err(ClassLength)
    else Ok(Kept(boxes, scores, threshold, classes))
  }

  // ---- who is kept ----

  lemma OrderDescends(scores: seq<real>)
    ensures Descending(Score(scores), Order(scores)) && Distinct(Order(scores))
    ensures forall i :: i in Order(scores) <==> 0 <= i < |scores|
  {
    var score, order := Score(scores), Order(scores);
    RangeMembers(|scores|);
    SortedDescends(score, Range(0, |scores|));
    forall p, q | 0 <= p < q < |order| ensures order[p] != order[q] {
      assert Before(score, order[p], order[q]);
    }
  }

  predicate Clash(boxes: seq<Box>, classes: Option<seq<int>>, threshold: real, i: int, j: int)
    requires 0 <= i < |boxes| && 0 <= j < |boxes|
  {
    SameClass(classes, i, j) && Iou(boxes[i], boxes[j]) > threshold
  }

  ghost predicate Rivalled(boxes: seq<Box>, scores: seq<real>, threshold: real, classes: Option<seq<int>>,
                           kept: seq<int>, x: int)
    requires |boxes| == |scores| && 0 <= x < |boxes|
  {
    exists k | k in kept && 0 <= k < |boxes| :: Before(Score(scores), k, x) && Clash(boxes, classes, threshold, k, x)
  }

  /** Kept indices come in descending score order, ties by index; no two kept boxes of one class
      overlap above the threshold; and a box is left out exactly when a kept box of its class that
      comes before it overlaps it above the threshold. */
  lemma KeptExactly(boxes: seq<Box>, scores: seq<real>, threshold: real, classes: Option<seq<int>>)
    requires |boxes| == |scores| && threshold >= 0.0
    ensures var kept := Kept(boxes, scores, threshold, classes);
      && Descending(Score(scores), kept)
      && (forall x | 0 <= x < |boxes| :: x in kept <==> !Rivalled(boxes, scores, threshold, classes, kept, x))
      && (forall i, j | i in kept && j in kept && i != j :: !Clash(boxes, classes, threshold, i, j))
  {
    var order, hits, kept := Order(scores), Hits(boxes, classes, threshold), Kept(boxes, scores, threshold, classes);
    OrderDescends(scores);
    GreedyDescends(Score(scores), order, hits);
    GreedyIsChosen(order, hits);
    forall x | 0 <= x < |boxes| ensures x in kept <==> !Rivalled(boxes, scores, threshold, classes, kept, x) {
      KeptUnlessRivalled(boxes, scores, threshold, classes, x);
    }
    forall i, j | i in kept && j in kept && i != j ensures !Clash(boxes, classes, threshold, i, j) {
      IouSymmetric(boxes[i], boxes[j]);
      var p :| 0 <= p < |kept| && kept[p] == i;
      var q :| 0 <= q < |kept| && kept[q] == j;
      assert Before(Score(scores), i, j) || Before(Score(scores), j, i);
      assert !Rivalled(boxes, scores, threshold, classes, kept, i);
      assert !Rivalled(boxes, scores, threshold, classes, kept, j);
    }
  }

  // What a suppression keeps, told in scores and coordinates: indices by descending score, equal
  // scores by index; and an index is missing exactly when one that is kept, of the same class where
  // there are classes, comes before it and shares more than the threshold with it.
  ghost predicate KeptRight(boxes: seq<Box>, scores: seq<real>, threshold: real, classes: Option<seq<int>>, kept: seq<int>)
    requires |boxes| == |scores| && (classes.Some? ==> |classes.value| == |boxes|)
  {
    && (forall k | k in kept :: 0 <= k < |boxes|)
    && (forall p, q | 0 <= p < q < |kept| && 0 <= kept[p] < |boxes| && 0 <= kept[q] < |boxes| ::
          Outranks(scores, kept[p], kept[q]))
    && forall x | 0 <= x < |boxes| :: x in kept <==> !exists k | k in kept && 0 <= k < |boxes| ::
         Outranks(scores, k, x) && (classes.Some? ==> classes.value[k] == classes.value[x]) &&
         SharesOver(boxes[k], boxes[x], threshold)
  }

  predicate Outranks(scores: seq<real>, i: int, j: int)
    requires 0 <= i < |scores| && 0 <= j < |scores|
  {
    scores[i] > scores[j] || (scores[i] == scores[j] && i < j)
  }

  ghost predicate SuppressedRight(boxes: seq<Box>, scores: seq<real>, threshold: real, classes: Option<seq<int>>, kept: seq<int>) {
    && |boxes| == |scores| && (classes.Some? ==> |classes.value| == |boxes|)
    && KeptRight(boxes, scores, threshold, classes, kept)
  }

  lemma SuppressIsRight(boxes: seq<Box>, scores: seq<real>, threshold: real, classes: Option<seq<int>>)
    ensures var r := Suppress(boxes, scores, threshold, classes);
      r.Ok? && boxes != [] ==> SuppressedRight(boxes, scores, threshold, classes, r.value)
  {
    hide Kept, KeptRight;
    var r := Suppress(boxes, scores, threshold, classes);
    if r.Ok? && boxes != [] { KeptIsRight(boxes, scores, threshold, classes); }
  }

  lemma KeptIsRight(boxes: seq<Box>, scores: seq<real>, threshold: real, classes: Option<seq<int>>)
    requires |boxes| == |scores| && threshold >= 0.0 && (classes.Some? ==> |classes.value| == |boxes|)
    ensures KeptRight(boxes, scores, threshold, classes, Kept(boxes, scores, threshold, classes))
  {
    hide Kept, Iou, SharesOver;
    var kept := Kept(boxes, scores, threshold, classes);
    KeptExactly(boxes, scores, threshold, classes);
    forall i, j | 0 <= i < |boxes| && 0 <= j < |boxes| ensures Iou(boxes[i], boxes[j]) > threshold <==> SharesOver(boxes[i], boxes[j], threshold) {
      IouExactly(boxes[i], boxes[j], threshold);
    }
    forall x | 0 <= x < |boxes|
      ensures Rivalled(boxes, scores, threshold, classes, kept, x) <==> exists k | k in kept && 0 <= k < |boxes| ::
         Outranks(scores, k, x) && (classes.Some? ==> classes.value[k] == classes.value[x]) &&
         SharesOver(boxes[k], boxes[x], threshold)
    {
    }
  }

  lemma {:induction false} GreedyDescends(score: int -> real, order: seq<int>, hits: (int, int) -> bool)
    requires Descending(score, order)
    ensures Descending(score, Greedy(order, hits))
  {
    if order != [] {
      var k := |order| - 1;
      var kept := Greedy(order[..k], hits);
      GreedyDescends(score, order[..k], hits);
      GreedyMembers(order[..k], hits);
      forall p | 0 <= p < |kept| ensures Before(score, kept[p], order[k]) {
        var x := kept[p];
        assert x in kept;
        var q :| 0 <= q < k && order[..k][q] == x;
      }
    }
  }

  lemma PlaceIsBefore(score: int -> real, order: seq<int>, i: nat, j: nat)
    requires Descending(score, order) && i < |order| && j < |order| && Before(score, order[i], order[j])
    ensures i < j
  {
  }

  lemma KeptUnlessRivalled(boxes: seq<Box>, scores: seq<real>, threshold: real, classes: Option<seq<int>>, x: int)
    requires |boxes| == |scores| && threshold >= 0.0 && 0 <= x < |boxes|
    ensures var kept := Kept(boxes, scores, threshold, classes);
      x in kept <==> !Rivalled(boxes, scores, threshold, classes, kept, x)
  {
    hide Greedy, Sorted, Iou;
    var order, hits, kept := Order(scores), Hits(boxes, classes, threshold), Kept(boxes, scores, threshold, classes);
    var chosen := x => x in Greedy(order, hits);
    OrderDescends(scores);
    GreedyIsChosen(order, hits);
    var j := IndexOf(order, x);
    assert chosen(order[j]) <==> Free(order, hits, chosen, j);
    if Rivalled(boxes, scores, threshold, classes, kept, x) {
      var k :| k in kept && 0 <= k < |boxes| && Before(Score(scores), k, x) && Clash(boxes, classes, threshold, k, x);
      var i := IndexOf(order, k);
      PlaceIsBefore(Score(scores), order, i, j);
      assert chosen(order[i]) && hits(order[i], order[j]);
    }
    if x !in kept {
      var i :| 0 <= i < j && chosen(order[i]) && hits(order[i], order[j]);
      assert Before(Score(scores), order[i], x) && Clash(boxes, classes, threshold, order[i], x);
      assert order[i] in kept;
    }
  }

  // ---- selecting commutes with sorting and with the greedy rule ----

  lemma {:induction false} InsertFilter(score: int -> real, order: seq<int>, x: int, p: int -> bool)
    requires Descending(score, order)
    ensures Filter(Insert(score, order, x), p) ==
      if p(x) then Insert(score, Filter(order, p), x) else Filter(order, p)
  {
    if order != [] && score(order[|order| - 1]) < score(x) {
      var y, init := order[|order| - 1], order[..|order| - 1];
      InsertFilter(score, init, x, p);
      assert order == init + [y];
      InsertAppend(score, init, x, y);
      hide Insert, Filter;
      FilterAppend(Insert(score, init, x), y, p);
      FilterAppend(init, y, p);
      InsertAppend(score, Filter(init, p), x, y);
    } else {
      forall i | i in order ensures score(i) >= score(x) {
        var q :| 0 <= q < |order| && order[q] == i;
        assert q < |order| - 1 ==> Before(score, order[q], order[|order| - 1]);
      }
      FilterMembers(order, p);
      hide Insert, Filter;
      InsertLast(score, order, x);
      InsertLast(score, Filter(order, p), x);
      FilterAppend(order, x, p);
    }
  }

  lemma InsertLast(score: int -> real, order: seq<int>, x: int)
    requires forall i | i in order :: score(i) >= score(x)
    ensures Insert(score, order, x) == order + [x]
  {
    if order != [] {
      var y := order[|order| - 1];
      assert y in order;
    }
  }

  lemma InsertAppend(score: int -> real, order: seq<int>, x: int, y: int)
    requires score(y) < score(x)
    ensures Insert(score, order + [y], x) == Insert(score, order, x) + [y]
  {
    assert (order + [y])[..|order|] == order;
  }

  lemma {:induction false} SortedFilter(score: int -> real, idxs: seq<int>, p: int -> bool)
    requires Ascending(idxs)
    ensures Filter(Sorted(score, idxs), p) == Sorted(score, Filter(idxs, p))
  {
    if idxs != [] {
      var x, init := idxs[|idxs| - 1], idxs[..|idxs| - 1];
      SortedFilter(score, init, p);
      SortedDescends(score, init);
      InsertFilter(score, Sorted(score, init), x, p);
      SortedAppend(score, Filter(init, p), x);
    }
  }

  lemma SortedAppend(score: int -> real, idxs: seq<int>, x: int)
    ensures Sorted(score, idxs + [x]) == Insert(score, Sorted(score, idxs), x)
  {
    assert (idxs + [x])[..|idxs|] == idxs;
  }

  // Whoever strikes a selected index is itself selected.
  ghost predicate Downward(order: seq<int>, hits: (int, int) -> bool, p: int -> bool) {
    forall i, j | 0 <= i < j < |order| && hits(order[i], order[j]) && p(order[j]) :: Holds(p, order[i])
  }

  lemma {:induction false} GreedyFilter(order: seq<int>, hits: (int, int) -> bool, p: int -> bool)
    requires Downward(order, hits, p)
    ensures Filter(Greedy(order, hits), p) == Greedy(Filter(order, p), hits)
  {
    if order != [] {
      var x, init := order[|order| - 1], order[..|order| - 1];
      DownwardPrefix(order, hits, p);
      GreedyFilter(init, hits, p);
      if p(x) { StrikersSelected(order, hits, p); }
      assert order == init + [x];
      hide Greedy, Filter, Struck, Downward;
      var kept := Greedy(init, hits);
      GreedyAppend(init, x, hits);
      FilterAppend(init, x, p);
      FilterAppend(kept, x, p);
      GreedyAppend(Filter(init, p), x, hits);
    }
  }

  lemma DownwardPrefix(order: seq<int>, hits: (int, int) -> bool, p: int -> bool)
    requires order != [] && Downward(order, hits, p)
    ensures Downward(order[..|order| - 1], hits, p)
  {
    var init := order[..|order| - 1];
    forall i, j | 0 <= i < j < |init| && hits(init[i], init[j]) && p(init[j]) ensures Holds(p, init[i]) {
      assert hits(order[i], order[j]);
    }
  }

  lemma StrikersSelected(order: seq<int>, hits: (int, int) -> bool, p: int -> bool)
    requires order != [] && Downward(order, hits, p) && p(order[|order| - 1])
    ensures var kept, x := Greedy(order[..|order| - 1], hits), order[|order| - 1];
      Struck(kept, hits, x) <==> Struck(Filter(kept, p), hits, x)
  {
    var init, x := order[..|order| - 1], order[|order| - 1];
    var kept := Greedy(init, hits);
    GreedyMembers(init, hits);
    FilterMembers(kept, p);
    forall k | k in kept && hits(k, x) ensures k in Filter(kept, p) {
      var i :| 0 <= i < |init| && init[i] == k;
      assert order[i] == k;
    }
  }

  // ---- renaming indices ----

  function Through(sel: seq<int>): int -> int { i => if 0 <= i < |sel| then sel[i] else i }

  function Gather<T>(s: seq<T>, sel: seq<int>): (r: seq<T>)
    requires forall i | i in sel :: 0 <= i < |s|
    ensures |r| == |sel| && forall k | 0 <= k < |sel| :: sel[k] in sel && r[k] == s[sel[k]]
  {
    seq(|sel|, k requires 0 <= k < |sel| => assert sel[k] in sel; s[sel[k]])
  }

  function GatherClasses(classes: Option<seq<int>>, sel: seq<int>): Option<seq<int>>
    requires classes.Some? ==> forall i | i in sel :: 0 <= i < |classes.value|
  {
    if classes.Some? then Some(Gather(classes.value, sel)) else None
  }

  lemma MapAppend<T>(s: seq<int>, x: int, f: int -> T)
    ensures Map(s + [x], f) == Map(s, f) + [f(x)]
  {
  }

  lemma {:induction false} InsertMap(score': int -> real, score: int -> real, order: seq<int>, x: int, f: int -> int)
    requires score'(x) == score(f(x)) && forall i | i in order :: score'(i) == score(f(i))
    ensures Map(Insert(score', order, x), f) == Insert(score, Map(order, f), f(x))
  {
    if order != [] {
      var y, init := order[|order| - 1], order[..|order| - 1];
      assert order == init + [y] && y in order;
      MapAppend(init, y, f);
      if score'(y) < score'(x) {
        InsertMap(score', score, init, x, f);
        MapAppend(Insert(score', init, x), y, f);
        InsertAppend(score, Map(init, f), f(x), f(y));
      } else {
        MapAppend(order, x, f);
      }
    }
  }

  lemma {:induction false} SortedMap(score': int -> real, score: int -> real, idxs: seq<int>, f: int -> int)
    requires forall i | i in idxs :: score'(i) == score(f(i))
    ensures Map(Sorted(score', idxs), f) == Sorted(score, Map(idxs, f))
  {
    if idxs != [] {
      var x, init := idxs[|idxs| - 1], idxs[..|idxs| - 1];
      assert idxs == init + [x] && x in idxs;
      SortedMap(score', score, init, f);
      SortedMembers(score', init);
      InsertMap(score', score, Sorted(score', init), x, f);
      MapAppend(init, x, f);
      SortedAppend(score, Map(init, f), f(x));
    }
  }

  ghost predicate Agrees(idxs: seq<int>, f: int -> int, hits': (int, int) -> bool, hits: (int, int) -> bool) {
    forall i, j | i in idxs && j in idxs :: hits'(i, j) == hits(f(i), f(j))
  }

  lemma {:induction false} GreedyMap(idxs: seq<int>, f: int -> int, hits': (int, int) -> bool, hits: (int, int) -> bool)
    requires Agrees(idxs, f, hits', hits)
    ensures Map(Greedy(idxs, hits'), f) == Greedy(Map(idxs, f), hits)
  {
    if idxs != [] {
      var x, init := idxs[|idxs| - 1], idxs[..|idxs| - 1];
      assert idxs == init + [x] && x in idxs;
      GreedyMap(init, f, hits', hits);
      var kept := Greedy(init, hits');
      GreedyMembers(init, hits');
      StruckMap(idxs, kept, x, f, hits', hits);
      MapAppend(init, x, f);
      MapAppend(kept, x, f);
      GreedyAppend(Map(init, f), f(x), hits);
    }
  }

  lemma StruckMap(idxs: seq<int>, kept: seq<int>, x: int, f: int -> int, hits': (int, int) -> bool, hits: (int,
          int) -> bool)
    requires Agrees(idxs, f, hits', hits) && x in idxs && forall k | k in kept :: k in idxs
    ensures Struck(kept, hits', x) <==> Struck(Map(kept, f), hits, f(x))
  {
    if Struck(kept, hits', x) {
      var k :| k in kept && hits'(k, x);
      var p := IndexOf(kept, k);
      Contains(Map(kept, f), p);
      var y := f(k);
      assert y in Map(kept, f) && hits(y, f(x));
    }
    if Struck(Map(kept, f), hits, f(x)) {
      var y :| y in Map(kept, f) && hits(y, f(x));
      var p := IndexOf(Map(kept, f), y);
      var k := kept[p];
      assert k in kept && y == f(k);
      assert hits'(k, x);
    }
  }

  // Suppressing a sublist and naming the survivors by their place in the whole list is the greedy
  // rule run over the sublist's own indices.
  lemma Sublist(boxes: seq<Box>, scores: seq<real>, threshold: real, classes: Option<seq<int>>, sel: seq<int>,
                part: Option<seq<int>>)
    requires |boxes| == |scores| && forall i | i in sel :: 0 <= i < |boxes|
    requires Agrees(Range(0, |sel|), Through(sel), Hits(Gather(boxes, sel), part, threshold), Hits(boxes, classes, threshold))
    ensures Map(Kept(Gather(boxes, sel), Gather(scores, sel), threshold, part), Through(sel)) ==
      Greedy(Sorted(Score(scores), sel), Hits(boxes, classes, threshold))
  {
    hide Hits, Greedy, Sorted, Agrees, Gather;
    SublistOrder(scores, sel);
    AgreesInOrder(Gather(scores, sel), Through(sel), Hits(Gather(boxes, sel), part, threshold), Hits(boxes, classes, threshold));
    GreedyMap(Order(Gather(scores, sel)), Through(sel), Hits(Gather(boxes, sel), part, threshold), Hits(boxes, classes, threshold));
  }

  lemma SublistOrder(scores: seq<real>, sel: seq<int>)
    requires forall i | i in sel :: 0 <= i < |scores|
    ensures Map(Order(Gather(scores, sel)), Through(sel)) == Sorted(Score(scores), sel)
  {
    hide Sorted;
    var f, m := Through(sel), |sel|;
    assert Map(Range(0, m), f) == sel;
    RangeMembers(m);
    forall i | i in Range(0, m) ensures Score(Gather(scores, sel))(i) == Score(scores)(f(i)) {
      assert sel[i] in sel;
    }
    SortedMap(Score(Gather(scores, sel)), Score(scores), Range(0, m), f);
  }

  lemma AgreesInOrder(scores: seq<real>, f: int -> int, hits': (int, int) -> bool, hits: (int, int) -> bool)
    requires Agrees(Range(0, |scores|), f, hits', hits)
    ensures Agrees(Order(scores), f, hits', hits)
  {
    SortedMembers(Score(scores), Range(0, |scores|));
  }

  lemma GatherAgrees(boxes: seq<Box>, threshold: real, classes: Option<seq<int>>, sel: seq<int>, part: Option<seq<int>>)
    requires Distinct(sel) && forall i | i in sel :: 0 <= i < |boxes|
    requires forall i, j | 0 <= i < |sel| && 0 <= j < |sel| :: SameClass(part, i, j) == SameClass(classes, sel[i], sel[j])
    ensures Agrees(Range(0, |sel|), Through(sel), Hits(Gather(boxes, sel), part, threshold), Hits(boxes, classes, threshold))
  {
    hide Iou;
    RangeMembers(|sel|);
    forall i, j | i in Range(0, |sel|) && j in Range(0, |sel|)
      ensures Overlap(Gather(boxes, sel), part, i, j) == Overlap(boxes, classes, sel[i], sel[j])
    {
      assert sel[i] in sel && sel[j] in sel;
    }
  }

  lemma {:induction false} FilterAscends(s: seq<int>, p: int -> bool)
    requires Ascending(s)
    ensures Ascending(Filter(s, p))
  {
    if s != [] {
      var k := |s| - 1;
      FilterAscends(s[..k], p);
      FilterMembers(s[..k], p);
      forall i | i in Filter(s[..k], p) ensures i < s[k] {
        var q :| 0 <= q < k && s[..k][q] == i;
      }
      var r := Filter(s[..k], p);
      forall q | 0 <= q < |r| ensures r[q] < s[k] {
        var i := r[q];
        assert i in r;
      }
    }
  }

  // ---- the three laws ----

  function Passing(scores: seq<real>, least: real): int -> bool { i => 0 <= i < |scores| && scores[i] >= least }

  /** Dropping low scores first, as the post-processor does, leaves exactly the boxes that
      suppressing everything and dropping low scores afterwards would leave, in the same order. */
  lemma ThresholdCommutes(boxes: seq<Box>, scores: seq<real>, threshold: real, classes: seq<int>, least: real)
    requires |boxes| == |scores| == |classes| && threshold >= 0.0
    ensures var sel := Selected(|scores|, Passing(scores, least));
      Map(Kept(Gather(boxes, sel), Gather(scores, sel), threshold, Some(Gather(classes, sel))), Through(sel)) ==
      Filter(Kept(boxes, scores, threshold, Some(classes)), Passing(scores, least))
  {
    hide Kept, Gather, Selected;
    var p := Passing(scores, least);
    var sel := Selected(|scores|, p);
    SelectedAscends(|scores|, p);
    GatherAgrees(boxes, threshold, Some(classes), sel, Some(Gather(classes, sel)));
    PassingDownward(boxes, scores, threshold, classes, least);
    Selection(boxes, scores, threshold, Some(classes), Some(Gather(classes, sel)), p);
  }

  lemma PassingDownward(boxes: seq<Box>, scores: seq<real>, threshold: real, classes: seq<int>, least: real)
    ensures Downward(Order(scores), Hits(boxes, Some(classes), threshold), Passing(scores, least))
  {
    var order := Order(scores);
    OrderDescends(scores);
    hide Hits, Order;
    forall i, j | 0 <= i < j < |order| && Passing(scores, least)(order[j]) ensures Holds(Passing(scores, least), order[i]) {
      Contains(order, i);
      assert order[i] in order && Before(Score(scores), order[i], order[j]);
    }
  }

  // Suppression run over the indices p selects, named in the whole list, is the selection from
  // suppression run over everything, whenever whoever strikes a selected box is selected.
  lemma Selection(boxes: seq<Box>, scores: seq<real>, threshold: real, classes: Option<seq<int>>,
          part: Option<seq<int>>,
                  p: int -> bool)
    requires |boxes| == |scores| && Downward(Order(scores), Hits(boxes, classes, threshold), p)
    requires var sel := Selected(|scores|, p);
      Agrees(Range(0, |sel|), Through(sel), Hits(Gather(boxes, sel), part, threshold), Hits(boxes, classes, threshold))
    ensures var sel := Selected(|scores|, p);
      Map(Kept(Gather(boxes, sel), Gather(scores, sel), threshold, part), Through(sel)) ==
      Filter(Kept(boxes, scores, threshold, classes), p)
  {
    hide Hits, Downward, Agrees, Gather, Through;
    Sublist(boxes, scores, threshold, classes, Selected(|scores|, p), part);
    RangeAscends(|scores|);
    SortedFilter(Score(scores), Range(0, |scores|), p);
    GreedyFilter(Order(scores), Hits(boxes, classes, threshold), p);
  }

  lemma RangeAscends(n: nat)
    ensures Ascending(Range(0, n))
  {
  }

  lemma SelectedAscends(n: nat, p: int -> bool)
    ensures Ascending(Selected(n, p)) && Distinct(Selected(n, p))
  {
    FilterAscends(Range(0, n), p);
  }

  function OfClass(classes: seq<int>, c: int): int -> bool { i => 0 <= i < |classes| && classes[i] == c }

  /** The kept boxes of each class are what suppression returns on that class alone, without any
      class list, in the same order. */
  lemma ClassesDecompose(boxes: seq<Box>, scores: seq<real>, threshold: real, classes: seq<int>, c: int)
    requires |boxes| == |scores| == |classes| && threshold >= 0.0
    ensures var sel := Selected(|classes|, OfClass(classes, c));
      Map(Kept(Gather(boxes, sel), Gather(scores, sel), threshold, None), Through(sel)) ==
      Filter(Kept(boxes, scores, threshold, Some(classes)), OfClass(classes, c))
  {
    hide Kept, Gather;
    var p := OfClass(classes, c);
    var sel := Selected(|classes|, p);
    SelectedAscends(|classes|, p);
    OneClass(classes, c);
    GatherAgrees(boxes, threshold, Some(classes), sel, None);
    ClassDownward(boxes, scores, threshold, classes, c);
    Selection(boxes, scores, threshold, Some(classes), None, p);
  }

  lemma OneClass(classes: seq<int>, c: int)
    ensures var sel := Selected(|classes|, OfClass(classes, c));
      forall i, j | 0 <= i < |sel| && 0 <= j < |sel| :: SameClass(None, i, j) == SameClass(Some(classes), sel[i], sel[j])
  {
    var sel := Selected(|classes|, OfClass(classes, c));
    forall i, j | 0 <= i < |sel| && 0 <= j < |sel| ensures SameClass(None, i, j) == SameClass(Some(classes), sel[i], sel[j]) {
      Contains(sel, i);
      Contains(sel, j);
      assert Holds(OfClass(classes, c), sel[i]) && Holds(OfClass(classes, c), sel[j]);
    }
  }

  lemma ClassDownward(boxes: seq<Box>, scores: seq<real>, threshold: real, classes: seq<int>, c: int)
    requires |boxes| == |scores| == |classes| && threshold >= 0.0
    ensures Downward(Order(scores), Hits(boxes, Some(classes), threshold), OfClass(classes, c))
  {
    hide Order, Iou;
  }

  lemma {:induction false} GreedyTwice(order: seq<int>, hits: (int, int) -> bool)
    ensures Greedy(Greedy(order, hits), hits) == Greedy(order, hits)
  {
    if order != [] {
      var init, x := order[..|order| - 1], order[|order| - 1];
      GreedyTwice(init, hits);
      GreedyAppend(Greedy(init, hits), x, hits);
    }
  }

  lemma {:induction false} AlreadySorted(score: int -> real, idxs: seq<int>)
    requires forall p, q | 0 <= p < q < |idxs| :: score(idxs[p]) >= score(idxs[q])
    ensures Sorted(score, idxs) == idxs
  {
    if idxs != [] { AlreadySorted(score, idxs[..|idxs| - 1]); }
  }

  /** Suppressing what is already suppressed keeps every box, in place. */
  lemma SuppressTwice(boxes: seq<Box>, scores: seq<real>, threshold: real, classes: Option<seq<int>>, kept: seq<int>)
    requires Suppress(boxes, scores, threshold, classes) == Ok(kept)
    ensures Suppress(Gather(boxes, kept), Gather(scores, kept), threshold, GatherClasses(classes, kept)) == Ok(Range(0, |kept|))
  {
    if |kept| > 0 {
      hide Kept, Gather;
      KeptTwice(boxes, scores, threshold, classes);
    }
  }

  lemma KeptTwice(boxes: seq<Box>, scores: seq<real>, threshold: real, classes: Option<seq<int>>)
    requires |boxes| == |scores| && (classes.Some? ==> |classes.value| == |boxes|)
    ensures var kept := Kept(boxes, scores, threshold, classes);
      Kept(Gather(boxes, kept), Gather(scores, kept), threshold, GatherClasses(classes, kept)) == Range(0, |kept|)
  {
    var kept := Kept(boxes, scores, threshold, classes);
    var part := GatherClasses(classes, kept);
    KeptInOrder(boxes, scores, threshold, classes);
    GatherAgrees(boxes, threshold, classes, kept, part);
    hide Gather, Hits, Greedy, Sorted, Agrees;
    Sublist(boxes, scores, threshold, classes, kept, part);
    GreedyTwice(Order(scores), Hits(boxes, classes, threshold));
    NamesAreThemselves(Kept(Gather(boxes, kept), Gather(scores, kept), threshold, part), kept);
  }

  lemma KeptInOrder(boxes: seq<Box>, scores: seq<real>, threshold: real, classes: Option<seq<int>>)
    ensures var kept := Kept(boxes, scores, threshold, classes);
      Distinct(kept) && Sorted(Score(scores), kept) == kept
  {
    var score, kept := Score(scores), Kept(boxes, scores, threshold, classes);
    OrderDescends(scores);
    GreedyDescends(score, Order(scores), Hits(boxes, classes, threshold));
    hide Hits, Greedy, Order;
    forall p, q | 0 <= p < q < |kept| ensures kept[p] != kept[q] && score(kept[p]) >= score(kept[q]) {
      assert Before(score, kept[p], kept[q]);
    }
    AlreadySorted(score, kept);
  }

  lemma NamesAreThemselves(r: seq<int>, sel: seq<int>)
    requires Map(r, Through(sel)) == sel && Distinct(sel) && forall k | k in r :: 0 <= k < |sel|
    ensures r == Range(0, |sel|)
  {
    forall k | 0 <= k < |r| ensures r[k] == k {
      assert r[k] in r && Map(r, Through(sel))[k] == sel[k];
    }
  }
}
