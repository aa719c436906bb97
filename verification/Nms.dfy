/** Greedy non-maximum suppression (cpp/src/postprocess.cpp), over exact reals: the definitions,
    what the sort and the greedy rule mean. */
module Nms {
  import opened Sequences

  datatype Box = Box(x1: real, y1: real, x2: real, y2: real)
  datatype Error = ScoreLength | Threshold | ClassLength

  function MaxR(a: real, b: real): real { if a < b then b else a }
  function MinR(a: real, b: real): real { if b < a then b else a }

  // ---- intersection over union ----

  function Side(lo: real, hi: real): (s: real)
    ensures s >= 0.0
  { MaxR(hi - lo, 0.0) }

  function Area(b: Box): (a: real)
    ensures a >= 0.0
  { Side(b.x1, b.x2) * Side(b.y1, b.y2) }

  function SharedX(a: Box, b: Box): (s: real)
    ensures 0.0 <= s <= Side(a.x1, a.x2) && s <= Side(b.x1, b.x2)
  { Side(MaxR(a.x1, b.x1), MinR(a.x2, b.x2)) }

  function SharedY(a: Box, b: Box): (s: real)
    ensures 0.0 <= s <= Side(a.y1, a.y2) && s <= Side(b.y1, b.y2)
  { Side(MaxR(a.y1, b.y1), MinR(a.y2, b.y2)) }

  function Inter(a: Box, b: Box): (i: real)
    ensures i >= 0.0
  { SharedX(a, b) * SharedY(a, b) }

  function Iou(a: Box, b: Box): real {
    var union := Area(a) + Area(b) - Inter(a, b);
    if union > 0.0 then Inter(a, b) / union else 0.0
  }

  lemma ProductMono(a: real, b: real, c: real, d: real)
    requires 0.0 <= a <= c && 0.0 <= b <= d
    ensures a * b <= c * d
  {
    assert a * b <= c * b;
    assert c * b <= c * d;
  }

  lemma InterWithin(a: Box, b: Box)
    ensures Inter(a, b) <= Area(a) && Inter(a, b) <= Area(b)
  {
    hide Side, SharedX, SharedY;
    ProductMono(SharedX(a, b), SharedY(a, b), Side(a.x1, a.x2), Side(a.y1, a.y2));
    ProductMono(SharedX(a, b), SharedY(a, b), Side(b.x1, b.x2), Side(b.y1, b.y2));
  }

  lemma QuotientInUnit(n: real, d: real)
    requires 0.0 <= n <= d && d > 0.0
    ensures 0.0 <= n / d <= 1.0
  {
    var q := n / d;
    assert q * d == n;
    assert (1.0 - q) * d == d - n;
  }

  /** Between 0 and 1 and symmetric for every two boxes, degenerate and inverted ones included;
      0 when either box is degenerate, 1 for a proper box against itself. */
  lemma IouLaws(a: Box, b: Box)
    ensures 0.0 <= Iou(a, b) <= 1.0
    ensures Iou(a, b) == Iou(b, a)
    ensures a.x2 <= a.x1 || a.y2 <= a.y1 || b.x2 <= b.x1 || b.y2 <= b.y1 ==> Iou(a, b) == 0.0
    ensures a.x1 < a.x2 && a.y1 < a.y2 ==> Iou(a, a) == 1.0
  {
    hide Iou;
    IouBounded(a, b);
    IouSymmetric(a, b);
    if a.x2 <= a.x1 || a.y2 <= a.y1 || b.x2 <= b.x1 || b.y2 <= b.y1 { NoArea(a, b); }
    if a.x1 < a.x2 && a.y1 < a.y2 { IouSelf(a); }
  }

  lemma IouSymmetric(a: Box, b: Box)
    ensures Iou(a, b) == Iou(b, a)
  {
    hide Area;
    assert Inter(a, b) == Inter(b, a) by {
      assert SharedX(a, b) == SharedX(b, a) && SharedY(a, b) == SharedY(b, a);
    }
  }

  lemma IouSelf(a: Box)
    requires a.x1 < a.x2 && a.y1 < a.y2
    ensures Iou(a, a) == 1.0
  {
    assert Inter(a, a) == Area(a) by {
      assert SharedX(a, a) == Side(a.x1, a.x2) && SharedY(a, a) == Side(a.y1, a.y2);
    }
    var w, h := Side(a.x1, a.x2), Side(a.y1, a.y2);
    assert w > 0.0 && h > 0.0 && w * h > 0.0;
    hide Area, Inter;
    QuotientOfItself(Area(a));
  }

  lemma QuotientOfItself(d: real)
    requires d > 0.0
    ensures d / d == 1.0
  {
    var q := d / d;
    assert q * d == d;
  }

  lemma IouBounded(a: Box, b: Box)
    ensures 0.0 <= Iou(a, b) <= 1.0
  {
    hide Area, Inter;
    InterWithin(a, b);
    var union := Area(a) + Area(b) - Inter(a, b);
    if union > 0.0 { QuotientInUnit(Inter(a, b), union); }
  }

  lemma NoArea(a: Box, b: Box)
    requires a.x2 <= a.x1 || a.y2 <= a.y1 || b.x2 <= b.x1 || b.y2 <= b.y1
    ensures Iou(a, b) == 0.0
  {
    NoShare(a, b);
  }

  // Two boxes share a rectangle, of more than the fraction t of the area they cover together.
  predicate SharesOver(a: Box, b: Box, t: real) {
    var l, r := if a.x1 < b.x1 then b.x1 else a.x1, if a.x2 < b.x2 then a.x2 else b.x2;
    var d, u := if a.y1 < b.y1 then b.y1 else a.y1, if a.y2 < b.y2 then a.y2 else b.y2;
    l < r && d < u && Exceeds(Rectangle(l, r, d, u), Rectangle(a.x1, a.x2, a.y1, a.y2), Rectangle(b.x1, b.x2, b.y1, b.y2), t)
  }

  function Rectangle(l: real, r: real, d: real, u: real): real { (r - l) * (u - d) }

  predicate Exceeds(shared: real, areaA: real, areaB: real, t: real) { shared > t * (areaA + areaB - shared) }

  /** The overlap is the shared rectangle over what both boxes cover: it exceeds t exactly when the side
      products say so, and times the area covered together it is the area shared. */
  lemma IouExactly(a: Box, b: Box, t: real)
    requires t >= 0.0
    ensures Iou(a, b) > t <==> SharesOver(a, b, t)
  {
    hide Iou, Inter, Area, Exceeds, Rectangle;
    SharesIs(a, b);
    if SharedX(a, b) > 0.0 && SharedY(a, b) > 0.0 { IouOver(a, b, t); } else { NoShare(a, b); }
  }

  // The pieces of the overlap, side by side with their coordinates.
  lemma SharesIs(a: Box, b: Box)
    ensures var l, r := if a.x1 < b.x1 then b.x1 else a.x1, if a.x2 < b.x2 then a.x2 else b.x2;
      var d, u := if a.y1 < b.y1 then b.y1 else a.y1, if a.y2 < b.y2 then a.y2 else b.y2;
      && (SharedX(a, b) > 0.0 && SharedY(a, b) > 0.0 <==> l < r && d < u)
      && (l < r && d < u ==>
            && Inter(a, b) == Rectangle(l, r, d, u)
            && Area(a) == Rectangle(a.x1, a.x2, a.y1, a.y2) && Area(b) == Rectangle(b.x1, b.x2, b.y1, b.y2))
  {
    SidesIs(a, b);
    AreaIs(a);
    AreaIs(b);
    InterIs(a, b);
    hide Inter, Area, Rectangle, SharedX, SharedY;
  }

  lemma SidesIs(a: Box, b: Box)
    ensures var l, r := if a.x1 < b.x1 then b.x1 else a.x1, if a.x2 < b.x2 then a.x2 else b.x2;
      SharedX(a, b) == if l < r then r - l else 0.0
    ensures var d, u := if a.y1 < b.y1 then b.y1 else a.y1, if a.y2 < b.y2 then a.y2 else b.y2;
      SharedY(a, b) == if d < u then u - d else 0.0
  {
  }

  lemma AreaIs(b: Box)
    ensures b.x1 < b.x2 && b.y1 < b.y2 ==> Area(b) == Rectangle(b.x1, b.x2, b.y1, b.y2)
  {
  }

  lemma InterIs(a: Box, b: Box)
    ensures forall l, r, d, u | SharedX(a, b) == r - l && SharedY(a, b) == u - d :: Inter(a, b) == Rectangle(l, r, d, u)
  {
  }

  lemma IouOver(a: Box, b: Box, t: real)
    requires SharedX(a, b) > 0.0 && SharedY(a, b) > 0.0
    ensures Iou(a, b) > t <==> Exceeds(Inter(a, b), Area(a), Area(b), t)
  {
    PositiveProduct(SharedX(a, b), SharedY(a, b));
    InterWithin(a, b);
    hide Area, SharedX, SharedY, Inter;
    QuotientOver(Inter(a, b), Area(a) + Area(b) - Inter(a, b), t);
  }

  lemma PositiveProduct(a: real, b: real)
    requires a > 0.0 && b > 0.0
    ensures a * b > 0.0
  {
  }

  lemma QuotientOver(n: real, d: real, t: real)
    requires d > 0.0
    ensures n / d > t <==> n > t * d
  {
    var q := n / d;
    assert q * d == n;
    assert (q - t) * d == n - t * d;
  }

  lemma NoShare(a: Box, b: Box)
    requires SharedX(a, b) == 0.0 || SharedY(a, b) == 0.0
    ensures Iou(a, b) == 0.0
  {
    assert Inter(a, b) == 0.0;
    hide Inter, Area;
    var union := Area(a) + Area(b) - Inter(a, b);
    if union > 0.0 { assert 0.0 / union == 0.0; }
  }

  // ---- selecting and renaming indices ----

  predicate Holds(p: int -> bool, i: int) { p(i) }

  function Filter(s: seq<int>, p: int -> bool): seq<int> {
    if s == [] then []
    else
      var x := s[|s| - 1];
      if p(x) then Filter(s[..|s| - 1], p) + [x] else Filter(s[..|s| - 1], p)
  }

  lemma IndexOf<T>(s: seq<T>, x: T) returns (i: nat)
    requires x in s
    ensures i < |s| && s[i] == x
  {
    i :| 0 <= i < |s| && s[i] == x;
  }

  lemma Contains<T>(s: seq<T>, i: nat)
    requires i < |s|
    ensures s[i] in s
  {
  }

  function Map<T>(s: seq<int>, f: int -> T): (r: seq<T>)
    ensures |r| == |s| && forall i | 0 <= i < |s| :: r[i] == f(s[i])
  {
    seq(|s|, i requires 0 <= i < |s| => f(s[i]))
  }

  lemma RangeMembers(n: nat)
    ensures forall i :: i in Range(0, n) <==> 0 <= i < n
  {
    forall i ensures i in Range(0, n) <==> 0 <= i < n {
      if i in Range(0, n) { var k :| 0 <= k < n && Range(0, n)[k] == i; }
      if 0 <= i < n { assert Range(0, n)[i] == i; }
    }
  }

  // The indices below n that satisfy p, ascending.
  function Selected(n: nat, p: int -> bool): (r: seq<int>)
    ensures forall i :: i in r <==> 0 <= i < n && Holds(p, i)
  {
    RangeMembers(n);
    FilterMembers(Range(0, n), p);
    Filter(Range(0, n), p)
  }

  lemma {:induction false} FilterMembers(s: seq<int>, p: int -> bool)
    ensures forall i :: i in Filter(s, p) <==> i in s && Holds(p, i)
  {
    if s != [] {
      var init := s[..|s| - 1];
      FilterMembers(init, p);
      assert s == init + [s[|s| - 1]];
    }
  }

  lemma FilterAppend(s: seq<int>, x: int, p: int -> bool)
    ensures Filter(s + [x], p) == if p(x) then Filter(s, p) + [x] else Filter(s, p)
  {
    assert (s + [x])[..|s|] == s;
  }

  // ---- the order ----

  // Behind every index already there whose score is at least as high.
  function Insert(score: int -> real, order: seq<int>, x: int): (r: seq<int>)
    ensures |r| == |order| + 1
  {
    if order == [] || score(order[|order| - 1]) >= score(x) then order + [x]
    else Insert(score, order[..|order| - 1], x) + [order[|order| - 1]]
  }

  // The stable descending sort.
  function Sorted(score: int -> real, idxs: seq<int>): (r: seq<int>)
    ensures |r| == |idxs|
  {
    if idxs == [] then []
    else Insert(score, Sorted(score, idxs[..|idxs| - 1]), idxs[|idxs| - 1])
  }

  // Higher score first, ties by smaller index.
  predicate Before(score: int -> real, i: int, j: int) {
    score(i) > score(j) || (score(i) == score(j) && i < j)
  }

  ghost predicate Descending(score: int -> real, order: seq<int>) {
    forall p, q | 0 <= p < q < |order| :: Before(score, order[p], order[q])
  }

  lemma {:induction false} InsertMembers(score: int -> real, order: seq<int>, x: int)
    ensures forall i :: i in Insert(score, order, x) <==> i in order || i == x
  {
    if order != [] && score(order[|order| - 1]) < score(x) {
      var k := |order| - 1;
      InsertMembers(score, order[..k], x);
      assert order == order[..k] + [order[k]];
    }
  }

  lemma {:induction false} InsertDescends(score: int -> real, order: seq<int>, x: int)
    requires Descending(score, order) && forall i | i in order :: i < x
    ensures Descending(score, Insert(score, order, x))
  {
    if order != [] && score(order[|order| - 1]) < score(x) {
      var k := |order| - 1;
      forall i | i in order[..k] ensures i < x && Before(score, i, order[k]) {
        var p :| 0 <= p < k && order[..k][p] == i;
        assert order[p] in order;
      }
      InsertDescends(score, order[..k], x);
      InsertMembers(score, order[..k], x);
      var r := Insert(score, order[..k], x);
      forall p | 0 <= p < |r| ensures Before(score, r[p], order[k]) { assert r[p] in r; }
    } else {
      forall p | 0 <= p < |order| ensures Before(score, order[p], x) {
        assert order[p] in order;
        assert p < |order| - 1 ==> Before(score, order[p], order[|order| - 1]);
      }
    }
  }

  lemma {:induction false} SortedMembers(score: int -> real, idxs: seq<int>)
    ensures forall i :: i in Sorted(score, idxs) <==> i in idxs
  {
    if idxs != [] {
      var k := |idxs| - 1;
      SortedMembers(score, idxs[..k]);
      InsertMembers(score, Sorted(score, idxs[..k]), idxs[k]);
      assert idxs == idxs[..k] + [idxs[k]];
    }
  }

  /** The order the boxes are visited in: the same indices, by descending score, equal scores by
      ascending index. */
  lemma {:induction false} SortedDescends(score: int -> real, idxs: seq<int>)
    requires Ascending(idxs)
    ensures Descending(score, Sorted(score, idxs))
    ensures forall i :: i in Sorted(score, idxs) <==> i in idxs
  {
    SortedMembers(score, idxs);
    if idxs != [] {
      var k := |idxs| - 1;
      SortedDescends(score, idxs[..k]);
      InsertDescends(score, Sorted(score, idxs[..k]), idxs[k]);
    }
  }

  // ---- the greedy rule ----

  predicate Struck(kept: seq<int>, hits: (int, int) -> bool, x: int) { exists k | k in kept :: hits(k, x) }

  // An index is kept unless an index kept before it hits it.
  function Greedy(order: seq<int>, hits: (int, int) -> bool): seq<int> {
    if order == [] then []
    else
      var kept := Greedy(order[..|order| - 1], hits);
      var x := order[|order| - 1];
      if Struck(kept, hits, x) then kept else kept + [x]
  }

  lemma {:induction false} GreedyMembers(order: seq<int>, hits: (int, int) -> bool)
    ensures forall k | k in Greedy(order, hits) :: k in order
  {
    if order != [] {
      var k := |order| - 1;
      GreedyMembers(order[..k], hits);
      assert order == order[..k] + [order[k]];
    }
  }

  lemma GreedyAppend(order: seq<int>, x: int, hits: (int, int) -> bool)
    ensures Greedy(order + [x], hits) ==
      var kept := Greedy(order, hits); if Struck(kept, hits, x) then kept else kept + [x]
  {
    assert (order + [x])[..|order|] == order;
  }

  // An independent reading of greedy selection, of a set of indices rather than of a loop: an
  // index is chosen if and only if no chosen index before it hits it.
  ghost predicate Chosen(order: seq<int>, hits: (int, int) -> bool, p: int -> bool) {
    forall j | 0 <= j < |order| :: p(order[j]) <==> Free(order, hits, p, j)
  }

  ghost predicate Free(order: seq<int>, hits: (int, int) -> bool, p: int -> bool, j: nat)
    requires j < |order|
  {
    forall i | 0 <= i < j && p(order[i]) :: !hits(order[i], order[j])
  }

  /** That reading pins the selection down: whatever satisfies it is what the greedy rule keeps. */
  lemma {:induction false} ChosenIsGreedy(order: seq<int>, hits: (int, int) -> bool, p: int -> bool)
    requires Chosen(order, hits, p)
    ensures Greedy(order, hits) == Filter(order, p)
  {
    if order != [] {
      var k := |order| - 1;
      ChosenPrefix(order, hits, p, k);
      ChosenIsGreedy(order[..k], hits, p);
      hide Free, Struck;
      FreeIsNotStruck(order, hits, p, k);
    }
  }

  lemma ChosenPrefix(order: seq<int>, hits: (int, int) -> bool, p: int -> bool, k: nat)
    requires Chosen(order, hits, p) && k <= |order|
    ensures Chosen(order[..k], hits, p)
  {
    forall j | 0 <= j < k ensures p(order[..k][j]) <==> Free(order[..k], hits, p, j) {
      assert p(order[j]) <==> Free(order, hits, p, j);
    }
  }

  lemma FreeIsNotStruck(order: seq<int>, hits: (int, int) -> bool, p: int -> bool, k: nat)
    requires k < |order|
    ensures Free(order, hits, p, k) <==> !Struck(Filter(order[..k], p), hits, order[k])
  {
    hide Filter;
    FilterMembers(order[..k], p);
    if Struck(Filter(order[..k], p), hits, order[k]) {
      var x :| x in Filter(order[..k], p) && hits(x, order[k]);
      assert Holds(p, x);
      var i :| 0 <= i < k && order[..k][i] == x;
      assert order[i] == x;
    } else {
      forall i | 0 <= i < k && p(order[i]) ensures !hits(order[i], order[k]) {
        assert order[..k][i] in order[..k] && Holds(p, order[i]);
      }
    }
  }

  /** And the greedy rule satisfies it. */
  lemma {:induction false} GreedyIsChosen(order: seq<int>, hits: (int, int) -> bool)
    requires Distinct(order)
    ensures Chosen(order, hits, x => x in Greedy(order, hits))
  {
    if order != [] {
      var k := |order| - 1;
      var before, p := Greedy(order[..k], hits), (x => x in Greedy(order, hits));
      GreedyIsChosen(order[..k], hits);
      GreedyMembers(order[..k], hits);
      assert order[k] !in order[..k];
      forall i | 0 <= i < k ensures p(order[i]) <==> order[i] in before { assert order[i] != order[k]; }
      forall j | 0 <= j < |order| ensures p(order[j]) <==> Free(order, hits, p, j) {
        if j < k {
          assert order[..k][j] in before <==> Free(order[..k], hits, x => x in before, j);
        } else {
          LastIsChosen(order, hits);
        }
      }
    }
  }

  lemma LastIsChosen(order: seq<int>, hits: (int, int) -> bool)
    requires Distinct(order) && order != []
    ensures order[|order| - 1] in Greedy(order, hits) <==>
      Free(order, hits, x => x in Greedy(order, hits), |order| - 1)
  {
    var k := |order| - 1;
    var before, after := Greedy(order[..k], hits), Greedy(order, hits);
    GreedyMembers(order[..k], hits);
    assert order[k] !in before by { assert order[k] !in order[..k]; }
    if x :| x in before && hits(x, order[k]) {
      var i :| 0 <= i < k && order[..k][i] == x;
      assert order[i] in after;
    } else {
      forall i | 0 <= i < k && order[i] in after ensures !hits(order[i], order[k]) {
        assert order[i] != order[k];
      }
    }
  }
}
