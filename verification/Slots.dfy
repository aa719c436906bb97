/** Which buffer each window of a multi-crop goes to (cpp/src/dsp.cpp:1427-1499): one pool per
    distinct destination size, and within a pool the windows of that size in order. */
module Slots {
  datatype Geometry = Geometry(width: int, height: int)
  datatype Place = Place(pool: nat, slot: nat)

  // ---- the plain reading ----

  // Distinct sizes in order of first appearance.
  function Order(geoms: seq<Geometry>): (order: seq<Geometry>)
    ensures forall g :: g in order <==> g in geoms
  {
    if geoms == [] then []
    else
      var init, g := geoms[..|geoms| - 1], geoms[|geoms| - 1];
      assert geoms == init + [g];
      if g in Order(init) then Order(init) else Order(init) + [g]
  }

  function Count(geoms: seq<Geometry>, g: Geometry): nat {
    if geoms == [] then 0
    else Count(geoms[..|geoms| - 1], g) + if geoms[|geoms| - 1] == g then 1 else 0
  }

  function Find(order: seq<Geometry>, g: Geometry): (k: nat)
    requires g in order
    ensures k < |order| && order[k] == g && g !in order[..k]
  {
    if order[0] == g then 0
    else
      assert order == [order[0]] + order[1..];
      Find(order[1..], g) + 1
  }

  // Window i: the pool of its size, and how many earlier windows have that size.
  function PlaceOf(geoms: seq<Geometry>, i: nat): Place
    requires i < |geoms|
  {
    Place(Find(Order(geoms), geoms[i]), Count(geoms[..i], geoms[i]))
  }

  function Places(geoms: seq<Geometry>): (places: seq<Place>)
    ensures |places| == |geoms| && forall i | 0 <= i < |geoms| :: places[i] == PlaceOf(geoms, i)
  {
    seq(|geoms|, i requires 0 <= i < |geoms| => PlaceOf(geoms, i))
  }

  lemma CountAppend(geoms: seq<Geometry>, x: Geometry, g: Geometry)
    ensures Count(geoms + [x], g) == Count(geoms, g) + if x == g then 1 else 0
  {
    assert (geoms + [x])[..|geoms|] == geoms;
  }

  lemma {:induction false} CountGrows(geoms: seq<Geometry>, i: nat, j: nat, g: Geometry)
    requires i < j <= |geoms|
    ensures Count(geoms[..j], g) >= Count(geoms[..i], g) + if geoms[i] == g then 1 else 0
    decreases j - i
  {
    assert geoms[..i + 1] == geoms[..i] + [geoms[i]];
    CountAppend(geoms[..i], geoms[i], g);
    if i + 1 < j { CountGrows(geoms, i + 1, j, g); }
  }

  /** No size has two pools. */
  lemma {:induction false} OrderDistinct(geoms: seq<Geometry>)
    ensures forall i, j | 0 <= i < j < |Order(geoms)| :: Order(geoms)[i] != Order(geoms)[j]
  {
    if geoms != [] { OrderDistinct(geoms[..|geoms| - 1]); }
  }

  /** Sizes come in the order in which they first appear. */
  lemma {:induction false} OrderOfAppearance(geoms: seq<Geometry>, i: nat)
    requires i < |geoms| && geoms[i] !in geoms[..i]
    ensures Order(geoms[..i]) + [geoms[i]] <= Order(geoms)
    decreases |geoms|
  {
    var k := |geoms| - 1;
    if i < k {
      assert geoms[..k][..i] == geoms[..i];
      OrderOfAppearance(geoms[..k], i);
    } else {
      assert geoms[i] !in Order(geoms[..i]);
    }
  }

  /** A size counts as often as there are windows of it. */
  lemma {:induction false} CountExactly(geoms: seq<Geometry>, g: Geometry)
    ensures Count(geoms, g) == |set i | 0 <= i < |geoms| && geoms[i] == g|
  {
    var all := set i | 0 <= i < |geoms| && geoms[i] == g;
    if geoms == [] {
      assert all == {};
    } else {
      var k := |geoms| - 1;
      CountExactly(geoms[..k], g);
      var before := set i | 0 <= i < k && geoms[..k][i] == g;
      assert all == before + if geoms[k] == g then {k} else {};
    }
  }

  // What each pool is sized to.
  ghost predicate Sized(geoms: seq<Geometry>, sizes: seq<nat>) {
    |sizes| == |Order(geoms)| && forall k | 0 <= k < |sizes| :: sizes[k] == Count(geoms, Order(geoms)[k])
  }

  /** Every window has a place inside a pool sized by multiplicity, and no two windows share one. */
  lemma PlacesFitAndDiffer(geoms: seq<Geometry>, sizes: seq<nat>)
    requires Sized(geoms, sizes)
    ensures forall i | 0 <= i < |geoms| :: Places(geoms)[i].pool < |sizes| && Places(geoms)[i].slot < sizes[Places(geoms)[i].pool]
    ensures forall i, j | 0 <= i < j < |geoms| :: Places(geoms)[i] != Places(geoms)[j]
  {
    forall i | 0 <= i < |geoms| ensures PlaceOf(geoms, i).pool < |sizes| && PlaceOf(geoms, i).slot < sizes[PlaceOf(geoms, i).pool] {
      CountGrows(geoms, i, |geoms|, geoms[i]);
      assert geoms[..|geoms|] == geoms;
    }
    forall i, j | 0 <= i < j < |geoms| ensures PlaceOf(geoms, i) != PlaceOf(geoms, j) {
      if geoms[i] == geoms[j] { CountGrows(geoms, i, j, geoms[i]); }
    }
  }

  // ---- the loops ----

  method Group(geoms: seq<Geometry>) returns (order: seq<Geometry>, perGeom: map<Geometry, nat>)
    ensures order == Order(geoms) && perGeom.Keys == set g | g in geoms
    ensures forall g | g in geoms :: perGeom[g] == Count(geoms, g)
  {
    hide Order, Count;
    order, perGeom := [], map[];
    EmptyOrder();
    for i := 0 to |geoms|
      invariant order == Order(geoms[..i])
      invariant forall g :: g in perGeom <==> g in geoms[..i]
      invariant forall g | g in perGeom :: perGeom[g] == Count(geoms[..i], g)
    {
      var g := geoms[i];
      assert geoms[..i + 1] == geoms[..i] + [g];
      OrderAppend(geoms[..i], g);
      if g !in perGeom {
        AbsentCounts(geoms[..i], g);
        order := order + [g];
        perGeom := perGeom[g := 0];
      }
      forall x | x in perGeom ensures Count(geoms[..i + 1], x) == perGeom[x] + if x == g then 1 else 0 {
        CountAppend(geoms[..i], g, x);
      }
      perGeom := perGeom[g := perGeom[g] + 1];
    }
    assert geoms[..|geoms|] == geoms;
  }

  lemma EmptyOrder()
    ensures Order([]) == []
  {
  }

  lemma OrderAppend(geoms: seq<Geometry>, g: Geometry)
    ensures Order(geoms + [g]) == if g in geoms then Order(geoms) else Order(geoms) + [g]
  {
    assert (geoms + [g])[..|geoms|] == geoms;
  }

  lemma {:induction false} AbsentCounts(geoms: seq<Geometry>, g: Geometry)
    requires g !in geoms
    ensures Count(geoms, g) == 0
  {
    if geoms != [] { AbsentCounts(geoms[..|geoms| - 1], g); }
  }

  ghost predicate Taken(slots: map<Geometry, nat>, geoms: seq<Geometry>, i: nat)
    requires i <= |geoms|
  {
    (forall g :: g in slots <==> g in geoms) && forall g | g in slots :: slots[g] == Count(geoms[..i], g)
  }

  // Each of the three loops starts from a map with every size at slot 0.
  method ZeroSlots(order: seq<Geometry>, ghost geoms: seq<Geometry>) returns (slots: map<Geometry, nat>)
    requires order == Order(geoms)
    ensures Taken(slots, geoms, 0)
  {
    slots := map g | g in order :: 0;
  }

  lemma TakenNext(slots: map<Geometry, nat>, geoms: seq<Geometry>, i: nat)
    requires i < |geoms| && Taken(slots, geoms, i)
    ensures geoms[i] in slots && slots[geoms[i]] == PlaceOf(geoms, i).slot
    ensures Taken(slots[geoms[i] := slots[geoms[i]] + 1], geoms, i + 1)
  {
    assert geoms[..i + 1] == geoms[..i] + [geoms[i]];
    forall g | g in slots ensures Count(geoms[..i + 1], g) == slots[g] + if g == geoms[i] then 1 else 0 {
      CountAppend(geoms[..i], geoms[i], g);
    }
  }

  // ids[k][s]: buffer s of pool k.
  ghost predicate Allotted(geoms: seq<Geometry>, ids: seq<seq<nat>>) {
    |ids| == |Order(geoms)| && forall k | 0 <= k < |ids| :: |ids[k]| >= Count(geoms, Order(geoms)[k])
  }

  lemma AllottedPlace(geoms: seq<Geometry>, ids: seq<seq<nat>>, i: nat)
    requires Allotted(geoms, ids) && i < |geoms|
    ensures PlaceOf(geoms, i).pool < |ids| && PlaceOf(geoms, i).slot < |ids[PlaceOf(geoms, i).pool]|
  {
    CountGrows(geoms, i, |geoms|, geoms[i]);
    assert geoms[..|geoms|] == geoms;
  }

  function BufferAt(geoms: seq<Geometry>, ids: seq<seq<nat>>, i: nat): nat
    requires Allotted(geoms, ids) && i < |geoms|
  {
    AllottedPlace(geoms, ids, i);
    ids[PlaceOf(geoms, i).pool][PlaceOf(geoms, i).slot]
  }

  // The destination ids of the job, in window order.
  method DestinationIds(geoms: seq<Geometry>, order: seq<Geometry>, ids: seq<seq<nat>>) returns (dst: seq<nat>)
    requires order == Order(geoms) && Allotted(geoms, ids)
    ensures |dst| == |geoms| && forall i | 0 <= i < |geoms| :: dst[i] == BufferAt(geoms, ids, i)
  {
    hide Order, Count;
    var slots := ZeroSlots(order, geoms);
    dst := [];
    for i := 0 to |geoms|
      invariant Taken(slots, geoms, i) && |dst| == i
      invariant forall j | 0 <= j < i :: dst[j] == BufferAt(geoms, ids, j)
    {
      var g := geoms[i];
      TakenNext(slots, geoms, i);
      AllottedPlace(geoms, ids, i);
      dst := dst + [ids[Find(order, g)][slots[g]]];
      slots := slots[g := slots[g] + 1];
    }
  }

  // Where an asynchronous job's results are to be read from.
  method PendingReads(geoms: seq<Geometry>, order: seq<Geometry>) returns (places: seq<Place>)
    requires order == Order(geoms)
    ensures places == Places(geoms)
  {
    hide Order, Count;
    var slotOf := ZeroSlots(order, geoms);
    places := [];
    for i := 0 to |geoms|
      invariant Taken(slotOf, geoms, i) && |places| == i
      invariant forall j | 0 <= j < i :: places[j] == PlaceOf(geoms, j)
    {
      var g := geoms[i];
      TakenNext(slotOf, geoms, i);
      places := places + [Place(Find(order, g), slotOf[g])];
      slotOf := slotOf[g := slotOf[g] + 1];
    }
  }

  // The results of a synchronous job, read out of the pools.
  method ReadBack<T>(geoms: seq<Geometry>, order: seq<Geometry>, ids: seq<seq<nat>>, pixels: map<nat, T>)
    returns (out: seq<T>)
    requires order == Order(geoms) && Allotted(geoms, ids)
    requires forall i | 0 <= i < |geoms| :: BufferAt(geoms, ids, i) in pixels
    ensures |out| == |geoms| && forall i | 0 <= i < |geoms| :: out[i] == pixels[BufferAt(geoms, ids, i)]
  {
    hide Order, Count;
    var done := ZeroSlots(order, geoms);
    out := [];
    for i := 0 to |geoms|
      invariant Taken(done, geoms, i) && |out| == i
      invariant forall j | 0 <= j < i :: out[j] == pixels[BufferAt(geoms, ids, j)]
    {
      var g := geoms[i];
      TakenNext(done, geoms, i);
      AllottedPlace(geoms, ids, i);
      assert ids[Find(order, g)][done[g]] == BufferAt(geoms, ids, i);
      out := out + [pixels[ids[Find(order, g)][done[g]]]];
      done := done[g := done[g] + 1];
    }
  }

  // ---- through the daemon ----

  // The daemon writes crop i into destination i, in order.
  function Rendered<T>(pixels: map<nat, T>, dst: seq<nat>, crops: seq<T>): map<nat, T>
    requires |dst| == |crops|
  {
    if dst == [] then pixels
    else
      var k := |dst| - 1;
      Rendered(pixels, dst[..k], crops[..k])[dst[k] := crops[k]]
  }

  lemma {:induction false} RenderedAt<T>(pixels: map<nat, T>, dst: seq<nat>, crops: seq<T>, i: nat)
    requires |dst| == |crops| && i < |dst| && forall j, k | 0 <= j < k < |dst| :: dst[j] != dst[k]
    ensures dst[i] in Rendered(pixels, dst, crops) && Rendered(pixels, dst, crops)[dst[i]] == crops[i]
  {
    var k := |dst| - 1;
    if i < k { RenderedAt(pixels, dst[..k], crops[..k], i); }
  }

  // No two buffers of the pools share an id.
  ghost predicate Unshared(ids: seq<seq<nat>>) {
    forall a, b, s, t | 0 <= a < |ids| && 0 <= b < |ids| && 0 <= s < |ids[a]| && 0 <= t < |ids[b]| && ids[a][s] == ids[b][t] ::
      a == b && s == t
  }

  /** Output i is crop i, for every window list: grouping, submitting and reading back agree, and no
      window's result lands on another's. */
  method MultiCrop<T>(geoms: seq<Geometry>, ids: seq<seq<nat>>, pixels: map<nat, T>, crops: seq<T>)
    returns (out: seq<T>)
    requires Allotted(geoms, ids) && Unshared(ids) && |crops| == |geoms|
    ensures out == crops
  {
    hide Order, Count;
    var order, perGeom := Group(geoms);
    var dst := DestinationIds(geoms, order, ids);
    forall j, k | 0 <= j < k < |dst| ensures dst[j] != dst[k] { BuffersDiffer(geoms, ids, j, k); }
    ghost var after := Rendered(pixels, dst, crops);
    forall i | 0 <= i < |geoms| ensures dst[i] in after && after[dst[i]] == crops[i] { RenderedAt(pixels, dst, crops, i); }
    out := ReadBack(geoms, order, ids, Rendered(pixels, dst, crops));
  }

  lemma BuffersDiffer(geoms: seq<Geometry>, ids: seq<seq<nat>>, j: nat, k: nat)
    requires Allotted(geoms, ids) && Unshared(ids) && j < k < |geoms|
    ensures BufferAt(geoms, ids, j) != BufferAt(geoms, ids, k)
  {
    AllottedPlace(geoms, ids, j);
    AllottedPlace(geoms, ids, k);
    if geoms[j] == geoms[k] { CountGrows(geoms, j, k, geoms[j]); }
  }
}
