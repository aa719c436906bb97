/** The round-robin rotation of the frame publisher's slots (cpp/src/detail/injection_logic.hpp:188-201,
    cpp/src/injection.cpp:335-357). */
module Rotation {
  import opened Division
  import opened Sequences

  // ---- picking a slot ----

  function Mod(x: nat, n: nat): (r: nat)
    requires n > 0
    ensures r < n
  {
    x % n
  }

  // The slot off turns past the cursor.
  function Turn(cursor: nat, n: nat, off: nat): (slot: nat)
    requires n > 0
    ensures slot < n
  {
    Mod(cursor + off, n)
  }

  // Where the cursor goes once a slot is taken.
  function After(slot: nat, n: nat): (next: nat)
    requires slot < n
    ensures next < n
  {
    Mod(slot + 1, n)
  }

  // The first free slot at or after cursor + off in rotation, or -1.
  function PickFrom(cursor: nat, ids: seq<nat>, inFlight: set<nat>, off: nat): (slot: int)
    requires |ids| > 0 && off <= |ids|
    ensures -1 <= slot < |ids|
    ensures slot >= 0 ==> ids[slot] !in inFlight
    decreases |ids| - off
  {
    if off == |ids| then -1
    else if ids[Turn(cursor, |ids|, off)] !in inFlight then Turn(cursor, |ids|, off)
    else PickFrom(cursor, ids, inFlight, off + 1)
  }

  function PickSlot(cursor: nat, ids: seq<nat>, inFlight: set<nat>): (slot: int)
    requires |ids| > 0
    ensures -1 <= slot < |ids|
    ensures slot >= 0 ==> ids[slot] !in inFlight
  {
    PickFrom(cursor, ids, inFlight, 0)
  }

  lemma {:induction false} PickFromExactly(cursor: nat, ids: seq<nat>, inFlight: set<nat>, off: nat)
    requires |ids| > 0 && off <= |ids|
    ensures var slot := PickFrom(cursor, ids, inFlight, off);
      if slot < 0 then forall k | off <= k < |ids| :: ids[Turn(cursor, |ids|, k)] in inFlight
      else exists k | off <= k < |ids| :: FirstFree(cursor, ids, inFlight, off, k) && slot == Turn(cursor, |ids|, k)
    decreases |ids| - off
  {
    hide Turn;
    if off < |ids| {
      if ids[Turn(cursor, |ids|, off)] !in inFlight {
        assert FirstFree(cursor, ids, inFlight, off, off);
      } else {
        PickFromExactly(cursor, ids, inFlight, off + 1);
        if PickFrom(cursor, ids, inFlight, off + 1) >= 0 {
          var k :| off + 1 <= k < |ids| && FirstFree(cursor, ids, inFlight, off + 1, k) &&
                   PickFrom(cursor, ids, inFlight, off + 1) == Turn(cursor, |ids|, k);
          assert FirstFree(cursor, ids, inFlight, off, k);
        }
      }
    }
  }

  // k turns past the cursor is the first free slot, looking from turn off on.
  ghost predicate FirstFree(cursor: nat, ids: seq<nat>, inFlight: set<nat>, off: nat, k: nat)
    requires |ids| > 0
  {
    ids[Turn(cursor, |ids|, k)] !in inFlight && forall j | off <= j < k :: ids[Turn(cursor, |ids|, j)] in inFlight
  }

  // Some turn of the rotation reaches every slot.
  lemma TurnReaches(cursor: nat, n: nat, i: nat) returns (k: nat)
    requires i < n
    ensures k < n && Turn(cursor, n, k) == i
  {
    var c := cursor % n;
    k := if i >= c then i - c else i + n - c;
    assert cursor == (cursor / n) * n + c;
    if i >= c { Unique(cursor + k, n, cursor / n, i); } else { Unique(cursor + k, n, cursor / n + 1, i); }
  }

  /** A slot is refused exactly when every buffer is in flight; otherwise it is the first free one
      of the rotation. */
  lemma PickExactly(cursor: nat, ids: seq<nat>, inFlight: set<nat>)
    requires |ids| > 0
    ensures PickSlot(cursor, ids, inFlight) < 0 <==> forall id | id in ids :: id in inFlight
    ensures PickSlot(cursor, ids, inFlight) >= 0 ==>
      exists k | 0 <= k < |ids| :: FirstFree(cursor, ids, inFlight, 0, k) && PickSlot(cursor, ids, inFlight) == Turn(cursor, |ids|, k)
  {
    PickFromExactly(cursor, ids, inFlight, 0);
    if PickSlot(cursor, ids, inFlight) < 0 {
      forall id | id in ids ensures id in inFlight {
        var i :| 0 <= i < |ids| && ids[i] == id;
        var k := TurnReaches(cursor, |ids|, i);
      }
    } else {
      assert ids[PickSlot(cursor, ids, inFlight)] in ids;
    }
  }

  // ---- counting free slots ----

  // Slots the client believes free.
  function Free(ids: seq<nat>, inFlight: set<nat>): nat {
    if ids == [] then 0 else Free(ids[1..], inFlight) + if ids[0] in inFlight then 0 else 1
  }

  lemma {:induction false} FreeZero(ids: seq<nat>, inFlight: set<nat>)
    ensures Free(ids, inFlight) == 0 <==> forall id | id in ids :: id in inFlight
  {
    if ids != [] {
      FreeZero(ids[1..], inFlight);
      assert ids == [ids[0]] + ids[1..];
    }
  }

  lemma {:induction false} FreeUnmarked(ids: seq<nat>, inFlight: set<nat>, id: nat)
    requires id !in ids
    ensures Free(ids, inFlight + {id}) == Free(ids, inFlight)
  {
    if ids != [] { FreeUnmarked(ids[1..], inFlight, id); }
  }

  lemma {:induction false} FreeMarked(ids: seq<nat>, inFlight: set<nat>, id: nat)
    requires id in ids && id !in inFlight && Distinct(ids)
    ensures Free(ids, inFlight + {id}) == Free(ids, inFlight) - 1
  {
    if ids[0] == id {
      FreeUnmarked(ids[1..], inFlight, id);
    } else {
      FreeMarked(ids[1..], inFlight, id);
    }
  }

  function Members(ids: seq<nat>): set<nat> { set id | id in ids }

  lemma MembersCons(ids: seq<nat>)
    requires ids != [] && Distinct(ids)
    ensures Members(ids) == Members(ids[1..]) + {ids[0]} && ids[0] !in Members(ids[1..]) && Distinct(ids[1..])
  {
    assert ids == [ids[0]] + ids[1..];
  }

  lemma {:induction false} FreeIsCount(ids: seq<nat>, inFlight: set<nat>)
    requires Distinct(ids)
    ensures Free(ids, inFlight) == |Members(ids) - inFlight|
  {
    if ids == [] {
      assert Members(ids) - inFlight == {};
    } else {
      MembersCons(ids);
      FreeIsCount(ids[1..], inFlight);
      hide Members, Distinct;
      OneMore(Members(ids), Members(ids[1..]), ids[0], inFlight);
    }
  }

  lemma OneMore(all: set<nat>, rest: set<nat>, x: nat, inFlight: set<nat>)
    requires all == rest + {x} && x !in rest
    ensures |all - inFlight| == |rest - inFlight| + if x in inFlight then 0 else 1
  {
    if x in inFlight {
      assert all - inFlight == rest - inFlight;
    } else {
      assert all - inFlight == (rest - inFlight) + {x};
    }
  }

  // ---- what the rotation still has to pass before it comes to a slot ----

  // The buffers met from turn off on, before r.
  function Upto(cursor: nat, ids: seq<nat>, r: nat, off: nat): set<nat>
    requires |ids| > 0
    decreases |ids| - off
  {
    if off >= |ids| || ids[Turn(cursor, |ids|, off)] == r then {}
    else {ids[Turn(cursor, |ids|, off)]} + Upto(cursor, ids, r, off + 1)
  }

  // Buffers before r in rotation.
  function Ahead(cursor: nat, ids: seq<nat>, r: nat): set<nat>
    requires |ids| > 0
  {
    Upto(cursor, ids, r, 0)
  }

  lemma TurnDiffers(cursor: nat, n: nat, i: nat, j: nat)
    requires i < j < n
    ensures Turn(cursor, n, i) != Turn(cursor, n, j)
  {
    var q, r := (cursor + i) / n, (cursor + i) % n;
    var x := r + (j - i);
    assert cursor + i == q * n + r;
    if x < n { Unique(cursor + j, n, q, x); } else { Unique(cursor + j, n, q + 1, x - n); }
  }

  lemma {:induction false} UptoMembers(cursor: nat, ids: seq<nat>, r: nat, off: nat, x: nat) returns (k: nat)
    requires |ids| > 0 && x in Upto(cursor, ids, r, off)
    ensures off <= k < |ids| && ids[Turn(cursor, |ids|, k)] == x && x != r
    decreases |ids| - off
  {
    hide Turn;
    if x == ids[Turn(cursor, |ids|, off)] { k := off; } else { k := UptoMembers(cursor, ids, r, off + 1, x); }
  }

  lemma UptoForgets(cursor: nat, ids: seq<nat>, r: nat, k: nat)
    requires |ids| > 0 && Distinct(ids) && k < |ids|
    ensures ids[Turn(cursor, |ids|, k)] !in Upto(cursor, ids, r, k + 1)
  {
    hide Upto, Turn;
    var x := ids[Turn(cursor, |ids|, k)];
    if x in Upto(cursor, ids, r, k + 1) {
      var j := UptoMembers(cursor, ids, r, k + 1, x);
      TurnDiffers(cursor, |ids|, k, j);
      assert false;
    }
  }

  // Turns off..k are in flight, all but the last.
  lemma {:induction false} UptoSplit(cursor: nat, ids: seq<nat>, inFlight: set<nat>, r: nat, off: nat, k: nat)
    requires |ids| > 0 && off <= k < |ids| && r !in inFlight && FirstFree(cursor, ids, inFlight, off, k)
    ensures var x := ids[Turn(cursor, |ids|, k)];
      if x == r then Upto(cursor, ids, r, off) <= inFlight
      else && x in Upto(cursor, ids, r, off) && Upto(cursor, ids, r, k + 1) <= Upto(cursor, ids, r, off)
           && Upto(cursor, ids, r, off) - Upto(cursor, ids, r, k + 1) - {x} <= inFlight
    decreases k - off
  {
    hide Turn;
    if off < k {
      assert ids[Turn(cursor, |ids|, off)] in inFlight;
      assert FirstFree(cursor, ids, inFlight, off + 1, k);
      UptoSplit(cursor, ids, inFlight, r, off + 1, k);
    }
  }

  // The cursor behind turn k sees the later turns as its own.
  lemma TurnShift(cursor: nat, n: nat, k: nat, j: nat)
    requires n > 0
    ensures Turn(After(Turn(cursor, n, k), n), n, j) == Turn(cursor, n, k + 1 + j)
  {
    hide Mod;
    ModSum(cursor + k, n, 1 + j);
    ModSum(Turn(cursor, n, k) + 1, n, j);
  }

  lemma ModSum(a: nat, n: nat, b: nat)
    requires n > 0
    ensures Mod(Mod(a, n) + b, n) == Mod(a + b, n)
  {
    var x := a % n + b;
    var q, r := x / n, x % n;
    assert a == (a / n) * n + a % n && x == q * n + r;
    assert a + b == (a / n + q) * n + r by { Distribute(a / n + q, a / n, n); }
    Unique(a + b, n, a / n + q, r);
  }

  lemma {:induction false} UptoShift(cursor: nat, ids: seq<nat>, r: nat, k: nat, j: nat, d: nat)
    requires |ids| > 0 && k + 1 + j <= d < |ids| && ids[Turn(cursor, |ids|, d)] == r
    ensures Upto(After(Turn(cursor, |ids|, k), |ids|), ids, r, j) == Upto(cursor, ids, r, k + 1 + j)
    decreases d - j
  {
    hide Turn, After;
    TurnShift(cursor, |ids|, k, j);
    if ids[Turn(cursor, |ids|, k + 1 + j)] != r { UptoShift(cursor, ids, r, k, j + 1, d); }
  }

  /** One pick moves the rotation past exactly one free slot: while a free slot lies before r, it is
      taken and only slots in flight are passed over; when none does, r itself is taken. */
  lemma PickPasses(cursor: nat, ids: seq<nat>, inFlight: set<nat>, r: nat)
    requires |ids| > 0 && Distinct(ids) && r in ids && r !in inFlight
    ensures PickSlot(cursor, ids, inFlight) >= 0
    ensures var slot := PickSlot(cursor, ids, inFlight);
      var x, before, after := ids[slot], Ahead(cursor, ids, r), Ahead(After(slot, |ids|), ids, r);
      if x == r then before <= inFlight
      else x in before && x !in after && after <= before && before - after - {x} <= inFlight
  {
    hide Upto, Turn, FirstFree;
    PickExactly(cursor, ids, inFlight);
    var n := |ids|;
    var k :| 0 <= k < n && FirstFree(cursor, ids, inFlight, 0, k) && PickSlot(cursor, ids, inFlight) == Turn(cursor, n, k);
    UptoSplit(cursor, ids, inFlight, r, 0, k);
    if ids[Turn(cursor, n, k)] != r {
      var i :| 0 <= i < n && ids[i] == r;
      var d := TurnReaches(cursor, n, i);
      FirstFreeIsFirst(cursor, ids, inFlight, k, d);
      UptoShift(cursor, ids, r, k, 0, d);
      UptoForgets(cursor, ids, r, k);
    }
  }

  lemma FirstFreeIsFirst(cursor: nat, ids: seq<nat>, inFlight: set<nat>, k: nat, d: nat)
    requires |ids| > 0 && FirstFree(cursor, ids, inFlight, 0, k)
    requires ids[Turn(cursor, |ids|, d)] !in inFlight && ids[Turn(cursor, |ids|, d)] != ids[Turn(cursor, |ids|, k)]
    ensures k < d
  {
    hide Turn;
  }

  /** Right after a slot was taken every other one lies before it. */
  lemma AllAhead(cursor: nat, ids: seq<nat>, slot: nat)
    requires Distinct(ids) && slot < |ids| && cursor == After(slot, |ids|)
    ensures Ahead(cursor, ids, ids[slot]) == Members(ids) - {ids[slot]}
  {
    var n, r := |ids|, ids[slot];
    forall id | id in ids && id != r ensures id in Ahead(cursor, ids, r) {
      var i :| 0 <= i < n && ids[i] == id;
      var k := TurnReaches(cursor, n, i);
      var d := LastTurn(cursor, n, slot);
      if k < d { Reached(cursor, ids, r, 0, k, d); }
    }
    forall id | id in Ahead(cursor, ids, r) ensures id in ids && id != r {
      var k := UptoMembers(cursor, ids, r, 0, id);
    }
  }

  lemma LastTurn(cursor: nat, n: nat, slot: nat) returns (d: nat)
    requires slot < n && cursor == After(slot, n)
    ensures d == n - 1 && Turn(cursor, n, d) == slot
  {
    d := n - 1;
    ModSum(slot + 1, n, d);
    Unique(slot + 1 + d, n, 1, slot);
  }

  lemma {:induction false} Reached(cursor: nat, ids: seq<nat>, r: nat, off: nat, k: nat, d: nat)
    requires Distinct(ids) && off <= k < d < |ids| && ids[Turn(cursor, |ids|, d)] == r
    ensures ids[Turn(cursor, |ids|, k)] in Upto(cursor, ids, r, off)
    decreases k - off
  {
    TurnDiffers(cursor, |ids|, off, d);
    hide Turn;
    if off < k { Reached(cursor, ids, r, off + 1, k, d); }
  }
}
