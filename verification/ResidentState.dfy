/** The shared state of the resident client as cpp/src/accel.cpp keeps it: a slot, a vector of
    retired clients and a counter, changed under one lock. */
module ResidentState {
  import opened Wrappers
  import opened Resident

  // The retired clients that have a live pool, or that have none, in order.
  function Sieve(retired: seq<nat>, live: set<nat>, keep: bool): seq<nat> {
    if retired == [] then []
    else
      var c := retired[|retired| - 1];
      Sieve(retired[..|retired| - 1], live, keep) + if (c in live) == keep then [c] else []
  }

  lemma SieveStep(retired: seq<nat>, live: set<nat>, keep: bool, i: nat)
    requires i < |retired|
    ensures Sieve(retired[..i + 1], live, keep) ==
      Sieve(retired[..i], live, keep) + if (retired[i] in live) == keep then [retired[i]] else []
  {
    assert retired[..i + 1][..i] == retired[..i];
  }

  lemma {:induction false} SieveMembers(retired: seq<nat>, live: set<nat>, keep: bool, c: nat)
    ensures c in Sieve(retired, live, keep) <==> c in retired && (c in live) == keep
  {
    if retired != [] {
      SieveMembers(retired[..|retired| - 1], live, keep, c);
      assert retired == retired[..|retired| - 1] + [retired[|retired| - 1]];
    }
  }

  /** The vector and the set tell the same story: what the erasing loop takes is exactly what a
      drain step takes, and what it leaves is what the step leaves. */
  lemma SieveIsIdle(s: State, retired: seq<nat>, live: set<nat>)
    requires s.active == 0 && s.retired == (set c | c in retired) && forall c :: c in live <==> HasPools(s, c)
    ensures (set c | c in Sieve(retired, live, false)) == Idle(s)
    ensures (set c | c in Sieve(retired, live, true)) == s.retired - Idle(s)
  {
    forall c ensures c in Sieve(retired, live, false) <==> c in Idle(s) {
      SieveMembers(retired, live, false, c);
    }
    forall c ensures c in Sieve(retired, live, true) <==> c in s.retired - Idle(s) {
      SieveMembers(retired, live, true, c);
    }
  }

  class Slot {
    var shared: Option<nat>
    var retired: seq<nat>
    var active: int
    var next: nat

    constructor ()
      ensures shared == None && retired == [] && active == 0 && next == 0
    {
      shared, retired, active, next := None, [], 0, 0;
    }

    method LazyClient() returns (c: nat)
      modifies this
      ensures shared == Some(c) && retired == old(retired) && active == old(active)
      ensures if old(shared).Some? then c == old(shared).value && next == old(next) else c == old(next) && next == c + 1
    {
      if shared.None? {
        shared, next := Some(next), next + 1;
      }
      c := shared.value;
    }

    method Enter()
      modifies this
      ensures active == old(active) + 1 && shared == old(shared) && retired == old(retired) && next == old(next)
    {
      active := active + 1;
    }

    method Exit()
      modifies this
      ensures active == old(active) - 1 && shared == old(shared) && retired == old(retired) && next == old(next)
    {
      active := active - 1;
    }

    // The locked part of dsp_drop_shared; mine tells whether a drain follows.
    method Drop(c: nat) returns (mine: bool)
      modifies this
      ensures mine == (old(shared) == Some(c)) && active == old(active) && next == old(next)
      ensures if mine then shared == None && retired == old(retired) + [c] else shared == old(shared) && retired == old(retired)
    {
      if shared != Some(c) {
        return false;
      }
      shared := None;
      retired := retired + [c];
      mine := true;
    }

    /** The locked part of drain_retired: nothing while a call is counted; otherwise every retired
        client without a live pool leaves the vector, the others stay in order. */
    method TakeIdle(live: set<nat>) returns (done: seq<nat>)
      modifies this
      ensures shared == old(shared) && active == old(active) && next == old(next)
      ensures old(active) != 0 ==> done == [] && retired == old(retired)
      ensures old(active) == 0 ==> done == Sieve(old(retired), live, false) && retired == Sieve(old(retired), live, true)
    {
      hide Sieve;
      done := [];
      if active != 0 {
        return;
      }
      ghost var was, seen := retired, 0;
      var i := 0;
      assert was[..0] == [] && Sieve([], live, false) == [] && Sieve([], live, true) == [] by { SieveNothing(live); }
      while i < |retired|
        invariant 0 <= i <= |retired| && seen <= |was|
        invariant retired[..i] == Sieve(was[..seen], live, true)
        invariant retired[i..] == was[seen..]
        invariant done == Sieve(was[..seen], live, false)
        invariant shared == old(shared) && active == old(active) && next == old(next)
        decreases |retired| - i
      {
        SieveStep(was, live, true, seen);
        SieveStep(was, live, false, seen);
        assert retired[i] == retired[i..][0] == was[seen];
        assert retired[i + 1..] == retired[i..][1..] == was[seen..][1..] == was[seen + 1..];
        if retired[i] !in live {
          done := done + [retired[i]];
          ghost var left, right := retired[..i], retired[i + 1..];
          retired := retired[..i] + retired[i + 1..];
          assert retired[..i] == left && retired[i..] == right;
        } else {
          assert retired[..i + 1] == retired[..i] + [retired[i]];
          i := i + 1;
        }
        seen := seen + 1;
      }
      assert retired == retired[..i] && was[..seen] == was;
    }

    /** shared_call_leave, with nobody between its two lock regions: the last call out takes every
        retired client without a live pool, any other takes nothing. */
    method CallLeave(live: set<nat>) returns (done: seq<nat>)
      modifies this
      ensures active == old(active) - 1 && shared == old(shared) && next == old(next)
      ensures old(active) == 1 ==> done == Sieve(old(retired), live, false) && retired == Sieve(old(retired), live, true)
      ensures old(active) != 1 ==> done == [] && retired == old(retired)
    {
      Exit();
      done := TakeIdle(live);
    }
  }

  lemma SieveNothing(live: set<nat>)
    ensures Sieve([], live, false) == [] && Sieve([], live, true) == []
  {
  }
}
