/** What every interleaving of shared_dsp_call keeps. */
module ResidentSafety {
  import opened Wrappers
  import opened Resident

  // ---- the counter ----

  predicate SameBut(s: State, r: State, t: nat) {
    && (forall u | u in s.threads && u != t :: u in r.threads && s.threads[u] == r.threads[u])
    && (forall u | u in r.threads && u != t :: u in s.threads)
  }

  function Weight(s: State, t: nat): int { if t in s.threads && Counted(s.threads[t]) then 1 else 0 }

  lemma WithAndWithout(a: set<nat>, t: nat)
    ensures |a| == |a - {t}| + if t in a then 1 else 0
  {
    if t in a {
      assert a == (a - {t}) + {t};
    } else {
      assert a == a - {t};
    }
  }

  lemma MoveCounted(s: State, r: State, t: nat)
    requires SameBut(s, r, t)
    ensures |CountedThreads(r)| - Weight(r, t) == |CountedThreads(s)| - Weight(s, t)
  {
    assert CountedThreads(s) - {t} == CountedThreads(r) - {t};
    WithAndWithout(CountedThreads(s), t);
    WithAndWithout(CountedThreads(r), t);
  }

  // The thread a step belongs to.
  function Mover(step: Step): nat {
    match step
    case Fetch(t) => t
    case Count(t) => t
    case MakePool(t, _) => t
    case Succeed(t) => t
    case Fail(t) => t
    case Drop(t) => t
    case Leave(t) => t
    case Drain(t) => t
    case Close(t, _) => t
    case ReleasePool(_) => 0
    case Collect(_) => 0
  }

  lemma OthersStay(s: State, step: Step)
    requires Enabled(s, step)
    ensures SameBut(s, Apply(s, step), Mover(step))
  {
    hide Idle, HasPools;
  }

  lemma KeepsCounter(s: State, step: Step)
    requires CounterExact(s) && Enabled(s, step)
    ensures CounterExact(Apply(s, step))
  {
    OthersStay(s, step);
    MoveCounted(s, Apply(s, step), Mover(step));
    hide CountedThreads, Idle, HasPools;
  }

  // ---- who is gone ----

  /** A drain with no call counted leaves no retired client behind but those with a live pool, and the others
      are on their way to be closed; with a call counted it takes none. */
  lemma DrainTakesAll(s: State, t: nat)
    requires Enabled(s, Drain(t))
    ensures var u := Apply(s, Drain(t));
      if s.active != 0 then u.retired == s.retired
      else forall c | c in s.retired ::
        if exists p | p in s.pools :: s.pools[p].client == c then c in u.retired
        else c !in u.retired && t in u.threads && u.threads[t].Closing? && c in u.threads[t].clients
  {
    var u := Apply(s, Drain(t));
    if s.active == 0 {
      forall c | c in s.retired
        ensures if exists p | p in s.pools :: s.pools[p].client == c then c in u.retired
                else c !in u.retired && t in u.threads && u.threads[t].Closing? && c in u.threads[t].clients
      {
        assert c in Idle(s) <==> !HasPools(s, c);
        hide Idle;
      }
    }
  }

  /** A client becomes gone in one way only: a drain takes it out of the retired set. */
  lemma GoneStep(s: State, step: Step, c: nat)
    requires Enabled(s, step)
    ensures Gone(Apply(s, step), c) <==> Gone(s, c) || (step.Drain? && c in Idle(s))
  {
    hide Idle;
    var r, t := Apply(s, step), Mover(step);
    OthersStay(s, step);
    ClosingElsewhere(s, r, t, c);
    if step.Drain? && c in Idle(s) {
      assert ClosingNow(r, t, c);
    }
    if step.Close? && BeingClosed(s, c) && c != step.c && !BeingClosedBut(s, t, c) {
      assert c in s.threads[t].clients - {step.c};
      assert ClosingNow(r, t, c);
    }
  }

  predicate BeingClosedBut(s: State, t: nat, c: nat) {
    exists u | u in s.threads :: u != t && ClosingNow(s, u, c)
  }

  lemma ClosingElsewhere(s: State, r: State, t: nat, c: nat)
    requires SameBut(s, r, t)
    ensures BeingClosed(s, c) <==> BeingClosedBut(s, t, c) || ClosingNow(s, t, c)
    ensures BeingClosed(r, c) <==> BeingClosedBut(s, t, c) || ClosingNow(r, t, c)
  {
    if BeingClosed(s, c) {
      var u :| u in s.threads && ClosingNow(s, u, c);
    }
    if BeingClosed(r, c) {
      var u :| u in r.threads && ClosingNow(r, u, c);
      assert u != t ==> ClosingNow(s, u, c);
    }
    if BeingClosedBut(s, t, c) {
      var u :| u in s.threads && u != t && ClosingNow(s, u, c);
      assert ClosingNow(r, u, c) && u in r.threads;
    }
  }

  lemma KeepsKnown(s: State, step: Step)
    requires Known(s) && Enabled(s, step)
    ensures Known(Apply(s, step))
  {
    hide Idle, HasPools;
  }

  lemma KeepsGoneForGood(s: State, step: Step)
    requires GoneForGood(s) && Known(s) && Enabled(s, step)
    ensures GoneForGood(Apply(s, step))
  {
    hide Gone, HasPools;
    forall c | Gone(Apply(s, step), c) ensures c in Apply(s, step).everRetired && c !in Apply(s, step).retired {
      GoneStep(s, step, c);
    }
  }

  lemma ClosingStep(s: State, step: Step, t: nat, c: nat)
    requires Enabled(s, step) && ClosingNow(Apply(s, step), t, c)
    ensures (ClosingNow(s, t, c) && !(step.Close? && step.t == t && step.c == c)) || (step.Drain? && step.t == t && c in Idle(s))
  {
    hide Idle;
    OthersStay(s, step);
  }

  lemma KeepsClosedOnce(s: State, step: Step)
    requires ClosedOnce(s) && GoneForGood(s) && Enabled(s, step)
    ensures ClosedOnce(Apply(s, step))
  {
    var r := Apply(s, step);
    forall t, c | ClosingNow(r, t, c) ensures Closes(r, c) == 0 {
      ClosingStep(s, step, t, c);
      if step.Drain? && step.t == t && c in Idle(s) {
        assert c in s.retired && !Gone(s, c);
      } else if step.Close? && step.c == c {
        assert ClosingNow(s, step.t, c);
      }
    }
    forall t, u, c | ClosingNow(r, t, c) && ClosingNow(r, u, c) ensures t == u {
      ClosingStep(s, step, t, c);
      ClosingStep(s, step, u, c);
      if step.Drain? && c in Idle(s) {
        assert !Gone(s, c);
      }
    }
    if step.Close? {
      assert ClosingNow(s, step.t, step.c);
      assert forall c :: Closes(r, c) == Closes(s, c) + if c == step.c then 1 else 0;
    } else {
      assert r.closes == s.closes;
      assert forall c :: Closes(r, c) == Closes(s, c);
    }
  }

  lemma OnCallStep(s: State, step: Step, t: nat, c: nat, tracked: bool)
    requires Enabled(s, step) && t in Apply(s, step).threads && OnCall(Apply(s, step).threads[t], c, tracked)
    ensures (t in s.threads && OnCall(s.threads[t], c, tracked)) ||
            (step == Count(t) && s.threads[t].client == c && tracked == InPlace(s, c))
  {
    hide Idle, HasPools, InPlace;
    OthersStay(s, step);
  }

  lemma PoolStep(s: State, step: Step, p: nat)
    requires Enabled(s, step) && p in Apply(s, step).pools
    ensures (p in s.pools && s.pools[p] == Apply(s, step).pools[p]) ||
            (step.MakePool? && step.p == p && OnCall(s.threads[step.t], Apply(s, step).pools[p].client, Apply(s, step).pools[p].tracked))
  {
    hide Idle, HasPools;
  }

  // A drain that takes something finds no call counted at all and no pool live on what it takes.
  lemma DrainIsSafe(s: State, c: nat)
    requires CounterExact(s) && c in Idle(s)
    ensures forall t | t in s.threads :: !Counted(s.threads[t])
    ensures forall p | p in s.pools :: s.pools[p].client != c
  {
    forall t | t in s.threads ensures !Counted(s.threads[t]) {
      assert CountedThreads(s) == {};
      assert t !in CountedThreads(s);
    }
  }

  // What is in place is not gone.
  lemma InPlaceIsHere(s: State, c: nat)
    requires Known(s) && GoneForGood(s) && InPlace(s, c)
    ensures !Gone(s, c)
  {
    hide Gone;
  }

  lemma KeepsProtected(s: State, step: Step)
    requires Inv(s) && Enabled(s, step)
    ensures Protected(Apply(s, step))
  {
    var r := Apply(s, step);
    hide Apply, Gone, HasPools, Idle, CounterExact, ClosedOnce, InPlace;
    forall t, c, tracked | t in r.threads && OnCall(r.threads[t], c, tracked) ensures tracked <==> !Gone(r, c) {
      GoneStep(s, step, c);
      OnCallStep(s, step, t, c, tracked);
      if step.Drain? && c in Idle(s) {
        DrainIsSafe(s, c);
        CallIsCounted(s, t, c, tracked);
      }
      if step == Count(t) && InPlace(s, c) { InPlaceIsHere(s, c); }
    }
    forall p | p in r.pools ensures r.pools[p].tracked <==> !Gone(r, r.pools[p].client) {
      var c := r.pools[p].client;
      GoneStep(s, step, c);
      PoolStep(s, step, p);
      if step.Drain? && c in Idle(s) { DrainIsSafe(s, c); }
    }
  }

  lemma CallIsCounted(s: State, t: nat, c: nat, tracked: bool)
    requires t in s.threads && OnCall(s.threads[t], c, tracked)
    ensures Counted(s.threads[t])
  {
  }

  lemma KeepsPlaced(s: State, step: Step)
    requires Placed(s) && Enabled(s, step)
    ensures Placed(Apply(s, step))
  {
    hide HasPools, Gone;
    var r := Apply(s, step);
    forall t | t in r.threads && r.threads[t].Fetched? ensures InPlace(r, r.threads[t].client) || Gone(r, r.threads[t].client) {
      GoneStep(s, step, r.threads[t].client);
      OthersStay(s, step);
    }
  }

  lemma KeepsInv(s: State, step: Step)
    requires Inv(s) && Enabled(s, step)
    ensures Inv(Apply(s, step))
  {
    hide Apply, Protected, ClosedOnce, GoneForGood, Known, CounterExact, Placed;
    KeepsCounter(s, step);
    KeepsKnown(s, step);
    KeepsGoneForGood(s, step);
    KeepsClosedOnce(s, step);
    KeepsPlaced(s, step);
    KeepsProtected(s, step);
  }

  lemma {:induction false} FollowKeepsInv(s: State, steps: seq<Step>)
    requires Inv(s) && Follow(s, steps).Some?
    ensures Inv(Follow(s, steps).value)
    decreases |steps|
  {
    hide Inv, Apply;
    if steps != [] {
      KeepsInv(s, steps[0]);
      FollowKeepsInv(Apply(s, steps[0]), steps[1..]);
    }
  }

  lemma ReachableInv(s: State)
    requires Reachable(s)
    ensures Inv(s)
  {
    var steps :| Follow(INIT, steps) == Some(s);
    assert CountedThreads(INIT) == {};
    FollowKeepsInv(INIT, steps);
  }

  // ---- what the invariant says ----

  /** A client is closed, or being closed, beneath a counted call exactly when that call was counted
      after a drain had already taken it; beneath a live pool, exactly when such a call made it. */
  lemma GoneBeneathExactly(s: State, t: nat, c: nat, tracked: bool)
    requires Reachable(s)
    ensures t in s.threads && OnCall(s.threads[t], c, tracked) ==> (Gone(s, c) <==> !tracked)
    ensures forall p | p in s.pools && s.pools[p].client == c :: Gone(s, c) <==> !s.pools[p].tracked
  {
    hide Gone;
    ReachableInv(s);
  }

  /** No client is closed, or being closed, beneath a call counted while it was the resident or still
      to be drained, nor beneath a live pool such a call created. */
  lemma NeverClosedBeneathACall(s: State, c: nat)
    requires Reachable(s) && Gone(s, c)
    ensures forall t | t in s.threads :: !OnCall(s.threads[t], c, true)
    ensures forall p | p in s.pools && s.pools[p].client == c :: !s.pools[p].tracked
  {
    hide Gone;
    ReachableInv(s);
  }

  // The call that Count(t) counts lasts as long as there is no Leave(t).
  lemma {:induction false} CallLasts(s: State, t: nat, c: nat, tracked: bool, steps: seq<Step>, r: State)
    requires t in s.threads && OnCall(s.threads[t], c, tracked)
    requires Follow(s, steps) == Some(r) && Leave(t) !in steps
    ensures t in r.threads && OnCall(r.threads[t], c, tracked)
    decreases |steps|
  {
    if steps != [] {
      CallLastsOneStep(s, t, c, tracked, steps[0]);
      assert forall x | x in steps[1..] :: x in steps;
      hide Apply, Enabled, OnCall;
      CallLasts(Apply(s, steps[0]), t, c, tracked, steps[1..], r);
    }
  }

  lemma CallLastsOneStep(s: State, t: nat, c: nat, tracked: bool, step: Step)
    requires Enabled(s, step) && t in s.threads && OnCall(s.threads[t], c, tracked) && step != Leave(t)
    ensures t in Apply(s, step).threads && OnCall(Apply(s, step).threads[t], c, tracked)
  {
    hide Idle, HasPools;
    OthersStay(s, step);
  }

  lemma {:induction false} FollowOn(s: State, xs: seq<Step>, m: State, ys: seq<Step>)
    requires Follow(s, xs) == Some(m)
    ensures Follow(s, xs + ys) == Follow(m, ys)
    decreases |xs|
  {
    hide Apply;
    if xs == [] {
      assert xs + ys == ys;
    } else {
      FollowOn(Apply(s, xs[0]), xs[1..], m, ys);
      assert (xs + ys)[1..] == xs[1..] + ys;
    }
  }

  lemma ReachableOn(s: State, steps: seq<Step>, r: State)
    requires Reachable(s) && Follow(s, steps) == Some(r)
    ensures Reachable(r)
  {
    var before :| Follow(INIT, before) == Some(s);
    FollowOn(INIT, before, s, steps);
  }

  /** From the moment a call is counted until it leaves, its client is gone if and only if it was gone
      then; and it was gone then if and only if it was neither the resident nor in the retired set. */
  lemma CountedCallExactly(s: State, t: nat, steps: seq<Step>, r: State)
    requires Reachable(s) && Enabled(s, Count(t))
    requires Follow(Apply(s, Count(t)), steps) == Some(r) && Leave(t) !in steps
    ensures var c := s.threads[t].client;
      (Gone(r, c) <==> Gone(s, c)) && (Gone(s, c) <==> !InPlace(s, c))
  {
    var c, counted := s.threads[t].client, Apply(s, Count(t));
    ReachableInv(s);
    assert InPlace(s, c) || Gone(s, c);
    if InPlace(s, c) { InPlaceIsHere(s, c); }
    assert OnCall(counted.threads[t], c, InPlace(s, c));
    hide Apply, Gone, OnCall, InPlace;
    CallLasts(counted, t, c, InPlace(s, c), steps, r);
    OneStep(s, Count(t), steps, counted);
    ReachableOn(s, [Count(t)] + steps, r);
    GoneBeneathExactly(r, t, c, InPlace(s, c));
  }

  // Some continuation closes the client of t's call while the call is still counted.
  ghost predicate CanCloseBeneath(s: State, t: nat, c: nat) {
    exists steps, r :: Leave(t) !in steps && Follow(s, steps) == Some(r) && Closes(r, c) > 0
  }

  /** A call can have its client closed beneath it exactly when, as it is counted, the client is
      neither the resident nor in the retired set: a drain took it since it was fetched. */
  lemma CallIsSafeExactly(s: State, t: nat)
    requires Reachable(s) && Enabled(s, Count(t))
    ensures CanCloseBeneath(Apply(s, Count(t)), t, s.threads[t].client) <==> !InPlace(s, s.threads[t].client)
  {
    var c, counted := s.threads[t].client, Apply(s, Count(t));
    if InPlace(s, c) && CanCloseBeneath(counted, t, c) {
      var steps, r :| Leave(t) !in steps && Follow(counted, steps) == Some(r) && Closes(r, c) > 0;
      CountedCallExactly(s, t, steps, r);
    }
    if !InPlace(s, c) {
      CountedCallExactly(s, t, [], counted);
      CloseFollows(counted, t, c);
    }
  }

  lemma CloseFollows(s: State, t: nat, c: nat)
    requires Gone(s, c)
    ensures CanCloseBeneath(s, t, c)
  {
    if Closes(s, c) > 0 {
      assert Leave(t) !in [] && Follow(s, []) == Some(s);
    } else {
      var u :| u in s.threads && ClosingNow(s, u, c);
      var r := Apply(s, Close(u, c));
      OneStep(s, Close(u, c), [], r);
      assert Leave(t) !in [Close(u, c)] + [] && Follow(s, [Close(u, c)] + []) == Some(r);
    }
  }

  /** As the protocol promises: a call counted while its client is the resident never has it closed
      beneath it. */
  lemma ResidentCallIsSafe(s: State, t: nat, steps: seq<Step>, r: State)
    requires Reachable(s) && Enabled(s, Count(t)) && s.shared == Some(s.threads[t].client)
    requires Follow(Apply(s, Count(t)), steps) == Some(r) && Leave(t) !in steps
    ensures !Gone(r, s.threads[t].client)
  {
    CountedCallExactly(s, t, steps, r);
  }

  lemma {:induction false} PoolLasts(s: State, p: nat, steps: seq<Step>, r: State)
    requires p in s.pools && Follow(s, steps) == Some(r) && ReleasePool(p) !in steps
    ensures p in r.pools && r.pools[p] == s.pools[p]
    decreases |steps|
  {
    if steps != [] {
      var m := Apply(s, steps[0]);
      assert p in m.pools && m.pools[p] == s.pools[p] by { hide Idle, HasPools; }
      assert forall x | x in steps[1..] :: x in steps;
      hide Apply, Enabled;
      PoolLasts(m, p, steps[1..], r);
    }
  }

  /** The same of pools: while a pool lives, its client is gone if and only if it was gone when the
      pool was made. */
  lemma LivePoolExactly(s: State, t: nat, p: nat, steps: seq<Step>, r: State)
    requires Reachable(s) && Enabled(s, MakePool(t, p))
    requires Follow(Apply(s, MakePool(t, p)), steps) == Some(r) && ReleasePool(p) !in steps
    ensures Gone(r, s.threads[t].client) <==> Gone(s, s.threads[t].client)
  {
    var c, made := s.threads[t].client, Apply(s, MakePool(t, p));
    var tracked := s.threads[t].tracked;
    assert OnCall(s.threads[t], c, tracked) && made.pools[p] == Pool(c, tracked);
    GoneBeneathExactly(s, t, c, tracked);
    hide Apply, Gone, OnCall;
    PoolLasts(made, p, steps, r);
    OneStep(s, MakePool(t, p), steps, made);
    ReachableOn(s, [MakePool(t, p)] + steps, r);
    GoneBeneathExactly(r, t, c, tracked);
  }

  /** Every client is closed at most once, only after it was retired, and only after a call on it failed. */
  lemma ClosedAtMostOnce(s: State, c: nat)
    requires Reachable(s)
    ensures Closes(s, c) <= 1
    ensures Closes(s, c) == 1 ==> !BeingClosed(s, c) && c in s.everRetired && c in s.everFailed && s.shared != Some(c)
  {
    ReachableInv(s);
    if Closes(s, c) == 1 {
      assert Gone(s, c);
    }
  }

  /** Retirement is final and only a failing call causes it: a step that retires a client is the
      drop of a thread whose call on it raised, and a step that installs a resident installs a
      client constructed by that very step. */
  lemma RetirementIsFinal(s: State, step: Step, c: nat)
    requires Reachable(s) && Enabled(s, step)
    ensures c in Apply(s, step).everRetired && c !in s.everRetired ==>
              step.Drop? && s.threads[step.t].client == c && c in s.everFailed && s.shared == Some(c)
    ensures Apply(s, step).shared == Some(c) && s.shared != Some(c) ==> c == s.next && c !in s.everRetired
  {
    hide Idle, HasPools;
    ReachableInv(s);
  }

  // ---- the late call ----

  lemma OneStep(s: State, step: Step, rest: seq<Step>, t: State)
    requires Enabled(s, step) && Apply(s, step) == t
    ensures Follow(s, [step] + rest) == Follow(t, rest)
  {
    assert ([step] + rest)[1..] == rest;
  }

  /** The failing case is reachable: a thread that fetched the resident, but was counted only after
      another thread retired it and drained it, starts its call on a closed client. */
  lemma LateCallMeetsClosedClient()
    ensures exists s :: Reachable(s) && 0 in s.threads && s.threads[0] == InCall(0, false) && Closes(s, 0) == 1
  {
    var s1 := INIT.(shared := Some(0), next := 1, threads := map[0 := Fetched(0)]);
    var s2 := s1.(threads := map[0 := Fetched(0), 1 := Fetched(0)]);
    var s3 := s2.(active := 1, threads := map[0 := Fetched(0), 1 := InCall(0, true)]);
    var last := LateState();
    var r3 := OtherFails(s3);
    var r2 := [Count(1)] + r3;
    var r1 := [Fetch(1)] + r2;
    OneStep(INIT, Fetch(0), r1, s1);
    OneStep(s1, Fetch(1), r2, s2);
    OneStep(s2, Count(1), r3, s3);
    assert Follow(INIT, [Fetch(0)] + r1) == Some(last);
  }

  function LateState(): State {
    State(None, {}, 1, map[0 := InCall(0, false)], map[], 1, map[0 := 1], {0}, {0})
  }

  lemma OtherFails(s3: State) returns (r3: seq<Step>)
    requires s3 == State(Some(0), {}, 1, map[0 := Fetched(0), 1 := InCall(0, true)], map[], 1, map[], {}, {})
    ensures Follow(s3, r3) == Some(LateState())
  {
    var s4 := s3.(everFailed := {0}, threads := map[0 := Fetched(0), 1 := Failed(0, true)]);
    var s5 := s4.(shared := None, retired := {0}, everRetired := {0}, threads := map[0 := Fetched(0), 1 := Draining(ThenLeave(0, true))]);
    var r5 := OtherLeaves(s5);
    var r4 := [Drop(1)] + r5;
    r3 := [Fail(1)] + r4;
    OneStep(s3, Fail(1), r4, s4);
    OneStep(s4, Drop(1), r5, s5);
  }

  lemma OtherLeaves(s5: State) returns (r5: seq<Step>)
    requires s5 == State(None, {0}, 1, map[0 := Fetched(0), 1 := Draining(ThenLeave(0, true))], map[], 1, map[], {0}, {0})
    ensures Follow(s5, r5) == Some(LateState())
  {
    var s6 := s5.(threads := map[0 := Fetched(0), 1 := Leaving(0, true)]);
    var s7 := s6.(active := 0, threads := map[0 := Fetched(0), 1 := Draining(ThenEnd)]);
    var r7 := OtherCloses(s7);
    var r6 := [Leave(1)] + r7;
    r5 := [Drain(1)] + r6;
    OneStep(s5, Drain(1), r6, s6);
    OneStep(s6, Leave(1), r7, s7);
  }

  lemma OtherCloses(s7: State) returns (r7: seq<Step>)
    requires s7 == State(None, {0}, 0, map[0 := Fetched(0), 1 := Draining(ThenEnd)], map[], 1, map[], {0}, {0})
    ensures Follow(s7, r7) == Some(LateState())
  {
    var s8 := s7.(retired := {}, threads := map[0 := Fetched(0), 1 := Closing({0}, ThenEnd)]);
    var s9 := s8.(closes := map[0 := 1], threads := map[0 := Fetched(0)]);
    var r9 := [Count(0)] + [];
    var r8 := [Close(1, 0)] + r9;
    r7 := [Drain(1)] + r8;
    assert Idle(s7) == {0};
    assert s8.threads - {1} == s9.threads;
    OneStep(s7, Drain(1), r8, s8);
    OneStep(s8, Close(1, 0), r9, s9);
    OneStep(s9, Count(0), [], LateState());
  }
}
