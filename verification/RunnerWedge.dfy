/** How many stop() calls, the destructor's included, it takes to leave a runner's reader blocked
    for ever (cpp/src/runner.cpp:109-148, 182-217). */
module RunnerWedge {
  import opened Wrappers
  import opened Queue
  import opened Runner
  import opened RunnerSafety

  function StopCalls(steps: seq<Step>): nat {
    if steps == [] then 0 else StopCalls(steps[1..]) + Calls(steps[0])
  }

  function Calls(step: Step): nat { if step.StopCalled? then 1 else 0 }

  // One call for every place of the queue; without an error limit, one more to send the worker away.
  function Budget(capacity: nat, limit: nat): nat { capacity + if limit == 0 then 1 else 0 }

  // Some run with at most n calls to stop() leaves the reader wedged.
  ghost predicate CanWedge(capacity: nat, limit: nat, n: nat) {
    exists steps, s :: Follow(Init(capacity, limit), steps) == Some(s) && StopCalls(steps) <= n && Wedged(s)
  }

  // ---- what a wedge costs ----

  function Sentinels(q: seq<Item>): int { |q| - |FramesOf(q)| }

  // The worker left because of a sentinel.
  function Consumed(s: State): nat { if !InTakeLoop(s.worker) && s.limit == 0 then 1 else 0 }

  // While the reader has not signalled the end itself: every sentinel there is or was comes from a
  // stop() call; nothing is signalled before the flag is up; and once the worker has left behind
  // the reader's stop check, no frame comes any more.
  predicate Owed(s: State, calls: nat) {
    !s.reader.ReaderDone? ==>
      && Sentinels(s.queue) + |s.stoppers| + Consumed(s) <= calls
      && (!s.stop ==> Sentinels(s.queue) == 0 && s.stoppers == map[] && InTakeLoop(s.worker))
      && (s.reader.PuttingSentinel? && s.worker.WorkerDone? ==> FramesOf(s.queue) == [])
  }

  lemma PutCounts(q: seq<Item>, x: Item)
    ensures Sentinels(q + [x]) == Sentinels(q) + if x.Sentinel? then 1 else 0
    ensures x.Sentinel? ==> FramesOf(q + [x]) == FramesOf(q)
  {
    FramesAppend(q, x);
  }

  lemma {:induction false} FewerFrames(q: seq<Item>)
    ensures |FramesOf(q)| <= |q|
  {
    if q != [] { FewerFrames(q[..|q| - 1]); }
  }

  lemma PopCounts(q: seq<Item>)
    requires q != []
    ensures Sentinels(q) == Sentinels(Popped(q)) + if q[0].Sentinel? then 1 else 0
    ensures FramesOf(q) == [] ==> FramesOf(Popped(q)) == []
    ensures Sentinels(Popped(q)) >= 0
  {
    FramesPop(q);
    FewerFrames(Popped(q));
  }

  lemma EnterStopper(m: map<nat, StopperPc>, id: nat, pc: StopperPc)
    ensures |m[id := pc]| == |m| + if id in m then 0 else 1
    ensures id in m ==> |m - {id}| == |m| - 1
  {
    assert m[id := pc].Keys == m.Keys + {id};
    assert (m - {id}).Keys == m.Keys - {id};
  }

  predicate ByReader(step: Step) {
    Sourcing(step) || step.ReaderLeaves? || step.ReaderPutsSentinel? || step.ReaderOffers? || step.ReaderSheds?
  }

  lemma KeepsOwed(s: State, step: Step, calls: nat)
    requires Owed(s, calls) && Enabled(s, step)
    ensures Owed(Apply(s, step), calls + Calls(step))
  {
    hide Owed, Apply, Enabled;
    if ByReader(step) {
      ReaderKeepsOwed(s, step, calls);
    } else if ByWorker(step) {
      WorkerKeepsOwed(s, step, calls);
    } else {
      StopperKeepsOwed(s, step, calls);
    }
  }

  lemma ReaderKeepsOwed(s: State, step: Step, calls: nat)
    requires Owed(s, calls) && Enabled(s, step) && ByReader(step)
    ensures Owed(Apply(s, step), calls)
  {
    hide FramesOf;
    if s.queue != [] { PopCounts(s.queue); }
    if step.ReaderPuts? { PutCounts(s.queue, Frame(s.reader.frame)); }
  }

  lemma WorkerKeepsOwed(s: State, step: Step, calls: nat)
    requires Owed(s, calls) && Enabled(s, step) && ByWorker(step)
    ensures Owed(Apply(s, step), calls)
  {
    hide FramesOf;
    NoFrames();
    if s.queue != [] { PopCounts(s.queue); }
  }

  lemma NoFrames()
    ensures FramesOf([]) == []
  {
  }

  lemma StopperKeepsOwed(s: State, step: Step, calls: nat)
    requires Owed(s, calls) && Enabled(s, step) && !ByReader(step) && !ByWorker(step)
    ensures Owed(Apply(s, step), calls + Calls(step))
  {
    hide FramesOf;
    PutCounts(s.queue, Sentinel);
    if s.queue != [] { PopCounts(s.queue); }
    match step
    case StopCalled(id) => EnterStopper(s.stoppers, id, StopOffering);
    case StopperOffers(id) => EnterStopper(s.stoppers, id, StopShedding);
    case StopperSheds(id) => EnterStopper(s.stoppers, id, StopOffering);
  }

  lemma {:induction false} FollowOwes(s: State, steps: seq<Step>, calls: nat)
    requires Owed(s, calls) && Follow(s, steps).Some?
    ensures Owed(Follow(s, steps).value, calls + StopCalls(steps))
    decreases |steps|
  {
    hide Owed, Apply;
    if steps != [] {
      KeepsOwed(s, steps[0], calls);
      FollowOwes(Apply(s, steps[0]), steps[1..], calls + Calls(steps[0]));
    }
  }

  lemma {:induction false} KeepsSizes(s: State, steps: seq<Step>)
    requires Follow(s, steps).Some?
    ensures Follow(s, steps).value.capacity == s.capacity && Follow(s, steps).value.limit == s.limit
    decreases |steps|
  {
    if steps != [] { KeepsSizes(Apply(s, steps[0]), steps[1..]); }
  }

  lemma WedgeCosts(capacity: nat, limit: nat, steps: seq<Step>, s: State)
    requires Follow(Init(capacity, limit), steps) == Some(s) && Wedged(s)
    ensures StopCalls(steps) >= Budget(capacity, limit)
  {
    FollowOwes(Init(capacity, limit), steps, 0);
    KeepsSizes(Init(capacity, limit), steps);
  }

  // ---- a run that pays it ----

  // Some run from Init with n calls to stop() ends in s.
  ghost predicate Ran(capacity: nat, limit: nat, n: nat, s: State) {
    exists steps :: Follow(Init(capacity, limit), steps) == Some(s) && StopCalls(steps) == n
  }

  lemma {:induction false} FollowThen(s: State, steps: seq<Step>, t: State, step: Step)
    requires Follow(s, steps) == Some(t) && Enabled(t, step)
    ensures Follow(s, steps + [step]) == Some(Apply(t, step)) && StopCalls(steps + [step]) == StopCalls(steps) + Calls(step)
    decreases |steps|
  {
    hide Apply, Enabled;
    if steps == [] {
      assert steps + [step] == [step] && [step][1..] == [];
    } else {
      FollowThen(Apply(s, steps[0]), steps[1..], t, step);
      assert (steps + [step])[1..] == steps[1..] + [step];
    }
  }

  lemma Then(capacity: nat, limit: nat, n: nat, s: State, step: Step) returns (t: State)
    requires Ran(capacity, limit, n, s) && Enabled(s, step)
    ensures t == Apply(s, step) && Ran(capacity, limit, n + Calls(step), t)
  {
    t := Apply(s, step);
    var steps :| Follow(Init(capacity, limit), steps) == Some(s) && StopCalls(steps) == n;
    FollowThen(Init(capacity, limit), steps, s, step);
  }

  // Between frames: nothing buffered, nobody stopping.
  predicate Quiet(s: State) {
    s.reader.AtLoop? && s.queue == [] && !s.stop && s.stoppers == map[]
  }

  // One frame through the queue and the pipeline, which throws.
  lemma FailOne(capacity: nat, limit: nat, s: State) returns (t: State)
    requires capacity >= 1 && Ran(capacity, limit, 0, s) && Quiet(s) && s.worker.Taking? && s.capacity == capacity
    ensures Ran(capacity, limit, 0, t) && Quiet(t) && t.worker.Judging? && t.consecutive == s.consecutive + 1
    ensures t.capacity == s.capacity && t.limit == s.limit
  {
    hide Ran;
    t := Then(capacity, limit, 0, s, ReaderChecks);
    t := Then(capacity, limit, 0, t, SourceGives);
    t := Then(capacity, limit, 0, t, ReaderRechecks);
    t := Then(capacity, limit, 0, t, ReaderPuts);
    t := Then(capacity, limit, 0, t, WorkerTakes);
    t := Then(capacity, limit, 0, t, PipelineThrows);
  }

  lemma {:induction false} FailUpTo(capacity: nat, limit: nat, k: nat) returns (t: State)
    requires capacity >= 1 && 1 <= k <= limit
    ensures Ran(capacity, limit, 0, t) && Quiet(t) && t.worker.Judging? && t.consecutive == k
    ensures t.capacity == capacity && t.limit == limit
  {
    hide Ran;
    if k == 1 {
      t := Started(capacity, limit);
    } else {
      t := FailUpTo(capacity, limit, k - 1);
      t := Then(capacity, limit, 0, t, WorkerJudges);
    }
    t := FailOne(capacity, limit, t);
  }

  lemma Started(capacity: nat, limit: nat) returns (s: State)
    ensures s == Init(capacity, limit) && Ran(capacity, limit, 0, s)
  {
    s := Init(capacity, limit);
    assert Follow(s, []) == Some(s) && StopCalls([]) == 0;
  }

  // The source ends naturally; the reader passes its stop check.
  lemma EndSource(capacity: nat, limit: nat, s: State) returns (t: State)
    requires Ran(capacity, limit, 0, s) && Quiet(s)
    ensures Ran(capacity, limit, 0, t) && t == s.(reader := PuttingSentinel)
  {
    hide Ran;
    t := Then(capacity, limit, 0, s, ReaderChecks);
    t := Then(capacity, limit, 0, t, SourceEnds);
    t := Then(capacity, limit, 0, t, ReaderLeaves);
  }

  // The reader is about to put its sentinel, and nobody takes items any more.
  predicate Deserted(s: State) { s.reader.PuttingSentinel? && s.worker.WorkerDone? && s.stoppers == map[] }

  lemma Desert(capacity: nat, limit: nat) returns (t: State)
    requires capacity >= 1
    ensures Ran(capacity, limit, Budget(capacity, limit) - capacity, t) && Deserted(t) && t.queue == [] && t.capacity == capacity
  {
    hide Ran;
    if limit == 0 {
      t := Started(capacity, limit);
      t := EndSource(capacity, limit, t);
      t := OneStop(capacity, limit, 0, t);
      t := Then(capacity, limit, 1, t, WorkerTakes);
      t := Then(capacity, limit, 1, t, WorkerDrains);
    } else {
      t := FailUpTo(capacity, limit, limit);
      t := EndSource(capacity, limit, t);
      t := Then(capacity, limit, 0, t, WorkerJudges);
      t := Then(capacity, limit, 0, t, WorkerDrains);
    }
  }

  // A stop() call alone at a queue with room.
  lemma OneStop(capacity: nat, limit: nat, n: nat, s: State) returns (t: State)
    requires Ran(capacity, limit, n, s) && s.stoppers == map[] && !Full(s.queue, s.capacity)
    ensures Ran(capacity, limit, n + 1, t) && t == s.(stop := true, queue := s.queue + [Sentinel])
  {
    hide Ran;
    t := Then(capacity, limit, n, s, StopCalled(0));
    t := Then(capacity, limit, n + 1, t, StopperOffers(0));
    assert t.stoppers == map[];
  }

  lemma {:induction false} FillUp(capacity: nat, limit: nat, n: nat, s: State) returns (t: State)
    requires Ran(capacity, limit, n, s) && Deserted(s) && |s.queue| <= s.capacity
    ensures Ran(capacity, limit, n + s.capacity - |s.queue|, t) && Wedged(t)
    decreases s.capacity - |s.queue|
  {
    hide Ran;
    t := s;
    if |s.queue| < s.capacity {
      t := OneStop(capacity, limit, n, s);
      t := FillUp(capacity, limit, n + 1, t);
    }
  }

  /** Some run with at most n calls to stop() or the destructor leaves the reader wedged in
      put_sentinel if and only if n reaches the capacity of the queue, and one more when no error
      limit can end the run. */
  lemma WedgeExactly(capacity: nat, limit: nat, n: nat)
    requires capacity >= 1
    ensures CanWedge(capacity, limit, n) <==> n >= Budget(capacity, limit)
  {
    if CanWedge(capacity, limit, n) {
      var steps, s :| Follow(Init(capacity, limit), steps) == Some(s) && StopCalls(steps) <= n && Wedged(s);
      WedgeCosts(capacity, limit, steps, s);
    }
    if n >= Budget(capacity, limit) {
      var t := Desert(capacity, limit);
      t := FillUp(capacity, limit, Budget(capacity, limit) - capacity, t);
    }
  }

  /** With fewer calls a runner stands still only once all its threads have finished. */
  lemma BelowTheBudget(capacity: nat, limit: nat, steps: seq<Step>, s: State)
    requires capacity >= 1 && Follow(Init(capacity, limit), steps) == Some(s) && StopCalls(steps) < Budget(capacity, limit)
    ensures !CanMove(s) <==> Finished(s)
  {
    StandstillExactly(capacity, limit, s);
    if Wedged(s) {
      WedgeCosts(capacity, limit, steps, s);
    }
  }

  /** Every runner can wedge; the default one, of capacity one and ten errors, within the single call
      its destructor makes. */
  lemma WedgeIsReachable(capacity: nat, limit: nat)
    requires capacity >= 1
    ensures exists s :: Reachable(capacity, limit, s) && Wedged(s)
    ensures CanWedge(1, 10, 1)
  {
    WedgeExactly(capacity, limit, Budget(capacity, limit));
    WedgeExactly(1, 10, 1);
  }
}
