/** When errors end a runner: the count of consecutive ones, and the flag it raises
    (cpp/src/runner.cpp:218-258, 280-300). */
module RunnerErrors {
  import opened Wrappers
  import opened Queue
  import opened Runner
  import opened RunnerSafety
  import opened RunnerWedge

  /** In every reachable state the count of consecutive errors is the number of failures, of the
      pipeline or the source, since the last success. */
  lemma ConsecutiveExactly(capacity: nat, limit: nat, s: State)
    requires capacity >= 1 && Reachable(capacity, limit, s)
    ensures s.consecutive <= |s.outcomes| == s.processed + s.errors
    ensures forall i | |s.outcomes| - s.consecutive <= i < |s.outcomes| :: s.outcomes[i] == Failure
    ensures s.consecutive < |s.outcomes| ==> s.outcomes[|s.outcomes| - s.consecutive - 1] == Success
  {
    ReachableInv(capacity, limit, s);
    EveryOutcome(s.outcomes);
  }

  lemma {:induction false} EveryOutcome(outcomes: seq<Outcome>)
    ensures Occasions(outcomes, Success) + Occasions(outcomes, Failure) == |outcomes|
  {
    if outcomes != [] { EveryOutcome(outcomes[..|outcomes| - 1]); }
  }

  // The last step of a schedule.
  lemma {:induction false} FollowLast(s: State, steps: seq<Step>) returns (m: State)
    requires steps != [] && Follow(s, steps).Some?
    ensures Follow(s, steps[..|steps| - 1]) == Some(m) && Enabled(m, steps[|steps| - 1])
    ensures Follow(s, steps).value == Apply(m, steps[|steps| - 1])
    decreases |steps|
  {
    hide Enabled, Apply;
    var k := |steps| - 1;
    if k == 0 {
      m := s;
      assert steps == [steps[0]] && steps[..0] == [] && steps[1..] == [];
    } else {
      m := FollowLast(Apply(s, steps[0]), steps[1..]);
      assert steps[1..][..k - 1] == steps[..k][1..] && steps[1..][k - 1] == steps[k] && steps[..k][0] == steps[0];
    }
  }

  // The worker looks at its last error at step k, and the last limit outcomes are all failures.
  ghost predicate GivesUp(capacity: nat, limit: nat, steps: seq<Step>, k: int) {
    && 0 <= k < |steps| && steps[k] == WorkerJudges && limit > 0 && Follow(Init(capacity, limit), steps[..k]).Some?
    && AllFailed(Follow(Init(capacity, limit), steps[..k]).value.outcomes, limit)
  }

  /** Without a stop() call, the flag is up exactly when at some point the worker, after a failure, found
      that the last limit outcomes were all failures. */
  lemma {:induction false} FlagExactly(capacity: nat, limit: nat, steps: seq<Step>, s: State)
    requires capacity >= 1 && Follow(Init(capacity, limit), steps) == Some(s) && StopCalls(steps) == 0
    ensures s.stop <==> exists k :: GivesUp(capacity, limit, steps, k)
    decreases |steps|
  {
    if steps != [] {
      var k := |steps| - 1;
      var m := FollowLast(Init(capacity, limit), steps);
      FewerStops(steps);
      FlagExactly(capacity, limit, steps[..k], m);
      JudgesExactly(capacity, limit, steps[..k], m, steps[k]);
      assert GivesUp(capacity, limit, steps, k) <==> s.stop && steps[k] == WorkerJudges && limit > 0 && AllFailed(m.outcomes, limit);
      hide Apply, Enabled, AllFailed, Follow, GivesUp;
      forall j | j != k ensures GivesUp(capacity, limit, steps, j) <==> GivesUp(capacity, limit, steps[..k], j) {
        GivesUpEarlier(capacity, limit, steps, j);
      }
      NotYet(capacity, limit, steps[..k], k);
      if j :| GivesUp(capacity, limit, steps, j) && j != k { assert GivesUp(capacity, limit, steps[..k], j); }
      if m.stop { var j :| GivesUp(capacity, limit, steps[..k], j); assert GivesUp(capacity, limit, steps, j); }
    }
  }

  lemma GivesUpEarlier(capacity: nat, limit: nat, steps: seq<Step>, j: int)
    requires steps != [] && j != |steps| - 1
    ensures GivesUp(capacity, limit, steps, j) <==> GivesUp(capacity, limit, steps[..|steps| - 1], j)
  {
    if 0 <= j < |steps| - 1 { assert steps[..|steps| - 1][..j] == steps[..j]; }
  }

  lemma NotYet(capacity: nat, limit: nat, steps: seq<Step>, k: int)
    requires k >= |steps|
    ensures !GivesUp(capacity, limit, steps, k)
  {
  }

  lemma {:induction false} FewerStops(steps: seq<Step>)
    requires steps != [] && StopCalls(steps) == 0
    ensures StopCalls(steps[..|steps| - 1]) == 0 && !steps[|steps| - 1].StopCalled?
    decreases |steps|
  {
    if |steps| > 1 {
      FewerStops(steps[1..]);
      assert steps[1..][..|steps| - 2] == steps[..|steps| - 1][1..];
    }
  }

  lemma JudgesExactly(capacity: nat, limit: nat, steps: seq<Step>, m: State, step: Step)
    requires capacity >= 1 && Follow(Init(capacity, limit), steps) == Some(m) && Enabled(m, step) && !step.StopCalled?
    ensures Apply(m, step).stop <==> m.stop || (step == WorkerJudges && limit > 0 && AllFailed(m.outcomes, limit))
  {
    ReachableInv(capacity, limit, m);
    KeepsSizes(Init(capacity, limit), steps);
    FlagRises(m, step);
    StreakReaches(m.outcomes, m.consecutive, limit);
  }

  lemma FlagRises(m: State, step: Step)
    requires Enabled(m, step) && !step.StopCalled?
    ensures Apply(m, step).stop <==> m.stop || (step == WorkerJudges && m.limit > 0 && m.consecutive >= m.limit)
  {
  }

  lemma StreakReaches(outcomes: seq<Outcome>, n: nat, limit: nat)
    requires Streak(outcomes, n)
    ensures n >= limit <==> AllFailed(outcomes, limit)
  {
  }
}
