/** What every interleaving of a PipelineRunner keeps. */
module RunnerSafety {
  import opened Wrappers
  import opened Sequences
  import opened Queue
  import opened Runner

  // ---- queue lemmas ----

  lemma FramesAppend(q: seq<Item>, x: Item)
    ensures FramesOf(q + [x]) == FramesOf(q) + (match x case Frame(f) => [f] case Sentinel => [])
  {
    assert (q + [x])[..|q|] == q;
  }

  lemma {:induction false} FramesConcat(q: seq<Item>, r: seq<Item>)
    ensures FramesOf(q + r) == FramesOf(q) + FramesOf(r)
  {
    if r == [] {
      assert q + r == q;
    } else {
      var k := |r| - 1;
      FramesConcat(q, r[..k]);
      assert q + r == (q + r[..k]) + [r[k]];
      FramesAppend(q + r[..k], r[k]);
    }
  }

  lemma FramesPop(q: seq<Item>)
    requires q != []
    ensures FramesOf(q) == (match q[0] case Frame(f) => [f] case Sentinel => []) + FramesOf(Popped(q))
  {
    assert q == [q[0]] + q[1..];
    FramesConcat([q[0]], q[1..]);
    FramesAppend([], q[0]);
    assert [] + [q[0]] == [q[0]];
  }

  lemma RangePop(lo: nat, hi: nat)
    requires lo < hi
    ensures Range(lo, hi) == [lo] + Range(lo + 1, hi)
  {
  }

  // ---- each conjunct is kept by every step ----

  // Steps that touch the source side of the state.
  predicate Sourcing(step: Step) {
    step.ReaderChecks? || step.SourceGives? || step.SourceEnds? || step.SourceThrows? ||
    step.ReaderRechecks? || step.ReaderPuts? || step.ReaderTimesOut? || step.ReaderEvicts?
  }

  predicate ByWorker(step: Step) {
    step.WorkerTakes? || step.PipelineReturns? || step.PipelineThrows? || step.WorkerJudges? || step.WorkerDrains?
  }

  // Steps towards a sentinel, by the reader or by stop().
  predicate Signalling(step: Step) { !Sourcing(step) && !ByWorker(step) }

  lemma KeepsBounded(s: State, step: Step)
    requires Bounded(s) && Enabled(s, step)
    ensures Bounded(Apply(s, step))
  {
    hide Bounded, Apply, Enabled;
    if Sourcing(step) {
      SourceKeepsBounded(s, step);
    } else if ByWorker(step) {
      WorkerKeepsBounded(s, step);
    } else {
      SignalKeepsBounded(s, step);
    }
  }

  lemma SourceKeepsBounded(s: State, step: Step)
    requires Bounded(s) && Enabled(s, step) && Sourcing(step)
    ensures Bounded(Apply(s, step))
  {
  }

  lemma WorkerKeepsBounded(s: State, step: Step)
    requires Bounded(s) && Enabled(s, step) && ByWorker(step)
    ensures Bounded(Apply(s, step))
  {
  }

  lemma SignalKeepsBounded(s: State, step: Step)
    requires Bounded(s) && Enabled(s, step) && Signalling(step)
    ensures Bounded(Apply(s, step))
  {
  }

  lemma KeepsSignalled(s: State, step: Step)
    requires Signalled(s) && Bounded(s) && Enabled(s, step)
    ensures Signalled(Apply(s, step))
  {
    var t := Apply(s, step);
    match step
    case StopCalled(id) => assert id in t.stoppers;
    case StopperSheds(id) => assert id in t.stoppers;
    case StopperOffers(id) =>
      if Full(s.queue, s.capacity) {
        assert id in t.stoppers;
      } else {
        assert t.queue[|s.queue|] == Sentinel;
      }
    case WorkerTakes =>
      if s.queue[0].Frame? && Sentinel in s.queue {
        var i :| 0 <= i < |s.queue| && s.queue[i] == Sentinel;
        assert t.queue[i - 1] == Sentinel;
      }
    case ReaderPuts =>
      if Sentinel in s.queue {
        var i :| 0 <= i < |s.queue| && s.queue[i] == Sentinel;
        assert t.queue[i] == Sentinel;
      }
    case ReaderPutsSentinel => assert t.queue[|s.queue|] == Sentinel;
    case ReaderOffers => assert !Full(s.queue, s.capacity) ==> t.queue[|s.queue|] == Sentinel;
    case _ =>
  }

  lemma OccursAppend(q: seq<int>, x: int, f: int)
    ensures Occurs(q + [x], f) == Occurs(q, f) + if x == f then 1 else 0
  {
    assert (q + [x])[..|q|] == q;
  }

  lemma {:induction false} OccursCons(x: int, q: seq<int>, f: int)
    ensures Occurs([x] + q, f) == Occurs(q, f) + if x == f then 1 else 0
  {
    if q == [] {
      assert [x] + q == q + [x];
      OccursAppend(q, x, f);
    } else {
      var k := |q| - 1;
      assert [x] + q == ([x] + q[..k]) + [q[k]];
      OccursAppend([x] + q[..k], q[k], f);
      OccursCons(x, q[..k], f);
    }
  }

  lemma HandOccurs(x: int, f: int)
    ensures Occurs([x], f) == if x == f then 1 else 0
  {
    OccursAppend([], x, f);
    assert [] + [x] == [x];
  }

  // The oldest item leaves the queue: one place fewer for its frame.
  lemma PopPlaces(q: seq<Item>, f: int)
    requires q != []
    ensures Occurs(FramesOf(q), f) == Occurs(FramesOf(Popped(q)), f) + if q[0] == Frame(f) then 1 else 0
  {
    FramesPop(q);
    if q[0].Frame? {
      OccursCons(q[0].id, FramesOf(Popped(q)), f);
    } else {
      assert FramesOf(q) == FramesOf(Popped(q));
    }
  }

  lemma EvictKeepsPlaces(s: State, f: int)
    ensures Places(Evict(s), f) == Places(s, f)
  {
    hide FramesOf, Occurs;
    if s.queue != [] {
      PopPlaces(s.queue, f);
      if s.queue[0].Frame? {
        OccursAppend(s.evicted, s.queue[0].id, f);
      }
    }
  }

  lemma OfferKeepsPlaces(s: State, f: int)
    ensures Places(Offer(s), f) == Places(s, f)
  {
    FramesAppend(s.queue, Sentinel);
    assert FramesOf(s.queue + [Sentinel]) == FramesOf(s.queue);
  }

  predicate NewlyPulled(step: Step, s: State, f: int) { step.SourceGives? && f == s.pulled }

  // No step loses or copies a frame; pulling is the only way in.
  lemma StepKeepsPlaces(s: State, step: Step, f: int)
    requires Enabled(s, step)
    ensures Places(Apply(s, step), f) == Places(s, f) + if NewlyPulled(step, s, f) then 1 else 0
  {
    if Sourcing(step) {
      SourceKeepsPlaces(s, step, f);
    } else if ByWorker(step) {
      WorkerKeepsPlaces(s, step, f);
    } else {
      SignalKeepsPlaces(s, step, f);
    }
  }

  lemma SourceKeepsPlaces(s: State, step: Step, f: int)
    requires Enabled(s, step) && Sourcing(step)
    ensures Places(Apply(s, step), f) == Places(s, f) + if NewlyPulled(step, s, f) then 1 else 0
  {
    hide FramesOf, Occurs;
    NobodyHolds(f);
    match step
    case SourceGives => HandOccurs(s.pulled, f);
    case ReaderRechecks => HandOccurs(s.reader.frame, f); OccursAppend(s.abandoned, s.reader.frame, f);
    case ReaderPuts =>
      HandOccurs(s.reader.frame, f);
      FramesAppend(s.queue, Frame(s.reader.frame));
      OccursAppend(FramesOf(s.queue), s.reader.frame, f);
    case ReaderEvicts => EvictKeepsPlaces(s, f);
    case _ =>
  }

  lemma SignalKeepsPlaces(s: State, step: Step, f: int)
    requires Enabled(s, step) && Signalling(step)
    ensures Places(Apply(s, step), f) == Places(s, f)
  {
    hide FramesOf, Occurs;
    NobodyHolds(f);
    match step
    case ReaderSheds => EvictKeepsPlaces(s, f);
    case StopperSheds(id) => EvictKeepsPlaces(s, f);
    case ReaderPutsSentinel => OfferKeepsPlaces(s, f);
    case ReaderOffers => OfferKeepsPlaces(s, f);
    case StopperOffers(id) => OfferKeepsPlaces(s, f);
    case _ =>
  }

  lemma WorkerKeepsPlaces(s: State, step: Step, f: int)
    requires Enabled(s, step) && ByWorker(step)
    ensures Places(Apply(s, step), f) == Places(s, f)
  {
    hide FramesOf, Occurs;
    NobodyHolds(f);
    match step
    case WorkerTakes =>
      PopPlaces(s.queue, f);
      if s.queue[0].Frame? { HandOccurs(s.queue[0].id, f); }
    case PipelineReturns => HandOccurs(s.worker.frame, f); OccursAppend(s.succeeded, s.worker.frame, f);
    case PipelineThrows => HandOccurs(s.worker.frame, f); OccursAppend(s.failed, s.worker.frame, f);
    case WorkerDrains =>
      if s.queue != [] {
        PopPlaces(s.queue, f);
        if s.queue[0].Frame? { OccursAppend(s.drained, s.queue[0].id, f); }
      }
    case WorkerJudges =>
  }

  lemma NobodyHolds(f: int)
    ensures Occurs([], f) == 0
  {
  }

  lemma KeepsConserved(s: State, step: Step)
    requires Conserved(s) && Enabled(s, step)
    ensures Conserved(Apply(s, step))
  {
    hide Places;
    forall f ensures Places(Apply(s, step), f) == if 0 <= f < Apply(s, step).pulled then 1 else 0 {
      StepKeepsPlaces(s, step, f);
    }
  }

  lemma KeepsCounted(s: State, step: Step)
    requires Counted(s) && Enabled(s, step)
    ensures Counted(Apply(s, step))
  {
    hide Counted, Apply, Enabled;
    if Sourcing(step) {
      SourceKeepsCounted(s, step);
    } else if ByWorker(step) {
      WorkerKeepsCounted(s, step);
    } else {
      SignalKeepsCounted(s, step);
    }
  }

  lemma OutcomeCounts(outcomes: seq<Outcome>, o: Outcome, n: nat)
    requires Streak(outcomes, n)
    ensures Streak(outcomes + [o], if o == Failure then n + 1 else 0)
    ensures forall p: Outcome :: Occasions(outcomes + [o], p) == Occasions(outcomes, p) + if o == p then 1 else 0
  {
    forall p: Outcome ensures Occasions(outcomes + [o], p) == Occasions(outcomes, p) + if o == p then 1 else 0 {
      assert (outcomes + [o])[..|outcomes|] == outcomes;
    }
  }

  lemma SourceKeepsCounted(s: State, step: Step)
    requires Counted(s) && Enabled(s, step) && Sourcing(step)
    ensures Counted(Apply(s, step))
  {
    hide Streak, Occasions;
    if step.SourceThrows? { OutcomeCounts(s.outcomes, Failure, s.consecutive); }
  }

  lemma WorkerKeepsCounted(s: State, step: Step)
    requires Counted(s) && Enabled(s, step) && ByWorker(step)
    ensures Counted(Apply(s, step))
  {
    hide Streak, Occasions;
    if step.PipelineReturns? { OutcomeCounts(s.outcomes, Success, s.consecutive); }
    if step.PipelineThrows? { OutcomeCounts(s.outcomes, Failure, s.consecutive); }
  }

  lemma SignalKeepsCounted(s: State, step: Step)
    requires Counted(s) && Enabled(s, step) && Signalling(step)
    ensures Counted(Apply(s, step))
  {
    hide Streak, Occasions;
  }

  lemma KeepsSourced(s: State, step: Step)
    requires Sourced(s) && Enabled(s, step)
    ensures Sourced(Apply(s, step))
  {
    hide Sourced, Apply, Enabled;
    if Sourcing(step) {
      SourceKeepsSourced(s, step);
    } else if ByWorker(step) {
      WorkerKeepsSourced(s, step);
    } else {
      SignalKeepsSourced(s, step);
    }
  }

  lemma SourceKeepsSourced(s: State, step: Step)
    requires Sourced(s) && Enabled(s, step) && Sourcing(step)
    ensures Sourced(Apply(s, step))
  {
  }

  lemma WorkerKeepsSourced(s: State, step: Step)
    requires Sourced(s) && Enabled(s, step) && ByWorker(step)
    ensures Sourced(Apply(s, step))
  {
  }

  lemma SignalKeepsSourced(s: State, step: Step)
    requires Sourced(s) && Enabled(s, step) && Signalling(step)
    ensures Sourced(Apply(s, step))
  {
  }

  lemma PopKeepsOrder(s: State, t: State)
    requires Ordered(s) && s.queue != [] && t.queue == Popped(s.queue) && t.enqueued == s.enqueued
    requires t.taken == s.taken || (s.queue[0].Frame? && t.taken == s.taken + [s.queue[0].id])
    ensures Ordered(t)
  {
    var n := |FramesOf(s.queue)|;
    FramesPop(s.queue);
    if s.queue[0].Frame? {
      RangePop(s.enqueued - n, s.enqueued);
      assert FramesOf(s.queue)[0] == s.queue[0].id == s.enqueued - n;
      assert FramesOf(s.queue)[1..] == FramesOf(t.queue);
      forall i | 0 <= i < |s.taken| ensures s.taken[i] < s.queue[0].id {
        assert s.taken[i] in s.taken;
      }
    } else {
      assert FramesOf(t.queue) == FramesOf(s.queue);
    }
  }

  lemma OfferKeepsOrder(s: State, t: State)
    requires Ordered(s) && t.queue == Offer(s).queue && t.enqueued == s.enqueued && t.taken == s.taken
    ensures Ordered(t)
  {
    FramesAppend(s.queue, Sentinel);
  }

  lemma PutKeepsOrder(s: State, t: State, f: int)
    requires Ordered(s) && f == s.enqueued && t.queue == s.queue + [Frame(f)] && t.enqueued == s.enqueued + 1 && t.taken == s.taken
    ensures Ordered(t)
  {
    var n := |FramesOf(s.queue)|;
    FramesAppend(s.queue, Frame(f));
    assert Range(s.enqueued - n, s.enqueued + 1) == Range(s.enqueued - n, s.enqueued) + [s.enqueued];
  }

  lemma KeepsOrdered(s: State, step: Step)
    requires Ordered(s) && Sourced(s) && Enabled(s, step)
    ensures Ordered(Apply(s, step))
  {
    hide FramesOf, Range, Ascending;
    var t := Apply(s, step);
    match step
    case ReaderPuts => PutKeepsOrder(s, t, s.reader.frame);
    case ReaderPutsSentinel => OfferKeepsOrder(s, t);
    case ReaderOffers => OfferKeepsOrder(s, t);
    case StopperOffers(id) => OfferKeepsOrder(s, t);
    case ReaderEvicts => if s.queue != [] { PopKeepsOrder(s, t); }
    case ReaderSheds => if s.queue != [] { PopKeepsOrder(s, t); }
    case StopperSheds(id) => if s.queue != [] { PopKeepsOrder(s, t); }
    case WorkerTakes => PopKeepsOrder(s, t);
    case WorkerDrains => if s.queue != [] { PopKeepsOrder(s, t); }
    case _ =>
  }

  lemma KeepsInv(s: State, step: Step)
    requires Inv(s) && Enabled(s, step)
    ensures Inv(Apply(s, step))
  {
    hide Apply, Conserved, Ordered, Sourced, Counted, Signalled, Bounded;
    KeepsBounded(s, step);
    KeepsSignalled(s, step);
    KeepsConserved(s, step);
    KeepsCounted(s, step);
    KeepsSourced(s, step);
    KeepsOrdered(s, step);
  }

  lemma {:induction false} FollowKeepsInv(s: State, steps: seq<Step>)
    requires Inv(s) && Follow(s, steps).Some?
    ensures Inv(Follow(s, steps).value)
    decreases |steps|
  {
    hide Inv, Apply;
    if steps != [] {
      KeepsInv(s, steps[0]);
      FollowKeepsInv(Apply(s, steps[0]), steps[1..]);
    }
  }

  /** Every reachable state of every interleaving satisfies the whole invariant. */
  lemma ReachableInv(capacity: nat, limit: nat, s: State)
    requires capacity >= 1 && Reachable(capacity, limit, s)
    ensures Inv(s)
  {
    var steps :| Follow(Init(capacity, limit), steps) == Some(s);
    FollowKeepsInv(Init(capacity, limit), steps);
  }

  // ---- what the invariant says ----

  /** No lost terminal: a worker still in its take loop with the reader finished has a sentinel
      waiting or some stopper still inside enqueue_terminal, whatever evictions took place. */
  lemma NoLostTerminal(capacity: nat, limit: nat, s: State)
    requires capacity >= 1 && Reachable(capacity, limit, s)
    requires InTakeLoop(s.worker) && s.reader.ReaderDone?
    ensures Sentinel in s.queue || s.stoppers != map[]
  {
    ReachableInv(capacity, limit, s);
  }

  /** Every pulled frame is in exactly one place and no other frame is anywhere; the counters
      agree with what happened; the queue holds the newest contiguous run of enqueued frames,
      never beyond its capacity; the pipeline got older frames, in source order. */
  lemma FramesAccounted(capacity: nat, limit: nat, s: State)
    requires capacity >= 1 && Reachable(capacity, limit, s)
    ensures forall f :: Places(s, f) == if 0 <= f < s.pulled then 1 else 0
    ensures s.dropped == |s.evicted| + s.evictedSentinels && s.processed == |s.succeeded|
    ensures s.errors == |s.failed| + s.sourceErrors
    ensures |s.queue| <= s.capacity
    ensures var n := |FramesOf(s.queue)|;
            n <= s.enqueued <= s.pulled && FramesOf(s.queue) == Range(s.enqueued - n, s.enqueued) &&
            Ascending(s.taken) && (forall f | f in s.taken :: f < s.enqueued - n)
  {
    ReachableInv(capacity, limit, s);
  }

  // ---- who can be stuck ----

  // Some thread can move without anybody else calling stop().
  ghost predicate CanMove(s: State) {
    exists step: Step :: !step.StopCalled? && Enabled(s, step)
  }

  predicate Finished(s: State) { s.reader.ReaderDone? && s.worker.WorkerDone? && s.stoppers == map[] }

  // The reader passed its stop check and blocks in put_sentinel on a queue nobody will empty.
  predicate Wedged(s: State) {
    s.reader.PuttingSentinel? && Full(s.queue, s.capacity) && s.worker.WorkerDone? && s.stoppers == map[]
  }

  /** A reachable runner stands still exactly when all its threads have finished or the reader is
      wedged in put_sentinel behind a worker that has left. */
  lemma StandstillExactly(capacity: nat, limit: nat, s: State)
    requires capacity >= 1 && Reachable(capacity, limit, s)
    ensures !CanMove(s) <==> Finished(s) || Wedged(s)
  {
    ReachableInv(capacity, limit, s);
    if !(Finished(s) || Wedged(s)) {
      var step := Mover(s);
      assert Enabled(s, step);
    }
  }

  // A thread that can move, wherever the others are.
  lemma Mover(s: State) returns (step: Step)
    requires Inv(s) && !Finished(s) && !Wedged(s)
    ensures !step.StopCalled? && Enabled(s, step)
  {
    hide Conserved, Counted, Sourced, Ordered;
    if s.stoppers != map[] {
      var id :| id in s.stoppers;
      return if s.stoppers[id].StopOffering? then StopperOffers(id) else StopperSheds(id);
    }
    match s.worker {
    case Running(f) => return PipelineReturns;
    case Judging => return WorkerJudges;
    case Draining => return WorkerDrains;
    case Taking => if s.queue != [] { return WorkerTakes; }
    case WorkerDone =>
    }
    match s.reader {
      case AtLoop => step := ReaderChecks;
      case Pulling => step := SourceGives;
      case Holding(f) => step := ReaderRechecks;
      case Putting(f) => step := if Full(s.queue, s.capacity) then ReaderTimesOut else ReaderPuts;
      case Evicting(f) => step := ReaderEvicts;
      case Leaving(e) => step := ReaderLeaves;
      case PuttingSentinel => step := ReaderPutsSentinel;
      case Offering => step := ReaderOffers;
      case Shedding => step := ReaderSheds;
    }
  }
}
