/** PipelineRunner (cpp/src/runner.cpp) as a step relation: a reader, a worker and any number of
    threads inside stop(), sharing the bounded queue. One step is one critical section. */
module Runner {
  import opened Wrappers
  import opened Sequences
  import opened Queue

  datatype ReaderPc =
    | AtLoop                        // about to test the stop flag
    | Pulling                       // inside source()
    | Holding(frame: int)           // about to test the stop flag with a frame in hand
    | Putting(frame: int)           // inside put, within the grace period
    | Evicting(frame: int)          // the grace period ran out
    | Leaving(exhausted: bool)      // choosing how to signal the end
    | PuttingSentinel               // the blocking put_sentinel
    | Offering                      // enqueue_terminal, about to offer
    | Shedding                      // enqueue_terminal, about to evict
    | ReaderDone

  datatype WorkerPc = Taking | Running(frame: int) | Judging | Draining | WorkerDone

  datatype StopperPc = StopOffering | StopShedding

  datatype Outcome = Success | Failure

  datatype State = State(
    capacity: nat, limit: nat,
    queue: seq<Item>, stop: bool, reader: ReaderPc, worker: WorkerPc, stoppers: map<nat, StopperPc>,
    // the runner's counters
    processed: nat, dropped: nat, errors: nat, consecutive: nat,
    // history: what became of each frame, in order
    pulled: nat, enqueued: nat, taken: seq<int>, succeeded: seq<int>, failed: seq<int>,
    evicted: seq<int>, drained: seq<int>, abandoned: seq<int>, evictedSentinels: nat, sourceErrors: nat,
    // and what became of each pass through the pipeline and of the source's failure, in order
    outcomes: seq<Outcome>)

  function Init(capacity: nat, limit: nat): State {
    State(capacity, limit, [], false, AtLoop, Taking, map[], 0, 0, 0, 0, 0, 0, [], [], [], [], [], [], 0, 0, [])
  }

  datatype Step =
    | ReaderChecks | SourceGives | SourceEnds | SourceThrows
    | ReaderRechecks | ReaderPuts | ReaderTimesOut | ReaderEvicts
    | ReaderLeaves | ReaderPutsSentinel | ReaderOffers | ReaderSheds
    | WorkerTakes | PipelineReturns | PipelineThrows | WorkerJudges | WorkerDrains
    | StopCalled(id: nat) | StopperOffers(id: nat) | StopperSheds(id: nat)

  predicate Enabled(s: State, step: Step) {
    match step
    case ReaderChecks => s.reader.AtLoop?
    case SourceGives => s.reader.Pulling?
    case SourceEnds => s.reader.Pulling?
    case SourceThrows => s.reader.Pulling?
    case ReaderRechecks => s.reader.Holding?
    case ReaderPuts => s.reader.Putting? && !Full(s.queue, s.capacity)
    case ReaderTimesOut => s.reader.Putting? && Full(s.queue, s.capacity)
    case ReaderEvicts => s.reader.Evicting?
    case ReaderLeaves => s.reader.Leaving?
    case ReaderPutsSentinel => s.reader.PuttingSentinel? && !Full(s.queue, s.capacity)
    case ReaderOffers => s.reader.Offering?
    case ReaderSheds => s.reader.Shedding?
    case WorkerTakes => s.worker.Taking? && s.queue != []
    case PipelineReturns => s.worker.Running?
    case PipelineThrows => s.worker.Running?
    case WorkerJudges => s.worker.Judging?
    case WorkerDrains => s.worker.Draining?
    case StopCalled(id) => id !in s.stoppers
    case StopperOffers(id) => id in s.stoppers && s.stoppers[id].StopOffering?
    case StopperSheds(id) => id in s.stoppers && s.stoppers[id].StopShedding?
  }

  // try_get by someone making room: the oldest item goes and counts as dropped, sentinel or frame.
  function Evict(s: State): State {
    if s.queue == [] then s
    else
      var t := s.(queue := Popped(s.queue), dropped := s.dropped + 1);
      match s.queue[0]
      case Frame(f) => t.(evicted := s.evicted + [f])
      case Sentinel => t.(evictedSentinels := s.evictedSentinels + 1)
  }

  function Offer(s: State): State {
    if Full(s.queue, s.capacity) then s else s.(queue := s.queue + [Sentinel])
  }

  function Apply(s: State, step: Step): State
    requires Enabled(s, step)
  {
    match step
    case ReaderChecks => s.(reader := if s.stop then Leaving(false) else Pulling)
    case SourceGives => s.(reader := Holding(s.pulled), pulled := s.pulled + 1)
    case SourceEnds => s.(reader := Leaving(true))
    case SourceThrows =>
      s.(reader := Leaving(false), errors := s.errors + 1, consecutive := s.consecutive + 1, sourceErrors := s.sourceErrors + 1,
          outcomes := s.outcomes + [Failure])
    case ReaderRechecks =>
      if s.stop then s.(reader := AtLoop, abandoned := s.abandoned + [s.reader.frame]) else s.(reader := Putting(s.reader.frame))
    case ReaderPuts => s.(reader := AtLoop, queue := s.queue + [Frame(s.reader.frame)], enqueued := s.enqueued + 1)
    case ReaderTimesOut => s.(reader := Evicting(s.reader.frame))
    case ReaderEvicts => Evict(s).(reader := Holding(s.reader.frame))
    case ReaderLeaves => s.(reader := if s.reader.exhausted && !s.stop then PuttingSentinel else Offering)
    case ReaderPutsSentinel => Offer(s).(reader := ReaderDone)
    case ReaderOffers => Offer(s).(reader := if Full(s.queue, s.capacity) then Shedding else ReaderDone)
    case ReaderSheds => Evict(s).(reader := Offering)
    case WorkerTakes =>
      var t := s.(queue := Popped(s.queue));
      (match s.queue[0]
       case Frame(f) => t.(worker := Running(f), taken := s.taken + [f])
       case Sentinel => t.(worker := Draining))
    case PipelineReturns =>
      s.(worker := Taking, succeeded := s.succeeded + [s.worker.frame], processed := s.processed + 1, consecutive := 0,
          outcomes := s.outcomes + [Success])
    case PipelineThrows =>
      s.(worker := Judging, failed := s.failed + [s.worker.frame], errors := s.errors + 1, consecutive := s.consecutive + 1,
          outcomes := s.outcomes + [Failure])
    case WorkerJudges =>
      if s.limit > 0 && s.consecutive >= s.limit then s.(stop := true, worker := Draining) else s.(worker := Taking)
    case WorkerDrains =>
      if s.queue == [] then s.(worker := WorkerDone)
      else
        var t := s.(queue := Popped(s.queue));
        (match s.queue[0]
         case Frame(f) => t.(drained := s.drained + [f])
         case Sentinel => t)
    case StopCalled(id) => s.(stop := true, stoppers := s.stoppers[id := StopOffering])
    case StopperOffers(id) =>
      Offer(s).(stoppers := if Full(s.queue, s.capacity) then s.stoppers[id := StopShedding] else s.stoppers - {id})
    case StopperSheds(id) => Evict(s).(stoppers := s.stoppers[id := StopOffering])
  }

  // Where a schedule leads, when every step of it can be taken.
  function Follow(s: State, steps: seq<Step>): Option<State>
    decreases |steps|
  {
    if steps == [] then Some(s)
    else if Enabled(s, steps[0]) then Follow(Apply(s, steps[0]), steps[1..])
    else None
  }

  ghost predicate Reachable(capacity: nat, limit: nat, s: State) {
    exists steps :: Follow(Init(capacity, limit), steps) == Some(s)
  }

  // ---- no lost terminal ----

  predicate InTakeLoop(w: WorkerPc) { w.Taking? || w.Running? || w.Judging? }

  // Somebody still owes the worker a sentinel, or one is waiting.
  predicate Signalled(s: State) {
    InTakeLoop(s.worker) ==> Sentinel in s.queue || s.stoppers != map[] || !s.reader.ReaderDone?
  }

  predicate Bounded(s: State) { s.capacity >= 1 && |s.queue| <= s.capacity }

  // ---- frames ----

  function FramesOf(q: seq<Item>): seq<int> {
    if q == [] then []
    else FramesOf(q[..|q| - 1]) + (match q[|q| - 1] case Frame(f) => [f] case Sentinel => [])
  }

  function ReaderHand(r: ReaderPc): seq<int> {
    match r
    case Holding(f) => [f]
    case Putting(f) => [f]
    case Evicting(f) => [f]
    case _ => []
  }

  function WorkerHand(w: WorkerPc): seq<int> { if w.Running? then [w.frame] else [] }

  function Occurs(q: seq<int>, f: int): nat {
    if q == [] then 0 else Occurs(q[..|q| - 1], f) + if q[|q| - 1] == f then 1 else 0
  }

  // In how many places frame f is: a hand, the queue or one of the fates.
  function Places(s: State, f: int): nat {
    Occurs(ReaderHand(s.reader), f) + Occurs(FramesOf(s.queue), f) + Occurs(WorkerHand(s.worker), f) +
    Occurs(s.succeeded, f) + Occurs(s.failed, f) + Occurs(s.evicted, f) + Occurs(s.drained, f) + Occurs(s.abandoned, f)
  }

  ghost predicate Conserved(s: State) {
    forall f :: Places(s, f) == if 0 <= f < s.pulled then 1 else 0
  }

  predicate Counted(s: State) {
    && s.dropped == |s.evicted| + s.evictedSentinels
    && s.processed == |s.succeeded|
    && s.errors == |s.failed| + s.sourceErrors
    && Occasions(s.outcomes, Success) == s.processed && Occasions(s.outcomes, Failure) == s.errors
    && Streak(s.outcomes, s.consecutive)
  }

  function Occasions(outcomes: seq<Outcome>, o: Outcome): nat {
    if outcomes == [] then 0 else Occasions(outcomes[..|outcomes| - 1], o) + if outcomes[|outcomes| - 1] == o then 1 else 0
  }

  // The last n outcomes are failures, and the one before them, if any, is not.
  predicate Streak(outcomes: seq<Outcome>, n: nat) {
    AllFailed(outcomes, n) && (n < |outcomes| ==> outcomes[|outcomes| - n - 1] == Success)
  }

  predicate AllFailed(outcomes: seq<Outcome>, n: nat) {
    n <= |outcomes| && forall i | |outcomes| - n <= i < |outcomes| :: outcomes[i] == Failure
  }

  // The reader pulls and enqueues in order; at most the last frame is abandoned, once stopped.
  predicate Sourced(s: State) {
    && (ReaderHand(s.reader) != [] ==>
          s.pulled >= 1 && ReaderHand(s.reader) == [s.pulled - 1] && s.enqueued == s.pulled - 1 && s.abandoned == [])
    && (ReaderHand(s.reader) == [] ==> s.enqueued + |s.abandoned| == s.pulled && |s.abandoned| <= 1)
    && (s.abandoned != [] ==> s.stop && !s.reader.Pulling?)
  }

  // What is buffered is the newest contiguous run; what the pipeline got is older and in order.
  predicate Ordered(s: State) {
    var n := |FramesOf(s.queue)|;
    && n <= s.enqueued
    && FramesOf(s.queue) == Range(s.enqueued - n, s.enqueued)
    && Ascending(s.taken)
    && forall f | f in s.taken :: f < s.enqueued - n
  }

  ghost predicate Inv(s: State) {
    Bounded(s) && Signalled(s) && Conserved(s) && Counted(s) && Sourced(s) && Ordered(s)
  }
}
