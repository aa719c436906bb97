/** The stream pipeline (cpp/src/stream_pipeline.cpp): a worker that pulls, hooks, draws and offers
    results into a bounded drop-oldest queue with one terminal item, and consumers that take. */
module StreamPipeline {
  import opened Wrappers
  import opened Sequences

  datatype Item<T> = Result(value: T) | Stop

  // Dropped from the front until one more fits.
  function Evicted<T>(slots: seq<T>, capacity: nat): seq<T>
    requires capacity > 0
  {
    if |slots| < capacity then slots else slots[|slots| - capacity + 1..]
  }

  // now is what one more item leaves of a bounded queue: as much of the old queue's end as fits in
  // front of it, and the item.
  predicate Offered<T(==)>(was: seq<T>, capacity: nat, x: T, now: seq<T>) {
    && |now| == (if |was| < capacity then |was| + 1 else capacity)
    && 0 < |now| <= |was| + 1 && now[|now| - 1] == x && forall i | 0 <= i < |now| - 1 :: now[i] == was[|was| + 1 - |now| + i]
  }

  lemma OfferedExactly<T>(was: seq<T>, capacity: nat, x: T)
    requires capacity > 0
    ensures Offered(was, capacity, x, Evicted(was, capacity) + [x])
  {
  }

  lemma OfferedOnce<T>(was: seq<T>, capacity: nat, x: T, a: seq<T>, b: seq<T>)
    requires Offered(was, capacity, x, a) && Offered(was, capacity, x, b)
    ensures a == b
  {
    forall i | 0 <= i < |a| ensures a[i] == b[i] {}
  }

  lemma DropOne<T>(all: seq<T>, k: nat)
    requires k < |all|
    ensures all[k..][1..] == all[k + 1..]
  {
  }

  class ResultQueue<T> {
    const capacity: nat
    var slots: seq<Item<T>>
    var drops: nat
    var ended: bool

    ghost predicate Valid() reads this { capacity > 0 && |slots| <= capacity }

    constructor (capacity: nat)
      requires capacity > 0
      ensures Valid() && this.capacity == capacity && slots == [] && drops == 0 && !ended
    {
      this.capacity, slots, drops, ended := capacity, [], 0, false;
    }

    method EvictUntilFits()
      requires Valid()
      modifies this`slots, this`drops
      ensures Valid() && |slots| == if |old(slots)| < capacity then |old(slots)| else capacity - 1
      ensures slots == old(slots)[|old(slots)| - |slots|..]
      ensures drops == old(drops) + |old(slots)| - |slots|
    {
      ghost var all, k := slots, 0;
      while |slots| >= capacity
        invariant Valid() && k <= |all| && slots == all[k..] && drops == old(drops) + k
        invariant k > 0 ==> |slots| >= capacity - 1
        decreases |slots|
      {
        DropOne(all, k);
        slots := slots[1..];
        drops := drops + 1;
        k := k + 1;
      }
    }

    method Offer(value: T)
      requires Valid()
      modifies this`slots, this`drops
      ensures Valid() && Offered(old(slots), capacity, Result(value), slots)
      ensures drops == old(drops) + if |old(slots)| < capacity then 0 else 1
    {
      EvictUntilFits();
      slots := slots + [Result(value)];
    }

    method OfferStop()
      requires Valid()
      modifies this`slots, this`drops
      ensures Valid() && Offered(old(slots), capacity, Stop, slots)
      ensures drops == old(drops) + if |old(slots)| < capacity then 0 else 1
    {
      EvictUntilFits();
      slots := slots + [Stop];
    }

    // Called once the wait is over.
    method Get() returns (r: Option<T>)
      requires Valid() && (slots != [] || ended)
      modifies this`slots, this`ended
      ensures Valid() && slots == if old(slots) == [] then [] else old(slots)[1..]
      ensures ended == (old(ended) || (old(slots) != [] && old(slots)[0].Stop?))
      ensures r == if old(slots) != [] && old(slots)[0].Result? then Some(old(slots)[0].value) else None
    {
      if slots == [] { return None; }
      var slot := slots[0];
      slots := slots[1..];
      if slot.Stop? {
        ended := true;
        return None;
      }
      r := Some(slot.value);
    }
  }

  // The worker's side of one result. hook: what on_result makes of it, None when it raises or
  // returns nothing; drawn: whether the overlay call went through.
  class Handler<T> {
    const draw: bool
    const results: ResultQueue<T>
    var seen: nat
    var annotated: nat
    var annotateErrors: nat

    constructor (draw: bool, results: ResultQueue<T>)
      ensures this.draw == draw && this.results == results && seen == annotated == annotateErrors == 0
    {
      this.draw, this.results, seen, annotated, annotateErrors := draw, results, 0, 0, 0;
    }

    method Handle(hook: Option<T>, drawn: bool)
      requires results.Valid()
      modifies this, results
      ensures results.Valid() && seen == old(seen) + 1 && results.ended == old(results.ended)
      ensures annotated == old(annotated) + if hook.Some? && draw && drawn then 1 else 0
      ensures annotateErrors == old(annotateErrors) + if hook.Some? && draw && !drawn then 1 else 0
      ensures hook.None? ==> results.slots == old(results.slots) && results.drops == old(results.drops)
      ensures hook.Some? ==> Offered(old(results.slots), results.capacity, Result(hook.value), results.slots)
      ensures results.drops == old(results.drops) + if hook.Some? && |old(results.slots)| == results.capacity then 1 else 0
    {
      seen := seen + 1;
      if hook.None? { return; }
      if draw { Annotate(drawn); }
      results.Offer(hook.value);
    }

    method Annotate(drawn: bool)
      modifies this`annotated, this`annotateErrors
      ensures annotated == old(annotated) + if drawn then 1 else 0
      ensures annotateErrors == old(annotateErrors) + if drawn then 0 else 1
    {
      if drawn { annotated := annotated + 1; } else { annotateErrors := annotateErrors + 1; }
    }
  }

  // ---- the worker and its consumers ----

  // What the worker is doing with the result it pulled n-th.
  datatype Worker =
    | Pulling
    | Hooking(n: nat)      // counted as seen; the hook decides
    | Drawing(n: nat)
    | Offering(n: nat)
    | Ending               // the stream is over or failed; the terminal item is still to be offered
    | Done

  // offered, delivered: by the order they were pulled in. refused: gets that returned nothing.
  datatype State = State(
    worker: Worker, slots: seq<Item<nat>>, ended: bool,
    seen: nat, annotated: nat, errors: nat, drops: nat,
    discarded: nat, offered: seq<nat>, delivered: seq<nat>, stops: nat)

  const INIT := State(Pulling, [], false, 0, 0, 0, 0, 0, [], [], 0)

  datatype Step =
    | Pull | Discard | Keep       // Discard: the hook raised or returned nothing
    | Draw(ok: bool) | Offer
    | Finish | OfferStop          // Finish: end of stream or an error
    | Get

  datatype Config = Config(capacity: nat, draw: bool)

  predicate Enabled(s: State, step: Step) {
    match step
    case Pull => s.worker.Pulling?
    case Discard => s.worker.Hooking?
    case Keep => s.worker.Hooking?
    case Draw(_) => s.worker.Drawing?
    case Offer => s.worker.Offering?
    case Finish => s.worker.Pulling?
    case OfferStop => s.worker.Ending?
    case Get => s.slots != [] || s.ended
  }

  function Apply(c: Config, s: State, step: Step): State
    requires c.capacity > 0 && Enabled(s, step)
  {
    match step
    case Pull => s.(worker := Hooking(s.seen), seen := s.seen + 1)
    case Discard => s.(worker := Pulling, discarded := s.discarded + 1)
    case Keep => s.(worker := if c.draw then Drawing(s.worker.n) else Offering(s.worker.n))
    case Draw(ok) =>
      if ok then s.(worker := Offering(s.worker.n), annotated := s.annotated + 1)
      else s.(worker := Offering(s.worker.n), errors := s.errors + 1)
    case Offer =>
      var left := Evicted(s.slots, c.capacity);
      s.(worker := Pulling, slots := left + [Result(s.worker.n)], drops := s.drops + |s.slots| - |left|,
         offered := s.offered + [s.worker.n])
    case Finish => s.(worker := Ending)
    case OfferStop =>
      var left := Evicted(s.slots, c.capacity);
      s.(worker := Done, slots := left + [Stop], drops := s.drops + |s.slots| - |left|, stops := s.stops + 1)
    case Get =>
      if s.slots == [] then s
      else if s.slots[0].Stop? then s.(slots := s.slots[1..], ended := true)
      else s.(slots := s.slots[1..], delivered := s.delivered + [s.slots[0].value])
  }

  function Follow(c: Config, s: State, steps: seq<Step>): Option<State>
    requires c.capacity > 0
    decreases |steps|
  {
    if steps == [] then Some(s)
    else if Enabled(s, steps[0]) then Follow(c, Apply(c, s, steps[0]), steps[1..])
    else None
  }

  predicate Run(c: Config, s: State, steps: seq<Step>, t: State)
    requires c.capacity > 0
  {
    Follow(c, s, steps) == Some(t)
  }

  // The results waiting in the queue.
  function Queued(slots: seq<Item<nat>>): seq<nat> {
    if slots == [] then []
    else if slots[0].Result? then [slots[0].value] + Queued(slots[1..])
    else Queued(slots[1..])
  }

  // ---- what every step keeps ----

  predicate Counted(c: Config, s: State) {
    match s.worker
    case Hooking(_) => s.seen == s.discarded + |s.offered| + 1 && Drawn(c, s, 0)
    case Drawing(_) => s.seen == s.discarded + |s.offered| + 1 && Drawn(c, s, 0) && c.draw
    case Offering(_) => s.seen == s.discarded + |s.offered| + 1 && Drawn(c, s, 1)
    case _ => s.seen == s.discarded + |s.offered| && Drawn(c, s, 0)
  }

  predicate Drawn(c: Config, s: State, pending: nat) {
    s.annotated + s.errors == if c.draw then |s.offered| + pending else 0
  }

  predicate Conserved(s: State) { |s.offered| == |s.delivered| + s.drops + |Queued(s.slots)| }

  predicate Plain(slots: seq<Item<nat>>) { forall i | 0 <= i < |slots| :: slots[i].Result? }

  // The terminal item: offered when the worker is done and not before, behind everything else,
  // and still there until a get takes it.
  predicate Terminal(c: Config, s: State) {
    && |s.slots| <= c.capacity
    && (s.slots != [] ==> Plain(s.slots[..|s.slots| - 1]))
    && s.stops == (if s.worker.Done? then 1 else 0)
    && (s.ended ==> s.worker.Done? && s.slots == [])
    && (s.worker.Done? && !s.ended ==> s.slots != [] && s.slots[|s.slots| - 1].Stop?)
    && (!s.worker.Done? ==> Plain(s.slots))
  }

  predicate Below(s: seq<nat>, n: nat) { forall i | 0 <= i < |s| :: s[i] < n }

  predicate Suffix(s: seq<nat>, of: seq<nat>) { |s| <= |of| && s == of[|of| - |s|..] }

  predicate In(s: seq<nat>, of: seq<nat>) { forall i | 0 <= i < |s| :: s[i] in of }

  // What is queued is the latest of what was offered; what was delivered came before it, in order.
  predicate Ordered(s: State) {
    && Ascending(s.offered) && Below(s.offered, s.seen) && Suffix(Queued(s.slots), s.offered)
    && Ascending(s.delivered + Queued(s.slots)) && In(s.delivered, s.offered)
    && (s.worker.Hooking? || s.worker.Drawing? || s.worker.Offering? ==> s.worker.n == s.seen - 1 && Below(s.offered, s.seen - 1))
  }

  predicate Inv(c: Config, s: State) { Counted(c, s) && Conserved(s) && Terminal(c, s) && Ordered(s) }

  lemma {:induction false} QueuedPlain(slots: seq<Item<nat>>)
    requires Plain(slots)
    ensures |Queued(slots)| == |slots| && forall i | 0 <= i < |slots| :: Queued(slots)[i] == slots[i].value
  {
    if slots != [] { QueuedPlain(slots[1..]); }
  }

  lemma {:induction false} QueuedAppend(slots: seq<Item<nat>>, x: Item<nat>)
    ensures Queued(slots + [x]) == if x.Result? then Queued(slots) + [x.value] else Queued(slots)
  {
    if slots != [] {
      QueuedAppend(slots[1..], x);
      assert (slots + [x])[1..] == slots[1..] + [x];
    }
  }

  // Dropping from the front of a queue without the terminal item drops as many results.
  lemma QueuedDrop(slots: seq<Item<nat>>, k: nat)
    requires k <= |slots| && Plain(slots)
    ensures |Queued(slots)| == |slots|
    ensures Queued(slots[k..]) == Queued(slots)[k..]
  {
    QueuedPlain(slots);
    QueuedPlain(slots[k..]);
  }

  // Taking the head of the queue.
  lemma QueuedTake(slots: seq<Item<nat>>)
    requires slots != [] && Plain(slots[..|slots| - 1])
    ensures if slots[0].Stop? then Queued(slots) == [] && slots[1..] == []
            else Queued(slots) == [slots[0].value] + Queued(slots[1..])
  {
    if |slots| > 1 {
      var init := slots[..|slots| - 1];
      assert init[0].Result?;
    }
  }

  lemma EvictedIsDrop(slots: seq<Item<nat>>, capacity: nat) returns (k: nat)
    requires capacity > 0
    ensures k <= |slots| && Evicted(slots, capacity) == slots[k..] && |slots| - k < capacity
  {
    k := if |slots| < capacity then 0 else |slots| - capacity + 1;
  }

  lemma OfferKeeps(c: Config, s: State, step: Step)
    requires c.capacity > 0 && Inv(c, s) && Enabled(s, step) && (step.Offer? || step.OfferStop?)
    ensures Conserved(Apply(c, s, step)) && Ordered(Apply(c, s, step))
  {
    var k := EvictedIsDrop(s.slots, c.capacity);
    QueuedDrop(s.slots, k);
    LineShrinks(s.delivered, Queued(s.slots), s.offered, k);
    if step.Offer? { OfferResult(c, s, k); } else { OfferTerminal(c, s, k); }
  }

  lemma OfferResult(c: Config, s: State, k: nat)
    requires c.capacity > 0 && Conserved(s) && Ordered(s) && Enabled(s, Offer)
    requires k <= |s.slots| == |Queued(s.slots)| && Evicted(s.slots, c.capacity) == s.slots[k..]
    requires Queued(s.slots[k..]) == Queued(s.slots)[k..] && Suffix(Queued(s.slots)[k..], s.offered)
    requires Ascending(s.delivered + Queued(s.slots)[k..])
    ensures Conserved(Apply(c, s, Offer)) && Ordered(Apply(c, s, Offer))
  {
    hide Queued, Evicted, Ascending, In, Below, Suffix;
    QueuedAppend(s.slots[k..], Result(s.worker.n));
    LineGrows(s.delivered, Queued(s.slots)[k..], s.offered, s.worker.n, s.seen);
  }

  lemma OfferTerminal(c: Config, s: State, k: nat)
    requires c.capacity > 0 && Conserved(s) && Ordered(s) && Enabled(s, OfferStop)
    requires k <= |s.slots| == |Queued(s.slots)| && Evicted(s.slots, c.capacity) == s.slots[k..]
    requires Queued(s.slots[k..]) == Queued(s.slots)[k..] && Suffix(Queued(s.slots)[k..], s.offered)
    requires Ascending(s.delivered + Queued(s.slots)[k..])
    ensures Conserved(Apply(c, s, OfferStop)) && Ordered(Apply(c, s, OfferStop))
  {
    hide Queued, Evicted, Ascending, In, Below, Suffix;
    QueuedAppend(s.slots[k..], Stop);
  }

  lemma LineShrinks(taken: seq<nat>, waiting: seq<nat>, offered: seq<nat>, k: nat)
    requires Suffix(waiting, offered) && Ascending(taken + waiting) && k <= |waiting|
    ensures Suffix(waiting[k..], offered) && Ascending(taken + waiting[k..])
  {
    DropKeepsOrder(taken, waiting, k);
  }

  lemma LineGrows(taken: seq<nat>, waiting: seq<nat>, offered: seq<nat>, n: nat, seen: nat)
    requires Ascending(offered) && Below(offered, n) && n == seen - 1
    requires Suffix(waiting, offered) && Ascending(taken + waiting) && In(taken, offered)
    ensures Ascending(offered + [n]) && Below(offered + [n], seen)
    ensures Suffix(waiting + [n], offered + [n]) && Ascending(taken + (waiting + [n])) && In(taken, offered + [n])
  {
    forall i | 0 <= i < |taken| ensures taken[i] in offered + [n] { assert taken[i] in offered; }
    LineOffered(taken, waiting, offered);
    hide In;
    AppendKeepsOrder(taken + waiting, n, offered);
    assert taken + (waiting + [n]) == taken + waiting + [n];
  }

  lemma LineOffered(taken: seq<nat>, waiting: seq<nat>, offered: seq<nat>)
    requires In(taken, offered) && Suffix(waiting, offered)
    ensures In(taken + waiting, offered)
  {
    var line := taken + waiting;
    forall i | 0 <= i < |line| ensures line[i] in offered {
      if i >= |taken| { assert line[i] == offered[|offered| - |waiting| + i - |taken|]; }
    }
  }

  lemma DropKeepsOrder(taken: seq<nat>, waiting: seq<nat>, k: nat)
    requires Ascending(taken + waiting) && k <= |waiting|
    ensures Ascending(taken + waiting[k..])
  {
    var was, now := taken + waiting, taken + waiting[k..];
    forall i, j | 0 <= i < j < |now| ensures now[i] < now[j] {
      assert now[i] == was[if i < |taken| then i else i + k];
      assert now[j] == was[if j < |taken| then j else j + k];
    }
  }

  lemma AppendKeepsOrder(line: seq<nat>, n: nat, offered: seq<nat>)
    requires Ascending(line) && In(line, offered) && Below(offered, n)
    ensures Ascending(line + [n])
  {
    forall i | 0 <= i < |line| ensures line[i] < n {
      var j :| 0 <= j < |offered| && offered[j] == line[i];
    }
  }

  lemma GetKeeps(c: Config, s: State)
    requires c.capacity > 0 && Inv(c, s) && Enabled(s, Get)
    ensures Conserved(Apply(c, s, Get)) && Ordered(Apply(c, s, Get))
  {
    if s.slots != [] {
      QueuedTake(s.slots);
      hide Queued;
      if s.slots[0].Result? {
        var x, rest := s.slots[0].value, Queued(s.slots[1..]);
        assert s.delivered + ([x] + rest) == s.delivered + [x] + rest;
        assert s.offered[|s.offered| - |rest| - 1] == x;
      }
    }
  }

  lemma StepKeeps(c: Config, s: State, step: Step)
    requires c.capacity > 0 && Inv(c, s) && Enabled(s, step)
    ensures Inv(c, Apply(c, s, step))
  {
    hide Queued;
    StepCounts(c, s, step);
    StepKeepsTerminal(c, s, step);
    if step.Offer? || step.OfferStop? { OfferKeeps(c, s, step); }
    if step.Get? { GetKeeps(c, s); }
  }

  lemma StepCounts(c: Config, s: State, step: Step)
    requires c.capacity > 0 && Counted(c, s) && Enabled(s, step)
    ensures Counted(c, Apply(c, s, step))
  {
  }

  lemma StepKeepsTerminal(c: Config, s: State, step: Step)
    requires c.capacity > 0 && Terminal(c, s) && Enabled(s, step)
    ensures Terminal(c, Apply(c, s, step))
  {
  }

  lemma {:induction false} RunKeeps(c: Config, s: State, steps: seq<Step>, t: State)
    requires c.capacity > 0 && Inv(c, s) && Run(c, s, steps, t)
    ensures Inv(c, t)
    decreases |steps|
  {
    if steps != [] {
      hide Inv;
      StepKeeps(c, s, steps[0]);
      RunKeeps(c, Apply(c, s, steps[0]), steps[1..], t);
    }
  }

  /** Between results: everything seen was discarded by the hook or offered; when drawing, offered
      is annotated plus annotate errors; offered is delivered plus dropped plus queued. */
  lemma Accounting(c: Config, steps: seq<Step>, t: State)
    requires c.capacity > 0 && Run(c, INIT, steps, t) && t.worker.Pulling?
    ensures t.seen == t.discarded + |t.offered|
    ensures c.draw ==> |t.offered| == t.annotated + t.errors
    ensures |t.offered| == |t.delivered| + t.drops + |Queued(t.slots)|
  {
    RunKeeps(c, INIT, steps, t);
  }

  /** An offer drops at most one item, the oldest, and only from a full queue; what else was queued
      stays in front of what is offered. */
  lemma OfferDropsOne(c: Config, steps: seq<Step>, s: State, step: Step)
    requires c.capacity > 0 && Run(c, INIT, steps, s) && Enabled(s, step) && (step.Offer? || step.OfferStop?)
    ensures var t := Apply(c, s, step);
      && t.drops == s.drops + (if |s.slots| == c.capacity then 1 else 0)
      && |t.slots| == (if |s.slots| == c.capacity then c.capacity else |s.slots| + 1)
      && t.slots == s.slots[t.drops - s.drops..] + [if step.Offer? then Result(s.worker.n) else Stop]
  {
    RunKeeps(c, INIT, steps, s);
    OfferedExactly(s.slots, c.capacity, if step.Offer? then Result(s.worker.n) else Stop);
  }

  /** Results are delivered in the order they were pulled, each at most once; what is queued is the
      most recent run of what was offered, behind everything delivered. */
  lemma DeliveredInOrder(c: Config, steps: seq<Step>, t: State)
    requires c.capacity > 0 && Run(c, INIT, steps, t)
    ensures Ascending(t.delivered) && In(t.delivered, t.offered)
    ensures Suffix(Queued(t.slots), t.offered) && |t.slots| <= c.capacity
    ensures forall d, q | 0 <= d < |t.delivered| && 0 <= q < |Queued(t.slots)| :: t.delivered[d] < Queued(t.slots)[q]
  {
    RunKeeps(c, INIT, steps, t);
    hide Run, Queued;
    Split(t.delivered, Queued(t.slots));
  }

  lemma Split(d: seq<nat>, q: seq<nat>)
    requires Ascending(d + q)
    ensures Ascending(d) && forall i, j | 0 <= i < |d| && 0 <= j < |q| :: d[i] < q[j]
  {
    var line := d + q;
    forall i, j | 0 <= i < j < |d| ensures d[i] < d[j] { assert line[i] == d[i] && line[j] == d[j]; }
    forall i, j | 0 <= i < |d| && 0 <= j < |q| ensures d[i] < q[j] { assert line[i] == d[i] && line[|d| + j] == q[j]; }
  }

  /** The terminal item is offered at most once, and until a get takes it, it is in the queue with
      nothing behind it, never evicted; so a consumer that finds the queue empty and not ended has a
      worker that is not done, and no end of stream is lost. */
  lemma StopIsNeverLost(c: Config, steps: seq<Step>, t: State)
    requires c.capacity > 0 && Run(c, INIT, steps, t)
    ensures t.stops <= 1 && (t.stops == 1 <==> t.worker.Done?)
    ensures t.worker.Done? && !t.ended ==> t.slots != [] && t.slots[|t.slots| - 1].Stop?
    ensures t.slots == [] && !t.ended ==> !t.worker.Done?
  {
    RunKeeps(c, INIT, steps, t);
  }

  /** Once a get has taken it, nothing can happen but gets, and every one returns nothing. */
  lemma AfterTheStop(c: Config, steps: seq<Step>, t: State, step: Step)
    requires c.capacity > 0 && Run(c, INIT, steps, t) && t.ended && Enabled(t, step)
    ensures step == Get && Apply(c, t, step) == t
  {
    RunKeeps(c, INIT, steps, t);
  }
}
