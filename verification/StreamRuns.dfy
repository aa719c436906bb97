/** The stream pipeline's worker loop, with consumers calling get in between, is a run of the machine
    of StreamPipeline (cpp/src/stream_pipeline.cpp:20-59, 227-280). */
module StreamRuns {
  import opened Wrappers
  import opened StreamPipeline

  // What becomes of one result: gets that come before it, whether the hook keeps it, whether drawing works.
  datatype Turn = Turn(gets: nat, kept: bool, drawn: bool)

  // The objects hold what the machine's state says.
  ghost predicate Mirrors(h: Handler<nat>, c: Config, s: State)
    reads h, h.results
  {
    && h.draw == c.draw && h.results.capacity == c.capacity && h.results.Valid()
    && h.results.slots == s.slots && h.results.drops == s.drops && h.results.ended == s.ended
    && h.seen == s.seen && h.annotated == s.annotated && h.annotateErrors == s.errors
  }

  lemma OneStep(c: Config, s: State, step: Step, rest: seq<Step>, t: State)
    requires c.capacity > 0 && Enabled(s, step) && Run(c, Apply(c, s, step), rest, t)
    ensures Run(c, s, [step] + rest, t)
  {
    assert ([step] + rest)[1..] == rest;
  }

  lemma {:induction false} Join(c: Config, s: State, xs: seq<Step>, m: State, ys: seq<Step>, t: State)
    requires c.capacity > 0 && Run(c, s, xs, m) && Run(c, m, ys, t)
    ensures Run(c, s, xs + ys, t)
    decreases |xs|
  {
    if xs == [] {
      assert xs + ys == ys;
    } else {
      Join(c, Apply(c, s, xs[0]), xs[1..], m, ys, t);
      assert (xs + ys)[1..] == xs[1..] + ys;
    }
  }

  lemma NoStep(c: Config, s: State)
    requires c.capacity > 0
    ensures Run(c, s, [], s)
  {
  }

  /** Handling one result is a run from pulling to pulling that leaves the counters and the queue as
      Handler.Handle leaves its own. */
  lemma HandleRuns(c: Config, s: State, kept: bool, drawn: bool) returns (steps: seq<Step>, t: State)
    requires c.capacity > 0 && s.worker.Pulling?
    ensures Run(c, s, steps, t) && t.worker.Pulling?
    ensures t.seen == s.seen + 1 && t.ended == s.ended && t.delivered == s.delivered && t.stops == s.stops
    ensures t.annotated == s.annotated + if kept && c.draw && drawn then 1 else 0
    ensures t.errors == s.errors + if kept && c.draw && !drawn then 1 else 0
    ensures t.discarded == s.discarded + if kept then 0 else 1
    ensures if kept then Offered(s.slots, c.capacity, Result(s.seen), t.slots) else t.slots == s.slots
    ensures t.offered == if kept then s.offered + [s.seen] else s.offered
    ensures t.drops == s.drops + if kept && |s.slots| >= c.capacity then |s.slots| + 1 - c.capacity else 0
  {
    OfferedExactly(s.slots, c.capacity, Result(s.seen));
    hide Run;
    var hooking := Apply(c, s, Pull);
    if !kept {
      t := Apply(c, hooking, Discard);
      NoStep(c, t);
      OneStep(c, hooking, Discard, [], t);
      steps := [Discard] + [];
    } else {
      var next := Apply(c, hooking, Keep);
      var ready := if c.draw then Apply(c, next, Draw(drawn)) else next;
      t := Apply(c, ready, Offer);
      NoStep(c, t);
      OneStep(c, ready, Offer, [], t);
      steps := [Offer] + [];
      if c.draw {
        OneStep(c, next, Draw(drawn), steps, t);
        steps := [Draw(drawn)] + steps;
      }
      OneStep(c, hooking, Keep, steps, t);
      steps := [Keep] + steps;
    }
    OneStep(c, s, Pull, steps, t);
    steps := [Pull] + steps;
  }

  // Consumers take n results, or what there is.
  method Take(h: Handler<nat>, c: Config, n: nat, ghost s: State) returns (ghost steps: seq<Step>, ghost t: State)
    requires c.capacity > 0 && Mirrors(h, c, s)
    modifies h.results
    ensures Mirrors(h, c, t) && Run(c, s, steps, t) && t.worker == s.worker
  {
    steps, t := [], s;
    NoStep(c, s);
    for i := 0 to n
      invariant Mirrors(h, c, t) && Run(c, s, steps, t) && t.worker == s.worker
    {
      if h.results.slots != [] || h.results.ended {
        var r := h.results.Get();
        ghost var next := Apply(c, t, Get);
        NoStep(c, next);
        OneStep(c, t, Get, [], next);
        Join(c, s, steps, t, [Get] + [], next);
        steps, t := steps + ([Get] + []), next;
      }
    }
  }

  // One result through the worker's side.
  method HandleOne(h: Handler<nat>, c: Config, kept: bool, drawn: bool, ghost s: State)
    returns (ghost steps: seq<Step>, ghost t: State)
    requires c.capacity > 0 && Mirrors(h, c, s) && s.worker.Pulling?
    modifies h, h.results
    ensures Mirrors(h, c, t) && Run(c, s, steps, t) && t.worker.Pulling? && h.seen == old(h.seen) + 1
  {
    hide Offered, Run;
    h.Handle(if kept then Some(h.seen) else None, drawn);
    steps, t := HandleRuns(c, s, kept, drawn);
    if kept { OfferedOnce(s.slots, c.capacity, Result(s.seen), h.results.slots, t.slots); }
  }

  /** The worker loop, one result after another and the terminal item at the end, whatever the hook
      and the drawing do and whenever consumers take: the counters, the queue and the drops are
      those of a run of the machine, so Accounting, DeliveredInOrder and StopIsNeverLost hold of the
      objects. Results are named by the order they are pulled in. */
  method Serve(h: Handler<nat>, c: Config, turns: seq<Turn>) returns (ghost steps: seq<Step>, ghost t: State)
    requires c.capacity > 0 && Mirrors(h, c, INIT)
    modifies h, h.results
    ensures Mirrors(h, c, t) && Run(c, INIT, steps, t) && t.worker.Done? && h.seen == |turns|
  {
    hide Offered, Run;
    steps, t := [], INIT;
    NoStep(c, INIT);
    for i := 0 to |turns|
      invariant Mirrors(h, c, t) && Run(c, INIT, steps, t) && t.worker.Pulling? && h.seen == i
    {
      ghost var taken, m := Take(h, c, turns[i].gets, t);
      Join(c, INIT, steps, t, taken, m);
      ghost var handled, next := HandleOne(h, c, turns[i].kept, turns[i].drawn, m);
      Join(c, INIT, steps + taken, m, handled, next);
      steps, t := steps + taken + handled, next;
    }
    h.results.OfferStop();
    ghost var stopped := Ended(c, t);
    OfferedOnce(t.slots, c.capacity, Stop, h.results.slots, stopped.slots);
    Join(c, INIT, steps, t, [Finish, OfferStop], stopped);
    steps, t := steps + [Finish, OfferStop], stopped;
  }

  lemma Ended(c: Config, s: State) returns (t: State)
    requires c.capacity > 0 && s.worker.Pulling?
    ensures Run(c, s, [Finish, OfferStop], t) && t.worker.Done? && t.ended == s.ended && t.seen == s.seen
    ensures t.annotated == s.annotated && t.errors == s.errors && Offered(s.slots, c.capacity, Stop, t.slots)
    ensures t.drops == s.drops + if |s.slots| >= c.capacity then |s.slots| + 1 - c.capacity else 0
  {
    OfferedExactly(s.slots, c.capacity, Stop);
    var ending := Apply(c, s, Finish);
    t := Apply(c, ending, OfferStop);
    NoStep(c, t);
    OneStep(c, ending, OfferStop, [], t);
    OneStep(c, s, Finish, [OfferStop] + [], t);
    assert [Finish, OfferStop] == [Finish] + ([OfferStop] + []);
  }
}
