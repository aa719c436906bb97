/** No buffer the daemon may still read is rewritten (cpp/src/injection.cpp:152-371). */
module LeaseSafety {
  import opened Sequences
  import opened Rotation
  import opened Lease

  lemma KeepsKnown(p: Pool, s: State, step: Step)
    requires Legal(p) && Inv(p, s) && Enabled(p, s, step) && !step.Lose?
    ensures Known(Apply(p, s, step))
  {
    hide Free, PickSlot, Ahead, Distinct;
  }

  lemma KeepsMarked(p: Pool, s: State, step: Step)
    requires Legal(p) && Tidy(p, s) && Enabled(p, s, step) && Paced(p, s, step)
    ensures Marked(Apply(p, s, step))
  {
    hide PickSlot, Free, Ahead, Distinct;
    PickNeedsFree(p, s.cursor, s.inFlight);
  }

  lemma Subset(a: set<nat>, b: set<nat>)
    requires a <= b
    ensures |a| <= |b|
  {
    assert b == a + (b - a);
  }

  lemma OneFewer(before: set<nat>, after: set<nat>, x: nat, inFlight: set<nat>)
    requires before - after - {x} <= inFlight && x !in after
    ensures |after - inFlight| >= |before - inFlight| - 1
    ensures after - (inFlight + {x}) == after - inFlight
  {
    Subset(before - inFlight, (after - inFlight) + {x});
  }

  // Taking a slot while the rotation has one to spare before r leaves r alone and one fewer before it.
  lemma TakeSpares(cursor: nat, ids: seq<nat>, inFlight: set<nat>, r: nat, n: nat)
    requires |ids| > 0 && Distinct(ids) && r in ids && r !in inFlight && n < |Ahead(cursor, ids, r) - inFlight|
    ensures var slot := PickSlot(cursor, ids, inFlight);
      && slot >= 0 && ids[slot] != r
      && n <= |Ahead(After(slot, |ids|), ids, r) - inFlight|
      && n <= |Ahead(After(slot, |ids|), ids, r) - (inFlight + {ids[slot]})|
  {
    PickPasses(cursor, ids, inFlight, r);
    hide Ahead, PickSlot, After;
    var slot := PickSlot(cursor, ids, inFlight);
    if ids[slot] == r {
      Subset(Ahead(cursor, ids, r) - inFlight, {});
    } else {
      OneFewer(Ahead(cursor, ids, r), Ahead(After(slot, |ids|), ids, r), ids[slot], inFlight);
    }
  }

  lemma TakeKeepsSpare(p: Pool, s: State, n: nat)
    requires Legal(p) && Kept(p, s) && Enabled(p, s, Take) && !s.phase.task.Staging? && Spare(p, s, n + 1)
    ensures Spare(p, Apply(p, s, Take), n) && Apply(p, s, Take).phase.id !in s.reserved
  {
    hide Ahead, PickSlot, After, Distinct, Free;
    forall r | r in s.reserved
      ensures n <= |Ahead(Apply(p, s, Take).cursor, p.ids, r) - Apply(p, s, Take).inFlight| && Apply(p, s, Take).phase.id != r
    {
      TakeSpares(s.cursor, p.ids, s.inFlight, r, n);
    }
  }

  // A pool with a buffer reserved never makes the client wait.
  lemma ReservedIsFree(p: Pool, s: State)
    requires Legal(p) && Kept(p, s) && s.reserved != {}
    ensures PickSlot(s.cursor, p.ids, s.inFlight) >= 0
  {
    PickExactly(s.cursor, p.ids, s.inFlight);
    var r :| r in s.reserved;
  }

  lemma KeepsRoom(p: Pool, s: State, step: Step)
    requires Legal(p) && Tidy(p, s) && Enabled(p, s, step) && Paced(p, s, step)
    ensures Room(p, Apply(p, s, step))
  {
    hide PickSlot, Free, After, Distinct, Clear;
    NothingAsked();
    if s.reserved != {} { ReservedIsFree(p, s); }
    if step.Take? && !s.phase.task.Staging? { TakeKeepsRoom(p, s); }
    if step.Poll? { PickNeedsFree(p, s.cursor, s.inFlight); }
    if step.Abandon? { FewerReserved(p.ids, s.cursor, s.inFlight, s.reserved, s.reserved - {step.id}); }
  }

  lemma NothingAsked()
    ensures forall ids: seq<nat>, cursor: nat, inFlight: set<nat>, reserved: set<nat> | |ids| > 0 :: Clear(ids, cursor, inFlight, reserved, 0)
    ensures forall ids: seq<nat>, cursor: nat, inFlight: set<nat>, n: nat | |ids| > 0 :: Clear(ids, cursor, inFlight, {}, n)
  {
  }

  lemma FewerReserved(ids: seq<nat>, cursor: nat, inFlight: set<nat>, reserved: set<nat>, fewer: set<nat>)
    requires |ids| > 0 && fewer <= reserved
    ensures forall n: nat | Clear(ids, cursor, inFlight, reserved, n) :: Clear(ids, cursor, inFlight, fewer, n)
  {
  }

  lemma TakeKeepsRoom(p: Pool, s: State)
    requires Legal(p) && Tidy(p, s) && Enabled(p, s, Take) && !s.phase.task.Staging?
    ensures Room(p, Apply(p, s, Take))
  {
    hide PickSlot, Free, Ahead, After, Distinct;
    PickNeedsFree(p, s.cursor, s.inFlight);
    if s.phase.task.Stream? {
      TakeKeepsSpare(p, s, s.phase.task.left - 1);
      FreeMarked(p.ids, s.inFlight, p.ids[PickSlot(s.cursor, p.ids, s.inFlight)]);
    }
  }

  lemma KeepsReserved(p: Pool, s: State, step: Step)
    requires Legal(p) && Tidy(p, s) && Enabled(p, s, step)
    ensures Kept(p, Apply(p, s, step))
  {
    hide PickSlot, Free, Ahead, After, Distinct, Room;
    if step.Take? { TakeKeepsReserved(p, s); }
  }

  lemma TakeKeepsReserved(p: Pool, s: State)
    requires Legal(p) && Tidy(p, s) && Enabled(p, s, Take)
    ensures Kept(p, Apply(p, s, Take))
  {
    hide PickSlot, Free, Ahead, After, Distinct;
    if !s.phase.task.Staging? { TakeKeepsSpare(p, s, Need(s.phase.task) - 1); }
  }

  lemma KeepsBuffers(p: Pool, s: State, step: Step)
    requires Legal(p) && Tidy(p, s) && Enabled(p, s, step)
    ensures Fresh(p, Apply(p, s, step)) && FromPool(p, Apply(p, s, step))
  {
    hide PickSlot, Free, Ahead, Distinct;
  }

  // A slot picked for rewriting is not the daemon's.
  predicate PicksIdle(p: Pool, s: State, step: Step)
    requires Legal(p) && Enabled(p, s, step)
  {
    step.Take? ==> !Busy(s, Apply(p, s, Take).phase.id)
  }

  lemma KnownPicksIdle(p: Pool, s: State, step: Step)
    requires Legal(p) && Known(s) && Marked(s) && Enabled(p, s, step)
    ensures PicksIdle(p, s, step)
  {
    hide PickSlot;
  }

  lemma KeepsOwned(p: Pool, s: State, step: Step)
    requires Legal(p) && Tidy(p, s) && Enabled(p, s, step) && PicksIdle(p, s, step)
    ensures Owned(Apply(p, s, step))
  {
    hide PickSlot, Free, Ahead, Distinct, Room;
  }

  lemma KeepsTidy(p: Pool, s: State, step: Step)
    requires Legal(p) && Tidy(p, s) && Enabled(p, s, step) && Paced(p, s, step) && PicksIdle(p, s, step)
    ensures Tidy(p, Apply(p, s, step))
  {
    hide Owned, Kept, Marked, Room, Fresh, FromPool, Apply, Enabled, Paced;
    KeepsOwned(p, s, step);
    KeepsReserved(p, s, step);
    KeepsMarked(p, s, step);
    KeepsRoom(p, s, step);
    KeepsBuffers(p, s, step);
  }

  lemma {:induction false} RunKeeps(p: Pool, s: State, steps: seq<Step>, t: State)
    requires Legal(p) && Inv(p, s) && Run(p, s, steps, t, true) && Lose !in steps
    ensures Inv(p, t)
    decreases |steps|
  {
    if steps != [] {
      assert steps[0] in steps;
      hide Known, Tidy, PicksIdle, Marked, Apply, Enabled, Paced;
      KeepsKnown(p, s, steps[0]);
      KnownPicksIdle(p, s, steps[0]);
      KeepsTidy(p, s, steps[0]);
      RunKeeps(p, Apply(p, s, steps[0]), steps[1..], t);
    }
  }

  lemma ReachableInv(p: Pool, steps: seq<Step>, t: State)
    requires Legal(p) && Run(p, INIT, steps, t, true) && Lose !in steps
    ensures Inv(p, t)
  {
    RunKeeps(p, INIT, steps, t);
  }

  /** Over every run, with every push answered, of publish, publish_rgb, acquire_slot, push_slot and streams, with other calls
      between a reservation and its push as long as the rotation does not come back to it, against a
      daemon that releases what it likes when it likes: no buffer is rewritten while the daemon may
      still read it, while it waits to be sent or while it is reserved, and between calls everything
      the daemon holds is in the client's in-flight set. */
  lemma NeverTorn(p: Pool, steps: seq<Step>, t: State)
    requires Legal(p) && Run(p, INIT, steps, t, true) && Lose !in steps
    ensures !Tears(t)
    ensures t.phase.Idle? || t.phase.Waiting? ==> t.held <= t.inFlight
  {
    ReachableInv(p, steps, t);
  }

  // ---- how long a stream may be ----

  lemma OneStep(p: Pool, s: State, step: Step, rest: seq<Step>, t: State, paced: bool)
    requires Legal(p) && Enabled(p, s, step) && (paced ==> Paced(p, s, step)) && Run(p, Apply(p, s, step), rest, t, paced)
    ensures Run(p, s, [step] + rest, t, paced)
  {
    assert ([step] + rest)[1..] == rest;
  }

  lemma {:induction false} Join(p: Pool, s: State, xs: seq<Step>, m: State, ys: seq<Step>, t: State, paced: bool)
    requires Legal(p) && Run(p, s, xs, m, paced) && Run(p, m, ys, t, paced)
    ensures Run(p, s, xs + ys, t, paced)
    decreases |xs|
  {
    if xs == [] {
      assert xs + ys == ys;
    } else {
      Join(p, Apply(p, s, xs[0]), xs[1..], m, ys, t, paced);
      assert (xs + ys)[1..] == xs[1..] + ys;
    }
  }

  // What the client believes in flight is held or queued: the daemon has released nothing.
  predicate Stubborn(p: Pool, s: State) {
    s.held <= s.inFlight && (forall id | id in p.ids && id in s.inFlight :: id in s.held || id in s.queued) &&
    (forall id | id in s.queued :: id in p.ids && id !in s.held)
  }

  // Against such a daemon a stream with more frames than free slots ends up on a frame of its own.
  lemma {:induction false} Overruns(p: Pool, s: State) returns (steps: seq<Step>, t: State)
    requires Legal(p) && Stubborn(p, s)
    requires s.phase.Waiting? && s.phase.task.Stream? && s.phase.task.left > Free(p.ids, s.inFlight)
    requires s.queued != [] || Free(p.ids, s.inFlight) > 0
    ensures Run(p, s, steps, t, false) && Tears(t) && Uninterrupted(steps)
    decreases Free(p.ids, s.inFlight)
  {
    PickNeedsFree(p, s.cursor, s.inFlight);
    if Free(p.ids, s.inFlight) > 0 {
      steps, t := BuildOne(p, s);
    } else {
      steps, t := RunOver(p, s);
    }
  }

  lemma {:induction false} BuildOne(p: Pool, s: State) returns (steps: seq<Step>, t: State)
    requires Legal(p) && Stubborn(p, s)
    requires s.phase.Waiting? && s.phase.task.Stream? && s.phase.task.left > Free(p.ids, s.inFlight) > 0
    ensures Run(p, s, steps, t, false) && Tears(t) && Uninterrupted(steps)
    decreases Free(p.ids, s.inFlight), 0
  {
    hide Run, PickSlot;
    PickNeedsFree(p, s.cursor, s.inFlight);
    var taken := Apply(p, s, Take);
    var written := Apply(p, taken, Write);
    var built := Apply(p, written, Build);
    var id := taken.phase.id;
    FreeMarked(p.ids, s.inFlight, id);
    assert id in built.queued by { assert built.queued[|s.queued|] == id; }
    forall x | x in built.queued ensures x in p.ids && x !in built.held { assert x in s.queued || x == id; }
    forall x | x in p.ids && x in built.inFlight ensures x in built.held || x in built.queued {
      if x != id { assert x in s.inFlight; }
      if x in s.queued { var i :| 0 <= i < |s.queued| && s.queued[i] == x; assert built.queued[i] == x; }
    }
    steps, t := Overruns(p, built);
    OneStep(p, written, Build, steps, t, false);
    OneStep(p, taken, Write, [Build] + steps, t, false);
    OneStep(p, s, Take, [Write] + ([Build] + steps), t, false);
    steps := [Take] + ([Write] + ([Build] + steps));
  }

  lemma RunOver(p: Pool, s: State) returns (steps: seq<Step>, t: State)
    requires Legal(p) && Stubborn(p, s) && s.phase.Waiting? && s.phase.task.Stream? && s.phase.task.left > 0
    requires s.queued != [] && Free(p.ids, s.inFlight) == 0
    ensures Run(p, s, steps, t, false) && Tears(t) && Uninterrupted(steps)
  {
    hide PickSlot, Free;
    PickExactly(s.cursor, p.ids, s.inFlight);
    FreeZero(p.ids, s.inFlight);
    var stored := Apply(p, Apply(p, s, Poll(true)), Store);
    PickExactly(stored.cursor, p.ids, stored.inFlight);
    assert s.queued[0] in s.queued;
    t := Apply(p, stored, Take);
    assert t.phase.id in p.ids;
    OneStep(p, stored, Take, [], t, false);
    OneStep(p, Apply(p, s, Poll(true)), Store, [Take], t, false);
    OneStep(p, s, Poll(true), [Store] + [Take], t, false);
    steps := [Poll(true)] + ([Store] + [Take]);
  }

  // No other call of the client begins, and none of an earlier one is left to lose its answer.
  predicate Uninterrupted(steps: seq<Step>) { forall i | 0 <= i < |steps| :: !steps[i].Begin? && !steps[i].Lose? }

  // Between calls, as the client knows it; held is what the daemon still has.
  function Between(inFlight: set<nat>, cursor: nat, staged: bool, held: set<nat>): State {
    State(inFlight, cursor, staged, Idle, [], {}, held)
  }

  // No daemon, whatever it still holds of what the client believes in flight and whatever it
  // releases meanwhile, makes a stream of n frames rewrite a frame still to be read.
  ghost predicate StreamIsSafe(p: Pool, inFlight: set<nat>, cursor: nat, staged: bool, n: nat)
    requires Legal(p)
  {
    forall held: set<nat>, steps: seq<Step>, t: State
      | held <= inFlight && (staged || p.staging !in held) && Uninterrupted(steps) &&
        Run(p, Between(inFlight, cursor, staged, held), [Begin(Stream(n))] + steps, t, false) :: !Tears(t)
  }

  lemma {:induction false} UninterruptedIsPaced(p: Pool, s: State, steps: seq<Step>, t: State)
    requires Legal(p) && Uninterrupted(steps) && Run(p, s, steps, t, false)
    ensures Run(p, s, steps, t, true)
    decreases |steps|
  {
    if steps != [] { UninterruptedIsPaced(p, Apply(p, s, steps[0]), steps[1..], t); }
  }

  lemma StreamWithinBudget(p: Pool, inFlight: set<nat>, cursor: nat, staged: bool, n: nat)
    requires Legal(p) && (staged || p.staging !in inFlight) && (n <= 1 || n <= Free(p.ids, inFlight))
    ensures StreamIsSafe(p, inFlight, cursor, staged, n)
  {
    forall held: set<nat>, steps: seq<Step>, t: State
      | held <= inFlight && (staged || p.staging !in held) && Uninterrupted(steps) &&
        Run(p, Between(inFlight, cursor, staged, held), [Begin(Stream(n))] + steps, t, false)
      ensures !Tears(t)
    {
      var s := Between(inFlight, cursor, staged, held);
      assert ([Begin(Stream(n))] + steps)[1..] == steps;
      UninterruptedIsPaced(p, Apply(p, s, Begin(Stream(n))), steps, t);
      OneStep(p, s, Begin(Stream(n)), steps, t, true);
      RunKeeps(p, s, [Begin(Stream(n))] + steps, t);
    }
  }

  lemma StreamOverBudget(p: Pool, inFlight: set<nat>, cursor: nat, staged: bool, n: nat)
    returns (held: set<nat>, steps: seq<Step>, t: State)
    requires Legal(p) && n > 1 && n > Free(p.ids, inFlight)
    ensures held <= inFlight && (staged || p.staging !in held) && Uninterrupted(steps) && Tears(t)
    ensures Run(p, Between(inFlight, cursor, staged, held), [Begin(Stream(n))] + steps, t, false)
  {
    hide Run, PickSlot, Free;
    held := set id | id in inFlight && id in p.ids;
    var s := Between(inFlight, cursor, staged, held);
    var waiting := Apply(p, s, Begin(Stream(n)));
    if Free(p.ids, inFlight) > 0 {
      steps, t := Overruns(p, waiting);
    } else {
      steps, t := NothingFree(p, waiting);
    }
    OneStep(p, s, Begin(Stream(n)), steps, t, false);
  }

  // With every slot in flight: the daemon releases one, it is built into the stream, and the next
  // status answer forgets it.
  lemma NothingFree(p: Pool, s: State) returns (steps: seq<Step>, t: State)
    requires Legal(p) && s.phase.Waiting? && s.phase.task.Stream? && s.phase.task.left > 1
    requires s.queued == [] && Free(p.ids, s.inFlight) == 0 && s.held == set id | id in s.inFlight && id in p.ids
    ensures Run(p, s, steps, t, false) && Tears(t) && Uninterrupted(steps)
  {
    hide Run, PickSlot;
    FreeZero(p.ids, s.inFlight);
    PickNeedsFree(p, s.cursor, s.inFlight);
    var id := p.ids[0];
    var released := Apply(p, s, Release(id));
    var polled := Apply(p, released, Poll(true));
    var stored := Apply(p, polled, Store);
    FreeMarked(p.ids, stored.inFlight, id);
    assert stored.inFlight + {id} == s.held;
    FreeZero(p.ids, s.held);
    steps, t := Overruns(p, stored);
    OneStep(p, polled, Store, steps, t, false);
    OneStep(p, released, Poll(true), [Store] + steps, t, false);
    OneStep(p, s, Release(id), [Poll(true)] + ([Store] + steps), t, false);
    steps := [Release(id)] + ([Poll(true)] + ([Store] + steps));
  }

  /** A stream is safe against every daemon exactly when it has at most one frame or no more frames
      than slots are free when it begins: a longer one polls for slots, and the daemon's answer,
      which cannot know the requests still to be sent, hands their buffers out again. */
  lemma StreamSafeExactly(p: Pool, inFlight: set<nat>, cursor: nat, staged: bool, n: nat)
    requires Legal(p) && (staged || p.staging !in inFlight)
    ensures StreamIsSafe(p, inFlight, cursor, staged, n) <==> n <= 1 || n <= Free(p.ids, inFlight)
  {
    if n <= 1 || n <= Free(p.ids, inFlight) {
      StreamWithinBudget(p, inFlight, cursor, staged, n);
    } else {
      var held, steps, t := StreamOverBudget(p, inFlight, cursor, staged, n);
    }
  }
}
