/** How long a reserved slot stays the caller's own
    (cpp/src/injection.cpp:312-357; cpp/include/neoruntime_ipc_sdk/injection.hpp:165-175). */
module LeaseReservation {
  import opened Sequences
  import opened Rotation
  import opened Lease
  import opened LeaseSafety

  function Takes(steps: seq<Step>): nat {
    if steps == [] then 0 else Takes(steps[1..]) + if steps[0].Take? then 1 else 0
  }

  // Publish calls that fail before their push.
  predicate Attempts(steps: seq<Step>) {
    forall step | step in steps :: step == Begin(Publish) || step == Take || step == Fail
  }

  lemma AttemptsCons(step: Step, rest: seq<Step>)
    requires Attempts(rest) && (step == Begin(Publish) || step == Take || step == Fail)
    ensures Attempts([step] + rest) && Takes([step] + rest) == Takes(rest) + if step.Take? then 1 else 0
  {
    assert ([step] + rest)[1..] == rest;
  }

  // From rest, publish attempts bring the rotation to any slot the client believes free, in one more
  // acquisition than there are free slots before it.
  lemma {:induction false} RotateTo(p: Pool, s: State, r: nat, paced: bool) returns (steps: seq<Step>, t: State)
    requires Legal(p) && s.phase.Idle? && s.queued == [] && r in p.ids && r !in s.inFlight
    requires paced ==> s.reserved == {}
    ensures Run(p, s, steps, t, paced) && t == s.(cursor := t.cursor, phase := Got(Publish, r))
    ensures Attempts(steps) && Takes(steps) == |Ahead(s.cursor, p.ids, r) - s.inFlight| + 1
    decreases |Ahead(s.cursor, p.ids, r) - s.inFlight|
  {
    hide Run, PickSlot, Ahead, After, Free, Distinct, Attempts, Takes;
    PickPasses(s.cursor, p.ids, s.inFlight, r);
    var waiting := Apply(p, s, Begin(Publish));
    var got := Apply(p, waiting, Take);
    if got.phase.id == r {
      assert Ahead(s.cursor, p.ids, r) - s.inFlight == {};
      t := got;
      NoSteps(p, t, paced);
      steps := [];
      OneStep(p, waiting, Take, steps, t, paced);
    } else {
      var idle := Apply(p, got, Fail);
      ExactlyOneFewer(Ahead(s.cursor, p.ids, r), Ahead(got.cursor, p.ids, r), got.phase.id, s.inFlight);
      steps, t := RotateTo(p, idle, r, paced);
      OneStep(p, got, Fail, steps, t, paced);
      AttemptsCons(Fail, steps);
      steps := [Fail] + steps;
      OneStep(p, waiting, Take, steps, t, paced);
    }
    AttemptsCons(Take, steps);
    OneStep(p, s, Begin(Publish), [Take] + steps, t, paced);
    AttemptsCons(Begin(Publish), [Take] + steps);
    steps := [Begin(Publish)] + ([Take] + steps);
  }

  lemma NoSteps(p: Pool, s: State, paced: bool)
    requires Legal(p)
    ensures Run(p, s, [], s, paced) && Attempts([]) && Takes([]) == 0
  {
  }

  lemma ExactlyOneFewer(before: set<nat>, after: set<nat>, x: nat, inFlight: set<nat>)
    requires x in before && x !in after && x !in inFlight && after <= before && before - after - {x} <= inFlight
    ensures |before - inFlight| == |after - inFlight| + 1
  {
    assert before - inFlight == (after - inFlight) + {x};
  }

  // ---- how long a reservation lasts ----

  function Reserving(inFlight: set<nat>, cursor: nat, staged: bool, held: set<nat>, r: nat): State {
    State(inFlight, cursor, staged, Idle, [], {r}, held)
  }

  // The reservation stands, and no publish_rgb comes between.
  predicate Standing(steps: seq<Step>, r: nat) {
    PushSlot(r) !in steps && Abandon(r) !in steps && Begin(Staging) !in steps
  }

  // Against no daemon do m further acquisitions, for calls of any kind and outcome, hand r out again.
  ghost predicate Survives(p: Pool, inFlight: set<nat>, cursor: nat, staged: bool, r: nat, m: nat)
    requires Legal(p)
  {
    forall held: set<nat>, steps: seq<Step>, t: State
      | held <= inFlight && Standing(steps, r) && Takes(steps) <= m &&
        Run(p, Reserving(inFlight, cursor, staged, held, r), steps, t, false)
      :: !(t.phase.Got? && t.phase.id == r)
  }

  // Everything in use but r.
  function InUse(s: State): set<nat> {
    s.inFlight + s.held + (set id | id in s.queued) + InHand(s.phase)
  }

  // The buffer the client is working on.
  function AtHand(phase: Phase): set<nat> {
    match phase
    case Got(_, id) => {id}
    case Written(_, id) => {id}
    case Sent(id) => {id}
    case _ => {}
  }

  function InHand(phase: Phase): set<nat> {
    if phase.Polled? || phase.Answered? then phase.reply else AtHand(phase)
  }

  predicate NoStaging(phase: Phase) {
    !phase.Polled? && (phase.Waiting? || phase.Got? || phase.Written? ==> !phase.task.Staging?)
  }

  // Of what lies before r, only what was in flight to begin with is in use.
  predicate Approaching(p: Pool, first: set<nat>, r: nat, s: State)
    requires Legal(p)
  {
    r in s.reserved && r !in InUse(s) && NoStaging(s.phase) &&
    (InUse(s) + s.reserved) * Ahead(s.cursor, p.ids, r) <= first
  }

  lemma StepUsesNoMore(p: Pool, first: set<nat>, r: nat, s: State, step: Step)
    requires Legal(p) && r in p.ids && Approaching(p, first, r, s) && Enabled(p, s, step) && !step.Take?
    requires step != PushSlot(r) && step != Abandon(r) && step != Begin(Staging)
    ensures Approaching(p, first, r, Apply(p, s, step))
  {
    var t := Apply(p, s, step);
    assert !step.Poll? by { hide PickSlot; PickExactly(s.cursor, p.ids, s.inFlight); }
    if Reserves(step) { ReservesNoMore(p, r, s, step); } else { UsesNoMore(p, r, s, step); }
    hide InUse, Apply, Enabled, Ahead, Distinct;
    assert InUse(t) <= InUse(s) + (s.reserved - {r});
  }

  predicate Reserves(step: Step) { step.Hand? || step.PushSlot? || step.Abandon? }

  lemma ReservesNoMore(p: Pool, r: nat, s: State, step: Step)
    requires Legal(p) && r in s.reserved && r !in InUse(s) && NoStaging(s.phase) && Enabled(p, s, step) && Reserves(step)
    requires step != PushSlot(r) && step != Abandon(r)
    ensures var t := Apply(p, s, step);
      && t.cursor == s.cursor && NoStaging(t.phase) && r in t.reserved && r !in InUse(t)
      && InUse(t) <= InUse(s) + (s.reserved - {r}) && t.reserved <= s.reserved + InUse(s)
  {
  }

  lemma UsesNoMore(p: Pool, r: nat, s: State, step: Step)
    requires Legal(p) && r in s.reserved && r !in InUse(s) && NoStaging(s.phase) && Enabled(p, s, step)
    requires !Reserves(step) && !step.Take? && !step.Poll? && step != Begin(Staging)
    ensures var t := Apply(p, s, step);
      && t.cursor == s.cursor && NoStaging(t.phase) && t.reserved == s.reserved
      && InUse(t) <= InUse(s)
  {
    hide PickSlot, Distinct, Free;
  }

  lemma TakePasses(p: Pool, first: set<nat>, r: nat, s: State)
    requires Legal(p) && r in p.ids && Approaching(p, first, r, s) && Enabled(p, s, Take)
    requires |Ahead(s.cursor, p.ids, r) - first| > 0
    ensures Approaching(p, first, r, Apply(p, s, Take))
    ensures |Ahead(Apply(p, s, Take).cursor, p.ids, r) - first| >= |Ahead(s.cursor, p.ids, r) - first| - 1
  {
    hide PickSlot, Ahead, After, Free, Distinct;
    PickPasses(s.cursor, p.ids, s.inFlight, r);
    var before, t := Ahead(s.cursor, p.ids, r), Apply(p, s, Take);
    var after, x := Ahead(t.cursor, p.ids, r), t.phase.id;
    SomeFree(before, s.inFlight, first);
    assert before - after - {x} <= first;
    OneFewer(before, after, x, first);
    assert InUse(t) <= InUse(s) + {x};
  }

  lemma SomeFree(before: set<nat>, inFlight: set<nat>, first: set<nat>)
    requires |before - first| > 0 && inFlight * before <= first
    ensures !(before <= inFlight)
  {
    var y :| y in before - first;
  }

  lemma StandingFirst(steps: seq<Step>, r: nat)
    requires steps != [] && Standing(steps, r)
    ensures Standing(steps[1..], r)
    ensures steps[0] != PushSlot(r) && steps[0] != Abandon(r) && steps[0] != Begin(Staging)
  {
    var first := steps[0];
    assert first in steps;
    assert steps == [first] + steps[1..];
  }

  lemma {:induction false} StaysAhead(p: Pool, first: set<nat>, r: nat, s: State, steps: seq<Step>, t: State)
    requires Legal(p) && r in p.ids && Approaching(p, first, r, s) && Run(p, s, steps, t, false)
    requires Standing(steps, r) && Takes(steps) <= |Ahead(s.cursor, p.ids, r) - first|
    ensures Approaching(p, first, r, t)
    decreases |steps|
  {
    if steps != [] {
      StandingFirst(steps, r);
      hide Approaching, Ahead, Apply, Enabled, Standing, Distinct;
      var next := Apply(p, s, steps[0]);
      if steps[0].Take? {
        TakePasses(p, first, r, s);
      } else {
        StepUsesNoMore(p, first, r, s, steps[0]);
        KeepsCursor(p, s, steps[0]);
      }
      StaysAhead(p, first, r, next, steps[1..], t);
    }
  }

  lemma KeepsCursor(p: Pool, s: State, step: Step)
    requires Legal(p) && Enabled(p, s, step) && !step.Take?
    ensures Apply(p, s, step).cursor == s.cursor
  {
  }

  lemma NotBeforeItself(cursor: nat, ids: seq<nat>, r: nat)
    requires |ids| > 0
    ensures r !in Ahead(cursor, ids, r)
  {
    if r in Ahead(cursor, ids, r) {
      var k := UptoMembers(cursor, ids, r, 0, r);
      assert false;
    }
  }

  /** With the cursor anywhere: a reserved slot is handed out again by some daemon within m further
      acquisitions exactly when m exceeds the number of free slots the rotation passes before it. */
  lemma SurvivesExactly(p: Pool, inFlight: set<nat>, cursor: nat, staged: bool, r: nat, m: nat)
    requires Legal(p) && r in p.ids && r !in inFlight
    ensures Survives(p, inFlight, cursor, staged, r, m) <==> m <= |Ahead(cursor, p.ids, r) - inFlight|
  {
    hide Run, Takes, Ahead, Distinct;
    if m <= |Ahead(cursor, p.ids, r) - inFlight| {
      forall held: set<nat>, steps: seq<Step>, t: State
        | held <= inFlight && Standing(steps, r) && Takes(steps) <= m &&
          Run(p, Reserving(inFlight, cursor, staged, held, r), steps, t, false)
        ensures !(t.phase.Got? && t.phase.id == r)
      {
        NotBeforeItself(cursor, p.ids, r);
        StaysAhead(p, inFlight, r, Reserving(inFlight, cursor, staged, held, r), steps, t);
      }
    } else {
      var s := Reserving(inFlight, cursor, staged, {}, r);
      var steps, t := RotateTo(p, s, r, false);
      assert Standing(steps, r);
    }
  }

  /** A slot that acquire_slot has just handed out survives m further acquisitions, against every
      daemon, exactly when m is below the number of slots free at the reservation. */
  lemma ReservationExactly(p: Pool, inFlight: set<nat>, cursor: nat, staged: bool, m: nat)
    requires Legal(p) && PickSlot(cursor, p.ids, inFlight) >= 0
    ensures var slot := PickSlot(cursor, p.ids, inFlight);
      Survives(p, inFlight, After(slot, |p.ids|), staged, p.ids[slot], m) <==> m < Free(p.ids, inFlight)
  {
    hide Survives, After, PickSlot, Free, Ahead, Distinct, Members;
    var slot := PickSlot(cursor, p.ids, inFlight);
    var r := p.ids[slot];
    SurvivesExactly(p, inFlight, After(slot, |p.ids|), staged, r, m);
    AllAhead(After(slot, |p.ids|), p.ids, slot);
    FreeIsCount(p.ids, inFlight);
    assert r in Members(p.ids) by { assert r in p.ids; IsMember(p.ids, r); }
    assert Members(p.ids) - inFlight == (Members(p.ids) - {r} - inFlight) + {r};
  }

  lemma IsMember(ids: seq<nat>, r: nat)
    requires r in ids
    ensures r in Members(ids)
  {
  }

  /** publish_rgb puts the cursor back to the first slot, because its staging buffer rotates in a pool
      of one: if that slot is the reserved one, the very next acquisition hands it out again. */
  lemma RgbResetsRotation(p: Pool, s: State, m: nat)
    requires Legal(p) && s.phase == Waiting(Staging) && Enabled(p, s, Take) && p.ids[0] !in s.inFlight
    ensures Apply(p, s, Take).cursor == 0
    ensures Survives(p, s.inFlight, 0, s.staged, p.ids[0], m) <==> m == 0
  {
    hide Survives;
    SurvivesExactly(p, s.inFlight, 0, s.staged, p.ids[0], m);
    assert Turn(0, |p.ids|, 0) == 0;
    assert Ahead(0, p.ids, p.ids[0]) - s.inFlight == {};
  }
}
