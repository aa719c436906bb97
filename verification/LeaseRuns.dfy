/** The publisher's calls are runs of the lease machine, so what holds of every run holds of them
    (cpp/src/injection.cpp:152-179, 335-371). */
module LeaseRuns {
  import opened Wrappers
  import opened Rotation
  import opened Lease
  import opened LeaseSafety
  import opened LeaseClient

  // The daemon can get from what it holds to any part of it.
  lemma {:induction false} ReleaseTo(p: Pool, s: State, held: set<nat>) returns (steps: seq<Step>)
    requires Legal(p) && held <= s.held
    ensures Run(p, s, steps, s.(held := held), true)
    decreases s.held
  {
    if held == s.held {
      steps := [];
    } else {
      var id :| id in s.held && id !in held;
      steps := ReleaseTo(p, s.(held := s.held - {id}), held);
      OneStep(p, s, Release(id), steps, s.(held := held), true);
      steps := [Release(id)] + steps;
    }
  }

  // helds[k]: what the daemon has left when status call k reaches it.
  predicate Observed(held: set<nat>, polls: seq<Status>, helds: seq<set<nat>>) {
    |polls| == |helds| && (forall k | 0 <= k < |polls| :: polls[k].reports ==> polls[k].ids == helds[k]) &&
    (|helds| > 0 ==> helds[0] <= held) && forall k | 0 < k < |helds| :: helds[k] <= helds[k - 1]
  }

  function Last(held: set<nat>, helds: seq<set<nat>>): set<nat> { if helds == [] then held else helds[|helds| - 1] }

  // The polling loop, as far as it goes, is a run that ends on the acquired buffer.
  lemma {:induction false} AcquireRuns(p: Pool, s: State, polls: seq<Status>, helds: seq<set<nat>>)
    returns (steps: seq<Step>, t: State)
    requires Legal(p) && Observed(s.held, polls, helds)
    requires s.phase.Waiting? && !s.phase.task.Stream?
    ensures Run(p, s, steps, t, true) && Last(s.held, helds) <= t.held <= s.held
    ensures var a := Acquire(Ids(p, s.phase.task), s.cursor, s.inFlight, polls);
      t == s.(cursor := a.cursor, inFlight := a.inFlight, held := t.held,
              queued := if a.slot >= 0 then s.queued else [],
              phase := if a.slot >= 0 then Got(s.phase.task, Ids(p, s.phase.task)[a.slot]) else Idle)
    decreases |polls|
  {
    hide Run, PickSlot;
    var ids := Ids(p, s.phase.task);
    if PickSlot(s.cursor, ids, s.inFlight) >= 0 {
      t := Apply(p, s, Take);
      NoStep(p, t);
      LastBelow(s.held, polls, helds);
      OneStep(p, s, Take, [], t, true);
      steps := [Take] + [];
    } else if polls == [] {
      t := Apply(p, s, GiveUp);
      NoStep(p, t);
      OneStep(p, s, GiveUp, [], t, true);
      steps := [GiveUp] + [];
    } else {
      var released := ReleaseTo(p, s, helds[0]);
      var m := s.(held := helds[0]);
      var polled := Apply(p, m, Poll(polls[0].reports));
      var stored := Apply(p, polled, Store);
      assert stored == m.(inFlight := Refreshed(s.inFlight, polls[0]));
      forall k | 0 < k < |helds[1..]| ensures helds[1..][k] <= helds[1..][k - 1] { assert helds[k + 1] <= helds[k]; }
      steps, t := AcquireRuns(p, stored, polls[1..], helds[1..]);
      assert Last(s.held, helds) == Last(helds[0], helds[1..]);
      OneStep(p, polled, Store, steps, t, true);
      OneStep(p, m, Poll(polls[0].reports), [Store] + steps, t, true);
      Join(p, s, released, m, [Poll(polls[0].reports)] + ([Store] + steps), t, true);
      steps := released + ([Poll(polls[0].reports)] + ([Store] + steps));
    }
  }

  lemma NoStep(p: Pool, s: State)
    requires Legal(p)
    ensures Run(p, s, [], s, true)
  {
  }

  lemma {:induction false} LastBelow(held: set<nat>, polls: seq<Status>, helds: seq<set<nat>>)
    requires Observed(held, polls, helds)
    ensures Last(held, helds) <= held
    decreases |helds|
  {
    if |helds| > 0 {
      forall k | 0 < k < |helds[1..]| ensures helds[1..][k] <= helds[1..][k - 1] { assert helds[k + 1] <= helds[k]; }
      LastBelow(helds[0], polls[1..], helds[1..]);
    }
  }

  // Writing and pushing what is in hand, answered or not.
  lemma PushRuns(p: Pool, s: State, answer: Option<set<nat>>) returns (steps: seq<Step>, t: State)
    requires Legal(p) && s.phase.Written? && !s.phase.task.Stream? && s.queued == []
    requires answer.Some? ==> answer.value <= s.held + {s.phase.id}
    ensures Run(p, s, steps, t, true)
    ensures t == s.(phase := Idle, inFlight := Absorbed(true, s.inFlight, answer),
                    held := if answer.Some? then answer.value else s.held)
  {
    hide Run;
    if answer.None? {
      t := Apply(p, s, Fail);
      NoStep(p, t);
      OneStep(p, s, Fail, [], t, true);
      steps := [Fail] + [];
    } else {
      var sent := Apply(p, s, Push);
      var released := ReleaseTo(p, sent, answer.value);
      var ready := sent.(held := answer.value);
      var answered := Apply(p, ready, Answer);
      t := Apply(p, answered, Absorb);
      NoStep(p, t);
      OneStep(p, answered, Absorb, [], t, true);
      OneStep(p, ready, Answer, [Absorb] + [], t, true);
      Join(p, sent, released, ready, [Answer] + ([Absorb] + []), t, true);
      steps := released + ([Answer] + ([Absorb] + []));
      OneStep(p, s, Push, steps, t, true);
      steps := [Push] + steps;
    }
  }

  // The first publish_rgb does not wait; every other call acquires its buffer.
  function Acquiring(p: Pool, s: State, task: Task, polls: seq<Status>): Acquired
    requires Legal(p)
  {
    if task.Staging? && !s.staged then Acquired(0, s.cursor, s.inFlight)
    else Acquire(Ids(p, task), s.cursor, s.inFlight, polls)
  }

  lemma BeginRuns(p: Pool, s: State, task: Task, polls: seq<Status>, helds: seq<set<nat>>) returns (steps: seq<Step>, t: State)
    requires Legal(p) && s.phase.Idle? && s.queued == [] && Observed(s.held, polls, helds)
    requires !task.Stream? && Paced(p, s, Begin(task))
    ensures Run(p, s, steps, t, true) && Last(s.held, helds) <= t.held
    ensures var a := Acquiring(p, s, task, polls);
      t == s.(cursor := a.cursor, inFlight := a.inFlight, held := t.held, staged := s.staged || task.Staging?,
              phase := if a.slot >= 0 then Got(task, Ids(p, task)[a.slot]) else Idle)
  {
    hide Run, PickSlot, Acquire, Clear;
    if task.Staging? && !s.staged {
      t := Apply(p, s, Begin(task));
      LastBelow(s.held, polls, helds);
      NoStep(p, t);
      steps := [];
    } else {
      steps, t := AcquireRuns(p, s.(phase := Waiting(task)), polls, helds);
    }
    OneStep(p, s, Begin(task), steps, t, true);
    steps := [Begin(task)] + steps;
  }

  /** A publish or publish_rgb call on a leasing daemon is a run from the idle client to the idle
      client that ends with the cursor and in-flight set the object ends with, whether it gets a
      buffer or times out, and whether its push is answered or fails. */
  lemma PublishRuns(p: Pool, s: State, task: Task, polls: seq<Status>, helds: seq<set<nat>>, answer: Option<set<nat>>)
    returns (steps: seq<Step>, t: State)
    requires Legal(p) && s.phase.Idle? && s.queued == [] && Observed(s.held, polls, helds)
    requires (task.Publish? || task.Staging?) && Paced(p, s, Begin(task))
    requires var a := Acquiring(p, s, task, polls);
      a.slot >= 0 && answer.Some? ==> answer.value <= Last(s.held, helds) + {Ids(p, task)[a.slot]}
    ensures Run(p, s, steps, t, true) && t.phase.Idle? && t.queued == [] && t.reserved == s.reserved
    ensures var a := Acquiring(p, s, task, polls);
      t.cursor == a.cursor && t.inFlight == if a.slot >= 0 then Absorbed(true, a.inFlight, answer) else a.inFlight
  {
    hide Run, PickSlot, Acquire, Observed, Clear;
    var m: State;
    steps, m := BeginRuns(p, s, task, polls, helds);
    if m.phase.Got? {
      var written := Apply(p, m, Write);
      var pushed: seq<Step>;
      pushed, t := PushRuns(p, written, answer);
      OneStep(p, m, Write, pushed, t, true);
      Join(p, s, steps, m, [Write] + pushed, t, true);
      steps := steps + ([Write] + pushed);
    } else {
      t := m;
    }
  }

  /** So is acquire_slot, which leaves the slot reserved when it gets one. */
  lemma AcquireSlotRuns(p: Pool, s: State, polls: seq<Status>, helds: seq<set<nat>>) returns (steps: seq<Step>, t: State)
    requires Legal(p) && s.phase.Idle? && s.queued == [] && Observed(s.held, polls, helds) && Paced(p, s, Begin(Slot))
    ensures Run(p, s, steps, t, true) && t.phase.Idle? && t.queued == []
    ensures var a := Acquire(p.ids, s.cursor, s.inFlight, polls);
      && t.cursor == a.cursor && t.inFlight == a.inFlight
      && t.reserved == s.reserved + if a.slot >= 0 then {p.ids[a.slot]} else {}
  {
    hide Run, PickSlot, Acquire, Observed, Clear;
    var m: State;
    steps, m := BeginRuns(p, s, Slot, polls, helds);
    if m.phase.Got? {
      t := Apply(p, m, Hand);
      NoStep(p, t);
      OneStep(p, m, Hand, [], t, true);
      Join(p, s, steps, m, [Hand] + [], t, true);
      steps := steps + ([Hand] + []);
    } else {
      t := m;
    }
  }

  /** And push_slot of a reserved slot, which ends the reservation. */
  lemma PushSlotRuns(p: Pool, s: State, slot: nat, answer: Option<set<nat>>) returns (steps: seq<Step>, t: State)
    requires Legal(p) && s.phase.Idle? && s.queued == [] && slot < |p.ids| && p.ids[slot] in s.reserved
    requires answer.Some? ==> answer.value <= s.held + {p.ids[slot]}
    ensures Run(p, s, steps, t, true) && t.phase.Idle? && t.queued == []
    ensures t.cursor == s.cursor && t.inFlight == Absorbed(true, s.inFlight, answer) && t.reserved == s.reserved - {p.ids[slot]}
  {
    hide Run;
    steps, t := PushRuns(p, Apply(p, s, PushSlot(p.ids[slot])), answer);
    OneStep(p, s, PushSlot(p.ids[slot]), steps, t, true);
    steps := [PushSlot(p.ids[slot])] + steps;
  }
}
