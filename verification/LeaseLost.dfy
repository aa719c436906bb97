/** What a push whose answer is lost costs, and for how long (cpp/src/injection.cpp:164-179). */
module LeaseLost {
  import opened Sequences
  import opened Rotation
  import opened Lease
  import opened LeaseSafety
  import opened LeaseReservation

  // The push under way has arrived, but its answer never does.
  function Lost(p: Pool, s: State): (t: State)
    requires Legal(p) && s.phase.Sent?
    ensures t == s.(phase := Idle)
  {
    Apply(p, s, Lose)
  }

  // Paced calls, all answered, lead to a rewritten buffer.
  ghost predicate CanTear(p: Pool, s: State)
    requires Legal(p)
  {
    exists steps: seq<Step>, t: State :: Run(p, s, steps, t, true) && Lose !in steps && Tears(t)
  }

  // Nothing tells the client what the daemon holds, and no publish_rgb puts the rotation back.
  predicate Uninformed(steps: seq<Step>) {
    forall step | step in steps :: Silent(step)
  }

  predicate Silent(step: Step) { !step.Answer? && step != Poll(true) && step != Begin(Staging) }

  lemma TakesJoin(xs: seq<Step>, ys: seq<Step>)
    ensures Takes(xs + ys) == Takes(xs) + Takes(ys)
  {
    if xs == [] {
      assert xs + ys == ys;
    } else {
      TakesJoin(xs[1..], ys);
      assert (xs + ys)[1..] == xs[1..] + ys;
    }
  }

  lemma TakesNone(step: Step, rest: seq<Step>)
    requires !step.Take?
    ensures Takes([step] + rest) == Takes(rest)
  {
    assert ([step] + rest)[1..] == rest;
  }

  // ---- the way back to a lost buffer ----

  lemma {:induction false} GiveUpAll(p: Pool, s: State) returns (steps: seq<Step>)
    requires Legal(p)
    ensures Run(p, s, steps, s.(reserved := {}), true)
    ensures Takes(steps) == 0 && forall step | step in steps :: step.Abandon?
    decreases s.reserved
  {
    if s.reserved == {} {
      steps := [];
    } else {
      var r :| r in s.reserved;
      steps := GiveUpAll(p, s.(reserved := s.reserved - {r}));
      OneStep(p, s, Abandon(r), steps, s.(reserved := {}), true);
      TakesNone(Abandon(r), steps);
      steps := [Abandon(r)] + steps;
    }
  }

  // Paced calls that fail bring the client back to a buffer of the pool it does not know to be held.
  lemma ComesBack(p: Pool, s: State, r: nat) returns (steps: seq<Step>, t: State)
    requires Legal(p) && s.phase.Idle? && s.queued == [] && r in p.ids && r in s.held && r !in s.inFlight
    ensures Run(p, s, steps, t, true) && Tears(t) && Uninformed(steps) && Lose !in steps
    ensures Takes(steps) == |Ahead(s.cursor, p.ids, r) - s.inFlight| + 1
  {
    hide Run, Takes, Apply, Enabled, Paced, Distinct, Ahead;
    var given := GiveUpAll(p, s);
    var idle := s.(reserved := {});
    steps, t := RotateTo(p, idle, r, true);
    Join(p, s, given, idle, steps, t, true);
    TakesJoin(given, steps);
    steps := given + steps;
  }

  lemma StagingComesBack(p: Pool, s: State)
    requires Legal(p) && s.phase.Idle? && s.staged && p.staging in s.held && p.staging !in s.inFlight
    ensures CanTear(p, s)
  {
    hide Free, Ahead, PickSlot;
    var waiting := Apply(p, s, Begin(Staging));
    PickExactly(waiting.cursor, [p.staging], waiting.inFlight);
    assert p.staging in [p.staging];
    var t := Apply(p, waiting, Take);
    OneStep(p, waiting, Take, [], t, true);
    OneStep(p, s, Begin(Staging), [Take] + [], t, true);
    assert Run(p, s, [Begin(Staging)] + ([Take] + []), t, true) && Tears(t);
  }

  lemma LostIsWell(p: Pool, s: State)
    requires Legal(p) && Inv(p, s) && s.phase.Sent? && s.phase.id !in s.held
    ensures Inv(p, Lost(p, s))
  {
    hide Free, Ahead;
  }

  /** After any push that arrived, if its answer is lost: some paced continuation rewrites a buffer
      still to be read if and only if the daemon still holds the pushed one; the client cannot know,
      since the buffer is never in its in-flight set. Had the push not arrived, none would. */
  lemma LostAnswerExactly(p: Pool, before: seq<Step>, s: State)
    requires Legal(p) && Run(p, INIT, before, s, true) && Lose !in before && s.phase.Sent?
    ensures CanTear(p, Lost(p, s)) <==> s.phase.id in s.held
    ensures s.phase.id !in s.inFlight
  {
    hide Run;
    ReachableInv(p, before, s);
    var lost := Lost(p, s);
    if s.phase.id in s.held {
      if s.phase.id in p.ids {
        var steps, t := ComesBack(p, lost, s.phase.id);
      } else {
        StagingComesBack(p, lost);
      }
    } else if CanTear(p, lost) {
      LostIsWell(p, s);
      var steps, t :| Run(p, lost, steps, t, true) && Lose !in steps && Tears(t);
      RunKeeps(p, lost, steps, t);
      assert false;
    }
  }

  /** It happens: the first publish_rgb loses its answer, and the next one rewrites the buffer. */
  lemma LostAnswerTears(p: Pool) returns (arrived: seq<Step>, s: State)
    requires Legal(p)
    ensures Run(p, INIT, arrived, s, true) && s.phase == Sent(p.staging)
    ensures CanTear(p, Lost(p, s))
  {
    hide Free, Ahead;
    var got := Apply(p, INIT, Begin(Staging));
    var written := Apply(p, got, Write);
    s := Apply(p, written, Push);
    OneStep(p, written, Push, [], s, true);
    OneStep(p, got, Write, [Push] + [], s, true);
    OneStep(p, INIT, Begin(Staging), [Write] + ([Push] + []), s, true);
    arrived := [Begin(Staging)] + ([Write] + ([Push] + []));
    LostAnswerExactly(p, arrived, s);
  }

  // ---- how long the client stays clear of it ----

  // Over m further acquisitions, by paced calls of any outcome but an answered push or a believed
  // status answer, no buffer still to be read is rewritten, even if more answers are lost.
  ghost predicate Undisturbed(p: Pool, s: State, m: nat)
    requires Legal(p)
  {
    forall steps: seq<Step>, t: State
      | Run(p, s, steps, t, true) && Uninformed(steps) && Takes(steps) <= m :: !Tears(t)
  }

  // Buffers that are lost, or that a lost answer would make so.
  function Exposed(s: State, lost: set<nat>): set<nat> {
    s.reserved + lost + (AtHand(s.phase) - s.inFlight)
  }

  // Since the first loss the client has learnt nothing and has not used its staging buffer.
  predicate Unaware(p: Pool, s: State) {
    match s.phase
    case Waiting(task) => !task.Staging?
    case Polled(task, reply) => !task.Staging? && reply == s.inFlight
    case Got(task, _) => !task.Staging?
    case Written(task, _) => !task.Staging?
    case Sent(id) => id in p.ids
    case Answered(_) => false
    case _ => true
  }

  // Lost buffers are believed free, and nobody else's.
  predicate Astray(p: Pool, s: State, lost: set<nat>) {
    && Known(s.(held := s.held - lost)) && (forall r | r in lost :: r in p.ids && r !in s.queued)
    && lost !! s.inFlight && lost !! s.reserved && lost !! AtHand(s.phase)
  }

  // With n acquisitions to go, the rotation does not come to a lost buffer.
  predicate Hidden(p: Pool, s: State, lost: set<nat>, n: nat)
    requires Legal(p)
  {
    Tidy(p, s) && Unaware(p, s) && Astray(p, s, lost) && Clear(p.ids, s.cursor, s.inFlight, Exposed(s, lost), n)
  }

  lemma HiddenIsSound(p: Pool, s: State, lost: set<nat>, n: nat)
    requires Legal(p) && Hidden(p, s, lost, n)
    ensures !Tears(s)
  {
    hide Clear, Room;
  }

  // What is lost after a step.
  function LostBy(s: State, lost: set<nat>, step: Step): set<nat> {
    if step.Lose? && s.phase.Sent? then lost + {s.phase.id} else lost
  }

  lemma StaysUnaware(p: Pool, s: State, step: Step)
    requires Legal(p) && Unaware(p, s) && FromPool(p, s) && Enabled(p, s, step) && Silent(step)
    ensures Unaware(p, Apply(p, s, step))
  {
    hide PickSlot;
  }

  lemma StaysAstray(p: Pool, s: State, lost: set<nat>, step: Step)
    requires Legal(p) && Tidy(p, s) && Unaware(p, s) && Astray(p, s, lost) && Enabled(p, s, step) && Silent(step) && !step.Take?
    ensures Astray(p, Apply(p, s, step), LostBy(s, lost, step))
  {
    hide PickSlot, Room, Fresh;
  }

  lemma StaysClear(p: Pool, s: State, lost: set<nat>, n: nat, step: Step)
    requires Legal(p) && Unaware(p, s) && Owned(s) && Enabled(p, s, step) && Silent(step) && !step.Take?
    requires Clear(p.ids, s.cursor, s.inFlight, Exposed(s, lost), n)
    ensures var t := Apply(p, s, step); Clear(p.ids, t.cursor, t.inFlight, Exposed(t, LostBy(s, lost, step)), n)
  {
    hide PickSlot, Clear;
    var t := Apply(p, s, step);
    assert t.cursor == s.cursor && t.inFlight == s.inFlight;
    FewerReserved(p.ids, s.cursor, s.inFlight, Exposed(s, lost), Exposed(t, LostBy(s, lost, step)));
  }

  lemma TakeStaysHidden(p: Pool, s: State, lost: set<nat>, n: nat)
    requires Legal(p) && Hidden(p, s, lost, n + 1) && lost != {} && Enabled(p, s, Take)
    ensures Hidden(p, Apply(p, s, Take), lost, n)
  {
    TakeStaysClear(p, s, lost, n);
    StaysUnaware(p, s, Take);
    hide PickSlot, Free, Ahead, After, Distinct, Room, Fresh, Clear;
    KeepsTidy(p, s, Take);
  }

  lemma TakeStaysClear(p: Pool, s: State, lost: set<nat>, n: nat)
    requires Legal(p) && Hidden(p, s, lost, n + 1) && lost != {} && Enabled(p, s, Take)
    ensures var t := Apply(p, s, Take); t.phase.id !in lost && Clear(p.ids, t.cursor, t.inFlight, Exposed(t, lost), n)
  {
    hide PickSlot, Ahead, After, Distinct, Free, Room, Fresh, Kept;
    var t := Apply(p, s, Take);
    forall r | r in Exposed(t, lost)
      ensures n <= |Ahead(t.cursor, p.ids, r) - t.inFlight|
    {
      if r in Exposed(s, lost) {
        OldStaysClear(p, s, lost, n, r);
      } else {
        var known :| known in lost;
        OldStaysClear(p, s, lost, n, known);
        NewlyTaken(p, s.cursor, s.inFlight, known, n);
      }
    }
    forall r | r in lost ensures r != t.phase.id { OldStaysClear(p, s, lost, n, r); }
  }

  lemma OldStaysClear(p: Pool, s: State, lost: set<nat>, n: nat, r: nat)
    requires Legal(p) && Hidden(p, s, lost, n + 1) && Enabled(p, s, Take) && r in Exposed(s, lost)
    ensures var t := Apply(p, s, Take); r != t.phase.id && n <= |Ahead(t.cursor, p.ids, r) - t.inFlight|
    ensures r in p.ids && r !in s.inFlight && n < |Ahead(s.cursor, p.ids, r) - s.inFlight|
  {
    hide PickSlot, Ahead, After, Distinct, Free, Room, Fresh;
    TakeSpares(s.cursor, p.ids, s.inFlight, r, n);
  }

  // The buffer just taken is behind every other, so no nearer than one the rotation keeps clear of.
  lemma NewlyTaken(p: Pool, cursor: nat, inFlight: set<nat>, r: nat, n: nat)
    requires Legal(p) && r in p.ids && r !in inFlight && n < |Ahead(cursor, p.ids, r) - inFlight|
    ensures var slot := PickSlot(cursor, p.ids, inFlight);
      slot >= 0 && n <= |Ahead(After(slot, |p.ids|), p.ids, p.ids[slot]) - inFlight|
  {
    PickPasses(cursor, p.ids, inFlight, r);
    TakeSpares(cursor, p.ids, inFlight, r, n);
    var slot := PickSlot(cursor, p.ids, inFlight);
    AllAhead(After(slot, |p.ids|), p.ids, slot);
    hide PickSlot, Ahead, After, Distinct;
    var ahead := Ahead(After(slot, |p.ids|), p.ids, r);
    AheadIsPool(After(slot, |p.ids|), p.ids, r);
    Subset(ahead - inFlight, Members(p.ids) - {p.ids[slot]} - inFlight);
  }

  lemma AheadIsPool(cursor: nat, ids: seq<nat>, r: nat)
    requires |ids| > 0
    ensures Ahead(cursor, ids, r) <= Members(ids)
  {
    forall x | x in Ahead(cursor, ids, r) ensures x in Members(ids) {
      var k := UptoMembers(cursor, ids, r, 0, x);
    }
  }

  lemma SilentStaysHidden(p: Pool, s: State, lost: set<nat>, n: nat, step: Step)
    requires Legal(p) && Hidden(p, s, lost, n) && Enabled(p, s, step) && Paced(p, s, step) && Silent(step) && !step.Take?
    ensures Hidden(p, Apply(p, s, step), LostBy(s, lost, step), n)
  {
    StaysUnaware(p, s, step);
    StaysAstray(p, s, lost, step);
    StaysClear(p, s, lost, n, step);
    hide Tidy, Unaware, Astray, Clear, Paced, LostBy, Exposed;
    KeepsTidy(p, s, step);
  }

  function Taken(step: Step): nat { if step.Take? then 1 else 0 }

  lemma StaysHidden(p: Pool, s: State, lost: set<nat>, n: nat, step: Step)
    requires Legal(p) && Hidden(p, s, lost, n) && lost != {} && Enabled(p, s, step) && Paced(p, s, step)
    requires Silent(step) && Taken(step) <= n
    ensures Hidden(p, Apply(p, s, step), LostBy(s, lost, step), n - Taken(step))
  {
    hide Hidden, Apply, Enabled, Paced;
    if step.Take? { TakeStaysHidden(p, s, lost, n - 1); } else { SilentStaysHidden(p, s, lost, n, step); }
  }

  lemma FirstStep(p: Pool, s: State, steps: seq<Step>, t: State)
    requires Legal(p) && Run(p, s, steps, t, true) && Uninformed(steps) && steps != []
    ensures Enabled(p, s, steps[0]) && Paced(p, s, steps[0]) && Silent(steps[0]) && Uninformed(steps[1..])
    ensures Run(p, Apply(p, s, steps[0]), steps[1..], t, true) && Takes(steps) == Takes(steps[1..]) + Taken(steps[0])
  {
    assert steps[0] in steps;
    assert steps == [steps[0]] + steps[1..];
  }

  lemma Nowhere(p: Pool, s: State, t: State)
    requires Legal(p) && Run(p, s, [], t, true)
    ensures s == t && Takes([]) == 0
  {
  }

  // Uninformed, the client stays clear of what is lost for as long as the acquisitions last.
  lemma {:induction false} RunStaysHidden(p: Pool, s: State, lost: set<nat>, n: nat, steps: seq<Step>, t: State)
    returns (more: set<nat>)
    requires Legal(p) && Hidden(p, s, lost, n) && lost != {} && Run(p, s, steps, t, true)
    requires Uninformed(steps) && Takes(steps) <= n
    ensures Hidden(p, t, more, n - Takes(steps))
    decreases |steps|
  {
    hide Run, Hidden, Uninformed, Apply, Enabled, Paced, LostBy, Taken, Silent, Takes, Legal;
    if steps == [] {
      Nowhere(p, s, t);
      more := lost;
    } else {
      FirstStep(p, s, steps, t);
      StaysHidden(p, s, lost, n, steps[0]);
      LossesGrow(s, lost, steps[0]);
      more := RunStaysHidden(p, Apply(p, s, steps[0]), LostBy(s, lost, steps[0]), n - Taken(steps[0]), steps[1..], t);
    }
  }

  lemma LossesGrow(s: State, lost: set<nat>, step: Step)
    ensures lost <= LostBy(s, lost, step)
  {
  }

  // n acquisitions do not bring the rotation to the lost buffer, nor to one reserved before it.
  predicate Ample(p: Pool, s: State, n: nat)
    requires Legal(p) && s.phase.Sent?
  {
    Clear(p.ids, s.cursor, s.inFlight, s.reserved + {s.phase.id}, n)
  }

  lemma LossIsTidy(p: Pool, s: State)
    requires Legal(p) && Tidy(p, s) && s.phase.Sent?
    ensures Tidy(p, Lost(p, s))
  {
    hide Owned, Kept, Marked, Room, Fresh, FromPool, PickSlot;
    KeepsTidy(p, s, Lose);
  }

  lemma LossIsHidden(p: Pool, s: State, n: nat)
    requires Legal(p) && Inv(p, s) && s.phase.Sent? && s.phase.id in p.ids && Ample(p, s, n)
    ensures Hidden(p, Lost(p, s), {s.phase.id}, n)
  {
    hide Clear, Ahead, Free, PickSlot;
    LossIsTidy(p, s);
    assert Exposed(Lost(p, s), {s.phase.id}) == s.reserved + {s.phase.id};
  }

  // A reserved buffer can be pushed and its answer lost as well.
  lemma ReservedComesBack(p: Pool, s: State, r: nat) returns (steps: seq<Step>, t: State)
    requires Legal(p) && Tidy(p, s) && s.phase.Idle? && r in s.reserved
    ensures Run(p, s, steps, t, true) && Tears(t) && Uninformed(steps)
    ensures Takes(steps) == |Ahead(s.cursor, p.ids, r) - s.inFlight| + 1
  {
    hide Ahead, Free, Room, Fresh;
    var written := Apply(p, s, PushSlot(r));
    var sent := Apply(p, written, Push);
    var idle := Lost(p, sent);
    var rest: seq<Step>;
    rest, t := ComesBack(p, idle, r);
    OneStep(p, sent, Lose, rest, t, true);
    OneStep(p, written, Push, [Lose] + rest, t, true);
    OneStep(p, s, PushSlot(r), [Push] + ([Lose] + rest), t, true);
    steps := [PushSlot(r)] + ([Push] + ([Lose] + rest));
    TakesNone(Lose, rest);
    TakesNone(Push, [Lose] + rest);
    TakesNone(PushSlot(r), [Push] + ([Lose] + rest));
  }

  /** How long that takes, in what the client itself can see. While it is told nothing, whatever its
      calls come to and however many more answers are lost, m further acquisitions are safe if the
      rotation passes at least m free slots before it comes to the lost buffer, or to one reserved
      when the answer was lost; and only if, when the daemon still holds the buffer. */
  lemma LostAnswerBudget(p: Pool, before: seq<Step>, s: State, m: nat)
    requires Legal(p) && Run(p, INIT, before, s, true) && Lose !in before && s.phase.Sent? && s.phase.id in p.ids
    ensures var ample := forall r | r in s.reserved + {s.phase.id} :: m <= |Ahead(s.cursor, p.ids, r) - s.inFlight|;
      && (ample ==> Undisturbed(p, Lost(p, s), m))
      && (s.phase.id in s.held ==> (Undisturbed(p, Lost(p, s), m) <==> ample))
  {
    hide Run, Takes, Tears, Lost, Inv, Ahead, Uninformed;
    ReachableInv(p, before, s);
    if Ample(p, s, m) {
      forall steps: seq<Step>, t: State
        | Run(p, Lost(p, s), steps, t, true) && Uninformed(steps) && Takes(steps) <= m ensures !Tears(t)
      {
        AmpleIsSound(p, s, m, steps, t);
      }
    } else if s.phase.id in s.held {
      var r :| r in s.reserved + {s.phase.id} && m > |Ahead(s.cursor, p.ids, r) - s.inFlight|;
      OneTooMany(p, s, r);
    }
  }

  lemma AmpleIsSound(p: Pool, s: State, m: nat, steps: seq<Step>, t: State)
    requires Legal(p) && Inv(p, s) && s.phase.Sent? && s.phase.id in p.ids && Ample(p, s, m)
    requires Run(p, Lost(p, s), steps, t, true) && Uninformed(steps) && Takes(steps) <= m
    ensures !Tears(t)
  {
    hide Run, Takes, Tears, Inv, Hidden, Ample;
    LossIsHidden(p, s, m);
    var more := RunStaysHidden(p, Lost(p, s), {s.phase.id}, m, steps, t);
    HiddenIsSound(p, t, more, m - Takes(steps));
  }

  lemma OneTooMany(p: Pool, s: State, r: nat)
    requires Legal(p) && Inv(p, s) && s.phase.Sent? && s.phase.id in p.ids && s.phase.id in s.held
    requires r in s.reserved + {s.phase.id}
    ensures !Undisturbed(p, Lost(p, s), |Ahead(s.cursor, p.ids, r) - s.inFlight| + 1)
  {
    hide Run, Takes, Ahead, Free;
    var lost := Lost(p, s);
    if r in s.reserved {
      var steps, t := ReservedComesBack(p, lost, r);
    } else {
      var steps, t := ComesBack(p, lost, r);
    }
  }

  // ---- what ends the danger ----

  // The daemon's answer is on its way to the client, and names whatever the daemon still holds.
  predicate Told(p: Pool, s: State)
    requires Legal(p)
  {
    Tidy(p, s) && (match s.phase
                   case Polled(_, reply) => s.held <= reply
                   case Answered(reply) => s.held <= reply
                   case _ => false)
  }

  // It is given, and in the end taken in; the daemon may release buffers in between.
  predicate Reports(steps: seq<Step>) {
    && |steps| >= 2 && (steps[0] == Answer || steps[0] == Poll(true))
    && Arrives(steps[1..])
  }

  predicate Arrives(steps: seq<Step>) {
    steps != [] && if steps[0] == Absorb || steps[0] == Store then |steps| == 1 else Arrives(steps[1..])
  }

  lemma {:induction false} ArrivesWell(p: Pool, s: State, steps: seq<Step>, t: State)
    requires Legal(p) && Told(p, s) && Run(p, s, steps, t, true) && Arrives(steps)
    ensures Inv(p, t) && (t.phase.Idle? || t.phase.Waiting?)
    decreases |steps|
  {
    var next := Apply(p, s, steps[0]);
    ToldOnce(p, s, steps[0]);
    if steps[0].Absorb? || steps[0].Store? {
      assert steps[1..] == [];
      hide Inv, Told, Apply, Enabled, Paced;
      Nowhere(p, next, t);
    } else {
      hide Told, Apply, Enabled, Paced;
      ArrivesWell(p, next, steps[1..], t);
    }
  }

  lemma ToldOnce(p: Pool, s: State, step: Step)
    requires Legal(p) && Told(p, s) && Enabled(p, s, step) && Paced(p, s, step)
    ensures var t := Apply(p, s, step);
      if step.Absorb? || step.Store? then Inv(p, t) && (t.phase.Idle? || t.phase.Waiting?) else Told(p, t)
  {
    hide Owned, Kept, Marked, Room, Fresh, FromPool, PickSlot, Paced;
    KeepsTidy(p, s, step);
  }

  lemma NowTold(p: Pool, s: State, lost: set<nat>, n: nat, step: Step)
    requires Legal(p) && Hidden(p, s, lost, n) && Enabled(p, s, step) && (step == Answer || step == Poll(true))
    ensures Told(p, Apply(p, s, step))
  {
    hide Owned, Kept, Marked, Room, Fresh, FromPool, PickSlot, Astray, Clear, Unaware;
    KeepsTidy(p, s, step);
  }

  /** The first push that is answered, or the first status answer that reports, within that many
      acquisitions ends it: from there on nothing paced and answered ever rewrites a buffer still to
      be read, and all the daemon holds is in the in-flight set again. */
  lemma ReportEndsTheDanger(p: Pool, before: seq<Step>, s: State, steps: seq<Step>, mid: State, report: seq<Step>, t: State)
    requires Legal(p) && Run(p, INIT, before, s, true) && Lose !in before && s.phase.Sent? && s.phase.id in p.ids
    requires Run(p, Lost(p, s), steps, mid, true) && Uninformed(steps) && Ample(p, s, Takes(steps))
    requires Run(p, mid, report, t, true) && Reports(report)
    ensures !CanTear(p, t) && t.held <= t.inFlight
  {
    hide Run, Tidy, Apply, Enabled, Paced, Ample;
    ReachableInv(p, before, s);
    LossIsHidden(p, s, Takes(steps));
    var lost := RunStaysHidden(p, Lost(p, s), {s.phase.id}, Takes(steps), steps, mid);
    Informed(p, mid, lost, report, t);
    if CanTear(p, t) {
      var again, u :| Run(p, t, again, u, true) && Lose !in again && Tears(u);
      RunKeeps(p, t, again, u);
      NotTearing(p, u);
    }
  }

  lemma NotTearing(p: Pool, s: State)
    requires Legal(p) && Inv(p, s)
    ensures !Tears(s)
  {
    hide Room, Fresh;
  }

  lemma Informed(p: Pool, s: State, lost: set<nat>, report: seq<Step>, t: State)
    requires Legal(p) && Hidden(p, s, lost, 0) && Run(p, s, report, t, true) && Reports(report)
    ensures Inv(p, t) && (t.phase.Idle? || t.phase.Waiting?)
  {
    hide Hidden, Told, Apply, Enabled, Paced;
    NowTold(p, s, lost, 0, report[0]);
    ArrivesWell(p, Apply(p, s, report[0]), report[1..], t);
  }
}
