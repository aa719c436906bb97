/** The write lease of the frame publisher (cpp/src/injection.cpp:152-371): a client that remembers
    which buffers the daemon may still read, against a daemon that queues, bakes and releases them
    on its own. One step is one client action, one daemon action, or one half of an exchange. */
module Lease {
  import opened Wrappers
  import opened Sequences
  import opened Rotation

  // ---- the machine ----

  datatype Task = Publish | Staging | Slot | Stream(left: nat)

  datatype Phase =
    | Idle
    | Waiting(task: Task)                     // at the head of the polling loop
    | Polled(task: Task, reply: set<nat>)     // the daemon answered the status call
    | Got(task: Task, id: nat)                // about to write the buffer
    | Written(task: Task, id: nat)
    | Sent(id: nat)                           // the push has arrived; the daemon has not answered
    | Answered(reply: set<nat>)
    | Sending                                 // the stream call is feeding its requests

  // staged: publish_rgb has its staging buffer. queued: stream requests built, not yet sent.
  // reserved: buffers acquire_slot handed out, not yet pushed; a device may write them at any time.
  datatype State = State(inFlight: set<nat>, cursor: nat, staged: bool, phase: Phase, queued: seq<nat>,
                         reserved: set<nat>, held: set<nat>)

  datatype Pool = Pool(ids: seq<nat>, staging: nat)

  predicate Legal(p: Pool) {
    |p.ids| > 0 && p.staging !in p.ids && Distinct(p.ids)
  }

  const INIT := State({}, 0, false, Idle, [], {}, {})

  datatype Step =
    | Begin(task: Task)
    | Take                      // a free slot is picked
    | Poll(reports: bool)       // the status call; an answer without the capability flag is ignored
    | Store | GiveUp            // GiveUp: the lease timeout
    | Hand                      // acquire_slot returns
    | PushSlot(id: nat) | Abandon(id: nat)  // a reserved buffer is pushed, or given up
    | Write | Build             // Build: the written frame joins the stream's requests
    | Push | Answer | Absorb
    | Lose                      // the answer never comes: the client takes the push for a failed one
    | Fail                      // the call ends early with nothing of it queued: a bad frame, a failed
                                // write or conversion, a rejected push
    | Feed | EndStream          // one stream request arrives; the stream call returns or fails
    | Release(id: nat)          // the daemon is done with a buffer

  function Ids(p: Pool, task: Task): seq<nat> { if task.Staging? then [p.staging] else p.ids }

  predicate Enabled(p: Pool, s: State, step: Step)
    requires Legal(p)
  {
    match step
    case Begin(task) => s.phase.Idle?
    case Take => s.phase.Waiting? && s.phase.task != Stream(0) && PickSlot(s.cursor, Ids(p, s.phase.task), s.inFlight) >= 0
    case Poll(_) => s.phase.Waiting? && s.phase.task != Stream(0) && PickSlot(s.cursor, Ids(p, s.phase.task), s.inFlight) < 0
    case Store => s.phase.Polled?
    case GiveUp => s.phase.Waiting? && s.phase.task != Stream(0) && PickSlot(s.cursor, Ids(p, s.phase.task), s.inFlight) < 0
    case Hand => s.phase.Got? && s.phase.task.Slot?
    case PushSlot(id) => s.phase.Idle? && id in s.reserved
    case Abandon(id) => id in s.reserved
    case Write => s.phase.Got? && !s.phase.task.Slot?
    case Build => s.phase.Written? && s.phase.task.Stream?
    case Push => s.phase.Written? && !s.phase.task.Stream?
    case Fail => s.phase.Waiting? || s.phase.Got? || s.phase.Written?
    case Answer => s.phase.Sent?
    case Lose => s.phase.Sent?
    case Absorb => s.phase.Answered?
    case Feed => s.phase.Sending? && s.queued != []
    case EndStream => s.phase.Sending?
    case Release(id) => id in s.held
  }

  function Apply(p: Pool, s: State, step: Step): State
    requires Legal(p) && Enabled(p, s, step)
  {
    match step
    case Begin(task) =>
      // the first publish_rgb call allocates its staging buffer and does not wait for it
      if task.Staging? && !s.staged then s.(staged := true, phase := Got(task, p.staging))
      else if task == Stream(0) then s.(phase := Sending)
      else s.(phase := Waiting(task))
    case Take =>
      var task, ids := s.phase.task, Ids(p, s.phase.task);
      var slot := PickSlot(s.cursor, ids, s.inFlight);
      s.(cursor := After(slot, |ids|), phase := Got(task, ids[slot]),
         inFlight := if task.Stream? then s.inFlight + {ids[slot]} else s.inFlight)
    case Poll(reports) => s.(phase := Polled(s.phase.task, if reports then s.held else s.inFlight))
    case Store => s.(phase := Waiting(s.phase.task), inFlight := s.phase.reply)
    case GiveUp => s.(phase := Idle, queued := [])
    case Hand => s.(phase := Idle, reserved := s.reserved + {s.phase.id})
    case PushSlot(id) => s.(phase := Written(Slot, id), reserved := s.reserved - {id})
    case Abandon(id) => s.(reserved := s.reserved - {id})
    case Write => s.(phase := Written(s.phase.task, s.phase.id))
    case Build =>
      var left := s.phase.task.left - 1;
      s.(queued := s.queued + [s.phase.id], phase := if left <= 0 then Sending else Waiting(Stream(left)))
    case Push => s.(held := s.held + {s.phase.id}, phase := Sent(s.phase.id))
    case Fail => s.(phase := Idle, queued := [])
    case Answer => s.(phase := Answered(s.held))
    case Absorb => s.(phase := Idle, inFlight := s.phase.reply)
    case Lose => s.(phase := Idle)
    case Feed => s.(held := s.held + {s.queued[0]}, queued := s.queued[1..])
    case EndStream => s.(phase := Idle, queued := [])
    case Release(id) => s.(held := s.held - {id})
  }

  // Slots of the pool a call takes, one after another.
  function Need(task: Task): nat {
    match task
    case Staging => 0
    case Stream(left) => left
    case _ => 1
  }

  // n slots can be taken before the rotation comes to a reserved one.
  predicate Spare(p: Pool, s: State, n: nat)
    requires Legal(p)
  {
    Clear(p.ids, s.cursor, s.inFlight, s.reserved, n)
  }

  predicate Clear(ids: seq<nat>, cursor: nat, inFlight: set<nat>, reserved: set<nat>, n: nat)
    requires |ids| > 0
  {
    forall r | r in reserved :: n <= |Ahead(cursor, ids, r) - inFlight|
  }

  // A stream is paced when it builds no more frames than there are free slots; one frame always is.
  // With buffers reserved, a call is paced when the rotation does not come to them.
  predicate Paced(p: Pool, s: State, step: Step)
    requires Legal(p)
  {
    step.Begin? ==>
      && Spare(p, s, Need(step.task))
      && (step.task.Stream? ==> step.task.left <= 1 || step.task.left <= Free(p.ids, s.inFlight))
  }

  function Follow(p: Pool, s: State, steps: seq<Step>, paced: bool): Option<State>
    requires Legal(p)
    decreases |steps|
  {
    if steps == [] then Some(s)
    else if Enabled(p, s, steps[0]) && (paced ==> Paced(p, s, steps[0])) then Follow(p, Apply(p, s, steps[0]), steps[1..], paced)
    else None
  }

  // A run, with every call paced or with calls of any kind.
  predicate Run(p: Pool, s: State, steps: seq<Step>, t: State, paced: bool)
    requires Legal(p)
  {
    Follow(p, s, steps, paced) == Some(t)
  }

  predicate Busy(s: State, id: nat) { id in s.held || id in s.queued }

  // The pixels about to be rewritten are those of a buffer the daemon may still read, of a frame
  // already built into a stream and still to be sent, or of a reserved buffer; or a reserved
  // buffer, which a device may be writing, is one of those.
  predicate Tears(s: State) {
    (s.phase.Got? && (Busy(s, s.phase.id) || s.phase.id in s.reserved)) || exists r | r in s.reserved :: Busy(s, r)
  }

  // ---- the invariant ----

  predicate Known(s: State) {
    match s.phase
    case Polled(_, reply) => s.held <= s.inFlight && s.held <= reply
    case Sent(id) => s.held <= s.inFlight + {id}
    case Answered(reply) => s.held <= reply
    case _ => s.held <= s.inFlight
  }

  // The buffer in the client's hand is nobody else's; a stream's is marked as it is taken.
  predicate Owned(s: State) {
    match s.phase
    case Got(task, id) => !Busy(s, id) && (task.Stream? <==> id in s.inFlight)
    case Written(task, id) => !Busy(s, id) && (task.Stream? <==> id in s.inFlight)
    case Sent(id) => id !in s.inFlight
    case _ => true
  }

  // Reserved buffers are nobody else's.
  predicate Kept(p: Pool, s: State) {
    && (forall r | r in s.reserved :: r in p.ids && r !in s.inFlight && !Busy(s, r))
    && (s.phase.Polled? || s.phase.Answered? ==> s.reserved !! s.phase.reply)
    && (s.phase.Got? || s.phase.Written? || s.phase.Sent? ==> s.phase.id !in s.reserved)
  }

  // Stream requests exist only while a stream is under way, and each is marked.
  predicate Marked(s: State) {
    (forall id | id in s.queued :: id in s.inFlight) &&
    (s.queued != [] ==> s.phase.Sending? || (s.phase.Waiting? && s.phase.task.Stream?) ||
                        ((s.phase.Got? || s.phase.Written?) && s.phase.task.Stream?))
  }

  // A stream with frames built never has to wait, and the rotation stays clear of what is reserved.
  predicate Room(p: Pool, s: State)
    requires Legal(p)
  {
    match s.phase
    case Waiting(task) => Spare(p, s, Need(task)) && (task.Stream? ==> task.left > 0 && StreamRoom(p, s, task.left))
    case Polled(task, _) =>
      (!task.Staging? ==> s.reserved == {}) && (task.Stream? ==> s.queued == [] && task.left == 1)
    case Got(Stream(left), _) => left > 0 && left - 1 <= Free(p.ids, s.inFlight) && Spare(p, s, left - 1)
    case Written(Stream(left), _) => left > 0 && left - 1 <= Free(p.ids, s.inFlight) && Spare(p, s, left - 1)
    case _ => true
  }

  predicate StreamRoom(p: Pool, s: State, left: nat) { left <= Free(p.ids, s.inFlight) || (s.queued == [] && left == 1) }

  // The staging buffer is unknown to everyone until it is allocated.
  predicate Fresh(p: Pool, s: State) {
    !s.staged ==> && p.staging !in s.held && p.staging !in s.queued && p.staging !in s.inFlight
                  && (s.phase.Polled? || s.phase.Answered? ==> p.staging !in s.phase.reply)
  }

  // The client only ever handles the publisher's own buffers.
  predicate FromPool(p: Pool, s: State) {
    match s.phase
    case Got(task, id) => id in Ids(p, task) && (task.Staging? ==> s.staged)
    case Written(task, id) => id in Ids(p, task) && (task.Staging? ==> s.staged)
    case Sent(id) => id in p.ids || (id == p.staging && s.staged)
    case Waiting(task) => task.Staging? ==> s.staged
    case Polled(task, _) => task.Staging? ==> s.staged
    case _ => true
  }

  // All but what the client knows of the daemon.
  predicate Tidy(p: Pool, s: State)
    requires Legal(p)
  {
    Owned(s) && Kept(p, s) && Marked(s) && Room(p, s) && Fresh(p, s) && FromPool(p, s)
  }

  predicate Inv(p: Pool, s: State)
    requires Legal(p)
  {
    Known(s) && Tidy(p, s)
  }

  lemma PickNeedsFree(p: Pool, cursor: nat, inFlight: set<nat>)
    requires Legal(p)
    ensures PickSlot(cursor, p.ids, inFlight) >= 0 <==> Free(p.ids, inFlight) > 0
  {
    PickExactly(cursor, p.ids, inFlight);
    FreeZero(p.ids, inFlight);
  }
}
