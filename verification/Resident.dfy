/** The process-resident DSP client (python/neoruntime_ipc_sdk/accel.py, mirrored in
    cpp/src/accel.cpp): threads inside shared_dsp_call, one resident client, retired ones, and
    their deferred close. One step is one lock region or one unlocked action. */
module Resident {
  import opened Wrappers

  // Where a drain returns to: the failing call still has to leave, a leaving call is over.
  datatype Next = ThenLeave(client: nat, tracked: bool) | ThenEnd

  // tracked: the client was still the resident, or retired and not yet drained, when the call was
  // counted. The source keeps no such flag.
  datatype Phase =
    | Fetched(client: nat)                     // has the client, not counted yet
    | InCall(client: nat, tracked: bool)
    | Failed(client: nat, tracked: bool)       // the call raised; about to drop the client
    | Leaving(client: nat, tracked: bool)      // about to uncount itself
    | Draining(next: Next)                     // about to look at the retired clients
    | Closing(clients: set<nat>, next: Next)   // closing them, outside the lock

  datatype Pool = Pool(client: nat, tracked: bool)

  datatype State = State(
    shared: Option<nat>, retired: set<nat>, active: int,
    threads: map<nat, Phase>, pools: map<nat, Pool>,
    next: nat,                     // clients are numbered as they are constructed
    closes: map<nat, nat>,         // how often each client was closed
    everRetired: set<nat>, everFailed: set<nat>)

  const INIT := State(None, {}, 0, map[], map[], 0, map[], {}, {})

  datatype Step =
    | Fetch(t: nat) | Count(t: nat) | MakePool(t: nat, p: nat) | Succeed(t: nat) | Fail(t: nat)
    | Drop(t: nat) | Leave(t: nat) | Drain(t: nat) | Close(t: nat, c: nat)
    | ReleasePool(p: nat) | Collect(c: nat)

  predicate HasPools(s: State, c: nat) { exists p | p in s.pools :: s.pools[p].client == c }

  predicate Uses(ph: Phase, c: nat) {
    match ph
    case Fetched(d) => d == c
    case InCall(d, _) => d == c
    case Failed(d, _) => d == c
    case Leaving(d, _) => d == c
    case Draining(next) => next.ThenLeave? && next.client == c
    case Closing(clients, next) => c in clients || (next.ThenLeave? && next.client == c)
  }

  predicate Enabled(s: State, step: Step) {
    match step
    case Fetch(t) => t !in s.threads
    case Count(t) => t in s.threads && s.threads[t].Fetched?
    case MakePool(t, p) => t in s.threads && s.threads[t].InCall? && p !in s.pools
    case Succeed(t) => t in s.threads && s.threads[t].InCall?
    case Fail(t) => t in s.threads && s.threads[t].InCall?
    case Drop(t) => t in s.threads && s.threads[t].Failed?
    case Leave(t) => t in s.threads && s.threads[t].Leaving?
    case Drain(t) => t in s.threads && s.threads[t].Draining?
    case Close(t, c) => t in s.threads && s.threads[t].Closing? && c in s.threads[t].clients
    case ReleasePool(p) => p in s.pools
    // the retired set holds its clients weakly: one that nothing references disappears unclosed
    case Collect(c) => c in s.retired && !HasPools(s, c) && forall t | t in s.threads :: !Uses(s.threads[t], c)
  }

  // What drain_retired takes out of the retired clients.
  function Idle(s: State): set<nat> {
    if s.active != 0 then {} else set c | c in s.retired && !HasPools(s, c)
  }

  // The client is the resident or a retired one still waiting for its drain.
  predicate InPlace(s: State, c: nat) { s.shared == Some(c) || c in s.retired }

  function Resume(threads: map<nat, Phase>, t: nat, next: Next): map<nat, Phase> {
    if next.ThenLeave? then threads[t := Leaving(next.client, next.tracked)] else threads - {t}
  }

  function Closes(s: State, c: nat): nat { if c in s.closes then s.closes[c] else 0 }

  function Apply(s: State, step: Step): State
    requires Enabled(s, step)
  {
    match step
    case Fetch(t) =>
      if s.shared.Some? then s.(threads := s.threads[t := Fetched(s.shared.value)])
      else s.(shared := Some(s.next), next := s.next + 1, threads := s.threads[t := Fetched(s.next)])
    case Count(t) =>
      var c := s.threads[t].client;
      s.(active := s.active + 1, threads := s.threads[t := InCall(c, InPlace(s, c))])
    case MakePool(t, p) => s.(pools := s.pools[p := Pool(s.threads[t].client, s.threads[t].tracked)])
    case Succeed(t) => s.(threads := s.threads[t := Leaving(s.threads[t].client, s.threads[t].tracked)])
    case Fail(t) =>
      s.(threads := s.threads[t := Failed(s.threads[t].client, s.threads[t].tracked)], everFailed := s.everFailed + {s.threads[t].client})
    case Drop(t) =>
      var c, tracked := s.threads[t].client, s.threads[t].tracked;
      if s.shared != Some(c) then s.(threads := s.threads[t := Leaving(c, tracked)])
      else s.(shared := None, retired := s.retired + {c}, everRetired := s.everRetired + {c},
              threads := s.threads[t := Draining(ThenLeave(c, tracked))])
    case Leave(t) => s.(active := s.active - 1, threads := s.threads[t := Draining(ThenEnd)])
    case Drain(t) =>
      var done := Idle(s);
      if done == {} then s.(threads := Resume(s.threads, t, s.threads[t].next))
      else s.(retired := s.retired - done, threads := s.threads[t := Closing(done, s.threads[t].next)])
    case Close(t, c) =>
      var left := s.threads[t].clients - {c};
      s.(closes := s.closes[c := Closes(s, c) + 1],
         threads := if left == {} then Resume(s.threads, t, s.threads[t].next) else s.threads[t := Closing(left, s.threads[t].next)])
    case ReleasePool(p) => s.(pools := s.pools - {p})
    case Collect(c) => s.(retired := s.retired - {c})
  }

  function Follow(s: State, steps: seq<Step>): Option<State>
    decreases |steps|
  {
    if steps == [] then Some(s)
    else if Enabled(s, steps[0]) then Follow(Apply(s, steps[0]), steps[1..])
    else None
  }

  ghost predicate Reachable(s: State) {
    exists steps :: Follow(INIT, steps) == Some(s)
  }

  // ---- invariants ----

  // The call of this phase is in the counter.
  predicate Counted(ph: Phase) {
    match ph
    case Fetched(_) => false
    case InCall(_, _) => true
    case Failed(_, _) => true
    case Leaving(_, _) => true
    case Draining(next) => next.ThenLeave?
    case Closing(_, next) => next.ThenLeave?
  }

  function CountedThreads(s: State): set<nat> {
    set t | t in s.threads && Counted(s.threads[t])
  }

  predicate CounterExact(s: State) { s.active == |CountedThreads(s)| }

  // A counted call on c, with its flag.
  predicate OnCall(ph: Phase, c: nat, tracked: bool) {
    match ph
    case Fetched(_) => false
    case InCall(d, tr) => d == c && tr == tracked
    case Failed(d, tr) => d == c && tr == tracked
    case Leaving(d, tr) => d == c && tr == tracked
    case Draining(next) => next == ThenLeave(c, tracked)
    case Closing(_, next) => next == ThenLeave(c, tracked)
  }

  predicate ClosingNow(s: State, t: nat, c: nat) {
    t in s.threads && s.threads[t].Closing? && c in s.threads[t].clients
  }

  predicate BeingClosed(s: State, c: nat) {
    exists t | t in s.threads :: ClosingNow(s, t, c)
  }

  // Closed, or taken out of the retired set to be closed.
  predicate Gone(s: State, c: nat) { Closes(s, c) > 0 || BeingClosed(s, c) }

  predicate Known(s: State) {
    && (forall c | c in s.everRetired :: c < s.next)
    && (s.shared.Some? ==> s.shared.value < s.next && s.shared.value !in s.everRetired)
    && s.retired <= s.everRetired
    && s.everRetired <= s.everFailed
    && (forall t | t in s.threads && s.threads[t].Failed? :: s.threads[t].client in s.everFailed)
  }

  // A gone client was retired and is never drained again.
  ghost predicate GoneForGood(s: State) {
    forall c | Gone(s, c) :: c in s.everRetired && c !in s.retired
  }

  ghost predicate ClosedOnce(s: State) {
    && (forall c :: Closes(s, c) <= 1)
    && (forall t, c | ClosingNow(s, t, c) :: Closes(s, c) == 0)
    && (forall t, u, c | ClosingNow(s, t, c) && ClosingNow(s, u, c) :: t == u)
  }

  // A client a thread is about to be counted on is somewhere.
  ghost predicate Placed(s: State) {
    forall t | t in s.threads && s.threads[t].Fetched? :: InPlace(s, s.threads[t].client) || Gone(s, s.threads[t].client)
  }

  // The flag says exactly whether the client is gone.
  ghost predicate Protected(s: State) {
    && (forall t, c, tracked | t in s.threads && OnCall(s.threads[t], c, tracked) :: tracked <==> !Gone(s, c))
    && (forall p | p in s.pools :: s.pools[p].tracked <==> !Gone(s, s.pools[p].client))
  }

  ghost predicate Inv(s: State) {
    CounterExact(s) && Known(s) && GoneForGood(s) && ClosedOnce(s) && Placed(s) && Protected(s)
  }
}
