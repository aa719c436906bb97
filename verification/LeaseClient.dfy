/** The frame publisher as an object (cpp/src/injection.cpp:140-371), proved against the functions
    the lease machine is made of. The daemon's answers are parameters of each call. */
module LeaseClient {
  import opened Wrappers
  import opened Rotation
  import opened Lease

  // An answer to the status call: without the capability flag the set means nothing.
  datatype Status = Status(reports: bool, ids: set<nat>)
  datatype Error = Closed | Exhausted | Rpc | NotReplace | BadSlot
  // slot < 0: the lease timeout passed with every buffer in flight.
  datatype Acquired = Acquired(slot: int, cursor: nat, inFlight: set<nat>)

  function Refreshed(inFlight: set<nat>, status: Status): set<nat> {
    if status.reports then status.ids else inFlight
  }

  // polls: the answers of the status calls that fit before the timeout.
  function Acquire(ids: seq<nat>, cursor: nat, inFlight: set<nat>, polls: seq<Status>): (a: Acquired)
    requires |ids| > 0
    ensures a.slot < |ids| && (a.slot >= 0 ==> ids[a.slot] !in a.inFlight && a.cursor == After(a.slot, |ids|))
    ensures a.slot < 0 ==> a.cursor == cursor
    decreases |polls|
  {
    var slot := PickSlot(cursor, ids, inFlight);
    if slot >= 0 then Acquired(slot, After(slot, |ids|), inFlight)
    else if polls == [] then Acquired(-1, cursor, inFlight)
    else Acquire(ids, cursor, Refreshed(inFlight, polls[0]), polls[1..])
  }

  // The slot a publish uses: leased, or the next one of the blind rotation.
  function Choose(lease: bool, ids: seq<nat>, cursor: nat, inFlight: set<nat>, polls: seq<Status>): (a: Acquired)
    requires cursor < |ids|
    ensures a.slot < |ids| && a.cursor < |ids|
  {
    if lease then Acquire(ids, cursor, inFlight, polls) else Acquired(cursor, After(cursor, |ids|), inFlight)
  }

  function Absorbed(lease: bool, inFlight: set<nat>, answer: Option<set<nat>>): set<nat> {
    if lease && answer.Some? then answer.value else inFlight
  }

  method PickFreeSlot(cursor: nat, ids: seq<nat>, inFlight: set<nat>) returns (slot: int)
    requires |ids| > 0
    ensures slot == PickSlot(cursor, ids, inFlight)
  {
    for off := 0 to |ids|
      invariant PickFrom(cursor, ids, inFlight, off) == PickSlot(cursor, ids, inFlight)
    {
      slot := Turn(cursor, |ids|, off);
      if ids[slot] !in inFlight { return; }
    }
    slot := -1;
  }

  // ---- streams ----

  // What building a stream leaves: the requests, or none of them when a slot never came free.
  datatype Built<T> = Built(ok: bool, requests: seq<nat>, cursor: nat, inFlight: set<nat>, buffers: map<nat, T>)

  // The last frame is built after the others; each chosen buffer is marked at once.
  function BuildStream<T>(lease: bool, ids: seq<nat>, start: Built<T>, frames: seq<T>,
          polls: seq<seq<Status>>): (b: Built<T>)
    requires start.cursor < |ids| && |polls| == |frames|
    ensures b.cursor < |ids|
    decreases |frames|
  {
    if frames == [] then start
    else
      var k := |frames| - 1;
      var before := BuildStream(lease, ids, start, frames[..k], polls[..k]);
      if !before.ok then before
      else
        var a := Choose(lease, ids, before.cursor, before.inFlight, polls[k]);
        if a.slot < 0 then before.(ok := false, cursor := a.cursor, inFlight := a.inFlight)
        else Built(true, before.requests + [ids[a.slot]], a.cursor,
                   if lease then a.inFlight + {ids[a.slot]} else a.inFlight, before.buffers[ids[a.slot] := frames[k]])
  }

  lemma BuildNothing<T>(lease: bool, ids: seq<nat>, start: Built<T>, frames: seq<T>, polls: seq<seq<Status>>)
    requires start.cursor < |ids| && |polls| == |frames|
    ensures BuildStream(lease, ids, start, frames[..0], polls[..0]) == start
  {
  }

  lemma BuildStep<T>(lease: bool, ids: seq<nat>, start: Built<T>, frames: seq<T>, polls: seq<seq<Status>>, k: nat)
    requires start.cursor < |ids| && |polls| == |frames| && k < |frames|
    ensures BuildStream(lease, ids, start, frames[..k + 1], polls[..k + 1]) ==
      var before := BuildStream(lease, ids, start, frames[..k], polls[..k]);
      if !before.ok then before
      else
        var a := Choose(lease, ids, before.cursor, before.inFlight, polls[k]);
        if a.slot < 0 then before.(ok := false, cursor := a.cursor, inFlight := a.inFlight)
        else Built(true, before.requests + [ids[a.slot]], a.cursor,
                   if lease then a.inFlight + {ids[a.slot]} else a.inFlight, before.buffers[ids[a.slot] := frames[k]])
  {
    assert frames[..k + 1][..k] == frames[..k] && polls[..k + 1][..k] == polls[..k];
  }

  lemma {:induction false} BuildStops<T>(lease: bool, ids: seq<nat>, start: Built<T>, frames: seq<T>,
          polls: seq<seq<Status>>, k: nat)
    requires start.cursor < |ids| && |polls| == |frames| && k <= |frames|
    requires !BuildStream(lease, ids, start, frames[..k], polls[..k]).ok
    ensures BuildStream(lease, ids, start, frames, polls) == BuildStream(lease, ids, start, frames[..k], polls[..k])
    decreases |frames| - k
  {
    if k == |frames| {
      assert frames[..k] == frames && polls[..k] == polls;
    } else {
      BuildStep(lease, ids, start, frames, polls, k);
      BuildStops(lease, ids, start, frames, polls, k + 1);
    }
  }

  lemma BuildAll<T>(lease: bool, ids: seq<nat>, start: Built<T>, frames: seq<T>, polls: seq<seq<Status>>)
    requires start.cursor < |ids| && |polls| == |frames|
    ensures BuildStream(lease, ids, start, frames[..|frames|], polls[..|frames|]) == BuildStream(lease, ids, start, frames, polls)
  {
    assert frames[..|frames|] == frames && polls[..|frames|] == polls;
  }

  // ---- the object ----

  class FramePublisher<T> {
    const pool: Pool
    const lease: bool
    const replace: bool
    var inFlight: set<nat>
    var cursor: nat
    var closed: bool
    var publishedAny: bool
    var eosSent: bool
    var staged: bool
    var buffers: map<nat, T>    // what was last written to each buffer

    ghost predicate Valid() reads this { Legal(pool) && cursor < |pool.ids| }

    constructor (pool: Pool, lease: bool, replace: bool)
      requires Legal(pool)
      ensures Valid() && this.pool == pool && this.lease == lease && this.replace == replace
      ensures inFlight == {} && cursor == 0 && !closed && !publishedAny && !eosSent && !staged && buffers == map[]
    {
      this.pool, this.lease, this.replace := pool, lease, replace;
      inFlight, cursor, closed, publishedAny, eosSent, staged, buffers := {}, 0, false, false, false, false, map[];
    }

    // Polls until a buffer of ids is released or the polls run out.
    method AcquireSlotIds(ids: seq<nat>, polls: seq<Status>) returns (slot: int)
      requires |ids| > 0
      modifies this`inFlight, this`cursor
      ensures Acquired(slot, cursor, inFlight) == Acquire(ids, old(cursor), old(inFlight), polls)
    {
      var k := 0;
      while true
        invariant k <= |polls|
        invariant Acquire(ids, cursor, inFlight, polls[k..]) == Acquire(ids, old(cursor), old(inFlight), polls)
        decreases |polls| - k
      {
        slot := PickFreeSlot(cursor, ids, inFlight);
        if slot >= 0 {
          cursor := After(slot, |ids|);
          return;
        }
        if k == |polls| { return -1; }
        RefreshInFlight(polls[k]);
        k := k + 1;
      }
    }

    method RefreshInFlight(status: Status)
      modifies this`inFlight
      ensures inFlight == Refreshed(old(inFlight), status)
    {
      if status.reports { inFlight := status.ids; }
    }

    method AbsorbLease(answer: set<nat>)
      modifies this`inFlight
      ensures inFlight == if lease then answer else old(inFlight)
    {
      if lease { inFlight := answer; }
    }

    method LegacySlot() returns (slot: nat)
      requires Valid()
      modifies this`cursor
      ensures Valid() && slot == old(cursor) && cursor == After(slot, |pool.ids|)
    {
      slot := cursor;
      cursor := After(slot, |pool.ids|);
    }

    // The slot of the next publish.
    method NextSlot(polls: seq<Status>) returns (slot: int)
      requires Valid()
      modifies this`inFlight, this`cursor
      ensures Valid() && Acquired(slot, cursor, inFlight) == Choose(lease, pool.ids, old(cursor), old(inFlight), polls)
    {
      if lease { slot := AcquireSlotIds(pool.ids, polls); } else { slot := LegacySlot(); }
    }

    // answer: the snapshot the push comes back with; none when the push fails.
    method PushSlotRequest(slot: nat, answer: Option<set<nat>>) returns (r: Result<nat, Error>)
      requires Valid() && slot < |pool.ids|
      modifies this`inFlight
      ensures r == if answer.Some? then Ok(pool.ids[slot]) else Err(Rpc)
      ensures inFlight == Absorbed(lease, old(inFlight), answer)
    {
      if answer.None? { return Err(Rpc); }
      AbsorbLease(answer.value);
      r := Ok(pool.ids[slot]);
    }

    method Publish(frame: T, polls: seq<Status>, answer: Option<set<nat>>) returns (r: Result<nat, Error>)
      requires Valid()
      modifies this
      ensures Valid() && closed == old(closed) && eosSent == old(eosSent) && staged == old(staged)
      ensures closed ==> r == Err(Closed) && unchanged(this)
      ensures !closed ==>
        var a := Choose(lease, pool.ids, old(cursor), old(inFlight), polls);
        && cursor == a.cursor
        && if a.slot < 0 then r == Err(Exhausted) && inFlight == a.inFlight && buffers == old(buffers) && publishedAny == old(publishedAny)
           else && r == (if answer.Some? then Ok(pool.ids[a.slot]) else Err(Rpc))
                && inFlight == Absorbed(lease, a.inFlight, answer)
                && buffers == old(buffers)[pool.ids[a.slot] := frame] && publishedAny
    {
      if closed { return Err(Closed); }
      hide Acquire, After, Legal;
      var slot := NextSlot(polls);
      if slot < 0 { return Err(Exhausted); }
      buffers := buffers[pool.ids[slot] := frame];
      publishedAny := true;
      r := PushSlotRequest(slot, answer);
    }

    method PublishRgb(frame: T, polls: seq<Status>, answer: Option<set<nat>>) returns (r: Result<nat, Error>)
      requires Valid()
      modifies this
      ensures Valid() && closed == old(closed) && eosSent == old(eosSent)
      ensures !replace ==> r == Err(NotReplace) && unchanged(this)
      ensures replace && closed ==> r == Err(Closed) && unchanged(this)
      ensures replace && !closed ==>
        var a := if old(staged) && lease then Acquire([pool.staging], old(cursor), old(inFlight), polls)
                 else Acquired(0, old(cursor), old(inFlight));
        && staged && cursor == a.cursor
        && if a.slot < 0 then r == Err(Exhausted) && inFlight == a.inFlight && buffers == old(buffers) && publishedAny == old(publishedAny)
           else && r == (if answer.Some? then Ok(pool.staging) else Err(Rpc))
                && inFlight == Absorbed(lease, a.inFlight, answer)
                && buffers == old(buffers)[pool.staging := frame] && publishedAny
    {
      hide Acquire, PickSlot, Legal;
      if !replace { return Err(NotReplace); }
      if closed { return Err(Closed); }
      if !staged {
        staged := true;
      } else if lease {
        var slot := AcquireSlotIds([pool.staging], polls);
        if slot < 0 { return Err(Exhausted); }
      }
      buffers := buffers[pool.staging := frame];
      publishedAny := true;
      if answer.None? { return Err(Rpc); }
      AbsorbLease(answer.value);
      r := Ok(pool.staging);
    }

    method AcquireSlot(polls: seq<Status>) returns (r: Result<nat, Error>)
      requires Valid()
      modifies this`inFlight, this`cursor
      ensures Valid() && (r.Ok? ==> r.value < |pool.ids|)
      ensures closed ==> r == Err(Closed) && unchanged(this)
      ensures !closed ==>
        var a := Choose(lease, pool.ids, old(cursor), old(inFlight), polls);
        cursor == a.cursor && inFlight == a.inFlight && r == if a.slot < 0 then Err(Exhausted) else Ok(a.slot)
    {
      if closed { return Err(Closed); }
      hide Acquire, After, Legal;
      var slot := NextSlot(polls);
      r := if slot < 0 then Err(Exhausted) else Ok(slot);
    }

    method PushSlot(slot: int, answer: Option<set<nat>>) returns (r: Result<nat, Error>)
      requires Valid()
      modifies this`inFlight, this`publishedAny
      ensures Valid()
      ensures closed ==> r == Err(Closed) && unchanged(this)
      ensures !closed && !(0 <= slot < |pool.ids|) ==> r == Err(BadSlot) && unchanged(this)
      ensures !closed && 0 <= slot < |pool.ids| ==>
        publishedAny && inFlight == Absorbed(lease, old(inFlight), answer) &&
        r == if answer.Some? then Ok(pool.ids[slot]) else Err(Rpc)
    {
      if closed { return Err(Closed); }
      if slot < 0 || slot >= |pool.ids| { return Err(BadSlot); }
      publishedAny := true;
      r := PushSlotRequest(slot, answer);
    }

    // accepted: whether the one streaming call, which carries the requests in order, goes through.
    method PublishStream(frames: seq<T>, polls: seq<seq<Status>>, endWithEos: bool, accepted: bool)
      returns (r: Result<seq<nat>, Error>)
      requires Valid() && |polls| == |frames|
      modifies this
      ensures Valid() && closed == old(closed) && staged == old(staged)
      ensures closed ==> r == Err(Closed) && unchanged(this)
      ensures !closed ==>
        var b := BuildStream(lease, pool.ids, Built(true, [], old(cursor), old(inFlight), old(buffers)), frames, polls);
        && cursor == b.cursor && inFlight == b.inFlight && buffers == b.buffers
        && r == (if !b.ok then Err(Exhausted) else if accepted then Ok(b.requests) else Err(Rpc))
        && publishedAny == (old(publishedAny) || (b.ok && frames != []))
        && eosSent == (old(eosSent) || (b.ok && endWithEos))
    {
      if closed { return Err(Closed); }
      hide Choose, After, Legal, BuildStream;
      var requests: seq<nat> := [];
      ghost var start := Built(true, [], cursor, inFlight, buffers);
      BuildNothing(lease, pool.ids, start, frames, polls);
      for k := 0 to |frames|
        invariant Valid() && closed == old(closed) && staged == old(staged)
        invariant publishedAny == old(publishedAny) && eosSent == old(eosSent)
        invariant BuildStream(lease, pool.ids, start, frames[..k], polls[..k]) == Built(true, requests, cursor, inFlight, buffers)
      {
        BuildStep(lease, pool.ids, start, frames, polls, k);
        var slot := NextSlot(polls[k]);
        if slot < 0 {
          BuildStops(lease, pool.ids, start, frames, polls, k + 1);
          return Err(Exhausted);
        }
        if lease { inFlight := inFlight + {pool.ids[slot]}; }
        buffers := buffers[pool.ids[slot] := frames[k]];
        requests := requests + [pool.ids[slot]];
      }
      BuildAll(lease, pool.ids, start, frames, polls);
      if frames != [] { publishedAny := true; }
      if endWithEos { eosSent := true; }
      r := if accepted then Ok(requests) else Err(Rpc);
    }

    method PublishEos(accepted: bool) returns (r: Result<(), Error>)
      modifies this`eosSent
      ensures closed ==> r == Err(Closed) && unchanged(this)
      ensures !closed ==> r == (if accepted then Ok(()) else Err(Rpc)) && eosSent == (old(eosSent) || accepted)
    {
      if closed { return Err(Closed); }
      if !accepted { return Err(Rpc); }
      eosSent := true;
      r := Ok(());
    }

    // Destruction: one end-of-stream when frames were published and none was sent.
    method Destroy(accepted: bool) returns (sent: bool)
      modifies this`eosSent, this`closed
      ensures closed && sent == (!old(closed) && publishedAny && !old(eosSent))
      ensures eosSent == (old(eosSent) || (sent && accepted))
    {
      sent := !closed && publishedAny && !eosSent;
      if sent { var r := PublishEos(accepted); }
      closed := true;
    }
  }
}
