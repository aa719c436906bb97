/** Which buffers a row of publishes and a stream go through (cpp/src/injection.cpp:181-221, 353-357). */
module LeaseStreams {
  import opened Wrappers
  import opened Sequences
  import opened Rotation
  import opened Lease
  import opened LeaseClient

  // ---- without the lease: the blind rotation ----

  // The cursor after k publishes.
  function Blind(ids: seq<nat>, cursor: nat, k: nat): (c: nat)
    requires cursor < |ids|
    ensures c < |ids|
  {
    if k == 0 then cursor else Choose(false, ids, Blind(ids, cursor, k - 1), {}, []).cursor
  }

  /** Publish k of a row takes the slot k places on, whatever is in flight. */
  lemma {:induction false} BlindTurns(ids: seq<nat>, cursor: nat, k: nat, inFlight: set<nat>, polls: seq<Status>)
    requires cursor < |ids|
    ensures Choose(false, ids, Blind(ids, cursor, k), inFlight, polls).slot == (cursor + k) % |ids|
    ensures Choose(false, ids, Blind(ids, cursor, k), inFlight, polls).inFlight == inFlight
  {
    if k > 0 {
      BlindTurns(ids, cursor, k - 1, {}, []);
      ModSum(cursor + k - 1, |ids|, 1);
    } else {
      assert Mod(cursor, |ids|) == cursor by { ModSum(cursor, |ids|, 0); }
    }
  }

  /** As many publishes in a row as there are buffers use every buffer, each once. */
  lemma BlindUsesAll(ids: seq<nat>, cursor: nat, i: nat)
    requires cursor < |ids| && i < |ids|
    ensures exists k: nat :: k < |ids| && Choose(false, ids, Blind(ids, cursor, k), {}, []).slot == i
    ensures forall j: nat, k: nat | j < k < |ids| ::
      Choose(false, ids, Blind(ids, cursor, j), {}, []).slot != Choose(false, ids, Blind(ids, cursor, k), {}, []).slot
  {
    hide Blind, Choose;
    forall k: nat | k < |ids| ensures Choose(false, ids, Blind(ids, cursor, k), {}, []).slot == Turn(cursor, |ids|, k) {
      BlindTurns(ids, cursor, k, {}, []);
    }
    var k := TurnReaches(cursor, |ids|, i);
    hide Turn;
    forall j: nat, k: nat | j < k < |ids| ensures Turn(cursor, |ids|, j) != Turn(cursor, |ids|, k) {
      TurnDiffers(cursor, |ids|, j, k);
    }
  }

  /** Only a leasing client takes the daemon's answer for its in-flight set, and only when there is one. */
  lemma AbsorbedExactly(inFlight: set<nat>, answer: Option<set<nat>>)
    ensures Absorbed(false, inFlight, answer) == inFlight == Absorbed(true, inFlight, None)
    ensures answer.Some? ==> Absorbed(true, inFlight, answer) == answer.value
  {
  }

  // ---- streams ----

  function Fresh<T>(cursor: nat, inFlight: set<nat>, buffers: map<nat, T>): Built<T> {
    Built(true, [], cursor, inFlight, buffers)
  }

  // The buffer of each request holds its own frame.
  predicate Carries<T(==)>(requests: seq<nat>, buffers: map<nat, T>, frames: seq<T>) {
    |requests| == |frames| && forall k | 0 <= k < |frames| :: requests[k] in buffers && buffers[requests[k]] == frames[k]
  }

  lemma CarriesMore<T>(requests: seq<nat>, buffers: map<nat, T>, frames: seq<T>, id: nat, frame: T)
    requires Distinct(requests + [id]) && (Distinct(requests) ==> Carries(requests, buffers, frames)) && |requests| == |frames|
    ensures Carries(requests + [id], buffers[id := frame], frames + [frame])
  {
    var all := requests + [id];
    assert Distinct(requests) by { forall i, j | 0 <= i < j < |requests| ensures requests[i] != requests[j] { assert all[i] != all[j]; } }
    forall k | 0 <= k < |requests| ensures requests[k] != id { assert all[k] != all[|requests|]; }
  }

  /** Request k of a stream that was built carries frame k: there are as many requests as frames, and if no
      buffer is used twice, the buffer of each still holds its own frame when the stream is sent. */
  lemma {:induction false} StreamCarriesFrames<T>(lease: bool, ids: seq<nat>, cursor: nat, inFlight: set<nat>,
          buffers: map<nat, T>, frames: seq<T>, polls: seq<seq<Status>>)
    requires cursor < |ids| && |polls| == |frames|
    ensures var b := BuildStream(lease, ids, Fresh(cursor, inFlight, buffers), frames, polls);
      b.ok ==> |b.requests| == |frames| && (Distinct(b.requests) ==> Carries(b.requests, b.buffers, frames))
    decreases |frames|
  {
    if frames != [] {
      var n := |frames| - 1;
      hide Choose, Distinct, Carries;
      StreamCarriesFrames(lease, ids, cursor, inFlight, buffers, frames[..n], polls[..n]);
      var before := BuildStream(lease, ids, Fresh(cursor, inFlight, buffers), frames[..n], polls[..n]);
      var b := BuildStream(lease, ids, Fresh(cursor, inFlight, buffers), frames, polls);
      if b.ok && Distinct(b.requests) {
        CarriesMore(before.requests, before.buffers, frames[..n], b.requests[n], frames[n]);
        assert frames[..n] + [frames[n]] == frames;
      }
    }
  }

  /** With no more frames than free buffers a leased stream is built at once, from buffers that were free,
      no buffer used twice. */
  lemma {:induction false} StreamTakesFree<T>(ids: seq<nat>, cursor: nat, inFlight: set<nat>, buffers: map<nat, T>,
          frames: seq<T>, polls: seq<seq<Status>>)
    requires cursor < |ids| && |polls| == |frames| && Distinct(ids) && |frames| <= Free(ids, inFlight)
    ensures var b := BuildStream(true, ids, Fresh(cursor, inFlight, buffers), frames, polls);
      && b.ok && Distinct(b.requests) && (forall id | id in b.requests :: id in ids && id !in inFlight)
      && b.inFlight == inFlight + (set id | id in b.requests)
      && Free(ids, b.inFlight) == Free(ids, inFlight) - |frames|
    decreases |frames|
  {
    var start := Fresh(cursor, inFlight, buffers);
    if frames == [] {
      assert inFlight + (set id | id in start.requests) == inFlight;
    } else {
      var n := |frames| - 1;
      StreamTakesFree(ids, cursor, inFlight, buffers, frames[..n], polls[..n]);
      var before := BuildStream(true, ids, start, frames[..n], polls[..n]);
      TakesOne(ids, before.cursor, before.inFlight, polls[n]);
      hide PickSlot, Free, Acquire, After, Distinct;
      var id := ids[PickSlot(before.cursor, ids, before.inFlight)];
      FreeMarked(ids, before.inFlight, id);
      var b := BuildStream(true, ids, start, frames, polls);
      assert b.requests == before.requests + [id] && b.inFlight == before.inFlight + {id};
      OneMoreRequest(before.requests, id, inFlight, before.inFlight);
    }
  }

  lemma OneMoreRequest(requests: seq<nat>, id: nat, inFlight: set<nat>, marked: set<nat>)
    requires Distinct(requests) && marked == inFlight + (set r | r in requests) && id !in marked
    ensures Distinct(requests + [id]) && marked + {id} == inFlight + (set r | r in requests + [id])
  {
    assert (set r | r in requests + [id]) == (set r | r in requests) + {id};
    forall i | 0 <= i < |requests| ensures requests[i] != id { assert requests[i] in (set r | r in requests); }
  }

  lemma TakesOne(ids: seq<nat>, cursor: nat, inFlight: set<nat>, polls: seq<Status>)
    requires |ids| > 0 && Free(ids, inFlight) > 0
    ensures PickSlot(cursor, ids, inFlight) >= 0
    ensures Acquire(ids, cursor, inFlight, polls) ==
      Acquired(PickSlot(cursor, ids, inFlight), After(PickSlot(cursor, ids, inFlight), |ids|), inFlight)
  {
    PickExactly(cursor, ids, inFlight);
    FreeZero(ids, inFlight);
  }
}
