/** The bounded latest-wins queue of PipelineRunner (cpp/src/runner.cpp, FrameQueue). */
module Queue {
  // Frames carry the order in which the source gave them.
  datatype Item = Frame(id: int) | Sentinel

  predicate Full(items: seq<Item>, capacity: nat) { |items| >= capacity }

  function Popped(items: seq<Item>): seq<Item> { if items == [] then [] else items[1..] }

  class FrameQueue {
    const capacity: nat
    var items: seq<Item>

    ghost predicate Valid()
      reads this
    {
      capacity >= 1 && |items| <= capacity
    }

    constructor (capacity: nat)
      requires capacity >= 1
      ensures Valid() && this.capacity == capacity && items == []
    {
      this.capacity := capacity;
      items := [];
    }

    // false: still full once the grace period is over; the frame stays with the caller.
    method Put(frame: int) returns (ok: bool)
      requires Valid()
      modifies this
      ensures Valid() && ok == !Full(old(items), capacity)
      ensures items == if ok then old(items) + [Frame(frame)] else old(items)
    {
      ok := |items| < capacity;
      if ok {
        items := items + [Frame(frame)];
      }
    }

    method TryPutSentinel() returns (ok: bool)
      requires Valid()
      modifies this
      ensures Valid() && ok == !Full(old(items), capacity)
      ensures items == if ok then old(items) + [Sentinel] else old(items)
    {
      ok := |items| < capacity;
      if ok {
        items := items + [Sentinel];
      }
    }

    // Returns once the wait predicate of the condition variable holds.
    method Get() returns (item: Item)
      requires Valid() && items != []
      modifies this
      ensures Valid() && item == old(items)[0] && items == Popped(old(items))
    {
      item := items[0];
      items := items[1..];
    }

    method TryGet() returns (found: bool, item: Item)
      requires Valid()
      modifies this
      ensures Valid() && found == (old(items) != []) && items == Popped(old(items))
      ensures found ==> item == old(items)[0]
    {
      found, item := items != [], Sentinel;
      if found {
        item := items[0];
        items := items[1..];
      }
    }

    /** enqueue_terminal with nobody else at the queue: the sentinel ends up last, at the cost of
        at most the one oldest item. */
    method EnqueueTerminal() returns (dropped: nat)
      requires Valid()
      modifies this
      ensures Valid()
      ensures items == (if Full(old(items), capacity) then Popped(old(items)) else old(items)) + [Sentinel]
      ensures dropped == if Full(old(items), capacity) then 1 else 0
    {
      dropped := 0;
      while true
        invariant Valid() && dropped <= 1
        invariant dropped == 1 ==> Full(old(items), capacity)
        invariant items == if dropped == 1 then Popped(old(items)) else old(items)
        decreases 1 - dropped
      {
        var ok := TryPutSentinel();
        if ok {
          return;
        }
        var found, item := TryGet();
        if found {
          dropped := dropped + 1;
        }
      }
    }
  }
}
