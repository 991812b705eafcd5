/** The bounded FIFO queues of the firmware (`ConcurrentQueue::bounded`). */
module Ring {
  import opened Wire

  function Head<T>(items: seq<T>): Option<T>
  {
    if items == [] then None else Some(items[0])
  }

  /** Pushing a list of items one by one, the refused ones being lost. */
  function PushAll<T>(items: seq<T>, capacity: nat, xs: seq<T>): seq<T>
    decreases |xs|
  {
    if xs == [] then items
    else PushAll(if |items| < capacity then items + [xs[0]] else items, capacity, xs[1..])
  }

  class BoundedQueue<T> {
    const capacity: nat
    var items: seq<T>

    constructor (capacity: nat)
      ensures this.capacity == capacity && items == []
    {
      this.capacity := capacity;
      items := [];
    }

    predicate HasRoom()
      reads this
    {
      |items| < capacity
    }

    /** `push`: refused when the queue is full. */
    method Push(x: T) returns (ok: bool)
      modifies this
      ensures ok == old(HasRoom())
      ensures items == PushAll(old(items), capacity, [x])
      ensures items == if ok then old(items) + [x] else old(items)
    {
      ok := |items| < capacity;
      if ok {
        items := items + [x];
      }
    }

    /** `pop`. */
    method Pop() returns (x: Option<T>)
      modifies this
      ensures x == Head(old(items))
      ensures items == old(items)[if x.Some? then 1 else 0..]
    {
      if items == [] {
        x := None;
      } else {
        x := Some(items[0]);
        items := items[1..];
      }
    }
  }

  /** What survives is the first items that fit, in order; what is lost is the rest. */
  lemma {:induction false} PushAllKeepsFirst<T>(items: seq<T>, capacity: nat, xs: seq<T>)
    requires |items| <= capacity
    ensures PushAll(items, capacity, xs) == (items + xs)[..Min(capacity, |items| + |xs|)]
    decreases |xs|
  {
    if xs == [] {
      assert items + xs == items;
    } else if |items| < capacity {
      PushAllKeepsFirst(items + [xs[0]], capacity, xs[1..]);
      assert items + [xs[0]] + xs[1..] == items + xs;
    } else {
      PushAllKeepsFirst(items, capacity, xs[1..]);
      assert (items + xs[1..])[..capacity] == items == (items + xs)[..capacity];
    }
  }

  lemma {:induction false} PushAllConcat<T>(items: seq<T>, capacity: nat, xs: seq<T>, ys: seq<T>)
    ensures PushAll(items, capacity, xs + ys) == PushAll(PushAll(items, capacity, xs), capacity, ys)
    decreases |xs|
  {
    if xs == [] {
      assert xs + ys == ys;
    } else {
      PushAllConcat(if |items| < capacity then items + [xs[0]] else items, capacity, xs[1..], ys);
      assert (xs + ys)[1..] == xs[1..] + ys;
    }
  }
}
