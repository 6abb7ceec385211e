/** Queues of items and of operations waiting for them, and a value that is waited for once. */
module AsyncQueues {
  import opened Basics

  /** An operation that has been given its item. */
  datatype Delivery<+T> = Delivery(waiter: nat, item: T)

  /** `n` copies of an item. */
  function Copies<T>(n: nat, item: T): seq<T> {
    seq(n, _ => item)
  }

  class AsyncQueue<T(==)> {
    var queue: seq<T>
    var waiters: seq<nat>
    /** The completed dequeues, in the order of completion. */
    var deliveries: seq<Delivery<T>>
    /** All dequeues started so far. */
    ghost var requests: seq<nat>
    /** All items enqueued so far, an item for all waiters once for each of them. */
    ghost var supply: seq<T>

    /**
     Items and waiters never wait at the same time; the i-th dequeue started gets the i-th item
     supplied, and whatever has not been matched yet waits in order.
     */
    ghost predicate Valid()
      reads this
    {
      var n := |deliveries|;
      && n == Min(|requests|, |supply|)
      && waiters == requests[n..] && queue == supply[n..]
      && (queue == [] || waiters == [])
      && forall i | 0 <= i < n :: deliveries[i] == Delivery(requests[i], supply[i])
    }

    constructor ()
      ensures Valid() && fresh(this) && requests == [] && supply == []
    {
      queue, waiters, deliveries := [], [], [];
      requests, supply := [], [];
    }

    method Enque(item: T)
      requires Valid()
      modifies this
      ensures Valid() && requests == old(requests) && supply == old(supply) + [item]
      ensures old(deliveries) <= deliveries
    {
      supply := supply + [item];
      if waiters == [] {
        queue := queue + [item];
      } else {
        deliveries := deliveries + [Delivery(waiters[0], item)];
        waiters := waiters[1..];
      }
    }

    /** Gives one item to every waiter; without waiters it is queued like any other. */
    method EnqueAll(item: T)
      requires Valid()
      modifies this
      ensures Valid() && requests == old(requests) && waiters == [] && old(deliveries) <= deliveries
      ensures supply == old(supply) + Copies(if old(waiters) == [] then 1 else |old(waiters)|, item)
    {
      if waiters == [] {
        queue := queue + [item];
        supply := supply + [item];
        assert Copies(1, item) == [item];
      } else {
        ghost var k := 0;
        while waiters != []
          invariant Valid() && requests == old(requests) && old(deliveries) <= deliveries
          invariant k + |waiters| == |old(waiters)|
          invariant supply == old(supply) + Copies(k, item) && queue == []
          decreases |waiters|
        {
          deliveries := deliveries + [Delivery(waiters[0], item)];
          waiters := waiters[1..];
          supply := supply + [item];
          assert Copies(k, item) + [item] == Copies(k + 1, item);
          k := k + 1;
        }
      }
    }

    /** Starts a dequeue operation. */
    method Start(id: nat)
      requires Valid()
      modifies this
      ensures Valid() && requests == old(requests) + [id] && supply == old(supply)
      ensures old(deliveries) <= deliveries
    {
      requests := requests + [id];
      if queue == [] {
        waiters := waiters + [id];
      } else {
        deliveries := deliveries + [Delivery(id, queue[0])];
        queue := queue[1..];
      }
    }
  }

  class AsyncOptional<T(==)> {
    var opt: Option<T>
    var waiters: seq<nat>
    var deliveries: seq<Delivery<T>>
    ghost var requests: seq<nat>

    /** Until there is a value everyone waits; once there is one nobody does. */
    ghost predicate Valid()
      reads this
    {
      && |deliveries| <= |requests| && waiters == requests[|deliveries|..]
      && (forall i | 0 <= i < |deliveries| :: deliveries[i].waiter == requests[i])
      && (if opt.None? then deliveries == [] else waiters == [])
    }

    constructor ()
      ensures Valid() && fresh(this) && opt == None && requests == []
    {
      opt, waiters, deliveries, requests := None, [], [], [];
    }

    method Emplace(value: T)
      requires Valid()
      modifies this
      ensures Valid() && opt == Some(value) && requests == old(requests)
      ensures |deliveries| == |requests| && deliveries[..|old(deliveries)|] == old(deliveries)
      ensures forall i | |old(deliveries)| <= i < |deliveries| :: deliveries[i].item == value
    {
      opt := Some(value);
      while waiters != []
        invariant opt == Some(value) && requests == old(requests)
        invariant |old(deliveries)| <= |deliveries| <= |requests| && waiters == requests[|deliveries|..]
        invariant forall i | 0 <= i < |deliveries| :: deliveries[i].waiter == requests[i]
        invariant deliveries[..|old(deliveries)|] == old(deliveries)
        invariant forall i | |old(deliveries)| <= i < |deliveries| :: deliveries[i].item == value
        decreases |waiters|
      {
        deliveries := deliveries + [Delivery(waiters[0], value)];
        waiters := waiters[1..];
      }
    }

    method Start(id: nat)
      requires Valid()
      modifies this
      ensures Valid() && opt == old(opt) && requests == old(requests) + [id]
      ensures deliveries == if opt.Some? then old(deliveries) + [Delivery(id, opt.value)] else []
    {
      requests := requests + [id];
      if opt.Some? {
        deliveries := deliveries + [Delivery(id, opt.value)];
      } else {
        waiters := waiters + [id];
      }
    }
  }
}
