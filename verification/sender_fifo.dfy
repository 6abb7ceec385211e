/**
 The fifo that lets one wrapped operation run at a time. An operation may complete while it is
 being started, and what waits for it may start further operations on the same fifo at that
 moment, so starting one operation can run through any number of others.
 */
module SenderFifo {
  import opened Basics

  /**
   A wrapped operation: whether it completes within its own start, and the operations that its
   receiver starts on the fifo when it is told about the completion.
   */
  datatype Op = Op(id: nat, sync: bool, next: seq<Op>)

  function Weight(op: Op): nat {
    1 + Weights(op.next)
  }

  function Weights(ops: seq<Op>): nat {
    if ops == [] then 0 else Weight(ops[0]) + Weights(ops[1..])
  }

  lemma {:induction false} WeightsOfParts(a: seq<Op>, b: seq<Op>)
    ensures Weights(a + b) == Weights(a) + Weights(b)
    decreases |a|
  {
    if a == [] {
      assert a + b == b;
    } else {
      WeightsOfParts(a[1..], b);
      assert (a + b)[1..] == a[1..] + b;
    }
  }

  /** The queue after its first operation has completed. */
  function Advance(queue: seq<Op>): seq<Op>
    requires queue != []
  {
    queue[1..] + queue[0].next
  }

  lemma AdvanceLess(queue: seq<Op>)
    requires queue != []
    ensures Weights(Advance(queue)) == Weights(queue) - 1
  {
    WeightsOfParts(queue[1..], queue[0].next);
  }

  /** The operations that complete at once when the first of the queue is started, in order. */
  function Done(queue: seq<Op>): seq<Op>
    decreases Weights(queue)
  {
    if queue == [] || !queue[0].sync then []
    else AdvanceLess(queue); [queue[0]] + Done(Advance(queue))
  }

  /** The queue that remains then; its first operation is still running. */
  function Rest(queue: seq<Op>): (rest: seq<Op>)
    ensures rest == [] || !rest[0].sync
    decreases Weights(queue)
  {
    if queue == [] || !queue[0].sync then queue
    else AdvanceLess(queue); Rest(Advance(queue))
  }

  /** Nobody is overtaken: what completes and what remains begins with the queue as it was. */
  lemma {:induction false} InOrder(queue: seq<Op>)
    ensures queue <= Done(queue) + Rest(queue)
    decreases Weights(queue)
  {
    if queue != [] && queue[0].sync {
      AdvanceLess(queue);
      InOrder(Advance(queue));
      FirstAgain(queue, Done(Advance(queue)), Rest(Advance(queue)));
    }
  }

  lemma FirstAgain(queue: seq<Op>, done: seq<Op>, rest: seq<Op>)
    requires queue != [] && Advance(queue) <= done + rest
    ensures queue <= [queue[0]] + done + rest
  {
    assert queue[1..] <= Advance(queue);
    assert [queue[0]] + done + rest == [queue[0]] + (done + rest);
  }

  class Fifo {
    var waiters: seq<Op>
    var current: Option<Op>
    /** All operations started on the fifo, those it has started in turn, and those completed. */
    ghost var arrived: seq<Op>
    ghost var started: seq<Op>
    ghost var finished: seq<Op>

    ghost function Queue(): seq<Op>
      reads this
    {
      Listed(current) + waiters
    }

    /** Operations are started in the order of arrival, each once, and one at a time. */
    ghost predicate Ordered()
      reads this
    {
      && arrived == finished + Queue()
      && started == finished + Listed(current)
      && (current.None? ==> waiters == [])
    }

    /** Between calls the active operation is one that completes later. */
    ghost predicate Valid()
      reads this
    {
      Ordered() && (current.Some? ==> !current.value.sync)
    }

    constructor ()
      ensures Valid() && Queue() == [] && arrived == []
    {
      waiters, current := [], None;
      arrived, started, finished := [], [], [];
    }

    method OnStart(op: Op)
      requires Ordered()
      modifies this
      ensures Ordered() && old(arrived) + [op] <= arrived
      ensures old(current).Some? ==> waiters == old(waiters) + [op] && current == old(current)
      ensures old(current).Some? ==> finished == old(finished)
      ensures old(current).None? ==> Valid() && Queue() == Rest([op]) && finished == old(finished) + Done([op])
      decreases if current.Some? then 0 else Weight(op), 3
    {
      arrived := arrived + [op];
      if current.None? {
        current := Some(op);
        DoStart(op);
      } else {
        waiters := waiters + [op];
      }
    }

    /** The slot is free again; the first waiter, if any, takes it. */
    method OnEnd()
      requires current.Some? && Ordered()
      modifies this
      ensures Valid() && old(arrived) <= arrived
      ensures Queue() == Rest(old(waiters))
      ensures finished == old(finished) + [old(current.value)] + Done(old(waiters))
      decreases Weights(waiters), 4
    {
      finished := finished + [current.value];
      current := None;
      if waiters != [] {
        var op := waiters[0];
        waiters := waiters[1..];
        current := Some(op);
        DoStart(op);
      }
    }

    method DoStart(op: Op)
      requires current == Some(op) && arrived == finished + Queue() && started == finished
      modifies this
      ensures Valid() && old(arrived) <= arrived
      ensures Queue() == Rest(old(Queue())) && finished == old(finished) + Done(old(Queue()))
      decreases Weights(waiters) + Weight(op), 2
    {
      started := started + [op];
      if op.sync {
        AdvanceLess(Queue());
        Complete();
      }
    }

    /** The wrapped operation completes: its receiver is told first, then the slot is freed. */
    method Complete()
      requires current.Some? && Ordered()
      modifies this
      ensures Valid() && old(arrived) + old(current.value).next <= arrived
      ensures Queue() == Rest(Advance(old(Queue())))
      ensures finished == old(finished) + [old(current.value)] + Done(Advance(old(Queue())))
      decreases Weights(waiters) + Weight(current.value), 1
    {
      ghost var queue := Queue();
      var next := current.value.next;
      for i := 0 to |next|
        invariant Ordered() && current == old(current) && finished == old(finished)
        invariant waiters == old(waiters) + next[..i] && old(arrived) + next[..i] <= arrived
      {
        OnStart(next[i]);
        assert next[..i + 1] == next[..i] + [next[i]];
      }
      assert next[..|next|] == next && queue[1..] == old(waiters);
      AdvanceLess(queue);
      OnEnd();
    }

    /** One event: a new operation arrives, or the active one completes. */
    method Turn(arrival: Option<Op>)
      requires Valid()
      modifies this
      ensures Valid()
      ensures arrival.Some? ==> old(arrived) + [arrival.value] <= arrived
      ensures arrival.Some? ==>
                Queue() == if old(current).Some? then old(Queue()) + [arrival.value] else Rest([arrival.value])
      ensures arrival.None? && old(current).None? ==> arrived == old(arrived) && finished == old(finished)
      ensures old(arrived) <= arrived && old(started) <= started && old(finished) <= finished
      ensures arrival.None? && old(current).Some? ==>
                Queue() == Rest(Advance(old(Queue()))) && old(finished) + [old(current.value)] <= finished
    {
      if arrival.Some? {
        OnStart(arrival.value);
      } else if current.Some? {
        Complete();
      }
    }

    /** If every operation completes in the end, so does everything that ever arrived, in order. */
    method CompleteAll()
      requires Valid()
      modifies this
      ensures Valid() && current.None? && finished == started == arrived
      ensures old(arrived) <= arrived
    {
      while current.Some?
        invariant Valid() && old(arrived) <= arrived
        decreases Weights(Queue())
      {
        ghost var queue := Queue();
        AdvanceLess(queue);
        RestLess(Advance(queue));
        Complete();
      }
    }
  }

  lemma {:induction false} RestLess(queue: seq<Op>)
    ensures Weights(Rest(queue)) <= Weights(queue)
    decreases Weights(queue)
  {
    if queue != [] && queue[0].sync {
      AdvanceLess(queue);
      RestLess(Advance(queue));
    }
  }
}
