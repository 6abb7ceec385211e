/** The event stream of a child process and the progress requests answered from it. */
module ProcessStreams {
  import opened Basics
  import opened AsyncQueues

  type Bytes = seq<int>

  datatype Event = Stdout(data: Bytes) | Stderr(data: Bytes) | Exit(status: int)

  class ProcStream {
    const stream: AsyncQueue<Event>
    const exitStatus: AsyncOptional<int>
    /** Answered progress requests, in the order of their answers. */
    var answers: seq<Delivery<Event>>
    /** All progress requests. */
    ghost var requests: seq<nat>
    /** The output events enqueued before the exit. */
    ghost var events: seq<Event>
    /** At the exit: how many requests there had been. */
    ghost var before: nat

    /** How many requests are answered with output. */
    ghost function Served(): nat
      reads this, exitStatus
    {
      Min(if exitStatus.opt.Some? then before else |requests|, |events|)
    }

    /**
     Before the exit the k-th request is answered with the k-th output event as soon as there are
     both. After it every request has been answered: those that had been answered with output
     before, with that, and all others with the one exit status. Nobody is left waiting, neither
     for progress nor for the exit.
     */
    ghost predicate Valid()
      reads this, stream, exitStatus
    {
      && stream.Valid() && exitStatus.Valid()
      && (forall e | e in events :: !e.Exit?)
      && |answers| <= |requests|
      && (forall i | 0 <= i < |answers| && i < Served() :: answers[i] == Delivery(requests[i], events[i]))
      && (if exitStatus.opt.None? then
            && |answers| == Min(|requests|, |events|)
            && stream.deliveries == answers && stream.requests == requests && stream.supply == events
          else
            && |answers| == |requests| && before <= |requests|
            && (forall i | Served() <= i < |answers| ::
                  answers[i] == Delivery(requests[i], Exit(exitStatus.opt.value)))
            && stream.waiters == [] && exitStatus.waiters == []
            && forall d | d in exitStatus.deliveries :: d.item == exitStatus.opt.value)
    }

    constructor ()
      ensures Valid() && fresh(stream) && fresh(exitStatus)
      ensures exitStatus.opt == None && requests == [] && events == [] && exitStatus.requests == []
    {
      stream := new AsyncQueue<Event>();
      exitStatus := new AsyncOptional<int>();
      answers, requests, events, before := [], [], [], 0;
    }

    /** Output read from one of the pipes. */
    method EnqueOutput(evt: Event)
      requires Valid() && !evt.Exit?
      modifies this, stream
      ensures Valid() && requests == old(requests)
      ensures exitStatus.opt.None? ==> events == old(events) + [evt]
      ensures exitStatus.opt.Some? ==> events == old(events) && answers == old(answers)
    {
      var n := |stream.deliveries|;
      if exitStatus.opt.None? {
        events := events + [evt];
      }
      stream.Enque(evt);
      assert exitStatus.opt.None? ==> answers + stream.deliveries[n..] == stream.deliveries;
      answers := answers + stream.deliveries[n..];
    }

    /** The exit callback, which libuv makes once. */
    method EnqueExit(status: int)
      requires Valid() && exitStatus.opt.None?
      modifies this, stream, exitStatus
      ensures Valid() && exitStatus.opt == Some(status)
      ensures requests == old(requests) && events == old(events) && before == |requests|
      ensures exitStatus.requests == old(exitStatus.requests)
    {
      var n := |stream.deliveries|;
      before := |requests|;
      exitStatus.Emplace(status);
      stream.EnqueAll(Exit(status));
      assert answers + stream.deliveries[n..] == stream.deliveries;
      answers := answers + stream.deliveries[n..];
    }

    /** A progress request: at once with the exit status if there is one, else from the stream. */
    method Progress(id: nat)
      requires Valid()
      modifies this, stream, exitStatus
      ensures Valid() && requests == old(requests) + [id] && events == old(events)
      ensures exitStatus.opt == old(exitStatus.opt) && before == old(before)
      ensures exitStatus.opt.Some? ==>
                answers == old(answers) + [Delivery(id, Exit(exitStatus.opt.value))]
    {
      requests := requests + [id];
      if exitStatus.opt.Some? {
        answers := answers + [Delivery(id, Exit(exitStatus.opt.value))];
        return;
      }
      var n := |stream.deliveries|;
      stream.Start(id);
      assert answers + stream.deliveries[n..] == stream.deliveries;
      answers := answers + stream.deliveries[n..];
    }

    /** What the destruction of the process waits for. */
    method AwaitExit(id: nat)
      requires Valid()
      modifies exitStatus
      ensures Valid() && exitStatus.opt == old(exitStatus.opt)
      ensures exitStatus.requests == old(exitStatus.requests) + [id]
      ensures exitStatus.opt.Some? ==> Delivery(id, exitStatus.opt.value) in exitStatus.deliveries
    {
      exitStatus.Start(id);
    }

    /** After the exit: output has been reported exactly if its request had come before the exit. */
    lemma ReportedExactly(k: nat)
      requires Valid() && exitStatus.opt.Some? && k < |events|
      ensures (k < |answers| && answers[k] == Delivery(requests[k], events[k])) <==> k < before
      ensures forall i | before <= i < |answers| :: answers[i].item.Exit?
    {
      assert events[k] in events;
    }
  }

  /** Output, then the exit, and only then a request: it gets the exit status, and nobody the output. */
  method UnreadAtExit(data: Bytes, status: int, id: nat) returns (p: ProcStream)
    ensures fresh(p) && p.Valid() && p.events == [Stdout(data)] && p.requests == [id]
    ensures p.answers == [Delivery(id, Exit(status))]
  {
    p := new ProcStream();
    p.EnqueOutput(Stdout(data));
    p.EnqueExit(status);
    p.Progress(id);
  }
}
