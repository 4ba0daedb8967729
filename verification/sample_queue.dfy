/** The bounded FIFO of sensor readings between the sampling task and the
    consuming task (a FreeRTOS queue of `int`).  The producer sends with a
    zero timeout, so a full queue drops the new reading; the consumer
    receives the oldest reading first. */
module SampleQueue {
  /** Length of the sample queue created at start-up. */
  const QUEUE_LENGTH: nat := 20

  /** Queued readings, oldest first, and the queue's capacity. */
  datatype Queue = Queue(items: seq<int>, capacity: nat) {
    predicate Valid() {
      |items| <= capacity
    }

    /** How many more readings the queue can take. */
    function Room(): nat
      requires Valid()
    {
      capacity - |items|
    }
  }

  /** A new, empty queue of the given length. */
  function Create(capacity: nat): (q: Queue)
    ensures q.Valid() && q.capacity == capacity
    ensures |q.items| == 0
  {
    Queue([], capacity)
  }

  /** Outcome of a send: whether the reading was accepted, and the queue afterwards. */
  datatype Sent = Sent(ok: bool, queue: Queue)

  /** Sending without waiting: a reading joins the tail when there is room;
      on a full queue the send fails and the queue is left exactly as it was. */
  function TrySend(q: Queue, v: int): (r: Sent)
    requires q.Valid()
    ensures r.queue.Valid() && r.queue.capacity == q.capacity
    ensures r.ok <==> |q.items| < q.capacity
    ensures r.ok ==> r.queue.items == q.items + [v]
    ensures !r.ok ==> r.queue == q
  {
    if |q.items| < q.capacity then Sent(true, q.(items := q.items + [v])) else Sent(false, q)
  }

  /** Outcome of a receive: nothing (the receiver stays blocked), or the
      oldest reading and the queue without it. */
  datatype Received = Nothing | Item(value: int, rest: Queue)

  /** Receiving hands back the head of the queue; an empty queue yields nothing. */
  function Receive(q: Queue): (r: Received)
    requires q.Valid()
    ensures r.Nothing? <==> |q.items| == 0
    ensures r.Item? ==> [r.value] + r.rest.items == q.items
    ensures r.Item? ==> r.rest.Valid() && r.rest.capacity == q.capacity
  {
    if |q.items| == 0 then Nothing else Item(q.items[0], q.(items := q.items[1..]))
  }

  /** Sending a whole sequence of readings, with no receive in between. */
  function SendAll(q: Queue, vs: seq<int>): (r: Queue)
    requires q.Valid()
    ensures r.Valid() && r.capacity == q.capacity
    decreases |vs|
  {
    if |vs| == 0 then q else SendAll(TrySend(q, vs[0]).queue, vs[1..])
  }

  /** Without a receiver, the queue keeps its old contents followed by the
      oldest readings that fit: once full, every newer reading is dropped. */
  lemma {:induction false} SendAllKeepsOldest(q: Queue, vs: seq<int>)
    requires q.Valid()
    ensures SendAll(q, vs).items == q.items + vs[..if |vs| <= q.Room() then |vs| else q.Room()]
    decreases |vs|
  {
    if |vs| > 0 {
      var q' := TrySend(q, vs[0]).queue;
      SendAllKeepsOldest(q', vs[1..]);
      if 0 < q.Room() {
        var n := if |vs| <= q.Room() then |vs| else q.Room();
        assert vs[1..][..n - 1] == vs[1..n];
        assert [vs[0]] + vs[1..n] == vs[..n];
      }
    }
  }

  /** An operation on the queue: a zero-timeout send, or a receive by the consumer. */
  datatype Op = Push(value: int) | Pop

  /** What a sequence of operations did: the final queue, the readings the
      queue accepted, and the readings the consumer received, each in order. */
  datatype Trace = Trace(queue: Queue, accepted: seq<int>, observed: seq<int>)

  /** Runs operations in order; a receive on an empty queue does nothing. */
  function Exec(q: Queue, ops: seq<Op>): (t: Trace)
    requires q.Valid()
    ensures t.queue.Valid() && t.queue.capacity == q.capacity
    decreases |ops|
  {
    if |ops| == 0 then Trace(q, [], [])
    else match ops[0]
      case Push(v) =>
        var s := TrySend(q, v);
        var t := Exec(s.queue, ops[1..]);
        Trace(t.queue, (if s.ok then [v] else []) + t.accepted, t.observed)
      case Pop =>
        match Receive(q)
        case Nothing => Exec(q, ops[1..])
        case Item(v, rest) =>
          var t := Exec(rest, ops[1..]);
          Trace(t.queue, t.accepted, [v] + t.observed)
  }

  /** First in, first out, under any interleaving of sends and receives:
      what was queued plus what was accepted is exactly what was received
      followed by what is still queued. */
  lemma {:induction false} ExecIsFifo(q: Queue, ops: seq<Op>)
    requires q.Valid()
    ensures q.items + Exec(q, ops).accepted == Exec(q, ops).observed + Exec(q, ops).queue.items
    decreases |ops|
  {
    if |ops| > 0 {
      match ops[0]
      case Push(v) =>
        var sent := TrySend(q, v);
        var t := Exec(sent.queue, ops[1..]);
        ExecIsFifo(sent.queue, ops[1..]);
        if sent.ok {
          assert Exec(q, ops) == Trace(t.queue, [v] + t.accepted, t.observed);
          assert q.items + ([v] + t.accepted) == sent.queue.items + t.accepted;
        } else {
          assert Exec(q, ops) == Trace(t.queue, t.accepted, t.observed);
        }
      case Pop =>
        match Receive(q) {
          case Nothing =>
            ExecIsFifo(q, ops[1..]);
          case Item(v, rest) =>
            var t := Exec(rest, ops[1..]);
            ExecIsFifo(rest, ops[1..]);
            assert Exec(q, ops) == Trace(t.queue, t.accepted, [v] + t.observed);
            assert q.items + t.accepted == [v] + (rest.items + t.accepted);
        }
    }
  }

  /** The consumer receives a prefix of the readings queued and accepted, in order. */
  lemma ObservedInSendOrder(q: Queue, ops: seq<Op>)
    requires q.Valid()
    ensures Exec(q, ops).observed <= q.items + Exec(q, ops).accepted
  {
    ExecIsFifo(q, ops);
  }
}
