/** The queue page: an array used first-in first-out, with the displayed size
    and front element kept beside it and a log line per operation that
    records the queue as it is afterwards. */
module QueuePage {
  import opened Common
  import opened Js

  datatype Action = Enqueued(value: int) | Dequeued(value: int)

  /** One log line: the action and the queue it left. */
  datatype Note = Note(action: Action, queue: seq<int>)

  /** `queue`, `size`, `front` (`null` is `None`) and `steps`. */
  datatype Page = Page(queue: seq<int>, size: nat, front: Option<int>, log: seq<Note>)

  /** `size` and `front` describe `queue`. */
  predicate Consistent(p: Page)
  {
    && p.size == |p.queue|
    && p.front == (if |p.queue| > 0 then Some(p.queue[0]) else None)
  }

  /** `updateQueueInfo(newQueue, action)`: install the new queue, refresh the
      size and the front, and log the action with a snapshot. */
  function Update(p: Page, q: seq<int>, action: Action): (p': Page)
    ensures Consistent(p') && p'.queue == q
    ensures p'.log == p.log + [Note(action, q)]
  {
    Page(q, |q|, if |q| > 0 then Some(q[0]) else None, p.log + [Note(action, q)])
  }

  /** `handleEnqueue`: a blank field or text that does not parse as a number
      does nothing; otherwise the number joins at the back. */
  function Enqueue(p: Page, f: Field): (p': Page)
    ensures !(f.Filled? && f.num.Int?) ==> p' == p
    ensures f.Filled? && f.num.Int? ==>
      Consistent(p') && p'.queue == p.queue + [f.num.n] && p'.log == p.log + [Note(Enqueued(f.num.n), p'.queue)]
  {
    if f.Filled? && f.num.Int? then Update(p, p.queue + [f.num.n], Enqueued(f.num.n)) else p
  }

  /** `handleDequeue`: nothing on an empty queue; otherwise the front leaves. */
  function Dequeue(p: Page): (p': Page)
    ensures |p.queue| == 0 ==> p' == p
    ensures |p.queue| > 0 ==>
      Consistent(p') && [p.queue[0]] + p'.queue == p.queue &&
      p'.log == p.log + [Note(Dequeued(p.queue[0]), p'.queue)]
  {
    if |p.queue| == 0 then p
    else Update(p, p.queue[1..], Dequeued(p.queue[0]))
  }

  /** The page's controls. */
  datatype Op = Enq(f: Field) | Deq

  function Apply(p: Page, op: Op): Page
  {
    match op
    case Enq(f) => Enqueue(p, f)
    case Deq => Dequeue(p)
  }

  function Run(p: Page, ops: seq<Op>): Page
    decreases |ops|
  {
    if |ops| == 0 then p else Run(Apply(p, ops[0]), ops[1..])
  }

  /** The numbers a run of operations offers the queue, in order. */
  function Offered(ops: seq<Op>): seq<int>
  {
    if |ops| == 0 then []
    else (match ops[0] case Enq(f) => if f.Filled? && f.num.Int? then [f.num.n] else [] case Deq => [])
         + Offered(ops[1..])
  }

  /** The values a log says were dequeued, in order. */
  function Served(log: seq<Note>): seq<int>
  {
    if |log| == 0 then []
    else (if log[0].action.Dequeued? then [log[0].action.value] else []) + Served(log[1..])
  }

  lemma {:induction false} ServedConcat(a: seq<Note>, b: seq<Note>)
    ensures Served(a + b) == Served(a) + Served(b)
  {
    if |a| == 0 {
      assert a + b == b;
    } else {
      var ab := a + b;
      assert ab[0] == a[0] && ab[1..] == a[1..] + b;
      ServedConcat(a[1..], b);
    }
  }

  /** One operation keeps the first-in first-out balance: what has been
      served followed by what still waits is what was there followed by what
      was offered. */
  lemma Fifo1(p: Page, op: Op)
    ensures var p' := Run(p, [op]);
      Served(p'.log) + p'.queue == Served(p.log) + p.queue + Offered([op])
  {
    var p' := Apply(p, op);
    assert Run(p, [op]) == Run(p', []);
    assert Offered([op]) == (match op case Enq(f) => if f.Filled? && f.num.Int? then [f.num.n] else [] case Deq => []) + Offered([]);
    if p' != p {
      ServedConcat(p.log, [p'.log[|p'.log| - 1]]);
      assert p'.log == p.log + [p'.log[|p'.log| - 1]];
      match op
      case Enq(f) =>
      case Deq =>
        assert p.queue == [p.queue[0]] + p'.queue;
    }
  }

  /** First in, first out: over any run of page operations, the values served
      followed by the values still queued are the values that were queued
      followed by the values offered. */
  lemma {:induction false} Fifo(p: Page, ops: seq<Op>)
    ensures Served(Run(p, ops).log) + Run(p, ops).queue == Served(p.log) + p.queue + Offered(ops)
    decreases |ops|
  {
    if |ops| > 0 {
      var q := Run(p, [ops[0]]);
      Fifo1(p, ops[0]);
      assert Run(p, [ops[0]]) == Run(p, ops[..1]);
      assert q == Apply(p, ops[0]);
      Fifo(q, ops[1..]);
      assert Offered([ops[0]]) + Offered(ops[1..]) == Offered(ops);
    }
  }

  /** Every operation leaves `size` and `front` describing the queue. */
  lemma {:induction false} RunConsistent(p: Page, ops: seq<Op>)
    requires Consistent(p)
    ensures Consistent(Run(p, ops))
    decreases |ops|
  {
    if |ops| > 0 {
      RunConsistent(Apply(p, ops[0]), ops[1..]);
    }
  }
}
