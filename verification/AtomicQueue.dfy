/**
  The record FIFO as its users may think of it: whole insertions and whole
  reads, one after the other. Both the interleaved protocol and the pipeline
  are in step with it.
 */
module AtomicQueue {
  import RecorderSpec

  /** A queued record pointer. */
  type Pointer = nat

  /** post_syscall inserts a pointer; a read takes some from the front. */
  datatype Op = Insert(record: Pointer) | Take(count: nat)

  /** entered and left: every pointer ever inserted and removed, in order. */
  datatype Queue = Queue(fifo: seq<Pointer>, entered: seq<Pointer>, left: seq<Pointer>)

  function Apply(q: Queue, op: Op): Queue {
    match op
    case Insert(record) =>
      if |q.fifo| < RecorderSpec.QUEUE_CAPACITY then Queue(q.fifo + [record], q.entered + [record], q.left) else q
    case Take(count) =>
      var n := if count < |q.fifo| then count else |q.fifo|;
      Queue(q.fifo[n..], q.entered, q.left + q.fifo[..n])
  }

  function ApplyAll(ops: seq<Op>): Queue {
    if ops == [] then Queue([], [], []) else Apply(ApplyAll(ops[..|ops| - 1]), ops[|ops| - 1])
  }

  lemma OneMoreOp(ops: seq<Op>, op: Op)
    ensures ApplyAll(ops + [op]) == Apply(ApplyAll(ops), op)
  {
    assert (ops + [op])[..|ops|] == ops;
  }

  lemma InsertOne(ops: seq<Op>, record: Pointer)
    ensures var q := ApplyAll(ops);
            ApplyAll(ops + [Insert(record)]) ==
            if |q.fifo| < RecorderSpec.QUEUE_CAPACITY then Queue(q.fifo + [record], q.entered + [record], q.left) else q
  {
    hide ApplyAll;
    OneMoreOp(ops, Insert(record));
  }

  lemma TakeNone(ops: seq<Op>)
    ensures ApplyAll(ops + [Take(0)]) == ApplyAll(ops)
  {
    hide ApplyAll;
    OneMoreOp(ops, Take(0));
    var q := ApplyAll(ops);
    assert q.fifo[0..] == q.fifo && q.left + q.fifo[..0] == q.left;
  }

  predicate EndsInRead(ops: seq<Op>) {
    ops != [] && ops[|ops| - 1].Take?
  }

  /** The last read takes one more. */
  function TakingOneMore(ops: seq<Op>): (ops': seq<Op>)
    requires EndsInRead(ops)
    ensures EndsInRead(ops')
  {
    ops[..|ops| - 1] + [Take(ops[|ops| - 1].count + 1)]
  }

  lemma TakeOneMore(ops: seq<Op>)
    requires EndsInRead(ops) && ApplyAll(ops).fifo != []
    ensures var q := ApplyAll(ops);
            ApplyAll(TakingOneMore(ops)) == Queue(q.fifo[1..], q.entered, q.left + [q.fifo[0]])
  {
    hide ApplyAll;
    var earlier, count := ops[..|ops| - 1], ops[|ops| - 1].count;
    assert ops == earlier + [Take(count)];
    OneMoreOp(earlier, Take(count));
    OneMoreOp(earlier, Take(count + 1));
    TakesApart(ApplyAll(earlier), count);
  }

  lemma TakesApart(q: Queue, count: nat)
    ensures count < |q.fifo| ==>
              var q' := Apply(q, Take(count));
              Apply(q, Take(count + 1)) == Queue(q'.fifo[1..], q'.entered, q'.left + [q'.fifo[0]])
    ensures count >= |q.fifo| ==> Apply(q, Take(count)).fifo == []
  {
    if count < |q.fifo| {
      assert q.fifo[..count + 1] == q.fifo[..count] + [q.fifo[count]];
    }
  }
}
