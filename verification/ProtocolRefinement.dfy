/**
  Every run of the interleaved protocol is one of the pipeline: there is a
  sequence of whole calls and whole reads after which the same pointers, by the
  positions of their calls, have entered the queue, left it and are in it.
 */
module ProtocolRefinement {
  import opened Bytes
  import opened Memory
  import opened Format
  import opened AtomicQueue
  import D = DumpProtocol
  import DumperSpec
  import P = Pipeline

  // ---- Pointers and positions ----

  /** The pointers of all insertions, tried or done, in order. */
  function Names(ops: seq<Op>): seq<Pointer> {
    if ops == [] then []
    else
      var op := ops[|ops| - 1];
      Names(ops[..|ops| - 1]) + if op.Insert? then [op.record] else []
  }

  /** The same operations on positions: the p-th insertion inserts p. Reads that took nothing are left out. */
  function Numbered(ops: seq<Op>): seq<Op> {
    if ops == [] then []
    else
      var earlier, op := ops[..|ops| - 1], ops[|ops| - 1];
      match op
      case Insert(_) => Numbered(earlier) + [Insert(|Names(earlier)|)]
      case Take(count) => Numbered(earlier) + if count == 0 then [] else [op]
  }

  /** These are the pointers at those positions. */
  ghost predicate At(pointers: seq<Pointer>, positions: seq<Pointer>, names: seq<Pointer>) {
    && |pointers| == |positions|
    && forall i | 0 <= i < |positions| :: positions[i] < |names| && pointers[i] == names[positions[i]]
  }

  ghost predicate SameQueue(q: Queue, q': Queue, names: seq<Pointer>) {
    At(q.fifo, q'.fifo, names) && At(q.entered, q'.entered, names) && At(q.left, q'.left, names)
  }

  lemma AtMoreNames(pointers: seq<Pointer>, positions: seq<Pointer>, names: seq<Pointer>, more: seq<Pointer>)
    requires At(pointers, positions, names)
    ensures At(pointers, positions, names + more)
  {
  }

  lemma AtAppend(a: seq<Pointer>, b: seq<Pointer>, a': seq<Pointer>, b': seq<Pointer>, names: seq<Pointer>)
    requires At(a, a', names) && At(b, b', names)
    ensures At(a + b, a' + b', names)
  {
  }

  lemma AtCut(a: seq<Pointer>, a': seq<Pointer>, names: seq<Pointer>, n: nat)
    requires At(a, a', names) && n <= |a|
    ensures At(a[..n], a'[..n], names) && At(a[n..], a'[n..], names)
  {
  }

  lemma InsertKeepsSame(q: Queue, q': Queue, names: seq<Pointer>, record: Pointer)
    requires SameQueue(q, q', names)
    ensures SameQueue(Apply(q, Insert(record)), Apply(q', Insert(|names|)), names + [record])
  {
    hide At;
    AtMoreNames(q.fifo, q'.fifo, names, [record]);
    AtMoreNames(q.entered, q'.entered, names, [record]);
    AtMoreNames(q.left, q'.left, names, [record]);
    SameLength(q.fifo, q'.fifo, names);
    AtNew(record, names);
    AtAppend(q.fifo, [record], q'.fifo, [|names|], names + [record]);
    AtAppend(q.entered, [record], q'.entered, [|names|], names + [record]);
  }

  lemma SameLength(pointers: seq<Pointer>, positions: seq<Pointer>, names: seq<Pointer>)
    requires At(pointers, positions, names)
    ensures |pointers| == |positions|
  {
  }

  lemma AtNew(record: Pointer, names: seq<Pointer>)
    ensures At([record], [|names|], names + [record])
  {
  }

  lemma TakeKeepsSame(q: Queue, q': Queue, names: seq<Pointer>, count: nat)
    requires SameQueue(q, q', names)
    ensures SameQueue(Apply(q, Take(count)), Apply(q', Take(count)), names)
  {
    hide At;
    SameLength(q.fifo, q'.fifo, names);
    var n := if count < |q.fifo| then count else |q.fifo|;
    AtCut(q.fifo, q'.fifo, names, n);
    AtAppend(q.left, q.fifo[..n], q'.left, q'.fifo[..n], names);
  }

  lemma OneMoreNumbered(ops: seq<Op>, op: Op)
    ensures Names(ops + [op]) == Names(ops) + if op.Insert? then [op.record] else []
    ensures Numbered(ops + [op]) ==
            if op.Insert? then Numbered(ops) + [Insert(|Names(ops)|)]
            else if op.count == 0 then Numbered(ops) else Numbered(ops) + [op]
  {
    assert (ops + [op])[..|ops|] == ops;
    assert Numbered(ops) + [] == Numbered(ops);
  }

  lemma InsertIsSame(ops: seq<Op>, record: Pointer)
    requires SameQueue(ApplyAll(ops), ApplyAll(Numbered(ops)), Names(ops))
    ensures var ops' := ops + [Insert(record)];
            SameQueue(ApplyAll(ops'), ApplyAll(Numbered(ops')), Names(ops'))
  {
    hide ApplyAll, Apply, SameQueue, Numbered, Names;
    OneMoreNumbered(ops, Insert(record));
    OneMoreOp(ops, Insert(record));
    OneMoreOp(Numbered(ops), Insert(|Names(ops)|));
    InsertKeepsSame(ApplyAll(ops), ApplyAll(Numbered(ops)), Names(ops), record);
  }

  lemma TakeIsSame(ops: seq<Op>, count: nat)
    requires SameQueue(ApplyAll(ops), ApplyAll(Numbered(ops)), Names(ops))
    ensures var ops' := ops + [Take(count)];
            SameQueue(ApplyAll(ops'), ApplyAll(Numbered(ops')), Names(ops'))
  {
    hide ApplyAll, Apply, SameQueue, Numbered, Names;
    OneMoreNumbered(ops, Take(count));
    assert Names(ops) + [] == Names(ops);
    if count == 0 {
      TakeNone(ops);
    } else {
      OneMoreOp(ops, Take(count));
      OneMoreOp(Numbered(ops), Take(count));
      TakeKeepsSame(ApplyAll(ops), ApplyAll(Numbered(ops)), Names(ops), count);
    }
  }

  lemma NothingIsSame()
    ensures SameQueue(ApplyAll([]), ApplyAll(Numbered([])), Names([]))
  {
  }

  lemma {:induction false} NumberedIsSame(ops: seq<Op>)
    ensures SameQueue(ApplyAll(ops), ApplyAll(Numbered(ops)), Names(ops))
  {
    hide ApplyAll, SameQueue, Numbered, Names;
    if ops == [] {
      NothingIsSame();
    } else {
      var earlier, op := ops[..|ops| - 1], ops[|ops| - 1];
      assert ops == earlier + [op];
      NumberedIsSame(earlier);
      match op {
        case Insert(record) => InsertIsSame(earlier, record);
        case Take(count) => TakeIsSame(earlier, count);
      }
    }
  }

  // ---- A read takes what there is ----

  /** No read takes more than is in the queue. */
  ghost predicate TakesFit(ops: seq<Op>) {
    ops != [] ==>
      var earlier, op := ops[..|ops| - 1], ops[|ops| - 1];
      TakesFit(earlier) && (op.Take? ==> op.count <= |ApplyAll(earlier).fifo|)
  }

  lemma TakesFitOneMore(ops: seq<Op>, op: Op)
    requires TakesFit(ops) && (op.Take? ==> op.count <= |ApplyAll(ops).fifo|)
    ensures TakesFit(ops + [op])
  {
    assert (ops + [op])[..|ops|] == ops;
  }

  lemma TakingOneMoreFits(ops: seq<Op>)
    requires TakesFit(ops) && EndsInRead(ops) && ApplyAll(ops).fifo != []
    ensures TakesFit(TakingOneMore(ops))
  {
    hide ApplyAll;
    var earlier, count := ops[..|ops| - 1], ops[|ops| - 1].count;
    assert ops == earlier + [Take(count)];
    OneMoreOp(earlier, Take(count));
    TakesFitOneMore(earlier, Take(count + 1));
  }

  lemma {:induction false} OrderFits(steps: seq<(D.Task, D.Choice)>)
    ensures TakesFit(D.Order(steps))
  {
    if steps != [] {
      var before := steps[..|steps| - 1];
      var (t, c) := steps[|steps| - 1];
      OrderFits(before);
      D.InterleavingIsAtomic(before);
      CommitFits(D.Run(before), D.Order(before), t, c);
    }
  }

  lemma CommitFits(s: D.System, ops: seq<Op>, t: D.Task, c: D.Choice)
    requires D.Safe(s) && D.InStep(s, ops) && TakesFit(ops)
    ensures TakesFit(D.Commit(ops, s, t, c))
  {
    hide ApplyAll, Apply, TakesFit, TakingOneMore;
    var pc := D.PcOf(s, t);
    assert D.SafeAt(s, t);
    if pc.ProducerHolds? {
      TakesFitOneMore(ops, Insert(pc.record));
    } else if pc.ReaderChecks? {
      TakesFitOneMore(ops, Take(0));
    } else if pc.ReaderDumps? && EndsInRead(ops) {
      TakingOneMoreFits(ops);
    }
  }

  // ---- The pipeline's run ----

  const TASK: int := 1

  function NoRegisters(): WordRegisters {
    FromList(seq(21, _ => 0))
  }

  function CallEvents(): seq<P.Event> {
    [P.EnterSyscall(TASK, 0, NoRegisters(), true, 0), P.LeaveSyscall(0)]
  }

  /** A read with room for n - 1 records takes n of them. */
  function ReadOf(queue: seq<Record>, n: nat): P.Event
    requires 0 < n <= |queue|
  {
    var size := |SerializeAll(queue[..n - 1])|;
    P.Read(seq(size, _ => 0), size)
  }

  /** One call for each insertion, and one read for each read that takes something. */
  function EventsOf(ops: seq<Op>): seq<P.Event> {
    if ops == [] then [P.SetPid(TASK)]
    else
      var earlier, op := EventsOf(ops[..|ops| - 1]), ops[|ops| - 1];
      var queue := P.Run(earlier).rec.queue;
      match op
      case Insert(_) => earlier + CallEvents()
      case Take(count) => earlier + if 0 < count <= |queue| then [ReadOf(queue, count)] else []
  }

  /** Between calls of the task, all of which made no copies. */
  ghost predicate Ready(s: P.System) {
    && P.Inv(s) && s.frames == [] && s.rec.pid == TASK
    && forall r | r in s.completed :: r.copies == []
  }

  lemma RunOne(events: seq<P.Event>, e: P.Event)
    ensures var s := P.Run(events);
            && P.Inv(s) && P.Run(events + [e]) == (if P.Enabled(s, e) then P.Step(s, e) else s)
            && P.Ops(events + [e]) == P.Ops(events) + P.OpOf(s, e)
  {
    hide P.Inv, P.Enabled, P.Step, P.OpOf;
    assert (events + [e])[..|events|] == events;
  }

  lemma CallTaken(s: P.System)
    requires Ready(s)
    ensures var enter, leave := CallEvents()[0], CallEvents()[1];
            && P.Enabled(s, enter) && P.OpOf(s, enter) == []
            && var s1 := P.Step(s, enter);
               && P.Inv(s1) && P.Enabled(s1, leave) && P.OpOf(s1, leave) == [Insert(|s.completed|)]
               && Ready(P.Step(s1, leave)) && |P.Step(s1, leave).completed| == |s.completed| + 1
  {
    hide P.HistoryOk;
    var enter, leave := CallEvents()[0], CallEvents()[1];
    P.StepKeepsInv(s, enter);
    var s1 := P.Step(s, enter);
    assert s.rec.current.None? && s1.frames == [P.InSyscall];
    P.StepKeepsInv(s1, leave);
    assert P.Pop(s1.frames) == [];
  }

  lemma ReadTaken(s: P.System, n: nat)
    requires Ready(s) && 0 < n <= |s.rec.queue|
    ensures var e := ReadOf(s.rec.queue, n);
            && P.Enabled(s, e) && P.OpOf(s, e) == [Take(n)]
            && Ready(P.Step(s, e)) && P.Step(s, e).completed == s.completed
  {
    hide P.Step, SerializeAll, DumperSpec.DumpFrom, P.Inv;
    var e := ReadOf(s.rec.queue, n);
    P.StepKeepsInv(s, e);
    P.StepOfRead(s, e.buffer, e.writable);
    QueuedFit(s);
    RoomOf(s.rec.queue, n);
    TakesJust(s.rec.queue, n, e.buffer);
  }

  lemma QueuedFit(s: P.System)
    requires Ready(s)
    ensures forall r | r in s.rec.queue :: DumperSpec.Fits32(r)
  {
    P.QueueInRange(s);
  }

  lemma TakesJust(queue: seq<Record>, n: nat, buffer: seq<Byte>)
    requires 0 < n <= |queue| && forall r | r in queue :: DumperSpec.Fits32(r)
    requires |buffer| == |SerializeAll(queue[..n - 1])|
    ensures DumperSpec.DumpFrom(queue, buffer, 0, |buffer|).taken == n
  {
    hide *;
    LongerByOne(queue, n);
    DumperSpec.DumpIsGreedy(queue, buffer, n - 1);
  }

  lemma RoomOf(queue: seq<Record>, n: nat)
    requires 0 < n <= |queue|
    ensures var e := ReadOf(queue, n); e.Read? && |e.buffer| == e.writable == |SerializeAll(queue[..n - 1])|
  {
    hide SerializeAll;
  }

  lemma LongerByOne(queue: seq<Record>, n: nat)
    requires 0 < n <= |queue|
    ensures |SerializeAll(queue[..n])| > |SerializeAll(queue[..n - 1])|
  {
    hide SerializeAll, Serialize;
    assert queue[..n] == queue[..n - 1] + [queue[n - 1]];
    SerializeAllAppend(queue[..n - 1], [queue[n - 1]]);
    OneSerialized(queue[n - 1]);
  }

  lemma OneSerialized(r: Record)
    ensures |SerializeAll([r])| >= 184
  {
    hide Header, SerializeCopies;
    assert SerializeAll([r]) == Serialize(r) + [];
  }

  lemma TaskIsSet()
    ensures Ready(P.Run([P.SetPid(TASK)])) && P.Run([P.SetPid(TASK)]).completed == [] && P.Ops([P.SetPid(TASK)]) == []
  {
    hide P.Inv, P.Run, P.Ops;
    assert [] + [P.SetPid(TASK)] == [P.SetPid(TASK)];
    NothingRun();
    RunOne([], P.SetPid(TASK));
    P.StepKeepsInv(P.START, P.SetPid(TASK));
  }

  lemma NothingRun()
    ensures P.Run([]) == P.START && P.Inv(P.START) && P.Ops([]) == []
  {
    hide P.Inv;
  }

  lemma CallRuns(events: seq<P.Event>)
    requires Ready(P.Run(events))
    ensures var s, s' := P.Run(events), P.Run(events + CallEvents());
            && Ready(s') && |s'.completed| == |s.completed| + 1
            && P.Ops(events + CallEvents()) == P.Ops(events) + [Insert(|s.completed|)]
  {
    hide P.Run, P.Ops, P.Step, P.Enabled, P.OpOf, Ready, P.Inv;
    var enter, leave := CallEvents()[0], CallEvents()[1];
    CallTaken(P.Run(events));
    RunOne(events, enter);
    RunOne(events + [enter], leave);
    assert events + CallEvents() == events + [enter] + [leave];
    assert P.Ops(events) + [] == P.Ops(events);
  }

  lemma {:induction false} EventsTaken(ops: seq<Op>)
    requires TakesFit(ops)
    ensures var s := P.Run(EventsOf(ops));
            Ready(s) && |s.completed| == |Names(ops)| && P.Ops(EventsOf(ops)) == Numbered(ops)
  {
    hide P.Run, P.Ops, P.Step, P.Enabled, P.OpOf, Ready, ApplyAll;
    if ops == [] {
      TaskIsSet();
    } else {
      var earlier, op := ops[..|ops| - 1], ops[|ops| - 1];
      EventsTaken(earlier);
      var events := EventsOf(earlier);
      if op.Insert? {
        CallRuns(events);
      } else if op.count == 0 {
        assert events + [] == events && Numbered(earlier) + [] == Numbered(earlier)
            && Names(earlier) + [] == Names(earlier);
      } else {
        QueueIsAsLong(earlier);
        ReadTaken(P.Run(events), op.count);
        RunOne(events, ReadOf(P.Run(events).rec.queue, op.count));
        assert Names(earlier) + [] == Names(earlier);
      }
    }
  }

  lemma QueueIsAsLong(ops: seq<Op>)
    requires P.Ops(EventsOf(ops)) == Numbered(ops) && Ready(P.Run(EventsOf(ops)))
    ensures |P.Run(EventsOf(ops)).rec.queue| == |ApplyAll(ops).fifo|
  {
    hide P.Run, P.Ops, ApplyAll, Numbered, Names, EventsOf;
    P.QueueIsAtomic(EventsOf(ops));
    NumberedIsSame(ops);
    P.QueueLengths(P.Run(EventsOf(ops)));
  }

  /**
    For every interleaving of producers and readers there is a run of the
    pipeline in which the same pointers, by the positions of their calls, have
    entered the queue, left it and are in it, in the same order.
   */
  lemma ProtocolRunsInPipeline(steps: seq<(D.Task, D.Choice)>)
    ensures var s, ops := D.Run(steps), D.Order(steps);
            var events := EventsOf(ops);
            var q := ApplyAll(P.Ops(events));
            && q.fifo == P.Run(events).queued
            && SameQueue(Queue(s.fifo, s.entered, s.left), q, Names(ops))
  {
    hide D.Run, D.Order, P.Run, P.Ops, EventsOf, ApplyAll, SameQueue, TakesFit, Names, Numbered;
    D.InterleavingIsAtomic(steps);
    OrderFits(steps);
    EventsTaken(D.Order(steps));
    NumberedIsSame(D.Order(steps));
    P.QueueIsAtomic(EventsOf(D.Order(steps)));
  }
}
