/**
  Whole runs: any sequence of hook calls that obeys the kretprobe rule, pid
  changes and reads of the dump file. What the reads return is what the loader
  reads back.
 */
module Pipeline {
  import opened Bytes
  import opened Memory
  import opened Format
  import opened Wrappers
  import opened RecorderSpec
  import opened DumperSpec
  import opened LoaderSpec
  import AtomicQueue

  /** A hooked function the recorded task is inside of and whose post hook will run. */
  datatype Frame = InSyscall | InPut | InCopy | InWrap(snap: Snapshot)

  datatype Event =
    | EnterSyscall(task: int, nr: int, regs: WordRegisters, hasMemory: bool, junk: U64)
    | LeaveSyscall(ax: U64)
    | EnterPut(task: int, to: U64, ax: U64, width: nat, hasMemory: bool)
    | LeavePut(ret: U64)
    | EnterCopy(task: int, from: U64, to: U64, hasMemory: bool, bytes: seq<Byte>)
    | LeaveCopy(ret: U64, bytes: seq<Byte>)
    | EnterWrap(task: int, mem: Mem, region: Region, hasMemory: bool)
    | LeaveWrap(mem: Mem, hasMemory: bool, room: nat)
    | SetPid(pid: int)
    | Read(buffer: seq<Byte>, writable: nat)

  /**
    The recorder, the open frames, and the history: every completed call in
    completion order, and the positions in it of the records that reads
    returned, that are queued, that a full queue dropped and that a short or
    failed read consumed. `output` is everything reads returned.
   */
  datatype System = System(
    rec: State, frames: seq<Frame>, completed: seq<Record>,
    emitted: seq<nat>, queued: seq<nat>, dropped: seq<nat>, consumed: seq<nat>,
    output: seq<Byte>)

  const START: System := System(IDLE, [], [], [], [], [], [], [])

  function Top(frames: seq<Frame>): Option<Frame> {
    if frames == [] then None else Some(frames[|frames| - 1])
  }

  function Pop(frames: seq<Frame>): seq<Frame> {
    if frames == [] then [] else frames[..|frames| - 1]
  }

  /**
    The kretprobe rule: a post hook runs for the innermost open frame. The
    recorded pid changes to another task only while nothing is in flight.
   */
  predicate Enabled(sys: System, e: Event) {
    match e
    case LeaveSyscall(_) => Top(sys.frames) == Some(InSyscall)
    case LeavePut(_) => Top(sys.frames) == Some(InPut)
    case LeaveCopy(_, bytes) =>
      && Top(sys.frames) == Some(InCopy)
      && (sys.rec.pending.Some? ==> |bytes| == |sys.rec.pending.value.bytes|)
    case LeaveWrap(_, _, _) => Top(sys.frames).Some? && Top(sys.frames).value.InWrap?
    case SetPid(pid) => pid == 0 || sys.frames == []
    case _ => true
  }

  // ---- What every run keeps ----

  predicate IsCopyFrame(f: Frame) {
    f.InPut? || f.InCopy?
  }

  function CopyFrames(frames: seq<Frame>): nat {
    if frames == [] then 0
    else CopyFrames(Pop(frames)) + if IsCopyFrame(frames[|frames| - 1]) then 1 else 0
  }

  /**
    A call is being recorded exactly while its frame is open, at the bottom; a
    copy is pending exactly while its frame is open, and there is only one.
   */
  ghost predicate FramesOk(s: State, frames: seq<Frame>) {
    && (frames == [] <==> s.current.None?)
    && (forall i | 0 <= i < |frames| :: frames[i].InSyscall? <==> i == 0)
    && CopyFrames(frames) == (if s.pending.Some? then 1 else 0)
  }

  /** Strictly increasing positions below n. */
  ghost predicate Positions(p: seq<nat>, n: nat) {
    && (forall i | 0 <= i < |p| :: p[i] < n)
    && (forall i, j | 0 <= i < j < |p| :: p[i] < p[j])
  }

  /** The queue holds the completed calls at its positions. */
  ghost predicate QueueOk(sys: System) {
    && Positions(sys.emitted + sys.queued, |sys.completed|)
    && |sys.queued| == |sys.rec.queue| <= QUEUE_CAPACITY
    && forall i | 0 <= i < |sys.queued| ::
         sys.rec.queue[i] == sys.completed[(sys.emitted + sys.queued)[|sys.emitted| + i]]
  }

  /** Every completed call has a fate, and only one. */
  ghost predicate FatesOk(sys: System) {
    && (forall p: nat | p < |sys.completed| ::
          p in sys.emitted || p in sys.queued || p in sys.dropped || p in sys.consumed)
    && |sys.emitted| + |sys.queued| + |sys.dropped| + |sys.consumed| == |sys.completed|
  }

  ghost predicate HistoryOk(sys: System) {
    QueueOk(sys) && FatesOk(sys)
  }

  ghost predicate Inv(sys: System) {
    FramesOk(sys.rec, sys.frames) && HistoryOk(sys)
  }

  function Push(sys: System, entered: (State, bool), f: Frame): System {
    sys.(rec := entered.0, frames := if entered.1 then sys.frames + [f] else sys.frames)
  }

  /** A completed call is queued, or dropped when the queue is full. */
  function Complete(sys: System, ax: U64): System
    requires sys.rec.current.Some?
  {
    var s := sys.(rec := PostSyscall(sys.rec, ax), frames := Pop(sys.frames),
                  completed := sys.completed + [sys.rec.current.value.(ret := ax)]);
    if |sys.rec.queue| < QUEUE_CAPACITY then s.(queued := sys.queued + [|sys.completed|])
    else s.(dropped := sys.dropped + [|sys.completed|])
  }

  /** A read of a non-empty queue. Only records of a read that returns a length count as emitted. */
  function AfterRead(sys: System, buffer: seq<Byte>, writable: nat): System
    requires sys.rec.queue != [] && |sys.queued| == |sys.rec.queue|
  {
    var d := DumpFrom(sys.rec.queue, buffer, 0, writable);
    var good := if d.ret < 0 then 0 else d.written;
    sys.(rec := sys.rec.(queue := sys.rec.queue[d.taken..]),
         emitted := sys.emitted + sys.queued[..good],
         consumed := sys.consumed + sys.queued[good..d.taken],
         queued := sys.queued[d.taken..],
         output := sys.output + if d.ret < 0 then [] else d.buf[..d.ret])
  }

  function Step(sys: System, e: Event): System
    requires Inv(sys) && Enabled(sys, e)
  {
    InFrame(sys);
    match e
    case EnterSyscall(task, nr, regs, hasMemory, junk) =>
      Push(sys, PreSyscall(sys.rec, task, nr, regs, hasMemory, junk), InSyscall)
    case LeaveSyscall(ax) => Complete(sys, ax)
    case EnterPut(task, to, ax, width, hasMemory) =>
      Push(sys, PrePut(sys.rec, task, to, ax, width, hasMemory), InPut)
    case LeavePut(ret) => sys.(rec := PostPut(sys.rec, ret), frames := Pop(sys.frames))
    case EnterCopy(task, from, to, hasMemory, bytes) =>
      Push(sys, PreCopy(sys.rec, task, from, to, hasMemory, bytes), InCopy)
    case LeaveCopy(ret, bytes) => sys.(rec := PostCopy(sys.rec, ret, bytes), frames := Pop(sys.frames))
    case EnterWrap(task, mem, region, hasMemory) =>
      var snap := PreWrap(sys.rec, task, mem, region.Base(), region.Len(), hasMemory);
      if snap.None? then sys else sys.(frames := sys.frames + [InWrap(snap.value)])
    case LeaveWrap(mem, hasMemory, room) =>
      sys.(rec := PostWrap(sys.rec, Top(sys.frames).value.snap, mem, hasMemory, room), frames := Pop(sys.frames))
    case SetPid(pid) => sys.(rec := sys.rec.(pid := pid))
    case Read(buffer, writable) =>
      if sys.rec.queue == [] then sys else AfterRead(sys, buffer, writable)
  }

  /** Inside a frame the globals its post hook dereferences are set. */
  lemma InFrame(sys: System)
    requires FramesOk(sys.rec, sys.frames)
    ensures sys.frames != [] ==> sys.rec.current.Some?
    ensures Top(sys.frames).Some? && IsCopyFrame(Top(sys.frames).value) ==> sys.rec.pending.Some?
  {
  }

  lemma PushKeepsFrames(s: State, s': State, frames: seq<Frame>, f: Frame)
    requires FramesOk(s, frames) && s'.current.Some?
    requires if frames == [] then f.InSyscall? else !f.InSyscall?
    requires s'.pending.Some? <==> s.pending.Some? || IsCopyFrame(f)
    requires s.pending.Some? ==> !IsCopyFrame(f)
    ensures FramesOk(s', frames + [f])
  {
    assert Pop(frames + [f]) == frames;
  }

  lemma PopKeepsFrames(s: State, s': State, frames: seq<Frame>)
    requires FramesOk(s, frames) && frames != []
    requires s'.current.None? <==> frames[|frames| - 1].InSyscall?
    requires s'.pending.Some? <==> s.pending.Some? && !IsCopyFrame(frames[|frames| - 1])
    ensures FramesOk(s', Pop(frames))
  {
    assert frames[|frames| - 1].InSyscall? <==> |frames| == 1;
  }

  /** A hook that asks for its post hook opens a frame; one that does not changes nothing. */
  lemma EnterKeepsFrames(sys: System, e: Event)
    requires Inv(sys) && (e.EnterSyscall? || e.EnterPut? || e.EnterCopy? || e.EnterWrap?)
    ensures FramesOk(Step(sys, e).rec, Step(sys, e).frames)
  {
    hide HistoryOk, CopyFrames, LE, AllMapped, Slice;
    var next := Step(sys, e);
    if next.frames != sys.frames {
      var f := next.frames[|sys.frames|];
      assert next.frames == sys.frames + [f];
      PushKeepsFrames(sys.rec, next.rec, sys.frames, f);
    }
  }

  lemma LeaveKeepsFrames(sys: System, e: Event)
    requires Inv(sys) && Enabled(sys, e) && (e.LeaveSyscall? || e.LeavePut? || e.LeaveCopy? || e.LeaveWrap?)
    ensures FramesOk(Step(sys, e).rec, Step(sys, e).frames)
  {
    hide HistoryOk, CopyFrames, AllMapped, Slice;
    InFrame(sys);
    PopKeepsFrames(sys.rec, Step(sys, e).rec, sys.frames);
  }

  lemma StepKeepsFrames(sys: System, e: Event)
    requires Inv(sys) && Enabled(sys, e)
    ensures FramesOk(Step(sys, e).rec, Step(sys, e).frames)
  {
    if e.EnterSyscall? || e.EnterPut? || e.EnterCopy? || e.EnterWrap? {
      hide Step, Inv;
      EnterKeepsFrames(sys, e);
    } else if e.LeaveSyscall? || e.LeavePut? || e.LeaveCopy? || e.LeaveWrap? {
      hide Step, Inv;
      LeaveKeepsFrames(sys, e);
    } else {
      hide HistoryOk, CopyFrames, DumpFrom;
    }
  }

  lemma CompleteKeepsHistory(sys: System, ax: U64)
    requires HistoryOk(sys) && sys.rec.current.Some?
    ensures HistoryOk(Complete(sys, ax))
  {
    var next := Complete(sys, ax);
    var n := |sys.completed|;
    var p := sys.emitted + sys.queued;
    if |sys.rec.queue| < QUEUE_CAPACITY {
      assert next.emitted + next.queued == p + [n];
      assert n in next.queued by { assert next.queued[|sys.queued|] == n; }
    } else {
      assert n in next.dropped by { assert next.dropped[|sys.dropped|] == n; }
    }
    forall q: nat | q < |next.completed|
      ensures q in next.emitted || q in next.queued || q in next.dropped || q in next.consumed
    {
      assert q < n ==> q in sys.emitted || q in sys.queued || q in sys.dropped || q in sys.consumed;
    }
  }

  lemma CutKeepsPositions(e: seq<nat>, q: seq<nat>, a: nat, b: nat, n: nat)
    requires Positions(e + q, n) && a <= b <= |q|
    ensures Positions((e + q[..a]) + q[b..], n)
  {
    var p := e + q;
    assert (e + q[..a]) + q[b..] == p[..|e| + a] + p[|e| + b..];
  }

  lemma CutKeepsMembers(q: seq<nat>, a: nat, b: nat, x: nat)
    requires a <= b <= |q| && x in q
    ensures x in q[..a] || x in q[a..b] || x in q[b..]
  {
    assert q == q[..a] + q[a..b] + q[b..];
  }

  lemma ReadKeepsQueue(sys: System, buffer: seq<Byte>, writable: nat)
    requires QueueOk(sys) && sys.rec.queue != []
    ensures QueueOk(AfterRead(sys, buffer, writable))
  {
    var d := DumpFrom(sys.rec.queue, buffer, 0, writable);
    var next := AfterRead(sys, buffer, writable);
    hide DumpFrom;
    CutKeepsPositions(sys.emitted, sys.queued, if d.ret < 0 then 0 else d.written, d.taken, |sys.completed|);
    hide Positions;
    forall i | 0 <= i < |next.queued|
      ensures next.rec.queue[i] == next.completed[(next.emitted + next.queued)[|next.emitted| + i]]
    {
      assert (sys.emitted + sys.queued)[|sys.emitted| + (d.taken + i)] == sys.queued[d.taken + i] == next.queued[i];
    }
  }

  lemma ReadKeepsFates(sys: System, buffer: seq<Byte>, writable: nat)
    requires FatesOk(sys) && sys.rec.queue != [] && |sys.queued| == |sys.rec.queue|
    ensures FatesOk(AfterRead(sys, buffer, writable))
  {
    var d := DumpFrom(sys.rec.queue, buffer, 0, writable);
    var next := AfterRead(sys, buffer, writable);
    hide DumpFrom;
    forall p: nat | p < |next.completed|
      ensures p in next.emitted || p in next.queued || p in next.dropped || p in next.consumed
    {
      if p in sys.queued {
        CutKeepsMembers(sys.queued, if d.ret < 0 then 0 else d.written, d.taken, p);
      }
    }
  }

  /** Other events leave the queue and its history alone. */
  lemma OtherKeepsHistory(sys: System, e: Event)
    requires Inv(sys) && Enabled(sys, e) && !e.LeaveSyscall? && !(e.Read? && sys.rec.queue != [])
    ensures var next := Step(sys, e);
            next == sys.(rec := next.rec, frames := next.frames) && next.rec.queue == sys.rec.queue
  {
    hide HistoryOk, CopyFrames, LE, AllMapped, Slice;
  }

  lemma SameHistory(sys: System, next: System)
    requires HistoryOk(sys)
    requires next == sys.(rec := next.rec, frames := next.frames) && next.rec.queue == sys.rec.queue
    ensures HistoryOk(next)
  {
  }

  lemma HistoryKept(sys: System, e: Event)
    requires Inv(sys) && Enabled(sys, e)
    ensures HistoryOk(Step(sys, e))
  {
    hide FramesOk, QueueOk, FatesOk, Complete, AfterRead;
    if e.LeaveSyscall? {
      InFrame(sys);
      CompleteKeepsHistory(sys, e.ax);
    } else if e.Read? && sys.rec.queue != [] {
      QueueLengths(sys);
      ReadKeepsQueue(sys, e.buffer, e.writable);
      ReadKeepsFates(sys, e.buffer, e.writable);
    } else {
      OtherKeepsHistory(sys, e);
      SameHistory(sys, Step(sys, e));
    }
  }

  /** Every step keeps the recorder's globals and the history consistent. */
  lemma StepKeepsInv(sys: System, e: Event)
    requires Inv(sys) && Enabled(sys, e)
    ensures Inv(Step(sys, e))
  {
    hide FramesOk, HistoryOk, Step;
    StepKeepsFrames(sys, e);
    HistoryKept(sys, e);
  }

  /** The system after the events; those that cannot happen where they stand are skipped. */
  function Run(events: seq<Event>): (sys: System)
    ensures Inv(sys)
  {
    if events == [] then START
    else
      var before := Run(events[..|events| - 1]);
      var e := events[|events| - 1];
      if Enabled(before, e) then StepKeepsInv(before, e); Step(before, e) else before
  }

  // ---- The round trip ----

  ghost predicate InRange(positions: seq<nat>, n: nat) {
    forall i | 0 <= i < |positions| :: positions[i] < n
  }

  /** The records at the given positions of the history. */
  ghost function Pick(completed: seq<Record>, positions: seq<nat>): (rs: seq<Record>)
    requires InRange(positions, |completed|)
    ensures |rs| == |positions|
    ensures forall i | 0 <= i < |rs| :: rs[i] == completed[positions[i]]
  {
    seq(|positions|, i requires 0 <= i < |positions| && InRange(positions, |completed|) => completed[positions[i]])
  }

  ghost predicate AllFit(rs: seq<Record>) {
    forall r | r in rs :: Fits32(r) && Fits64(r)
  }

  lemma QueueInRange(sys: System)
    requires QueueOk(sys)
    ensures InRange(sys.emitted, |sys.completed|) && InRange(sys.queued, |sys.completed|)
    ensures sys.rec.queue == Pick(sys.completed, sys.queued)
  {
    var p := sys.emitted + sys.queued;
    assert forall i | 0 <= i < |sys.emitted| :: p[i] == sys.emitted[i];
    assert forall i | 0 <= i < |sys.queued| :: p[|sys.emitted| + i] == sys.queued[i];
  }

  /** Reads have returned exactly the serialization of the emitted records. */
  ghost predicate OutputOk(sys: System)
    requires QueueOk(sys)
  {
    QueueInRange(sys);
    sys.output == SerializeAll(Pick(sys.completed, sys.emitted))
  }

  lemma PickMore(completed: seq<Record>, e: seq<nat>, q: seq<nat>, n: nat)
    requires InRange(e, |completed|) && InRange(q, |completed|) && n <= |q|
    ensures InRange(e + q[..n], |completed|)
    ensures Pick(completed, e + q[..n]) == Pick(completed, e) + Pick(completed, q)[..n]
  {
  }

  /** What a read adds to the output is the serialization of the records it emits. */
  lemma ReadReturns(queue: seq<Record>, buffer: seq<Byte>, writable: nat)
    requires queue != [] && (forall r | r in queue :: Fits32(r))
    ensures var d := DumpFrom(queue, buffer, 0, writable);
            (if d.ret < 0 then [] else d.buf[..d.ret]) ==
            SerializeAll(queue[..if d.ret < 0 then 0 else d.written])
  {
    hide DumpFrom, Fits32;
    if DumpFrom(queue, buffer, 0, writable).ret >= 0 {
      DumpDelivers(queue, buffer, writable);
    } else {
      SerializeNone(queue);
    }
  }

  lemma ReadKeepsOutput(sys: System, buffer: seq<Byte>, writable: nat)
    requires QueueOk(sys) && sys.rec.queue != [] && OutputOk(sys) && AllFit(sys.completed)
    ensures QueueOk(AfterRead(sys, buffer, writable)) && OutputOk(AfterRead(sys, buffer, writable))
  {
    var queue := sys.rec.queue;
    var next := AfterRead(sys, buffer, writable);
    ReadKeepsQueue(sys, buffer, writable);
    QueueInRange(sys);
    QueueInRange(next);
    hide DumpFrom, QueueOk, SerializeAll, Fits32, Fits64, Pick;
    var d := DumpFrom(queue, buffer, 0, writable);
    var good := if d.ret < 0 then 0 else d.written;
    ReadReturns(queue, buffer, writable);
    PickMore(sys.completed, sys.emitted, sys.queued, good);
    SerializeAllAppend(Pick(sys.completed, sys.emitted), queue[..good]);
  }

  lemma CompleteKeepsOutput(sys: System, ax: U64)
    requires HistoryOk(sys) && sys.rec.current.Some? && OutputOk(sys)
    ensures HistoryOk(Complete(sys, ax)) && OutputOk(Complete(sys, ax))
  {
    CompleteKeepsHistory(sys, ax);
    var next := Complete(sys, ax);
    QueueInRange(sys);
    QueueInRange(next);
    hide HistoryOk, QueueOk, FatesOk;
    assert Pick(next.completed, next.emitted) == Pick(sys.completed, sys.emitted);
  }

  lemma StepKeepsOutput(sys: System, e: Event)
    requires Inv(sys) && Enabled(sys, e) && OutputOk(sys) && AllFit(Step(sys, e).completed)
    ensures Inv(Step(sys, e)) && OutputOk(Step(sys, e))
  {
    StepKeepsInv(sys, e);
    InFrame(sys);
    if e.LeaveSyscall? {
      CompleteKeepsOutput(sys, e.ax);
    } else if e.Read? && sys.rec.queue != [] {
      ReadKeepsOutput(sys, e.buffer, e.writable);
    }
  }

  /** Completed calls are only ever added. */
  lemma CompletedGrows(sys: System, e: Event)
    requires Inv(sys) && Enabled(sys, e)
    ensures sys.completed <= Step(sys, e).completed
  {
  }

  lemma {:induction false} OutputIsEmitted(events: seq<Event>)
    requires AllFit(Run(events).completed)
    ensures OutputOk(Run(events))
  {
    if events != [] {
      var earlier := events[..|events| - 1];
      var e := events[|events| - 1];
      var before := Run(earlier);
      if Enabled(before, e) {
        CompletedGrows(before, e);
        OutputIsEmitted(earlier);
        StepKeepsOutput(before, e);
      } else {
        OutputIsEmitted(earlier);
      }
    }
  }

  /**
    Over any run, loading the concatenation of everything reads returned gives
    an in-order subsequence of the completed calls. The calls missing from it
    are those still queued, those a full queue dropped and those a short or
    failed read consumed, each accounted for once.
   */
  lemma ReadsGiveSubsequence(events: seq<Event>)
    requires AllFit(Run(events).completed)
    ensures var s := Run(events);
            && Positions(s.emitted + s.queued, |s.completed|)
            && InRange(s.emitted, |s.completed|)
            && ParseAll(s.output) == Got(LoadedAll(Pick(s.completed, s.emitted)), [], false)
            && FatesOk(s)
  {
    var s := Run(events);
    OutputIsEmitted(events);
    QueueInRange(s);
    RoundTripOf(s.completed, Pick(s.completed, s.emitted));
  }

  lemma RoundTripOf(all: seq<Record>, rs: seq<Record>)
    requires AllFit(all) && forall i | 0 <= i < |rs| :: rs[i] in all
    ensures ParseAll(SerializeAll(rs)) == Got(LoadedAll(rs), [], false)
  {
    hide ParseAll, SerializeAll;
    RoundTrip(rs);
  }

  lemma {:induction false} DensePositions(p: seq<nat>, n: nat, i: nat)
    requires Positions(p, n) && |p| == n && i < n
    ensures i <= p[i]
  {
    if i > 0 {
      DensePositions(p, n, i - 1);
    }
  }

  lemma {:induction false} DensePositionsAbove(p: seq<nat>, n: nat, i: nat)
    requires Positions(p, n) && |p| == n && i < n
    ensures p[i] <= i
    decreases n - i
  {
    if i + 1 < n {
      DensePositionsAbove(p, n, i + 1);
    }
  }

  /**
    When no call was dropped and no read consumed one without returning it,
    the bytes read so far load as exactly the first completed calls, in
    completion order, and the queue holds the others: however the reads split
    the stream and wherever they fell between the hooks.
   */
  lemma PipelineRoundTrip(events: seq<Event>)
    requires AllFit(Run(events).completed)
    requires Run(events).dropped == [] && Run(events).consumed == []
    ensures var s := Run(events);
            var n := |s.completed| - |s.rec.queue|;
            && 0 <= n
            && s.rec.queue == s.completed[n..]
            && s.output == SerializeAll(s.completed[..n])
            && ParseAll(s.output) == Got(LoadedAll(s.completed[..n]), [], false)
  {
    hide Run, ParseAll, SerializeAll, FramesOk, QueueOk, FatesOk, AllFit, Pick;
    OutputIsEmitted(events);
    var s := Run(events);
    var n := |s.completed| - |s.rec.queue|;
    QueueLengths(s);
    QueueInRange(s);
    DenseHistory(s);
    RoundTripOf(s.completed, s.completed[..n]);
  }

  lemma QueueLengths(s: System)
    requires QueueOk(s)
    ensures |s.queued| == |s.rec.queue|
  {
  }

  lemma DenseHistory(s: System)
    requires QueueOk(s) && FatesOk(s) && s.dropped == [] && s.consumed == []
    requires InRange(s.emitted, |s.completed|) && InRange(s.queued, |s.completed|)
    ensures |s.completed| == |s.emitted| + |s.queued|
    ensures Pick(s.completed, s.emitted) == s.completed[..|s.emitted|]
    ensures Pick(s.completed, s.queued) == s.completed[|s.emitted|..]
  {
    var p := s.emitted + s.queued;
    forall i: nat | i < |s.completed|
      ensures p[i] == i
    {
      DensePositions(p, |s.completed|, i);
      DensePositionsAbove(p, |s.completed|, i);
    }
    assert forall i | 0 <= i < |s.emitted| :: p[i] == s.emitted[i];
    assert forall i | 0 <= i < |s.queued| :: p[|s.emitted| + i] == s.queued[i];
  }

  // ---- When no call is lost ----

  /** A completed call finds room in the queue; a read returns all that is queued. */
  ghost predicate LosesNothing(sys: System, e: Event) {
    match e
    case LeaveSyscall(_) => |sys.rec.queue| < QUEUE_CAPACITY
    case Read(buffer, writable) =>
      |SerializeAll(sys.rec.queue)| <= |buffer| && |SerializeAll(sys.rec.queue)| <= writable
    case _ => true
  }

  ghost predicate NeverLoses(events: seq<Event>) {
    if events == [] then true
    else
      var before := Run(events[..|events| - 1]);
      var e := events[|events| - 1];
      NeverLoses(events[..|events| - 1]) && (Enabled(before, e) ==> LosesNothing(before, e))
  }

  ghost predicate NoneLost(sys: System) {
    sys.dropped == [] && sys.consumed == []
  }

  lemma ReadLosesIff(sys: System, buffer: seq<Byte>, writable: nat)
    requires QueueOk(sys) && sys.rec.queue != [] && AllFit(sys.completed)
    ensures AfterRead(sys, buffer, writable).consumed == sys.consumed
            <==> |SerializeAll(sys.rec.queue)| <= |buffer| && |SerializeAll(sys.rec.queue)| <= writable
  {
    QueueInRange(sys);
    hide DumpFrom, SerializeAll, Fits32, Fits64, QueueOk;
    ReadLosesNothingIff(sys.rec.queue, buffer, writable);
  }

  lemma StepOfRead(sys: System, buffer: seq<Byte>, writable: nat)
    requires Inv(sys)
    ensures |sys.queued| == |sys.rec.queue|
    ensures Step(sys, Read(buffer, writable)) == if sys.rec.queue == [] then sys else AfterRead(sys, buffer, writable)
  {
    hide FramesOk, FatesOk, Positions, AfterRead, DumpFrom;
  }

  lemma StepLosesIff(sys: System, e: Event)
    requires Inv(sys) && Enabled(sys, e) && AllFit(sys.completed)
    ensures NoneLost(Step(sys, e)) <==> NoneLost(sys) && LosesNothing(sys, e)
  {
    InFrame(sys);
    if e.Read? {
      if sys.rec.queue == [] {
        assert |SerializeAll([])| == 0;
      } else {
        ReadLosesIff(sys, e.buffer, e.writable);
      }
    }
    hide FramesOk, HistoryOk, SerializeAll, DumpFrom, AllFit;
  }

  /**
    Over any run, no call is dropped or consumed if and only if each call that
    completed found the queue not full and each read had room for everything
    queued.
   */
  lemma {:induction false} NothingIsLostIff(events: seq<Event>)
    requires AllFit(Run(events).completed)
    ensures NoneLost(Run(events)) <==> NeverLoses(events)
  {
    if events != [] {
      var earlier := events[..|events| - 1];
      var e := events[|events| - 1];
      var before := Run(earlier);
      hide Enabled, Step, LosesNothing, NoneLost, SerializeAll;
      if Enabled(before, e) {
        CompletedGrows(before, e);
        StepLosesIff(before, e);
      }
      NothingIsLostIff(earlier);
    }
  }

  // ---- Records a short write leaves behind ----

  predicate StopsShort(sys: System, e: Event) {
    e.Read? && sys.rec.queue != [] && DumpFrom(sys.rec.queue, e.buffer, 0, e.writable).StoppedShort()
  }

  /** How many reads of the run stopped at a record that did not fit. */
  function ShortStops(events: seq<Event>): nat {
    if events == [] then 0
    else
      var earlier, e := events[..|events| - 1], events[|events| - 1];
      ShortStops(earlier) + if StopsShort(Run(earlier), e) then 1 else 0
  }

  // ---- The atomic queue ----

  /** The queue operation an event is; calls are named by their positions in completion order. */
  function OpOf(sys: System, e: Event): seq<AtomicQueue.Op> {
    if !Enabled(sys, e) then []
    else if e.LeaveSyscall? then [AtomicQueue.Insert(|sys.completed|)]
    else if e.Read? && sys.rec.queue != []
    then [AtomicQueue.Take(DumpFrom(sys.rec.queue, e.buffer, 0, e.writable).taken)]
    else []
  }

  function Ops(events: seq<Event>): seq<AtomicQueue.Op> {
    if events == [] then []
    else Ops(events[..|events| - 1]) + OpOf(Run(events[..|events| - 1]), events[|events| - 1])
  }

  lemma OpKeepsQueue(sys: System, e: Event, ops: seq<AtomicQueue.Op>)
    requires Inv(sys) && Enabled(sys, e) && AtomicQueue.ApplyAll(ops).fifo == sys.queued
    ensures AtomicQueue.ApplyAll(ops + OpOf(sys, e)).fifo == Step(sys, e).queued
  {
    hide FramesOk, QueueOk, FatesOk, DumpFrom, AtomicQueue.ApplyAll, AtomicQueue.Apply;
    InFrame(sys);
    assert ops + [] == ops;
    if e.LeaveSyscall? {
      QueueLengths(sys);
      AtomicQueue.InsertOne(ops, |sys.completed|);
    } else if e.Read? && sys.rec.queue != [] {
      StepOfRead(sys, e.buffer, e.writable);
      TakeSome(ops, DumpFrom(sys.rec.queue, e.buffer, 0, e.writable).taken);
    }
  }

  lemma TakeSome(ops: seq<AtomicQueue.Op>, n: nat)
    requires n <= |AtomicQueue.ApplyAll(ops).fifo|
    ensures AtomicQueue.ApplyAll(ops + [AtomicQueue.Take(n)]).fifo == AtomicQueue.ApplyAll(ops).fifo[n..]
  {
    hide AtomicQueue.ApplyAll;
    AtomicQueue.OneMoreOp(ops, AtomicQueue.Take(n));
  }

  /** Over any run the pipeline's queue holds what whole insertions and whole reads leave in it. */
  lemma {:induction false} QueueIsAtomic(events: seq<Event>)
    ensures AtomicQueue.ApplyAll(Ops(events)).fifo == Run(events).queued
  {
    if events != [] {
      var earlier, e := events[..|events| - 1], events[|events| - 1];
      QueueIsAtomic(earlier);
      hide Step, Inv, AtomicQueue.ApplyAll;
      if Enabled(Run(earlier), e) {
        OpKeepsQueue(Run(earlier), e, Ops(earlier));
      } else {
        assert Ops(earlier) + [] == Ops(earlier);
      }
    }
  }
}
