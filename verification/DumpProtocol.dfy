/**
  The lock and wait protocol around the record FIFO: any number of tasks
  finishing recorded calls and any number of readers of the dump file, one step
  at a time in any interleaving. Wake-ups and signals may come at any point.
 */
module DumpProtocol {
  import opened AtomicQueue
  import opened Wrappers
  import RecorderSpec

  type Task = nat

  /** Where a task is in post_syscall or read_proc. */
  datatype Pc =
    | Outside
    | ProducerWaits(record: Pointer)     // before mutex_lock
    | ProducerHolds(record: Pointer)     // before kfifo_in
    | ProducerDone                       // before mutex_unlock
    | ReaderWaits                        // before mutex_lock, first or after waking up
    | ReaderChecks                       // before kfifo_is_empty
    | ReaderFoundEmpty                   // before mutex_unlock inside the wait loop
    | ReaderReleased                     // before the O_NONBLOCK test
    | ReaderSleeps                       // in schedule
    | ReaderDumps                        // before dump_single_record
    | ReaderDumped                       // after a whole record, before kfifo_is_empty
    | ReaderDone(stopped: bool)          // before the last mutex_unlock; stopped by a short or faulting write

  predicate Holds(pc: Pc) {
    pc.ProducerHolds? || pc.ProducerDone? || pc.ReaderChecks? || pc.ReaderFoundEmpty?
    || pc.ReaderDumps? || pc.ReaderDumped? || pc.ReaderDone?
  }

  /** The next step touches the FIFO. */
  predicate TouchesFifo(pc: Pc) {
    pc.ProducerHolds? || pc.ReaderChecks? || pc.ReaderDumps? || pc.ReaderDumped?
  }

  /** entered and left: every pointer ever inserted and removed, in order. */
  datatype System = System(pcs: map<Task, Pc>, lock: Option<Task>, fifo: seq<Pointer>,
                           entered: seq<Pointer>, left: seq<Pointer>)

  const START: System := System(map[], None, [], [], [])

  function PcOf(s: System, t: Task): Pc {
    if t in s.pcs then s.pcs[t] else Outside
  }

  /** What the scheduler, the file flags, signals and the reader's buffer decide. */
  datatype Choice =
    | Finish(record: Pointer)   // a recorded call ends
    | Open                      // a read begins
    | Go                        // the task's only next step
    | Block | NoBlock           // O_NONBLOCK clear or set
    | Wake | Signal             // schedule returns
    | Whole | Stop              // the record was written whole; or it was short or faulted

  function Move(s: System, t: Task, pc: Pc): System {
    s.(pcs := s.pcs[t := pc])
  }

  /** One step of task t; a choice that does not apply where t is changes nothing. */
  function Step(s: System, t: Task, c: Choice): System {
    match PcOf(s, t)
    case Outside =>
      if c.Finish? then Move(s, t, ProducerWaits(c.record))
      else if c.Open? then Move(s, t, ReaderWaits)
      else s
    case ProducerWaits(record) =>
      if c.Go? && s.lock.None? then Move(s.(lock := Some(t)), t, ProducerHolds(record)) else s
    case ProducerHolds(record) =>
      if !c.Go? then s
      else if |s.fifo| < RecorderSpec.QUEUE_CAPACITY
      then Move(s.(fifo := s.fifo + [record], entered := s.entered + [record]), t, ProducerDone)
      else Move(s, t, ProducerDone)
    case ProducerDone => if c.Go? then Move(s.(lock := None), t, Outside) else s
    case ReaderWaits =>
      if c.Go? && s.lock.None? then Move(s.(lock := Some(t)), t, ReaderChecks) else s
    case ReaderChecks =>
      if c.Go? then Move(s, t, if s.fifo == [] then ReaderFoundEmpty else ReaderDumps) else s
    case ReaderFoundEmpty => if c.Go? then Move(s.(lock := None), t, ReaderReleased) else s
    case ReaderReleased =>
      if c.NoBlock? then Move(s, t, Outside) else if c.Block? then Move(s, t, ReaderSleeps) else s
    case ReaderSleeps =>
      if c.Signal? then Move(s, t, Outside) else if c.Wake? then Move(s, t, ReaderWaits) else s
    case ReaderDumps =>
      if !c.Whole? && !c.Stop? then s
      else
        var next := if c.Whole? then ReaderDumped else ReaderDone(true);
        if s.fifo == [] then Move(s, t, next)
        else Move(s.(fifo := s.fifo[1..], left := s.left + [s.fifo[0]]), t, next)
    case ReaderDumped =>
      if c.Go? then Move(s, t, if s.fifo == [] then ReaderDone(false) else ReaderDumps) else s
    case ReaderDone(_) => if c.Go? then Move(s.(lock := None), t, Outside) else s
  }

  /**
    What a reader has seen of the FIFO still holds: it found it empty, or not,
    or has written all there was.
   */
  predicate SeesFifo(pc: Pc, fifo: seq<Pointer>) {
    match pc
    case ReaderFoundEmpty => fifo == []
    case ReaderDumps => fifo != []
    case ReaderDone(stopped) => stopped || fifo == []
    case _ => true
  }

  /**
    The lock belongs to exactly the task that is between locking and unlocking,
    a reader waits or finishes only at an empty FIFO and dumps only from a
    non-empty one, and the FIFO holds what was inserted and not yet removed, in
    order.
   */
  ghost predicate Safe(s: System) {
    && (forall t: Task :: SafeAt(s, t))
    && |s.fifo| <= RecorderSpec.QUEUE_CAPACITY
    && s.entered == s.left + s.fifo
  }

  ghost predicate SafeAt(s: System, t: Task) {
    && (Holds(PcOf(s, t)) <==> s.lock == Some(t))
    && SeesFifo(PcOf(s, t), s.fifo)
  }

  lemma StepKeepsSafe(s: System, t: Task, c: Choice)
    requires Safe(s)
    ensures Safe(Step(s, t, c))
  {
    hide Step, SafeAt;
    forall u: Task
      ensures SafeAt(Step(s, t, c), u)
    {
      assert SafeAt(s, t) && SafeAt(s, u);
      StepKeepsSafeAt(s, t, c, u);
    }
    StepMovesFifo(s, t, c);
  }

  lemma StepKeepsSafeAt(s: System, t: Task, c: Choice, u: Task)
    requires SafeAt(s, t) && SafeAt(s, u)
    ensures SafeAt(Step(s, t, c), u)
  {
  }

  lemma StepMovesFifo(s: System, t: Task, c: Choice)
    requires |s.fifo| <= RecorderSpec.QUEUE_CAPACITY && s.entered == s.left + s.fifo
    ensures var s' := Step(s, t, c); |s'.fifo| <= RecorderSpec.QUEUE_CAPACITY && s'.entered == s'.left + s'.fifo
  {
  }

  /** The system after any interleaved steps is safe. */
  function Run(steps: seq<(Task, Choice)>): (s: System)
    ensures Safe(s)
  {
    if steps == [] then START
    else
      var before := Run(steps[..|steps| - 1]);
      var (t, c) := steps[|steps| - 1];
      StepKeepsSafe(before, t, c);
      Step(before, t, c)
  }

  /** No two tasks are ever both about to touch the FIFO, and a reader or producer outside holds no lock. */
  lemma MutualExclusion(steps: seq<(Task, Choice)>, t: Task, u: Task)
    ensures TouchesFifo(PcOf(Run(steps), t)) && TouchesFifo(PcOf(Run(steps), u)) ==> t == u
    ensures PcOf(Run(steps), t) == Outside ==> Run(steps).lock != Some(t)
  {
    var s := Run(steps);
    assert SafeAt(s, t);
    assert SafeAt(s, u);
  }

  /**
    From locking to unlocking, a task has the FIFO to itself: whatever steps
    other tasks take in between, they insert and remove nothing and it keeps the
    lock. So a whole read, and a whole insertion, happens as if in one step.
   */
  lemma {:induction false} LockedSectionIsAtomic(steps: seq<(Task, Choice)>, others: seq<(Task, Choice)>, t: Task)
    requires Holds(PcOf(Run(steps), t)) && forall i | 0 <= i < |others| :: others[i].0 != t
    ensures var s, s' := Run(steps), Run(steps + others);
            && s'.fifo == s.fifo && s'.entered == s.entered && s'.left == s.left
            && s'.lock == Some(t) && PcOf(s', t) == PcOf(s, t)
    decreases |others|
  {
    var s := Run(steps);
    assert SafeAt(s, t);
    if others == [] {
      assert steps + others == steps;
    } else {
      var (u, c) := others[|others| - 1];
      var earlier := steps + others[..|others| - 1];
      assert (steps + others)[..|steps + others| - 1] == earlier && (steps + others)[|steps + others| - 1] == (u, c);
      assert Run(steps + others) == Step(Run(earlier), u, c);
      hide Run;
      LockedSectionIsAtomic(steps, others[..|others| - 1], t);
      OthersWait(Run(earlier), t, u, c);
    }
  }

  lemma OthersWait(s: System, t: Task, u: Task, c: Choice)
    requires Safe(s) && Holds(PcOf(s, t)) && u != t
    ensures var s' := Step(s, u, c);
            s'.fifo == s.fifo && s'.entered == s.entered && s'.left == s.left && s'.lock == s.lock
                && PcOf(s', t) == PcOf(s, t)
  {
    assert SafeAt(s, t);
    assert SafeAt(s, u);
  }

  /**
    dump_single_record only ever runs with the lock held and a record in the
    FIFO, so its kfifo_out delivers: the pointer it gets is the oldest one that
    was inserted and not yet removed.
   */
  lemma DumpAlwaysFindsARecord(steps: seq<(Task, Choice)>, t: Task, c: Choice)
    requires PcOf(Run(steps), t) == ReaderDumps && (c.Whole? || c.Stop?)
    ensures var s := Run(steps);
            var s' := Run(steps + [(t, c)]);
            && s.lock == Some(t) && s.fifo != []
            && s'.left == s.left + [s.entered[|s.left|]] && s'.entered == s.entered
  {
    hide Run, Step, Safe;
    RunOneMore(steps, t, c);
    DumpStep(Run(steps), t, c);
  }

  lemma RunOneMore(steps: seq<(Task, Choice)>, t: Task, c: Choice)
    ensures Safe(Run(steps)) && Run(steps + [(t, c)]) == Step(Run(steps), t, c)
  {
    hide Safe, Step;
    assert (steps + [(t, c)])[..|steps|] == steps;
  }

  lemma DumpStep(s: System, t: Task, c: Choice)
    requires Safe(s) && PcOf(s, t) == ReaderDumps && (c.Whole? || c.Stop?)
    ensures s.lock == Some(t) && s.fifo != [] && |s.left| < |s.entered|
    ensures var s' := Step(s, t, c); s'.left == s.left + [s.entered[|s.left|]] && s'.entered == s.entered
  {
    assert SafeAt(s, t);
    assert s.entered[|s.left|] == s.fifo[0];
  }

  lemma StepGrows(s: System, t: Task, c: Choice)
    ensures s.left <= Step(s, t, c).left && s.entered <= Step(s, t, c).entered
  {
  }

  /** What has left the FIFO is a prefix of what entered it, and stays one: each pointer once, in order. */
  lemma {:induction false} LeftIsPrefixOfEntered(steps: seq<(Task, Choice)>, later: seq<(Task, Choice)>)
    ensures Run(steps).left <= Run(steps + later).left <= Run(steps + later).entered
    ensures Run(steps).entered <= Run(steps + later).entered
    decreases |later|
  {
    if later == [] {
      assert steps + later == steps;
    } else {
      var (t, c) := later[|later| - 1];
      var earlier := steps + later[..|later| - 1];
      LeftIsPrefixOfEntered(steps, later[..|later| - 1]);
      assert (steps + later)[..|steps + later| - 1] == earlier && (steps + later)[|steps + later| - 1] == (t, c);
      assert Run(steps + later) == Step(Run(earlier), t, c);
      hide Run, Step;
      StepGrows(Run(earlier), t, c);
    }
  }

  // ---- One whole read, one whole insertion ----

  lemma RunOn(steps: seq<(Task, Choice)>, more: seq<(Task, Choice)>, t: Task, c: Choice)
    ensures Run(steps + (more + [(t, c)])) == Step(Run(steps + more), t, c)
    ensures Safe(Run(steps + more)) && steps + [] == steps
  {
    hide Step, Safe;
    assert steps + (more + [(t, c)]) == (steps + more) + [(t, c)];
    RunOneMore(steps + more, t, c);
  }

  /** A reader that has locked the FIFO looks, and writes n records whole. */
  function ReadSteps(t: Task, n: nat): seq<(Task, Choice)> {
    if n == 0 then [(t, Go)] else ReadSteps(t, n - 1) + [(t, Whole)] + [(t, Go)]
  }

  /**
    A reader that holds the lock of a non-empty FIFO takes its records one by
    one, the oldest first. It goes on as long as there are any, and is done
    after the last one.
   */
  lemma {:induction false} ReadTakesOldest(steps: seq<(Task, Choice)>, t: Task, n: nat)
    requires PcOf(Run(steps), t) == ReaderChecks && Run(steps).fifo != [] && n <= |Run(steps).fifo|
    ensures var s, s' := Run(steps), Run(steps + ReadSteps(t, n));
            && s'.left == s.left + s.fifo[..n] && s'.fifo == s.fifo[n..] && s'.entered == s.entered
            && PcOf(s', t) == if n < |s.fifo| then ReaderDumps else ReaderDone(false)
  {
    hide Run, Safe;
    if n == 0 {
      RunOn(steps, [], t, Go);
      assert ReadSteps(t, 0) == [] + [(t, Go)];
    } else {
      var earlier := ReadSteps(t, n - 1);
      ReadTakesOldest(steps, t, n - 1);
      RunOn(steps, earlier, t, Whole);
      RunOn(steps, earlier + [(t, Whole)], t, Go);
      var s := Run(steps);
      assert s.fifo[n - 1..][1..] == s.fifo[n..] && s.fifo[..n] == s.fifo[..n - 1] + [s.fifo[n - 1]];
      hide ReadSteps;
      TakesOne(Run(steps + earlier), t);
    }
  }

  lemma TakesOne(s: System, t: Task)
    requires PcOf(s, t) == ReaderDumps && s.fifo != []
    ensures var s' := Step(Step(s, t, Whole), t, Go);
            && s'.left == s.left + [s.fifo[0]] && s'.fifo == s.fifo[1..] && s'.entered == s.entered
            && PcOf(s', t) == if s.fifo[1..] == [] then ReaderDone(false) else ReaderDumps
  {
  }

  /**
    A read that stops at a record has taken it as well, takes no further one,
    and returns without the lock. So does a read that is done.
   */
  lemma ReadStops(steps: seq<(Task, Choice)>, t: Task, n: nat)
    requires PcOf(Run(steps), t) == ReaderChecks && n < |Run(steps).fifo|
    ensures var s, s' := Run(steps), Run(steps + (ReadSteps(t, n) + [(t, Stop)]));
            && s'.left == s.left + s.fifo[..n + 1] && s'.fifo == s.fifo[n + 1..]
            && PcOf(s', t) == ReaderDone(true) && Returned(s', Step(s', t, Go), t)
    ensures var s' := Run(steps + ReadSteps(t, |Run(steps).fifo|)); Returned(s', Step(s', t, Go), t)
  {
    hide Run, Safe, ReadSteps;
    ReadTakesOldest(steps, t, n);
    ReadTakesOldest(steps, t, |Run(steps).fifo|);
    RunOn(steps, ReadSteps(t, n), t, Stop);
    var s := Run(steps);
    assert s.fifo[n..][1..] == s.fifo[n + 1..] && s.fifo[..n + 1] == s.fifo[..n] + [s.fifo[n]];
  }

  /** The task has left the function, without the lock and with the FIFO as it was. */
  predicate Returned(s: System, s': System, t: Task) {
    PcOf(s', t) == Outside && s'.lock == None && s'.fifo == s.fifo && s'.left == s.left && s'.entered == s.entered
  }

  /** A read of an empty FIFO takes nothing when it may not block, or at a signal; a wake-up has it look again. */
  lemma EmptyRead(s: System, t: Task)
    requires PcOf(s, t) == ReaderFoundEmpty
    ensures var released := Step(s, t, Go);
            && Returned(s, Step(released, t, NoBlock), t)
            && var asleep := Step(released, t, Block);
               && asleep.lock == None && Returned(s, Step(asleep, t, Signal), t)
               && PcOf(Step(Step(asleep, t, Wake), t, Go), t) == ReaderChecks
  {
  }

  /** Before a read has taken its first record. */
  predicate StillWaiting(pc: Pc) {
    pc.ReaderWaits? || pc.ReaderChecks? || pc.ReaderFoundEmpty? || pc.ReaderReleased? || pc.ReaderSleeps?
    || pc.ReaderDumps?
  }

  predicate EndsWait(c: Choice) {
    c.NoBlock? || c.Signal? || c.Whole? || c.Stop?
  }

  /** A blocking read that no signal reaches does not return before it has taken a record. */
  lemma {:induction false} BlockingReadWaits(steps: seq<(Task, Choice)>, more: seq<(Task, Choice)>, t: Task)
    requires StillWaiting(PcOf(Run(steps), t)) && forall i | 0 <= i < |more| && more[i].0 == t :: !EndsWait(more[i].1)
    ensures StillWaiting(PcOf(Run(steps + more), t))
    decreases |more|
  {
    hide Run, Safe;
    if more == [] {
      RunOn(steps, [], t, Go);
    } else {
      var earlier := more[..|more| - 1];
      var (u, c) := more[|more| - 1];
      assert more == earlier + [(u, c)] && more[|more| - 1].0 == u;
      BlockingReadWaits(steps, earlier, t);
      RunOn(steps, earlier, u, c);
    }
  }

  /** A finished call locks, inserts its record behind the others unless the FIFO is full, and unlocks. */
  lemma InsertionSteps(s: System, t: Task, record: Pointer)
    requires PcOf(s, t) == Outside && s.lock == None
    ensures var s' := Step(Step(Step(Step(s, t, Finish(record)), t, Go), t, Go), t, Go);
            && PcOf(s', t) == Outside && s'.lock == None && s'.left == s.left
            && s'.fifo == (if |s.fifo| < 4096 then s.fifo + [record] else s.fifo)
  {
  }

  // ---- The atomic queue ----

  /** A read that has begun to take records. */
  predicate Reading(pc: Pc) {
    pc.ReaderDumps? || pc.ReaderDumped?
  }

  /** The insertion or read the step is, or is part of, in the order they take effect. */
  function Commit(ops: seq<Op>, s: System, t: Task, c: Choice): seq<Op> {
    match PcOf(s, t)
    case ProducerHolds(record) => if c.Go? then ops + [Insert(record)] else ops
    case ReaderChecks => if c.Go? && s.fifo != [] then ops + [Take(0)] else ops
    case ReaderDumps =>
      if (c.Whole? || c.Stop?) && EndsInRead(ops) then TakingOneMore(ops) else ops
    case _ => ops
  }

  function Order(steps: seq<(Task, Choice)>): seq<Op> {
    if steps == [] then []
    else
      var before := steps[..|steps| - 1];
      var (t, c) := steps[|steps| - 1];
      Commit(Order(before), Run(before), t, c)
  }

  /** The system's FIFO is the atomic queue's, and a read in progress is its latest operation. */
  ghost predicate InStep(s: System, ops: seq<Op>) {
    && ApplyAll(ops) == Queue(s.fifo, s.entered, s.left)
    && (forall t: Task :: Reading(PcOf(s, t)) ==> EndsInRead(ops))
  }

  lemma StepKeepsInStep(s: System, ops: seq<Op>, t: Task, c: Choice)
    requires Safe(s) && InStep(s, ops)
    ensures InStep(Step(s, t, c), Commit(ops, s, t, c))
  {
    var s', ops' := Step(s, t, c), Commit(ops, s, t, c);
    hide ApplyAll, Apply;
    assert SafeAt(s, t);
    assert PcOf(s, t) == ReaderDumps ==> Reading(PcOf(s, t));
    StepApplies(s, ops, t, c);
    forall u: Task | Reading(PcOf(s', u))
      ensures EndsInRead(ops')
    {
      assert SafeAt(s, u);
      assert SafeAt(s, t);
      assert Reading(PcOf(s, u)) ==> EndsInRead(ops);
      assert u != t ==> PcOf(s', u) == PcOf(s, u);
    }
  }

  lemma StepApplies(s: System, ops: seq<Op>, t: Task, c: Choice)
    requires ApplyAll(ops) == Queue(s.fifo, s.entered, s.left)
    requires PcOf(s, t) == ReaderDumps ==> s.fifo != [] && EndsInRead(ops)
    ensures var s' := Step(s, t, c); ApplyAll(Commit(ops, s, t, c)) == Queue(s'.fifo, s'.entered, s'.left)
  {
    hide ApplyAll, Apply, TakingOneMore, EndsInRead;
    var pc := PcOf(s, t);
    if pc.ProducerHolds? {
      InsertOne(ops, pc.record);
    } else if pc.ReaderChecks? {
      TakeNone(ops);
    } else if pc.ReaderDumps? {
      TakeOneMore(ops);
    }
  }

  /**
    However the steps of producers and readers interleave, what entered and
    left the FIFO, and what is in it, is the result of whole insertions and
    whole reads one after the other.
   */
  lemma {:induction false} InterleavingIsAtomic(steps: seq<(Task, Choice)>)
    ensures InStep(Run(steps), Order(steps))
  {
    if steps != [] {
      var before := steps[..|steps| - 1];
      InterleavingIsAtomic(before);
      var (t, c) := steps[|steps| - 1];
      hide InStep, Step, Commit, Safe;
      StepKeepsInStep(Run(before), Order(before), t, c);
    }
  }
}
