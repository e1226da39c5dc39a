/**
  The hook events of a process's system calls, and what the pipeline makes of
  them: each call completes with one record, whatever other tasks' hooks and
  reads of the dump come in between.
 */
module CallEvents {
  import opened Bytes
  import opened Memory
  import opened Format
  import opened Wrappers
  import opened RecorderSpec
  import opened SnapshotDiff
  import opened SyscallPatch
  import P = Pipeline

  // ---- The events of a call ----

  /** The hooks around an act; without memory for the copy the pre hook asks for no post hook. */
  function ActEvents(task: int, act: Act): seq<P.Event> {
    match act
    case CopyOut(from, to, bytes, ret, hasMemory, junk) =>
      [P.EnterCopy(task, from, to, hasMemory, junk)] + if hasMemory then [P.LeaveCopy(ret, bytes)] else []
    case PutUser(to, value, width, ret, hasMemory) =>
      [P.EnterPut(task, to, value, width, hasMemory)] + if hasMemory then [P.LeavePut(ret)] else []
    case Store(_, _) => []
  }

  function ActsEvents(task: int, acts: seq<Act>): seq<P.Event> {
    if acts == [] then [] else ActsEvents(task, acts[..|acts| - 1]) + ActEvents(task, acts[|acts| - 1])
  }

  /** The region's snapshot can be taken. */
  predicate HasSnapshot(m: Mem, body: Body)
    requires body.region.Some?
  {
    body.allocs.snapshot && AllMapped(m, body.region.value.Base(), body.region.value.Len())
  }

  /**
    The wrapped function's hooks around its acts; without a region there are
    none. The post hook runs when the snapshot could be taken.
   */
  function RegionEvents(task: int, m: Mem, body: Body): seq<P.Event> {
    if body.region.None? then []
    else
      [P.EnterWrap(task, m, body.region.value, body.allocs.snapshot)] + ActsEvents(task, body.during)
      + if HasSnapshot(m, body) then [P.LeaveWrap(Stored(m, body.during), body.allocs.again, body.allocs.entries)]
        else []
  }

  function BodyEvents(task: int, m: Mem, body: Body): seq<P.Event> {
    ActsEvents(task, body.before) + RegionEvents(task, Stored(m, body.before), body) + ActsEvents(task, body.after)
  }

  /** One call: the registers and memory it is entered with, its body, its return value and the memory it leaves. */
  datatype Call = Call(regs: WordRegisters, mem: Mem, body: Body, ret: U64, junk: U64, after: Mem) {
    /** What the call's record will be. */
    function Recorded(): Record {
      Record(regs, ret, BodyCopies(mem, body))
    }

    ghost predicate WellFormed() {
      && body.WellFormed()
      && (body.region.Some? ==> body.region.value.userRegs == regs)
      && regs.orig_rax != EXECVE && regs.orig_rax != EXIT && regs.orig_rax != EXIT_GROUP
    }
  }

  function CallEvents(task: int, c: Call): seq<P.Event> {
    [P.EnterSyscall(task, c.regs.orig_rax, c.regs, true, c.junk)] + BodyEvents(task, c.mem, c.body)
    + [P.LeaveSyscall(c.ret)]
  }

  function AllEvents(task: int, cs: seq<Call>): seq<P.Event> {
    if cs == [] then [] else AllEvents(task, cs[..|cs| - 1]) + CallEvents(task, cs[|cs| - 1])
  }

  function AllRecorded(cs: seq<Call>): (rs: seq<Record>)
    ensures |rs| == |cs| && forall i | 0 <= i < |rs| :: rs[i] == cs[i].Recorded()
  {
    seq(|cs|, i requires 0 <= i < |cs| => cs[i].Recorded())
  }

  // ---- Running them ----

  /** The pipeline from a state on. */
  function Continue(sys: P.System, events: seq<P.Event>): (sys': P.System)
    requires P.Inv(sys)
    ensures P.Inv(sys')
  {
    if events == [] then sys
    else
      var before := Continue(sys, events[..|events| - 1]);
      var e := events[|events| - 1];
      if P.Enabled(before, e) then P.StepKeepsInv(before, e); P.Step(before, e) else before
  }

  lemma {:induction false} RunIsContinue(events: seq<P.Event>)
    ensures P.Inv(P.START) && P.Run(events) == Continue(P.START, events)
  {
    assert P.Run([]) == P.START;
    if events != [] {
      RunIsContinue(events[..|events| - 1]);
    }
  }

  lemma ContinueOne(sys: P.System, events: seq<P.Event>, e: P.Event)
    requires P.Inv(sys)
    ensures var before := Continue(sys, events);
            Continue(sys, events + [e]) == if P.Enabled(before, e) then P.Step(before, e) else before
    ensures Continue(sys, []) == sys
  {
    hide P.Inv, P.Enabled, P.Step;
    assert (events + [e])[..|events|] == events;
  }

  lemma {:induction false} ContinueAppend(sys: P.System, a: seq<P.Event>, b: seq<P.Event>)
    requires P.Inv(sys)
    ensures Continue(sys, a + b) == Continue(Continue(sys, a), b)
  {
    hide P.Inv, P.Enabled, P.Step;
    if b == [] {
      assert a + b == a;
    } else {
      ContinueAppend(sys, a, b[..|b| - 1]);
      assert (a + b)[..|a + b| - 1] == a + b[..|b| - 1];
    }
  }

  /** In the middle of a recorded call of the task: innermost is the call itself or a wrapped function. */
  ghost predicate Inside(sys: P.System, task: int) {
    && P.Inv(sys) && Recording(sys.rec, task)
    && sys.frames != [] && !P.IsCopyFrame(sys.frames[|sys.frames| - 1])
  }

  /** A hook that runs to its end: the frame it began is closed again. */
  lemma TwoSteps(sys: P.System, a: P.Event, b: P.Event)
    requires P.Inv(sys) && P.Enabled(sys, a)
    ensures P.Inv(P.Step(sys, a))
    ensures P.Enabled(P.Step(sys, a), b) ==> Continue(sys, [a, b]) == P.Step(P.Step(sys, a), b)
  {
    hide P.Inv, P.Enabled, P.Step, Continue;
    assert [] + [a] == [a] && [a] + [b] == [a, b];
    ContinueOne(sys, [], a);
    ContinueOne(sys, [a], b);
    P.StepKeepsInv(sys, a);
  }

  lemma OneStep(sys: P.System, a: P.Event)
    requires P.Inv(sys)
    ensures Continue(sys, [a]) == if P.Enabled(sys, a) then P.Step(sys, a) else sys
  {
    hide P.Inv, P.Enabled, P.Step, Continue;
    assert [] + [a] == [a];
    ContinueOne(sys, [], a);
  }

  lemma CopyRuns(sys: P.System, task: int, act: Act)
    requires Inside(sys, task) && act.CopyOut? && act.WellFormed()
    ensures Continue(sys, ActEvents(task, act)) == sys.(rec := AddCopies(sys.rec, HookedOne(act)))
  {
    hide P.Inv, Continue;
    AddTwice(sys.rec, [], []);
    var events := ActEvents(task, act);
    if act.hasMemory {
      assert events == [events[0], events[1]];
      TwoSteps(sys, events[0], events[1]);
      assert P.Pop(sys.frames + [P.InCopy]) == sys.frames;
    } else {
      assert events == [events[0]];
      OneStep(sys, events[0]);
    }
  }

  lemma PutRuns(sys: P.System, task: int, act: Act)
    requires Inside(sys, task) && act.PutUser?
    ensures Continue(sys, ActEvents(task, act)) == sys.(rec := AddCopies(sys.rec, HookedOne(act)))
  {
    hide P.Inv, Continue, LE;
    AddTwice(sys.rec, [], []);
    var events := ActEvents(task, act);
    if act.hasMemory {
      assert events == [events[0], events[1]];
      TwoSteps(sys, events[0], events[1]);
      assert P.Pop(sys.frames + [P.InPut]) == sys.frames;
    } else {
      assert events == [events[0]];
      OneStep(sys, events[0]);
    }
  }

  lemma ActRuns(sys: P.System, task: int, act: Act)
    requires Inside(sys, task) && act.WellFormed()
    ensures Continue(sys, ActEvents(task, act)) == sys.(rec := AddCopies(sys.rec, HookedOne(act)))
  {
    hide P.Inv;
    match act {
      case CopyOut(_, _, _, _, _, _) => CopyRuns(sys, task, act);
      case PutUser(_, _, _, _, _) => PutRuns(sys, task, act);
      case Store(_, _) => AddTwice(sys.rec, [], []);
    }
  }

  /** While a copy is pending the hooks entered in it are refused. */
  lemma {:induction false} InnerHooksAreRefused(sys: P.System, inner: seq<P.Event>)
    requires P.Inv(sys) && sys.rec.pending.Some? && forall e | e in inner :: e.EnterCopy? || e.EnterPut?
    ensures Continue(sys, inner) == sys
  {
    hide P.Inv;
    if inner != [] {
      var e := inner[|inner| - 1];
      InnerHooksAreRefused(sys, inner[..|inner| - 1]);
      if e.EnterCopy? {
        NestedCopyIsRefused(sys.rec, e.task, e.from, e.to, 0, e.hasMemory, e.bytes);
      } else {
        NestedCopyIsRefused(sys.rec, e.task, e.ax, e.to, e.width, e.hasMemory, []);
      }
    }
  }

  /**
    A hooked copy or put is recorded once, by the bytes it wrote itself,
    whatever copies and puts the kernel tries in the course of it.
   */
  lemma NestedCopiesLeaveNoTrace(sys: P.System, task: int, act: Act, inner: seq<P.Event>)
    requires Inside(sys, task) && act.WellFormed() && !act.Store? && act.hasMemory
    requires forall e | e in inner :: e.EnterCopy? || e.EnterPut?
    ensures var outer := ActEvents(task, act);
            && |outer| == 2
            && Continue(sys, [outer[0]] + inner + [outer[1]]) == sys.(rec := AddCopies(sys.rec, HookedOne(act)))
  {
    hide P.Inv, Continue, P.Step, P.Enabled, HookedOne;
    var outer := ActEvents(task, act);
    ActRuns(sys, task, act);
    ContinueAppend(sys, [outer[0]], [outer[1]]);
    assert [outer[0]] + [outer[1]] == outer;
    OuterPends(sys, task, act);
    var pending := Continue(sys, [outer[0]]);
    InnerHooksAreRefused(pending, inner);
    ContinueAppend(sys, [outer[0]], inner);
    ContinueAppend(sys, [outer[0]] + inner, [outer[1]]);
  }

  lemma OuterPends(sys: P.System, task: int, act: Act)
    requires Inside(sys, task) && act.WellFormed() && !act.Store? && act.hasMemory
    ensures Continue(sys, [ActEvents(task, act)[0]]).rec.pending.Some?
  {
    hide P.Inv, Continue;
    OneStep(sys, ActEvents(task, act)[0]);
  }

  lemma {:induction false} ActsRun(sys: P.System, task: int, acts: seq<Act>)
    requires Inside(sys, task) && forall a | a in acts :: a.WellFormed()
    ensures Continue(sys, ActsEvents(task, acts)) == sys.(rec := AddCopies(sys.rec, Hooked(acts)))
    ensures Inside(Continue(sys, ActsEvents(task, acts)), task)
  {
    hide P.Inv, P.Enabled, P.Step, ActEvents, HookedOne, Act.WellFormed;
    if acts == [] {
      AddTwice(sys.rec, [], []);
    } else {
      var earlier, act := acts[..|acts| - 1], acts[|acts| - 1];
      ActsRun(sys, task, earlier);
      ContinueAppend(sys, ActsEvents(task, earlier), ActEvents(task, act));
      ActRuns(Continue(sys, ActsEvents(task, earlier)), task, act);
      AddTwice(sys.rec, Hooked(earlier), HookedOne(act));
    }
  }

  lemma WrapOpens(sys: P.System, task: int, m: Mem, body: Body)
    requires Inside(sys, task) && body.region.Some? && HasSnapshot(m, body)
    ensures var region := body.region.value;
            var e := P.EnterWrap(task, m, region, body.allocs.snapshot);
            var began := Continue(sys, [e]);
            && Inside(began, task)
            && began ==
               sys.(frames := sys.frames + [P.InWrap(Snapshot(region.Base(), Slice(m, region.Base(), region.Len())))])
  {
    var e := P.EnterWrap(task, m, body.region.value, body.allocs.snapshot);
    P.StepKeepsInv(sys, e);
    OneStep(sys, e);
    hide P.Inv, Continue;
  }

  lemma WrapCloses(sys: P.System, task: int, m: Mem, m': Mem, base: U64, len: U64, allocs: Allocs,
                   frames: seq<P.Frame>)
    requires Inside(sys, task) && allocs.snapshot && Mapped(m, base, len) && m'.Keys == m.Keys
    requires sys.frames == frames + [P.InWrap(Snapshot(base, Slice(m, base, len)))]
    ensures Continue(sys, [P.LeaveWrap(m', allocs.again, allocs.entries)]) ==
            sys.(rec := AddCopies(sys.rec, RegionCopies(m, m', base, len, allocs)), frames := frames)
  {
    AddTwice(sys.rec, [], []);
    OneStep(sys, P.LeaveWrap(m', allocs.again, allocs.entries));
    hide P.Inv, Recorded, Continue;
    assert P.Pop(sys.frames) == frames;
  }

  /** Without a snapshot the post hook does not run: no frame is opened. */
  lemma WrapRefused(sys: P.System, task: int, m: Mem, body: Body)
    requires Inside(sys, task) && body.region.Some? && !HasSnapshot(m, body)
    ensures Continue(sys, [P.EnterWrap(task, m, body.region.value, body.allocs.snapshot)]) == sys
  {
    hide P.Inv, Continue;
    OneStep(sys, P.EnterWrap(task, m, body.region.value, body.allocs.snapshot));
  }

  /** The copies of a call's region and of the acts in it. */
  function InnerCopies(m: Mem, body: Body): seq<Copy> {
    if body.region.None? then []
    else
      Hooked(body.during)
      + RegionCopies(m, Stored(m, body.during), body.region.value.Base(), body.region.value.Len(), body.allocs)
  }

  lemma SnapshotRegionRuns(sys: P.System, task: int, m: Mem, body: Body)
    requires Inside(sys, task) && body.WellFormed() && body.region.Some? && HasSnapshot(m, body)
    ensures Continue(sys, RegionEvents(task, m, body)) == sys.(rec := AddCopies(sys.rec, InnerCopies(m, body)))
  {
    hide P.Inv, P.Enabled, P.Step, Continue, ActsEvents, Hooked, Stored, RegionCopies, Act.WellFormed;
    var base, len := body.region.value.Base(), body.region.value.Len();
    var opening, closing := [P.EnterWrap(task, m, body.region.value, body.allocs.snapshot)],
        [P.LeaveWrap(Stored(m, body.during), body.allocs.again, body.allocs.entries)];
    WrapOpens(sys, task, m, body);
    var began := Continue(sys, opening);
    ActsRun(began, task, body.during);
    WrapCloses(Continue(began, ActsEvents(task, body.during)), task, m, Stored(m, body.during), base, len, body.allocs,
               sys.frames);
    ContinueAppend(sys, opening, ActsEvents(task, body.during));
    ContinueAppend(sys, opening + ActsEvents(task, body.during), closing);
    AddTwice(sys.rec, Hooked(body.during), RegionCopies(m, Stored(m, body.during), base, len, body.allocs));
  }

  lemma RefusedRegionRuns(sys: P.System, task: int, m: Mem, body: Body)
    requires Inside(sys, task) && body.WellFormed() && body.region.Some? && !HasSnapshot(m, body)
    ensures Continue(sys, RegionEvents(task, m, body)) == sys.(rec := AddCopies(sys.rec, InnerCopies(m, body)))
  {
    hide P.Inv, P.Enabled, P.Step, Continue, ActsEvents, Hooked, Stored, Act.WellFormed;
    var opening := [P.EnterWrap(task, m, body.region.value, body.allocs.snapshot)];
    WrapRefused(sys, task, m, body);
    ActsRun(sys, task, body.during);
    ContinueAppend(sys, opening, ActsEvents(task, body.during));
    assert opening + ActsEvents(task, body.during) + [] == opening + ActsEvents(task, body.during);
    assert Hooked(body.during) + [] == Hooked(body.during);
  }

  /** A call's region, from its snapshot to its diff when there is one. */
  lemma RegionRuns(sys: P.System, task: int, m: Mem, body: Body)
    requires Inside(sys, task) && body.WellFormed()
    ensures Continue(sys, RegionEvents(task, m, body)) == sys.(rec := AddCopies(sys.rec, InnerCopies(m, body)))
    ensures Inside(Continue(sys, RegionEvents(task, m, body)), task)
  {
    hide P.Inv, Continue, ActsEvents, Hooked, Stored, RegionCopies, Act.WellFormed, HasSnapshot;
    if body.region.None? {
      ContinueNothing(sys);
      AddTwice(sys.rec, [], []);
    } else if HasSnapshot(m, body) {
      SnapshotRegionRuns(sys, task, m, body);
    } else {
      RefusedRegionRuns(sys, task, m, body);
    }
  }

  lemma ContinueNothing(sys: P.System)
    requires P.Inv(sys)
    ensures Continue(sys, []) == sys
  {
  }

  lemma BodyRuns(sys: P.System, task: int, m: Mem, body: Body)
    requires Inside(sys, task) && body.WellFormed()
    ensures Continue(sys, BodyEvents(task, m, body)) == sys.(rec := AddCopies(sys.rec, BodyCopies(m, body)))
  {
    hide P.Inv, Continue, ActsEvents, RegionEvents, Hooked, Stored, RegionCopies, Act.WellFormed;
    var first, second, third := ActsEvents(task, body.before), RegionEvents(task, Stored(m, body.before), body),
                                ActsEvents(task, body.after);
    ActsRun(sys, task, body.before);
    var q := Continue(sys, first);
    RegionRuns(q, task, Stored(m, body.before), body);
    ActsRun(Continue(q, second), task, body.after);
    ContinueAppend(sys, first, second);
    ContinueAppend(sys, first + second, third);
    BodyCopiesSplit(sys.rec, m, body);
  }

  /** The copies of a body, added part by part. */
  lemma BodyCopiesSplit(s: State, m: Mem, body: Body)
    requires s.current.Some? && (body.region.None? ==> body.during == [])
    ensures AddCopies(AddCopies(AddCopies(s, Hooked(body.before)), InnerCopies(Stored(m, body.before), body)),
        Hooked(body.after))
            == AddCopies(s, BodyCopies(m, body))
  {
    hide Hooked, Stored, RegionCopies;
    var inner := InnerCopies(Stored(m, body.before), body);
    AddTwice(s, Hooked(body.before), inner);
    AddTwice(s, Hooked(body.before) + inner, Hooked(body.after));
    NoActs(m);
    assert BodyCopies(m, body) == Hooked(body.before) + inner + Hooked(body.after);
  }

  /** Between calls of the task: none is being recorded. */
  ghost predicate Outside(sys: P.System, task: int) {
    P.Inv(sys) && IsRecorded(sys.rec, task) && sys.frames == []
  }

  /** Between calls, a record is begun for the recorded task alone, given memory, and not for execve or an exit. */
  lemma CallIsRecordedIff(sys: P.System, task: int, other: int, nr: int, regs: WordRegisters, hasMemory: bool,
                          junk: U64)
    requires Outside(sys, task)
    ensures Continue(sys, [P.EnterSyscall(other, nr, regs, hasMemory, junk)]) ==
            if other == task && hasMemory && nr !in {59, 60, 231}
            then sys.(rec := sys.rec.(current := Some(Record(regs, junk, []))), frames := [P.InSyscall])
            else sys
  {
    OneStep(sys, P.EnterSyscall(other, nr, regs, hasMemory, junk));
    assert sys.frames + [P.InSyscall] == [P.InSyscall];
    hide P.Inv, Continue;
  }

  lemma CallOpens(sys: P.System, task: int, c: Call)
    requires Outside(sys, task) && c.WellFormed()
    ensures var sys' := sys.(rec := sys.rec.(current := Some(Record(c.regs, c.junk, []))), frames := [P.InSyscall]);
            Continue(sys, [P.EnterSyscall(task, c.regs.orig_rax, c.regs, true, c.junk)]) == sys' && Inside(sys', task)
  {
    hide Call.WellFormed, Body.WellFormed, Continue;
    var e := P.EnterSyscall(task, c.regs.orig_rax, c.regs, true, c.junk);
    NotExempt(c);
    CallIsRecordedIff(sys, task, task, c.regs.orig_rax, c.regs, true, c.junk);
    assert P.Inv(Continue(sys, [e]));
    assert sys.rec.pending.None?;
    hide P.Inv;
  }

  lemma NotExempt(c: Call)
    requires c.WellFormed()
    ensures c.regs.orig_rax != EXECVE && c.regs.orig_rax != EXIT && c.regs.orig_rax != EXIT_GROUP
  {
  }

  lemma CallCloses(sys: P.System, task: int, ret: U64)
    requires Inside(sys, task) && sys.frames == [P.InSyscall]
    ensures var sys' := Continue(sys, [P.LeaveSyscall(ret)]);
            Outside(sys', task) && sys'.completed == sys.completed + [sys.rec.current.value.(ret := ret)]
  {
    var e := P.LeaveSyscall(ret);
    P.StepKeepsInv(sys, e);
    ContinueOne(sys, [], e);
    hide P.Inv, Continue;
    assert [] + [e] == [e];
  }

  /** A call completes with its record. */
  lemma CallRuns(sys: P.System, task: int, c: Call)
    requires Outside(sys, task) && c.WellFormed()
    ensures Outside(Continue(sys, CallEvents(task, c)), task)
    ensures Continue(sys, CallEvents(task, c)).completed == sys.completed + [c.Recorded()]
  {
    hide P.Inv, Continue, BodyEvents, BodyCopies, Body.WellFormed;
    var opening, inner, closing :=
      [P.EnterSyscall(task, c.regs.orig_rax, c.regs, true, c.junk)], BodyEvents(task, c.mem, c.body),
      [P.LeaveSyscall(c.ret)];
    CallOpens(sys, task, c);
    var began := Continue(sys, opening);
    BodyRuns(began, task, c.mem, c.body);
    CallCloses(Continue(began, inner), task, c.ret);
    ContinueAppend(sys, opening, inner);
    ContinueAppend(sys, opening + inner, closing);
    assert [] + BodyCopies(c.mem, c.body) == BodyCopies(c.mem, c.body);
  }

  lemma {:induction false} CallsRun(sys: P.System, task: int, cs: seq<Call>)
    requires Outside(sys, task) && forall c | c in cs :: c.WellFormed()
    ensures Outside(Continue(sys, AllEvents(task, cs)), task)
    ensures Continue(sys, AllEvents(task, cs)).completed == sys.completed + AllRecorded(cs)
  {
    hide P.Inv, P.Enabled, P.Step, CallEvents, Call.WellFormed, Call.Recorded;
    if cs == [] {
      assert AllRecorded(cs) == [];
    } else {
      var earlier, c := cs[..|cs| - 1], cs[|cs| - 1];
      CallsRun(sys, task, earlier);
      ContinueAppend(sys, AllEvents(task, earlier), CallEvents(task, c));
      CallRuns(Continue(sys, AllEvents(task, earlier)), task, c);
      assert AllRecorded(cs) == AllRecorded(earlier) + [c.Recorded()];
    }
  }

  // ---- What else goes on ----

  /** A read of the dump, or a hook entered by another task. */
  predicate Elsewhere(e: P.Event, task: int) {
    match e
    case Read(_, _) => true
    case EnterSyscall(other, _, _, _, _) => other != task
    case EnterPut(other, _, _, _, _) => other != task
    case EnterCopy(other, _, _, _, _) => other != task
    case EnterWrap(other, _, _, _) => other != task
    case _ => false
  }

  /** The events without those. */
  function Own(events: seq<P.Event>, task: int): seq<P.Event> {
    if events == [] then []
    else
      var e := events[|events| - 1];
      Own(events[..|events| - 1], task) + if Elsewhere(e, task) then [] else [e]
  }

  /** No other task is ever recorded. */
  ghost predicate RecordsOnly(events: seq<P.Event>, task: int) {
    forall e | e in events && e.SetPid? :: e.pid == 0 || e.pid == task
  }

  /** The same but for the queue and its history. */
  ghost predicate SameCalls(a: P.System, b: P.System, task: int) {
    && a.rec.(queue := b.rec.queue) == b.rec && a.frames == b.frames && a.completed == b.completed
    && (a.rec.pid == 0 || a.rec.pid == task)
  }

  lemma ElsewhereKeepsCalls(a: P.System, b: P.System, e: P.Event, task: int)
    requires P.Inv(a) && P.Enabled(a, e) && SameCalls(a, b, task) && Elsewhere(e, task)
    ensures SameCalls(P.Step(a, e), b, task)
  {
    hide P.Inv;
  }

  lemma BothStep(a: P.System, b: P.System, e: P.Event, task: int)
    requires P.Inv(a) && P.Inv(b) && SameCalls(a, b, task) && !Elsewhere(e, task)
    requires e.SetPid? ==> e.pid == 0 || e.pid == task
    ensures P.Enabled(a, e) <==> P.Enabled(b, e)
    ensures P.Enabled(a, e) ==> SameCalls(P.Step(a, e), P.Step(b, e), task)
  {
    P.InFrame(a);
    P.InFrame(b);
    hide P.Inv;
  }

  /** Which calls complete, and with which records, depends on the task's own events alone. */
  lemma {:induction false} OwnEventsDecide(events: seq<P.Event>, task: int)
    requires RecordsOnly(Own(events, task), task)
    ensures SameCalls(P.Run(events), P.Run(Own(events, task)), task)
  {
    hide P.Inv, P.Enabled, P.Step, SameCalls;
    if events == [] {
      StartSame(task);
    } else {
      var earlier, e := events[..|events| - 1], events[|events| - 1];
      OwnEventsDecide(earlier, task);
      var a, b := P.Run(earlier), P.Run(Own(earlier, task));
      if Elsewhere(e, task) {
        assert Own(events, task) == Own(earlier, task);
        if P.Enabled(a, e) {
          ElsewhereKeepsCalls(a, b, e, task);
        }
      } else {
        assert e in Own(events, task);
        assert Own(events, task)[..|Own(earlier, task)|] == Own(earlier, task);
        BothStep(a, b, e, task);
      }
    }
  }

  lemma StartSame(task: int)
    ensures SameCalls(P.START, P.START, task)
  {
  }
}
