/**
  From the recorded process to the replayed one: through the hooks, the queue,
  the reads of the dump file, the loader and the replayer.
 */
module EndToEnd {
  import opened Bytes
  import opened Memory
  import opened Format
  import opened Wrappers
  import opened TraceeMemory
  import opened ShouldSimulate
  import opened ReplaySpec
  import opened CallEvents
  import Divergence
  import F = Fidelity
  import KernelRun
  import Loader
  import P = Pipeline
  import LoaderSpec
  import opened SyscallPatch
  import RecorderSpec
  import DumperSpec
  import Replayer

  function StepOf(c: Call): F.Step {
    F.Step(Cpu(c.regs, c.mem), Cpu(c.regs.(rax := c.ret), c.after), c.Recorded())
  }

  /** The calls as the process sees them. */
  function Steps(cs: seq<Call>): (steps: seq<F.Step>)
    ensures |steps| == |cs| && forall i | 0 <= i < |cs| :: steps[i] == StepOf(cs[i])
  {
    seq(|cs|, i requires 0 <= i < |cs| => StepOf(cs[i]))
  }

  /**
    A call to be simulated: what it did to user memory is what its body did,
    each byte caught by a hook or by the diff of its region; and its copies can
    be written into a tracee, word by word.
   */
  ghost predicate LeavesAPatch(c: Call) {
    && IsCaught(c.mem, c.body) && c.after == BodyMem(c.mem, c.body)
    && (forall d | d in BodyCopies(c.mem, c.body) :: |d.bytes| < 0x8000_0000)
    && AllAccessible(c.mem, BodyCopies(c.mem, c.body))
  }

  ghost predicate CallIsReplayable(env: Env, cs: seq<Call>, k: nat, callback: bool)
    requires k < |cs|
  {
    && (callback ==> F.PayloadReadable(Steps(cs), k))
    && if ShouldSimulateSystemCall(F.Calls(Steps(cs)), k) then LeavesAPatch(cs[k])
         else F.RealFaithfully(env, Steps(cs), k)
  }

  ghost predicate Replayable(env: Env, cs: seq<Call>, callback: bool) {
    && (forall c | c in cs :: c.WellFormed())
    && forall k | 0 <= k < |cs| :: CallIsReplayable(env, cs, k, callback)
  }

  lemma PatchIsFaithful(c: Call)
    requires c.WellFormed() && LeavesAPatch(c)
    ensures F.SimulatedFaithfully(StepOf(c))
  {
    hide BodyCopies, BodyMem, AllAccessible, IsCaught;
    BodyIsPatchIff(c.mem, c.body);
  }

  lemma ReplayableIsFaithful(env: Env, cs: seq<Call>, callback: bool)
    requires Replayable(env, cs, callback)
    ensures F.AllFaithful(env, Steps(cs), callback)
  {
    hide LeavesAPatch, F.SimulatedFaithfully, F.RealFaithfully, F.PayloadReadable, Call.WellFormed,
         ShouldSimulateSystemCall;
    forall k | 0 <= k < |cs|
      ensures F.CallIsFaithful(env, Steps(cs), k, callback)
    {
      assert CallIsReplayable(env, cs, k, callback);
      assert cs[k] in cs;
      if ShouldSimulateSystemCall(F.Calls(Steps(cs)), k) {
        PatchIsFaithful(cs[k]);
      }
    }
  }

  /** What the recorded process does to the recorder: it is chosen, makes its calls and enters exit_group. */
  function ProcessEvents(task: int, cs: seq<Call>, final: Cpu): seq<P.Event> {
    [P.SetPid(task)] + AllEvents(task, cs) + [P.EnterSyscall(task, EXIT_GROUP, final.regs, true, 0)]
  }

  lemma StartIsConsistent()
    ensures P.Inv(P.START)
  {
    RunIsContinue([]);
  }

  lemma TaskIsChosen(task: int)
    requires task != 0
    ensures P.Inv(P.START) && Outside(Continue(P.START, [P.SetPid(task)]), task)
    ensures Continue(P.START, [P.SetPid(task)]).completed == []
  {
    hide P.Inv, Continue;
    StartIsConsistent();
    ContinueOne(P.START, [], P.SetPid(task));
    P.StepKeepsInv(P.START, P.SetPid(task));
    assert [] + [P.SetPid(task)] == [P.SetPid(task)];
  }

  lemma ExitIsNotRecorded(sys: P.System, task: int, regs: WordRegisters)
    requires P.Inv(sys)
    ensures Continue(sys, [P.EnterSyscall(task, EXIT_GROUP, regs, true, 0)]) == sys
  {
    hide P.Inv, Continue;
    var e := P.EnterSyscall(task, EXIT_GROUP, regs, true, 0);
    ContinueOne(sys, [], e);
    assert [] + [e] == [e];
  }

  /** Before exit_group, and with it. */
  lemma ProcessRuns(task: int, cs: seq<Call>, final: Cpu)
    requires task != 0 && forall c | c in cs :: c.WellFormed()
    ensures P.Run([P.SetPid(task)] + AllEvents(task, cs)).completed == AllRecorded(cs)
    ensures P.Run(ProcessEvents(task, cs, final)).completed == AllRecorded(cs)
  {
    hide P.Inv, P.Run, Continue, AllEvents, Outside, Call.WellFormed;
    var first, calls, last := [P.SetPid(task)], AllEvents(task, cs),
        [P.EnterSyscall(task, EXIT_GROUP, final.regs, true, 0)];
    TaskIsChosen(task);
    CallsRun(Continue(P.START, first), task, cs);
    ExitIsNotRecorded(Continue(Continue(P.START, first), calls), task, final.regs);
    ContinueAppend(P.START, first, calls);
    ContinueAppend(P.START, first + calls, last);
    RunIsContinue(first + calls);
    RunIsContinue(ProcessEvents(task, cs, final));
    assert [] + AllRecorded(cs) == AllRecorded(cs);
  }

  /** A hook event of the task's own. */
  predicate IsHookOf(e: P.Event, task: int) {
    !e.SetPid? && !Elsewhere(e, task)
  }

  lemma {:induction false} AllAreHooks(task: int, cs: seq<Call>)
    ensures forall e | e in AllEvents(task, cs) :: IsHookOf(e, task)
  {
    if cs != [] {
      AllAreHooks(task, cs[..|cs| - 1]);
      BodyIsHooks(task, cs[|cs| - 1].mem, cs[|cs| - 1].body);
    }
  }

  lemma BodyIsHooks(task: int, m: Mem, body: Body)
    ensures forall e | e in BodyEvents(task, m, body) :: IsHookOf(e, task)
  {
    hide ActsEvents, Stored;
    ActsAreHooks(task, body.before);
    ActsAreHooks(task, body.during);
    ActsAreHooks(task, body.after);
  }

  lemma {:induction false} ActsAreHooks(task: int, acts: seq<Act>)
    ensures forall e | e in ActsEvents(task, acts) :: IsHookOf(e, task)
  {
    if acts != [] {
      ActsAreHooks(task, acts[..|acts| - 1]);
    }
  }

  /**
    Among any reads of the dump and any hooks of other tasks, the calls that
    complete are those of the process, each with its own record.
   */
  lemma CallsComplete(events: seq<P.Event>, task: int, cs: seq<Call>, final: Cpu)
    requires task != 0 && forall c | c in cs :: c.WellFormed()
    requires Own(events, task) == ProcessEvents(task, cs, final)
    ensures P.Run(events).completed == AllRecorded(cs)
  {
    hide P.Inv, P.Run, AllEvents, Call.WellFormed;
    AllAreHooks(task, cs);
    OwnEventsDecide(events, task);
    ProcessRuns(task, cs, final);
  }

  /** No call was lost on the way, and none is still queued. */
  ghost predicate AllRead(events: seq<P.Event>) {
    P.NeverLoses(events) && P.Run(events).rec.queue == []
  }

  /** What was read loads as the calls the process made, in order. */
  lemma DumpLoads(events: seq<P.Event>, task: int, cs: seq<Call>, final: Cpu)
    requires task != 0 && forall c | c in cs :: c.WellFormed()
    requires Own(events, task) == ProcessEvents(task, cs, final)
    requires AllRead(events) && P.AllFit(AllRecorded(cs))
    ensures LoaderSpec.ParseAll(P.Run(events).output) == LoaderSpec.Got(F.Calls(Steps(cs)), [], false)
  {
    hide P.Run, P.NeverLoses, LoaderSpec.ParseAll, AllEvents, Call.WellFormed, Call.Recorded, Own, P.AllFit;
    CallsComplete(events, task, cs, final);
    P.NothingIsLostIff(events);
    P.PipelineRoundTrip(events);
    assert F.Records(Steps(cs)) == AllRecorded(cs);
    assert AllRecorded(cs)[..|cs|] == AllRecorded(cs);
  }

  /** A recording of these calls, to be replayed in this environment. */
  ghost predicate Recorded(env: Env, c0: Cpu, cs: seq<Call>, final: Cpu, task: int, events: seq<P.Event>,
                           callback: bool)
  {
    && task != 0 && Own(events, task) == ProcessEvents(task, cs, final)
    && AllRead(events) && P.AllFit(AllRecorded(cs))
    && F.IsRecording(env.prog, c0, Steps(cs), final) && Replayable(env, cs, callback)
  }

  /**
    The whole of it. A deterministic process is recorded, whatever other tasks
    do meanwhile and however the dump is read, as long as every record is read.
    Then loading the dump and replaying it runs to the end with the recorded
    exit status and reproduces the recorded run.
   */
  lemma RecordedRunReplays(env: Env, c0: Cpu, cs: seq<Call>, final: Cpu, task: int, events: seq<P.Event>,
                           callback: bool)
    requires Recorded(env, c0, cs, final, task, events, callback)
    ensures var loaded := LoaderSpec.ParseAll(P.Run(events).output);
            && loaded.Got? && !loaded.short && loaded.rest == []
            && var o := Replay(env, c0, loaded.value, callback);
               && o.Exited? && o.status == final.regs.rdi
               && F.Reproduces(o.m, c0, Steps(cs), final) && o.output == F.Payloads(Steps(cs), |cs|, callback)
  {
    hide P.Run, Own, ProcessEvents, AllRead, P.AllFit, F.IsRecording, Replayable, LoaderSpec.ParseAll, Replay,
         F.Payloads, Steps, F.Calls, AllRecorded, Call.WellFormed, F.AllFaithful, F.Reproduces;
    CallsAreWellFormed(env, cs, callback);
    DumpLoads(events, task, cs, final);
    ReplayableIsFaithful(env, cs, callback);
    F.ReplayIsFaithful(env, c0, Steps(cs), final, callback);
  }

  /**
    The same by the programs themselves: the kernel module takes the events and
    the reads, the loader what they returned, the replayer what it loaded.
   */
  method RecordAndReplay(env: Env, c0: Cpu, events: seq<P.Event>, alloc: KernelRun.Allocator, callback: bool,
                         ghost cs: seq<Call>, ghost final: Cpu, ghost task: int)
    returns (r: Result<U64, Error>, tracee: Replayer.Tracee, replayer: Replayer.Replayer)
    requires Recorded(env, c0, cs, final, task, events, callback)
    requires KernelRun.Supplies(alloc, events) && forall e | e in events :: KernelRun.Possible(e)
    ensures r == Ok(final.regs.rdi)
    ensures fresh(tracee) && fresh(tracee.memory) && fresh(replayer) && replayer.tracee == tracee
    ensures F.Reproduces(tracee.View(), c0, Steps(cs), final)
    ensures replayer.output == F.Payloads(Steps(cs), |cs|, callback)
  {
    hide P.Run, Recorded, KernelRun.Supplies, KernelRun.Possible, F.Reproduces, LoaderSpec.ParseAll, ReplayFrom,
         F.Payloads, KernelRun.Stack, Steps;
    RecordedRunReplays(env, c0, cs, final, task, events, callback);
    var kernel := KernelRun.Serve(events, alloc);
    KernelReturns(kernel);
    var unpacker := new Loader.BinaryUnpacker(kernel.output);
    var loader := new Loader.Loader(unpacker);
    var loaded := loader.LoadSystemCalls();
    assert loaded.Ok?;
    tracee := new Replayer.Tracee(env, c0);
    replayer := new Replayer.Replayer(tracee, loaded.value, callback);
    r := replayer.StartReplaying();
  }

  lemma KernelReturns(kernel: KernelRun.Kernel)
    requires kernel.Valid()
    ensures kernel.output == P.Run(kernel.trace).output
  {
    hide P.Run;
  }

  lemma CallsAreWellFormed(env: Env, cs: seq<Call>, callback: bool)
    requires Replayable(env, cs, callback)
    ensures forall c | c in cs :: c.WellFormed()
  {
  }

  // ---- Real calls with other effects ----

  /** As Replayable, except that real opens may get other numbers in the tracee, and a brk or munmap may have failed. */
  ghost predicate ReplayableButReal(env: Env, cs: seq<Call>, callback: bool) {
    && (forall c | c in cs :: c.WellFormed())
    && forall k | 0 <= k < |cs| :: CallIsReplayableButReal(env, cs, k, callback)
  }

  ghost predicate CallIsReplayableButReal(env: Env, cs: seq<Call>, k: nat, callback: bool)
    requires k < |cs|
  {
    && (callback ==> F.PayloadReadable(Steps(cs), k))
    && if ShouldSimulateSystemCall(F.Calls(Steps(cs)), k) then LeavesAPatch(cs[k])
         else F.ActsAsRecorded(env, Steps(cs), k)
  }

  lemma FaithfulButReal(env: Env, cs: seq<Call>, callback: bool)
    requires ReplayableButReal(env, cs, callback)
    ensures Divergence.FaithfulButReal(env, Steps(cs), callback)
  {
    hide LeavesAPatch, F.SimulatedFaithfully, F.ActsAsRecorded, F.PayloadReadable, Call.WellFormed,
         ShouldSimulateSystemCall;
    forall k | 0 <= k < |cs|
      ensures Divergence.CallIsFaithfulButReal(env, Steps(cs), k, callback)
    {
      assert CallIsReplayableButReal(env, cs, k, callback);
      assert cs[k] in cs;
      if ShouldSimulateSystemCall(F.Calls(Steps(cs)), k) {
        PatchIsFaithful(cs[k]);
      }
    }
  }

  /** A recording as above, to be replayed on a kernel that gives the lowest free descriptor. */
  ghost predicate RecordedForLowestFree(env: Env, c0: Cpu, cs: seq<Call>, final: Cpu, task: int, events: seq<P.Event>,
                                        callback: bool, inherited: set<int>)
  {
    && task != 0 && Own(events, task) == ProcessEvents(task, cs, final)
    && AllRead(events) && P.AllFit(AllRecorded(cs))
    && F.IsRecording(env.prog, c0, Steps(cs), final) && ReplayableButReal(env, cs, callback)
    && WellFormed(F.Calls(Steps(cs))) && RecordedLowest(F.Calls(Steps(cs)), inherited)
    && GivenLowest(F.Calls(Steps(cs)), inherited, F.Numbers(env, Steps(cs)))
  }

  /**
    Loading what was read and replaying it runs to the end and reproduces the
    recorded run if and only if no simulated descriptor was ever open below one
    opened for real, and no brk or munmap failed.
   */
  lemma RecordedRunReplaysIff(env: Env, c0: Cpu, cs: seq<Call>, final: Cpu, task: int, events: seq<P.Event>,
                              callback: bool, inherited: set<int>)
    requires RecordedForLowestFree(env, c0, cs, final, task, events, callback, inherited)
    ensures var calls := F.Calls(Steps(cs));
            && LoaderSpec.ParseAll(P.Run(events).output) == LoaderSpec.Got(calls, [], false)
            && var o := Replay(env, c0, calls, callback);
               o.Exited? && F.Reproduces(o.m, c0, Steps(cs), final) <==>
               AllLowerOnesAreReal(calls, inherited, |cs|) && F.NoneRefused(calls)
  {
    hide P.Run, Own, ProcessEvents, AllRead, P.AllFit, F.IsRecording, LoaderSpec.ParseAll, Replay, Steps, F.Calls,
         AllRecorded, Call.WellFormed, F.Reproduces, WellFormed, RecordedLowest, GivenLowest, AllLowerOnesAreReal,
         F.NoneRefused, F.Numbers, Divergence.FaithfulButReal;
    DumpLoads(events, task, cs, final);
    FaithfulButReal(env, cs, callback);
    Divergence.ReproducesOnLowestFreeIff(env, c0, Steps(cs), final, callback, inherited);
  }

  // ---- Exactly when a recorded run replays ----

  /**
    A recording of any calls: simulated ones did to user memory what their
    bodies did, whether the hooks caught it or not, in copies that fit an int.
   */
  ghost predicate RecordedAnyhow(env: Env, c0: Cpu, cs: seq<Call>, final: Cpu, task: int, events: seq<P.Event>) {
    && task != 0 && Own(events, task) == ProcessEvents(task, cs, final)
    && AllRead(events) && P.AllFit(AllRecorded(cs))
    && F.IsRecording(env.prog, c0, Steps(cs), final)
    && (forall c | c in cs :: c.WellFormed())
    && forall k | 0 <= k < |cs| && ShouldSimulateSystemCall(F.Calls(Steps(cs)), k) :: ItsBodyInShortCopies(cs[k])
  }

  ghost predicate ItsBodyInShortCopies(c: Call) {
    c.after == BodyMem(c.mem, c.body) && forall d | d in BodyCopies(c.mem, c.body) :: |d.bytes| < 0x8000_0000
  }

  /**
    A call comes out right in a replay: a simulated one has every byte caught by
    a hook or the diff, and its copies' words mapped; a real one is accepted and
    leaves what it left; and its payload, if any, can be read.
   */
  ghost predicate ComesOut(env: Env, cs: seq<Call>, final: Cpu, k: nat, callback: bool)
    requires k < |cs|
  {
    if ShouldSimulateSystemCall(F.Calls(Steps(cs)), k) then
      && (callback ==> F.PayloadReadable(Steps(cs), k))
      && IsCaught(cs[k].mem, cs[k].body) && AllAccessible(cs[k].mem, BodyCopies(cs[k].mem, cs[k].body))
    else F.RedoneAsRecorded(env, Steps(cs), final, k, callback)
  }

  lemma ComesOutIff(env: Env, c0: Cpu, cs: seq<Call>, final: Cpu, k: nat, callback: bool)
    requires k < |cs| && F.IsRecording(env.prog, c0, Steps(cs), final)
    requires ShouldSimulateSystemCall(F.Calls(Steps(cs)), k) ==> ItsBodyInShortCopies(cs[k])
    ensures ComesOut(env, cs, final, k, callback) <==> F.RedoneAsRecorded(env, Steps(cs), final, k, callback)
  {
    hide BodyCopies, BodyMem, AllAccessible, IsCaught, ApplyCopies, F.IsRecording, F.RedoneAsRecorded,
         ShouldSimulateSystemCall, F.PayloadReadable, F.Calls;
    if ShouldSimulateSystemCall(F.Calls(Steps(cs)), k) {
      BodyIsPatchIff(cs[k].mem, cs[k].body);
      F.SimulatedIsRedoneIff(env, c0, Steps(cs), final, k, callback);
    }
  }

  /**
    For every recording of a deterministic process, whatever its calls did with
    or without hooks, and for every tracee kernel: loading the dump and
    replaying it runs to the end and reproduces the recorded run if and only if
    each call comes out right.
   */
  lemma RecordedRunReplaysExactlyIff(env: Env, c0: Cpu, cs: seq<Call>, final: Cpu, task: int, events: seq<P.Event>,
                                     callback: bool)
    requires RecordedAnyhow(env, c0, cs, final, task, events)
    ensures var calls := F.Calls(Steps(cs));
            && LoaderSpec.ParseAll(P.Run(events).output) == LoaderSpec.Got(calls, [], false)
            && var o := Replay(env, c0, calls, callback);
               o.Exited? && F.Reproduces(o.m, c0, Steps(cs), final) <==>
               forall k | 0 <= k < |cs| :: ComesOut(env, cs, final, k, callback)
  {
    hide P.Run, Own, ProcessEvents, AllRead, P.AllFit, F.IsRecording, LoaderSpec.ParseAll, Replay, Steps, F.Calls,
         AllRecorded, Call.WellFormed, F.Reproduces, ComesOut, F.RedoneAsRecorded, ItsBodyInShortCopies;
    DumpLoads(events, task, cs, final);
    F.ReproducesExactlyIff(env, c0, Steps(cs), final, callback);
    forall k | 0 <= k < |cs|
      ensures ComesOut(env, cs, final, k, callback) <==> F.RedoneAsRecorded(env, Steps(cs), final, k, callback)
    {
      ComesOutIff(env, c0, cs, final, k, callback);
    }
  }

  // ---- A run in which no call is lost ----

  /** Until something is read, the first 4096 completed calls are all queued. */
  lemma {:induction false} UnreadCallsAreQueued(events: seq<P.Event>)
    requires (forall e | e in events :: !e.Read?) && |P.Run(events).completed| <= RecorderSpec.QUEUE_CAPACITY
    ensures var s := P.Run(events);
            s.emitted == s.dropped == s.consumed == [] && |s.rec.queue| == |s.completed|
  {
    hide P.Run, P.Inv;
    RunOne(events);
    if events != [] {
      var earlier, e := events[..|events| - 1], events[|events| - 1];
      var before := P.Run(earlier);
      if P.Enabled(before, e) {
        P.CompletedGrows(before, e);
        UnreadCallsAreQueued(earlier);
        QueuedStep(before, e);
      } else {
        UnreadCallsAreQueued(earlier);
      }
    }
  }

  lemma RunOne(events: seq<P.Event>)
    ensures if events == [] then P.Run(events) == P.START
            else
              var before, e := P.Run(events[..|events| - 1]), events[|events| - 1];
              P.Inv(before) && P.Run(events) == if P.Enabled(before, e) then P.Step(before, e) else before
  {
    hide P.Inv, P.Enabled, P.Step;
  }

  lemma QueuedStep(s: P.System, e: P.Event)
    requires P.Inv(s) && P.Enabled(s, e) && !e.Read?
    requires s.emitted == s.dropped == s.consumed == [] && |s.rec.queue| == |s.completed|
    requires |P.Step(s, e).completed| <= RecorderSpec.QUEUE_CAPACITY
    ensures var s' := P.Step(s, e);
            s'.emitted == s'.dropped == s'.consumed == [] && |s'.rec.queue| == |s'.completed|
  {
    P.InFrame(s);
    hide P.Inv;
  }

  /** The process's events, with one read of the dump before it exits. */
  function WithOneRead(task: int, cs: seq<Call>, final: Cpu, buffer: seq<Byte>): seq<P.Event> {
    [P.SetPid(task)] + AllEvents(task, cs) + [P.Read(buffer, |buffer|)]
        + [P.EnterSyscall(task, EXIT_GROUP, final.regs, true, 0)]
  }

  lemma OwnOne(events: seq<P.Event>, e: P.Event, task: int)
    ensures Own(events + [e], task) == Own(events, task) + if Elsewhere(e, task) then [] else [e]
  {
    hide Elsewhere;
    assert (events + [e])[..|events|] == events;
  }

  lemma {:induction false} OwnAll(events: seq<P.Event>, task: int)
    requires forall e | e in events :: !Elsewhere(e, task)
    ensures Own(events, task) == events
  {
    hide Elsewhere, Own;
    if events == [] {
      OwnNone(task);
    } else {
      var earlier, e := events[..|events| - 1], events[|events| - 1];
      assert events == earlier + [e] && forall e | e in earlier :: e in events;
      OwnAll(earlier, task);
      OwnOne(earlier, e, task);
    }
  }

  lemma OwnNone(task: int)
    ensures Own([], task) == []
  {
  }

  lemma ReadTakesAll(events: seq<P.Event>, buffer: seq<Byte>)
    requires var s := P.Run(events); P.NoneLost(s) && P.AllFit(s.completed) && s.rec.queue == s.completed
    requires |SerializeAll(P.Run(events).completed)| <= |buffer|
    ensures var s' := P.Run(events + [P.Read(buffer, |buffer|)]); P.NoneLost(s') && s'.rec.queue == []
  {
    hide P.Inv, P.Run, P.Step, SerializeAll, P.AllFit, DumperSpec.DumpFrom, P.NoneLost;
    var s, e := P.Run(events), P.Read(buffer, |buffer|);
    RunOne(events + [e]);
    assert (events + [e])[..|events|] == events;
    P.StepLosesIff(s, e);
    P.StepOfRead(s, buffer, |buffer|);
    if s.rec.queue != [] {
      FitsAll(s.completed);
      assert s.completed[..|s.completed|] == s.completed;
      DumperSpec.DumpIsGreedy(s.completed, buffer, |s.completed|);
    }
  }

  lemma FitsAll(rs: seq<Record>)
    requires P.AllFit(rs)
    ensures forall r | r in rs :: DumperSpec.Fits32(r)
  {
  }

  lemma OneReadIsElsewhere(task: int, cs: seq<Call>, final: Cpu, buffer: seq<Byte>)
    ensures Own(WithOneRead(task, cs, final, buffer), task) == ProcessEvents(task, cs, final)
  {
    hide AllEvents, Own;
    var base, read := [P.SetPid(task)] + AllEvents(task, cs), P.Read(buffer, |buffer|);
    AllAreHooks(task, cs);
    OwnAll(base, task);
    OwnOne(base, read, task);
    OwnOne(base + [read], P.EnterSyscall(task, EXIT_GROUP, final.regs, true, 0), task);
  }

  lemma OneReadTakesAll(task: int, cs: seq<Call>, buffer: seq<Byte>)
    requires task != 0 && (forall c | c in cs :: c.WellFormed()) && |cs| <= RecorderSpec.QUEUE_CAPACITY
    requires P.AllFit(AllRecorded(cs)) && |SerializeAll(AllRecorded(cs))| <= |buffer|
    ensures var s := P.Run([P.SetPid(task)] + AllEvents(task, cs) + [P.Read(buffer, |buffer|)]);
            P.NoneLost(s) && s.rec.queue == []
  {
    hide P.Run, P.Inv, P.Step, AllEvents, SerializeAll, P.AllFit, Call.WellFormed, Call.Recorded, P.NoneLost,
         AllRecorded;
    var base := [P.SetPid(task)] + AllEvents(task, cs);
    ProcessRuns(task, cs, Cpu(FromList(seq(21, _ => 0)), map[]));
    AllAreHooks(task, cs);
    UnreadCallsAreQueued(base);
    var s := P.Run(base);
    NoneLostMeans(s);
    P.PipelineRoundTrip(base);
    assert s.completed[0..] == s.completed;
    ReadTakesAll(base, buffer);
  }

  /**
    Up to 4096 calls and one read with room for all of them lose nothing: the
    premises of RecordedRunReplays about the run are met.
   */
  lemma OneReadIsEnough(task: int, cs: seq<Call>, final: Cpu, buffer: seq<Byte>)
    requires task != 0 && (forall c | c in cs :: c.WellFormed()) && |cs| <= RecorderSpec.QUEUE_CAPACITY
    requires P.AllFit(AllRecorded(cs)) && |SerializeAll(AllRecorded(cs))| <= |buffer|
    ensures Own(WithOneRead(task, cs, final, buffer), task) == ProcessEvents(task, cs, final)
    ensures AllRead(WithOneRead(task, cs, final, buffer))
  {
    hide P.Run, AllEvents, SerializeAll, P.AllFit, Call.WellFormed, Call.Recorded, P.NeverLoses, P.NoneLost,
         ProcessEvents, Own;
    OneReadIsElsewhere(task, cs, final, buffer);
    OneReadTakesAll(task, cs, buffer);
    AppendExit([P.SetPid(task)] + AllEvents(task, cs) + [P.Read(buffer, |buffer|)], task, final.regs);
    CallsComplete(WithOneRead(task, cs, final, buffer), task, cs, final);
    P.NothingIsLostIff(WithOneRead(task, cs, final, buffer));
  }

  lemma NoneLostMeans(s: P.System)
    ensures P.NoneLost(s) <==> s.dropped == [] && s.consumed == []
  {
  }

  lemma AppendExit(events: seq<P.Event>, task: int, regs: WordRegisters)
    ensures P.Run(events + [P.EnterSyscall(task, EXIT_GROUP, regs, true, 0)]) == P.Run(events)
  {
    hide P.Inv;
    var e := P.EnterSyscall(task, EXIT_GROUP, regs, true, 0);
    assert (events + [e])[..|events|] == events;
  }
}
