/**
  Replaying what was recorded: at every system call boundary the replayed
  process has the registers and memory of the recorded one.
 */
module Fidelity {
  import opened Bytes
  import opened Memory
  import opened Format
  import opened TraceeMemory
  import opened ShouldSimulate
  import opened ReplaySpec
  import opened ReplayHistory

  /** One recorded system call: the process before and after it, and its record. */
  datatype Step = Step(entry: Cpu, exit: Cpu, record: Record)

  function Records(steps: seq<Step>): (rs: seq<Record>)
    ensures |rs| == |steps| && forall i | 0 <= i < |rs| :: rs[i] == steps[i].record
  {
    seq(|steps|, i requires 0 <= i < |steps| => steps[i].record)
  }

  function Calls(steps: seq<Step>): (cs: seq<SystemCall>)
    ensures |cs| == |steps| && forall i | 0 <= i < |cs| :: cs[i] == Loaded(steps[i].record)
  {
    LoadedAll(Records(steps))
  }

  function ResumedWith(c0: Cpu, steps: seq<Step>, k: nat): Cpu
    requires k <= |steps|
  {
    if k == 0 then c0 else steps[k - 1].exit
  }

  function NextEntry(steps: seq<Step>, final: Cpu, k: nat): Cpu
    requires k <= |steps|
  {
    if k < |steps| then steps[k].entry else final
  }

  /** A system call changes rax and memory; the record has the registers it was entered with and the new rax. */
  ghost predicate RecordsStep(s: Step) {
    s.record.regs == s.entry.regs && s.exit.regs == s.entry.regs.(rax := s.record.ret)
  }

  ghost predicate RunsOn(prog: Cpu -> Cpu, c0: Cpu, steps: seq<Step>, final: Cpu, k: nat)
    requires k <= |steps|
  {
    prog(ResumedWith(c0, steps, k)) == NextEntry(steps, final, k)
  }

  /** A deterministic process that made exactly these calls and then entered exit_group. */
  ghost predicate IsRecording(prog: Cpu -> Cpu, c0: Cpu, steps: seq<Step>, final: Cpu) {
    && (forall k | 0 <= k <= |steps| :: RunsOn(prog, c0, steps, final, k))
    && (forall k | 0 <= k < |steps| :: RecordsStep(steps[k]))
    && final.regs.orig_rax == EXIT_GROUP
  }

  /** The state the tracee resumes with after call k: as recorded, but for rdi and r10 after a wrapped mmap. */
  function ReplayedExit(steps: seq<Step>, k: nat): Cpu
    requires k < |steps|
  {
    if Calls(steps)[k].Num() == MMAP
    then Cpu(MadeWith(Calls(steps)[k], steps[k].entry.regs).(rax := steps[k].record.ret), steps[k].exit.mem)
    else steps[k].exit
  }

  /** The payload of call k can be read: its length fits a C int and its words are mapped. */
  ghost predicate PayloadReadable(steps: seq<Step>, k: nat)
    requires k < |steps|
  {
    CanBeRead(Calls(steps)[k], steps[k].entry)
  }

  /** A simulated call: its copies make up its effect on memory, and the tracee has their words mapped. */
  ghost predicate SimulatedFaithfully(s: Step) {
    && s.exit.mem == ApplyCopies(s.entry.mem, s.record.copies)
    && (forall c | c in s.record.copies :: |c.bytes| < 0x8000_0000)
    && AllAccessible(s.entry.mem, s.record.copies)
  }

  /**
    A call made for real: the kernel does to the tracee what it did when it was
    recorded, a brk or munmap did not fail, and the process does not look at
    the two registers a wrapped mmap changes.
   */
  ghost predicate RealFaithfully(env: Env, steps: seq<Step>, k: nat)
    requires k < |steps|
  {
    var call := Calls(steps)[k];
    var made := Cpu(MadeWith(call, steps[k].entry.regs), steps[k].entry.mem);
    && env.kernel(k, made) == Cpu(made.regs.(rax := steps[k].record.ret), steps[k].exit.mem)
    && (call.Num() == BRK || call.Num() == MUNMAP ==> call.returnValue >= 0)
    && (call.Num() == MMAP ==> env.prog(ReplayedExit(steps, k)) == env.prog(steps[k].exit))
  }

  ghost predicate CallIsFaithful(env: Env, steps: seq<Step>, k: nat, callback: bool)
    requires k < |steps|
  {
    && (callback ==> PayloadReadable(steps, k))
    && if ShouldSimulateSystemCall(Calls(steps), k) then SimulatedFaithfully(steps[k])
         else RealFaithfully(env, steps, k)
  }

  ghost predicate FaithfulUpTo(env: Env, steps: seq<Step>, n: nat, callback: bool)
    requires n <= |steps|
  {
    forall k | 0 <= k < n :: CallIsFaithful(env, steps, k, callback)
  }

  ghost predicate AllFaithful(env: Env, steps: seq<Step>, callback: bool) {
    FaithfulUpTo(env, steps, |steps|, callback)
  }

  // ---- One call ----

  /** Of the calls made for real, brk, munmap and open have to return the recorded value; the others may return any. */
  lemma RealCheckedIff(calls: seq<SystemCall>, k: nat, rax: U64)
    requires k < |calls| && !ShouldSimulateSystemCall(calls, k)
    ensures ReturnValueAccepted(calls[k], rax) <==>
            (calls[k].Num() == BRK || calls[k].Num() == MUNMAP || calls[k].Num() == OPEN ==>
                rax == calls[k].returnValue)
  {
    hide FdAppearsInMmapBeforeClose, MmapAppearsAfterOpenForFd;
  }

  /** Given the recorded word, only a failed brk or munmap is refused: an open made for real returned a descriptor. */
  lemma RealReturnAccepted(calls: seq<SystemCall>, k: nat, ret: U64)
    requires k < |calls| && !ShouldSimulateSystemCall(calls, k) && calls[k].returnValue == ToSigned(ret)
    ensures ReturnValueAccepted(calls[k], ret) <==>
            !((calls[k].Num() == BRK || calls[k].Num() == MUNMAP) && calls[k].returnValue < 0)
  {
    CheckPassesIff(calls[k], ret);
    if calls[k].Num() == OPEN && calls[k].returnValue < 0 {
      NegativeIsNeverMappedAhead(calls[k].returnValue, calls, k);
    }
  }

  // ---- Real opens ----

  /** The kernel carries out call k as recorded, except that an open may get another number. */
  ghost predicate ActsAsRecorded(env: Env, steps: seq<Step>, k: nat)
    requires k < |steps|
  {
    var call := Calls(steps)[k];
    var made := Cpu(MadeWith(call, steps[k].entry.regs), steps[k].entry.mem);
    var done := env.kernel(k, made);
    && done == Cpu(made.regs.(rax := done.regs.rax), steps[k].exit.mem)
    && (!OpensFile(call) ==> done.regs.rax == steps[k].record.ret)
    && (call.Num() == MMAP ==> env.prog(ReplayedExit(steps, k)) == env.prog(steps[k].exit))
  }

  /** What the tracee's kernel returns from call k. */
  function Given(env: Env, steps: seq<Step>, k: nat): int {
    if k < |steps| then
      var made := Cpu(MadeWith(Calls(steps)[k], steps[k].entry.regs), steps[k].entry.mem);
      ToSigned(env.kernel(k, made).regs.rax)
    else 0
  }

  function Numbers(env: Env, steps: seq<Step>): nat -> int {
    (k: nat) => Given(env, steps, k)
  }

  ghost predicate RealCallsAct(env: Env, steps: seq<Step>) {
    forall k | 0 <= k < |steps| && !ShouldSimulateSystemCall(Calls(steps), k) :: ActsAsRecorded(env, steps, k)
  }

  ghost predicate RealCallsFaithful(env: Env, steps: seq<Step>) {
    forall k | 0 <= k < |steps| && !ShouldSimulateSystemCall(Calls(steps), k) :: RealFaithfully(env, steps, k)
  }

  /** A call whose recorded return value the replayer would refuse although it was reproduced. */
  predicate Refused(call: SystemCall) {
    (call.Num() == BRK || call.Num() == MUNMAP) && call.returnValue < 0
  }

  ghost predicate NoneRefused(calls: seq<SystemCall>) {
    forall c | c in calls :: !Refused(c)
  }

  lemma FaithfulIffSameNumber(env: Env, steps: seq<Step>, k: nat)
    requires k < |steps| && ActsAsRecorded(env, steps, k)
    ensures RealFaithfully(env, steps, k) <==>
            && (OpensFile(Calls(steps)[k]) ==> Given(env, steps, k) == Calls(steps)[k].returnValue)
            && !Refused(Calls(steps)[k])
  {
    var made := Cpu(MadeWith(Calls(steps)[k], steps[k].entry.regs), steps[k].entry.mem);
    var rax := env.kernel(k, made).regs.rax;
    SignedRoundTrip(rax);
    SignedRoundTrip(steps[k].record.ret);
    assert ToSigned(rax) == ToSigned(steps[k].record.ret) <==> rax == steps[k].record.ret;
    hide MadeWith, ToSigned;
  }

  lemma RefusedIsReal(calls: seq<SystemCall>, k: nat)
    requires k < |calls| && Refused(calls[k])
    ensures !ShouldSimulateSystemCall(calls, k) && !OpensFile(calls[k])
  {
  }

  /**
    When the tracee's kernel acts as recorded and gives opens the lowest free
    numbers, the calls made for real have their recorded effects if and only if
    no simulated descriptor was ever open below one that is opened for real,
    and no brk or munmap failed.
   */
  lemma RealCallsFaithfulIff(env: Env, steps: seq<Step>, inherited: set<int>)
    requires WellFormed(Calls(steps)) && RecordedLowest(Calls(steps), inherited)
    requires GivenLowest(Calls(steps), inherited, Numbers(env, steps)) && RealCallsAct(env, steps)
    ensures RealCallsFaithful(env, steps) <==>
            AllLowerOnesAreReal(Calls(steps), inherited, |steps|) && NoneRefused(Calls(steps))
  {
    hide WellFormed, RecordedLowest, GivenLowest, AllLowerOnesAreReal, ActsAsRecorded, RealFaithfully,
         ShouldSimulateSystemCall, Calls, Given, Refused;
    var calls, given := Calls(steps), Numbers(env, steps);
    NumbersAgreeIff(calls, inherited, given, |steps|);
    forall k | 0 <= k < |steps| && !ShouldSimulateSystemCall(calls, k)
      ensures RealFaithfully(env, steps, k) <==>
              (IsRealOpen(calls, k) ==> given(k) == calls[k].returnValue) && !Refused(calls[k])
    {
      assert ActsAsRecorded(env, steps, k);
      FaithfulIffSameNumber(env, steps, k);
    }
    forall k | 0 <= k < |steps| && Refused(calls[k])
      ensures !ShouldSimulateSystemCall(calls, k)
    {
      RefusedIsReal(calls, k);
    }
    assert NoneRefused(calls) <==> forall k | 0 <= k < |calls| :: !Refused(calls[k]);
  }

  // ---- The whole replay ----

  /** The buffer a call was entered with, when it is mapped. */
  ghost function Buffer(s: Step, n: nat): seq<Byte> {
    if Mapped(s.entry.mem, s.entry.regs.rsi, n) then Slice(s.entry.mem, s.entry.regs.rsi, n) else []
  }

  /** What the callback is called with during the first n calls. */
  ghost function Payloads(steps: seq<Step>, n: nat, callback: bool): seq<seq<Byte>>
    requires n <= |steps|
  {
    if n == 0 || !callback then []
    else if !IsStdoutWrite(Loaded(steps[n - 1].record)) then Payloads(steps, n - 1, callback)
    else Payloads(steps, n - 1, callback) + [Buffer(steps[n - 1], steps[n - 1].record.regs.rdx)]
  }

  /**
    The replayed process went through the calls as the recorded one did: it
    entered every call with the registers and memory it was entered with when
    recorded, and left it with those it was left with, but for rdi and r10
    after an mmap.
   */
  ghost predicate Reproduces(m: Machine, c0: Cpu, steps: seq<Step>, final: Cpu) {
    var n := |steps|;
    && m.stops == 2 * n + 2
    && |m.entries| == n + 1 && m.entries[n] == final
    && (forall k | 0 <= k < n :: m.entries[k] == steps[k].entry)
    && |m.resumes| == n + 1 && m.resumes[0] == c0
    && (forall k | 0 <= k < n && steps[k].record.regs.orig_rax != MMAP :: m.resumes[k + 1] == steps[k].exit)
    && (forall k | 0 <= k < n && steps[k].record.regs.orig_rax == MMAP ::
          SameButRdiR10(m.resumes[k + 1], steps[k].exit))
  }

  ghost predicate SameButRdiR10(a: Cpu, b: Cpu) {
    a.mem == b.mem && a.regs.(rdi := b.regs.rdi, r10 := b.regs.r10) == b.regs
  }

  lemma StepIsRecorded(prog: Cpu -> Cpu, c0: Cpu, steps: seq<Step>, final: Cpu, k: nat)
    requires k < |steps| && IsRecording(prog, c0, steps, final)
    ensures RecordsStep(steps[k])
    ensures Calls(steps)[k].Num() == steps[k].entry.regs.orig_rax
  {
  }

  lemma SimulatedIsNotMmap(calls: seq<SystemCall>, k: nat)
    requires k < |calls| && ShouldSimulateSystemCall(calls, k)
    ensures calls[k].Num() != MMAP
  {
  }

  /** The state a call is left with is the recorded one, but for rdi and r10 after an mmap. */
  lemma ExitModuloMmap(steps: seq<Step>, k: nat)
    requires k < |steps| && RecordsStep(steps[k])
    ensures steps[k].record.regs.orig_rax != MMAP ==> ReplayedExit(steps, k) == steps[k].exit
    ensures steps[k].record.regs.orig_rax == MMAP ==> SameButRdiR10(ReplayedExit(steps, k), steps[k].exit)
  {
  }

  // ---- Exactly when a replay reproduces the recorded run ----

  /** The state call k is left with when the replayer makes it at its recorded entry. */
  ghost function Redone(env: Env, steps: seq<Step>, k: nat): Cpu
    requires k < |steps|
  {
    var call, entry := Calls(steps)[k], steps[k].entry;
    if ShouldSimulateSystemCall(Calls(steps), k)
    then Cpu(entry.regs.(rax := ToU64(call.returnValue)), WriteAll(entry.mem, call.copies))
    else env.kernel(k, Cpu(MadeWith(call, entry.regs), entry.mem))
  }

  /** The recorded state, but for rdi and r10 after an mmap. */
  ghost predicate AsRecorded(exit: Cpu, s: Step) {
    if s.record.regs.orig_rax == MMAP then SameButRdiR10(exit, s.exit) else exit == s.exit
  }

  /**
    Redoing call k at its recorded entry does not raise, leaves the recorded
    state, and the process goes on from there to its next recorded entry.
   */
  ghost predicate RedoneAsRecorded(env: Env, steps: seq<Step>, final: Cpu, k: nat, callback: bool)
    requires k < |steps|
  {
    && (callback ==> PayloadReadable(steps, k))
    && WentThrough(env, Calls(steps), k, steps[k].entry, Redone(env, steps, k))
    && AsRecorded(Redone(env, steps, k), steps[k])
    && env.prog(Redone(env, steps, k)) == NextEntry(steps, final, k + 1)
  }

  ghost predicate AllRedone(env: Env, steps: seq<Step>, final: Cpu, callback: bool) {
    forall k | 0 <= k < |steps| :: RedoneAsRecorded(env, steps, final, k, callback)
  }

  ghost function AllEntries(steps: seq<Step>, final: Cpu): (cs: seq<Cpu>)
    ensures |cs| == |steps| + 1 && forall k | 0 <= k <= |steps| :: cs[k] == NextEntry(steps, final, k)
  {
    seq(|steps| + 1, k requires 0 <= k <= |steps| => NextEntry(steps, final, k))
  }

  ghost function AllResumes(env: Env, c0: Cpu, steps: seq<Step>): (cs: seq<Cpu>)
    ensures |cs| == |steps| + 1 && cs[0] == c0
    ensures forall k | 0 <= k < |steps| :: cs[k + 1] == Redone(env, steps, k)
  {
    seq(|steps| + 1, k requires 0 <= k <= |steps| => if k == 0 then c0 else Redone(env, steps, k - 1))
  }

  /** Then the tracee can go through all calls, from recorded entry to recorded entry. */
  lemma RedoneIsPossible(env: Env, c0: Cpu, steps: seq<Step>, final: Cpu, callback: bool)
    requires IsRecording(env.prog, c0, steps, final) && AllRedone(env, steps, final, callback)
    ensures Possible(env, c0, Calls(steps), callback, AllEntries(steps, final), AllResumes(env, c0, steps))
  {
    hide IsRecording, AllRedone, WentThrough, Redone, Calls, Accessible, AsRecorded;
    var calls, entries, resumes := Calls(steps), AllEntries(steps, final), AllResumes(env, c0, steps);
    forall k | 0 <= k < |steps|
      ensures CallDone(env, calls, entries, resumes, k) && (callback ==> CanBeRead(calls[k], entries[k]))
    {
      RedoneAt(env, c0, steps, final, k, callback);
    }
    RedoneAtEnd(env, c0, steps, final, callback);
  }

  lemma RedoneAt(env: Env, c0: Cpu, steps: seq<Step>, final: Cpu, k: nat, callback: bool)
    requires IsRecording(env.prog, c0, steps, final) && AllRedone(env, steps, final, callback) && k < |steps|
    ensures CallDone(env, Calls(steps), AllEntries(steps, final), AllResumes(env, c0, steps), k)
    ensures callback ==> CanBeRead(Calls(steps)[k], steps[k].entry)
    ensures AsRecorded(Redone(env, steps, k), steps[k])
  {
    hide WentThrough, Redone, Accessible, AsRecorded;
    assert RedoneAsRecorded(env, steps, final, k, callback);
    assert RunsOn(env.prog, c0, steps, final, k);
    if k > 0 {
      assert RedoneAsRecorded(env, steps, final, k - 1, callback);
    }
  }

  lemma RedoneAtEnd(env: Env, c0: Cpu, steps: seq<Step>, final: Cpu, callback: bool)
    requires IsRecording(env.prog, c0, steps, final) && AllRedone(env, steps, final, callback)
    ensures env.prog(AllResumes(env, c0, steps)[|steps|]) == final && final.regs.orig_rax == EXIT_GROUP
  {
    hide WentThrough, Redone, PayloadReadable, AsRecorded;
    assert RunsOn(env.prog, c0, steps, final, |steps|);
    if steps != [] {
      assert RedoneAsRecorded(env, steps, final, |steps| - 1, callback);
    }
  }

  /** What a completed replay that reproduces the run did at call k. */
  lemma ReproducedAt(env: Env, c0: Cpu, steps: seq<Step>, final: Cpu, callback: bool, o: Outcome, k: nat)
    requires CompletedAs(env, c0, Calls(steps), callback, o) && Reproduces(o.m, c0, steps, final) && k < |steps|
    ensures RedoneAsRecorded(env, steps, final, k, callback)
  {
    hide CalledBack, SameButRdiR10, AllAccessible, WriteAll, ShouldSimulateSystemCall, MadeWith, MayReturn, Calls;
    DoneAt(env, c0, Calls(steps), |steps|, o.m.entries, o.m.resumes, k);
    ToldMeansRead(o.output, Calls(steps), o.m.entries, |steps|, callback);
    if k + 1 < |steps| {
      DoneAt(env, c0, Calls(steps), |steps|, o.m.entries, o.m.resumes, k + 1);
    }
    hide History;
    assert o.m.resumes[k + 1] == Redone(env, steps, k);
    assert callback ==> CanBeRead(Calls(steps)[k], steps[k].entry);
  }

  /**
    A replay runs to the end and reproduces the recorded run if and only if
    redoing each call at its recorded entry neither raises nor leaves another
    state, and the process does not notice what an mmap leaves in rdi and r10:
    for every recording, with bytes caught or not, and every tracee kernel.
   */
  lemma ReproducesExactlyIff(env: Env, c0: Cpu, steps: seq<Step>, final: Cpu, callback: bool)
    requires IsRecording(env.prog, c0, steps, final)
    ensures var o := Replay(env, c0, Calls(steps), callback);
            o.Exited? && Reproduces(o.m, c0, steps, final) <==> AllRedone(env, steps, final, callback)
  {
    hide Replay, IsRecording, Reproduces, RedoneAsRecorded, Possible, CompletedAs, Calls;
    var o := Replay(env, c0, Calls(steps), callback);
    if o.Exited? && Reproduces(o.m, c0, steps, final) {
      PhaseDiscipline(env, c0, Calls(steps), callback);
      forall k | 0 <= k < |steps|
        ensures RedoneAsRecorded(env, steps, final, k, callback)
      {
        ReproducedAt(env, c0, steps, final, callback, o, k);
      }
    }
    if AllRedone(env, steps, final, callback) {
      RedoneIsPossible(env, c0, steps, final, callback);
      CompletesThrough(env, c0, Calls(steps), callback, AllEntries(steps, final), AllResumes(env, c0, steps));
      RedoneReproduces(env, c0, steps, final, callback, o);
    }
  }

  lemma RedoneReproduces(env: Env, c0: Cpu, steps: seq<Step>, final: Cpu, callback: bool, o: Outcome)
    requires IsRecording(env.prog, c0, steps, final) && AllRedone(env, steps, final, callback)
    requires CompletedAs(env, c0, Calls(steps), callback, o)
    requires o.m.entries == AllEntries(steps, final) && o.m.resumes == AllResumes(env, c0, steps)
    ensures Reproduces(o.m, c0, steps, final)
  {
    hide IsRecording, AllRedone, History, CalledBack, Redone, SameButRdiR10, CallDone, CanBeRead;
    forall k | 0 <= k < |steps|
      ensures AsRecorded(o.m.resumes[k + 1], steps[k])
    {
      RedoneAt(env, c0, steps, final, k, callback);
    }
  }

  /** A simulated call is redone as recorded if and only if its copies can be written and are its effect on memory. */
  lemma SimulatedIsRedoneIff(env: Env, c0: Cpu, steps: seq<Step>, final: Cpu, k: nat, callback: bool)
    requires k < |steps| && IsRecording(env.prog, c0, steps, final) && ShouldSimulateSystemCall(Calls(steps), k)
    requires forall c | c in steps[k].record.copies :: |c.bytes| < 0x8000_0000
    ensures RedoneAsRecorded(env, steps, final, k, callback) <==>
            && (callback ==> PayloadReadable(steps, k))
            && AllAccessible(steps[k].entry.mem, steps[k].record.copies)
            && ApplyCopies(steps[k].entry.mem, steps[k].record.copies) == steps[k].exit.mem
  {
    StepIsRecorded(env.prog, c0, steps, final, k);
    SimulatedIsNotMmap(Calls(steps), k);
    assert RunsOn(env.prog, c0, steps, final, k + 1);
    SignedRoundTrip(steps[k].record.ret);
    WriteAllIsApplyCopies(steps[k].entry.mem, steps[k].record.copies);
    hide IsRecording, ShouldSimulateSystemCall, WriteAll, ApplyCopies, AllAccessible, ToSigned, PayloadReadable;
  }

  /** A real call that may only return another number is redone as recorded if and only if it does not and may. */
  lemma RealIsRedoneIff(env: Env, c0: Cpu, steps: seq<Step>, final: Cpu, k: nat, callback: bool)
    requires k < |steps| && IsRecording(env.prog, c0, steps, final) && !ShouldSimulateSystemCall(Calls(steps), k)
    requires ActsAsRecorded(env, steps, k) && (callback ==> PayloadReadable(steps, k))
    ensures RedoneAsRecorded(env, steps, final, k, callback) <==> RealFaithfully(env, steps, k)
  {
    var call, entry := Calls(steps)[k], steps[k].entry;
    StepIsRecorded(env.prog, c0, steps, final, k);
    assert RunsOn(env.prog, c0, steps, final, k + 1);
    MadeForReal(call, entry.regs);
    RealReturnAccepted(Calls(steps), k, steps[k].record.ret);
    ExitModuloMmap(steps, k);
    hide IsRecording, ShouldSimulateSystemCall, Masked, NewRegisters, MadeWith, PayloadReadable, ToSigned, Calls;
    assert MayReturn(call, steps[k].record.ret) <==> ReturnValueAccepted(call, steps[k].record.ret);
  }


  lemma FaithfulIsRedone(env: Env, c0: Cpu, steps: seq<Step>, final: Cpu, callback: bool)
    requires IsRecording(env.prog, c0, steps, final) && AllFaithful(env, steps, callback)
    ensures AllRedone(env, steps, final, callback)
  {
    hide IsRecording, ShouldSimulateSystemCall, PayloadReadable, Calls, RedoneAsRecorded, MadeWith, ReplayedExit,
         AllAccessible, ApplyCopies;
    forall k | 0 <= k < |steps|
      ensures RedoneAsRecorded(env, steps, final, k, callback)
    {
      assert CallIsFaithful(env, steps, k, callback);
      if ShouldSimulateSystemCall(Calls(steps), k) {
        SimulatedIsRedoneIff(env, c0, steps, final, k, callback);
      } else {
        RealIsRedoneIff(env, c0, steps, final, k, callback);
      }
    }
  }

  /** The callback's payloads, when every call was entered as recorded, are the recorded buffers. */
  lemma {:induction false} PayloadsAre(output: seq<seq<Byte>>, steps: seq<Step>, entries: seq<Cpu>, n: nat,
                                       callback: bool)
    requires n <= |steps| && n <= |entries| && CalledBack(output, Calls(steps), entries, n, callback)
    requires forall k | 0 <= k < n :: entries[k] == steps[k].entry && RecordsStep(steps[k])
    ensures output == Payloads(steps, n, callback)
  {
    hide Accessible, IsPayload, Buffer;
    if n > 0 {
      if callback && WritesToStdout(Calls(steps)[n - 1]) {
        PayloadsAre(output[..|output| - 1], steps, entries, n - 1, callback);
        PayloadIs(output[|output| - 1], steps[n - 1]);
        assert output == output[..|output| - 1] + [output[|output| - 1]];
      } else {
        PayloadsAre(output, steps, entries, n - 1, callback);
      }
    }
  }

  lemma PayloadIs(payload: seq<Byte>, s: Step)
    requires IsPayload(payload, Loaded(s.record), s.entry) && RecordsStep(s)
    ensures payload == Buffer(s, s.record.regs.rdx)
  {
    AccessibleIsMapped(s.entry.mem, s.entry.regs.rsi, s.entry.regs.rdx);
  }

  /** Replay fidelity: a replay runs to the end with the recorded exit status and reproduces the recorded run. */
  lemma ReplayIsFaithful(env: Env, c0: Cpu, steps: seq<Step>, final: Cpu, callback: bool)
    requires IsRecording(env.prog, c0, steps, final)
    requires AllFaithful(env, steps, callback)
    ensures var o := Replay(env, c0, Calls(steps), callback);
            && o.Exited? && o.status == final.regs.rdi && Reproduces(o.m, c0, steps, final)
            && o.output == Payloads(steps, |steps|, callback)
  {
    hide Replay, Payloads, IsRecording, AllFaithful, AllRedone, History, CalledBack, SameButRdiR10, RecordsStep, Calls;
    var o := Replay(env, c0, Calls(steps), callback);
    FaithfulIsRedone(env, c0, steps, final, callback);
    ReproducesExactlyIff(env, c0, steps, final, callback);
    PhaseDiscipline(env, c0, Calls(steps), callback);
    forall k | 0 <= k < |steps|
      ensures RecordsStep(steps[k])
    {
      StepIsRecorded(env.prog, c0, steps, final, k);
    }
    PayloadsAre(o.output, steps, o.m.entries, |steps|, callback);
  }

  // ---- Standard output ----

  function Concat(ss: seq<seq<Byte>>): seq<Byte> {
    if ss == [] then [] else Concat(ss[..|ss| - 1]) + ss[|ss| - 1]
  }

  /** How many bytes a write wrote: none when it failed. */
  function Wrote(s: Step): nat {
    if s.record.ret < 0x8000_0000_0000_0000 then s.record.ret else 0
  }

  /** A write to descriptor 1 returned at most what it was asked to write, or an error. */
  ghost predicate WriteIsPossible(s: Step) {
    IsStdoutWrite(Loaded(s.record)) ==> Wrote(s) <= s.record.regs.rdx
  }

  /** It wrote all it was asked to. */
  ghost predicate WriteIsWhole(s: Step) {
    IsStdoutWrite(Loaded(s.record)) ==> Wrote(s) == s.record.regs.rdx
  }

  ghost predicate WritesAreWhole(steps: seq<Step>, n: nat)
    requires n <= |steps|
  {
    forall k | 0 <= k < n :: WriteIsWhole(steps[k])
  }

  /** The bytes the recorded process wrote to descriptor 1: as many as each write returned. */
  ghost function WrittenToStdout(steps: seq<Step>, n: nat): seq<Byte>
    requires n <= |steps|
  {
    if n == 0 then []
    else
      var s := steps[n - 1];
      WrittenToStdout(steps, n - 1) +
      if s.entry.regs.orig_rax == WRITE && s.entry.regs.rdi == 1 then Buffer(s, Wrote(s)) else []
  }

  ghost predicate StdoutReadable(steps: seq<Step>) {
    forall k | 0 <= k < |steps| :: PayloadReadable(steps, k) && RecordsStep(steps[k]) && WriteIsPossible(steps[k])
  }

  /** One payload holds at least what the write wrote, and just that when it was whole. */
  lemma PayloadCoversWrite(s: Step)
    requires RecordsStep(s) && WriteIsPossible(s) && IsStdoutWrite(Loaded(s.record))
    requires Accessible(s.entry.mem, s.record.regs.rsi, s.record.regs.rdx)
    ensures var payload, written := Buffer(s, s.record.regs.rdx), Buffer(s, Wrote(s));
            && |payload| == s.record.regs.rdx && |written| == Wrote(s) <= |payload|
            && (payload == written <==> WriteIsWhole(s))
  {
    AccessibleIsMapped(s.entry.mem, s.record.regs.rsi, s.record.regs.rdx);
  }

  lemma ConcatOneMore(ss: seq<seq<Byte>>, one: seq<Byte>)
    ensures Concat(ss + [one]) == Concat(ss) + one
  {
    assert (ss + [one])[..|ss|] == ss;
  }

  /** The payloads add up to what was written if and only if every write to descriptor 1 was whole. */
  lemma {:induction false} PayloadsAreWrittenIff(steps: seq<Step>, n: nat)
    requires n <= |steps| && StdoutReadable(steps)
    ensures |WrittenToStdout(steps, n)| <= |Concat(Payloads(steps, n, true))|
    ensures Concat(Payloads(steps, n, true)) == WrittenToStdout(steps, n) <==> WritesAreWhole(steps, n)
  {
    hide *;
    if n == 0 {
      NothingWritten(steps);
    } else {
      var s := steps[n - 1];
      PayloadsAreWrittenIff(steps, n - 1);
      StdoutWriteReadable(steps, n - 1);
      OneMoreWrite(steps, n);
      var payloads, written := Payloads(steps, n - 1, true), WrittenToStdout(steps, n - 1);
      if IsStdoutWrite(Loaded(s.record)) {
        PayloadCoversWrite(s);
        ConcatOneMore(payloads, Buffer(s, s.record.regs.rdx));
        AppendsAgreeIff(Concat(payloads), written, Buffer(s, s.record.regs.rdx), Buffer(s, Wrote(s)));
      } else {
        assert payloads + [] == payloads && written + [] == written;
      }
    }
  }

  lemma NothingWritten(steps: seq<Step>)
    ensures Concat(Payloads(steps, 0, true)) == WrittenToStdout(steps, 0) == [] && WritesAreWhole(steps, 0)
  {
  }

  lemma OneMoreWrite(steps: seq<Step>, n: nat)
    requires 0 < n <= |steps| && RecordsStep(steps[n - 1])
    ensures var s := steps[n - 1];
            var told := IsStdoutWrite(Loaded(s.record));
            && Payloads(steps, n, true) == Payloads(steps, n - 1, true)
                 + (if told then [Buffer(s, s.record.regs.rdx)] else [])
            && WrittenToStdout(steps, n) == WrittenToStdout(steps, n - 1) + (if told then Buffer(s, Wrote(s)) else [])
            && (WritesAreWhole(steps, n) <==> WritesAreWhole(steps, n - 1) && WriteIsWhole(s))
            && (!told ==> WriteIsWhole(s))
  {
    hide Buffer;
  }

  lemma StdoutWriteReadable(steps: seq<Step>, k: nat)
    requires k < |steps| && StdoutReadable(steps)
    ensures RecordsStep(steps[k]) && WriteIsPossible(steps[k])
    ensures IsStdoutWrite(Loaded(steps[k].record)) ==>
              Accessible(steps[k].entry.mem, steps[k].record.regs.rsi, steps[k].record.regs.rdx)
  {
  }

  lemma AppendsAgreeIff(a: seq<Byte>, b: seq<Byte>, x: seq<Byte>, y: seq<Byte>)
    requires |b| <= |a| && |y| <= |x|
    ensures a + x == b + y <==> a == b && x == y
  {
    if a + x == b + y {
      assert a == (a + x)[..|a|] && b == (b + y)[..|b|] && x == (a + x)[|a|..] && y == (b + y)[|b|..];
    }
  }

  /**
    Observed output: what a replay calls back with adds up to the bytes the
    recorded process wrote to descriptor 1, if and only if each of its writes
    wrote all it was asked to.
   */
  lemma OutputIsReproduced(env: Env, c0: Cpu, steps: seq<Step>, final: Cpu)
    requires IsRecording(env.prog, c0, steps, final) && AllFaithful(env, steps, true)
    requires forall k | 0 <= k < |steps| :: WriteIsPossible(steps[k])
    ensures Concat(Replay(env, c0, Calls(steps), true).output) == WrittenToStdout(steps, |steps|)
            <==> WritesAreWhole(steps, |steps|)
  {
    ReplayIsFaithful(env, c0, steps, final, true);
    hide Replay, Payloads, Concat, WrittenToStdout, WritesAreWhole, WriteIsPossible, RecordsStep, PayloadReadable,
         SimulatedFaithfully, RealFaithfully;
    forall k | 0 <= k < |steps|
      ensures PayloadReadable(steps, k) && RecordsStep(steps[k])
    {
      StepIsRecorded(env.prog, c0, steps, final, k);
      assert CallIsFaithful(env, steps, k, true);
    }
    PayloadsAreWrittenIff(steps, |steps|);
  }
}
