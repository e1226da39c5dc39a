/**
  What every replay does, whatever the tracee: through which states it takes
  each recorded call, what it calls back with, and for which reason it ends.
 */
module ReplayHistory {
  import opened Bytes
  import opened Memory
  import opened Format
  import opened TraceeMemory
  import opened ShouldSimulate
  import opened ReplaySpec

  /** The registers a call is made with for real: an mmap gets its recorded address, and bit 4 of its flags. */
  function MadeWith(call: SystemCall, regs: WordRegisters): WordRegisters {
    if call.regs.orig_rax == 9
    then regs.(rdi := ToU64(call.returnValue), r10 := if regs.r10 / 16 % 2 == 1 then regs.r10 else regs.r10 + 16)
    else regs
  }

  /** Whether a call made for real may return rax. */
  predicate MayReturn(call: SystemCall, rax: U64) {
    rax == call.returnValue || call.regs.orig_rax in {0, 3, 5, 9, 10, 257}
  }

  /** Call i, met at `entry`, left the tracee at `exit`: with its record's effect, or the kernel's. */
  ghost predicate WentThrough(env: Env, calls: seq<SystemCall>, i: nat, entry: Cpu, exit: Cpu)
    requires i < |calls|
  {
    var call := calls[i];
    && entry.regs.orig_rax == call.regs.orig_rax
    && if ShouldSimulateSystemCall(calls, i) then
         && AllAccessible(entry.mem, call.copies)
         && exit == Cpu(entry.regs.(rax := ToU64(call.returnValue)), WriteAll(entry.mem, call.copies))
       else
         && exit == env.kernel(i, Cpu(MadeWith(call, entry.regs), entry.mem))
         && MayReturn(call, exit.regs.rax)
  }

  ghost predicate CallDone(env: Env, calls: seq<SystemCall>, entries: seq<Cpu>, resumes: seq<Cpu>, i: nat)
    requires i < |calls| && i < |entries| && i + 1 < |resumes|
  {
    entries[i] == env.prog(resumes[i]) && WentThrough(env, calls, i, entries[i], resumes[i + 1])
  }

  /** The first k calls, in order, from state c on. */
  ghost predicate History(env: Env, c: Cpu, calls: seq<SystemCall>, k: nat, entries: seq<Cpu>, resumes: seq<Cpu>) {
    && k <= |calls| && k <= |entries| && k < |resumes| && resumes[0] == c
    && forall i | 0 <= i < k :: CallDone(env, calls, entries, resumes, i)
  }

  predicate WritesToStdout(call: SystemCall) {
    call.regs.orig_rax == 1 && call.regs.rdi == 1
  }

  /** The payload is the buffer of the write, as it was when the tracee entered it. */
  ghost predicate IsPayload(payload: seq<Byte>, call: SystemCall, entry: Cpu) {
    && call.regs.rdx < 0x8000_0000 && |payload| == call.regs.rdx
    && Accessible(entry.mem, call.regs.rsi, call.regs.rdx)
    && forall j | 0 <= j < |payload| :: call.regs.rsi + j in entry.mem && payload[j] == entry.mem[call.regs.rsi + j]
  }

  /** The callback was called once for each write to descriptor 1 among the first n calls, in order. */
  ghost predicate CalledBack(output: seq<seq<Byte>>, calls: seq<SystemCall>, entries: seq<Cpu>, n: nat, callback: bool)
    requires n <= |calls| && n <= |entries|
  {
    if n == 0 then output == []
    else if callback && WritesToStdout(calls[n - 1]) then
      && output != [] && IsPayload(output[|output| - 1], calls[n - 1], entries[n - 1])
      && CalledBack(output[..|output| - 1], calls, entries, n - 1, callback)
    else CalledBack(output, calls, entries, n - 1, callback)
  }

  /** Between calls, k of them done. */
  ghost predicate Underway(env: Env, c: Cpu, calls: seq<SystemCall>, k: nat, callback: bool, m: Machine,
                           output: seq<seq<Byte>>) {
    && !m.inSyscall && m.stops == 2 * k && |m.entries| == |m.resumes| == k
    && History(env, c, calls, k, m.entries, m.resumes + [m.cpu])
    && CalledBack(output, calls, m.entries, k, callback)
  }

  /** At an entry stop, k calls done. */
  ghost predicate AtEntry(env: Env, c: Cpu, calls: seq<SystemCall>, k: nat, m: Machine) {
    && |m.entries| == |m.resumes| == k + 1
    && History(env, c, calls, k, m.entries, m.resumes)
    && m.entries[k] == env.prog(m.resumes[k])
  }

  /** As the tracee entered the call. */
  ghost predicate Untouched(m: Machine, k: nat)
    requires k < |m.entries|
  {
    m.cpu == m.entries[k] && m.inSyscall && m.stops == 2 * k + 1
  }

  // ---- Why a replay raises ----

  /** The number the k-th system call of the tracee has to have. */
  function ExpectedNumber(calls: seq<SystemCall>, k: nat): int
    requires k <= |calls|
  {
    if k < |calls| then calls[k].regs.orig_rax else 231
  }

  ghost predicate RaisesWrongNumber(calls: seq<SystemCall>, k: nat, callback: bool, o: Outcome)
    requires o.Raised? && k <= |calls| && k < |o.m.entries|
  {
    var received := o.m.entries[k].regs.orig_rax;
    && received != ExpectedNumber(calls, k) && o.error == UnexpectedSysCall(ExpectedNumber(calls, k), received)
    && Untouched(o.m, k) && CalledBack(o.output, calls, o.m.entries, k, callback)
  }

  /** A payload longer than a C int, or one that cannot be read. */
  ghost predicate RaisesOnPayload(calls: seq<SystemCall>, k: nat, callback: bool, o: Outcome)
    requires o.Raised? && k < |calls| && k < |o.m.entries|
  {
    var regs := calls[k].regs;
    && callback && WritesToStdout(calls[k]) && regs.orig_rax == o.m.entries[k].regs.orig_rax
    && (if regs.rdx >= 0x8000_0000 then o.error == OverflowError
        else !Accessible(o.m.entries[k].mem, regs.rsi, regs.rdx) && o.error == SystemError)
    && Untouched(o.m, k) && CalledBack(o.output, calls, o.m.entries, k, callback)
  }

  /** A copy of a simulated call meets an unmapped word: the tracee has -38 in rax and the bytes up to there. */
  ghost predicate RaisesOnCopy(calls: seq<SystemCall>, k: nat, callback: bool, o: Outcome)
    requires o.Raised? && k < |calls| && k < |o.m.entries|
  {
    var entry := o.m.entries[k];
    && ShouldSimulateSystemCall(calls, k) && entry.regs.orig_rax == calls[k].regs.orig_rax
    && !AllAccessible(entry.mem, calls[k].copies) && o.error == SystemError
    && o.m.cpu == Cpu(entry.regs.(orig_rax := ToU64(-5), rax := ToU64(-38)),
                      WriteUpToFailure(entry.mem, calls[k].copies))
    && !o.m.inSyscall && o.m.stops == 2 * k + 2
    && CalledBack(o.output, calls, o.m.entries, k + 1, callback)
  }

  /** A validated call made for real returned something else. */
  ghost predicate RaisesOnReturn(env: Env, calls: seq<SystemCall>, k: nat, callback: bool, o: Outcome)
    requires o.Raised? && k < |calls| && k < |o.m.entries|
  {
    var entry := o.m.entries[k];
    && !ShouldSimulateSystemCall(calls, k) && entry.regs.orig_rax == calls[k].regs.orig_rax
    && o.m.cpu == env.kernel(k, Cpu(MadeWith(calls[k], entry.regs), entry.mem))
    && !MayReturn(calls[k], o.m.cpu.regs.rax)
    && o.error == UnexpectedReturnValue(calls[k].returnValue, o.m.cpu.regs.rax)
    && !o.m.inSyscall && o.m.stops == 2 * k + 2
    && CalledBack(o.output, calls, o.m.entries, k + 1, callback)
  }

  /** The replay went through k calls, and the next one raised. */
  ghost predicate RaisedAt(env: Env, c: Cpu, calls: seq<SystemCall>, k: nat, callback: bool, o: Outcome) {
    && o.Raised? && k <= |calls| && AtEntry(env, c, calls, k, o.m)
    && (RaisesWrongNumber(calls, k, callback, o)
        || (k < |calls| && (RaisesOnPayload(calls, k, callback, o) || RaisesOnCopy(calls, k, callback, o)
                            || RaisesOnReturn(env, calls, k, callback, o))))
  }

  /** The replay went through all calls and the tracee through its exit_group. */
  ghost predicate CompletedAs(env: Env, c: Cpu, calls: seq<SystemCall>, callback: bool, o: Outcome) {
    var n := |calls|;
    && o.Exited? && AtEntry(env, c, calls, n, o.m)
    && o.m.entries[n].regs.orig_rax == 231 && o.status == o.m.entries[n].regs.rdi
    && o.m.cpu == env.kernel(n, o.m.entries[n]) && !o.m.inSyscall && o.m.stops == 2 * n + 2
    && CalledBack(o.output, calls, o.m.entries, n, callback)
  }

  // ---- One call ----

  lemma {:induction false} CalledBackIgnoresLater(output: seq<seq<Byte>>, calls: seq<SystemCall>, entries: seq<Cpu>,
                                                  more: seq<Cpu>, n: nat, callback: bool)
    requires n <= |calls| && n <= |entries|
    ensures CalledBack(output, calls, entries + more, n, callback) == CalledBack(output, calls, entries, n, callback)
  {
    hide IsPayload, WritesToStdout;
    if n > 0 {
      CalledBackIgnoresLater(output, calls, entries, more, n - 1, callback);
      if output != [] {
        CalledBackIgnoresLater(output[..|output| - 1], calls, entries, more, n - 1, callback);
      }
    }
  }

  lemma HistoryIgnoresLater(env: Env, c: Cpu, calls: seq<SystemCall>, k: nat, entries: seq<Cpu>, resumes: seq<Cpu>,
                            more: seq<Cpu>)
    requires History(env, c, calls, k, entries, resumes)
    ensures History(env, c, calls, k, entries + more, resumes)
  {
    hide WentThrough;
    forall i | 0 <= i < k
      ensures CallDone(env, calls, entries + more, resumes, i)
    {
      assert CallDone(env, calls, entries, resumes, i);
    }
  }

  lemma HistoryOneMore(env: Env, c: Cpu, calls: seq<SystemCall>, k: nat, entries: seq<Cpu>, resumes: seq<Cpu>,
                       exit: Cpu)
    requires History(env, c, calls, k, entries, resumes) && k < |calls| && |entries| == |resumes| == k + 1
    requires entries[k] == env.prog(resumes[k]) && WentThrough(env, calls, k, entries[k], exit)
    ensures History(env, c, calls, k + 1, entries, resumes + [exit])
  {
    hide WentThrough;
    forall i | 0 <= i < k + 1
      ensures CallDone(env, calls, entries, resumes + [exit], i)
    {
      assert i < k ==> CallDone(env, calls, entries, resumes, i);
    }
  }

  lemma EntryOf(env: Env, c: Cpu, calls: seq<SystemCall>, k: nat, callback: bool, m: Machine, output: seq<seq<Byte>>)
    requires k <= |calls| && Underway(env, c, calls, k, callback, m, output)
    ensures var entry := RunStop(env, m);
            AtEntry(env, c, calls, k, entry) && Untouched(entry, k)
                && CalledBack(output, calls, entry.entries, k, callback)
  {
    hide CalledBack, History;
    var entry := RunStop(env, m);
    HistoryIgnoresLater(env, c, calls, k, m.entries, m.resumes + [m.cpu], [entry.cpu]);
    CalledBackIgnoresLater(output, calls, m.entries, [entry.cpu], k, callback);
  }

  /** The callback at an entry stop. */
  lemma PayloadTold(m: Machine, calls: seq<SystemCall>, k: nat, callback: bool, output: seq<seq<Byte>>)
    requires k < |calls| && k < |m.entries| && Untouched(m, k)
    requires m.cpu.regs.orig_rax == calls[k].regs.orig_rax
    requires CalledBack(output, calls, m.entries, k, callback)
    ensures var o := WithStdout(m, calls[k], callback, output);
            && !o.Exited? && o.m == m
            && (o.Going? ==> CalledBack(o.output, calls, m.entries, k + 1, callback))
            && (o.Raised? ==> RaisesOnPayload(calls, k, callback, o))
  {
    hide Accessible;
    var o := WithStdout(m, calls[k], callback, output);
    if o.Going? && callback && WritesToStdout(calls[k]) {
      AccessibleIsMapped(m.cpu.mem, calls[k].regs.rsi, calls[k].regs.rdx);
      assert o.output[..|o.output| - 1] == output;
    }
  }

  lemma SimulatedCall(env: Env, m: Machine, calls: seq<SystemCall>, k: nat, output: seq<seq<Byte>>)
    requires k < |calls| && k < |m.entries| && Untouched(m, k) && ShouldSimulateSystemCall(calls, k)
    requires m.cpu.regs.orig_rax == calls[k].regs.orig_rax
    ensures var o := Simulate(env, m, calls[k], output);
            var exit := Cpu(m.cpu.regs.(rax := ToU64(calls[k].returnValue)), WriteAll(m.cpu.mem, calls[k].copies));
            if AllAccessible(m.cpu.mem, calls[k].copies)
            then o == Going(m.(cpu := exit, inSyscall := false, stops := 2 * k + 2), output)
            else o == Raised(SystemError, m.(cpu := Cpu(m.cpu.regs.(orig_rax := ToU64(-5), rax := ToU64(-38)),
                                                       WriteUpToFailure(m.cpu.mem, calls[k].copies)),
                                             inSyscall := false, stops := 2 * k + 2), output)
  {
    MaskedWords(m.cpu.regs, INVALID_SYSCALL);
    MaskedWords(m.cpu.regs, calls[k].returnValue);
    if AllAccessible(m.cpu.mem, calls[k].copies) {
      WriteAllUnlessFailing(m.cpu.mem, calls[k].copies);
    }
    hide Masked, WriteAll, WriteUpToFailure, AllAccessible, ShouldSimulateSystemCall;
  }

  lemma RealCall(env: Env, m: Machine, calls: seq<SystemCall>, k: nat, output: seq<seq<Byte>>)
    requires k < |calls| && |m.entries| == k + 1 && Untouched(m, k) && !ShouldSimulateSystemCall(calls, k)
    requires m.cpu.regs.orig_rax == calls[k].regs.orig_rax
    ensures var o := RunReal(env, m, calls[k], output);
            var exit := env.kernel(k, Cpu(MadeWith(calls[k], m.cpu.regs), m.cpu.mem));
            var m' := m.(cpu := exit, inSyscall := false, stops := 2 * k + 2);
            o == if MayReturn(calls[k], exit.regs.rax) then Going(m', output)
                 else Raised(UnexpectedReturnValue(calls[k].returnValue, exit.regs.rax), m', output)
  {
    MadeForReal(calls[k], m.cpu.regs);
    RealNumber(calls, k);
    hide Masked, NewRegisters, MadeWith, ShouldSimulateSystemCall;
  }

  lemma MadeForReal(call: SystemCall, r: WordRegisters)
    ensures Masked(NewRegisters(call, r)) == MadeWith(call, r)
    ensures MadeWith(call, r).orig_rax == r.orig_rax
  {
  }

  lemma RealNumber(calls: seq<SystemCall>, k: nat)
    requires k < |calls| && !ShouldSimulateSystemCall(calls, k)
    ensures calls[k].regs.orig_rax != ToU64(INVALID_SYSCALL)
  {
  }

  /** Where one call leads from its entry stop. */
  lemma CallAtEntry(env: Env, c: Cpu, calls: seq<SystemCall>, k: nat, callback: bool, m: Machine,
                    output: seq<seq<Byte>>)
    requires k < |calls| && AtEntry(env, c, calls, k, m) && Untouched(m, k)
    requires CalledBack(output, calls, m.entries, k, callback)
    ensures var o := Through(env, m, calls, k, callback, output);
            && !o.Exited?
            && (o.Going? ==> Underway(env, c, calls, k + 1, callback, o.m, o.output))
            && (o.Raised? ==> RaisedAt(env, c, calls, k, callback, o))
  {
    hide WithStdout, Simulate, RunReal, CalledBack, History, ShouldSimulateSystemCall, MadeWith, MayReturn,
         AllAccessible, WriteAll, WriteUpToFailure;
    if m.cpu.regs.orig_rax == calls[k].regs.orig_rax {
      PayloadTold(m, calls, k, callback, output);
      var told := WithStdout(m, calls[k], callback, output).output;
      var o := Through(env, m, calls, k, callback, output);
      if ShouldSimulateSystemCall(calls, k) {
        SimulatedCall(env, m, calls, k, told);
      } else {
        RealCall(env, m, calls, k, told);
      }
      if o.Going? {
        HistoryOneMore(env, c, calls, k, m.entries, m.resumes, o.m.cpu);
      }
    }
  }

  /** The exit stop after the last call. */
  lemma ExitFrom(env: Env, c: Cpu, calls: seq<SystemCall>, callback: bool, m: Machine, output: seq<seq<Byte>>)
    requires Underway(env, c, calls, |calls|, callback, m, output)
    ensures var o := ExitStatus(env, m, output);
            if o.Exited? then CompletedAs(env, c, calls, callback, o) else RaisedAt(env, c, calls, |calls|, callback, o)
  {
    EntryOf(env, c, calls, |calls|, callback, m, output);
    hide CalledBack, History;
  }

  /** Every replay completes, or raises at some call for one of four reasons. */
  ghost predicate Ended(env: Env, c: Cpu, calls: seq<SystemCall>, callback: bool, o: Outcome) {
    CompletedAs(env, c, calls, callback, o)
    || (o.Raised? && o.m.entries != [] && RaisedAt(env, c, calls, |o.m.entries| - 1, callback, o))
  }

  lemma {:induction false} EndsFrom(env: Env, c: Cpu, calls: seq<SystemCall>, k: nat, callback: bool, m: Machine,
                                    output: seq<seq<Byte>>)
    requires k <= |calls| && Underway(env, c, calls, k, callback, m, output)
    ensures Ended(env, c, calls, callback, ReplayFrom(env, m, calls, k, callback, output))
    decreases |calls| - k
  {
    if k == |calls| {
      ExitFrom(env, c, calls, callback, m, output);
      ReplayEnd(env, m, calls, callback, output);
      RaisedCount(env, c, calls, k, callback, ExitStatus(env, m, output));
    } else {
      ReplayRound(env, m, calls, k, callback, output);
      EntryOf(env, c, calls, k, callback, m, output);
      hide Underway, AtEntry, RunStop, Through, ReplayFrom;
      CallAtEntry(env, c, calls, k, callback, RunStop(env, m), output);
      var step := Through(env, RunStop(env, m), calls, k, callback, output);
      if step.Going? {
        EndsFrom(env, c, calls, k + 1, callback, step.m, step.output);
      } else {
        RaisedCount(env, c, calls, k, callback, step);
      }
    }
  }

  lemma RaisedCount(env: Env, c: Cpu, calls: seq<SystemCall>, k: nat, callback: bool, o: Outcome)
    ensures RaisedAt(env, c, calls, k, callback, o) ==> |o.m.entries| - 1 == k
  {
  }

  /** Before the first call. */
  lemma Begins(env: Env, c: Cpu, calls: seq<SystemCall>, callback: bool)
    ensures Underway(env, c, calls, 0, callback, Attached(c), [])
  {
  }

  /** Every replay ends, in one of the ways described above. */
  lemma EveryReplayEnds(env: Env, c: Cpu, calls: seq<SystemCall>, callback: bool)
    ensures Ended(env, c, calls, callback, Replay(env, c, calls, callback))
  {
    hide Ended, Underway, ReplayFrom;
    Begins(env, c, calls, callback);
    EndsFrom(env, c, calls, 0, callback, Attached(c), []);
  }

  /**
    A replay that completes on n recorded calls makes exactly 2n + 2 stops,
    entry and exit in turn, and meets each recorded call once and in order. A
    simulated call leaves the memory it was entered with patched by all of its
    copies, and the registers with the recorded rax; a call made for real leaves
    what the kernel made of it. The callback got the buffer of every write to
    descriptor 1 at its entry.
   */
  lemma PhaseDiscipline(env: Env, c: Cpu, calls: seq<SystemCall>, callback: bool)
    requires Replay(env, c, calls, callback).Exited?
    ensures CompletedAs(env, c, calls, callback, Replay(env, c, calls, callback))
  {
    hide CompletedAs, RaisedAt, Replay;
    EveryReplayEnds(env, c, calls, callback);
  }

  /** A replay that raises does so at some call k, for one of four reasons, and the error says which. */
  lemma RaisesBecause(env: Env, c: Cpu, calls: seq<SystemCall>, callback: bool)
    requires Replay(env, c, calls, callback).Raised?
    ensures var o := Replay(env, c, calls, callback);
            o.m.entries != [] && RaisedAt(env, c, calls, |o.m.entries| - 1, callback, o)
  {
    hide RaisedAt, Replay;
    EveryReplayEnds(env, c, calls, callback);
  }

  /**
    A system call other than the recorded one raises, with both numbers, before
    the replayer has touched the tracee: its registers and memory are those it
    entered with.
   */
  lemma WrongCallRaisesUntouched(env: Env, c: Cpu, calls: seq<SystemCall>, callback: bool)
    requires Replay(env, c, calls, callback).Raised?
    requires Replay(env, c, calls, callback).error.UnexpectedSysCall?
    ensures var o := Replay(env, c, calls, callback);
            && 0 < |o.m.entries| <= |calls| + 1
            && var k := |o.m.entries| - 1;
               var received := o.m.entries[k].regs.orig_rax;
               && o.error == UnexpectedSysCall(ExpectedNumber(calls, k), received)
               && received != ExpectedNumber(calls, k) && Untouched(o.m, k)
  {
    hide History, CalledBack, Replay;
    RaisesBecause(env, c, calls, callback);
  }

  // ---- When a replay completes ----

  ghost predicate CanBeRead(call: SystemCall, entry: Cpu) {
    WritesToStdout(call) ==> call.regs.rdx < 0x8000_0000 && Accessible(entry.mem, call.regs.rsi, call.regs.rdx)
  }

  /** The tracee can go through all calls this way, and then enters exit_group. */
  ghost predicate Possible(env: Env, c: Cpu, calls: seq<SystemCall>, callback: bool, entries: seq<Cpu>,
                           resumes: seq<Cpu>) {
    var n := |calls|;
    && |entries| == |resumes| == n + 1 && History(env, c, calls, n, entries, resumes)
    && entries[n] == env.prog(resumes[n]) && entries[n].regs.orig_rax == 231
    && (callback ==> forall i | 0 <= i < n :: CanBeRead(calls[i], entries[i]))
  }

  /** Where the k-th call is entered, and what it went on from, is determined. */
  lemma {:induction false} OneHistory(env: Env, c: Cpu, calls: seq<SystemCall>, k: nat, entries: seq<Cpu>,
                                      resumes: seq<Cpu>, entries': seq<Cpu>, resumes': seq<Cpu>)
    requires History(env, c, calls, k, entries, resumes) && History(env, c, calls, k, entries', resumes')
    ensures entries[..k] == entries'[..k] && resumes[..k + 1] == resumes'[..k + 1]
  {
    hide AllAccessible, WriteAll, MadeWith, MayReturn, ShouldSimulateSystemCall;
    if k > 0 {
      OneHistory(env, c, calls, k - 1, entries, resumes, entries', resumes');
      assert CallDone(env, calls, entries, resumes, k - 1) && CallDone(env, calls, entries', resumes', k - 1);
      assert resumes[..k][k - 1] == resumes'[..k][k - 1];
    }
  }

  lemma ShorterHistory(env: Env, c: Cpu, calls: seq<SystemCall>, n: nat, entries: seq<Cpu>, resumes: seq<Cpu>, k: nat)
    requires History(env, c, calls, n, entries, resumes) && k <= n
    ensures History(env, c, calls, k, entries, resumes)
  {
    hide CallDone;
  }

  lemma {:induction false} ToldMeansRead(output: seq<seq<Byte>>, calls: seq<SystemCall>, entries: seq<Cpu>, n: nat,
                                         callback: bool)
    requires n <= |calls| && n <= |entries| && CalledBack(output, calls, entries, n, callback)
    ensures callback ==> forall i | 0 <= i < n :: CanBeRead(calls[i], entries[i])
  {
    hide Accessible;
    if n > 0 {
      var same := !(callback && WritesToStdout(calls[n - 1]));
      ToldMeansRead(if same then output else output[..|output| - 1], calls, entries, n - 1, callback);
    }
  }

  /** A call that some possible replay goes through is not one to raise at. */
  lemma NoReasonToRaise(env: Env, c: Cpu, calls: seq<SystemCall>, callback: bool, entries: seq<Cpu>,
                        resumes: seq<Cpu>, k: nat, o: Outcome)
    requires Possible(env, c, calls, callback, entries, resumes) && k <= |calls|
    ensures !RaisedAt(env, c, calls, k, callback, o)
  {
    hide History, CalledBack, AllAccessible, Accessible, WriteAll, WriteUpToFailure, MadeWith, ShouldSimulateSystemCall;
    ShorterHistory(env, c, calls, |calls|, entries, resumes, k);
    if k < |calls| {
      DoneAt(env, c, calls, |calls|, entries, resumes, k);
      assert callback ==> CanBeRead(calls[k], entries[k]);
    }
    if AtEntry(env, c, calls, k, o.m) {
      OneHistory(env, c, calls, k, entries, resumes, o.m.entries, o.m.resumes);
      assert resumes[..k + 1][k] == o.m.resumes[..k + 1][k];
    }
  }

  lemma DoneAt(env: Env, c: Cpu, calls: seq<SystemCall>, n: nat, entries: seq<Cpu>, resumes: seq<Cpu>, k: nat)
    requires History(env, c, calls, n, entries, resumes) && k < n
    ensures CallDone(env, calls, entries, resumes, k)
  {
    hide CallDone;
  }

  /** A replay completes if and only if the tracee can go through all calls, and then it went through these states. */
  lemma CompletesIff(env: Env, c: Cpu, calls: seq<SystemCall>, callback: bool)
    ensures var o := Replay(env, c, calls, callback);
            o.Exited? <==> exists entries, resumes :: Possible(env, c, calls, callback, entries, resumes)
    ensures var o := Replay(env, c, calls, callback);
            forall entries, resumes | Possible(env, c, calls, callback, entries, resumes) ::
              o.m.entries == entries && o.m.resumes == resumes
  {
    hide Replay, Possible, RaisedAt, CompletedAs;
    var o := Replay(env, c, calls, callback);
    EveryReplayEnds(env, c, calls, callback);
    if o.Exited? {
      CompletedIsPossible(env, c, calls, callback, o);
    }
    forall entries, resumes | Possible(env, c, calls, callback, entries, resumes)
      ensures o.Exited? && o.m.entries == entries && o.m.resumes == resumes
    {
      CompletesThrough(env, c, calls, callback, entries, resumes);
    }
  }

  lemma CompletedIsPossible(env: Env, c: Cpu, calls: seq<SystemCall>, callback: bool, o: Outcome)
    requires CompletedAs(env, c, calls, callback, o)
    ensures Possible(env, c, calls, callback, o.m.entries, o.m.resumes)
  {
    hide History, CalledBack, CanBeRead;
    ToldMeansRead(o.output, calls, o.m.entries, |calls|, callback);
  }

  lemma CompletesThrough(env: Env, c: Cpu, calls: seq<SystemCall>, callback: bool, entries: seq<Cpu>,
                         resumes: seq<Cpu>)
    requires Possible(env, c, calls, callback, entries, resumes)
    ensures var o := Replay(env, c, calls, callback);
            && o.Exited? && o.m.entries == entries && o.m.resumes == resumes
            && CompletedAs(env, c, calls, callback, o)
  {
    hide Replay, RaisedAt, History, CalledBack, CanBeRead;
    var o := Replay(env, c, calls, callback);
    EveryReplayEnds(env, c, calls, callback);
    if o.Raised? && o.m.entries != [] {
      var k := |o.m.entries| - 1;
      RaisedWithin(env, c, calls, k, callback, o);
      if k <= |calls| {
        NoReasonToRaise(env, c, calls, callback, entries, resumes, k, o);
      }
    }
    var n := |calls|;
    OneHistory(env, c, calls, n, entries, resumes, o.m.entries, o.m.resumes);
    assert resumes[..n + 1] == resumes && o.m.resumes[..n + 1] == o.m.resumes;
    assert entries == entries[..n] + [entries[n]] && o.m.entries == o.m.entries[..n] + [o.m.entries[n]];
  }

  lemma RaisedWithin(env: Env, c: Cpu, calls: seq<SystemCall>, k: nat, callback: bool, o: Outcome)
    ensures RaisedAt(env, c, calls, k, callback, o) ==> k <= |calls|
  {
  }
}
