/**
  The replayed process and what the replayer makes of it, as functions: a
  stopped tracee, the two kinds of stop, and one recorded call after another.
 */
module ReplaySpec {
  import opened Bytes
  import opened Memory
  import opened Format
  import opened Wrappers
  import opened TraceeMemory
  import opened ShouldSimulate

  const ENOSYS: int := 38

  /** The number the replayer puts in orig_rax so that the kernel refuses the call. */
  const INVALID_SYSCALL: int := -5

  datatype Cpu = Cpu(regs: WordRegisters, mem: Mem)

  /**
    What runs the tracee: `prog` takes it from the end of one system call to
    the entry of the next, `kernel` carries out its k-th system call.
   */
  datatype Env = Env(prog: Cpu -> Cpu, kernel: (nat, Cpu) -> Cpu)

  /**
    A traced process stopped at a system call. `entries` are the states it
    entered system calls with and `resumes` those it went on from.
   */
  datatype Machine = Machine(cpu: Cpu, inSyscall: bool, stops: nat, entries: seq<Cpu>, resumes: seq<Cpu>)

  function Attached(c: Cpu): Machine {
    Machine(c, false, 0, [], [])
  }

  /** PTRACE_SYSCALL: on to the next entry, or through the call to its exit. */
  function RunStop(env: Env, m: Machine): Machine {
    if !m.inSyscall then
      var c := env.prog(m.cpu);
      Machine(c, true, m.stops + 1, m.entries + [c], m.resumes + [m.cpu])
    else if m.cpu.regs.orig_rax == ToU64(INVALID_SYSCALL) then
      m.(cpu := m.cpu.(regs := m.cpu.regs.(rax := ToU64(-ENOSYS))), inSyscall := false, stops := m.stops + 1)
    else
      m.(cpu := env.kernel(if m.entries == [] then 0 else |m.entries| - 1, m.cpu),
         inSyscall := false, stops := m.stops + 1)
  }

  /** The registers that result from writing Python integers through "K". */
  function Masked(r: Registers<int>): WordRegisters {
    Registers(ToU64(r.r15), ToU64(r.r14), ToU64(r.r13), ToU64(r.r12), ToU64(r.rbp), ToU64(r.rbx), ToU64(r.r11),
              ToU64(r.r10), ToU64(r.r9), ToU64(r.r8), ToU64(r.rax), ToU64(r.rcx), ToU64(r.rdx), ToU64(r.rsi),
              ToU64(r.rdi), ToU64(r.orig_rax), ToU64(r.rip), ToU64(r.cs), ToU64(r.eflags), ToU64(r.rsp), ToU64(r.ss))
  }

  function WithOrigRax(r: Registers<int>, x: int): Registers<int> {
    r.(orig_rax := x)
  }

  function WithRax(r: Registers<int>, x: int): Registers<int> {
    r.(rax := x)
  }

  /** Registers read from the tracee and written back are unchanged but for the words replaced. */
  lemma MaskedWords(r: WordRegisters, x: int)
    ensures Masked(r) == r
    ensures Masked(WithRax(r, x)) == r.(rax := ToU64(x))
    ensures Masked(WithOrigRax(r, x)) == r.(orig_rax := ToU64(x))
  {
  }

  /** flags | MAP_FIXED: bit 4 is set and no other bit changes. */
  function SetMapFixed(flags: U64): (r: U64)
    ensures r / 16 % 2 == 1 && r % 16 == flags % 16 && r / 32 == flags / 32
  {
    if flags / 16 % 2 == 1 then flags else flags + 16
  }

  /** get_mmap_registers, and every other call's registers unchanged. */
  function NewRegisters(call: SystemCall, r: WordRegisters): Registers<int> {
    if call.Num() == MMAP then MmapRegisters(call, r) else r
  }

  function MmapRegisters(call: SystemCall, r: Registers<int>): Registers<int>
    requires IsWord(r.r10)
  {
    r.(rdi := call.returnValue, r10 := SetMapFixed(r.r10))
  }

  datatype Error =
    | UnexpectedSysCall(expected: int, received: int)
    | UnexpectedReturnValue(expected: int, received: int)
    | SystemError
    | OverflowError

  /** The replay so far: still going, over with an exit status, or ended by an exception. */
  datatype Outcome =
    | Going(m: Machine, output: seq<seq<Byte>>)
    | Exited(m: Machine, output: seq<seq<Byte>>, status: U64)
    | Raised(error: Error, m: Machine, output: seq<seq<Byte>>)

  /** SYS_CALLS_TO_IGNORE_IN_VALIDATION. */
  predicate IgnoredInValidation(num: int) {
    num == READ || num == CLOSE || num == FSTAT || num == MMAP || num == MPROTECT || num == OPENAT
  }

  /**
    raise_on_unexpected_return_value does not raise: it compares the signed
    recorded value with the unsigned register.
   */
  predicate ReturnValueAccepted(call: SystemCall, rax: U64) {
    call.returnValue == rax || IgnoredInValidation(call.Num())
  }

  predicate IsStdoutWrite(call: SystemCall) {
    call.Num() == WRITE && call.regs.rdi == 1
  }

  /** call_stdout_callback_if_relevant at the entry state m: the payload appended, or an exception. */
  ghost function WithStdout(m: Machine, call: SystemCall, callback: bool, output: seq<seq<Byte>>): (o: Outcome)
    ensures !o.Exited? && o.m == m && (o.Raised? ==> !o.error.UnexpectedSysCall?)
  {
    if !IsStdoutWrite(call) || !callback then Going(m, output)
    else if call.regs.rdx >= 0x8000_0000 then Raised(OverflowError, m, output)
    else if !Accessible(m.cpu.mem, call.regs.rsi, call.regs.rdx) then Raised(SystemError, m, output)
    else
      AccessibleIsMapped(m.cpu.mem, call.regs.rsi, call.regs.rdx);
      Going(m, output + [Slice(m.cpu.mem, call.regs.rsi, call.regs.rdx)])
  }

  lemma AccessibleIsMapped(m: Mem, at: int, n: nat)
    requires Accessible(m, at, n)
    ensures Mapped(m, at, n)
  {
  }

  function SetRegs(m: Machine, r: Registers<int>): Machine {
    m.(cpu := m.cpu.(regs := Masked(r)))
  }

  /** simulate_system_call_for_tracee. */
  ghost function Simulate(env: Env, m: Machine, call: SystemCall, output: seq<seq<Byte>>): Outcome {
    var regs := m.cpu.regs;
    var after := RunStop(env, SetRegs(m, WithOrigRax(regs, INVALID_SYSCALL)));
    var written := after.(cpu := after.cpu.(mem := WriteUpToFailure(after.cpu.mem, call.copies)));
    if !AllAccessible(after.cpu.mem, call.copies) then Raised(SystemError, written, output)
    else Going(SetRegs(written, WithRax(regs, call.returnValue)), output)
  }

  /** wrap_and_run_real_system_call_in_tracee. */
  ghost function RunReal(env: Env, m: Machine, call: SystemCall, output: seq<seq<Byte>>): Outcome {
    var after := RunStop(env, SetRegs(m, NewRegisters(call, m.cpu.regs)));
    if ReturnValueAccepted(call, after.cpu.regs.rax) then Going(after, output)
    else Raised(UnexpectedReturnValue(call.returnValue, after.cpu.regs.rax), after, output)
  }

  /** run_tracee_through_system_call, from the entry stop of call k. */
  ghost function Through(env: Env, m: Machine, calls: seq<SystemCall>, k: nat, callback: bool,
                         output: seq<seq<Byte>>): Outcome
    requires k < |calls|
  {
    var call := calls[k];
    if call.Num() != m.cpu.regs.orig_rax then Raised(UnexpectedSysCall(call.Num(), m.cpu.regs.orig_rax), m, output)
    else
      var told := WithStdout(m, call, callback, output);
      if told.Raised? then told
      else if ShouldSimulateSystemCall(calls, k) then Simulate(env, m, call, told.output)
      else RunReal(env, m, call, told.output)
  }

  /** get_exit_status. */
  ghost function ExitStatus(env: Env, m: Machine, output: seq<seq<Byte>>): Outcome {
    var entry := RunStop(env, m);
    if entry.cpu.regs.orig_rax != EXIT_GROUP
    then Raised(UnexpectedSysCall(EXIT_GROUP, entry.cpu.regs.orig_rax), entry, output)
    else Exited(RunStop(env, entry), output, entry.cpu.regs.rdi)
  }

  /** start_replaying from call k on. */
  ghost function ReplayFrom(env: Env, m: Machine, calls: seq<SystemCall>, k: nat, callback: bool,
                            output: seq<seq<Byte>>): Outcome
    requires k <= |calls|
    decreases |calls| - k
  {
    if k == |calls| then ExitStatus(env, m, output)
    else
      var step := Through(env, RunStop(env, m), calls, k, callback, output);
      if step.Going? then ReplayFrom(env, step.m, calls, k + 1, callback, step.output) else step
  }

  ghost function Replay(env: Env, c: Cpu, calls: seq<SystemCall>, callback: bool): Outcome {
    ReplayFrom(env, Attached(c), calls, 0, callback, [])
  }

  // ---- How a run of the replayer relates to its outcome ----

  /** A method that ends with `error` and leaves the tracee at m did what o says. */
  ghost predicate Agrees(o: Outcome, error: Option<Error>, m: Machine, output: seq<seq<Byte>>) {
    match o
    case Going(m', out) => error == None && m == m' && output == out
    case Raised(e, m', out) => error == Some(e) && m == m' && output == out
    case Exited(_, _, _) => false
  }

  /** A replay that returned or raised r, with the tracee at m, ended the way o says. */
  ghost predicate Ends(o: Outcome, r: Result<U64, Error>, m: Machine, output: seq<seq<Byte>>) {
    match o
    case Going(_, _) => false
    case Exited(m', out, status) => r == Ok(status) && m == m' && output == out
    case Raised(e, m', out) => r == Err(e) && m == m' && output == out
  }

  lemma AgreementMeans(o: Outcome, error: Option<Error>, m: Machine, output: seq<seq<Byte>>)
    ensures Agrees(o, error, m, output) && error.None? ==> o.Going? && m == o.m && output == o.output
    ensures Agrees(o, error, m, output) && error.Some? ==> !o.Going? && Ends(o, Err(error.value), m, output)
  {
  }

  /** One round of the replay loop. */
  lemma ReplayRound(env: Env, m: Machine, calls: seq<SystemCall>, k: nat, callback: bool, output: seq<seq<Byte>>)
    requires k < |calls|
    ensures var step := Through(env, RunStop(env, m), calls, k, callback, output);
            ReplayFrom(env, m, calls, k, callback, output) ==
            if step.Going? then ReplayFrom(env, step.m, calls, k + 1, callback, step.output) else step
  {
  }

  lemma ReplayEnd(env: Env, m: Machine, calls: seq<SystemCall>, callback: bool, output: seq<seq<Byte>>)
    ensures ReplayFrom(env, m, calls, |calls|, callback, output) == ExitStatus(env, m, output)
  {
  }

  // ---- The return value check ----

  /**
    With the register holding the very word that was recorded, the check
    passes exactly when the call is not validated or did not fail: a validated
    call that returned an error raises although it was reproduced.
   */
  lemma CheckPassesIff(call: SystemCall, ret: U64)
    requires call.returnValue == ToSigned(ret)
    ensures ReturnValueAccepted(call, ret) <==> call.regs.orig_rax in {0, 3, 5, 9, 10, 257} || call.returnValue >= 0
  {
  }

  /** An munmap that fails the same way as when it was recorded still ends the replay. */
  lemma ReproducedFailureRaises(env: Env, m: Machine, call: SystemCall, ret: U64, output: seq<seq<Byte>>)
    requires call.Num() == MUNMAP && call.returnValue == ToSigned(ret) && ret >= 0x8000_0000_0000_0000
    requires RunStop(env, SetRegs(m, NewRegisters(call, m.cpu.regs))).cpu.regs.rax == ret
    ensures RunReal(env, m, call, output).Raised?
    ensures RunReal(env, m, call, output).error == UnexpectedReturnValue(ToSigned(ret), ret)
  {
    CheckPassesIff(call, ret);
  }
}
