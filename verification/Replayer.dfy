/**
  The replayer as it runs: it drives a traced process stop by stop, patches
  its memory and registers in place and collects what goes to the callback.
 */
module Replayer {
  import opened Bytes
  import opened Format
  import opened Wrappers
  import opened TraceeMemory
  import opened ShouldSimulate
  import opened ReplaySpec

  /** The traced process behind the creplayer calls. */
  class Tracee {
    const env: Env
    const memory: TraceeMem
    var regs: WordRegisters
    var inSyscall: bool
    var stops: nat
    var entries: seq<Cpu>
    var resumes: seq<Cpu>

    constructor (env: Env, cpu: Cpu)
      ensures View() == Attached(cpu) && this.env == env && fresh(memory)
    {
      this.env := env;
      memory := new TraceeMem(cpu.mem);
      regs, inSyscall, stops, entries, resumes := cpu.regs, false, 0, [], [];
    }

    function View(): Machine
      reads this, memory
    {
      Machine(Cpu(regs, memory.mem), inSyscall, stops, entries, resumes)
    }

    method RunUntilEnterOrExitOfNextSyscall()
      modifies this, memory
      ensures View() == RunStop(env, old(View()))
    {
      var next := RunStop(env, View());
      memory.mem := next.cpu.mem;
      regs, inSyscall, stops := next.cpu.regs, next.inSyscall, next.stops;
      entries, resumes := next.entries, next.resumes;
    }

    method SetRegisters(r: Registers<int>)
      modifies this`regs
      ensures View() == SetRegs(old(View()), r)
    {
      regs := Masked(r);
    }
  }

  class Replayer {
    const tracee: Tracee
    const systemCalls: seq<SystemCall>
    const hasCallback: bool
    /** Every payload the stdout callback was called with. */
    var output: seq<seq<Byte>>

    constructor (tracee: Tracee, systemCalls: seq<SystemCall>, hasCallback: bool)
      ensures this.tracee == tracee && this.systemCalls == systemCalls && this.hasCallback == hasCallback
      ensures output == []
    {
      this.tracee, this.systemCalls, this.hasCallback := tracee, systemCalls, hasCallback;
      output := [];
    }

    method CallStdoutCallbackIfRelevant(call: SystemCall) returns (error: Option<Error>)
      modifies this
      ensures Agrees(WithStdout(tracee.View(), call, hasCallback, old(output)), error, tracee.View(), output)
    {
      if call.Num() == WRITE && call.regs.rdi == 1 && hasCallback {
        if call.regs.rdx >= 0x8000_0000 { return Some(OverflowError); }
        var payload := tracee.memory.ReadFromTracee(call.regs.rsi, call.regs.rdx);
        if payload.None? { return Some(SystemError); }
        output := output + [payload.value];
      }
      return None;
    }

    method SimulateSystemCallForTracee(call: SystemCall, registers: WordRegisters) returns (error: Option<Error>)
      requires registers == tracee.regs
      modifies tracee, tracee.memory
      ensures Agrees(Simulate(tracee.env, old(tracee.View()), call, output), error, tracee.View(), output)
    {
      tracee.SetRegisters(WithOrigRax(registers, INVALID_SYSCALL));
      tracee.RunUntilEnterOrExitOfNextSyscall();
      var ok := tracee.memory.WriteCopies(call.copies);
      if !ok { return Some(SystemError); }
      tracee.SetRegisters(WithRax(registers, call.returnValue));
      return None;
    }

    method WrapAndRunRealSystemCallInTracee(call: SystemCall, registers: WordRegisters) returns (error: Option<Error>)
      requires registers == tracee.regs
      modifies tracee, tracee.memory
      ensures Agrees(RunReal(tracee.env, old(tracee.View()), call, output), error, tracee.View(), output)
    {
      tracee.SetRegisters(NewRegisters(call, registers));
      tracee.RunUntilEnterOrExitOfNextSyscall();
      if call.returnValue != tracee.regs.rax && !IgnoredInValidation(call.Num()) {
        return Some(UnexpectedReturnValue(call.returnValue, tracee.regs.rax));
      }
      return None;
    }

    method RunTraceeThroughSystemCall(index: nat) returns (error: Option<Error>)
      requires index < |systemCalls|
      modifies this, tracee, tracee.memory
      ensures Agrees(Through(tracee.env, old(tracee.View()), systemCalls, index, hasCallback, old(output)),
                     error, tracee.View(), output)
    {
      var call := systemCalls[index];
      var registers := tracee.regs;
      if call.Num() != registers.orig_rax {
        return Some(UnexpectedSysCall(call.Num(), registers.orig_rax));
      }
      hide Simulate, RunReal;
      error := CallStdoutCallbackIfRelevant(call);
      if error.Some? { return; }
      hide WithStdout;
      if ShouldSimulateSystemCall(systemCalls, index) {
        error := SimulateSystemCallForTracee(call, registers);
      } else {
        error := WrapAndRunRealSystemCallInTracee(call, registers);
      }
    }

    method GetExitStatus() returns (r: Result<U64, Error>)
      modifies tracee, tracee.memory
      ensures Ends(ExitStatus(tracee.env, old(tracee.View()), output), r, tracee.View(), output)
    {
      tracee.RunUntilEnterOrExitOfNextSyscall();
      var registers := tracee.regs;
      if registers.orig_rax != EXIT_GROUP {
        return Err(UnexpectedSysCall(EXIT_GROUP, registers.orig_rax));
      }
      tracee.RunUntilEnterOrExitOfNextSyscall();
      return Ok(registers.rdi);
    }

    /** The body of the replay loop: on to the next entry stop, and through that call. */
    method RunNextSystemCall(index: nat) returns (error: Option<Error>)
      requires index < |systemCalls|
      modifies this, tracee, tracee.memory
      ensures var o := ReplayFrom(tracee.env, old(tracee.View()), systemCalls, index, hasCallback, old(output));
              if error.None?
              then ReplayFrom(tracee.env, tracee.View(), systemCalls, index + 1, hasCallback, output) == o
              else Ends(o, Err(error.value), tracee.View(), output)
    {
      ghost var env, calls, m, out := tracee.env, systemCalls, tracee.View(), output;
      ReplayRound(env, m, calls, index, hasCallback, out);
      tracee.RunUntilEnterOrExitOfNextSyscall();
      error := RunTraceeThroughSystemCall(index);
      hide Tracee.View, ReplayFrom, Through, RunStop, Agrees;
      AgreementMeans(Through(env, RunStop(env, m), calls, index, hasCallback, out), error, tracee.View(), output);
    }

    /** The exit status of a replay, or the exception it ended with. */
    method StartReplaying() returns (r: Result<U64, Error>)
      modifies this, tracee, tracee.memory
      ensures Ends(ReplayFrom(tracee.env, old(tracee.View()), systemCalls, 0, hasCallback, old(output)),
                   r, tracee.View(), output)
    {
      ghost var whole := ReplayFrom(tracee.env, tracee.View(), systemCalls, 0, hasCallback, output);
      hide *;
      var i := 0;
      var error: Option<Error> := None;
      while i < |systemCalls| && error.None?
        invariant i <= |systemCalls|
        invariant if error.None?
                  then ReplayFrom(tracee.env, tracee.View(), systemCalls, i, hasCallback, output) == whole
                  else Ends(whole, Err(error.value), tracee.View(), output)
      {
        error := RunNextSystemCall(i);
        i := i + 1;
      }
      if error.Some? {
        r := Err(error.value);
      } else {
        ReplayEnd(tracee.env, tracee.View(), systemCalls, hasCallback, output);
        r := GetExitStatus();
      }
    }
  }
}
