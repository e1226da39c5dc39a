/**
  When the tracee's kernel may give real opens other numbers than the recorded
  one did: the exact condition for a replay to reproduce the recorded run.
 */
module Divergence {
  import opened Bytes
  import opened Memory
  import opened Format
  import opened TraceeMemory
  import opened ShouldSimulate
  import opened ReplaySpec
  import opened ReplayHistory
  import opened Fidelity

  /** All that the recording assumes of a replay but for the effects of real calls. */
  ghost predicate FaithfulButReal(env: Env, steps: seq<Step>, callback: bool) {
    forall k | 0 <= k < |steps| :: CallIsFaithfulButReal(env, steps, k, callback)
  }

  ghost predicate CallIsFaithfulButReal(env: Env, steps: seq<Step>, k: nat, callback: bool)
    requires k < |steps|
  {
    && (callback ==> PayloadReadable(steps, k))
    && if ShouldSimulateSystemCall(Calls(steps), k) then SimulatedFaithfully(steps[k])
         else ActsAsRecorded(env, steps, k)
  }

  lemma AllRedoneIff(env: Env, c0: Cpu, steps: seq<Step>, final: Cpu, callback: bool)
    requires IsRecording(env.prog, c0, steps, final) && FaithfulButReal(env, steps, callback)
    ensures AllRedone(env, steps, final, callback) <==> RealCallsFaithful(env, steps)
  {
    hide IsRecording, ShouldSimulateSystemCall, RealFaithfully, PayloadReadable, ActsAsRecorded, Calls,
         RedoneAsRecorded, AllAccessible, ApplyCopies;
    forall k | 0 <= k < |steps|
      ensures RedoneAsRecorded(env, steps, final, k, callback) <==>
              (!ShouldSimulateSystemCall(Calls(steps), k) ==> RealFaithfully(env, steps, k))
    {
      assert CallIsFaithfulButReal(env, steps, k, callback);
      if ShouldSimulateSystemCall(Calls(steps), k) {
        SimulatedIsRedoneIff(env, c0, steps, final, k, callback);
      } else {
        RealIsRedoneIff(env, c0, steps, final, k, callback);
      }
    }
  }

  /**
    When simulated calls have their recorded effects and real ones differ from
    the recorded ones at most in the number an open returns, a replay runs to the
    end and reproduces the recorded run if and only if every real call has its
    recorded effect and is not refused.
   */
  lemma ReproducesIff(env: Env, c0: Cpu, steps: seq<Step>, final: Cpu, callback: bool)
    requires IsRecording(env.prog, c0, steps, final) && FaithfulButReal(env, steps, callback)
    ensures var o := Replay(env, c0, Calls(steps), callback);
            o.Exited? && Reproduces(o.m, c0, steps, final) <==> RealCallsFaithful(env, steps)
  {
    hide Replay, IsRecording, Reproduces, RealCallsFaithful, FaithfulButReal, Calls, AllRedone;
    ReproducesExactlyIff(env, c0, steps, final, callback);
    AllRedoneIff(env, c0, steps, final, callback);
  }

  /**
    On a kernel that gives the lowest free descriptor and otherwise acts as
    recorded, a replay reproduces the recorded run if and only if no simulated
    descriptor was ever open below one opened for real, and no brk or munmap
    failed.
   */
  lemma ReproducesOnLowestFreeIff(env: Env, c0: Cpu, steps: seq<Step>, final: Cpu, callback: bool, inherited: set<int>)
    requires IsRecording(env.prog, c0, steps, final) && FaithfulButReal(env, steps, callback)
    requires WellFormed(Calls(steps)) && RecordedLowest(Calls(steps), inherited)
    requires GivenLowest(Calls(steps), inherited, Numbers(env, steps))
    ensures var o := Replay(env, c0, Calls(steps), callback);
            o.Exited? && Reproduces(o.m, c0, steps, final) <==>
            AllLowerOnesAreReal(Calls(steps), inherited, |steps|) && NoneRefused(Calls(steps))
  {
    hide Replay, IsRecording, Reproduces, RealCallsFaithful, WellFormed, RecordedLowest, GivenLowest,
         AllLowerOnesAreReal, NoneRefused, Calls, Numbers, ShouldSimulateSystemCall, SimulatedFaithfully,
         ActsAsRecorded, PayloadReadable;
    forall k | 0 <= k < |steps| && !ShouldSimulateSystemCall(Calls(steps), k)
      ensures ActsAsRecorded(env, steps, k)
    {
      assert CallIsFaithfulButReal(env, steps, k, callback);
    }
    RealCallsFaithfulIff(env, steps, inherited);
    ReproducesIff(env, c0, steps, final, callback);
  }
}
