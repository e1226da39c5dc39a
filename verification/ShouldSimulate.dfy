/**
  Which recorded calls are simulated and which run for real in the tracee.
  An open looks forward for an mmap of its descriptor before the close; a
  close looks backward for one after the open.
 */
module ShouldSimulate {
  import opened Format
  import opened Wrappers

  const READ: int := 0
  const WRITE: int := 1
  const OPEN: int := 2
  const CLOSE: int := 3
  const FSTAT: int := 5
  const MMAP: int := 9
  const MPROTECT: int := 10
  const MUNMAP: int := 11
  const BRK: int := 12
  const SOCKET: int := 41
  const EXIT_GROUP: int := 231
  const OPENAT: int := 257

  datatype SearchError = CouldNotFindMatchingSysCall

  /** The first call the matcher accepts; not finding one raises only when asked to. */
  function FindFirst(calls: seq<SystemCall>, matches: SystemCall -> bool,
                     raiseIfNotFound: bool): Result<Option<SystemCall>, SearchError>
  {
    if calls == [] then
      if raiseIfNotFound then Err(CouldNotFindMatchingSysCall) else Ok(None)
    else if matches(calls[0]) then Ok(Some(calls[0]))
    else FindFirst(calls[1..], matches, raiseIfNotFound)
  }

  function Reversed(calls: seq<SystemCall>): seq<SystemCall> {
    if calls == [] then [] else [calls[|calls| - 1]] + Reversed(calls[..|calls| - 1])
  }

  predicate IsOpenFor(c: SystemCall, fd: int) {
    (c.Num() == OPEN || c.Num() == OPENAT || c.Num() == SOCKET) && c.returnValue == fd
  }

  predicate IsCloseFor(c: SystemCall, fd: int) {
    c.Num() == CLOSE && c.regs.rdi == fd
  }

  predicate IsMmapFor(c: SystemCall, fd: int) {
    c.Num() == MMAP && c.regs.r8 == fd
  }

  predicate FdAppearsInMmapBeforeClose(fd: int, calls: seq<SystemCall>, index: nat)
    requires index <= |calls|
  {
    var found := FindFirst(calls[index..], (c: SystemCall) => IsCloseFor(c, fd) || IsMmapFor(c, fd), false);
    found.Ok? && found.value.Some? && found.value.value.Num() == MMAP
  }

  predicate MmapAppearsAfterOpenForFd(fd: int, calls: seq<SystemCall>, index: nat)
    requires index <= |calls|
  {
    var found := FindFirst(Reversed(calls[..index]), (c: SystemCall) => IsOpenFor(c, fd) || IsMmapFor(c, fd), false);
    found.Ok? && found.value.Some? && found.value.value.Num() == MMAP
  }

  /** The dispatch through HANDLERS, with "simulate" for any other number. */
  predicate ShouldSimulateSystemCall(calls: seq<SystemCall>, index: nat)
    requires index < |calls|
  {
    var c := calls[index];
    if c.Num() == OPEN || c.Num() == OPENAT then !FdAppearsInMmapBeforeClose(c.returnValue, calls, index)
    else if c.Num() == CLOSE then !MmapAppearsAfterOpenForFd(c.regs.rdi, calls, index)
    else c.Num() != MMAP && c.Num() != MPROTECT && c.Num() != BRK && c.Num() != MUNMAP
  }

  // ---- Descriptor lifetimes ----

  /** A socket is never mapped; a file may be. */
  datatype Kind = File | Socket

  type Descriptors = map<int, Kind>

  predicate OpensFile(c: SystemCall) {
    (c.Num() == OPEN || c.Num() == OPENAT) && c.returnValue >= 0
  }

  predicate OpensSocket(c: SystemCall) {
    c.Num() == SOCKET && c.returnValue >= 0
  }

  /** MAP_ANONYMOUS is bit 5 of the flags in r10; such a mapping ignores its descriptor. */
  predicate IsAnonymous(c: SystemCall) {
    c.regs.r10 / 32 % 2 == 1
  }

  /** The open descriptors after a call. */
  function After(live: Descriptors, c: SystemCall): Descriptors {
    if OpensFile(c) then live[c.returnValue := File]
    else if OpensSocket(c) then live[c.returnValue := Socket]
    else if c.Num() == CLOSE then live - {c.regs.rdi}
    else live
  }

  /**
    What the kernel and the tracee guarantee of one call: a new descriptor was
    not open, a close and a file mmap name an open one, a socket is not mapped.
   */
  predicate WellFormedCall(live: Descriptors, c: SystemCall) {
    && (OpensFile(c) || OpensSocket(c) ==> c.returnValue !in live)
    && (c.Num() == CLOSE ==> c.regs.rdi in live)
    && (c.Num() == MMAP && !IsAnonymous(c) ==> c.regs.r8 in live)
    && (c.Num() == MMAP && c.regs.r8 in live ==> live[c.regs.r8] == File)
  }

  /** The open descriptors after the first k calls, starting from none. */
  function Live(calls: seq<SystemCall>, k: nat): Descriptors
    requires k <= |calls|
  {
    if k == 0 then map[] else After(Live(calls, k - 1), calls[k - 1])
  }

  predicate WellFormedAt(calls: seq<SystemCall>, k: nat)
    requires k < |calls|
  {
    WellFormedCall(Live(calls, k), calls[k])
  }

  /** A trace whose descriptors come only from open, openat and socket. */
  ghost predicate WellFormed(calls: seq<SystemCall>) {
    forall k | 0 <= k < |calls| :: WellFormedAt(calls, k)
  }

  /** The calls among the first k that run for real, in order. */
  function RealCalls(calls: seq<SystemCall>, k: nat): seq<SystemCall>
    requires k <= |calls|
  {
    if k == 0 then []
    else if ShouldSimulateSystemCall(calls, k - 1) then RealCalls(calls, k - 1)
    else RealCalls(calls, k - 1) + [calls[k - 1]]
  }

  lemma CallIsWellFormed(calls: seq<SystemCall>, k: nat)
    requires WellFormed(calls) && k < |calls|
    ensures WellFormedCall(Live(calls, k), calls[k])
    ensures Live(calls, k + 1) == After(Live(calls, k), calls[k])
  {
    assert WellFormedAt(calls, k);
  }

  // ---- One step of each scan ----

  lemma ForwardStep(fd: int, calls: seq<SystemCall>, k: nat)
    requires k < |calls|
    ensures FdAppearsInMmapBeforeClose(fd, calls, k) ==
            if IsMmapFor(calls[k], fd) then true
            else if IsCloseFor(calls[k], fd) then false
            else FdAppearsInMmapBeforeClose(fd, calls, k + 1)
    ensures !FdAppearsInMmapBeforeClose(fd, calls, |calls|)
  {
    assert calls[k..][1..] == calls[k + 1..];
  }

  lemma BackwardStep(fd: int, calls: seq<SystemCall>, k: nat)
    requires k < |calls|
    ensures MmapAppearsAfterOpenForFd(fd, calls, k + 1) ==
            if IsMmapFor(calls[k], fd) then true
            else if IsOpenFor(calls[k], fd) then false
            else MmapAppearsAfterOpenForFd(fd, calls, k)
  {
    assert calls[..k + 1][..k] == calls[..k];
    assert Reversed(calls[..k + 1])[1..] == Reversed(calls[..k]);
  }

  lemma {:induction false} SocketIsNeverMappedAhead(fd: int, calls: seq<SystemCall>, k: nat)
    requires WellFormed(calls) && k <= |calls|
    requires fd in Live(calls, k) && Live(calls, k)[fd] == Socket
    ensures !FdAppearsInMmapBeforeClose(fd, calls, k)
    decreases |calls| - k
  {
    if k == |calls| {
      assert calls[k..] == [];
    } else {
      hide Live, WellFormed, FdAppearsInMmapBeforeClose;
      CallIsWellFormed(calls, k);
      ForwardStep(fd, calls, k);
      if !IsCloseFor(calls[k], fd) {
        SocketIsNeverMappedAhead(fd, calls, k + 1);
      }
    }
  }

  /** A failed open returns a negative number, which no register can name. */
  lemma {:induction false} NegativeIsNeverMappedAhead(fd: int, calls: seq<SystemCall>, k: nat)
    requires fd < 0 && k <= |calls|
    ensures !FdAppearsInMmapBeforeClose(fd, calls, k)
    decreases |calls| - k
  {
    if k == |calls| {
      assert calls[k..] == [];
    } else {
      ForwardStep(fd, calls, k);
      NegativeIsNeverMappedAhead(fd, calls, k + 1);
    }
  }

  // ---- The decision, by index ----

  /** Call j maps fd, and none of the calls from k up to it closes fd. */
  ghost predicate MapsBeforeClose(fd: int, calls: seq<SystemCall>, k: nat, j: nat) {
    && k <= j < |calls| && calls[j].regs.orig_rax == 9 && calls[j].regs.r8 == fd
    && forall i | k <= i < j :: !(calls[i].regs.orig_rax == 3 && calls[i].regs.rdi == fd)
  }

  /** Call j maps fd, and none of the calls after it and before k opens fd. */
  ghost predicate MapsAfterOpen(fd: int, calls: seq<SystemCall>, k: nat, j: nat) {
    && j < k <= |calls| && calls[j].regs.orig_rax == 9 && calls[j].regs.r8 == fd
    && forall i | j < i < k :: !(calls[i].regs.orig_rax in {2, 257, 41} && calls[i].returnValue == fd)
  }

  lemma {:induction false} MappedAheadIff(fd: int, calls: seq<SystemCall>, k: nat)
    requires k <= |calls|
    ensures FdAppearsInMmapBeforeClose(fd, calls, k) <==> exists j :: MapsBeforeClose(fd, calls, k, j)
    decreases |calls| - k
  {
    hide FdAppearsInMmapBeforeClose;
    if k == |calls| {
      NothingAhead(fd, calls);
    } else {
      ForwardStep(fd, calls, k);
      MappedAheadIff(fd, calls, k + 1);
      if FdAppearsInMmapBeforeClose(fd, calls, k + 1) && !IsCloseFor(calls[k], fd) {
        var j :| MapsBeforeClose(fd, calls, k + 1, j);
        assert MapsBeforeClose(fd, calls, k, j);
      }
      if IsMmapFor(calls[k], fd) {
        assert MapsBeforeClose(fd, calls, k, k);
      }
      forall j | MapsBeforeClose(fd, calls, k, j)
        ensures j == k || MapsBeforeClose(fd, calls, k + 1, j)
      {
      }
    }
  }

  lemma NothingAhead(fd: int, calls: seq<SystemCall>)
    ensures !FdAppearsInMmapBeforeClose(fd, calls, |calls|) && !MmapAppearsAfterOpenForFd(fd, calls, 0)
  {
    assert calls[|calls|..] == [] && calls[..0] == [];
  }

  lemma {:induction false} MappedBehindIff(fd: int, calls: seq<SystemCall>, k: nat)
    requires k <= |calls|
    ensures MmapAppearsAfterOpenForFd(fd, calls, k) <==> exists j :: MapsAfterOpen(fd, calls, k, j)
  {
    hide MmapAppearsAfterOpenForFd;
    if k == 0 {
      NothingAhead(fd, calls);
    } else {
      BackwardStep(fd, calls, k - 1);
      MappedBehindIff(fd, calls, k - 1);
      if MmapAppearsAfterOpenForFd(fd, calls, k - 1) && !IsOpenFor(calls[k - 1], fd) {
        var j :| MapsAfterOpen(fd, calls, k - 1, j);
        assert MapsAfterOpen(fd, calls, k, j);
      }
      if IsMmapFor(calls[k - 1], fd) {
        assert MapsAfterOpen(fd, calls, k, k - 1);
      }
      forall j | MapsAfterOpen(fd, calls, k, j)
        ensures j == k - 1 || MapsAfterOpen(fd, calls, k - 1, j)
      {
      }
    }
  }

  /**
    Of any recording, these calls are made for real and no others: mmap,
    mprotect, munmap and brk; an open or openat whose number is mapped before it
    is next closed; and a close whose number was mapped since it was last
    opened.
   */
  lemma MadeForRealIff(calls: seq<SystemCall>, k: nat)
    requires k < |calls|
    ensures var c := calls[k];
            var nr := c.regs.orig_rax;
            !ShouldSimulateSystemCall(calls, k) <==>
            || nr in {9, 10, 11, 12}
            || (nr in {2, 257} && exists j :: MapsBeforeClose(c.returnValue, calls, k, j))
            || (nr == 3 && exists j :: MapsAfterOpen(c.regs.rdi, calls, k, j))
  {
    hide FdAppearsInMmapBeforeClose, MmapAppearsAfterOpenForFd, MapsBeforeClose, MapsAfterOpen;
    MappedAheadIff(calls[k].returnValue, calls, k);
    MappedBehindIff(calls[k].regs.rdi, calls, k);
  }

  /** The search returns the first call that matches; without one it raises only when asked to. */
  lemma {:induction false} FindsFirst(calls: seq<SystemCall>, matches: SystemCall -> bool, raiseIfNotFound: bool,
                                      k: nat)
    requires k <= |calls| && forall i | 0 <= i < k :: !matches(calls[i])
    requires k < |calls| ==> matches(calls[k])
    ensures FindFirst(calls, matches, raiseIfNotFound) ==
            if k < |calls| then Ok(Some(calls[k]))
            else if raiseIfNotFound then Err(CouldNotFindMatchingSysCall) else Ok(None)
  {
    if k > 0 {
      FindsFirst(calls[1..], matches, raiseIfNotFound, k - 1);
    }
  }

  // ---- The two scans agree ----

  /** Within one lifetime the backward scan at j sees what the forward scan at i saw. */
  lemma {:induction false} ScansMeet(fd: int, calls: seq<SystemCall>, i: nat, j: nat)
    requires i < j < |calls|
    requires IsOpenFor(calls[i], fd) && IsCloseFor(calls[j], fd)
    requires forall k | i < k < j :: !IsOpenFor(calls[k], fd) && !IsCloseFor(calls[k], fd)
    ensures MmapAppearsAfterOpenForFd(fd, calls, j) <==> (exists k :: i < k < j && IsMmapFor(calls[k], fd))
    ensures FdAppearsInMmapBeforeClose(fd, calls, i) <==> (exists k :: i < k < j && IsMmapFor(calls[k], fd))
  {
    BackwardUpTo(fd, calls, i, j);
    ForwardFrom(fd, calls, i, j);
  }

  lemma {:induction false} BackwardUpTo(fd: int, calls: seq<SystemCall>, i: nat, j: nat)
    requires i < j <= |calls|
    requires IsOpenFor(calls[i], fd)
    requires forall k | i < k < j :: !IsOpenFor(calls[k], fd)
    ensures MmapAppearsAfterOpenForFd(fd, calls, j) <==> (exists k :: i < k < j && IsMmapFor(calls[k], fd))
    decreases j
  {
    BackwardStep(fd, calls, j - 1);
    if i < j - 1 {
      BackwardUpTo(fd, calls, i, j - 1);
    }
  }

  lemma {:induction false} ForwardFrom(fd: int, calls: seq<SystemCall>, i: nat, j: nat)
    requires i < j < |calls|
    requires IsCloseFor(calls[j], fd) && !IsMmapFor(calls[i], fd) && !IsCloseFor(calls[i], fd)
    requires forall k | i < k < j :: !IsCloseFor(calls[k], fd)
    ensures FdAppearsInMmapBeforeClose(fd, calls, i) <==> (exists k :: i < k < j && IsMmapFor(calls[k], fd))
    decreases j - i
  {
    ForwardStep(fd, calls, i);
    ForwardStep(fd, calls, i + 1);
    if i + 1 < j && !IsMmapFor(calls[i + 1], fd) {
      ForwardFrom(fd, calls, i + 1, j);
    }
  }

  /** The close at j ends the lifetime that the call at i began. */
  ghost predicate Matching(calls: seq<SystemCall>, i: nat, j: nat)
    requires i < |calls| && j < |calls|
  {
    && i < j
    && (OpensFile(calls[i]) || OpensSocket(calls[i]))
    && IsCloseFor(calls[j], calls[i].returnValue)
    && forall k | i < k < j :: !IsCloseFor(calls[k], calls[i].returnValue)
  }

  lemma {:induction false} StaysLive(calls: seq<SystemCall>, i: nat, k: nat)
    requires WellFormed(calls) && i < k <= |calls|
    requires OpensFile(calls[i]) || OpensSocket(calls[i])
    requires forall m | i < m < k :: !IsCloseFor(calls[m], calls[i].returnValue)
    ensures calls[i].returnValue in Live(calls, k)
    decreases k
  {
    hide Live, WellFormed;
    CallIsWellFormed(calls, k - 1);
    if k > i + 1 {
      StaysLive(calls, i, k - 1);
    }
  }

  /**
    An open and its matching close get the same decision, and both run for
    real exactly when some mmap of the descriptor lies between them.
   */
  lemma OpenCloseAgreement(calls: seq<SystemCall>, i: nat, j: nat)
    requires WellFormed(calls) && i < |calls| && j < |calls| && Matching(calls, i, j)
    ensures var fd := calls[i].returnValue;
            var mapped := exists k :: i < k < j && IsMmapFor(calls[k], fd);
            && (ShouldSimulateSystemCall(calls, j) <==> !mapped)
            && (OpensFile(calls[i]) ==> (ShouldSimulateSystemCall(calls, i) <==> !mapped))
            && (OpensSocket(calls[i]) ==> !mapped && ShouldSimulateSystemCall(calls, i))
  {
    hide Live, WellFormed, FdAppearsInMmapBeforeClose, MmapAppearsAfterOpenForFd;
    var fd := calls[i].returnValue;
    forall k | i < k < j
      ensures !IsOpenFor(calls[k], fd)
    {
      StaysLive(calls, i, k);
      CallIsWellFormed(calls, k);
    }
    ScansMeet(fd, calls, i, j);
    if OpensSocket(calls[i]) {
      CallIsWellFormed(calls, i);
      SocketIsNeverMappedAhead(fd, calls, i + 1);
      ForwardStep(fd, calls, i);
    }
  }

  // ---- The real calls are a well-formed trace of their own ----

  /** A descriptor is really open when it was mapped since its open, or will be before its close. */
  predicate ReallyOpen(fd: int, calls: seq<SystemCall>, k: nat)
    requires k <= |calls|
  {
    MmapAppearsAfterOpenForFd(fd, calls, k) || FdAppearsInMmapBeforeClose(fd, calls, k)
  }

  /** The state the real calls among the first k leave behind. */
  function RealLive(calls: seq<SystemCall>, k: nat): Descriptors
    requires k <= |calls|
  {
    var ran := RealCalls(calls, k);
    Live(ran, |ran|)
  }

  lemma {:induction false} LivePrefix(calls: seq<SystemCall>, more: seq<SystemCall>, k: nat)
    requires k <= |calls|
    ensures Live(calls + more, k) == Live(calls, k)
  {
    if k > 0 {
      LivePrefix(calls, more, k - 1);
    }
  }

  lemma RealLiveStep(calls: seq<SystemCall>, k: nat)
    requires k < |calls|
    ensures RealLive(calls, k + 1) ==
            if ShouldSimulateSystemCall(calls, k) then RealLive(calls, k) else After(RealLive(calls, k), calls[k])
  {
    var ran := RealCalls(calls, k);
    LivePrefix(ran, [calls[k]], |ran|);
  }

  /**
    By their recorded numbers, the descriptors the real calls leave open are
    exactly the open ones whose lifetime contains an mmap, and each has its
    recorded kind. Whether the tracee's kernel gives those numbers again is the
    question of the last section.
   */
  ghost predicate RealMatches(fd: int, calls: seq<SystemCall>, k: nat)
    requires k <= |calls|
  {
    && (fd in RealLive(calls, k) <==> fd in Live(calls, k) && ReallyOpen(fd, calls, k))
    && (fd in RealLive(calls, k) ==> RealLive(calls, k)[fd] == Live(calls, k)[fd])
  }

  lemma {:induction false} LiveIsNonNegative(fd: int, calls: seq<SystemCall>, k: nat)
    requires k <= |calls| && fd in Live(calls, k)
    ensures fd >= 0
  {
    if k > 0 && fd in Live(calls, k - 1) {
      LiveIsNonNegative(fd, calls, k - 1);
    }
  }

  lemma RealMatchesStep(fd: int, calls: seq<SystemCall>, k: nat)
    requires WellFormed(calls) && k < |calls| && RealMatches(fd, calls, k)
    ensures RealMatches(fd, calls, k + 1)
  {
    hide Live, RealLive, WellFormed, FdAppearsInMmapBeforeClose, MmapAppearsAfterOpenForFd;
    var c := calls[k];
    LiveDescriptors(fd, calls, k);
    RealLiveStep(calls, k);
    CallIsWellFormed(calls, k);
    ForwardStep(fd, calls, k);
    BackwardStep(fd, calls, k);
    if OpensSocket(c) {
      SocketIsNeverMappedAhead(c.returnValue, calls, k + 1);
    }
    if c.returnValue < 0 {
      NegativeIsNeverMappedAhead(c.returnValue, calls, k);
    }
  }

  lemma LiveDescriptors(fd: int, calls: seq<SystemCall>, k: nat)
    requires k <= |calls|
    ensures fd in Live(calls, k) ==> fd >= 0
  {
    if fd in Live(calls, k) {
      LiveIsNonNegative(fd, calls, k);
    }
  }

  lemma {:induction false} RealMatchesAlways(fd: int, calls: seq<SystemCall>, k: nat)
    requires WellFormed(calls) && k <= |calls|
    ensures RealMatches(fd, calls, k)
  {
    if k > 0 {
      hide RealMatches, WellFormed;
      RealMatchesAlways(fd, calls, k - 1);
      RealMatchesStep(fd, calls, k - 1);
    }
  }

  lemma RealCallIsWellFormed(calls: seq<SystemCall>, k: nat)
    requires WellFormed(calls) && k < |calls|
    requires !ShouldSimulateSystemCall(calls, k)
    ensures WellFormedCall(RealLive(calls, k), calls[k])
  {
    hide Live, RealLive, WellFormed, FdAppearsInMmapBeforeClose, MmapAppearsAfterOpenForFd;
    CallIsWellFormed(calls, k);
    var c := calls[k];
    if OpensFile(c) {
      RealMatchesAlways(c.returnValue, calls, k);
    } else if c.Num() == CLOSE {
      RealMatchesAlways(c.regs.rdi, calls, k);
    } else if c.Num() == MMAP {
      RealMatchesAlways(c.regs.r8, calls, k);
      ForwardStep(c.regs.r8, calls, k);
    }
  }

  lemma WellFormedAppend(calls: seq<SystemCall>, c: SystemCall)
    requires WellFormed(calls) && WellFormedCall(Live(calls, |calls|), c)
    ensures WellFormed(calls + [c])
  {
    hide Live;
    var more := calls + [c];
    forall i | 0 <= i < |more|
      ensures WellFormedAt(more, i)
    {
      LivePrefix(calls, [c], i);
      assert i < |calls| ==> WellFormedAt(calls, i);
    }
  }

  /**
    By recorded numbers, the calls that run for real are themselves a
    well-formed descriptor trace: every real close and every real file mmap names a descriptor that a real
    open produced and that is still open, and no real open reuses one.
   */
  lemma {:induction false} RealTraceWellFormed(calls: seq<SystemCall>, k: nat)
    requires WellFormed(calls) && k <= |calls|
    ensures WellFormed(RealCalls(calls, k))
  {
    if k > 0 {
      hide Live, WellFormed, ShouldSimulateSystemCall;
      RealTraceWellFormed(calls, k - 1);
      var ran := RealCalls(calls, k - 1);
      if !ShouldSimulateSystemCall(calls, k - 1) {
        RealCallIsWellFormed(calls, k - 1);
        WellFormedAppend(ran, calls[k - 1]);
      }
    }
  }

  // ---- Descriptor numbers in the tracee ----

  /** The number a kernel gives a new descriptor when those in `used` are taken. */
  predicate LowestFree(used: set<int>, fd: int) {
    fd >= 0 && fd !in used && forall d | 0 <= d < fd :: d in used
  }

  predicate IsRealOpen(calls: seq<SystemCall>, k: nat)
    requires k < |calls|
  {
    OpensFile(calls[k]) && !ShouldSimulateSystemCall(calls, k)
  }

  /** The recorded process got the lowest free numbers, besides the descriptors it inherited. */
  ghost predicate RecordedLowest(calls: seq<SystemCall>, inherited: set<int>) {
    forall k | 0 <= k < |calls| && OpensFile(calls[k]) :: RecordedLowestAt(calls, inherited, k)
  }

  ghost predicate RecordedLowestAt(calls: seq<SystemCall>, inherited: set<int>, k: nat)
    requires k < |calls|
  {
    LowestFree(Live(calls, k).Keys + inherited, calls[k].returnValue)
  }

  /** Every descriptor open below the one that call k opened is really open in the tracee too. */
  predicate LowerOnesAreReal(calls: seq<SystemCall>, inherited: set<int>, k: nat)
    requires k < |calls|
  {
    forall d | d in Live(calls, k).Keys && d < calls[k].returnValue && d !in inherited :: ReallyOpen(d, calls, k)
  }

  /**
    What the tracee has open, besides what it inherited, when its k-th call
    returned given(k), as long as those are the recorded numbers.
   */
  function TraceeOpen(calls: seq<SystemCall>, given: nat -> int, k: nat): set<int>
    requires k <= |calls|
  {
    if k == 0 then {}
    else
      var before := TraceeOpen(calls, given, k - 1);
      if ShouldSimulateSystemCall(calls, k - 1) then before
      else if OpensFile(calls[k - 1]) then before + {given(k - 1)}
      else if calls[k - 1].Num() == CLOSE then before - {calls[k - 1].regs.rdi}
      else before
  }

  ghost predicate GivenLowestAt(calls: seq<SystemCall>, inherited: set<int>, given: nat -> int, k: nat)
    requires k < |calls|
  {
    LowestFree(TraceeOpen(calls, given, k) + inherited, given(k))
  }

  /** The first n real opens returned their recorded numbers. */
  ghost predicate SameNumbers(calls: seq<SystemCall>, given: nat -> int, n: nat)
    requires n <= |calls|
  {
    forall k | 0 <= k < n && IsRealOpen(calls, k) :: given(k) == calls[k].returnValue
  }

  /**
    The tracee's kernel gives its real opens the lowest free numbers, as long as
    they have all been the recorded ones.
   */
  ghost predicate GivenLowest(calls: seq<SystemCall>, inherited: set<int>, given: nat -> int) {
    forall k | 0 <= k < |calls| && IsRealOpen(calls, k) && SameNumbers(calls, given, k) ::
      GivenLowestAt(calls, inherited, given, k)
  }

  ghost predicate AllLowerOnesAreReal(calls: seq<SystemCall>, inherited: set<int>, n: nat)
    requires n <= |calls|
  {
    forall k | 0 <= k < n && IsRealOpen(calls, k) :: LowerOnesAreReal(calls, inherited, k)
  }

  /** As long as numbers agree, the tracee has open what the real calls left open. */
  lemma {:induction false} TraceeOpenIsRealLive(calls: seq<SystemCall>, given: nat -> int, k: nat)
    requires k <= |calls| && SameNumbers(calls, given, k)
    ensures TraceeOpen(calls, given, k) == RealLive(calls, k).Keys
  {
    if k > 0 {
      hide ShouldSimulateSystemCall, RealLive;
      TraceeOpenIsRealLive(calls, given, k - 1);
      RealLiveStep(calls, k - 1);
      if !ShouldSimulateSystemCall(calls, k - 1) {
        RealCallOpensNoSocket(calls, k - 1);
      }
    } else {
      assert RealLive(calls, 0).Keys == {};
    }
  }

  lemma RealCallOpensNoSocket(calls: seq<SystemCall>, k: nat)
    requires k < |calls| && !ShouldSimulateSystemCall(calls, k)
    ensures !OpensSocket(calls[k])
  {
  }

  /**
    A real open at k gets its recorded number if and only if each lower number
    that was open when it was recorded is really open in the tracee, that is,
    was not taken by a simulated open.
   */
  lemma OpenGetsItsNumberIff(calls: seq<SystemCall>, inherited: set<int>, given: nat -> int, k: nat)
    requires WellFormed(calls) && k < |calls| && OpensFile(calls[k]) && SameNumbers(calls, given, k)
    requires RecordedLowestAt(calls, inherited, k) && GivenLowestAt(calls, inherited, given, k)
    ensures given(k) == calls[k].returnValue <==> LowerOnesAreReal(calls, inherited, k)
  {
    hide Live, RealLive, WellFormed, ReallyOpen, ShouldSimulateSystemCall, TraceeOpen, SameNumbers, LowestFree;
    TraceeOpenIsRealLive(calls, given, k);
    var fd, used, really := calls[k].returnValue, Live(calls, k).Keys, RealLive(calls, k).Keys;
    assert really <= used by {
      forall d | d in really
        ensures d in used
      {
        RealMatchesAlways(d, calls, k);
      }
    }
    forall d | d in used
      ensures d >= 0 && (d in really <==> ReallyOpen(d, calls, k))
    {
      RealMatchesAlways(d, calls, k);
      LiveDescriptors(d, calls, k);
    }
    LowestAmongFewer(used, really, inherited, fd);
    if LowestFree(really + inherited, fd) {
      LowestIsUnique(really + inherited, given(k), fd);
    }
  }

  /** Of a smaller set of taken numbers the lowest free one is the same if and only if no lower one was given up. */
  lemma LowestAmongFewer(used: set<int>, fewer: set<int>, inherited: set<int>, fd: int)
    requires fewer <= used && LowestFree(used + inherited, fd) && forall d | d in used :: d >= 0
    ensures LowestFree(fewer + inherited, fd) <==> forall d | d in used && d < fd && d !in inherited :: d in fewer
  {
    if forall d | d in used && d < fd && d !in inherited :: d in fewer {
      forall d | 0 <= d < fd
        ensures d in fewer + inherited
      {
        assert d in used + inherited;
      }
    } else {
      var d :| d in used && d < fd && d !in inherited && d !in fewer;
      assert d !in fewer + inherited;
    }
  }

  lemma LowestIsUnique(used: set<int>, a: int, b: int)
    requires LowestFree(used, a) && LowestFree(used, b)
    ensures a == b
  {
  }

  /**
    Over a whole replay whose kernel gives the lowest free numbers, every real
    open returns its recorded number if and only if no simulated descriptor was
    ever open below one that is opened for real.
   */
  lemma {:induction false} NumbersAgreeIff(calls: seq<SystemCall>, inherited: set<int>, given: nat -> int, n: nat)
    requires WellFormed(calls) && n <= |calls| && RecordedLowest(calls, inherited)
        && GivenLowest(calls, inherited, given)
    ensures SameNumbers(calls, given, n) <==> AllLowerOnesAreReal(calls, inherited, n)
  {
    hide WellFormed, ShouldSimulateSystemCall, LowerOnesAreReal, GivenLowestAt, RecordedLowestAt;
    if n > 0 {
      NumbersAgreeIff(calls, inherited, given, n - 1);
      assert SameNumbers(calls, given, n) ==> SameNumbers(calls, given, n - 1);
      assert AllLowerOnesAreReal(calls, inherited, n) ==> AllLowerOnesAreReal(calls, inherited, n - 1);
      if IsRealOpen(calls, n - 1) && SameNumbers(calls, given, n - 1) {
        assert RecordedLowestAt(calls, inherited, n - 1) && GivenLowestAt(calls, inherited, given, n - 1);
        OpenGetsItsNumberIff(calls, inherited, given, n - 1);
      }
    }
  }

  /** Two files opened and only the second one mapped: 0 then 1 when recorded. */
  function SecondOneMapped(r: WordRegisters, at: int): seq<SystemCall> {
    [SystemCall(r.(orig_rax := OPENAT), 0, []), SystemCall(r.(orig_rax := OPENAT), 1, []),
     SystemCall(r.(orig_rax := MMAP, r8 := 1), at, [])]
  }

  /** The first open is simulated and takes no number in the tracee, so the second gets 0 there. */
  lemma SimulatedOpenShiftsNumbers(r: WordRegisters, at: int, given: nat -> int)
    requires GivenLowest(SecondOneMapped(r, at), {}, given)
    ensures var calls := SecondOneMapped(r, at);
            && WellFormed(calls) && RecordedLowest(calls, {})
            && ShouldSimulateSystemCall(calls, 0) && IsRealOpen(calls, 1)
            && given(1) == 0 != calls[1].returnValue
  {
    var calls := SecondOneMapped(r, at);
    SecondOneMappedDecisions(r, at);
    SecondOneMappedLives(r, at);
    hide ShouldSimulateSystemCall, Live;
    assert TraceeOpen(calls, given, 0) == {} && TraceeOpen(calls, given, 1) == {};
    assert GivenLowestAt(calls, {}, given, 1);
    assert WellFormedAt(calls, 0) && WellFormedAt(calls, 1) && WellFormedAt(calls, 2);
    assert RecordedLowestAt(calls, {}, 0) && RecordedLowestAt(calls, {}, 1);
  }

  lemma SecondOneMappedDecisions(r: WordRegisters, at: int)
    ensures var calls := SecondOneMapped(r, at);
            ShouldSimulateSystemCall(calls, 0) && !ShouldSimulateSystemCall(calls, 1)
  {
    hide FdAppearsInMmapBeforeClose;
    var calls := SecondOneMapped(r, at);
    ForwardStep(0, calls, 0);
    ForwardStep(0, calls, 1);
    ForwardStep(0, calls, 2);
    ForwardStep(1, calls, 1);
    ForwardStep(1, calls, 2);
  }

  lemma SecondOneMappedLives(r: WordRegisters, at: int)
    ensures var calls := SecondOneMapped(r, at);
            Live(calls, 0) == map[] && Live(calls, 1) == map[0 := File] && Live(calls, 2) == map[0 := File, 1 := File]
  {
    var calls := SecondOneMapped(r, at);
    assert Live(calls, 0) == map[];
    assert Live(calls, 1) == map[0 := File];
    assert Live(calls, 2) == map[0 := File, 1 := File];
  }
}
