/**
  A syscall's record is a patch: applying the recorded copies in list order to
  the user memory before the call gives the user memory after it. Hooked copies
  and puts are recorded by value; what is written without a hook, or by an act
  whose hook recorded nothing, only through the diff of the region a wrapped
  call marks. When exactly the record is a patch is the question here.
 */
module SyscallPatch {
  import opened Bytes
  import opened Memory
  import opened Format
  import opened Wrappers
  import opened RecorderSpec
  import opened SnapshotDiff

  /**
    What the kernel does to user memory during a call. `ret` is what the hooked
    function returns: a copy leaves out its last `ret` bytes, a put that fails
    writes nothing. `hasMemory` says whether the hook's allocation succeeds, and
    `junk` is what a copy's fresh block holds.
   */
  datatype Act =
    | CopyOut(from: U64, to: U64, bytes: seq<Byte>, ret: U64, hasMemory: bool, junk: seq<Byte>)
    | PutUser(to: U64, value: U64, width: nat, ret: U64, hasMemory: bool)
    | Store(at: int, byte: Byte)
  {
    predicate WellFormed() {
      CopyOut? ==> |junk| == |bytes|
    }

    /** The act succeeds and its hook records it. */
    predicate ByHook() {
      match this
      case CopyOut(_, _, _, ret, hasMemory, _) => ret == 0 && hasMemory
      case PutUser(_, _, _, ret, hasMemory) => ret == 0 && hasMemory
      case Store(_, _) => false
    }

    /** The bytes the act writes, and where. */
    function Written(): seq<Byte> {
      match this
      case CopyOut(_, _, bytes, ret, _, _) =>
        if ret == 0 then bytes else if ret <= |bytes| then bytes[..|bytes| - ret] else []
      case PutUser(_, value, width, ret, _) => if ret == 0 then LE(value, width) else []
      case Store(_, byte) => [byte]
    }

    function Address(): int {
      match this
      case CopyOut(_, to, _, _, _, _) => to
      case PutUser(to, _, _, _, _) => to
      case Store(at, _) => at
    }

    predicate Covers(a: int) {
      Address() <= a < Address() + |Written()|
    }
  }

  /** The recorder's state and the user memory as the task's call goes on. */
  datatype Progress = Progress(rec: State, mem: Mem)

  /** The hooks around one act of the recorded task, and the act itself. */
  function Perform(p: Progress, task: int, act: Act): Progress
    requires act.WellFormed()
  {
    var mem' := Patch(p.mem, act.Address(), act.Written());
    match act
    case CopyOut(from, to, bytes, ret, hasMemory, junk) =>
      var pre := PreCopy(p.rec, task, from, to, hasMemory, junk);
      Progress(if pre.1 then PostCopy(pre.0, ret, bytes) else pre.0, mem')
    case PutUser(to, value, width, ret, hasMemory) =>
      var pre := PrePut(p.rec, task, to, value, width, hasMemory);
      Progress(if pre.1 then PostPut(pre.0, ret) else pre.0, mem')
    case Store(_, _) => p.(mem := mem')
  }

  function PerformAll(p: Progress, task: int, acts: seq<Act>): Progress
    requires forall a | a in acts :: a.WellFormed()
  {
    if acts == [] then p
    else Perform(PerformAll(p, task, acts[..|acts| - 1]), task, acts[|acts| - 1])
  }

  /** A copy made while another is pending is refused: its bytes are part of the outer copy's. */
  lemma NestedCopyIsRefused(s: State, task: int, from: U64, to: U64, width: nat, hasMemory: bool, bytes: seq<Byte>)
    requires s.pending.Some?
    ensures PreCopy(s, task, from, to, hasMemory, bytes) == (s, false)
    ensures PrePut(s, task, to, from, width, hasMemory) == (s, false)
  {
  }

  /** A call of the recorded task is being recorded and no copy is pending. */
  predicate Recording(s: State, task: int) {
    IsRecorded(s, task) && s.current.Some? && s.pending.None?
  }

  /** The copies recorded so far. */
  function Copies(s: State): seq<Copy>
    requires s.current.Some?
  {
    s.current.value.copies
  }

  /** The memory a replay of the copies recorded so far would have. */
  function Replayed(m0: Mem, s: State): (m: Mem)
    requires s.current.Some?
    ensures m.Keys == m0.Keys
  {
    ApplyCopies(m0, Copies(s))
  }

  // ---- What the hooks record, in closed form ----

  function HookedOne(act: Act): seq<Copy> {
    if !act.ByHook() then []
    else
      match act
      case CopyOut(from, to, bytes, _, _, _) => [Copy(from, to, bytes)]
      case PutUser(to, value, width, _, _) => [Copy(0, to, LE(value, width))]
      case Store(_, _) => []
  }

  function Hooked(acts: seq<Act>): seq<Copy> {
    if acts == [] then [] else Hooked(acts[..|acts| - 1]) + HookedOne(acts[|acts| - 1])
  }

  /** User memory after the acts. */
  function Stored(m: Mem, acts: seq<Act>): (m': Mem)
    ensures m'.Keys == m.Keys
  {
    if acts == [] then m
    else
      var act := acts[|acts| - 1];
      Patch(Stored(m, acts[..|acts| - 1]), act.Address(), act.Written())
  }

  lemma AddTwice(s: State, a: seq<Copy>, b: seq<Copy>)
    requires s.current.Some?
    ensures AddCopies(AddCopies(s, a), b) == AddCopies(s, a + b)
    ensures AddCopies(s, []) == s
  {
    assert s.current.value.copies + a + b == s.current.value.copies + (a + b);
    assert s.current.value.copies + [] == s.current.value.copies;
  }

  /** Whatever a hooked function returns, its bytes are recorded exactly when it returns 0 and the hook had memory. */
  lemma PerformIs(p: Progress, task: int, act: Act)
    requires act.WellFormed() && Recording(p.rec, task)
    ensures Perform(p, task, act) ==
            Progress(AddCopies(p.rec, HookedOne(act)), Patch(p.mem, act.Address(), act.Written()))
  {
    AddTwice(p.rec, [], []);
  }

  lemma {:induction false} PerformAllIs(p: Progress, task: int, acts: seq<Act>)
    requires (forall a | a in acts :: a.WellFormed()) && Recording(p.rec, task)
    ensures PerformAll(p, task, acts) == Progress(AddCopies(p.rec, Hooked(acts)), Stored(p.mem, acts))
  {
    if acts == [] {
      AddTwice(p.rec, [], []);
    } else {
      hide Perform, Patch, LE;
      var earlier := acts[..|acts| - 1];
      PerformAllIs(p, task, earlier);
      PerformIs(PerformAll(p, task, earlier), task, acts[|acts| - 1]);
      AddTwice(p.rec, Hooked(earlier), HookedOne(acts[|acts| - 1]));
    }
  }

  // ---- What the hooked acts alone would do ----

  /** What the acts would make of memory if only those happened that a hook records. */
  function HookedMem(m: Mem, acts: seq<Act>): (m': Mem)
    ensures m'.Keys == m.Keys
  {
    if acts == [] then m
    else
      var act := acts[|acts| - 1];
      var before := HookedMem(m, acts[..|acts| - 1]);
      if act.ByHook() then Patch(before, act.Address(), act.Written()) else before
  }

  lemma {:induction false} HookedIsHookedMem(m: Mem, acts: seq<Act>)
    ensures ApplyCopies(m, Hooked(acts)) == HookedMem(m, acts)
  {
    if acts != [] {
      hide Patch, LE, ApplyCopies;
      HookedIsHookedMem(m, acts[..|acts| - 1]);
      OneHookedCopy(m, Hooked(acts[..|acts| - 1]), acts[|acts| - 1]);
    } else {
      assert ApplyCopies(m, []) == m;
    }
  }

  lemma OneHookedCopy(m: Mem, cs: seq<Copy>, act: Act)
    ensures ApplyCopies(m, cs + HookedOne(act)) ==
            if act.ByHook() then Patch(ApplyCopies(m, cs), act.Address(), act.Written()) else ApplyCopies(m, cs)
  {
    hide Patch, LE, ApplyCopies;
    if act.ByHook() {
      ApplyOneMore(m, cs, HookedOne(act)[0]);
    } else {
      assert cs + [] == cs;
    }
  }

  /** Some act among the first k wrote address a through a hook. */
  ghost predicate HookWrote(acts: seq<Act>, k: nat, a: int)
    requires k <= |acts|
  {
    exists i :: 0 <= i < k && acts[i].ByHook() && acts[i].Covers(a)
  }

  lemma HookWroteStep(acts: seq<Act>, k: nat, a: int)
    requires 0 < k <= |acts|
    ensures HookWrote(acts, k, a) <==> HookWrote(acts, k - 1, a) || (acts[k - 1].ByHook() && acts[k - 1].Covers(a))
  {
  }

  lemma NoneOf(m: Mem, acts: seq<Act>, a: int)
    ensures acts[..0] == [] && HookedMem(m, acts[..0]) == m && Stored(m, acts[..0]) == m && !HookWrote(acts, 0, a)
  {
  }

  lemma StoredStep(m: Mem, acts: seq<Act>, k: nat, a: int)
    requires 0 < k <= |acts| && a in m
    ensures var act := acts[k - 1];
            Stored(m, acts[..k])[a] ==
            if act.Covers(a) then act.Written()[a - act.Address()] else Stored(m, acts[..k - 1])[a]
  {
    hide Patch, Act.Written, Act.Address;
    assert acts[..k][..k - 1] == acts[..k - 1] && acts[..k][k - 1] == acts[k - 1];
  }

  lemma HookedMemStep(m: Mem, acts: seq<Act>, k: nat, a: int)
    requires 0 < k <= |acts| && a in m
    ensures var act := acts[k - 1];
            HookedMem(m, acts[..k])[a] ==
            if act.ByHook() && act.Covers(a) then act.Written()[a - act.Address()] else HookedMem(m, acts[..k - 1])[a]
  {
    hide Patch, Act.Written, Act.Address, Act.ByHook;
    assert acts[..k][..k - 1] == acts[..k - 1] && acts[..k][k - 1] == acts[k - 1];
  }

  /** One more act, at address a. */
  lemma MemsStep(m: Mem, acts: seq<Act>, k: nat, a: int)
    requires 0 < k <= |acts| && a in m
    ensures var act := acts[k - 1];
            && Stored(m, acts[..k])[a] ==
               (if act.Covers(a) then act.Written()[a - act.Address()] else Stored(m, acts[..k - 1])[a])
            && HookedMem(m, acts[..k])[a] ==
               (if act.ByHook() && act.Covers(a) then act.Written()[a - act.Address()]
                else HookedMem(m, acts[..k - 1])[a])
  {
    StoredStep(m, acts, k, a);
    HookedMemStep(m, acts, k, a);
    hide Stored, HookedMem, Act.Written, Act.Address, Act.ByHook;
  }

  /** A hooked write decides a byte; without one it stays. */
  lemma {:induction false} HookedMemAt(x: Mem, y: Mem, acts: seq<Act>, n: nat, a: int)
    requires n <= |acts| && a in x && a in y
    ensures if HookWrote(acts, n, a) then HookedMem(x, acts[..n])[a] == HookedMem(y, acts[..n])[a]
            else HookedMem(x, acts[..n])[a] == x[a] && HookedMem(y, acts[..n])[a] == y[a]
  {
    hide HookedMem, HookWrote, Stored, Act.ByHook, Act.Written;
    if n == 0 {
      NoneOf(x, acts, a);
      NoneOf(y, acts, a);
    } else {
      HookedMemAt(x, y, acts, n - 1, a);
      HookWroteStep(acts, n, a);
      MemsStep(x, acts, n, a);
      MemsStep(y, acts, n, a);
    }
  }

  /** Only an act without a hook's record may leave something else than the hooked acts alone. */
  lemma {:induction false} HookedIsAllAt(m: Mem, acts: seq<Act>, a: int)
    requires a in m && forall c | c in acts && !c.ByHook() :: !c.Covers(a)
    ensures HookedMem(m, acts)[a] == Stored(m, acts)[a]
  {
    hide Act.ByHook, Act.Written;
    if acts != [] {
      assert acts[|acts| - 1] in acts;
      HookedIsAllAt(m, acts[..|acts| - 1], a);
    }
  }

  // ---- The region of a wrapped call ----

  /** Which allocations of the two hooks of a wrapped call succeed: both snapshots', and the first so many entries'. */
  datatype Allocs = Allocs(snapshot: bool, again: bool, entries: nat)

  /** pre_wrap_syscall at q0 and, when it took a snapshot, post_wrap_syscall at q. */
  function CloseRegion(q0: Progress, q: Progress, task: int, base: U64, len: U64, allocs: Allocs): Progress
    requires q.rec.current.Some?
  {
    var snap := PreWrap(q0.rec, task, q0.mem, base, len, allocs.snapshot);
    if snap.None? then q else q.(rec := PostWrap(q.rec, snap.value, q.mem, allocs.again, allocs.entries))
  }

  /** The diff of the region between the memories m and m'. */
  function RegionCopies(m: Mem, m': Mem, base: U64, len: U64, allocs: Allocs): seq<Copy> {
    if allocs.snapshot && allocs.again && AllMapped(m, base, len) && AllMapped(m', base, len)
    then Recorded(base, Slice(m, base, len), Slice(m', base, len), allocs.entries) else []
  }

  lemma CloseRegionIs(q0: Progress, q: Progress, task: int, base: U64, len: U64, allocs: Allocs)
    requires Recording(q0.rec, task) && Recording(q.rec, task) && q.mem.Keys == q0.mem.Keys
    ensures CloseRegion(q0, q, task, base, len, allocs) ==
            q.(rec := AddCopies(q.rec, RegionCopies(q0.mem, q.mem, base, len, allocs)))
  {
    AddTwice(q.rec, [], []);
  }

  /** The bytes of [base, a) that differ between the memories. */
  ghost function Changed(m: Mem, m': Mem, base: int, a: int): set<int>
    requires m.Keys == m'.Keys
  {
    set b | base <= b < a && b in m && m[b] != m'[b]
  }

  /**
    The diff of the region has byte a: it changed, the region was mapped, no
    allocation failed before its entry.
   */
  ghost predicate DiffHas(m: Mem, m': Mem, base: int, len: nat, allocs: Allocs, a: int)
    requires m.Keys == m'.Keys && a in m
  {
    && allocs.snapshot && allocs.again && AllMapped(m, base, len)
    && base <= a < base + len && m[a] != m'[a] && |Changed(m, m', base, a)| < allocs.entries
  }

  /** The snapshots differ at as many positions as the memories do in that part of the region. */
  lemma {:induction false} DifferingIsChanged(m: Mem, m': Mem, base: int, len: nat, n: nat)
    requires m.Keys == m'.Keys && Mapped(m, base, len) && Mapped(m', base, len) && n <= len
    ensures |Differing(Slice(m, base, len), Slice(m', base, len), n)| == |Changed(m, m', base, base + n)|
  {
    var before, after := Slice(m, base, len), Slice(m', base, len);
    if n == 0 {
      NoneChanged(m, m', base, before, after);
    } else {
      hide Differing;
      DifferingIsChanged(m, m', base, len, n - 1);
      DifferingStep(before, after, n);
      ChangedStep(m, m', base, base + n - 1);
      hide Changed;
    }
  }

  lemma NoneChanged(m: Mem, m': Mem, base: int, before: seq<Byte>, after: seq<Byte>)
    requires m.Keys == m'.Keys && |before| == |after|
    ensures Differing(before, after, 0) == {} && Changed(m, m', base, base) == {}
  {
  }

  lemma ChangedStep(m: Mem, m': Mem, base: int, a: int)
    requires m.Keys == m'.Keys && base <= a && a in m
    ensures |Changed(m, m', base, a + 1)| == |Changed(m, m', base, a)| + (if m[a] != m'[a] then 1 else 0)
  {
    assert Changed(m, m', base, a + 1) == Changed(m, m', base, a) + (if m[a] != m'[a] then {a} else {});
  }

  /** Applied to memory x, the diff changes the bytes it has, to those of m'. */
  lemma RegionCopiesAt(x: Mem, m: Mem, m': Mem, base: U64, len: U64, allocs: Allocs, a: int)
    requires m.Keys == m'.Keys && a in x && a in m
    ensures ApplyCopies(x, RegionCopies(m, m', base, len, allocs))[a] ==
            if DiffHas(m, m', base, len, allocs, a) then m'[a] else x[a]
  {
    if allocs.snapshot && allocs.again && AllMapped(m, base, len) {
      MappedRegionCopiesAt(x, m, m', base, len, allocs, a);
    }
  }

  lemma MappedRegionCopiesAt(x: Mem, m: Mem, m': Mem, base: U64, len: U64, allocs: Allocs, a: int)
    requires Mapped(m, base, len) && m.Keys == m'.Keys && a in x && a in m && allocs.snapshot && allocs.again
    ensures ApplyCopies(x, RegionCopies(m, m', base, len, allocs))[a] ==
            if base <= a < base + len && m[a] != m'[a] && |Changed(m, m', base, a)| < allocs.entries then m'[a]
            else x[a]
  {
    hide ApplyCopies, Changed, Slice, Diff, Differing, Reached;
    var before, after := Slice(m, base, len), Slice(m', base, len);
    var i := Reached(before, after, allocs.entries, len);
    ReachedBound(before, after, allocs.entries, len);
    assert RegionCopies(m, m', base, len, allocs) == Diff(base, before, after, i);
    MappedRegionBelowEnd(m, base, len);
    DiffApplied(x, base, before, after, i, a);
    if base <= a < base + len {
      SliceAt(m, base, len, a);
      SliceAt(m', base, len, a);
      if m[a] != m'[a] {
        ReachedBeyondIff(before, after, allocs.entries, len, a - base);
        DifferingIsChanged(m, m', base, len, a - base);
      }
    }
  }

  /** Byte a comes out right: the diff has it, or the hooked acts alone leave there what all of them leave. */
  ghost predicate ByteIsCaught(m: Mem, acts: seq<Act>, base: int, len: nat, allocs: Allocs, a: int)
    requires a in m
  {
    DiffHas(m, Stored(m, acts), base, len, allocs, a) || HookedMem(m, acts)[a] == Stored(m, acts)[a]
  }

  lemma EqualIffBytes(x: Mem, y: Mem)
    requires x.Keys == y.Keys
    ensures x == y <==> forall a | a in x :: x[a] == y[a]
  {
    if forall a | a in x :: x[a] == y[a] {
      assert forall a :: a in x.Keys <==> a in y.Keys;
      assert x == y;
    }
  }

  /** What is recorded when the region is closed, replayed. */
  lemma RegionReplayed(q0: Progress, task: int, acts: seq<Act>, base: U64, len: U64, allocs: Allocs, m0: Mem)
    requires (forall c | c in acts :: c.WellFormed()) && Recording(q0.rec, task)
    requires Replayed(m0, q0.rec) == q0.mem
    ensures var q := PerformAll(q0, task, acts);
            && Recording(q.rec, task) && q.mem == Stored(q0.mem, acts)
            && var q' := CloseRegion(q0, q, task, base, len, allocs);
               && Recording(q'.rec, task) && q'.mem == q.mem
               && Replayed(m0, q'.rec) ==
                  ApplyCopies(HookedMem(q0.mem, acts), RegionCopies(q0.mem, q.mem, base, len, allocs))
  {
    hide CloseRegion, ApplyCopies, PerformAll, Stored, HookedMem, RegionCopies;
    PerformAllIs(q0, task, acts);
    var q := PerformAll(q0, task, acts);
    CloseRegionIs(q0, q, task, base, len, allocs);
    HookedIsHookedMem(q0.mem, acts);
    var diff := RegionCopies(q0.mem, q.mem, base, len, allocs);
    ApplyCopiesAppend(m0, Copies(q0.rec), Hooked(acts));
    ApplyCopiesAppend(m0, Copies(q0.rec) + Hooked(acts), diff);
  }

  /**
    A region is recorded exactly if and only if every byte is caught by the
    hooks or by the diff, for any acts whatever, mapped or not, and whichever
    allocations fail.
   */
  lemma RegionIsExactIff(q0: Progress, task: int, acts: seq<Act>, base: U64, len: U64, allocs: Allocs, m0: Mem)
    requires (forall c | c in acts :: c.WellFormed()) && Recording(q0.rec, task)
    requires Replayed(m0, q0.rec) == q0.mem
    ensures var q := PerformAll(q0, task, acts);
            && q.rec.current.Some?
            && var q' := CloseRegion(q0, q, task, base, len, allocs);
               && q'.rec.current.Some? && q'.mem == Stored(q0.mem, acts)
               && (Replayed(m0, q'.rec) == q'.mem <==>
                   forall a | a in q0.mem :: ByteIsCaught(q0.mem, acts, base, len, allocs, a))
  {
    hide CloseRegion, Replayed, PerformAll, Stored, HookedMem, DiffHas, RegionCopies, ApplyCopies;
    RegionReplayed(q0, task, acts, base, len, allocs, m0);
    var q := PerformAll(q0, task, acts);
    var q' := CloseRegion(q0, q, task, base, len, allocs);
    forall a | a in q0.mem
      ensures ByteIsCaught(q0.mem, acts, base, len, allocs, a) <==> Replayed(m0, q'.rec)[a] == q'.mem[a]
    {
      RegionCopiesAt(HookedMem(q0.mem, acts), q0.mem, q.mem, base, len, allocs, a);
      DiffHasMeans(q0.mem, q.mem, base, len, allocs, a);
    }
    EqualIffBytes(Replayed(m0, q'.rec), q'.mem);
  }

  lemma DiffHasMeans(m: Mem, m': Mem, base: int, len: nat, allocs: Allocs, a: int)
    requires m.Keys == m'.Keys && a in m
    ensures DiffHas(m, m', base, len, allocs, a) ==> base <= a < base + len && m[a] != m'[a] && AllMapped(m, base, len)
  {
  }

  /** Every byte an act writes without a hook's record lies in the region. */
  ghost predicate UnhookedInside(acts: seq<Act>, base: int, len: nat) {
    forall k, a | 0 <= k < |acts| && !acts[k].ByHook() && acts[k].Covers(a) :: base <= a < base + len
  }

  /**
    When nothing is written outside the region without a hook's record, the
    region is recorded exactly if and only if the hooked acts alone do right by
    each of its bytes that the diff does not have: all of them when no snapshot
    could be taken, and otherwise those that end as they began and those behind
    the first failed allocation.
   */
  lemma RegionIsExactIffInside(q0: Progress, task: int, acts: seq<Act>, base: U64, len: U64, allocs: Allocs, m0: Mem)
    requires (forall c | c in acts :: c.WellFormed()) && Recording(q0.rec, task)
    requires Replayed(m0, q0.rec) == q0.mem
    requires UnhookedInside(acts, base, len)
    ensures var q := PerformAll(q0, task, acts);
            && q.rec.current.Some? && q.mem == Stored(q0.mem, acts)
            && var q' := CloseRegion(q0, q, task, base, len, allocs);
               && q'.rec.current.Some?
               && (Replayed(m0, q'.rec) == q'.mem <==>
                   forall a | a in q0.mem && base <= a < base + len
                              && !DiffHas(q0.mem, q.mem, base, len, allocs, a) ::
                     HookedMem(q0.mem, acts)[a] == q.mem[a])
  {
    hide CloseRegion, Replayed, PerformAll, Stored, HookedMem, DiffHas;
    RegionReplayed(q0, task, acts, base, len, allocs, m0);
    RegionIsExactIff(q0, task, acts, base, len, allocs, m0);
    forall a | a in q0.mem
      ensures ByteIsCaught(q0.mem, acts, base, len, allocs, a) <==>
              (base <= a < base + len && !DiffHas(q0.mem, Stored(q0.mem, acts), base, len, allocs, a)
               ==> HookedMem(q0.mem, acts)[a] == Stored(q0.mem, acts)[a])
    {
      DiffHasMeans(q0.mem, Stored(q0.mem, acts), base, len, allocs, a);
      if !(base <= a < base + len) {
        forall c | c in acts && !c.ByHook()
          ensures !c.Covers(a)
        {
        }
        HookedIsAllAt(q0.mem, acts, a);
      }
    }
  }

  /** A hooked one-byte copy undone by an unhooked store is replayed as if it had stayed. */
  lemma RestoredByteIsReplayedWrong(q0: Progress, task: int, base: U64, byte: Byte, allocs: Allocs, m0: Mem)
    requires Recording(q0.rec, task) && Replayed(m0, q0.rec) == q0.mem && base in q0.mem && byte != q0.mem[base]
    ensures var acts := [CopyOut(0, base, [byte], 0, true, [0]), Store(base, q0.mem[base])];
            var q := PerformAll(q0, task, acts);
            && q.rec.current.Some? && base in q.mem && q.mem[base] == q0.mem[base]
            && var q' := CloseRegion(q0, q, task, base, 1, allocs);
               q'.rec.current.Some? && Replayed(m0, q'.rec)[base] == byte
  {
    hide PerformAll, CloseRegion, Replayed, ApplyCopies, RegionCopies, Stored, HookedMem, DiffHas;
    var acts := [CopyOut(0, base, [byte], 0, true, [0]), Store(base, q0.mem[base])];
    RegionReplayed(q0, task, acts, base, 1, allocs, m0);
    assert acts[..2] == acts;
    NoneOf(q0.mem, acts, base);
    MemsStep(q0.mem, acts, 1, base);
    MemsStep(q0.mem, acts, 2, base);
    RegionCopiesAt(HookedMem(q0.mem, acts), q0.mem, Stored(q0.mem, acts), base, 1, allocs, base);
    DiffHasMeans(q0.mem, Stored(q0.mem, acts), base, 1, allocs, base);
  }

  // ---- The whole call ----

  /**
    The inside of a call: acts, then for a wrapped call the region with the
    acts while the snapshot is held, then more acts.
   */
  datatype Body = Body(before: seq<Act>, region: Option<Region>, allocs: Allocs, during: seq<Act>, after: seq<Act>) {
    ghost predicate WellFormed() {
      && (forall a | a in before :: a.WellFormed())
      && (forall a | a in during :: a.WellFormed())
      && (forall a | a in after :: a.WellFormed())
      && (region.None? ==> during == [])
    }
  }

  function Through(p: Progress, task: int, body: Body): Progress
    requires body.WellFormed() && Recording(p.rec, task)
  {
    PerformAllIs(p, task, body.before);
    var q0 := PerformAll(p, task, body.before);
    if body.region.None? then PerformAll(q0, task, body.after)
    else
      PerformAllIs(q0, task, body.during);
      var q := PerformAll(q0, task, body.during);
      var region := body.region.value;
      PerformAll(CloseRegion(q0, q, task, region.Base(), region.Len(), body.allocs), task, body.after)
  }

  /** pre_syscall, the body and post_syscall of one call that returns ax. */
  function RecordCall(s: State, m: Mem, task: int, nr: int, regs: WordRegisters, junk: U64, body: Body,
                      ax: U64): Progress
    requires body.WellFormed() && IsRecorded(s, task) && s.current.None? && s.pending.None?
    requires nr != EXECVE && nr != EXIT && nr != EXIT_GROUP
  {
    var p := Through(Progress(PreSyscall(s, task, nr, regs, true, junk).0, m), task, body);
    p.(rec := PostSyscall(p.rec, ax))
  }

  /** The copies of the region's diff, if there is one. */
  function DiffCopies(m: Mem, body: Body): seq<Copy> {
    var m1 := Stored(m, body.before);
    if body.region.None? then []
    else RegionCopies(m1, Stored(m1, body.during), body.region.value.Base(), body.region.value.Len(), body.allocs)
  }

  /** The copies a call records that begins with user memory m. */
  function BodyCopies(m: Mem, body: Body): seq<Copy> {
    Hooked(body.before) + Hooked(body.during) + DiffCopies(m, body) + Hooked(body.after)
  }

  /** User memory after the call. */
  function BodyMem(m: Mem, body: Body): (m': Mem)
    ensures m'.Keys == m.Keys
  {
    Stored(Stored(Stored(m, body.before), body.during), body.after)
  }

  /** The hooks leave the current record with exactly these copies. */
  lemma ThroughIs(p: Progress, task: int, body: Body)
    requires body.WellFormed() && Recording(p.rec, task)
    ensures Through(p, task, body) == Progress(AddCopies(p.rec, BodyCopies(p.mem, body)), BodyMem(p.mem, body))
  {
    hide PerformAll, CloseRegion, Hooked, Stored, RegionCopies;
    PerformAllIs(p, task, body.before);
    var q0 := PerformAll(p, task, body.before);
    var done, diff := Hooked(body.before), DiffCopies(p.mem, body);
    if body.region.None? {
      PerformAllIs(q0, task, body.after);
      NoActs(q0.mem);
      assert done + [] + [] == done;
    } else {
      PerformAllIs(q0, task, body.during);
      var q := PerformAll(q0, task, body.during);
      var region := body.region.value;
      CloseRegionIs(q0, q, task, region.Base(), region.Len(), body.allocs);
      PerformAllIs(CloseRegion(q0, q, task, region.Base(), region.Len(), body.allocs), task, body.after);
      AddTwice(p.rec, done, Hooked(body.during));
      done := done + Hooked(body.during);
      AddTwice(p.rec, done, diff);
      done := done + diff;
    }
    AddTwice(p.rec, done, Hooked(body.after));
  }

  lemma NoActs(m: Mem)
    ensures Stored(m, []) == m && HookedMem(m, []) == m && Hooked([]) == []
  {
  }

  // ---- Exactly when a record is a patch ----

  /** The region's diff has byte a. */
  ghost predicate InDiff(m: Mem, body: Body, a: int)
    requires a in m
  {
    var m1 := Stored(m, body.before);
    && body.region.Some?
    && DiffHas(m1, Stored(m1, body.during), body.region.value.Base(), body.region.value.Len(), body.allocs, a)
  }

  /**
    Byte a of the call's effect is caught. When it is written through a hook
    after the region, those acts decide: the hooked ones alone leave what all of
    them leave. Otherwise, when the diff has it, it is not written any more; and
    when the diff does not, the hooked acts of the whole call leave there what
    all acts leave.
   */
  ghost predicate CallCatches(m: Mem, body: Body, a: int)
    requires a in m
  {
    var m2 := Stored(Stored(m, body.before), body.during);
    var end := Stored(m2, body.after)[a];
    if HookWrote(body.after, |body.after|, a) then HookedMem(m2, body.after)[a] == end
    else if InDiff(m, body, a) then m2[a] == end
    else HookedMem(HookedMem(m, body.before), body.during)[a] == end
  }

  ghost predicate IsCaught(m: Mem, body: Body) {
    forall a | a in m :: CallCatches(m, body, a)
  }

  /** The copies of a call, applied part by part. */
  lemma ReplayByParts(m: Mem, body: Body)
    ensures var h := HookedMem(HookedMem(m, body.before), body.during);
            ApplyCopies(m, BodyCopies(m, body)) == HookedMem(ApplyCopies(h, DiffCopies(m, body)), body.after)
  {
    hide ApplyCopies, HookedMem, Stored, Hooked, RegionCopies;
    var first, second, diff, last := Hooked(body.before), Hooked(body.during), DiffCopies(m, body), Hooked(body.after);
    HookedIsHookedMem(m, body.before);
    var h := HookedMem(m, body.before);
    HookedIsHookedMem(h, body.during);
    HookedIsHookedMem(ApplyCopies(HookedMem(h, body.during), diff), body.after);
    ApplyCopiesAppend(m, first, second);
    ApplyCopiesAppend(m, first + second, diff);
    ApplyCopiesAppend(m, first + second + diff, last);
  }

  /** One byte of what a replay of the copies makes of memory. */
  lemma ReplayedByte(m: Mem, body: Body, a: int)
    requires a in m
    ensures ApplyCopies(m, BodyCopies(m, body))[a] ==
            if HookWrote(body.after, |body.after|, a)
            then HookedMem(Stored(Stored(m, body.before), body.during), body.after)[a]
            else if InDiff(m, body, a) then Stored(Stored(m, body.before), body.during)[a]
            else HookedMem(HookedMem(m, body.before), body.during)[a]
  {
    hide ApplyCopies, HookedMem, Stored, RegionCopies, BodyCopies, HookWrote, DiffHas;
    ReplayByParts(m, body);
    var m1 := Stored(m, body.before);
    var m2 := Stored(m1, body.during);
    var h := HookedMem(HookedMem(m, body.before), body.during);
    assert body.after[..|body.after|] == body.after;
    HookedMemAt(ApplyCopies(h, DiffCopies(m, body)), m2, body.after, |body.after|, a);
    ApplyNone(h);
    if body.region.Some? {
      RegionCopiesAt(h, m1, m2, body.region.value.Base(), body.region.value.Len(), body.allocs, a);
    }
  }

  lemma ApplyNone(m: Mem)
    ensures ApplyCopies(m, []) == m
  {
  }

  /**
    The copies a call records make up its effect on memory if and only if each
    byte of it is caught: for any acts, hooked or not, anywhere in the call,
    whatever they return, for a region wholly mapped, partly mapped or absent,
    and whichever allocations fail.
   */
  lemma BodyIsPatchIff(m: Mem, body: Body)
    ensures ApplyCopies(m, BodyCopies(m, body)) == BodyMem(m, body) <==> IsCaught(m, body)
  {
    hide ApplyCopies, BodyCopies, HookedMem, Stored, HookWrote, InDiff;
    forall a | a in m
      ensures ApplyCopies(m, BodyCopies(m, body))[a] == BodyMem(m, body)[a] <==> CallCatches(m, body, a)
    {
      ReplayedByte(m, body, a);
    }
    hide CallCatches;
    EqualIffBytes(ApplyCopies(m, BodyCopies(m, body)), BodyMem(m, body));
  }

  /** The same of the record that a call of the recorded task leaves in the queue. */
  lemma CallRecordIsPatchIff(s: State, m: Mem, task: int, nr: int, regs: WordRegisters, junk: U64, body: Body, ax: U64)
    requires body.WellFormed() && IsRecorded(s, task) && s.current.None? && s.pending.None?
    requires nr != EXECVE && nr != EXIT && nr != EXIT_GROUP && |s.queue| < QUEUE_CAPACITY
    ensures var p := RecordCall(s, m, task, nr, regs, junk, body, ax);
            && p.mem == BodyMem(m, body) && |p.rec.queue| == |s.queue| + 1
            && p.rec.queue[..|s.queue|] == s.queue && p.rec.current.None? && p.rec.pending.None?
            && p.rec.queue[|s.queue|] == Record(regs, ax, BodyCopies(m, body))
            && (ApplyCopies(m, p.rec.queue[|s.queue|].copies) == p.mem <==> IsCaught(m, body))
  {
    hide ApplyCopies, Through, BodyCopies, BodyMem, IsCaught, Body.WellFormed;
    ThroughIs(Progress(PreSyscall(s, task, nr, regs, true, junk).0, m), task, body);
    BodyIsPatchIff(m, body);
    assert [] + BodyCopies(m, body) == BodyCopies(m, body);
  }

  // ---- Recordable calls ----

  /** No act writes anything without a hook's record. */
  ghost predicate AllHooked(acts: seq<Act>) {
    forall c | c in acts && !c.ByHook() :: c.Written() == []
  }

  /** What is written without a hook's record lies in the region, and never follows a hooked write of the same byte. */
  ghost predicate StoresAreRecordable(acts: seq<Act>, base: int, len: nat) {
    forall k, a | 0 <= k < |acts| && !acts[k].ByHook() && acts[k].Covers(a) ::
      base <= a < base + len && !HookWrote(acts, k, a)
  }

  /** The region's snapshots can be taken and there is memory for every entry. */
  ghost predicate DiffIsWhole(m: Mem, region: Region, allocs: Allocs) {
    Mapped(m, region.Base(), region.Len()) && allocs.snapshot && allocs.again && allocs.entries >= region.Len()
  }

  /** Without a hook's record, only the marked region is written, and before hooked writes of the same address. */
  ghost predicate Recordable(m: Mem, body: Body) {
    && AllHooked(body.before) && AllHooked(body.after)
    && if body.region.None? then body.during == []
         else
           && DiffIsWhole(m, body.region.value, body.allocs)
           && StoresAreRecordable(body.during, body.region.value.Base(), body.region.value.Len())
  }

  lemma AllHookedAt(m: Mem, acts: seq<Act>, a: int)
    requires a in m && AllHooked(acts)
    ensures HookedMem(m, acts)[a] == Stored(m, acts)[a]
    ensures !HookWrote(acts, |acts|, a) ==> Stored(m, acts)[a] == m[a]
  {
    hide HookedMem, Stored, HookWrote;
    HookedIsAllAt(m, acts, a);
    assert acts[..|acts|] == acts;
    HookedMemAt(m, m, acts, |acts|, a);
  }

  /** Once a hook has written a byte the hooked acts alone do right by it; until then they leave it alone. */
  lemma {:induction false} RecordableAt(m: Mem, acts: seq<Act>, base: int, len: nat, k: nat, a: int)
    requires k <= |acts| && a in m && StoresAreRecordable(acts, base, len)
    ensures if HookWrote(acts, k, a) then HookedMem(m, acts[..k])[a] == Stored(m, acts[..k])[a]
            else HookedMem(m, acts[..k])[a] == m[a]
    ensures !HookWrote(acts, k, a) && !(base <= a < base + len) ==> Stored(m, acts[..k])[a] == m[a]
  {
    hide HookedMem, Stored, HookWrote, Act.ByHook, Act.Written;
    if k == 0 {
      NoneOf(m, acts, a);
    } else {
      RecordableAt(m, acts, base, len, k - 1, a);
      HookWroteStep(acts, k, a);
      MemsStep(m, acts, k, a);
    }
  }

  lemma ChangedBound(m: Mem, m': Mem, base: int, len: nat, a: int)
    requires m.Keys == m'.Keys && Mapped(m, base, len) && base <= a < base + len
    ensures |Changed(m, m', base, a)| <= a - base
  {
    DifferingIsChanged(m, m', base, len, a - base);
    RoomForAll(Slice(m, base, len), Slice(m', base, len), a - base);
  }

  lemma RoomForAll(before: seq<Byte>, after: seq<Byte>, n: nat)
    requires n <= |before| == |after|
    ensures |Differing(before, after, n)| <= n
  {
    if n > 0 {
      RoomForAll(before, after, n - 1);
      DifferingStep(before, after, n);
    }
  }

  /** During the region: what the diff does not have is left by the hooked acts as by all. */
  lemma RegionCatches(m: Mem, acts: seq<Act>, region: Region, allocs: Allocs, a: int)
    requires a in m && DiffIsWhole(m, region, allocs)
    requires StoresAreRecordable(acts, region.Base(), region.Len())
    requires !DiffHas(m, Stored(m, acts), region.Base(), region.Len(), allocs, a)
    ensures HookedMem(m, acts)[a] == Stored(m, acts)[a]
  {
    hide HookedMem, Stored, HookWrote, StoresAreRecordable, Changed;
    var base, len := region.Base(), region.Len();
    assert acts[..|acts|] == acts;
    RecordableAt(m, acts, base, len, |acts|, a);
    if base <= a < base + len {
      ChangedBound(m, Stored(m, acts), base, len, a);
    }
  }

  /** Each byte of a recordable call is caught. */
  lemma RecordableIsCaught(m: Mem, body: Body)
    requires Recordable(m, body)
    ensures IsCaught(m, body)
  {
    hide HookedMem, Stored, HookWrote, StoresAreRecordable, AllHooked, DiffHas;
    var m1 := Stored(m, body.before);
    var m2 := Stored(m1, body.during);
    forall a | a in m
      ensures CallCatches(m, body, a)
    {
      AllHookedAt(m, body.before, a);
      AllHookedAt(m2, body.after, a);
      NoActs(m1);
      NoActs(HookedMem(m, body.before));
      HookedMemAt(HookedMem(m, body.before), m1, body.during, |body.during|, a);
      assert body.during[..|body.during|] == body.during;
      if body.region.Some? && !InDiff(m, body, a) {
        StillMapped(m, m1, body.region.value, body.allocs);
        RegionCatches(m1, body.during, body.region.value, body.allocs, a);
      }
    }
  }

  lemma StillMapped(m: Mem, m': Mem, region: Region, allocs: Allocs)
    requires m.Keys == m'.Keys && DiffIsWhole(m, region, allocs)
    ensures DiffIsWhole(m', region, allocs)
  {
  }

  /** Applied to the memory the call began with, the copies of a recordable call give the memory it ended with. */
  lemma BodyIsPatch(m: Mem, body: Body)
    requires Recordable(m, body)
    ensures ApplyCopies(m, BodyCopies(m, body)) == BodyMem(m, body)
  {
    hide ApplyCopies, BodyCopies, BodyMem, IsCaught, Recordable;
    RecordableIsCaught(m, body);
    BodyIsPatchIff(m, body);
  }

  /**
    The record of a call is a sound patch of user memory: for every mix of
    hooked copies and puts, failing or not, and of other writes inside a wrapped
    region that can be snapshot, applying the recorded copies in list order to
    the memory before the call gives the memory after it.
   */
  lemma CallRecordIsPatch(s: State, m: Mem, task: int, nr: int, regs: WordRegisters, junk: U64, body: Body, ax: U64)
    requires body.WellFormed() && IsRecorded(s, task) && s.current.None? && s.pending.None?
    requires nr != EXECVE && nr != EXIT && nr != EXIT_GROUP
    requires Recordable(m, body) && |s.queue| < QUEUE_CAPACITY
    ensures var p := RecordCall(s, m, task, nr, regs, junk, body, ax);
            && |p.rec.queue| == |s.queue| + 1
            && ApplyCopies(m, p.rec.queue[|s.queue|].copies) == p.mem == BodyMem(m, body)
  {
    hide RecordCall, ApplyCopies, BodyMem, IsCaught, Body.WellFormed, Recordable, BodyCopies;
    RecordableIsCaught(m, body);
    CallRecordIsPatchIff(s, m, task, nr, regs, junk, body, ax);
  }

  // ---- The wrapped calls, in registers ----

  /** No hook of the call wrote byte a. */
  ghost predicate NoHookWrote(body: Body, a: int) {
    && !HookWrote(body.before, |body.before|, a) && !HookWrote(body.during, |body.during|, a)
    && !HookWrote(body.after, |body.after|, a)
  }

  lemma UnwrittenByHooks(m: Mem, acts: seq<Act>, a: int)
    requires a in m && !HookWrote(acts, |acts|, a)
    ensures HookedMem(m, acts)[a] == m[a]
  {
    hide HookedMem, HookWrote;
    assert acts[..|acts|] == acts;
    HookedMemAt(m, m, acts, |acts|, a);
  }

  /** A byte outside the region that no hook wrote is left as it was. */
  lemma LostOutside(m: Mem, body: Body, a: int)
    requires a in m && NoHookWrote(body, a)
    requires body.region.Some? ==>
               !(body.region.value.Base() <= a < body.region.value.Base() + body.region.value.Len())
    ensures ApplyCopies(m, BodyCopies(m, body))[a] == m[a]
  {
    hide ApplyCopies, BodyCopies, HookedMem, Stored, HookWrote, DiffHas;
    ReplayedByte(m, body, a);
    UnwrittenByHooks(m, body.before, a);
    UnwrittenByHooks(HookedMem(m, body.before), body.during, a);
    if body.region.Some? {
      var m1, region := Stored(m, body.before), body.region.value;
      DiffHasMeans(m1, Stored(m1, body.during), region.Base(), region.Len(), body.allocs, a);
    }
  }

  /** A call of this wrapper that writes outside the region only through hooks, with memory for every entry. */
  ghost predicate Wraps(body: Body, wrapper: Wrapper, len: nat) {
    && body.region.Some? && body.region.value.wrapper == wrapper
    && body.allocs.snapshot && body.allocs.again && body.allocs.entries >= len
    && AllHooked(body.before) && AllHooked(body.after)
  }

  /** Without a hook's record, the acts write only the last two bytes of the n eight-byte entries at p. */
  ghost predicate StoresRevents(acts: seq<Act>, p: int, n: nat) {
    forall k, a | 0 <= k < |acts| && !acts[k].ByHook() && acts[k].Covers(a) ::
      p <= a < p + 8 * n && (a - p) % 8 >= 6 && !HookWrote(acts, k, a)
  }

  /** A poll of n entries at p is recorded exactly, whatever it stores in their revents. */
  lemma PollIsRecorded(m: Mem, body: Body, regs: WordRegisters)
    requires Wraps(body, Poll, 8 * regs.rsi) && body.region.value.regs == regs
    requires Mapped(m, regs.rdi, 8 * regs.rsi) && StoresRevents(body.during, regs.rdi, regs.rsi)
    ensures ApplyCopies(m, BodyCopies(m, body)) == BodyMem(m, body)
  {
    hide ApplyCopies, BodyCopies, BodyMem, HookWrote, Recordable, AllHooked;
    MappedRegionBelowEnd(m, regs.rdi, 8 * regs.rsi);
    WrappedIsRecordable(m, body, regs.rdi, 8 * regs.rsi);
    BodyIsPatch(m, body);
  }

  lemma WrappedIsRecordable(m: Mem, body: Body, base: int, len: nat)
    requires body.region.Some? && Wraps(body, body.region.value.wrapper, len)
    requires body.region.value.Base() == base && body.region.value.Len() == len
    requires Mapped(m, base, len) && StoresAreRecordable(body.during, base, len)
    ensures Recordable(m, body)
  {
    hide AllHooked, StoresAreRecordable;
  }

  /** What it stores elsewhere without a hook is lost. */
  lemma PollLosesOutside(m: Mem, body: Body, regs: WordRegisters, a: int)
    requires body.region.Some? && body.region.value.wrapper.Poll? && body.region.value.regs == regs
    requires a in m && !(regs.rdi <= a < regs.rdi + 8 * regs.rsi) && NoHookWrote(body, a)
    ensures ApplyCopies(m, BodyCopies(m, body))[a] == m[a]
  {
    hide ApplyCopies, BodyCopies, HookWrote;
    LostOutside(m, body, a);
  }

  /** A getdents is recorded exactly in the buffer its user registers name. */
  lemma GetdentsIsRecorded(m: Mem, body: Body, user: WordRegisters)
    requires Wraps(body, Getdents, user.rdx) && body.region.value.userRegs == user
    requires Mapped(m, user.rsi, user.rdx) && StoresAreRecordable(body.during, user.rsi, user.rdx)
    ensures ApplyCopies(m, BodyCopies(m, body)) == BodyMem(m, body)
  {
    hide ApplyCopies, BodyCopies, BodyMem, HookWrote, Recordable, AllHooked;
    WrappedIsRecordable(m, body, user.rsi, user.rdx);
    BodyIsPatch(m, body);
  }

  lemma GetdentsLosesOutside(m: Mem, body: Body, user: WordRegisters, a: int)
    requires body.region.Some? && body.region.value.wrapper.Getdents? && body.region.value.userRegs == user
    requires a in m && !(user.rsi <= a < user.rsi + user.rdx) && NoHookWrote(body, a)
    ensures ApplyCopies(m, BodyCopies(m, body))[a] == m[a]
  {
    hide ApplyCopies, BodyCopies, HookWrote;
    LostOutside(m, body, a);
  }

  /** A getdents64 is recorded exactly in the buffer its own registers name. */
  lemma Getdents64IsRecorded(m: Mem, body: Body, regs: WordRegisters)
    requires Wraps(body, Getdents64, regs.rdx) && body.region.value.regs == regs
    requires Mapped(m, regs.rsi, regs.rdx) && StoresAreRecordable(body.during, regs.rsi, regs.rdx)
    ensures ApplyCopies(m, BodyCopies(m, body)) == BodyMem(m, body)
  {
    hide ApplyCopies, BodyCopies, BodyMem, HookWrote, Recordable, AllHooked;
    WrappedIsRecordable(m, body, regs.rsi, regs.rdx);
    BodyIsPatch(m, body);
  }

  lemma Getdents64LosesOutside(m: Mem, body: Body, regs: WordRegisters, a: int)
    requires body.region.Some? && body.region.value.wrapper.Getdents64? && body.region.value.regs == regs
    requires a in m && !(regs.rsi <= a < regs.rsi + regs.rdx) && NoHookWrote(body, a)
    ensures ApplyCopies(m, BodyCopies(m, body))[a] == m[a]
  {
    hide ApplyCopies, BodyCopies, HookWrote;
    LostOutside(m, body, a);
  }

  /** A getdents64 that is given two bytes and the second one is not mapped. */
  function TwoBytesOneMapped(regs: WordRegisters, byte: Byte, allocs: Allocs): Body {
    Body([], Some(Region(Getdents64, regs, regs)), allocs, [Store(regs.rsi, byte)], [])
  }

  /** No snapshot can be taken of its region, so what it stores there is not recorded at all. */
  lemma UnmappedRegionLosesStores(m: Mem, regs: WordRegisters, byte: Byte, allocs: Allocs)
    requires regs.rdx == 2 && regs.rsi in m && regs.rsi + 1 !in m && byte != m[regs.rsi]
    ensures var body := TwoBytesOneMapped(regs, byte, allocs);
            body.WellFormed() && BodyCopies(m, body) == [] && BodyMem(m, body)[regs.rsi] == byte && !IsCaught(m, body)
  {
    hide BodyCopies, BodyMem, IsCaught, ApplyCopies;
    TwoBytesRecorded(m, regs, byte, allocs);
    ApplyNone(m);
    BodyIsPatchIff(m, TwoBytesOneMapped(regs, byte, allocs));
  }

  lemma TwoBytesRecorded(m: Mem, regs: WordRegisters, byte: Byte, allocs: Allocs)
    requires regs.rdx == 2 && regs.rsi in m && regs.rsi + 1 !in m
    ensures var body := TwoBytesOneMapped(regs, byte, allocs);
            BodyCopies(m, body) == [] && BodyMem(m, body)[regs.rsi] == byte
  {
    hide RegionCopies;
    OneAct(m, Store(regs.rsi, byte));
    NoActs(m);
    NoActs(Patch(m, regs.rsi, [byte]));
    NoDiff(m, Patch(m, regs.rsi, [byte]), regs.rsi, 2, allocs);
    hide Stored, Hooked, Patch;
  }

  lemma OneAct(m: Mem, act: Act)
    ensures Stored(m, [act]) == Patch(m, act.Address(), act.Written()) && Hooked([act]) == HookedOne(act)
  {
    assert [act][..0] == [];
    assert Hooked([act]) == [] + HookedOne(act);
  }

  lemma NoDiff(m: Mem, m': Mem, base: U64, len: U64, allocs: Allocs)
    requires !AllMapped(m, base, len)
    ensures RegionCopies(m, m', base, len, allocs) == []
  {
  }

  /** A copy that faults behind its first bytes has written them, and nothing of it is recorded. */
  lemma PartialCopyIsLost(m: Mem, from: U64, to: U64, bytes: seq<Byte>, ret: U64, allocs: Allocs)
    requires 0 < ret < |bytes| && to in m && m[to] != bytes[0]
    ensures var body := Body([CopyOut(from, to, bytes, ret, true, bytes)], None, allocs, [], []);
            body.WellFormed() && BodyCopies(m, body) == [] && BodyMem(m, body)[to] == bytes[0] && !IsCaught(m, body)
  {
    hide BodyMem, BodyCopies, IsCaught, ApplyCopies, Patch;
    var act := CopyOut(from, to, bytes, ret, true, bytes);
    var body := Body([act], None, allocs, [], []);
    OneActAlone(m, act, body);
    ApplyNone(m);
    BodyIsPatchIff(m, body);
  }

  lemma OneActAlone(m: Mem, act: Act, body: Body)
    requires body.before == [act] && body.region.None? && body.during == body.after == []
    ensures BodyCopies(m, body) == HookedOne(act) && BodyMem(m, body) == Patch(m, act.Address(), act.Written())
  {
    hide Patch;
    OneAct(m, act);
    NoActs(Patch(m, act.Address(), act.Written()));
    assert HookedOne(act) + [] + [] + [] == HookedOne(act);
  }
}
