/**
  Whole runs of the kernel module: hooks, pid changes and reads in any order
  the kretprobe rule allows, with any answers of kmalloc. The module's memory
  stays consistent throughout, and what it records and returns is what the
  pipeline says.
 */
module KernelRun {
  import opened Bytes
  import opened Memory
  import opened Format
  import opened Wrappers
  import opened RecorderSpec
  import opened KernelHeap
  import R = Recorder
  import P = Pipeline
  import D = DumperSpec
  import LoaderSpec

  /** A hooked function whose post hook will run; a wrapped one carries its snapshot's address. */
  datatype Frame = InSyscall | InPut | InCopy | InWrap(block: Ptr)

  ghost predicate Holds(live: map<Ptr, Snapshot>, f: Frame, a: P.Frame) {
    match f
    case InSyscall => a == P.InSyscall
    case InPut => a == P.InPut
    case InCopy => a == P.InCopy
    case InWrap(b) => b in live && a == P.InWrap(live[b]) && |live[b].bytes| < 0x8000_0000
  }

  /** The frames are those of the pipeline, and each live snapshot belongs to exactly one of them. */
  ghost predicate Stack(live: map<Ptr, Snapshot>, frames: seq<Frame>, abs: seq<P.Frame>) {
    && |frames| == |abs|
    && (forall i | 0 <= i < |frames| :: Holds(live, frames[i], abs[i]))
    && (forall b | b in live :: InWrap(b) in frames)
    && forall i, j | 0 <= i < j < |frames| && frames[i].InWrap? && frames[j].InWrap? ::
         frames[i].block != frames[j].block
  }

  lemma Pushed(live: map<Ptr, Snapshot>, frames: seq<Frame>, abs: seq<P.Frame>, f: Frame, a: P.Frame)
    requires Stack(live, frames, abs) && !f.InWrap? && Holds(live, f, a)
    ensures Stack(live, frames + [f], abs + [a])
  {
  }

  lemma WrapPushed(live: map<Ptr, Snapshot>, frames: seq<Frame>, abs: seq<P.Frame>, b: Ptr, snap: Snapshot)
    requires Stack(live, frames, abs) && b !in live && |snap.bytes| < 0x8000_0000
    ensures Stack(live[b := snap], frames + [InWrap(b)], abs + [P.InWrap(snap)])
  {
    forall i | 0 <= i < |frames|
      ensures Holds(live[b := snap], frames[i], abs[i]) && frames[i] != InWrap(b)
    {
      assert Holds(live, frames[i], abs[i]);
    }
  }

  lemma Popped(live: map<Ptr, Snapshot>, frames: seq<Frame>, abs: seq<P.Frame>)
    requires Stack(live, frames, abs) && frames != []
    ensures var f := frames[|frames| - 1];
            && Holds(live, f, abs[|abs| - 1])
            && Stack(if f.InWrap? then live - {f.block} else live, frames[..|frames| - 1], P.Pop(abs))
  {
    var f := frames[|frames| - 1];
    forall i | 0 <= i < |frames| - 1
      ensures Holds(if f.InWrap? then live - {f.block} else live, frames[i], abs[i])
    {
      assert Holds(live, frames[i], abs[i]);
    }
  }

  // ---- What kmalloc answers ----

  /** kmalloc would answer `wish`, but hands out no block that is still live. */
  function Grant(live: set<Ptr>, wish: Ptr): Ptr {
    if wish in live then 0 else wish
  }

  /** The first of the wishes it is asked for, or NULL. */
  function GrantFirst(live: set<Ptr>, wishes: seq<Ptr>): Ptr {
    if |wishes| == 0 then 0 else Grant(live, wishes[0])
  }

  /** The answers to allocations one after another, up to the first NULL. */
  function GrantAll(live: set<Ptr>, wishes: seq<Ptr>): (blocks: seq<Ptr>)
    ensures |blocks| <= |wishes|
  {
    if |wishes| == 0 then []
    else
      var blocks := GrantAll(live, wishes[..|wishes| - 1]);
      var block := Grant(live, wishes[|wishes| - 1]);
      if |blocks| < |wishes| - 1 || block == 0 || block in blocks then blocks else blocks + [block]
  }

  lemma {:induction false} GrantAllStops(live: set<Ptr>, wishes: seq<Ptr>, k: nat)
    requires k <= |wishes| && |GrantAll(live, wishes[..k])| < k
    ensures GrantAll(live, wishes) == GrantAll(live, wishes[..k])
    decreases |wishes|
  {
    if k == |wishes| {
      assert wishes[..k] == wishes;
    } else {
      assert wishes[..|wishes| - 1][..k] == wishes[..k];
      GrantAllStops(live, wishes[..|wishes| - 1], k);
    }
  }

  /** The event with what the allocations in it came to. */
  function Answered(e: P.Event, live: set<Ptr>, wishes: seq<Ptr>): P.Event {
    var hasMemory := GrantFirst(live, wishes) != 0;
    match e
    case EnterSyscall(task, nr, regs, _, junk) => P.EnterSyscall(task, nr, regs, hasMemory, junk)
    case EnterPut(task, to, ax, width, _) => P.EnterPut(task, to, ax, width, hasMemory)
    case EnterCopy(task, from, to, _, bytes) => P.EnterCopy(task, from, to, hasMemory, bytes)
    case EnterWrap(task, mem, region, _) => P.EnterWrap(task, mem, region, hasMemory)
    case LeaveWrap(mem, newMem, _) => P.LeaveWrap(mem, newMem, |GrantAll(live, wishes)|)
    case _ => e
  }

  /** How many blocks the event says it is given. */
  function Needs(e: P.Event): nat {
    match e
    case EnterSyscall(_, _, _, hasMemory, _) => if hasMemory then 1 else 0
    case EnterPut(_, _, _, _, hasMemory) => if hasMemory then 1 else 0
    case EnterCopy(_, _, _, hasMemory, _) => if hasMemory then 1 else 0
    case EnterWrap(_, _, _, hasMemory) => if hasMemory then 1 else 0
    case LeaveWrap(_, _, room) => room
    case _ => 0
  }

  lemma {:induction false} GrantsFresh(live: set<Ptr>, wishes: seq<Ptr>)
    requires NoDup(wishes) && 0 !in wishes && forall w | w in wishes :: w !in live
    ensures GrantAll(live, wishes) == wishes
  {
    if |wishes| > 0 {
      var earlier := wishes[..|wishes| - 1];
      assert forall w | w in earlier :: w in wishes;
      GrantsFresh(live, earlier);
      assert wishes[|wishes| - 1] in wishes;
    }
  }

  /** Given as many fresh addresses as it says, the event happens just as it says. */
  lemma AnsweredAsSaid(e: P.Event, live: set<Ptr>, wishes: seq<Ptr>)
    requires |wishes| == Needs(e) && NoDup(wishes) && 0 !in wishes && forall w | w in wishes :: w !in live
    ensures Answered(e, live, wishes) == e
  {
    GrantsFresh(live, wishes);
    if |wishes| > 0 {
      assert wishes[0] in wishes;
    }
  }

  lemma RunOne(events: seq<P.Event>, e: P.Event)
    ensures var s := P.Run(events);
            P.Run(events + [e]) == if P.Enabled(s, e) then P.Step(s, e) else s
    ensures P.ShortStops(events + [e]) == P.ShortStops(events) + if P.StopsShort(P.Run(events), e) then 1 else 0
  {
    hide P.Inv, P.Enabled, P.Step, P.StopsShort;
    assert (events + [e])[..|events|] == events;
  }

  /** What a hook can be called with: a put of a word size, a copy and a region of a length their types hold. */
  predicate Possible(e: P.Event) {
    match e
    case EnterPut(_, _, _, width, _) => width == 1 || width == 2 || width == 4 || width == 8
    case EnterCopy(_, _, _, _, bytes) => IsWord(|bytes|)
    case EnterWrap(_, _, region, _) => region.Len() < 0x8000_0000
    case _ => true
  }

  class Kernel {
    const recorder: R.Recorder
    var frames: seq<Frame>
    /** Everything reads returned. */
    var output: seq<Byte>
    /** The pipeline events so far. */
    ghost var trace: seq<P.Event>

    ghost predicate Valid()
      reads this, recorder, recorder.snapshots
    {
      && recorder.Valid()
      && recorder.View() == P.Run(trace).rec
      && output == P.Run(trace).output
      && Stack(recorder.snapshots.live, frames, P.Run(trace).frames)
      && |recorder.leaked| == P.ShortStops(trace)
      && 0 !in recorder.snapshots.live
    }

    /** Every live heap block of the module. */
    ghost function Blocks(): set<Ptr>
      reads this, recorder, recorder.snapshots
    {
      recorder.Blocks() + recorder.snapshots.live.Keys
    }

    constructor ()
      ensures Valid() && trace == [] && Blocks() == {} && fresh(recorder) && fresh(recorder.snapshots)
    {
      recorder := new R.Recorder();
      frames, output, trace := [], [], [];
    }

    method LiveBlocks() returns (live: set<Ptr>)
      ensures live == Blocks()
    {
      live := recorder.records.Keys + recorder.copies.Keys + recorder.snapshots.live.Keys;
    }

    method Kmalloc(wish: Ptr) returns (block: Ptr)
      requires Valid()
      ensures block == Grant(Blocks(), wish) && recorder.Answer(block)
    {
      var live := wish in recorder.records || wish in recorder.copies || wish in recorder.snapshots.live;
      block := if live then 0 else wish;
    }

    method EnterSyscall(task: int, nr: int, regs: WordRegisters, junk: U64, wish: Ptr)
      requires Valid()
      modifies this, recorder
      ensures Valid() && Blocks() <= old(Blocks()) + {wish, 0}
      ensures trace == old(trace) + [P.EnterSyscall(task, nr, regs, Grant(old(Blocks()), wish) != 0, junk)]
    {
      hide P.Run, P.ShortStops, P.Inv, Stack, R.Recorder.Valid, R.Recorder.View, R.Recorder.Blocks;
      var block := Kmalloc(wish);
      var hook := recorder.PreSyscall(task, nr, regs, block, junk);
      ghost var s, e := P.Run(trace), P.EnterSyscall(task, nr, regs, block != 0, junk);
      if hook == R.RUN_POST {
        Pushed(recorder.snapshots.live, frames, s.frames, InSyscall, P.InSyscall);
        frames := frames + [InSyscall];
      }
      RunOne(trace, e);
      trace := trace + [e];
    }

    method LeaveSyscall(ax: U64)
      requires Valid()
      modifies this, recorder
      ensures Valid() && Blocks() <= old(Blocks())
      ensures trace == old(trace) + [P.LeaveSyscall(ax)]
    {
      hide P.Run, P.ShortStops, P.Inv, Stack, R.Recorder.Valid, R.Recorder.View, R.Recorder.Blocks;
      ghost var s, e := P.Run(trace), P.LeaveSyscall(ax);
      TopFrame();
      if frames != [] && frames[|frames| - 1] == InSyscall {
        Popped(recorder.snapshots.live, frames, s.frames);
        recorder.PostSyscall(ax);
        frames := frames[..|frames| - 1];
      }
      RunOne(trace, e);
      trace := trace + [e];
    }

    method EnterPut(task: int, to: U64, ax: U64, width: nat, wish: Ptr)
      requires Valid() && (width == 1 || width == 2 || width == 4 || width == 8)
      modifies this, recorder
      ensures Valid() && Blocks() <= old(Blocks()) + {wish, 0}
      ensures trace == old(trace) + [P.EnterPut(task, to, ax, width, Grant(old(Blocks()), wish) != 0)]
    {
      hide P.Run, P.ShortStops, P.Inv, Stack, R.Recorder.Valid, R.Recorder.View, R.Recorder.Blocks;
      var block := Kmalloc(wish);
      var hook := recorder.PrePut(task, to, ax, width, block);
      ghost var s, e := P.Run(trace), P.EnterPut(task, to, ax, width, block != 0);
      if hook == R.RUN_POST {
        Pushed(recorder.snapshots.live, frames, s.frames, InPut, P.InPut);
        frames := frames + [InPut];
      }
      RunOne(trace, e);
      trace := trace + [e];
    }

    method LeavePut(ret: U64)
      requires Valid()
      modifies this, recorder
      ensures Valid() && Blocks() <= old(Blocks())
      ensures trace == old(trace) + [P.LeavePut(ret)]
    {
      hide P.Run, P.ShortStops, P.Inv, Stack, R.Recorder.Valid, R.Recorder.View, R.Recorder.Blocks;
      ghost var s, e := P.Run(trace), P.LeavePut(ret);
      TopFrame();
      if frames != [] && frames[|frames| - 1] == InPut {
        Popped(recorder.snapshots.live, frames, s.frames);
        recorder.PostPut(ret);
        frames := frames[..|frames| - 1];
      }
      RunOne(trace, e);
      trace := trace + [e];
    }

    method EnterCopy(task: int, from: U64, to: U64, junk: seq<Byte>, wish: Ptr)
      requires Valid() && IsWord(|junk|)
      modifies this, recorder
      ensures Valid() && Blocks() <= old(Blocks()) + {wish, 0}
      ensures trace == old(trace) + [P.EnterCopy(task, from, to, Grant(old(Blocks()), wish) != 0, junk)]
    {
      hide P.Run, P.ShortStops, P.Inv, Stack, R.Recorder.Valid, R.Recorder.View, R.Recorder.Blocks;
      var block := Kmalloc(wish);
      var hook := recorder.PreCopy(task, from, to, |junk|, block, junk);
      ghost var s, e := P.Run(trace), P.EnterCopy(task, from, to, block != 0, junk);
      if hook == R.RUN_POST {
        Pushed(recorder.snapshots.live, frames, s.frames, InCopy, P.InCopy);
        frames := frames + [InCopy];
      }
      RunOne(trace, e);
      trace := trace + [e];
    }

    /** `source` are the bytes at the kernel address, as many as the copy is long. */
    method LeaveCopy(ret: U64, source: seq<Byte>)
      requires Valid()
      modifies this, recorder
      ensures Valid() && Blocks() <= old(Blocks())
      ensures trace == old(trace) + [P.LeaveCopy(ret, source)]
    {
      hide P.Run, P.ShortStops, P.Inv, Stack, R.Recorder.Valid, R.Recorder.View, R.Recorder.Blocks;
      ghost var s, e := P.Run(trace), P.LeaveCopy(ret, source);
      TopFrame();
      if frames != [] && frames[|frames| - 1] == InCopy && |source| == |recorder.copies[recorder.currentCopy].bytes| {
        Popped(recorder.snapshots.live, frames, s.frames);
        recorder.PostCopy(ret, source);
        frames := frames[..|frames| - 1];
      }
      RunOne(trace, e);
      trace := trace + [e];
    }

    method EnterWrap(task: int, mem: Mem, region: Region, wish: Ptr)
      requires Valid() && region.Len() < 0x8000_0000
      modifies this, recorder.snapshots
      ensures Valid() && Blocks() <= old(Blocks()) + {wish, 0}
      ensures trace == old(trace) + [P.EnterWrap(task, mem, region, Grant(old(Blocks()), wish) != 0)]
    {
      hide P.Run, P.ShortStops, P.Inv, Stack, R.Recorder.Valid, R.Recorder.View, R.Recorder.Blocks;
      var block := Kmalloc(wish);
      ghost var s, e := P.Run(trace), P.EnterWrap(task, mem, region, block != 0);
      ghost var live := recorder.snapshots.live;
      var hook := recorder.PreWrap(task, mem, region, block);
      if hook == R.RUN_POST {
        WrapPushed(live, frames, s.frames, block,
            PreWrap(s.rec, task, mem, region.Base(), region.Len(), block != 0).value);
        frames := frames + [InWrap(block)];
      }
      RunOne(trace, e);
      trace := trace + [e];
    }

    /** The allocations of the diff loop, asked for ahead: their answers up to the first NULL. */
    method Answers(wishes: seq<Ptr>) returns (blocks: seq<Ptr>)
      requires Valid()
      ensures blocks == GrantAll(Blocks(), wishes)
      ensures NoDup(blocks) && Elements(blocks) <= Elements(wishes)
      ensures forall b | b in blocks :: b != 0 && recorder.Answer(b)
    {
      blocks := [];
      var i, failed := 0, false;
      hide Valid, Blocks;
      while i < |wishes| && !failed
        invariant i <= |wishes| && blocks == GrantAll(Blocks(), wishes[..i]) && (failed <==> |blocks| < i)
        invariant NoDup(blocks) && Elements(blocks) <= Elements(wishes)
        invariant forall b | b in blocks :: b != 0 && recorder.Answer(b)
      {
        var block := Kmalloc(wishes[i]);
        assert wishes[..i + 1][..i] == wishes[..i];
        failed := block == 0 || block in blocks;
        if !failed {
          blocks := blocks + [block];
        }
        i := i + 1;
      }
      if failed {
        GrantAllStops(Blocks(), wishes, i);
      } else {
        assert wishes[..i] == wishes;
      }
    }

    method LeaveWrap(mem: Mem, hasMemory: bool, wishes: seq<Ptr>)
      requires Valid()
      modifies this, recorder, recorder.snapshots
      ensures Valid() && Blocks() <= old(Blocks()) + Elements(wishes)
      ensures trace == old(trace) + [P.LeaveWrap(mem, hasMemory, |GrantAll(old(Blocks()), wishes)|)]
    {
      hide P.Run, P.ShortStops, P.Inv, Stack, R.Recorder.Valid, R.Recorder.View, R.Recorder.Blocks;
      var blocks := Answers(wishes);
      ghost var s, e := P.Run(trace), P.LeaveWrap(mem, hasMemory, |blocks|);
      TopFrame();
      if frames != [] && frames[|frames| - 1].InWrap? {
        Popped(recorder.snapshots.live, frames, s.frames);
        recorder.PostWrap(frames[|frames| - 1].block, mem, hasMemory, blocks);
        frames := frames[..|frames| - 1];
      }
      RunOne(trace, e);
      trace := trace + [e];
    }

    method SetPid(pid: int)
      requires Valid()
      modifies this, recorder
      ensures Valid() && Blocks() <= old(Blocks())
      ensures trace == old(trace) + [P.SetPid(pid)]
    {
      hide P.Run, P.ShortStops, P.Inv, Stack, R.Recorder.Valid, R.Recorder.View, R.Recorder.Blocks;
      ghost var e := P.SetPid(pid);
      TopFrame();
      if pid == 0 || frames == [] {
        recorder.SetRecordedPid(pid);
      }
      RunOne(trace, e);
      trace := trace + [e];
    }

    /** A read of the dump file once it has something to return. */
    method Read(buffer: seq<Byte>, writable: nat)
      requires Valid()
      modifies this, recorder
      ensures Valid() && Blocks() <= old(Blocks())
      ensures trace == old(trace) + [P.Read(buffer, writable)]
    {
      hide P.Run, P.ShortStops, P.Inv, Stack, R.Recorder.Valid, R.Recorder.View, R.Recorder.Blocks, D.DumpFrom;
      ghost var s, e := P.Run(trace), P.Read(buffer, writable);
      recorder.EmptyFifo();
      if !recorder.KfifoIsEmpty() {
        var buf := new Byte[|buffer|](i requires 0 <= i < |buffer| => buffer[i]);
        assert buf[..] == buffer;
        var ret := recorder.DumpRecords(buf, writable);
        if ret >= 0 {
          output := output + buf[..ret];
        }
      }
      RunOne(trace, e);
      trace := trace + [e];
    }

    /** One event, with what kmalloc would answer in it. */
    method Handle(e: P.Event, wishes: seq<Ptr>)
      requires Valid() && Possible(e)
      modifies this, recorder, recorder.snapshots
      ensures Valid() && Blocks() <= old(Blocks()) + Elements(wishes) + {0}
      ensures trace == old(trace) + [Answered(e, old(Blocks()), wishes)]
    {
      hide Valid, Blocks, P.Run, P.Inv, P.Step;
      var wish := if |wishes| > 0 then wishes[0] else 0;
      match e
      case EnterSyscall(task, nr, regs, _, junk) => EnterSyscall(task, nr, regs, junk, wish);
      case LeaveSyscall(ax) => LeaveSyscall(ax);
      case EnterPut(task, to, ax, width, _) => EnterPut(task, to, ax, width, wish);
      case LeavePut(ret) => LeavePut(ret);
      case EnterCopy(task, from, to, _, bytes) => EnterCopy(task, from, to, bytes, wish);
      case LeaveCopy(ret, bytes) => LeaveCopy(ret, bytes);
      case EnterWrap(task, mem, region, _) => EnterWrap(task, mem, region, wish);
      case LeaveWrap(mem, hasMemory, _) => LeaveWrap(mem, hasMemory, wishes);
      case SetPid(pid) => SetPid(pid);
      case Read(buffer, writable) => Read(buffer, writable);
    }

    /** What the reads of any run returned loads as completed calls, in order, each at most once. */
    lemma OutputLoads()
      requires Valid() && P.AllFit(P.Run(trace).completed)
      ensures var s := P.Run(trace);
              && P.Positions(s.emitted, |s.completed|) && P.InRange(s.emitted, |s.completed|)
              && LoaderSpec.ParseAll(output) == LoaderSpec.Got(LoadedAll(P.Pick(s.completed, s.emitted)), [], false)
    {
      var s := P.Run(trace);
      hide P.Run, LoaderSpec.ParseAll, P.AllFit, Stack, R.Recorder.Valid, R.Recorder.View;
      P.ReadsGiveSubsequence(trace);
      assert forall i | 0 <= i < |s.emitted| :: (s.emitted + s.queued)[i] == s.emitted[i];
    }

    /** The innermost frame, and the globals its post hook relies on. */
    lemma TopFrame()
      requires Valid()
      ensures var s := P.Run(trace);
              && |frames| == |s.frames|
              && (frames != [] ==>
                    && recorder.currentRecord != 0
                    && Holds(recorder.snapshots.live, frames[|frames| - 1], s.frames[|s.frames| - 1])
                    && (frames[|frames| - 1].InSyscall? ==> recorder.currentCopy == 0)
                    && (P.IsCopyFrame(s.frames[|s.frames| - 1]) ==>
                          recorder.currentCopy in recorder.copies && recorder.currentCopy != 0
                          && s.rec.pending == Some(recorder.copies[recorder.currentCopy])))
    {
      hide R.Recorder.Valid, R.Recorder.View, P.Inv, P.Run;
      GlobalsShow(recorder);
      InnermostFrame(P.Run(trace));
    }
  }

  lemma GlobalsShow(r: R.Recorder)
    requires r.Valid()
    ensures r.View().current.Some? <==> r.currentRecord != 0
    ensures r.View().pending.Some? <==> r.currentCopy != 0
    ensures r.currentCopy != 0 ==> r.currentCopy in r.copies && r.View().pending == Some(r.copies[r.currentCopy])
  {
    r.Now().RootsAreLive();
    KeysAgree(r.records, r.copies, r.owner);
    hide HeapOk, RecordOf, QueueOf, Live;
  }

  lemma InnermostFrame(s: P.System)
    requires P.Inv(s)
    ensures s.frames != [] ==>
              var f := s.frames[|s.frames| - 1];
              && s.rec.current.Some?
              && (f.InSyscall? ==> s.rec.pending.None?)
              && (P.IsCopyFrame(f) ==> s.rec.pending.Some?)
  {
    P.InFrame(s);
    if s.frames != [] && s.frames[|s.frames| - 1].InSyscall? {
      assert P.Pop(s.frames) == [];
      assert P.CopyFrames(s.frames) == 0;
    }
  }

  /**
    What kmalloc does in a run: at the i-th event, with these blocks live, the
    addresses it grants.
   */
  type Allocator = (nat, set<Ptr>) -> seq<Ptr>

  /** How many blocks the first n events say they are given. */
  function NeedsBefore(events: seq<P.Event>, n: nat): nat
    requires n <= |events|
  {
    if n == 0 then 0 else NeedsBefore(events, n - 1) + Needs(events[n - 1])
  }

  /** n addresses of blocks that are not live. An address may have been granted and freed before. */
  ghost predicate AreFresh(blocks: seq<Ptr>, live: set<Ptr>, n: nat) {
    |blocks| == n && NoDup(blocks) && 0 !in blocks && forall b | b in blocks :: b !in live
  }

  /** At each event it grants as many blocks as the event says, when no more than all given so far are live. */
  ghost predicate Supplies(alloc: Allocator, events: seq<P.Event>) {
    forall i: nat, live: set<Ptr> | i < |events| && |live| <= NeedsBefore(events, i) ::
      AreFresh(alloc(i, live), live, Needs(events[i]))
  }

  lemma NullIsNoBlock(kernel: Kernel)
    requires kernel.Valid()
    ensures 0 !in kernel.Blocks()
  {
    hide P.Run, Stack, P.ShortStops;
    KeysAgree(kernel.recorder.records, kernel.recorder.copies, kernel.recorder.owner);
  }

  lemma {:induction false} AtMostAsMany(live: set<Ptr>, blocks: seq<Ptr>)
    ensures |live + Elements(blocks)| <= |live| + |blocks|
  {
    if |blocks| == 0 {
      assert live + Elements(blocks) == live;
    } else {
      var earlier, b := blocks[..|blocks| - 1], blocks[|blocks| - 1];
      AtMostAsMany(live, earlier);
      assert live + Elements(blocks) == (live + Elements(earlier)) + {b};
    }
  }

  /** One event more, given what it says it is given. */
  lemma SuppliedOne(alloc: Allocator, events: seq<P.Event>, i: nat, live: set<Ptr>, live': set<Ptr>)
    requires Supplies(alloc, events) && i < |events| && |live| <= NeedsBefore(events, i)
    requires live' <= live + Elements(alloc(i, live)) + {0} && 0 !in live'
    ensures Answered(events[i], live, alloc(i, live)) == events[i]
    ensures |live'| <= NeedsBefore(events, i + 1)
  {
    hide Answered, Needs, Elements;
    var blocks := alloc(i, live);
    assert AreFresh(blocks, live, Needs(events[i]));
    AnsweredAsSaid(events[i], live, blocks);
    AtMostAsMany(live, blocks);
    NotMore(live', live + Elements(blocks));
  }

  lemma NotMore(a: set<Ptr>, b: set<Ptr>)
    requires a <= b + {0} && 0 !in a
    ensures |a| <= |b|
  {
    assert a <= b;
    assert b == a + (b - a);
  }

  /**
    The module is loaded and the events happen, with kmalloc granting each of
    them what the event says. Then those very events have taken place in the
    pipeline: the module stands where it stands and has returned what it has.
   */
  method Serve(events: seq<P.Event>, alloc: Allocator) returns (kernel: Kernel)
    requires Supplies(alloc, events) && forall e | e in events :: Possible(e)
    ensures fresh(kernel) && fresh(kernel.recorder) && fresh(kernel.recorder.snapshots) && kernel.Valid()
    ensures kernel.trace == events
  {
    hide *;
    kernel := new Kernel();
    NothingNeeded(events);
    for i := 0 to |events|
      invariant fresh(kernel) && fresh(kernel.recorder) && fresh(kernel.recorder.snapshots) && kernel.Valid()
      invariant kernel.trace == events[..i] && |kernel.Blocks()| <= NeedsBefore(events, i)
    {
      ghost var live := kernel.Blocks();
      var blocks := kernel.LiveBlocks();
      assert events[i] in events;
      kernel.Handle(events[i], alloc(i, blocks));
      NullIsNoBlock(kernel);
      SuppliedOne(alloc, events, i, live, kernel.Blocks());
      assert events[..i + 1] == events[..i] + [events[i]];
    }
    assert events[..|events|] == events;
  }

  lemma NothingNeeded(events: seq<P.Event>)
    ensures NeedsBefore(events, 0) == 0
  {
  }
}
