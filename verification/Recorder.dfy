/**
  The kernel module: its globals, its heap blocks and its byte FIFO of record
  pointers, changed in place by the hooks and by reads. Every method is proved
  against the function of the abstract state that says what it records.
 */
module Recorder {
  import opened Bytes
  import opened Memory
  import opened Format
  import opened Wrappers
  import opened SnapshotDiff
  import opened RecorderSpec
  import opened DumperSpec
  import opened KernelHeap
  import opened KernelState

  /** Return value of a pre hook: 0 asks for the post hook. */
  const RUN_POST: int := 0
  const SKIP_POST: int := 1

  /** The struct syscall_recorded_mem blocks the wrapper probes hold. */
  class SnapshotHeap {
    var live: map<Ptr, Snapshot>

    constructor ()
      ensures live == map[]
    {
      live := map[];
    }
  }

  class Recorder {
    const snapshots: SnapshotHeap
    var recordedPid: int
    var currentRecord: Ptr
    var currentCopy: Ptr
    var fifo: seq<Byte>
    var records: Records
    var copies: Copies
    /** Which record's list a live copy is in; 0 for none. */
    ghost var owner: Owners
    /** The records whose pointers are in the FIFO, in order. */
    ghost var queued: seq<Ptr>
    /** Records a short write dequeued: still allocated, no longer reachable. */
    ghost var leaked: set<Ptr>

    ghost function Now(): Globals
      reads this
    {
      Globals(currentRecord, currentCopy, fifo, records, copies, owner, queued, leaked)
    }

    /** Every live block but the snapshots'. */
    ghost function Blocks(): set<Ptr>
      reads this
    {
      records.Keys + copies.Keys
    }

    ghost predicate Valid()
      reads this
    {
      Now().Valid()
    }

    /** The abstract state the memory stands for. */
    ghost function View(): State
      requires Valid()
      reads this
    {
      Now().View(recordedPid)
    }

    /** An address kmalloc may answer: NULL, or one of no live block. */
    ghost predicate Answer(block: Ptr)
      reads this, snapshots
    {
      block == 0 || (block !in records && block !in copies && block !in snapshots.live)
    }

    constructor ()
      ensures Valid() && View() == IDLE && fresh(snapshots) && snapshots.live == map[]
      ensures Blocks() == {} && leaked == {}
    {
      snapshots := new SnapshotHeap();
      recordedPid, currentRecord, currentCopy := 0, 0, 0;
      fifo, records, copies := [], map[], map[];
      owner, queued, leaked := map[], [], {};
    }

    // ---- The FIFO ----

    /** kfifo_in: as many bytes as there is room for. */
    method KfifoIn(data: seq<Byte>) returns (n: nat)
      requires |fifo| <= FIFO_SIZE
      modifies this`fifo
      ensures n == if |data| <= FIFO_SIZE - |old(fifo)| then |data| else FIFO_SIZE - |old(fifo)|
      ensures fifo == old(fifo) + data[..n]
    {
      n := if |data| <= FIFO_SIZE - |fifo| then |data| else FIFO_SIZE - |fifo|;
      fifo := fifo + data[..n];
    }

    /** kfifo_out: as many bytes as there are. */
    method KfifoOut(size: nat) returns (data: seq<Byte>)
      modifies this`fifo
      ensures |data| == if size <= |old(fifo)| then size else |old(fifo)|
      ensures old(fifo) == data + fifo
    {
      var n := if size <= |fifo| then size else |fifo|;
      data := fifo[..n];
      fifo := fifo[n..];
    }

    predicate KfifoIsEmpty()
      reads this
    {
      |fifo| == 0
    }

    lemma HasCurrent()
      requires Valid()
      ensures currentRecord != 0 <==> View().current.Some?
    {
    }

    lemma EmptyFifo()
      requires Valid()
      ensures KfifoIsEmpty() <==> |View().queue| == 0
    {
    }

    // ---- Freeing ----

    method FreeCopyRecord(c: Ptr)
      requires c in copies
      modifies this`copies, this`owner
      ensures copies == old(copies) - {c} && owner == old(owner) - {c}
    {
      copies := copies - {c};
      owner := owner - {c};
    }

    /** Frees each element of the list, which must be live and listed once, and then the record. */
    method FreeSyscallRecord(r: Ptr)
      requires r in records && NoDup(records[r].list) && forall c | c in records[r].list :: c in copies
      modifies this`records, this`copies, this`owner
      ensures records == old(records) - {r}
      ensures copies == old(copies) - Elements(old(records)[r].list)
      ensures owner == old(owner) - Elements(old(records)[r].list)
    {
      var list := records[r].list;
      for i := 0 to |list|
        invariant records == old(records)
        invariant copies == old(copies) - Elements(list[..i])
        invariant owner == old(owner) - Elements(list[..i])
      {
        assert list[i] in list;
        FreeCopyRecord(list[i]);
        assert list[..i + 1] == list[..i] + [list[i]];
        assert Elements(list[..i + 1]) == Elements(list[..i]) + {list[i]};
      }
      assert list[..|list|] == list;
      records := records - {r};
    }

    // ---- Hooks ----

    /** The address kmalloc answers is `block`; a fresh record's return value is `junk`. */
    method PreSyscall(task: int, nr: int, regs: WordRegisters, block: Ptr, junk: U64) returns (hook: int)
      requires Valid() && Answer(block)
      modifies this
      ensures Valid()
      ensures (View(), hook == RUN_POST) == RecorderSpec.PreSyscall(old(View()), task, nr, regs, block != 0, junk)
      ensures Blocks() <= old(Blocks()) + {block} && leaked == old(leaked)
    {
      if nr == EXECVE || nr == EXIT || nr == EXIT_GROUP { return SKIP_POST; }
      if task != recordedPid || recordedPid == 0 { return SKIP_POST; }
      if currentRecord != 0 { return SKIP_POST; }
      if block == 0 { return SKIP_POST; }
      StartRecord(Now(), recordedPid, block, regs, junk);
      currentRecord := block;
      records := records[block := RecordStruct(regs, junk, 0, [])];
      return RUN_POST;
    }

    /** The hook of the outermost frame, so no copy is pending. */
    method PostSyscall(ax: U64)
      requires Valid() && currentCopy == 0
      modifies this
      ensures Valid() && View() == RecorderSpec.PostSyscall(old(View()), ax)
      ensures Blocks() <= old(Blocks()) && leaked == old(leaked)
    {
      hide Valid, View;
      HasCurrent();
      if currentRecord == 0 { return; }
      SetReturnValue(ax);
      // mutex_lock
      var queuedIt := InsertCurrent();
      if !queuedIt {
        FreeCurrent();
      }
      // mutex_unlock
    }

    method SetReturnValue(ax: U64)
      requires Valid() && currentRecord != 0
      modifies this`records
      ensures Valid() && View() == old(View()).(current := Some(old(View()).current.value.(ret := ax)))
      ensures records.Keys == old(records).Keys
    {
      hide Globals.Valid, Globals.View, HeapOk, RootsOk, PendingOk, FifoOk, RecordOf, Live, QueueOf, Elements;
      ReturnStored(Now(), recordedPid, ax);
      records := records[currentRecord := records[currentRecord].(ret := ax)];
    }

    /**
      Pushes the current pointer into the FIFO. Since only whole pointers are
      ever in it, either all eight bytes go in or none do.
     */
    method InsertCurrent() returns (inserted: bool)
      requires Valid() && currentRecord != 0 && currentCopy == 0
      modifies this
      ensures Valid() && currentCopy == 0 && inserted == (|old(View()).queue| < QUEUE_CAPACITY)
      ensures if inserted
              then View() == old(View()).(current := None, queue := old(View()).queue + [old(View()).current.value])
              else View() == old(View()) && currentRecord == old(currentRecord)
      ensures Blocks() <= old(Blocks()) && leaked == old(leaked)
    {
      if |queued| < QUEUE_CAPACITY {
        Enqueued(Now(), recordedPid);
      }
      var n := KfifoIn(EncodeWord(currentRecord));
      inserted := n == 8;
      assert EncodeWord(currentRecord)[..8] == EncodeWord(currentRecord);
      if inserted {
        queued := queued + [currentRecord];
        currentRecord := 0;
      }
    }

    method FreeCurrent()
      requires Valid() && currentRecord != 0 && currentCopy == 0
      modifies this
      ensures Valid() && View() == old(View()).(current := None)
      ensures Blocks() <= old(Blocks()) && leaked == old(leaked)
    {
      CurrentFreed(Now(), recordedPid);
      FreeSyscallRecord(currentRecord);
      currentRecord := 0;
    }

    /** pre_put for the probe whose data_size is `width`. */
    method PrePut(task: int, to: U64, ax: U64, width: nat, block: Ptr) returns (hook: int)
      requires Valid() && Answer(block)
      requires width == 1 || width == 2 || width == 4 || width == 8
      modifies this
      ensures Valid()
      ensures (View(), hook == RUN_POST) == RecorderSpec.PrePut(old(View()), task, to, ax, width, block != 0)
      ensures Blocks() <= old(Blocks()) + {block} && leaked == old(leaked)
    {
      if task != recordedPid || recordedPid == 0 { return SKIP_POST; }
      if currentRecord == 0 { return SKIP_POST; }
      if currentCopy != 0 { return SKIP_POST; }
      if block == 0 { return SKIP_POST; }
      StartCopy(block, Copy(0, to, LE(ax, width)));
      return RUN_POST;
    }

    /** The fresh block becomes current_copy, filled with the given value. */
    method StartCopy(block: Ptr, value: Copy)
      requires Valid() && block != 0 && Answer(block) && currentRecord != 0 && currentCopy == 0
      modifies this
      ensures Valid() && View() == old(View()).(pending := Some(value))
      ensures Blocks() <= old(Blocks()) + {block} && leaked == old(leaked)
    {
      hide Globals.Valid, Globals.View, HeapOk, RootsOk, PendingOk, FifoOk, RecordOf, Live, QueueOf, Elements;
      PendingSet(Now(), recordedPid, block, value);
      currentCopy := block;
      copies := copies[block := value];
      owner := owner[block := 0];
    }

    /** list_add_tail of current_copy to the current record, and the counter. */
    method KeepCopy()
      requires Valid() && currentRecord != 0 && currentCopy != 0
      modifies this
      ensures Valid() && currentRecord == old(currentRecord) && currentCopy == 0
      ensures View() == AddCopies(old(View()), [old(View()).pending.value]).(pending := None)
      ensures Blocks() <= old(Blocks()) && leaked == old(leaked)
    {
      hide Globals.Valid, Globals.View, HeapOk, RootsOk, PendingOk, FifoOk, RecordOf, Live, QueueOf, Elements;
      PendingKept(Now(), recordedPid);
      records := records[currentRecord := Appended(records[currentRecord], currentCopy)];
      owner := owner[currentCopy := currentRecord];
      currentCopy := 0;
    }

    /** kfree of current_copy. */
    method ForgetCopy()
      requires Valid() && currentCopy != 0
      modifies this
      ensures Valid() && View() == old(View()).(pending := None)
      ensures Blocks() <= old(Blocks()) && leaked == old(leaked)
    {
      hide Globals.Valid, Globals.View, HeapOk, RootsOk, PendingOk, FifoOk, RecordOf, Live, QueueOf, Elements;
      PendingFreed(Now(), recordedPid);
      FreeCopyRecord(currentCopy);
      currentCopy := 0;
    }

    method PostPut(ret: U64)
      requires Valid() && currentRecord != 0 && currentCopy != 0
      modifies this
      ensures Valid() && View() == RecorderSpec.PostPut(old(View()), ret)
      ensures Blocks() <= old(Blocks()) && leaked == old(leaked)
    {
      if ret != 0 {
        ForgetCopy();
      } else {
        KeepCopy();
      }
    }

    /** The block kmalloc answers holds `junk` after its header until post_copy fills it. */
    method PreCopy(task: int, from: U64, to: U64, len: U64, block: Ptr, junk: seq<Byte>) returns (hook: int)
      requires Valid() && Answer(block) && |junk| == len
      modifies this
      ensures Valid()
      ensures (View(), hook == RUN_POST) == RecorderSpec.PreCopy(old(View()), task, from, to, block != 0, junk)
      ensures Blocks() <= old(Blocks()) + {block} && leaked == old(leaked)
    {
      if task != recordedPid || recordedPid == 0 { return SKIP_POST; }
      if currentRecord == 0 { return SKIP_POST; }
      if currentCopy != 0 { return SKIP_POST; }
      if block == 0 { return SKIP_POST; }
      StartCopy(block, Copy(from, to, junk));
      return RUN_POST;
    }

    /** `source` is what the kernel buffer at record.from holds now. */
    method PostCopy(ret: U64, source: seq<Byte>)
      requires Valid() && currentRecord != 0 && currentCopy != 0
      requires |source| == |copies[currentCopy].bytes|
      modifies this
      ensures Valid() && View() == RecorderSpec.PostCopy(old(View()), ret, source)
      ensures Blocks() <= old(Blocks()) && leaked == old(leaked)
    {
      if ret != 0 {
        ForgetCopy();
        return;
      }
      var filled := copies[currentCopy];
      if |filled.bytes| > 0 {
        filled := filled.(bytes := source);
      }
      assert filled.bytes == source;
      PendingSet(Now(), recordedPid, currentCopy, filled);
      assert owner == owner[currentCopy := 0];
      copies := copies[currentCopy := filled];
      KeepCopy();
    }

    // ---- Wrapped calls ----

    /**
      pre_wrap_syscall on user memory m. The snapshot's block is what the probe
      carries to the post hook; it is freed again when copy_from_user fails.
     */
    method PreWrap(task: int, m: Mem, region: Region, block: Ptr) returns (hook: int)
      requires Valid() && Answer(block)
      modifies snapshots
      ensures var snap := RecorderSpec.PreWrap(View(), task, m, region.Base(), region.Len(), block != 0);
              && (hook == RUN_POST <==> snap.Some?)
              && snapshots.live == if snap.Some? then old(snapshots.live)[block := snap.value] else old(snapshots.live)
    {
      if task != recordedPid || recordedPid == 0 { return SKIP_POST; }
      if currentRecord == 0 { return SKIP_POST; }
      var base, len := region.Base(), region.Len();
      if block == 0 { return SKIP_POST; }
      if !AllMapped(m, base, len) { return SKIP_POST; }
      snapshots.live := snapshots.live[block := Snapshot(base, Slice(m, base, len))];
      return RUN_POST;
    }

    /**
      post_wrap_syscall for the probe carrying `block`. The k-th one-byte
      allocation answers blocks[k], and NULL once they run out.
     */
    method PostWrap(block: Ptr, m: Mem, hasMemory: bool, blocks: seq<Ptr>)
      requires Valid() && currentRecord != 0 && block in snapshots.live
      requires NoDup(blocks) && forall b | b in blocks :: b != 0 && Answer(b)
      requires |snapshots.live[block].bytes| < 0x8000_0000
      modifies this, snapshots
      ensures Valid() && snapshots.live == old(snapshots.live) - {block}
      ensures View() == RecorderSpec.PostWrap(old(View()), old(snapshots.live[block]), m, hasMemory, |blocks|)
      ensures Blocks() <= old(Blocks()) + Elements(blocks) && leaked == old(leaked)
    {
      var recorded := snapshots.live[block];
      if hasMemory && AllMapped(m, recorded.base, |recorded.bytes|) {
        RecordDiff(recorded.base, recorded.bytes, Slice(m, recorded.base, |recorded.bytes|), blocks);
      }
      snapshots.live := snapshots.live - {block};
    }

    /** The loop of post_wrap_syscall over the two snapshots. */
    method RecordDiff(base: U64, before: seq<Byte>, after: seq<Byte>, blocks: seq<Ptr>)
      requires Valid() && currentRecord != 0 && |before| == |after|
      requires NoDup(blocks) && forall b | b in blocks :: b != 0 && Answer(b)
      modifies this
      ensures Valid()
      ensures View() == AddCopies(old(View()), Recorded(base, before, after, |blocks|))
      ensures Blocks() <= old(Blocks()) + Elements(blocks) && leaked == old(leaked)
    {
      hide Valid, View, HeapOk, NoDup, AddCopies, Diff, Differing, Reached, Recorded, RecordedUpTo;
      HasCurrent();
      ghost var s := View();
      AddNoCopies(s);
      RecordingStarts(base, before, after, |blocks|);
      var i, used: nat, outOfMemory := 0, 0, false;
      while i < |before| && !outOfMemory
        invariant i <= |before| && used <= |blocks|
        invariant Valid() && currentRecord != 0
        invariant forall k | used <= k < |blocks| :: Answer(blocks[k])
        invariant RecordedUpTo(before, after, |blocks|, i, used)
        invariant View() == AddCopies(s, Diff(base, before, after, i))
        invariant Blocks() <= old(Blocks()) + Elements(blocks) && leaked == old(leaked)
        invariant outOfMemory ==> Recorded(base, before, after, |blocks|) == Diff(base, before, after, i)
        decreases !outOfMemory, |before| - i
      {
        RecordingRound(base, before, after, |blocks|, i, used);
        if before[i] == after[i] {
          i := i + 1;
        } else if used == |blocks| {
          outOfMemory := true;
        } else {
          var value := Copy(0, ToU64(base + i), [after[i]]);
          AddOneMore(s, Diff(base, before, after, i), value);
          Distinct(blocks, used);
          AppendNew(blocks[used], value);
          i, used := i + 1, used + 1;
        }
      }
      if !outOfMemory {
        RecordingEnds(base, before, after, |blocks|, used);
      }
    }

    /** A fresh block goes straight to the end of the current record's list. */
    method AppendNew(block: Ptr, value: Copy)
      requires Valid() && currentRecord != 0 && block != 0 && Answer(block)
      modifies this
      ensures Valid() && currentRecord == old(currentRecord)
      ensures View() == AddCopies(old(View()), [value])
      ensures records.Keys == old(records).Keys && copies.Keys == old(copies).Keys + {block}
      ensures leaked == old(leaked)
    {
      hide Globals.Valid, Globals.View, HeapOk, RootsOk, PendingOk, FifoOk, RecordOf, Live, QueueOf, Elements;
      AppendNewBlock(Now(), recordedPid, block, value);
      copies := copies[block := value];
      records := records[currentRecord := Appended(records[currentRecord], block)];
      owner := owner[block := currentRecord];
    }

    /** What recorded_processes_loader stores. */
    method SetRecordedPid(pid: int)
      requires Valid()
      modifies this`recordedPid
      ensures Valid() && View() == old(View()).(pid := pid) && Blocks() == old(Blocks())
    {
      recordedPid := pid;
    }

    // ---- Reading the dump file ----

    /**
      copy_to_user into buf from `at` on: as many bytes as lie below `writable`.
      Returns how many did not get there.
     */
    method CopyToUser(buf: array<Byte>, at: nat, data: seq<Byte>, writable: nat) returns (missing: nat)
      requires at + |data| <= buf.Length
      modifies buf
      ensures missing == 0 <==> data == [] || at + |data| <= writable
      ensures missing == 0 ==> buf[..] == Overwrite(old(buf[..]), at, data)
    {
      var n := if at + |data| <= writable then |data| else if at < writable then writable - at else 0;
      forall i | 0 <= i < n {
        buf[at + i] := data[i];
      }
      missing := |data| - n;
    }

    /** get_record_len. */
    method GetRecordLen(r: Ptr) returns (size: nat)
      requires Live(records, copies, r)
      ensures size == RecordLen(RecordOf(records, copies, r))
    {
      size := 184;
      var list := records[r].list;
      ghost var cs := Contents(copies, list);
      for i := 0 to |list|
        invariant size == 184 + CopiesLen(cs[..i])
      {
        assert list[i] in list && cs[..i + 1] == cs[..i] + [cs[i]];
        CopiesAppend(cs[..i], cs[i]);
        size := size + 24 + |copies[list[i]].bytes|;
      }
      assert cs[..|list|] == cs;
    }

    /** dump_syscall_record; 0 or -1. */
    method DumpSyscallRecord(r: Ptr, buf: array<Byte>, at: nat, writable: nat) returns (ret: int)
      requires r in records && at + 184 <= buf.Length
      modifies buf
      ensures ret == if at + 184 <= writable then 0 else -1
      ensures ret == 0 ==> buf[..] == Overwrite(old(buf[..]), at,
          Header(records[r].regs, records[r].ret, records[r].amount))
    {
      var missing := CopyToUser(buf, at, Header(records[r].regs, records[r].ret, records[r].amount), writable);
      ret := if missing != 0 then -1 else 0;
    }

    /** dump_copy_records; 0 or -1. Each record_size is a 32-bit number. */
    method DumpCopyRecords(r: Ptr, buf: array<Byte>, at: nat, writable: nat) returns (ret: int)
      requires Live(records, copies, r) && at + CopiesLen(Contents(copies, records[r].list)) <= buf.Length
      requires at <= writable
      modifies buf
      ensures var bytes := EmitCopies(Contents(copies, records[r].list));
              && ret == (if at + |bytes| <= writable then 0 else -1)
              && (ret == 0 ==> buf[..] == Overwrite(old(buf[..]), at, bytes))
    {
      hide HeapOk, RecordOf, EmitCopies, CopiesLen, CopiesWritten, SerializeCopy, Overwrite;
      var list := records[r].list;
      var i, to: nat := 0, at;
      ghost var cs, was := Contents(copies, list), buf[..];
      CopiesStart(was, at, cs);
      ret := 0;
      while i < |list| && ret == 0
        invariant i <= |list| && (ret == 0 || ret == -1)
        invariant ret == 0 ==> to <= writable && CopiesWritten(was, buf[..], at, cs, i, to)
        invariant ret == -1 ==> at + |EmitCopies(cs)| > writable
        decreases ret, |list| - i
      {
        NextCopyWritten(was, buf[..], at, cs, i, to);
        assert list[i] in list;
        var copy := copies[list[i]];
        var recordSize := RecordSize(copy);
        var missing := CopyToUser(buf, to, Chunk(copy), writable);
        if missing != 0 {
          ret := -1;
        } else {
          to := to + recordSize;
          i := i + 1;
        }
      }
      if ret == 0 {
        CopiesEnd(was, buf[..], at, cs, to);
      }
    }

    /**
      dump_single_record on the part of buf from `at` on. Called with the lock
      held and a non-empty FIFO, so kfifo_out always delivers a whole pointer.
     */
    method DumpSingleRecord(buf: array<Byte>, at: nat, size: nat, writable: nat) returns (ret: int)
      requires Valid() && |View().queue| > 0
      requires at + size == buf.Length
      modifies this, buf
      ensures Valid() && View() == old(View()).(queue := old(View()).queue[1..])
      ensures Single(old(View()).queue[0], old(buf[..]), buf[..], at, writable, ret)
      ensures Blocks() <= old(Blocks())
      ensures leaked == old(leaked) + if ret == -SHORT_WRITE_ERROR then {old(queued)[0]} else {}
      ensures |leaked| == |old(leaked)| + if ret == -SHORT_WRITE_ERROR then 1 else 0
    {
      hide Globals.Valid, Globals.View, HeapOk, RootsOk, PendingOk, FifoOk, RecordOf, Live, QueueOf, Emit, RecordLen,
           Overwrite, Elements, EncodeWords;
      ghost var g := Now();
      HeadOfQueue(g, recordedPid);
      var r := Dequeue();
      var len := GetRecordLen(r);
      if size < len {
        HeadLeaked(g, recordedPid);
        leaked := leaked + {r};
        ret := -SHORT_WRITE_ERROR;
      } else {
        var dumped := DumpWholeRecord(r, buf, at, writable);
        HeadFreed(g, recordedPid);
        FreeSyscallRecord(r);
        assert Now() == WithoutHead(g);
        ret := if dumped == 0 then len else -GENERAL_DUMP_ERROR;
      }
    }

    /** The pointer at the head of the FIFO. */
    method Dequeue() returns (r: Ptr)
      requires Valid() && queued != []
      modifies this`fifo, this`queued
      ensures r == old(queued)[0] && queued == old(queued)[1..] && fifo == EncodeWords(queued)
    {
      HeadOfFifo(Now());
      var data := KfifoOut(8);
      assert data == old(fifo)[..8] && fifo == old(fifo)[8..];
      r := DecodeWord(data);
      queued := queued[1..];
    }

    /** dump_syscall_record and then dump_copy_records behind it. */
    method DumpWholeRecord(r: Ptr, buf: array<Byte>, at: nat, writable: nat) returns (ret: int)
      requires Live(records, copies, r) && records[r].amount == |records[r].list|
      requires at + RecordLen(RecordOf(records, copies, r)) <= buf.Length
      modifies buf
      ensures var bytes := Emit(RecordOf(records, copies, r));
              && (ret == 0 <==> at + |bytes| <= writable)
              && (ret == 0 ==> buf[..] == Overwrite(old(buf[..]), at, bytes))
    {
      ghost var head := RecordOf(records, copies, r);
      ghost var was := buf[..];
      ret := DumpSyscallRecord(r, buf, at, writable);
      if ret != 0 { return; }
      OverwriteTwice(was, at, Header(head.regs, head.ret, |head.copies|), EmitCopies(head.copies));
      hide Header, Overwrite;
      ret := DumpCopyRecords(r, buf, at + 184, writable);
    }

    /** One round of dump_records: a record is dumped, and the FIFO tested. */
    method DumpNext(buf: array<Byte>, at: nat, size: nat, writable: nat, ghost s0: State, ghost whole: Dump)
      returns (ret: int, empty: bool)
      requires Valid() && |View().queue| > 0 && Midway(s0, whole, writable, View(), buf[..], at)
      requires at + size == buf.Length
      modifies this, buf
      ensures Valid() && |View().queue| < |old(View()).queue| && (empty <==> |View().queue| == 0)
      ensures ret == -SHORT_WRITE_ERROR ==> Dumped(s0, whole, View(), if at > 0 then at else -EINVAL, buf[..], true)
      ensures ret == -GENERAL_DUMP_ERROR ==> Dumped(s0, whole, View(), -EFAULT, buf[..], false)
      ensures ret != -SHORT_WRITE_ERROR && ret != -GENERAL_DUMP_ERROR ==>
                && 0 < ret <= size
                && if empty then Dumped(s0, whole, View(), at + ret, buf[..], false)
                   else Midway(s0, whole, writable, View(), buf[..], at + ret)
      ensures Blocks() <= old(Blocks())
      ensures |leaked| == |old(leaked)| + if ret == -SHORT_WRITE_ERROR then 1 else 0
    {
      ghost var before, s := buf[..], View();
      ret := DumpSingleRecord(buf, at, size, writable);
      NextRound(s0, whole, writable, s, before, at, View(), buf[..], ret);
      hide Single, Midway, Dumped;
      EmptyFifo();
      empty := KfifoIsEmpty();
    }

    /** dump_records: the value read returns, the buffer and the queue afterwards. */
    method DumpRecords(buf: array<Byte>, writable: nat) returns (ret: int)
      requires Valid() && |View().queue| > 0
      modifies this, buf
      ensures Valid()
      ensures var whole := DumpFrom(old(View()).queue, old(buf[..]), 0, writable);
              Dumped(old(View()), whole, View(), ret, buf[..], whole.StoppedShort())
      ensures Blocks() <= old(Blocks())
      ensures |leaked| == |old(leaked)| + if DumpFrom(old(View()).queue, old(buf[..]), 0, writable).StoppedShort()
          then 1 else 0
    {
      ghost var s0 := View();
      ghost var whole := DumpFrom(s0.queue, buf[..], 0, writable);
      DumpStarts(s0, buf[..], writable);
      hide *;
      ret := DumpAsManyAsFit(buf, writable, s0, whole);
    }

    /** The loop of dump_records, whose outcome is to be `whole`. The buffer pointer has advanced by sizeWritten. */
    method DumpAsManyAsFit(buf: array<Byte>, writable: nat, ghost s0: State, ghost whole: Dump) returns (ret: int)
      requires Valid() && |View().queue| > 0 && Midway(s0, whole, writable, View(), buf[..], 0)
      modifies this, buf
      ensures Valid() && Dumped(s0, whole, View(), ret, buf[..], whole.StoppedShort())
      ensures Blocks() <= old(Blocks()) && |leaked| == |old(leaked)| + if whole.StoppedShort() then 1 else 0
    {
      hide *;
      var size: nat, sizeWritten: nat := buf.Length, 0;
      var didDoFirstWrite := false;
      var running := true;
      ghost var short := false;
      ret := 0;
      while running
        invariant Valid()
        invariant running ==> sizeWritten + size == buf.Length && (didDoFirstWrite <==> sizeWritten > 0)
        invariant running ==> !short && |View().queue| > 0 && Midway(s0, whole, writable, View(), buf[..], sizeWritten)
        invariant !running ==> Dumped(s0, whole, View(), ret, buf[..], short)
        invariant Blocks() <= old(Blocks()) && |leaked| == |old(leaked)| + if short then 1 else 0
        decreases running, |View().queue|
      {
        var dumpRet, empty := DumpNext(buf, sizeWritten, size, writable, s0, whole);
        short := dumpRet == -SHORT_WRITE_ERROR;
        running := dumpRet != -SHORT_WRITE_ERROR && dumpRet != -GENERAL_DUMP_ERROR && !empty;
        if dumpRet == -SHORT_WRITE_ERROR {
          ret := if didDoFirstWrite then sizeWritten else -EINVAL;
        } else if dumpRet == -GENERAL_DUMP_ERROR {
          ret := -EFAULT;
        } else {
          size := size - dumpRet;
          sizeWritten := sizeWritten + dumpRet;
          didDoFirstWrite := true;
          ret := sizeWritten;
        }
      }
      DumpedShort(s0, whole, View(), ret, buf[..], short);
    }
  }

  lemma Distinct(l: seq<Ptr>, i: nat)
    requires NoDup(l) && i < |l|
    ensures l[i] in l && forall k | i < k < |l| :: l[k] != l[i]
  {
  }

  lemma AddNoCopies(s: State)
    requires s.current.Some?
    ensures AddCopies(s, []) == s
  {
    assert s.current.value.copies + [] == s.current.value.copies;
  }

  lemma AddOneMore(s: State, cs: seq<Copy>, c: Copy)
    requires s.current.Some?
    ensures AddCopies(AddCopies(s, cs), [c]) == AddCopies(s, cs + [c])
  {
    assert (s.current.value.copies + cs) + [c] == s.current.value.copies + (cs + [c]);
  }
}
