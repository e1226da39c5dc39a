# Recording and replaying system calls

A Dafny model of the record-and-replay pipeline, from the kernel hooks that
record a process's system calls to the replayer that puts a tracee through
them again, with proofs about each stage and about the whole.

`dafny verify dfyconfig.toml` checks everything.

## What is modelled

| Stage | Source | Modules |
|---|---|---|
| Recorder: the hooks, their globals, the heap blocks and the FIFO of record pointers | `recorder/src/syscall_recorder.c`, `copy_to_user_wrapper.c`, `syscall_wrapper.c` | `RecorderSpec`, `SnapshotDiff`, `SyscallPatch`, `KernelHeap`, `KernelState`, `Recorder` |
| Dumper: measure, write, pack; the lock and wait protocol | `recorder/src/syscall_dumper.c` | `DumperSpec`, `Recorder`, `AtomicQueue`, `DumpProtocol`, `ProtocolRefinement` |
| Whole runs of recorder and dumper | the two above | `Pipeline`, `KernelRun`, `CallEvents` |
| Loader: the parser of the dump | `replayer/src/replayer/loader` | `Format`, `LoaderSpec`, `Loader` |
| Simulate or run | `replayer/src/replayer/should_simulate` | `ShouldSimulate` |
| Replayer and tracee memory | `replayer/src/replayer/replayer.py`, `replayer/src/creplayer/creplayer.c` | `TraceeMemory`, `ReplaySpec`, `Replayer`, `ReplayHistory`, `Fidelity`, `Divergence` |
| The whole | | `EndToEnd` |

Code that changes state is modelled by classes whose methods follow it branch
by branch (`Recorder.Recorder`, `Loader.BinaryUnpacker`, `Loader.Loader`,
`TraceeMemory.TraceeMem`, `Replayer.Tracee`, `Replayer.Replayer`). Each method's
contract equates what it does with a function of the state before; the lemmas
are about those functions. `Pipeline` runs them over arbitrary sequences of
hook calls, pid changes and reads, and `KernelRun` proves that the classes,
driven by any such sequence and any answers of `kmalloc`, stand where the
pipeline says they stand. `AtomicQueue` is the queue both the pipeline and the
interleaved protocol are in step with.

The headline is `EndToEnd.RecordedRunReplays`: a deterministic process is
recorded among any hooks of other tasks and any pattern of reads, no call is
lost on the way, and each call is either simulated and has all its bytes caught
by a hook or the diff, or is made for real with the recorded effect. Then loading
the bytes the reads returned and replaying them reaches, at every system call
boundary, the recorded registers and memory. `EndToEnd.RecordAndReplay` is the
same with the classes doing the work. `EndToEnd.RecordedRunReplaysExactlyIff`
takes the premises about the calls away: for every recording and every tracee
kernel, the replay reproduces the run if and only if each call comes out right.

What a replay does whatever it is given, and why it raises, is in
`ReplayHistory`; what a call records whatever the kernel does in it, and when
that is a patch, in `SyscallPatch`.

## What the code does that one might not expect

These are modelled as the code has them, each with its exact condition.

- A read dequeues the next record before it looks whether the record fits. A
  record that does not fit is returned to nobody and its memory is not freed.
  `DumperSpec.ReadLosesNothingIff` and `Pipeline.NothingIsLostIff` say when no
  call is lost.
- `record_size` is a 32-bit number and the measured length a 64-bit one. They
  agree exactly when every copy with its header is shorter than 2^32 bytes
  (`DumperSpec.MeasureAndWriteAgree`).
- A full FIFO drops the newest record.
- The diff of a wrapped region misses a byte that a hooked copy changed and an
  unhooked store put back, while the hooked copy is still replayed.
  `SyscallPatch.RestoredByteIsReplayedWrong` is an instance,
  `SyscallPatch.RegionIsExactIff` the exact condition on the acts in a region and
  `SyscallPatch.CallRecordIsPatchIff` the one for a whole call.
- A region of which one byte is not mapped is not recorded at all: the snapshot
  fails, no post hook runs, and whatever the call stores there without a hook is
  lost (`SyscallPatch.UnmappedRegionLosesStores`). The exact conditions above
  cover such regions.
- A copy that faults on its way has written its first bytes, and none of it is
  recorded (`SyscallPatch.PartialCopyIsLost`); an act whose hook finds no memory
  is not recorded either. The exact conditions cover both.
- A simulated open takes no descriptor in the tracee, so an open made for real
  after it may get a lower number than when it was recorded:
  `ShouldSimulate.SimulatedOpenShiftsNumbers`. Then an `open` raises, and an
  `openat` goes on with another number. `ShouldSimulate.NumbersAgreeIff` says
  exactly when numbers agree, and `EndToEnd.RecordedRunReplaysIff` exactly when
  the whole replay still reproduces the recorded run.
- Recorded return values are signed and the tracee's rax is unsigned, so a
  `brk`, `munmap` or `open` that failed when recorded and fails the same way in
  the replay still raises. `ReplaySpec.CheckPassesIff` is the condition,
  `ReplaySpec.ReproducedFailureRaises` an instance. An `open` never gets that
  far: one made for real had returned a descriptor (`Fidelity.RealReturnAccepted`).
- Word-wise access to the tracee needs the whole last word mapped, so a buffer
  that lies inside a mapping may be refused at its end
  (`TraceeMemory.MappedIsNotEnough`; the exact condition is in the contracts of
  `TraceeMem`). A length passed as a long is used as an int
  (`TraceeMemory.TransferredWhole`).
- Slicing past the end of the dump is not an error, so a dump cut inside the
  last payload of a record loads with that payload shortened
  (`LoaderSpec.Truncation`).

Where the documentation and the code disagree, the code is followed. The
comments on the pre hooks say that returning 1 asks for the post hook; the code,
and kretprobes, have it the other way round. `replayer/README.md` says that
mmap, munmap and brk are skipped; the code runs them for real.
`get_exit_status` compares numbers with `is not`; 231 is a number the
interpreter shares, so that is inequality.

## Model

| member | source | states |
|---|---|---|
| EndToEnd.RecordedRunReplays | replayer/src/replayer/replayer.py:95-158 | For every deterministic process and every interleaving of its hooks with reads and other tasks' hooks in which no call is lost, loading what the reads returned and replaying it exits with the recorded status, after 2n + 2 stops, having entered and left every call with the recorded registers and memory, modulo rdi and r10 after mmap; real calls are assumed to act as recorded |
| EndToEnd.RecordAndReplay | replayer/src/replayer/replayer.py:147-158 | The same carried out by the kernel module, the loader and the replayer as classes, for every kmalloc that grants blocks that are not live: their final state and result are those |
| EndToEnd.RecordedRunReplaysIff | replayer/src/replayer/replayer.py:113-158 | On a kernel that gives the lowest free descriptor and otherwise acts as recorded, loading and replaying runs to the end and reproduces the recorded run if and only if no simulated descriptor was ever open below one opened for real, and no brk or munmap failed |
| EndToEnd.RecordedRunReplaysExactlyIff | replayer/src/replayer/replayer.py:95-158 | For every recording of a deterministic process in which no call is lost, whatever its calls did with or without hooks, and every tracee kernel: loading and replaying runs to the end and reproduces the recorded run if and only if each simulated call has all its bytes caught and its copies' words mapped, each real call is accepted and leaves what it left, and each payload can be read; no copy reaches 2^31 bytes |
| EndToEnd.CallsComplete | recorder/src/syscall_recorder.c:66-118 | Among any reads and other tasks' hooks, the calls that complete are the process's calls, in order, each with the record its own events determine; exit_group is not recorded |
| EndToEnd.DumpLoads | replayer/src/replayer/loader/system_call_loader.py:23-56 | The bytes read load as exactly the calls the process made |
| EndToEnd.OneReadIsEnough | recorder/src/syscall_dumper.c:142-168 | Up to 4096 calls and one read with room for all of them lose nothing, so the premises of the result above about the run can always be met |
| SyscallPatch.PerformIs | recorder/src/copy_to_user_wrapper.c:120-220 | Whatever a hooked copy or put returns, it adds one copy of its bytes to the record exactly when it returned 0 and its hook had memory, and nothing otherwise |
| SyscallPatch.ThroughIs | recorder/src/copy_to_user_wrapper.c:120-220 | The hooks around any acts leave the current record with exactly the closed-form list of copies |
| SyscallPatch.BodyIsPatchIff | recorder/src/syscall_wrapper.c:127-164 | For any acts, hooked or not, complete or cut off, anywhere in the call, a region mapped or not, and any failing allocations, the recorded copies applied to the memory the call began with give the memory it ended with if and only if each byte is caught: by the last hooks that wrote it, by the diff, or by the hooked acts of the whole call |
| SyscallPatch.CallRecordIsPatchIff | recorder/src/syscall_wrapper.c:88-164 | So the queued record of a call is a patch of user memory if and only if its bytes are caught that way |
| SyscallPatch.CallRecordIsPatch | docs/recorder/kernel/syscall_wrapper.md:9-16 | For every mix of hooked copies and puts, failing or not, and other writes in a wrapped region that can be snapshot, not after hooked ones of the same byte, the queued record's copies applied in order to the memory before the call give the memory after it |
| SyscallPatch.RegionIsExactIff | recorder/src/syscall_wrapper.c:144-156 | For any acts at all, a region mapped or not, and any failing allocations, it is recorded exactly if and only if the diff has each byte, which takes a snapshot, a change and memory for its entry, or the hooked acts alone leave there what all of them leave |
| SyscallPatch.RegionIsExactIffInside | recorder/src/syscall_wrapper.c:144-156 | With unhooked writes inside the region: if and only if the hooked acts alone do right by each of its bytes that the diff does not have |
| SyscallPatch.RestoredByteIsReplayedWrong | recorder/src/syscall_wrapper.c:145 | A hooked byte undone by an unhooked store is replayed as if it had stayed |
| SyscallPatch.PollIsRecorded | recorder/src/syscall_wrapper.c:59-64 | A poll of n entries at p, wholly mapped, that stores without a hook only into bytes 6 and 7 of its entries, is recorded exactly |
| SyscallPatch.PollLosesOutside | recorder/src/syscall_wrapper.c:59-64 | A byte outside its 8 n bytes that no hook wrote is replayed as it was before the call |
| SyscallPatch.GetdentsIsRecorded | recorder/src/syscall_wrapper.c:66-79 | A getdents is recorded exactly in the buffer and length of the task's user registers rsi and rdx |
| SyscallPatch.GetdentsLosesOutside | recorder/src/syscall_wrapper.c:66-79 | A byte outside them that no hook wrote is replayed as it was |
| SyscallPatch.Getdents64IsRecorded | recorder/src/syscall_wrapper.c:81-86 | A getdents64 is recorded exactly in the buffer and length of the probe's own rsi and rdx |
| SyscallPatch.Getdents64LosesOutside | recorder/src/syscall_wrapper.c:81-86 | A byte outside them that no hook wrote is replayed as it was |
| SyscallPatch.UnmappedRegionLosesStores | recorder/src/syscall_wrapper.c:106-120 | A getdents64 whose region is not wholly mapped records nothing of what it stores |
| SyscallPatch.PartialCopyIsLost | recorder/src/copy_to_user_wrapper.c:199-220 | A copy that returns a number of bytes not copied, less than all, has written the others and records none |
| CallEvents.NestedCopiesLeaveNoTrace | recorder/src/copy_to_user_wrapper.c:182 | A hooked copy or put is recorded once, by the bytes it wrote itself, whatever copies and puts are tried in the course of it |
| CallEvents.CallIsRecordedIff | recorder/src/syscall_recorder.c:66-91 | Between calls, entering one begins a record if and only if it is the recorded task's, its number is not 59, 60 or 231, and there is memory for it; otherwise nothing changes |
| CallEvents.CallRuns | recorder/src/syscall_recorder.c:66-118 | Run through the pipeline, the events of one call complete one record with its registers, return value and copies, and leave nothing in flight |
| CallEvents.OwnEventsDecide | recorder/src/syscall_recorder.c:75-76 | Which calls complete and with what does not depend on reads or on the hooks of other tasks |
| Pipeline.StepKeepsInv | recorder/src/copy_to_user_wrapper.c:120-220 | Every hook, pid change and read keeps: a call is being recorded exactly while its frame is open, a copy is pending exactly while its frame is open, the queue holds the completed calls at its positions, every completed call has exactly one fate |
| Pipeline.ReadsGiveSubsequence | recorder/src/syscall_dumper.c:116-168 | Over any run the bytes read load as an in-order subsequence of the completed calls; each missing call is queued, was dropped at a full queue or was consumed by a short or failed read |
| Pipeline.PipelineRoundTrip | recorder/src/syscall_dumper.c:116-168 | When none was dropped or consumed, the bytes read are the serialization of the first completed calls and load as them, however reads split the stream, and the queue holds the others |
| Pipeline.NothingIsLostIff | recorder/src/syscall_recorder.c:101-110 | Over any run no call is lost if and only if every completed call found the queue not full and every read had room for all that was queued |
| Pipeline.QueueIsAtomic | recorder/src/syscall_dumper.c:142-168 | Over any run the queue holds what whole insertions and whole reads leave in an atomic queue |
| KernelRun.Serve | recorder/src/syscall_recorder.c:66-118 | For every sequence of hooks, pid changes and reads, with any outcome of each allocation, and every kmalloc that grants blocks that are not live, freed ones included, the module's memory is consistent and its state and returned bytes are those of the pipeline on that sequence |
| KernelRun.Kernel.Handle | recorder/src/copy_to_user_wrapper.c:120-220 | One event keeps that correspondence and logs exactly which of its allocations succeeded; a post hook runs only for the innermost frame whose pre hook returned 0 |
| KernelRun.Kernel.Kmalloc | recorder/src/syscall_recorder.c:78 | Answers the wished address, or NULL when that block is still live |
| KernelRun.Kernel.Read | recorder/src/syscall_dumper.c:116-168 | One read of the file; the records left allocated and unreachable are as many as the reads that stopped at a record that did not fit |
| KernelRun.Kernel.OutputLoads | recorder/src/syscall_dumper.c:170-211 | What the reads of any such run returned loads as completed calls, in order, each at most once |
| KernelState.EveryBlockHasOneHolder | recorder/src/copy_to_user_wrapper.c:158-174 | Consistent memory: amount_of_copies is the list's length for every record, each live copy is pending or on exactly one list, each record is current, queued once or leaked, a pending copy needs a current record, the FIFO holds whole pointers within its size |
| KernelHeap.DropRecord | recorder/src/syscall_recorder.c:54-64 | Freeing a record with its list leaves every other record whole and no element behind |
| Recorder.Recorder.PreSyscall | recorder/src/syscall_recorder.c:66-91 | A fresh record with the registers becomes current, unless a guard or the allocation fails |
| Recorder.Recorder.PostSyscall | recorder/src/syscall_recorder.c:93-118 | The current record with its return value joins the queue, or is freed when the FIFO is full |
| Recorder.Recorder.InsertCurrent | recorder/src/syscall_recorder.c:101-104 | kfifo_in takes all eight bytes or none, and takes them exactly when fewer than 4096 records are queued |
| Recorder.Recorder.FreeSyscallRecord | recorder/src/syscall_recorder.c:54-64 | Frees each element of the list once, while live, and then the record, and nothing else |
| Recorder.Recorder.PrePut | recorder/src/copy_to_user_wrapper.c:120-156 | The low bytes of rax become the pending copy, unless a guard, a pending copy or the allocation fails |
| Recorder.Recorder.PostPut | recorder/src/copy_to_user_wrapper.c:158-174 | A put that succeeded joins the record's list and count; a failed one is freed |
| Recorder.Recorder.PreCopy | recorder/src/copy_to_user_wrapper.c:176-196 | The pending copy has its addresses and length and not yet its bytes |
| Recorder.Recorder.PostCopy | recorder/src/copy_to_user_wrapper.c:199-220 | A copy that succeeded joins the list with the bytes now at its kernel source; a failed one is freed |
| Recorder.Recorder.PreWrap | recorder/src/syscall_wrapper.c:88-125 | The snapshot of the region that the wrapper's callback names is held exactly when the guards, the allocation and the copy from user memory succeed |
| Recorder.Recorder.PostWrap | recorder/src/syscall_wrapper.c:127-164 | Adds the diff, as far as one-byte allocations go, and frees the snapshot in every case |
| Recorder.Recorder.RecordDiff | recorder/src/syscall_wrapper.c:144-156 | The loop over the two snapshots adds exactly the diff, up to the first failed allocation |
| Recorder.Recorder.GetRecordLen | recorder/src/syscall_dumper.c:68-78 | The measured length of the record |
| Recorder.Recorder.DumpCopyRecords | recorder/src/syscall_dumper.c:80-97 | Writes the copies behind each other in place, or -1 when user memory faults |
| Recorder.Recorder.DumpSingleRecord | recorder/src/syscall_dumper.c:116-140 | The queue loses its head in every case; the buffer gets the record, or is untouched when it does not fit, and then, and only then, the record stays allocated |
| Recorder.Recorder.DumpRecords | recorder/src/syscall_dumper.c:142-168 | The return value, the buffer and the queue are those of the dump function |
| SnapshotDiff.DiffIsMinimal | recorder/src/syscall_wrapper.c:144-156 | One entry per differing position, one byte long, at strictly increasing addresses inside the region |
| SnapshotDiff.RecordedIsExactPatch | recorder/src/syscall_wrapper.c:144-156 | The entries turn the old snapshot into the new; after a failed allocation at i they do so for the first i bytes and change no other |
| DumperSpec.MeasureAndWriteAgree | recorder/src/syscall_dumper.c:68-114 | The measured length is the serialized length; the written bytes are as many, and are the serialization, exactly when sizes fit 32 bits |
| DumperSpec.FitCountIsLongest | recorder/src/syscall_dumper.c:142-168 | The packing count is the longest prefix of the queue that fits |
| DumperSpec.DumpIsGreedy | recorder/src/syscall_dumper.c:142-168 | A read returns the longest prefix that fits, or -EINVAL when it is empty, writes nothing behind it, and the queue loses it and the record that did not fit |
| DumperSpec.DumpDelivers | recorder/src/syscall_dumper.c:142-168 | A read that returns a length returns the serialization of the records it counts, even when later bytes of the buffer would fault |
| DumperSpec.ReadLosesNothingIff | recorder/src/syscall_dumper.c:120-126 | A read takes no record it does not return if and only if everything queued fits the buffer and the part of it that does not fault |
| DumperSpec.ReadFaultsIff | recorder/src/syscall_dumper.c:142-168 | With k records before the first that does not fit the buffer or reaches the part of it that faults, a read returns -EFAULT if that record fits, and else the length of the k records or -EINVAL; in each case it has dequeued that record |
| DumpProtocol.MutualExclusion | recorder/src/syscall_dumper.c:176-200 | Never two tasks at a FIFO access; outside the two functions the lock is released |
| DumpProtocol.LockedSectionIsAtomic | recorder/src/syscall_recorder.c:99-113 | Whatever other tasks do while a task holds the lock, the FIFO stays as that task left it, so a whole read and a whole insertion happen as one step |
| DumpProtocol.InterleavingIsAtomic | recorder/src/syscall_dumper.c:170-211 | For every interleaving of producers and readers there is an order of whole insertions and whole reads with the same queue and the same pointers entered and left |
| ProtocolRefinement.ProtocolRunsInPipeline | recorder/src/syscall_dumper.c:142-211 | For every interleaving there is a run of the pipeline in which the same pointers, by the positions of their calls, have entered the queue, left it and are in it |
| DumpProtocol.DumpAlwaysFindsARecord | recorder/src/syscall_dumper.c:120-123 | Every dump_single_record runs with the lock held and takes the oldest record not yet taken, so its kfifo_out never fails |
| DumpProtocol.StepKeepsSafe | recorder/src/syscall_dumper.c:170-211 | Every step of every task keeps: the lock is held exactly between locking and unlocking; a reader goes to wait only at an empty FIFO, dumps only from a non-empty one, and ends a read that no record stopped only at an empty one; the FIFO is what entered and has not left |
| DumpProtocol.ReadTakesOldest | recorder/src/syscall_dumper.c:142-200 | A reader that holds the lock of a non-empty FIFO takes its records one by one, the oldest first, and is done exactly after the last |
| DumpProtocol.ReadStops | recorder/src/syscall_dumper.c:148-159 | A read stopped at a record has taken it and takes no further one; a read that is done, either way, returns without the lock |
| DumpProtocol.EmptyRead | recorder/src/syscall_dumper.c:177-206 | At an empty FIFO the lock is given up; with O_NONBLOCK, or at a signal, the read returns with nothing taken, and a wake-up has it look again under the lock |
| DumpProtocol.BlockingReadWaits | recorder/src/syscall_dumper.c:177-192 | Whatever other tasks do, a blocking read that no signal reaches does not return before it has taken a record |
| DumpProtocol.InsertionSteps | recorder/src/syscall_recorder.c:99-113 | A finished call puts its record behind the others unless 4096 are queued, and returns without the lock |
| DumpProtocol.LeftIsPrefixOfEntered | recorder/src/syscall_recorder.c:101 | Pointers leave the FIFO in the order they entered, each once |
| LoaderSpec.RoundTrip | replayer/src/replayer/loader/system_call_loader.py:23-56 | Loading the serialization of any records gives those calls and consumes everything |
| Bytes.SignedRoundTrip | replayer/src/replayer/loader/unpacker.py:17-20 | A word read as a signed number lies in its range, and written back modulo 2^64 is the word |
| Bytes.LEAt | recorder/src/copy_to_user_wrapper.c:137-150 | Byte i of a stored number is its i-th digit to the base 256: the low byte comes first |
| Bytes.WordBytes | replayer/src/replayer/loader/unpacker.py:11-15 | The eight bytes of a word, from the lowest to the highest |
| Format.HeaderRegisters | recorder/include/syscall_dumper.h:4-9 | Which eight bytes of a dumped record are r15 to rax |
| Format.HeaderRegistersOn | replayer/src/replayer/loader/registers.py:4-26 | And which are rcx to ss |
| Format.HeaderEnd | recorder/include/syscall_dumper.h:4-9 | The return value is at 168 and the number of copies at 176 |
| Format.CopyLayout | recorder/include/copy_to_user_wrapper.h:24-30 | A dumped copy has its source, destination and length at 0, 8 and 16, and its bytes from 24 on |
| LoaderSpec.CallConsumes | replayer/src/replayer/loader/system_call_loader.py:41-49 | A loaded call consumed at least 184 bytes and 24 for each copy; its return value is signed and the word at 168 modulo 2^64 |
| LoaderSpec.CallsConsume | replayer/src/replayer/loader/system_call_loader.py:51-56 | A buffer of m bytes loads as at most m / 184 calls |
| LoaderSpec.AcceptedInputReserializes | replayer/src/replayer/loader/unpacker.py:22-26 | Accepted input serializes back to the same length, and to the same bytes exactly when no payload was short |
| LoaderSpec.Truncation | replayer/src/replayer/loader/unpacker.py:11-29 | A prefix of a dump loads if and only if it ends at a record boundary or inside a record's last payload; the results are the records before it, with that payload shortened |
| Loader.BinaryUnpacker.UnpackUnsignedLong | replayer/src/replayer/loader/unpacker.py:11-15 | Eight bytes little-endian from the front, or an error on fewer |
| Loader.BinaryUnpacker.UnpackStr | replayer/src/replayer/loader/unpacker.py:22-26 | As many bytes as asked for or as there are, from the front |
| Loader.Loader.LoadMemoryCopy | replayer/src/replayer/loader/system_call_loader.py:23-32 | Consumes one copy as the parse function says, or fails |
| Loader.Loader.LoadSystemCall | replayer/src/replayer/loader/system_call_loader.py:41-49 | Consumes one call as the parse function says, or fails |
| Loader.Loader.LoadSystemCalls | replayer/src/replayer/loader/system_call_loader.py:51-56 | Loads every call until the buffer is empty, or fails at the first error |
| ShouldSimulate.ScansMeet | replayer/src/replayer/should_simulate/should_simulate.py:74-87 | Within one lifetime the forward scan from the open and the backward scan from the close both find exactly whether an mmap lies between |
| ShouldSimulate.MadeForRealIff | replayer/src/replayer/should_simulate/should_simulate.py:74-122 | Of any recording, a call is made for real if and only if it is mmap, mprotect, munmap or brk, or an open or openat with an mmap of its number before the next close of it, or a close with an mmap of its number since the last open, openat or socket that returned it |
| ShouldSimulate.FindsFirst | replayer/src/replayer/should_simulate/should_simulate.py:16-32 | The search returns the first match; without one it raises exactly when asked to |
| ShouldSimulate.OpenCloseAgreement | replayer/src/replayer/should_simulate/should_simulate.py:74-96 | An open and its matching close get the same decision, and run for real exactly when the descriptor is mapped between them; sockets are always simulated |
| ShouldSimulate.RealMatchesAlways | replayer/src/replayer/should_simulate/should_simulate.py:74-122 | By recorded numbers, the descriptors the real calls leave open are at every point the recorded open ones whose lifetime contains an mmap |
| ShouldSimulate.RealTraceWellFormed | replayer/src/replayer/should_simulate/should_simulate.py:99-122 | By recorded numbers, the calls that run for real form a well-formed descriptor trace |
| ShouldSimulate.OpenGetsItsNumberIff | replayer/src/replayer/should_simulate/should_simulate.py:90-91 | A real open gets its recorded number from a kernel that gives the lowest free one if and only if every lower descriptor then open is really open in the tracee |
| ShouldSimulate.NumbersAgreeIff | replayer/src/replayer/should_simulate/should_simulate.py:90-122 | Over a whole replay, all real opens get their recorded numbers if and only if that holds at each of them |
| ShouldSimulate.SimulatedOpenShiftsNumbers | replayer/src/replayer/should_simulate/should_simulate.py:90-91 | A file opened as 1 and mapped, after one opened as 0 and not, gets 0 in the tracee |
| ShouldSimulate.NegativeIsNeverMappedAhead | replayer/src/replayer/should_simulate/should_simulate.py:90-91 | A failed open is always simulated |
| TraceeMemory.TraceeMem.WriteBufferToTracee | replayer/src/creplayer/creplayer.c:56-78 | Sets exactly the buffer's bytes up to the first unmapped word, and no other byte; succeeds exactly when every word touched is mapped |
| TraceeMemory.ReachedAllIff | replayer/src/creplayer/creplayer.c:56-78 | The walk gets to the end of the buffer if and only if every word touched is mapped |
| TraceeMemory.StopsAtUnmapped | replayer/src/creplayer/creplayer.c:56-78 | When it does not, it has written whole words up to the first one that is not mapped |
| TraceeMemory.TraceeMem.ReadFromTracee | replayer/src/creplayer/creplayer.c:85-101 | Succeeds exactly when every word touched is mapped, and returns the memory's bytes |
| TraceeMemory.TraceeMem.WriteCopies | replayer/src/replayer/replayer.py:62-67 | Memory is the fold of the writes up to the first that fails, itself written up to its first unmapped word; fails exactly when some word is unmapped |
| TraceeMemory.WriteAllUnlessFailing | replayer/src/replayer/replayer.py:62-67 | When every word is mapped, that is all the writes in order |
| TraceeMemory.FailsAt | replayer/src/replayer/replayer.py:62-67 | When the k-th write is the first to fail, memory has the ones before it whole, and it as far as it got |
| TraceeMemory.WriteAllIsApplyCopies | replayer/src/replayer/replayer.py:62-67 | With lengths that fit an int the writes are the recorded copies applied in order |
| TraceeMemory.LastWriteWins | replayer/src/replayer/replayer.py:62-67 | Of overlapping writes the last one decides a byte |
| TraceeMemory.UntouchedByte | replayer/src/replayer/replayer.py:62-67 | No byte outside the written buffers changes |
| TraceeMemory.ReadAfterWrite | replayer/src/creplayer/creplayer.c:56-101 | Reading back what was written gives it |
| TraceeMemory.TransferredWhole | replayer/src/creplayer/creplayer.c:166-169 | A buffer is transferred whole if and only if its length is below 2^31 |
| TraceeMemory.TransferredLength | replayer/src/creplayer/creplayer.c:166-169 | Otherwise as many bytes are as the low 32 bits of the length say, or none when those make a negative int |
| TraceeMemory.MappedIsNotEnough | replayer/src/creplayer/creplayer.c:70-75 | A mapped byte whose word sticks out of the mapping cannot be written |
| ReplaySpec.MaskedWords | replayer/src/creplayer/creplayer.c:150-155 | Writing registers back changes only the replaced word, modulo 2^64 |
| ReplaySpec.SetMapFixed | replayer/src/replayer/syscall_handlers.py:20 | The flags get bit 4 and no other bit changes |
| ReplaySpec.CheckPassesIff | replayer/src/replayer/replayer.py:52-56 | With the recorded word in rax, the check passes exactly when the call is not validated or did not fail |
| ReplaySpec.ReproducedFailureRaises | replayer/src/replayer/replayer.py:52-56 | An munmap that fails as recorded still raises |
| ReplayHistory.PhaseDiscipline | replayer/src/replayer/replayer.py:81-158 | A replay that completes, on any n calls and any tracee, made 2n + 2 stops and met each call once and in order; each simulated one had all its copies' words mapped and left its entry memory patched by them and its entry registers with the recorded rax; each real one left what the kernel made of it and was accepted; the callback got the buffer of every write to descriptor 1; rdi of exit_group is the status |
| ReplayHistory.RaisesBecause | replayer/src/replayer/replayer.py:41-145 | A replay that raises went through k calls that way and then met another number, or a payload too long or unreadable, or a copy whose words are not all mapped, or a validated call that returned another value; the error has the two values, and the tracee stands as that leaves it |
| ReplayHistory.WrongCallRaisesUntouched | replayer/src/replayer/replayer.py:41-49 | A wrong system call, or one other than exit_group at the end, raises with both numbers while the tracee has the registers and memory it entered with |
| ReplayHistory.CompletesIff | replayer/src/replayer/replayer.py:147-158 | A replay completes if and only if the tracee can go through all calls that way and then enters exit_group; it went through just those states |
| Replayer.Replayer.StartReplaying | replayer/src/replayer/replayer.py:147-158 | Returns or raises what the replay function says, and in every case leaves the tracee as it says and has called back with its payloads |
| Replayer.Replayer.RunTraceeThroughSystemCall | replayer/src/replayer/replayer.py:130-145 | The same for one call |
| Replayer.Replayer.SimulateSystemCallForTracee | replayer/src/replayer/replayer.py:95-111 | The refused call, the copies and the return value |
| Replayer.Replayer.WrapAndRunRealSystemCallInTracee | replayer/src/replayer/replayer.py:113-128 | The new registers, the real call and the check of its return value |
| Replayer.Replayer.CallStdoutCallbackIfRelevant | replayer/src/replayer/replayer.py:69-75 | The payload is the tracee's buffer at the entry of a write to descriptor 1 |
| Replayer.Replayer.GetExitStatus | replayer/src/replayer/replayer.py:81-93 | rdi of exit_group, or an exception on any other call |
| Fidelity.RealReturnAccepted | replayer/src/replayer/replayer.py:52-56 | Given the recorded word in rax, only a failed brk or munmap is refused |
| Fidelity.RealCheckedIff | replayer/src/replayer/replayer.py:52-56 | Of the calls made for real, whatever they return, exactly brk, munmap and open raise when it is not the recorded value |
| Fidelity.RealCallsFaithfulIff | replayer/src/replayer/replayer.py:113-128 | On a lowest-free kernel that otherwise acts as recorded, real calls have their recorded effects and are accepted if and only if no simulated descriptor was ever open below one opened for real, and no brk or munmap failed |
| Fidelity.ReproducesExactlyIff | replayer/src/replayer/replayer.py:95-158 | For every recording and every tracee kernel, a replay runs to the end and reproduces the recorded run if and only if redoing each call at its recorded entry neither raises nor leaves another state, and the process does not notice rdi and r10 after an mmap |
| Fidelity.SimulatedIsRedoneIff | replayer/src/replayer/replayer.py:95-111 | For a simulated call with copies below 2^31 bytes that means: their words are mapped, they make up its effect on memory, and its payload, if any, can be read |
| Fidelity.RealIsRedoneIff | replayer/src/replayer/replayer.py:113-128 | For a real call that may only return another number: it returns the recorded one and is not refused |
| Fidelity.ReplayIsFaithful | replayer/src/replayer/replayer.py:147-158 | Every boundary state of the replay is the recorded one |
| Divergence.ReproducesIff | replayer/src/replayer/replayer.py:147-158 | When simulated calls have their recorded effects and real ones at most another number, a replay reproduces the recorded run if and only if every real call has its recorded effect and is not refused |
| Divergence.ReproducesOnLowestFreeIff | replayer/src/replayer/replayer.py:147-158 | The same in terms of descriptor lifetimes and failed calls, on a lowest-free kernel |
| Fidelity.OutputIsReproduced | replayer/src/replayer/replayer.py:69-75 | What a replay calls back with adds up to the bytes the recorded process wrote to descriptor 1 if and only if each of its writes there was whole |

## Left out

- Registration of probes, module load and removal, creation of the proc files, parsing of the pid written to one of them.
- Liveness: wake-ups and signals come at any point; that a waiting reader is ever woken is not claimed.
- Several recorded processes, and a change of the recorded pid to another task while a call is in flight.
- ptrace attach, waitpid, signals, a stale errno, and a word poked partly; only whole-word peeks and pokes and the conversion of registers are modelled.
- Argument parsing in creplayer; a payload length beyond a C int raises.
- Descriptors from accept, dup, pipe and the like: the traces of `ShouldSimulate` open descriptors only by open, openat and socket, and never close or map an inherited one.
- What mmap, mprotect, munmap, brk and real opens do: an oracle. The results about faithful replays assume that it acts as recorded; `Fidelity.ReproducesExactlyIff` says what it must do, call by call, and for the numbers real opens return that is characterised further.
- pager, pyrecorder, command lines, logging and the table of system call names.
- SyscallPatch.RecordCall: the allocation of the record itself succeeds; when it fails the call is not recorded at all (`CallEvents.CallIsRecordedIff`).
- SyscallPatch.Act: a copy that fails has left out its last bytes, as many as it returns, and a put that fails has written nothing; the kernel source of a copy still holds the bytes that were copied when the post hook reads them.
- SyscallPatch.Recordable: unhooked writes outside a wrapped region, such as those of an inlined `__put_user`, are not recordable; the exact conditions say what becomes of them.
- The data a refused nested copy moves: it is part of the outer copy's bytes.
- Overflow of allocation sizes, of the sum of record lengths and of counters in 64 bits: lengths and counters are unbounded numbers.
- A getdents callback that finds no user registers: they are those the call was made with.
- SnapshotDiff.Recorded: positions are unbounded numbers; the source counts them in an int, so `Recorder.Recorder.PostWrap` and `KernelRun.Kernel.EnterWrap` take regions below 2^31 bytes.
- Recorder.Recorder.CopyToUser: the content of the buffer after a fault is not specified, since a read that fails returns none of it.
- Recorder.Recorder: its methods are single steps; that interleaved ones come to the same is proved of the queue in `DumpProtocol.InterleavingIsAtomic`.
- KernelHeap.ListOk: a linked list is the sequence of its elements' addresses; the link fields are not modelled.
- KernelRun.Kernel.Read: the wait for the first record is modelled in `DumpProtocol`; here a read of an empty queue returns nothing.
