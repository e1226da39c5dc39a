/**
  The recorder's hooks as functions of what they observe: the call being
  recorded, the copy whose outcome is awaited, and the queue of finished calls.
 */
module RecorderSpec {
  import opened Bytes
  import opened Memory
  import opened Format
  import opened Wrappers
  import opened SnapshotDiff

  const EXIT: int := 60
  const EXECVE: int := 59
  const EXIT_GROUP: int := 231

  /** 1 << SYSCALL_FIFO_ORDER bytes of eight-byte pointers. */
  const FIFO_SIZE: nat := 32768
  const QUEUE_CAPACITY: nat := 4096

  datatype State = State(pid: int, current: Option<Record>, pending: Option<Copy>, queue: seq<Record>)

  const IDLE: State := State(0, None, None, [])

  predicate IsRecorded(s: State, task: int) {
    task == s.pid && s.pid != 0
  }

  // Every pre hook returns the new state and whether its post hook will run.

  /** pre_syscall. The return value of a fresh record is whatever its memory held. */
  function PreSyscall(s: State, task: int, nr: int, regs: WordRegisters, hasMemory: bool, junk: U64): (State, bool) {
    if nr == EXECVE || nr == EXIT || nr == EXIT_GROUP || !IsRecorded(s, task) || s.current.Some? || !hasMemory
    then (s, false)
    else (s.(current := Some(Record(regs, junk, []))), true)
  }

  /** post_syscall: the record is queued, or lost when the queue is full. */
  function PostSyscall(s: State, ax: U64): State {
    if s.current.None? then s
    else if |s.queue| < QUEUE_CAPACITY
    then s.(current := None, queue := s.queue + [s.current.value.(ret := ax)])
    else s.(current := None)
  }

  /** The three guards pre_put and pre_copy share. */
  predicate MayCopy(s: State, task: int) {
    IsRecorded(s, task) && s.current.Some? && s.pending.None?
  }

  /** pre_put: the low `width` bytes of rax, for the address in rcx. */
  function PrePut(s: State, task: int, to: U64, ax: U64, width: nat, hasMemory: bool): (State, bool) {
    if !MayCopy(s, task) || !hasMemory then (s, false)
    else (s.(pending := Some(Copy(0, to, LE(ax, width)))), true)
  }

  /** pre_copy: the bytes are not read yet, so the copy holds what its memory held. */
  function PreCopy(s: State, task: int, from: U64, to: U64, hasMemory: bool, junk: seq<Byte>): (State, bool) {
    if !MayCopy(s, task) || !hasMemory then (s, false)
    else (s.(pending := Some(Copy(from, to, junk))), true)
  }

  function AddCopies(s: State, cs: seq<Copy>): State
    requires s.current.Some?
  {
    s.(current := Some(s.current.value.(copies := s.current.value.copies + cs)))
  }

  /** post_put: a put that failed is forgotten. */
  function PostPut(s: State, ret: U64): State
    requires s.current.Some? && s.pending.Some?
  {
    (if ret != 0 then s else AddCopies(s, [s.pending.value])).(pending := None)
  }

  /** post_copy: the copied bytes are taken from the kernel source, after the copy. */
  function PostCopy(s: State, ret: U64, source: seq<Byte>): State
    requires s.current.Some? && s.pending.Some? && |source| == |s.pending.value.bytes|
  {
    (if ret != 0 then s else AddCopies(s, [s.pending.value.(bytes := source)])).(pending := None)
  }

  datatype Wrapper = Poll | Getdents | Getdents64

  /** What a wrapper's callback reads: the probe's registers and the task's user registers. */
  datatype Region = Region(wrapper: Wrapper, regs: WordRegisters, userRegs: WordRegisters) {
    /** Where the user memory begins that the call may write. */
    function Base(): U64 {
      match wrapper
      case Poll => regs.rdi
      case Getdents => userRegs.rsi
      case Getdents64 => regs.rsi
    }

    /** How long it is; an entry of poll has eight bytes. */
    function Len(): U64 {
      match wrapper
      case Poll => ToU64(regs.rsi * 8)
      case Getdents => userRegs.rdx
      case Getdents64 => regs.rdx
    }
  }

  datatype Snapshot = Snapshot(base: U64, bytes: seq<Byte>)

  /** pre_wrap_syscall: the snapshot, unless a guard, the allocation or the copy from user memory fails. */
  function PreWrap(s: State, task: int, m: Mem, base: U64, len: U64, hasMemory: bool): Option<Snapshot> {
    if !IsRecorded(s, task) || s.current.None? || !hasMemory || !AllMapped(m, base, len) then None
    else Some(Snapshot(base, Slice(m, base, len)))
  }

  /** copy_from_user succeeds. */
  predicate AllMapped(m: Mem, base: int, n: nat)
    ensures AllMapped(m, base, n) <==> Mapped(m, base, n)
  {
    forall a | base <= a < base + n :: a in m
  }

  /** post_wrap_syscall: the diff, as far as `room` one-byte allocations go. */
  function PostWrap(s: State, snap: Snapshot, m: Mem, hasMemory: bool, room: nat): State
    requires s.current.Some?
  {
    if !hasMemory || !AllMapped(m, snap.base, |snap.bytes|) then s
    else AddCopies(s, Recorded(snap.base, snap.bytes, Slice(m, snap.base, |snap.bytes|), room))
  }
}
