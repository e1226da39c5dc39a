/**
  What one read of /proc/syscall_dumper does to the queue and to the caller's
  buffer: as many whole records as fit, measured before they are written.
 */
module DumperSpec {
  import opened Bytes
  import opened Format

  const EINVAL: int := 22
  const EFAULT: int := 14
  const GENERAL_DUMP_ERROR: int := 1
  const SHORT_WRITE_ERROR: int := 2

  /** get_record_len, summed in 64 bits. */
  function RecordLen(r: Record): (n: nat)
    ensures n >= 184
  {
    184 + CopiesLen(r.copies)
  }

  function CopiesLen(cs: seq<Copy>): nat {
    if cs == [] then 0 else 24 + |cs[0].bytes| + CopiesLen(cs[1..])
  }

  /** record_size, computed in a 32-bit unsigned int. */
  function RecordSize(c: Copy): (n: nat)
    ensures n <= 24 + |c.bytes|
  {
    (24 + |c.bytes|) % 0x1_0000_0000
  }

  /** What one copy_to_user of dump_copy_records sends: record_size bytes of the struct. */
  function Chunk(c: Copy): (s: seq<Byte>)
    ensures |s| == RecordSize(c)
  {
    SerializeCopy(c)[..RecordSize(c)]
  }

  function EmitCopies(cs: seq<Copy>): (s: seq<Byte>)
    ensures |s| <= CopiesLen(cs)
  {
    if cs == [] then [] else Chunk(cs[0]) + EmitCopies(cs[1..])
  }

  /** The bytes dump_syscall_record and dump_copy_records write for a record. */
  function Emit(r: Record): (s: seq<Byte>)
    ensures 184 <= |s| <= RecordLen(r)
  {
    Header(r.regs, r.ret, |r.copies|) + EmitCopies(r.copies)
  }

  predicate Fits32(r: Record) {
    forall c | c in r.copies :: 24 + |c.bytes| < 0x1_0000_0000
  }

  lemma {:induction false} CopiesLenIsSerializedLen(cs: seq<Copy>)
    ensures CopiesLen(cs) == |SerializeCopies(cs)|
  {
    if cs != [] {
      CopiesLenIsSerializedLen(cs[1..]);
    }
  }

  lemma {:induction false} EmitCopiesAgrees(cs: seq<Copy>)
    ensures |EmitCopies(cs)| == CopiesLen(cs) <==> forall c | c in cs :: 24 + |c.bytes| < 0x1_0000_0000
    ensures (forall c | c in cs :: 24 + |c.bytes| < 0x1_0000_0000) ==> EmitCopies(cs) == SerializeCopies(cs)
  {
    hide SerializeCopy;
    if cs != [] {
      EmitCopiesAgrees(cs[1..]);
      assert forall c :: c in cs <==> c == cs[0] || c in cs[1..];
      var one := SerializeCopy(cs[0]);
      assert one[..|one|] == one;
      if 24 + |cs[0].bytes| < 0x1_0000_0000 {
        assert RecordSize(cs[0]) == |one|;
      }
    }
  }

  lemma {:induction false} CopiesAppend(cs: seq<Copy>, c: Copy)
    ensures CopiesLen(cs + [c]) == CopiesLen(cs) + 24 + |c.bytes|
    ensures EmitCopies(cs + [c]) == EmitCopies(cs) + Chunk(c)
  {
    hide Chunk;
    if cs == [] {
      assert cs + [c] == [c] && [c][1..] == [];
      assert Chunk(c) + [] == [] + Chunk(c);
    } else {
      CopiesAppend(cs[1..], c);
      assert (cs + [c])[1..] == cs[1..] + [c];
      Assoc(Chunk(cs[0]), EmitCopies(cs[1..]), Chunk(c));
    }
  }

  lemma {:induction false} EmitOfPrefix(cs: seq<Copy>, n: nat)
    requires n <= |cs|
    ensures |EmitCopies(cs[..n])| <= |EmitCopies(cs)|
    decreases |cs| - n
  {
    if n == |cs| {
      assert cs[..n] == cs;
    } else {
      EmitOfPrefix(cs, n + 1);
      assert cs[..n + 1] == cs[..n] + [cs[n]];
      CopiesAppend(cs[..n], cs[n]);
    }
  }

  lemma {:induction false} CopiesLenOfPrefix(cs: seq<Copy>, n: nat)
    requires n <= |cs|
    ensures CopiesLen(cs[..n]) <= CopiesLen(cs)
    ensures n < |cs| ==> CopiesLen(cs[..n]) + 24 + |cs[n].bytes| <= CopiesLen(cs)
    decreases |cs| - n
  {
    if n == |cs| {
      assert cs[..n] == cs;
    } else {
      CopiesLenOfPrefix(cs, n + 1);
      assert cs[..n + 1] == cs[..n] + [cs[n]];
      CopiesAppend(cs[..n], cs[n]);
    }
  }

  /**
    The measuring pass gives the serialized length. The writing pass emits that
    many bytes exactly when every copy's size fits 32 bits, and then emits the
    serialization itself.
   */
  lemma MeasureAndWriteAgree(r: Record)
    ensures RecordLen(r) == |Serialize(r)|
    ensures |Emit(r)| == RecordLen(r) <==> Fits32(r)
    ensures Fits32(r) ==> Emit(r) == Serialize(r)
  {
    CopiesLenIsSerializedLen(r.copies);
    EmitCopiesAgrees(r.copies);
  }

  /** buf with bytes stored from `at` on. */
  function Overwrite(buf: seq<Byte>, at: nat, bytes: seq<Byte>): (r: seq<Byte>)
    requires at + |bytes| <= |buf|
    ensures |r| == |buf|
  {
    buf[..at] + bytes + buf[at + |bytes|..]
  }

  /**
    The outcome of a dump: the value read returns, the caller's buffer (its
    content matters only when ret is a length), the number of records dequeued
    and the number written whole.
   */
  datatype Dump = Dump(ret: int, buf: seq<Byte>, taken: nat, written: nat) {
    /** The outcome when one more record was written before. */
    function After(): Dump { this.(taken := taken + 1, written := written + 1) }

    /** A record was dequeued that did not fit, and is neither returned nor freed. */
    predicate StoppedShort() { ret != -EFAULT && written < taken }
  }

  /**
    dump_records with `off` bytes already written. The record at the head is
    dequeued before its length is compared with the room left. Bytes from
    `writable` on fault when written.
   */
  function DumpFrom(queue: seq<Record>, buf: seq<Byte>, off: nat, writable: nat): (d: Dump)
    requires queue != [] && off <= |buf|
    ensures |d.buf| == |buf| && d.ret <= |buf|
    ensures d.written <= d.taken <= |queue| && 0 < d.taken <= d.written + 1
    decreases |queue|
  {
    var r := queue[0];
    if |buf| - off < RecordLen(r) then
      Dump(if off > 0 then off else -EINVAL, buf, 1, 0)
    else if off + |Emit(r)| > writable then
      Dump(-EFAULT, buf, 1, 0)
    else
      var buf' := Overwrite(buf, off, Emit(r));
      if |queue| == 1 then Dump(off + RecordLen(r), buf', 1, 1)
      else
        DumpFrom(queue[1..], buf', off + RecordLen(r), writable).After()
  }

  /** One round of the loop, whichever way it goes. */
  lemma DumpFromRound(queue: seq<Record>, buf: seq<Byte>, off: nat, writable: nat)
    requires queue != [] && off <= |buf|
    ensures var r := queue[0];
            var d := DumpFrom(queue, buf, off, writable);
            if |buf| - off < RecordLen(r) then d == Dump(if off > 0 then off else -EINVAL, buf, 1, 0)
            else if off + |Emit(r)| > writable then d == Dump(-EFAULT, buf, 1, 0)
            else
              var buf' := Overwrite(buf, off, Emit(r));
              if |queue| == 1 then d == Dump(off + RecordLen(r), buf', 1, 1)
              else d == DumpFrom(queue[1..], buf', off + RecordLen(r), writable).After()
  {
    hide Emit, RecordLen, Overwrite;
  }

  /** The outcome `whole` is what dumping the queue from its n-th record at `at` leads to. */
  ghost predicate Continues(whole: Dump, queue: seq<Record>, writable: nat, n: nat, buf: seq<Byte>, at: nat) {
    && n < |queue| && at <= |buf|
    && var d := DumpFrom(queue[n..], buf, at, writable);
       whole.ret == d.ret && whole.buf == d.buf && whole.taken == n + d.taken && whole.written == n + d.written
  }

  /**
    The dump `whole` has returned ret, dequeued n records, the last of them for
    nothing or not, and left the buffer as it is.
   */
  ghost predicate Finished(whole: Dump, ret: int, buf: seq<Byte>, n: nat, short: bool) {
    ret == whole.ret && whole.taken == n && (ret >= 0 ==> buf == whole.buf) && (short <==> whole.StoppedShort())
  }

  /** What dump_single_record returns for record r, and the buffer before and after. */
  ghost predicate Single(r: Record, was: seq<Byte>, now: seq<Byte>, at: nat, writable: nat, ret: int)
    requires at <= |was|
  {
    if |was| - at < RecordLen(r) then ret == -SHORT_WRITE_ERROR && now == was
    else if at + |Emit(r)| > writable then ret == -GENERAL_DUMP_ERROR
    else ret == RecordLen(r) && now == Overwrite(was, at, Emit(r))
  }

  /** What a round that returned ret and left the buffer as `now` means for the whole dump. */
  ghost predicate Round(whole: Dump, queue: seq<Record>, writable: nat, n: nat, at: nat, now: seq<Byte>, ret: int)
    requires n < |queue|
  {
    && (ret == -SHORT_WRITE_ERROR || ret == -GENERAL_DUMP_ERROR || (0 < ret && at + ret <= |now|))
    && (ret == -SHORT_WRITE_ERROR ==> Finished(whole, if at > 0 then at else -EINVAL, now, n + 1, true))
    && (ret == -GENERAL_DUMP_ERROR ==> Finished(whole, -EFAULT, now, n + 1, false))
    && (ret > 0 && n + 1 == |queue| ==> Finished(whole, at + ret, now, n + 1, false))
    && (ret > 0 && n + 1 < |queue| ==> Continues(whole, queue, writable, n + 1, now, at + ret))
  }

  lemma RoundOf(whole: Dump, queue: seq<Record>, writable: nat, n: nat, buf: seq<Byte>, at: nat, now: seq<Byte>,
                ret: int)
    requires Continues(whole, queue, writable, n, buf, at) && Single(queue[n], buf, now, at, writable, ret)
    ensures Round(whole, queue, writable, n, at, now, ret)
  {
    hide Emit, RecordLen, Overwrite, DumpFrom;
    DumpFromRound(queue[n..], buf, at, writable);
    assert queue[n..][0] == queue[n] && queue[n..][1..] == queue[n + 1..];
  }

  /** dump_copy_records after i copies: where it stands and what it has written. */
  ghost predicate CopiesWritten(was: seq<Byte>, now: seq<Byte>, at: nat, cs: seq<Copy>, i: nat, to: nat) {
    && i <= |cs| && at + CopiesLen(cs) <= |was|
    && to == at + |EmitCopies(cs[..i])| <= |was|
    && now == Overwrite(was, at, EmitCopies(cs[..i]))
  }

  lemma CopiesStart(was: seq<Byte>, at: nat, cs: seq<Copy>)
    requires at + CopiesLen(cs) <= |was|
    ensures CopiesWritten(was, was, at, cs, 0, at)
  {
    OverwriteNothing(was, at);
    assert cs[..0] == [];
  }

  lemma NextCopyWritten(was: seq<Byte>, now: seq<Byte>, at: nat, cs: seq<Copy>, i: nat, to: nat)
    requires CopiesWritten(was, now, at, cs, i, to) && i < |cs|
    ensures to + RecordSize(cs[i]) <= |was| == |now|
    ensures to + RecordSize(cs[i]) <= at + |EmitCopies(cs)|
    ensures CopiesWritten(was, Overwrite(now, to, Chunk(cs[i])), at, cs, i + 1, to + RecordSize(cs[i]))
  {
    hide Chunk, CopiesLen, EmitCopies, RecordSize, Overwrite;
    assert cs[..i + 1] == cs[..i] + [cs[i]];
    CopiesLenOfPrefix(cs, i);
    CopiesAppend(cs[..i], cs[i]);
    EmitOfPrefix(cs, i + 1);
    OverwriteTwice(was, at, EmitCopies(cs[..i]), Chunk(cs[i]));
  }

  lemma CopiesEnd(was: seq<Byte>, now: seq<Byte>, at: nat, cs: seq<Copy>, to: nat)
    requires CopiesWritten(was, now, at, cs, |cs|, to)
    ensures to == at + |EmitCopies(cs)| && now == Overwrite(was, at, EmitCopies(cs))
  {
    assert cs[..|cs|] == cs;
  }

  // ---- Greedy packing ----

  /** The length of the longest prefix of the queue that fits in `size` bytes. */
  function FitCount(queue: seq<Record>, size: int): (k: nat)
    ensures k <= |queue|
  {
    if queue == [] || size < RecordLen(queue[0]) then 0
    else 1 + FitCount(queue[1..], size - RecordLen(queue[0]))
  }

  lemma SerializeAllFirst(rs: seq<Record>, k: nat)
    requires 0 < k <= |rs|
    ensures SerializeAll(rs[..k]) == Serialize(rs[0]) + SerializeAll(rs[1..][..k - 1])
  {
    assert rs[..k][0] == rs[0] && rs[..k][1..] == rs[1..][..k - 1];
  }

  lemma {:induction false} FitCountIsLongest(queue: seq<Record>, size: nat, k: nat)
    requires k <= |queue|
    ensures |SerializeAll(queue[..k])| <= size <==> k <= FitCount(queue, size)
  {
    if k == 0 {
      assert queue[..0] == [];
    } else {
      MeasureAndWriteAgree(queue[0]);
      hide Serialize, RecordLen;
      SerializeAllFirst(queue, k);
      if size >= RecordLen(queue[0]) {
        FitCountIsLongest(queue[1..], size - RecordLen(queue[0]), k - 1);
      }
    }
  }

  /** Storing x and then y right behind it stores x + y. */
  lemma OverwriteTwice(buf: seq<Byte>, at: nat, x: seq<Byte>, y: seq<Byte>)
    requires at + |x| + |y| <= |buf|
    ensures Overwrite(Overwrite(buf, at, x), at + |x|, y) == Overwrite(buf, at, x + y)
  {
  }

  lemma OverwriteFromStart(buf: seq<Byte>, bytes: seq<Byte>)
    requires |bytes| <= |buf|
    ensures Overwrite(buf, 0, bytes) == bytes + buf[|bytes|..]
  {
    assert buf[..0] == [];
  }

  lemma SerializeNone(queue: seq<Record>)
    ensures SerializeAll(queue[..0]) == []
  {
    assert queue[..0] == [];
  }

  lemma OverwriteNothing(buf: seq<Byte>, at: nat)
    requires at <= |buf|
    ensures Overwrite(buf, at, []) == buf
  {
  }

  /** d is what dumping exactly the first k records of the queue at `off` looks like. */
  ghost predicate Dumps(d: Dump, queue: seq<Record>, buf: seq<Byte>, off: nat, k: nat)
    requires k <= |queue|
  {
    var dumped := SerializeAll(queue[..k]);
    && off + |dumped| <= |buf|
    && d.ret == (if off == 0 && k == 0 then -EINVAL else off + |dumped|)
    && d.buf == Overwrite(buf, off, dumped)
    && d.written == k
    && d.taken == (if k < |queue| then k + 1 else k)
  }

  lemma DumpsOneMore(d: Dump, queue: seq<Record>, buf: seq<Byte>, off: nat, k: nat)
    requires 0 < k <= |queue| && off + |Serialize(queue[0])| <= |buf|
    requires Dumps(d, queue[1..], Overwrite(buf, off, Serialize(queue[0])), off + |Serialize(queue[0])|, k - 1)
    requires |Serialize(queue[0])| > 0
    ensures Dumps(d.After(), queue, buf, off, k)
  {
    hide Serialize, SerializeAll, Overwrite;
    SerializeAllFirst(queue, k);
    OverwriteTwice(buf, off, Serialize(queue[0]), SerializeAll(queue[1..][..k - 1]));
  }

  /** One round of the loop when bytes do not fault and sizes fit. */
  lemma DumpFromStep(queue: seq<Record>, buf: seq<Byte>, off: nat, writable: nat)
    requires queue != [] && off <= |buf| <= writable && Fits32(queue[0])
    ensures var one := Serialize(queue[0]);
            DumpFrom(queue, buf, off, writable) ==
            if |buf| - off < |one| then Dump(if off > 0 then off else -EINVAL, buf, 1, 0)
            else if |queue| == 1 then Dump(off + |one|, Overwrite(buf, off, one), 1, 1)
            else DumpFrom(queue[1..], Overwrite(buf, off, one), off + |one|, writable).After()
    ensures var one := Serialize(queue[0]);
            FitCount(queue, |buf| - off) ==
            if |buf| - off < |one| then 0 else 1 + FitCount(queue[1..], |buf| - off - |one|)
  {
    hide Serialize, Emit, RecordLen, Overwrite, Fits32, DumpFrom;
    MeasureAndWriteAgree(queue[0]);
    DumpFromRound(queue, buf, off, writable);
  }

  lemma {:induction false} DumpFromIsGreedy(queue: seq<Record>, buf: seq<Byte>, off: nat, writable: nat)
    requires queue != [] && off <= |buf| <= writable
    requires forall r | r in queue :: Fits32(r)
    ensures Dumps(DumpFrom(queue, buf, off, writable), queue, buf, off, FitCount(queue, |buf| - off))
    decreases |queue|
  {
    hide *;
    DumpFromStep(queue, buf, off, writable);
    var one := Serialize(queue[0]);
    if |buf| - off < |one| {
      NothingDumps(queue, buf, off);
    } else if |queue| == 1 {
      OneRecordDumps(queue, buf, off);
      assert FitCount(queue[1..], |buf| - off - |one|) == 0;
    } else {
      DumpFromIsGreedy(queue[1..], Overwrite(buf, off, one), off + |one|, writable);
      DumpsOneMore(DumpFrom(queue[1..], Overwrite(buf, off, one), off + |one|, writable), queue, buf, off,
                   FitCount(queue, |buf| - off));
    }
  }

  lemma NothingDumps(queue: seq<Record>, buf: seq<Byte>, off: nat)
    requires queue != [] && off <= |buf|
    ensures Dumps(Dump(if off > 0 then off else -EINVAL, buf, 1, 0), queue, buf, off, 0)
  {
    hide Overwrite;
    SerializeNone(queue);
    OverwriteNothing(buf, off);
  }

  lemma OneRecordDumps(queue: seq<Record>, buf: seq<Byte>, off: nat)
    requires |queue| == 1 && off + |Serialize(queue[0])| <= |buf| && |Serialize(queue[0])| > 0
    ensures Dumps(Dump(off + |Serialize(queue[0])|, Overwrite(buf, off, Serialize(queue[0])), 1, 1), queue, buf, off, 1)
  {
    hide Serialize, Overwrite;
    assert queue[..1] == queue && SerializeAll(queue) == Serialize(queue[0]) + [] == Serialize(queue[0]);
  }

  /**
    Greedy packing: a read returns the serialization of the longest prefix of
    the queue that fits, or -EINVAL when that prefix is empty, and leaves the
    rest of the buffer alone. The queue loses that prefix and, when the next
    record did not fit, that record too.
   */
  lemma DumpIsGreedy(queue: seq<Record>, buf: seq<Byte>, k: nat)
    requires queue != [] && (forall r | r in queue :: Fits32(r))
    requires k <= |queue| && |SerializeAll(queue[..k])| <= |buf|
    requires k < |queue| ==> |SerializeAll(queue[..k + 1])| > |buf|
    ensures var d := DumpFrom(queue, buf, 0, |buf|);
            var dumped := SerializeAll(queue[..k]);
            && d.ret == (if k == 0 then -EINVAL else |dumped|)
            && d.buf == dumped + buf[|dumped|..]
            && d.taken == (if k < |queue| then k + 1 else k)
  {
    hide DumpFrom, FitCount, SerializeAll, Serialize, Fits32, RecordLen, Overwrite;
    FitCountIsLongest(queue, |buf|, k);
    if k < |queue| {
      FitCountIsLongest(queue, |buf|, k + 1);
    }
    assert FitCount(queue, |buf|) == k;
    DumpFromIsGreedy(queue, buf, 0, |buf|);
    OverwriteFromStart(buf, SerializeAll(queue[..k]));
  }

  lemma {:induction false} NothingLostFrom(queue: seq<Record>, buf: seq<Byte>, off: nat, writable: nat)
    requires queue != [] && off <= |buf| && off <= writable && (forall r | r in queue :: Fits32(r))
    ensures var d := DumpFrom(queue, buf, off, writable);
            d.ret >= 0 && d.written == d.taken
            <==> off + |SerializeAll(queue)| <= |buf| && off + |SerializeAll(queue)| <= writable
    decreases |queue|
  {
    hide Emit, RecordLen, Overwrite, Serialize, SerializeAll, Fits32, DumpFrom;
    DumpFromRound(queue, buf, off, writable);
    MeasureAndWriteAgree(queue[0]);
    FirstSerialized(queue);
    var r := queue[0];
    if RecordLen(r) <= |buf| - off && off + |Emit(r)| <= writable && |queue| > 1 {
      NothingLostFrom(queue[1..], Overwrite(buf, off, Emit(r)), off + RecordLen(r), writable);
    }
  }

  lemma FirstSerialized(queue: seq<Record>)
    requires queue != []
    ensures |SerializeAll(queue)| == |Serialize(queue[0])| + |SerializeAll(queue[1..])|
    ensures |queue| == 1 ==> SerializeAll(queue[1..]) == []
  {
  }

  /**
    A read takes no record out of the queue that it does not return exactly
    when everything queued fits the buffer and the part of it that does not
    fault: otherwise the record it stopped at is lost.
   */
  lemma ReadLosesNothingIff(queue: seq<Record>, buf: seq<Byte>, writable: nat)
    requires queue != [] && forall r | r in queue :: Fits32(r)
    ensures var d := DumpFrom(queue, buf, 0, writable);
            d.ret >= 0 && d.written == d.taken <==> |SerializeAll(queue)| <= |buf| && |SerializeAll(queue)| <= writable
  {
    NothingLostFrom(queue, buf, 0, writable);
  }

  /** A read that does not fault does what it would do on a buffer that never faults. */
  lemma {:induction false} NoFaultSameDump(queue: seq<Record>, buf: seq<Byte>, off: nat, writable: nat)
    requires queue != [] && off <= |buf|
    requires DumpFrom(queue, buf, off, writable).ret != -EFAULT
    ensures DumpFrom(queue, buf, off, writable) == DumpFrom(queue, buf, off, |buf|)
    decreases |queue|
  {
    hide Emit, RecordLen, Overwrite;
    var r := queue[0];
    if RecordLen(r) <= |buf| - off && |queue| > 1 {
      NoFaultSameDump(queue[1..], Overwrite(buf, off, Emit(r)), off + RecordLen(r), writable);
    }
  }

  /** What a successful read returns is the serialization of the records it counts as written. */
  lemma DumpDelivers(queue: seq<Record>, buf: seq<Byte>, writable: nat)
    requires queue != [] && (forall r | r in queue :: Fits32(r))
    requires DumpFrom(queue, buf, 0, writable).ret >= 0
    ensures var d := DumpFrom(queue, buf, 0, writable);
            d.written <= |queue| && d.buf[..d.ret] == SerializeAll(queue[..d.written])
  {
    NoFaultSameDump(queue, buf, 0, writable);
    DumpFromIsGreedy(queue, buf, 0, |buf|);
    hide DumpFrom, FitCount, SerializeAll, Fits32, Overwrite;
    var dumped := SerializeAll(queue[..FitCount(queue, |buf|)]);
    OverwriteFromStart(buf, dumped);
    assert (dumped + buf[|dumped|..])[..|dumped|] == dumped;
  }

  /** A read that gets to record k and cannot write it whole returns -EFAULT and has taken the first k records. */
  lemma {:induction false} FaultsFrom(queue: seq<Record>, buf: seq<Byte>, off: nat, writable: nat, k: nat)
    requires 0 < k <= |queue| && off <= |buf| && (forall r | r in queue :: Fits32(r))
    requires off + |SerializeAll(queue[..k])| <= |buf| && off + |SerializeAll(queue[..k])| > writable
    requires off + |SerializeAll(queue[..k - 1])| <= writable
    ensures var d := DumpFrom(queue, buf, off, writable); d.ret == -14 && d.taken == k && d.written == k - 1
    decreases |queue|
  {
    hide Emit, RecordLen, Overwrite, Serialize, SerializeAll, Fits32, DumpFrom;
    DumpFromRound(queue, buf, off, writable);
    MeasureAndWriteAgree(queue[0]);
    SerializeAllFirst(queue, k);
    if k == 1 {
      SerializeNone(queue[1..]);
      SerializeNone(queue);
    } else {
      SerializeAllFirst(queue, k - 1);
      FaultsFrom(queue[1..], Overwrite(buf, off, Emit(queue[0])), off + RecordLen(queue[0]), writable, k - 1);
    }
  }

  /** A read whose records that fit the buffer can be written does not fault. */
  lemma {:induction false} DoesNotFaultFrom(queue: seq<Record>, buf: seq<Byte>, off: nat, writable: nat)
    requires queue != [] && off <= |buf| && (forall r | r in queue :: Fits32(r))
    requires off + |SerializeAll(queue[..FitCount(queue, |buf| - off)])| <= writable
    ensures DumpFrom(queue, buf, off, writable).ret != -14
    decreases |queue|
  {
    hide Emit, RecordLen, Overwrite, Serialize, SerializeAll, Fits32, DumpFrom;
    DumpFromRound(queue, buf, off, writable);
    MeasureAndWriteAgree(queue[0]);
    if |buf| - off >= RecordLen(queue[0]) {
      SerializeAllFirst(queue, FitCount(queue, |buf| - off));
      if |queue| > 1 {
        DoesNotFaultFrom(queue[1..], Overwrite(buf, off, Emit(queue[0])), off + RecordLen(queue[0]), writable);
      }
    }
  }

  /**
    A read faults if and only if some record that fits the buffer reaches into
    the part of it that faults; then the queue has lost that record and those
    before it.
   */
  lemma ReadFaultsIff(queue: seq<Record>, buf: seq<Byte>, writable: nat, k: nat)
    requires queue != [] && forall r | r in queue :: Fits32(r)
    requires k <= |queue| && |SerializeAll(queue[..k])| <= |buf| && |SerializeAll(queue[..k])| <= writable
    requires k < |queue| ==>
               |SerializeAll(queue[..k + 1])| > |buf| || |SerializeAll(queue[..k + 1])| > writable
    ensures var d := DumpFrom(queue, buf, 0, writable);
            if k < |queue| && |SerializeAll(queue[..k + 1])| <= |buf|
            then d.ret == -14 && d.taken == k + 1
            else d.ret == (if k == 0 then -22 else |SerializeAll(queue[..k])|)
                 && d.taken == (if k < |queue| then k + 1 else k)
  {
    hide DumpFrom, FitCount, SerializeAll, Serialize, Fits32, RecordLen, Overwrite;
    if k < |queue| && |SerializeAll(queue[..k + 1])| <= |buf| {
      FaultsFrom(queue, buf, 0, writable, k + 1);
    } else {
      FitCountIsLongest(queue, |buf|, k);
      if k < |queue| {
        FitCountIsLongest(queue, |buf|, k + 1);
      }
      DoesNotFaultFrom(queue, buf, 0, writable);
      NoFaultSameDump(queue, buf, 0, writable);
      DumpIsGreedy(queue, buf, k);
    }
  }
}
