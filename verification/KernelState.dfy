/**
  The recorder's globals as one value: what makes them consistent, what they
  stand for, and how each change of the heap shows in the abstract state.
 */
module KernelState {
  import opened Bytes
  import opened Format
  import opened Wrappers
  import opened RecorderSpec
  import opened DumperSpec
  import opened KernelHeap

  /** Each live record has exactly one holder: the current pointer, one FIFO slot, or none any more. */
  ghost predicate RootsOk(records: set<Ptr>, current: Ptr, queued: seq<Ptr>, leaked: set<Ptr>) {
    && records == (if current == 0 then {} else {current}) + Elements(queued) + leaked
    && current !in queued && current !in leaked
    && NoDup(queued) && Elements(queued) !! leaked
  }

  /** The FIFO holds whole pointers, at most 4096 of them. */
  ghost predicate FifoOk(fifo: seq<Byte>, queued: seq<Ptr>) {
    fifo == EncodeWords(queued) && |queued| <= QUEUE_CAPACITY
  }

  /** The pending copy is the one live block no list holds, and needs a current record. */
  ghost predicate PendingOk(current: Ptr, pending: Ptr, owner: Owners) {
    && (pending != 0 ==> current != 0 && pending in owner && owner[pending] == 0)
    && (forall c | c in owner && owner[c] == 0 :: c == pending)
  }

  datatype Globals = Globals(
    current: Ptr, pending: Ptr, fifo: seq<Byte>, records: Records, copies: Copies,
    owner: Owners, queued: seq<Ptr>, leaked: set<Ptr>)
  {
    ghost predicate Valid() {
      && HeapOk(records, copies, owner)
      && RootsOk(records.Keys, current, queued, leaked)
      && FifoOk(fifo, queued)
      && PendingOk(current, pending, owner)
    }

    lemma RootsAreLive()
      requires HeapOk(records, copies, owner) && RootsOk(records.Keys, current, queued, leaked)
      ensures forall r | r in queued :: r in records && r != current && Live(records, copies, r)
      ensures current != 0 ==> current in records && Live(records, copies, current)
    {
      AllLive(records, copies, owner);
      assert forall r | r in queued :: r in Elements(queued);
    }

    ghost function View(pid: int): State
      requires Valid()
    {
      RootsAreLive();
      KeysAgree(records, copies, owner);
      State(pid,
            if current == 0 then None else Some(RecordOf(records, copies, current)),
            if pending == 0 then None else Some(copies[pending]),
            QueueOf(records, copies, queued))
    }
  }

  /** Consistent memory: every block is held exactly once, counters count, and the FIFO holds whole pointers. */
  lemma EveryBlockHasOneHolder(g: Globals)
    requires g.Valid()
    ensures g.pending != 0 ==> g.current != 0 && g.pending in g.copies
    ensures forall c | c in g.copies :: (c == g.pending) != (exists r :: r in g.records && c in g.records[r].list)
    ensures forall c, r, q |
              r in g.records && q in g.records && c in g.records[r].list && c in g.records[q].list :: r == q
    ensures forall r | r in g.records ::
              g.records[r].amount == |g.records[r].list| && NoDup(g.records[r].list)
              && forall c | c in g.records[r].list :: c in g.copies
    ensures forall r | r in g.records :: HeldOnce(g, r)
    ensures |g.fifo| == 8 * |g.queued| && |g.fifo| <= FIFO_SIZE
  {
    forall r | r in g.records
      ensures ListOk(r, g.records[r], g.copies, g.owner) && HeldOnce(g, r)
    {
      assert r in g.queued <==> r in Elements(g.queued);
    }
  }

  /** The record is the current one, in one slot of the FIFO, or leaked. */
  ghost predicate HeldOnce(g: Globals, r: Ptr) {
    && (r == g.current || r in g.queued || r in g.leaked)
    && !(r == g.current && r in g.queued) && !(r == g.current && r in g.leaked) && !(r in g.queued && r in g.leaked)
    && NoDup(g.queued)
  }

  lemma OwnersAreKeys(g: Globals)
    requires g.Valid()
    ensures g.owner.Keys == g.copies.Keys && 0 !in g.records && 0 !in g.copies
  {
  }

  /** A fresh block goes straight to the end of the current record's list. */
  lemma AppendNewBlock(g: Globals, pid: int, block: Ptr, value: Copy)
    requires g.Valid() && g.current != 0 && block != 0 && block !in g.copies
    ensures g.current in g.records
    ensures var g' := g.(copies := g.copies[block := value],
                         records := g.records[g.current := Appended(g.records[g.current], block)],
                         owner := g.owner[block := g.current]);
            g'.Valid() && g'.View(pid) == AddCopies(g.View(pid), [value])
  {
    hide HeapOk, RootsOk, FifoOk, RecordOf, Live, QueueOf;
    OwnersAreKeys(g);
    g.RootsAreLive();
    var records' := g.records[g.current := Appended(g.records[g.current], block)];
    AppendFresh(g.records, g.copies, g.owner, g.current, block, value);
    SameQueue(g.records, g.copies, records', g.copies[block := value], g.queued);
    assert records'.Keys == g.records.Keys;
  }

  /** A fresh record becomes the current one. */
  lemma StartRecord(g: Globals, pid: int, block: Ptr, regs: WordRegisters, junk: U64)
    requires g.Valid() && g.current == 0 && block != 0 && block !in g.records
    ensures var g' := g.(current := block, records := g.records[block := RecordStruct(regs, junk, 0, [])]);
            g'.Valid() && g'.View(pid) == g.View(pid).(current := Some(Record(regs, junk, [])))
  {
    g.RootsAreLive();
    NewRecord(g.records, g.copies, g.owner, block, regs, junk);
    SameQueue(g.records, g.copies, g.records[block := RecordStruct(regs, junk, 0, [])], g.copies, g.queued);
    hide HeapOk, RecordOf, Same, Live, QueueOf;
  }

  lemma ReturnStored(g: Globals, pid: int, ax: U64)
    requires g.Valid() && g.current != 0
    ensures g.current in g.records
    ensures var g' := g.(records := g.records[g.current := g.records[g.current].(ret := ax)]);
            && g'.Valid()
            && g'.View(pid) == g.View(pid).(current := Some(g.View(pid).current.value.(ret := ax)))
  {
    g.RootsAreLive();
    var records' := g.records[g.current := g.records[g.current].(ret := ax)];
    SetReturn(g.records, g.copies, g.owner, g.current, ax);
    SameQueue(g.records, g.copies, records', g.copies, g.queued);
    hide HeapOk, RecordOf, Same, Live, QueueOf;
    assert records'.Keys == g.records.Keys;
  }

  /** The current pointer moves into the FIFO. */
  lemma Enqueued(g: Globals, pid: int)
    requires g.Valid() && g.current != 0 && g.pending == 0 && |g.queued| < QUEUE_CAPACITY
    ensures var g' := g.(current := 0, fifo := g.fifo + EncodeWord(g.current), queued := g.queued + [g.current]);
            && g'.Valid()
            && g'.View(pid) == g.View(pid).(current := None, queue := g.View(pid).queue + [g.View(pid).current.value])
  {
    g.RootsAreLive();
    EncodeWordsAppend(g.queued, g.current);
    QueueAppend(g.records, g.copies, g.queued, g.current);
    hide HeapOk, RecordOf, Live, QueueOf, EncodeWords, EncodeWord;
    assert Elements(g.queued + [g.current]) == Elements(g.queued) + {g.current};
  }

  /** The current record and its copies are gone. */
  lemma CurrentFreed(g: Globals, pid: int)
    requires g.Valid() && g.current != 0 && g.pending == 0
    ensures g.current in g.records && ListOk(g.current, g.records[g.current], g.copies, g.owner)
    ensures var gone := Elements(g.records[g.current].list);
            var g' := g.(current := 0, records := g.records - {g.current}, copies := g.copies - gone,
                         owner := g.owner - gone);
            g'.Valid() && g'.View(pid) == g.View(pid).(current := None)
  {
    g.RootsAreLive();
    var gone := Elements(g.records[g.current].list);
    DropRecord(g.records, g.copies, g.owner, g.current);
    SameQueue(g.records, g.copies, g.records - {g.current}, g.copies - gone, g.queued);
    hide RecordOf, Same, Live, QueueOf;
  }

  /** A block no list holds becomes, or stays, the pending copy, with the given value. */
  lemma PendingSet(g: Globals, pid: int, block: Ptr, value: Copy)
    requires g.Valid() && g.current != 0 && block != 0
    requires if g.pending == 0 then block !in g.copies else block == g.pending
    ensures var g' := g.(pending := block, copies := g.copies[block := value], owner := g.owner[block := 0]);
            g'.Valid() && g'.View(pid) == g.View(pid).(pending := Some(value))
  {
    hide HeapOk, RootsOk, FifoOk, RecordOf, Live, QueueOf;
    OwnersAreKeys(g);
    g.RootsAreLive();
    NewCopy(g.records, g.copies, g.owner, block, value);
    SameQueue(g.records, g.copies, g.records, g.copies[block := value], g.queued);
    assert Same(g.records, g.copies, g.records, g.copies[block := value], g.current);
  }

  /** The pending copy moves to the end of the current record's list. */
  lemma PendingKept(g: Globals, pid: int)
    requires g.Valid() && g.current != 0 && g.pending != 0
    ensures g.current in g.records
    ensures var g' := g.(pending := 0, owner := g.owner[g.pending := g.current],
                         records := g.records[g.current := Appended(g.records[g.current], g.pending)]);
            && g'.Valid()
            && g'.View(pid) == AddCopies(g.View(pid), [g.View(pid).pending.value]).(pending := None)
  {
    g.RootsAreLive();
    var records' := g.records[g.current := Appended(g.records[g.current], g.pending)];
    AppendCopy(g.records, g.copies, g.owner, g.current, g.pending);
    SameQueue(g.records, g.copies, records', g.copies, g.queued);
    hide HeapOk, RecordOf, Same, Live, QueueOf;
    assert records'.Keys == g.records.Keys;
  }

  lemma PendingFreed(g: Globals, pid: int)
    requires g.Valid() && g.pending != 0
    ensures g.pending in g.copies
    ensures var g' := g.(pending := 0, copies := g.copies - {g.pending}, owner := g.owner - {g.pending});
            g'.Valid() && g'.View(pid) == g.View(pid).(pending := None)
  {
    g.RootsAreLive();
    DropCopy(g.records, g.copies, g.owner, g.pending);
    SameQueue(g.records, g.copies, g.records, g.copies - {g.pending}, g.queued);
    assert g.current != 0 ==> Same(g.records, g.copies, g.records, g.copies - {g.pending}, g.current);
    hide HeapOk, RecordOf, Live, QueueOf;
  }

  /** The head of the FIFO is the first queued pointer, and dequeuing it leaves the others. */
  lemma HeadOfFifo(g: Globals)
    requires g.Valid() && g.queued != []
    ensures |g.fifo| >= 8 && DecodeWord(g.fifo[..8]) == g.queued[0] && g.fifo[8..] == EncodeWords(g.queued[1..])
    ensures g.queued[0] in g.records && ListOk(g.queued[0], g.records[g.queued[0]], g.copies, g.owner)
  {
    DecodeOfEncode(g.queued[0]);
    hide EncodeWord, DecodeWord;
    assert g.fifo[..8] == EncodeWord(g.queued[0]) && g.fifo[8..] == EncodeWords(g.queued[1..]);
    assert g.queued[0] in Elements(g.queued);
  }

  /** The head of the FIFO stands for the head of the queue, and can be freed. */
  lemma HeadOfQueue(g: Globals, pid: int)
    requires g.Valid() && |g.View(pid).queue| > 0
    ensures g.queued != [] && g.queued[0] in g.records && Live(g.records, g.copies, g.queued[0])
    ensures RecordOf(g.records, g.copies, g.queued[0]) == g.View(pid).queue[0] && g.queued[0] !in g.leaked
    ensures var rs := g.records[g.queued[0]];
            rs.amount == |rs.list| && NoDup(rs.list) && forall c | c in rs.list :: c in g.copies
  {
    g.RootsAreLive();
    HeadOfFifo(g);
    assert g.queued[0] in Elements(g.queued);
  }

  lemma TailElements(q: seq<Ptr>)
    requires q != [] && NoDup(q)
    ensures NoDup(q[1..]) && Elements(q[1..]) == Elements(q) - {q[0]} && q[0] !in q[1..]
  {
    forall r | r in Elements(q) - {q[0]}
      ensures r in q[1..]
    {
      var i :| 0 <= i < |q| && q[i] == r;
      assert q[1..][i - 1] == r;
    }
  }

  /** The globals after the head record is dequeued and freed. */
  ghost function WithoutHead(g: Globals): Globals
    requires g.queued != [] && g.queued[0] in g.records
  {
    var r := g.queued[0];
    var gone := Elements(g.records[r].list);
    g.(fifo := EncodeWords(g.queued[1..]), queued := g.queued[1..], records := g.records - {r},
       copies := g.copies - gone, owner := g.owner - gone)
  }

  lemma HeadFreedKeepsValid(g: Globals)
    requires g.Valid() && g.queued != []
    ensures g.queued[0] in g.records && WithoutHead(g).Valid()
  {
    g.RootsAreLive();
    var r := g.queued[0];
    assert r in g.queued;
    DropRecord(g.records, g.copies, g.owner, r);
    HeadRootsGone(g);
    if g.pending != 0 {
      PendingNotListed(g, r);
    }
    var g' := WithoutHead(g);
    assert PendingOk(g'.current, g'.pending, g'.owner);
    assert g'.records.Keys == g.records.Keys - {r};
    hide HeapOk, RecordOf, Live, EncodeWords, RootsOk, PendingOk;
  }

  /** Dequeued and freed. */
  lemma HeadFreed(g: Globals, pid: int)
    requires g.Valid() && g.queued != []
    ensures g.queued[0] in g.records
    ensures WithoutHead(g).Valid() && WithoutHead(g).View(pid) == g.View(pid).(queue := g.View(pid).queue[1..])
  {
    HeadFreedKeepsValid(g);
    g.RootsAreLive();
    if g.pending != 0 {
      PendingNotListed(g, g.queued[0]);
    }
    DropRecord(g.records, g.copies, g.owner, g.queued[0]);
    QueueTail(g.records, g.copies, g.queued);
    HeadRootsGone(g);
    var g' := WithoutHead(g);
    hide HeapOk, RootsOk, PendingOk, FifoOk, RecordOf, Live, QueueOf, EncodeWords, NoDup, Elements;
    hide Globals.Valid;
    assert forall q | q in g.queued[1..] :: q in g.queued;
    SameQueue(g.records, g.copies, g'.records, g'.copies, g.queued[1..]);
    assert g.current != 0 ==> Same(g.records, g.copies, g'.records, g'.copies, g.current);
  }

  /** Without its head the queue still has each live record held once. */
  lemma HeadRootsGone(g: Globals)
    requires g.Valid() && g.queued != []
    ensures RootsOk(g.records.Keys - {g.queued[0]}, g.current, g.queued[1..], g.leaked)
    ensures RootsOk(g.records.Keys, g.current, g.queued[1..], g.leaked + {g.queued[0]})
    ensures g.queued[0] != g.current && g.queued[0] !in g.queued[1..]
  {
    hide HeapOk, EncodeWords;
    assert g.queued[0] in Elements(g.queued);
    TailElements(g.queued);
    hide NoDup;
    assert g.current !in g.queued[1..];
  }

  lemma PendingNotListed(g: Globals, r: Ptr)
    requires g.Valid() && r in g.records && g.pending != 0
    ensures g.pending !in g.records[r].list
  {
    assert ListOk(r, g.records[r], g.copies, g.owner);
  }

  /** Dequeued and never freed: the record is leaked. */
  lemma HeadLeaked(g: Globals, pid: int)
    requires g.Valid() && g.queued != []
    ensures var g' := g.(fifo := EncodeWords(g.queued[1..]), queued := g.queued[1..],
                         leaked := g.leaked + {g.queued[0]});
            g'.Valid() && g'.View(pid) == g.View(pid).(queue := g.View(pid).queue[1..])
  {
    g.RootsAreLive();
    QueueTail(g.records, g.copies, g.queued);
    HeadRootsGone(g);
    hide HeapOk, RootsOk, PendingOk, RecordOf, Live, QueueOf, EncodeWords;
  }

  /** s is s0 with the first n records gone from the queue. */
  ghost predicate WithoutFirst(s0: State, s: State, n: nat) {
    n <= |s0.queue| && s == s0.(queue := s0.queue[n..])
  }

  /** In the middle of dump_records, `at` bytes written: what is left to do leads to the outcome `whole`. */
  ghost predicate Midway(s0: State, whole: Dump, writable: nat, s: State, buf: seq<Byte>, at: nat) {
    && |s.queue| <= |s0.queue|
    && var n := |s0.queue| - |s.queue|;
       WithoutFirst(s0, s, n) && Continues(whole, s0.queue, writable, n, buf, at)
  }

  /** dump_records is over with return value ret, stopped by a record that did not fit or not. */
  ghost predicate Dumped(s0: State, whole: Dump, s: State, ret: int, buf: seq<Byte>, short: bool) {
    && (short <==> whole.StoppedShort())
    && whole.taken <= |s0.queue| && WithoutFirst(s0, s, whole.taken)
    && ret == whole.ret && (ret >= 0 ==> buf == whole.buf)
  }

  lemma DumpedShort(s0: State, whole: Dump, s: State, ret: int, buf: seq<Byte>, short: bool)
    requires Dumped(s0, whole, s, ret, buf, short)
    ensures short <==> whole.StoppedShort()
  {
  }

  /** One round of the loop, from what dump_single_record did to it. */
  lemma NextRound(s0: State, whole: Dump, writable: nat, s: State, buf: seq<Byte>, at: nat, s': State,
                  buf': seq<Byte>, ret: int)
    requires Midway(s0, whole, writable, s, buf, at) && s.queue != []
    requires s' == s.(queue := s.queue[1..]) && Single(s.queue[0], buf, buf', at, writable, ret)
    ensures ret == -SHORT_WRITE_ERROR ==> Dumped(s0, whole, s', if at > 0 then at else -EINVAL, buf', true)
    ensures ret == -GENERAL_DUMP_ERROR ==> Dumped(s0, whole, s', -EFAULT, buf', false)
    ensures ret != -SHORT_WRITE_ERROR && ret != -GENERAL_DUMP_ERROR ==>
              && 0 < ret && at + ret <= |buf'|
              && if s'.queue == [] then Dumped(s0, whole, s', at + ret, buf', false)
                 else Midway(s0, whole, writable, s', buf', at + ret)
  {
    hide Continues, Single;
    var n := |s0.queue| - |s.queue|;
    assert s0.queue[n..][1..] == s0.queue[n + 1..] && s0.queue[n..][0] == s0.queue[n];
    RoundOf(whole, s0.queue, writable, n, buf, at, buf', ret);
  }

  lemma DumpStarts(s: State, buf: seq<Byte>, writable: nat)
    requires s.queue != []
    ensures Midway(s, DumpFrom(s.queue, buf, 0, writable), writable, s, buf, 0)
  {
    assert s.queue[0..] == s.queue;
  }
}
