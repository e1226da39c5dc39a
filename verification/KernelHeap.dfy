/**
  The recorder's heap blocks: struct syscall_record with its list of copies,
  and struct copy_record_element. Every live copy belongs to one record's list
  or to none, which only the pending copy does.
 */
module KernelHeap {
  import opened Bytes
  import opened Format

  /** An address; 0 is NULL. */
  type Ptr = U64

  datatype RecordStruct = RecordStruct(regs: WordRegisters, ret: U64, amount: nat, list: seq<Ptr>)

  type Records = map<Ptr, RecordStruct>
  type Copies = map<Ptr, Copy>
  type Owners = map<Ptr, Ptr>

  ghost predicate NoDup(l: seq<Ptr>) {
    forall i, j | 0 <= i < j < |l| :: l[i] != l[j]
  }

  /** amount_of_copies is the list's length, and the list's elements are live, distinct and owned by r. */
  ghost predicate ListOk(r: Ptr, rs: RecordStruct, copies: Copies, owner: Owners) {
    && rs.amount == |rs.list|
    && NoDup(rs.list)
    && forall c | c in rs.list :: c in copies && c in owner && owner[c] == r
  }

  ghost predicate HeapOk(records: Records, copies: Copies, owner: Owners) {
    && 0 !in records && 0 !in copies
    && owner.Keys == copies.Keys
    && (forall r | r in records :: ListOk(r, records[r], copies, owner))
    && (forall c | c in copies && owner[c] != 0 :: owner[c] in records && c in records[owner[c]].list)
  }

  ghost function Contents(copies: Copies, list: seq<Ptr>): (cs: seq<Copy>)
    requires forall c | c in list :: c in copies
    ensures |cs| == |list|
    ensures forall i | 0 <= i < |list| :: cs[i] == copies[list[i]]
  {
    seq(|list|, i requires 0 <= i < |list| && list[i] in copies => copies[list[i]])
  }

  /** The record block and everything on its list is live. */
  ghost predicate Live(records: Records, copies: Copies, r: Ptr) {
    r in records && forall c | c in records[r].list :: c in copies
  }

  /** The value a record block stands for. */
  ghost function RecordOf(records: Records, copies: Copies, r: Ptr): Record
    requires Live(records, copies, r)
  {
    Record(records[r].regs, records[r].ret, Contents(copies, records[r].list))
  }

  /** Record r stands for the same value in both heaps. */
  ghost predicate Same(records: Records, copies: Copies, records': Records, copies': Copies, r: Ptr)
    requires Live(records, copies, r)
  {
    && Live(records', copies', r)
    && RecordOf(records', copies', r) == RecordOf(records, copies, r)
  }

  ghost function QueueOf(records: Records, copies: Copies, queued: seq<Ptr>): (q: seq<Record>)
    requires forall r | r in queued :: Live(records, copies, r)
    ensures |q| == |queued|
    ensures forall i | 0 <= i < |q| :: q[i] == RecordOf(records, copies, queued[i])
  {
    seq(|queued|, i requires 0 <= i < |queued| && Live(records, copies, queued[i]) =>
      RecordOf(records, copies, queued[i]))
  }

  /** A heap change that keeps the queued records keeps the queue. */
  lemma SameQueue(records: Records, copies: Copies, records': Records, copies': Copies, queued: seq<Ptr>)
    requires forall r | r in queued :: Live(records, copies, r) && Same(records, copies, records', copies', r)
    ensures forall r | r in queued :: Live(records', copies', r)
    ensures QueueOf(records', copies', queued) == QueueOf(records, copies, queued)
  {
    hide Contents;
    forall r | r in queued
      ensures Live(records', copies', r)
    {
      assert Same(records, copies, records', copies', r);
    }
    forall i | 0 <= i < |queued|
      ensures QueueOf(records', copies', queued)[i] == QueueOf(records, copies, queued)[i]
    {
      assert Same(records, copies, records', copies', queued[i]);
    }
  }

  lemma QueueAppend(records: Records, copies: Copies, queued: seq<Ptr>, r: Ptr)
    requires (forall q | q in queued :: Live(records, copies, q)) && Live(records, copies, r)
    ensures forall q | q in queued + [r] :: Live(records, copies, q)
    ensures QueueOf(records, copies, queued + [r]) == QueueOf(records, copies, queued) + [RecordOf(records, copies, r)]
  {
  }

  lemma QueueTail(records: Records, copies: Copies, queued: seq<Ptr>)
    requires queued != [] && forall q | q in queued :: Live(records, copies, q)
    ensures QueueOf(records, copies, queued[1..]) == QueueOf(records, copies, queued)[1..]
  {
    hide Live, RecordOf;
    assert forall q | q in queued[1..] :: q in queued;
  }

  lemma KeysAgree(records: Records, copies: Copies, owner: Owners)
    requires HeapOk(records, copies, owner)
    ensures owner.Keys == copies.Keys && 0 !in records && 0 !in copies
  {
  }

  lemma AllLive(records: Records, copies: Copies, owner: Owners)
    requires HeapOk(records, copies, owner)
    ensures forall r | r in records :: Live(records, copies, r)
  {
    forall r | r in records
      ensures Live(records, copies, r)
    {
      assert ListOk(r, records[r], copies, owner);
    }
  }

  /** A fresh block that no list holds yet. */
  lemma NewCopy(records: Records, copies: Copies, owner: Owners, c: Ptr, value: Copy)
    requires HeapOk(records, copies, owner) && c != 0 && (c !in copies || owner[c] == 0)
    ensures HeapOk(records, copies[c := value], owner[c := 0])
    ensures forall r | r in records :: Live(records, copies, r) && Same(records, copies, records, copies[c := value], r)
  {
    forall r | r in records
      ensures ListOk(r, records[r], copies, owner) && ListOk(r, records[r], copies[c := value], owner[c := 0])
      ensures Same(records, copies, records, copies[c := value], r)
    {
      assert r != 0;
      assert ListOk(r, records[r], copies, owner);
      assert Contents(copies[c := value], records[r].list) == Contents(copies, records[r].list);
    }
  }

  /** Freeing the block that no list holds. */
  lemma DropCopy(records: Records, copies: Copies, owner: Owners, c: Ptr)
    requires HeapOk(records, copies, owner) && c in copies && owner[c] == 0
    ensures HeapOk(records, copies - {c}, owner - {c})
    ensures forall r | r in records :: Live(records, copies, r) && Same(records, copies, records, copies - {c}, r)
  {
    forall r | r in records
      ensures ListOk(r, records[r], copies, owner) && ListOk(r, records[r], copies - {c}, owner - {c})
      ensures Same(records, copies, records, copies - {c}, r)
    {
      assert r != 0;
      assert ListOk(r, records[r], copies, owner);
      assert Contents(copies - {c}, records[r].list) == Contents(copies, records[r].list);
    }
  }

  function Appended(rs: RecordStruct, c: Ptr): RecordStruct {
    rs.(amount := rs.amount + 1, list := rs.list + [c])
  }

  /** list_add_tail with the counter: the block moves into r's list. */
  lemma AppendCopy(records: Records, copies: Copies, owner: Owners, r: Ptr, c: Ptr)
    requires HeapOk(records, copies, owner) && r in records && c in copies && owner[c] == 0
    ensures Live(records, copies, r)
    ensures var records' := records[r := Appended(records[r], c)];
            && HeapOk(records', copies, owner[c := r])
            && Live(records', copies, r)
            && RecordOf(records', copies, r) ==
               RecordOf(records, copies, r).(copies := RecordOf(records, copies, r).copies + [copies[c]])
            && forall q | q in records && q != r ::
                 Live(records, copies, q) && Same(records, copies, records', copies, q)
  {
    var records' := records[r := Appended(records[r], c)];
    forall q | q in records
      ensures ListOk(q, records[q], copies, owner) && ListOk(q, records'[q], copies, owner[c := r])
    {
      assert q != 0;
      assert ListOk(q, records[q], copies, owner);
    }
    assert Contents(copies, records'[r].list) == Contents(copies, records[r].list) + [copies[c]];
  }

  /** A fresh block put straight into r's list. */
  lemma AppendFresh(records: Records, copies: Copies, owner: Owners, r: Ptr, c: Ptr, value: Copy)
    requires HeapOk(records, copies, owner) && r in records && c != 0 && c !in copies
    ensures Live(records, copies, r)
    ensures var records' := records[r := Appended(records[r], c)];
            var copies' := copies[c := value];
            && HeapOk(records', copies', owner[c := r])
            && Live(records', copies', r)
            && RecordOf(records', copies', r) ==
               RecordOf(records, copies, r).(copies := RecordOf(records, copies, r).copies + [value])
            && forall q | q in records && q != r ::
                 Live(records, copies, q) && Same(records, copies, records', copies', q)
  {
    hide RecordOf, ListOk;
    NewCopy(records, copies, owner, c, value);
    assert Same(records, copies, records, copies[c := value], r);
    AppendCopy(records, copies[c := value], owner[c := 0], r, c);
    assert owner[c := 0][c := r] == owner[c := r];
    forall q | q in records && q != r
      ensures Live(records, copies, q)
      ensures Same(records, copies, records[r := Appended(records[r], c)], copies[c := value], q)
    {
      assert Same(records, copies, records, copies[c := value], q);
    }
  }

  /** A fresh record with an empty list. */
  lemma NewRecord(records: Records, copies: Copies, owner: Owners, r: Ptr, regs: WordRegisters, ret: U64)
    requires HeapOk(records, copies, owner) && r != 0 && r !in records
    ensures var records' := records[r := RecordStruct(regs, ret, 0, [])];
            && HeapOk(records', copies, owner)
            && Live(records', copies, r) && RecordOf(records', copies, r) == Record(regs, ret, [])
            && forall q | q in records :: Live(records, copies, q) && Same(records, copies, records', copies, q)
  {
    var records' := records[r := RecordStruct(regs, ret, 0, [])];
    forall q | q in records
      ensures ListOk(q, records[q], copies, owner) && ListOk(q, records'[q], copies, owner)
      ensures Same(records, copies, records', copies, q)
    {
    }
    assert ListOk(r, records'[r], copies, owner);
  }

  /** Storing the return value changes nothing else. */
  lemma SetReturn(records: Records, copies: Copies, owner: Owners, r: Ptr, ret: U64)
    requires HeapOk(records, copies, owner) && r in records
    ensures Live(records, copies, r)
    ensures var records' := records[r := records[r].(ret := ret)];
            && HeapOk(records', copies, owner)
            && Live(records', copies, r)
            && RecordOf(records', copies, r) == RecordOf(records, copies, r).(ret := ret)
            && forall q | q in records && q != r ::
                 Live(records, copies, q) && Same(records, copies, records', copies, q)
  {
    var records' := records[r := records[r].(ret := ret)];
    forall q | q in records
      ensures ListOk(q, records[q], copies, owner) && ListOk(q, records'[q], copies, owner)
    {
    }
  }

  ghost function Elements(l: seq<Ptr>): set<Ptr> {
    set c | c in l
  }

  /** Freeing a record and its whole list leaves every other record whole. */
  lemma DropRecord(records: Records, copies: Copies, owner: Owners, r: Ptr)
    requires HeapOk(records, copies, owner) && r in records
    ensures var gone := Elements(records[r].list);
            && HeapOk(records - {r}, copies - gone, owner - gone)
            && forall q | q in records && q != r ::
                 Live(records, copies, q) && Same(records, copies, records - {r}, copies - gone, q)
  {
    var gone := Elements(records[r].list);
    assert ListOk(r, records[r], copies, owner);
    forall q | q in records && q != r
      ensures ListOk(q, records[q], copies, owner) && ListOk(q, records[q], copies - gone, owner - gone)
      ensures Same(records, copies, records - {r}, copies - gone, q)
    {
      assert ListOk(q, records[q], copies, owner);
      forall c | c in records[q].list
        ensures c !in gone
      {
        assert owner[c] == q;
      }
      assert Contents(copies - gone, records[q].list) == Contents(copies, records[q].list);
    }
    forall c | c in copies - gone && owner[c] != 0
      ensures owner[c] in records - {r} && c in records[owner[c]].list
    {
    }
  }
}
