/**
  Reading and writing a stopped process one eight-byte word at a time:
  write_buffer_to_tracee, read_from_tracee and the list of writes that
  recreates a call's memory copies.
 */
module TraceeMemory {
  import opened Bytes
  import opened Memory
  import opened Format
  import opened Wrappers

  /** length rounded up to whole words: what a word-wise access of that length touches. */
  function WholeWords(length: int): (n: nat)
    ensures length <= n && n % 8 == 0
    ensures length > 0 ==> n < length + 8
  {
    if length <= 0 then 0 else (length + 7) / 8 * 8
  }

  function NonNegative(n: int): nat {
    if n < 0 then 0 else n
  }

  /** Whether a word-wise access of `length` bytes at `at` meets no unmapped word. */
  ghost predicate Accessible(m: Mem, at: int, length: int) {
    Mapped(m, at, WholeWords(length))
  }

  /** How many bytes a word-wise write of `length` bytes gets to, up to the first unmapped word. */
  function BytesReached(m: Mem, at: int, length: int): (n: nat)
    ensures n <= NonNegative(length)
    decreases NonNegative(length)
  {
    if length <= 0 || !WordMapped(m, at) then 0
    else if length < 8 then length
    else 8 + BytesReached(m, at + 8, length - 8)
  }

  lemma ReachedStep(m: Mem, at: int, length: int)
    ensures BytesReached(m, at, length) ==
            if length <= 0 || !Mapped(m, at, 8) then 0
            else if length < 8 then length
            else 8 + BytesReached(m, at + 8, length - 8)
  {
  }

  /** It gets to the end exactly when every word it touches is mapped. */
  lemma {:induction false} ReachedAllIff(m: Mem, at: int, length: int)
    ensures BytesReached(m, at, length) == NonNegative(length) <==> Accessible(m, at, length)
    decreases NonNegative(length)
  {
    if length >= 8 {
      ReachedAllIff(m, at + 8, length - 8);
      assert Accessible(m, at, length) <==> Mapped(m, at, 8) && Accessible(m, at + 8, length - 8);
    }
  }

  /** Otherwise it stops at the first word that is not mapped, having written the whole words before it. */
  lemma {:induction false} StopsAtUnmapped(m: Mem, at: int, length: int)
    requires BytesReached(m, at, length) < NonNegative(length)
    ensures var n := BytesReached(m, at, length); n % 8 == 0 && Mapped(m, at, n) && !Mapped(m, at + n, 8)
    decreases NonNegative(length)
  {
    hide BytesReached, Mapped;
    ReachedStep(m, at, length);
    if length >= 8 && Mapped(m, at, 8) {
      StopsAtUnmapped(m, at + 8, length - 8);
    }
    MappedParts(m, at, BytesReached(m, at, length));
  }

  lemma MappedParts(m: Mem, at: int, n: nat)
    ensures Mapped(m, at, 0) && (n >= 8 && Mapped(m, at, 8) && Mapped(m, at + 8, n - 8) ==> Mapped(m, at, n))
  {
  }

  lemma {:induction false} ReachedOnly(m: Mem, m': Mem, at: int, length: int)
    requires m.Keys == m'.Keys
    ensures BytesReached(m, at, length) == BytesReached(m', at, length)
    decreases NonNegative(length)
  {
    if length >= 8 {
      ReachedOnly(m, m', at + 8, length - 8);
    }
  }

  /** The bytes write_to_tracee transfers: its long length becomes an int, negative ones transfer nothing. */
  function Transferred(bytes: seq<Byte>): (t: seq<Byte>)
    ensures t <= bytes
  {
    bytes[..NonNegative(ToInt32(|bytes|))]
  }

  lemma TransferredWhole(bytes: seq<Byte>)
    ensures Transferred(bytes) == bytes <==> |bytes| < 0x8000_0000
  {
    var n := ToInt32(|bytes|);
    if |bytes| < 0x8000_0000 {
      assert n == |bytes|;
      assert bytes[..n] == bytes;
    }
  }

  /** As many bytes as the low 32 bits of the length say, and none when they make a negative int. */
  lemma TransferredLength(bytes: seq<Byte>)
    ensures var low := |bytes| % 0x1_0000_0000; |Transferred(bytes)| == if low < 0x8000_0000 then low else 0
  {
  }

  /** Every write of the list finds its words mapped. */
  ghost predicate AllAccessible(m: Mem, copies: seq<Copy>) {
    forall c | c in copies :: Accessible(m, c.to, |Transferred(c.bytes)|)
  }

  /** The list of writes as patches, each of what write_to_tracee transfers. */
  function WriteAll(m: Mem, copies: seq<Copy>): (r: Mem)
    ensures r.Keys == m.Keys
  {
    if copies == [] then m else WriteAll(Patch(m, copies[0].to, Transferred(copies[0].bytes)), copies[1..])
  }

  /** Memory when the list of writes is over or has failed: the write that failed got to its first unmapped word. */
  function WriteUpToFailure(m: Mem, copies: seq<Copy>): (r: Mem)
    ensures r.Keys == m.Keys
  {
    if copies == [] then m
    else
      var bytes := Transferred(copies[0].bytes);
      var n := BytesReached(m, copies[0].to, |bytes|);
      var m' := Patch(m, copies[0].to, bytes[..n]);
      if n < |bytes| then m' else WriteUpToFailure(m', copies[1..])
  }

  lemma {:induction false} WriteAllUnlessFailing(m: Mem, copies: seq<Copy>)
    requires AllAccessible(m, copies)
    ensures WriteUpToFailure(m, copies) == WriteAll(m, copies)
  {
    if copies != [] {
      var bytes := Transferred(copies[0].bytes);
      hide Transferred, Patch;
      ReachedAllIff(m, copies[0].to, |bytes|);
      assert copies[0] in copies && bytes[..|bytes|] == bytes;
      SameAccess(m, Patch(m, copies[0].to, bytes), copies);
      WriteAllUnlessFailing(Patch(m, copies[0].to, bytes), copies[1..]);
    }
  }

  /** With the k-th write the first to fail, the ones before it are done, and it as far as it gets. */
  lemma {:induction false} FailsAt(m: Mem, copies: seq<Copy>, k: nat)
    requires k < |copies| && AllAccessible(m, copies[..k])
    requires !Accessible(m, copies[k].to, |Transferred(copies[k].bytes)|)
    ensures var bytes := Transferred(copies[k].bytes);
            var n := BytesReached(m, copies[k].to, |bytes|);
            WriteUpToFailure(m, copies) == Patch(WriteAll(m, copies[..k]), copies[k].to, bytes[..n])
  {
    hide Transferred, Patch, Accessible, AllAccessible, WriteAll, WriteUpToFailure, BytesReached;
    if k == 0 {
      FailsNow(m, copies);
    } else {
      WritesOne(m, copies, k);
      var next := Patch(m, copies[0].to, Transferred(copies[0].bytes));
      SameAccessOf(m, next, copies[k].to, |Transferred(copies[k].bytes)|);
      FailsAt(next, copies[1..], k - 1);
    }
  }

  lemma FailsNow(m: Mem, copies: seq<Copy>)
    requires copies != [] && !Accessible(m, copies[0].to, |Transferred(copies[0].bytes)|)
    ensures var bytes := Transferred(copies[0].bytes);
            var n := BytesReached(m, copies[0].to, |bytes|);
            WriteUpToFailure(m, copies) == Patch(WriteAll(m, copies[..0]), copies[0].to, bytes[..n])
  {
    ReachedAllIff(m, copies[0].to, |Transferred(copies[0].bytes)|);
    hide Transferred, Patch, Accessible, BytesReached;
  }

  lemma WritesOne(m: Mem, copies: seq<Copy>, k: nat)
    requires 0 < k < |copies| && AllAccessible(m, copies[..k])
    ensures var next := Patch(m, copies[0].to, Transferred(copies[0].bytes));
            && WriteUpToFailure(m, copies) == WriteUpToFailure(next, copies[1..])
            && WriteAll(m, copies[..k]) == WriteAll(next, copies[1..][..k - 1])
            && AllAccessible(next, copies[1..][..k - 1])
  {
    var bytes := Transferred(copies[0].bytes);
    ReachedAllIff(m, copies[0].to, |bytes|);
    hide Transferred, Patch, Accessible, BytesReached;
    assert copies[..k][0] == copies[0] && copies[..k][1..] == copies[1..][..k - 1] && bytes[..|bytes|] == bytes;
    SameAccess(m, Patch(m, copies[0].to, bytes), copies[..k]);
  }

  lemma SameAccessOf(m: Mem, m': Mem, at: int, length: int)
    requires m.Keys == m'.Keys
    ensures Accessible(m, at, length) <==> Accessible(m', at, length)
    ensures BytesReached(m, at, length) == BytesReached(m', at, length)
  {
    ReachedOnly(m, m', at, length);
  }

  lemma SameAccess(m: Mem, m': Mem, copies: seq<Copy>)
    requires m.Keys == m'.Keys && copies != []
    ensures AllAccessible(m, copies) ==> AllAccessible(m', copies[1..])
  {
  }

  /** When every length fits an int, the writes are the recorded copies applied in list order. */
  lemma {:induction false} WriteAllIsApplyCopies(m: Mem, copies: seq<Copy>)
    requires forall c | c in copies :: |c.bytes| < 0x8000_0000
    ensures WriteAll(m, copies) == ApplyCopies(m, copies)
  {
    if copies != [] {
      TransferredWhole(copies[0].bytes);
      WriteAllIsApplyCopies(Patch(m, copies[0].to, copies[0].bytes), copies[1..]);
    }
  }

  /** The last write covering an address decides its byte. */
  lemma {:induction false} LastWriteWins(m: Mem, copies: seq<Copy>, k: nat, a: int)
    requires k < |copies| && a in m
    requires copies[k].to <= a < copies[k].to + |Transferred(copies[k].bytes)|
    requires forall j | k < j < |copies| :: !(copies[j].to <= a < copies[j].to + |Transferred(copies[j].bytes)|)
    ensures WriteAll(m, copies)[a] == Transferred(copies[k].bytes)[a - copies[k].to]
  {
    hide Transferred;
    var next := Patch(m, copies[0].to, Transferred(copies[0].bytes));
    hide Patch;
    if k > 0 {
      LastWriteWins(next, copies[1..], k - 1, a);
    } else {
      UntouchedByte(next, copies[1..], a);
    }
  }

  /** A byte no write covers keeps its value. */
  lemma {:induction false} UntouchedByte(m: Mem, copies: seq<Copy>, a: int)
    requires a in m
    requires forall c | c in copies :: !(c.to <= a < c.to + |Transferred(c.bytes)|)
    ensures WriteAll(m, copies)[a] == m[a]
  {
    hide Transferred;
    if copies != [] {
      UntouchedByte(Patch(m, copies[0].to, Transferred(copies[0].bytes)), copies[1..], a);
    }
  }

  /** The memory of the stopped tracee as ptrace offers it. */
  class TraceeMem {
    var mem: Mem

    constructor (mem: Mem)
      ensures this.mem == mem
    {
      this.mem := mem;
    }

    /** PTRACE_PEEKTEXT: the word at addr, or an errno when it is not wholly mapped. */
    method PeekText(addr: U64) returns (word: Option<seq<Byte>>)
      ensures word.Some? <==> Mapped(mem, addr, 8)
      ensures word.Some? ==> word.value == Slice(mem, addr, 8)
    {
      if WordMapped(mem, addr) {
        word := Some([mem[addr], mem[addr + 1], mem[addr + 2], mem[addr + 3],
                      mem[addr + 4], mem[addr + 5], mem[addr + 6], mem[addr + 7]]);
      } else {
        word := None;
      }
    }

    /** PTRACE_POKEDATA. */
    method PokeData(addr: U64, word: seq<Byte>) returns (ok: bool)
      requires |word| == 8
      modifies this
      ensures ok <==> Mapped(old(mem), addr, 8)
      ensures mem == if ok then Patch(old(mem), addr, word) else old(mem)
    {
      ok := WordMapped(mem, addr);
      if ok {
        mem := Patch(mem, addr, word);
      }
    }

    /**
      Whole words are poked; the tail is read, patched and poked back. The
      buffer's bytes are set up to the first unmapped word, and no other byte.
      It succeeds exactly when every word it touches is mapped, the last of
      which may reach past the buffer.
     */
    method WriteBufferToTracee(address: U64, buf: seq<Byte>, len: int) returns (ok: bool)
      requires len <= |buf|
      modifies this
      ensures ok <==> Accessible(old(mem), address, len)
      ensures ok <==> BytesReached(old(mem), address, len) == NonNegative(len)
      ensures mem == Patch(old(mem), address, buf[..BytesReached(old(mem), address, len)])
    {
      hide Patch, WholeWords, Mapped, Accessible, BytesReached, BelowUserEnd;
      var length, buffer, addr := len, buf, address;
      ghost var was, written := mem, 0;
      ReachedAllIff(mem, address, len);
      PatchNothing(mem, address);
      ok := true;
      while length >= 8 && ok
        invariant written <= NonNegative(len) && written % 8 == 0
        invariant length == len - written && buffer == buf[written..] && addr == address + written
        invariant mem == Patch(was, address, buf[..written])
        invariant BytesReached(was, address, len) == written + if ok then BytesReached(was, addr, length) else 0
        invariant !ok ==> 0 < length
        decreases ok, length
      {
        ReachedStep(was, addr, length);
        SameMapping(was, mem, addr);
        ok := PokeData(addr, buffer[..8]);
        if ok {
          PatchFurther(was, address, buf, written, 8);
          MappedBelowEnd(was, addr);
          length := length - 8;
          buffer := buffer[8..];
          addr := addr + 8;
          written := written + 8;
        }
      }
      if ok {
        ReachedStep(was, addr, length);
      }
      if length > 0 && ok {
        var word := PeekText(addr);
        SameMapping(was, mem, addr);
        ok := word.Some?;
        if ok {
          var data := buffer[..length] + word.value[length..];
          TailPatch(mem, addr, buffer[..length], data);
          ok := PokeData(addr, data);
          PatchFurther(was, address, buf, written, length);
        }
      }
    }

    /** read_from_tracee: the same walk, filling a buffer of `len` bytes. */
    method ReadFromTracee(address: U64, len: nat) returns (r: Option<seq<Byte>>)
      ensures r.Some? <==> Accessible(mem, address, len)
      ensures r.Some? ==> Mapped(mem, address, len) && r.value == Slice(mem, address, len)
    {
      var buffer := new Byte[len](_ => 0);
      var length, addr, at := len as int, address, 0;
      while length > 0
        invariant at % 8 == 0 && length == len - at && addr == address + at
        invariant Mapped(mem, address, at)
        invariant forall i | 0 <= i < at && i < len :: buffer[i] == mem[address + i]
        invariant at > 0 ==> at < len + 8
      {
        var word := PeekText(addr);
        if word.None? {
          NotAccessible(mem, address, at, len);
          return None;
        }
        var n := if length < 8 then length else 8;
        forall i | 0 <= i < n {
          buffer[at + i] := word.value[i];
        }
        MappedBelowEnd(mem, addr);
        length := length - 8;
        addr := addr + 8;
        at := at + 8;
      }
      assert WholeWords(len) == at;
      r := Some(buffer[..]);
    }

    /** py_write_to_tracee for each memory copy in order; the first failure raises. */
    method WriteCopies(copies: seq<Copy>) returns (ok: bool)
      modifies this
      ensures ok <==> AllAccessible(old(mem), copies)
      ensures mem == WriteUpToFailure(old(mem), copies)
    {
      hide Patch, WholeWords, Mapped, BelowUserEnd, Accessible, AllAccessible, WriteUpToFailure, Transferred, ToInt32,
           BytesReached;
      ghost var was := mem;
      WritingNone(mem, copies);
      var i := 0;
      ok := true;
      while i < |copies| && ok
        invariant i <= |copies| && mem.Keys == was.Keys
        invariant if ok then AllAccessible(was, copies[..i])
            && WriteUpToFailure(mem, copies[i..]) == WriteUpToFailure(was, copies)
                  else !AllAccessible(was, copies) && mem == WriteUpToFailure(was, copies)
        decreases |copies| - i, ok
      {
        var c := copies[i];
        WritingOne(was, mem, copies, i);
        ok := WriteBufferToTracee(c.to, c.bytes, ToInt32(|c.bytes|));
        i := i + 1;
      }
      WritingAll(mem, copies);
    }
  }

  lemma WritingNone(m: Mem, copies: seq<Copy>)
    ensures AllAccessible(m, copies[..0]) && copies[0..] == copies
  {
  }

  lemma WritingAll(m: Mem, copies: seq<Copy>)
    ensures copies[..|copies|] == copies && WriteUpToFailure(m, copies[|copies|..]) == m
  {
  }

  lemma WritingOne(was: Mem, m: Mem, copies: seq<Copy>, i: nat)
    requires i < |copies| && m.Keys == was.Keys
    ensures var c := copies[i];
            var len := ToInt32(|c.bytes|);
            var n := BytesReached(m, c.to, len);
            && len <= |c.bytes| && n <= |c.bytes|
            && WriteUpToFailure(m, copies[i..]) ==
               (var m' := Patch(m, c.to, c.bytes[..n]); if n < NonNegative(len) then m'
                   else WriteUpToFailure(m', copies[i + 1..]))
            && (AllAccessible(was, copies[..i + 1]) <==> AllAccessible(was, copies[..i]) && Accessible(m, c.to, len))
            && (AllAccessible(was, copies) ==> Accessible(m, c.to, len))
  {
    hide Patch, Accessible, BytesReached;
    var c := copies[i];
    var len := ToInt32(|c.bytes|);
    assert copies[i..][0] == c && copies[i..][1..] == copies[i + 1..];
    assert copies[..i + 1] == copies[..i] + [c];
    TransferredAccess(was, m, c);
    var n := BytesReached(m, c.to, len);
    assert Transferred(c.bytes)[..n] == c.bytes[..n];
  }

  /** The transferred length counts as the int it was made of. */
  lemma TransferredAccess(was: Mem, m: Mem, c: Copy)
    requires m.Keys == was.Keys
    ensures Accessible(was, c.to, |Transferred(c.bytes)|) <==> Accessible(m, c.to, ToInt32(|c.bytes|))
    ensures BytesReached(m, c.to, |Transferred(c.bytes)|) == BytesReached(m, c.to, ToInt32(|c.bytes|))
    ensures |Transferred(c.bytes)| == NonNegative(ToInt32(|c.bytes|)) && ToInt32(|c.bytes|) <= |c.bytes|
  {
  }

  lemma NotAccessible(m: Mem, at: int, done: nat, len: int)
    requires done < len && done % 8 == 0 && !Mapped(m, at + done, 8)
    ensures !Accessible(m, at, len)
  {
    assert done + 8 <= WholeWords(len);
    var a :| at + done <= a < at + done + 8 && a !in m;
  }

  lemma SameMapping(m: Mem, m': Mem, at: int)
    requires m.Keys == m'.Keys
    ensures Mapped(m, at, 8) <==> Mapped(m', at, 8)
  {
  }

  lemma PatchFurther(m: Mem, at: int, buf: seq<Byte>, done: nat, n: nat)
    requires done + n <= |buf|
    ensures Patch(Patch(m, at, buf[..done]), at + done, buf[done..][..n]) == Patch(m, at, buf[..done + n])
  {
    assert buf[..done] + buf[done..][..n] == buf[..done + n];
    PatchAppend(m, at, buf[..done], buf[done..][..n]);
  }

  /** User addresses never wrap around. */
  lemma MappedBelowEnd(m: Mem, addr: int)
    requires Mapped(m, addr, 8)
    ensures addr + 8 <= USER_END
  {
    assert addr + 7 in m;
  }

  /** Poking back a word whose tail was just read changes only its head. */
  lemma TailPatch(m: Mem, addr: int, head: seq<Byte>, word: seq<Byte>)
    requires Mapped(m, addr, 8) && |head| <= 8 && |word| == 8
    requires word == head + Slice(m, addr, 8)[|head|..]
    ensures Patch(m, addr, word) == Patch(m, addr, head)
  {
  }

  /** What was written can be read back. */
  lemma ReadAfterWrite(m: Mem, at: int, bytes: seq<Byte>)
    requires Accessible(m, at, |bytes|)
    ensures Accessible(Patch(m, at, bytes), at, |bytes|)
    ensures Mapped(m, at, |bytes|) && Slice(Patch(m, at, bytes), at, |bytes|) == bytes
  {
    SliceOfPatch(m, at, bytes);
  }

  /**
    A buffer can lie wholly inside the mapping and still not be writable: one
    byte at the end of the mapped region, when the word it starts sticks out.
   */
  lemma MappedIsNotEnough(m: Mem, at: int)
    requires at in m && at + 1 !in m
    ensures Mapped(m, at, 1) && !Accessible(m, at, 1)
  {
    assert WholeWords(1) == 8;
  }
}
