/**
  System-call records and their dump format: struct syscall_dump followed by
  one struct copy_record per recorded copy.
 */
module Format {
  import opened Bytes
  import opened Memory

  /**
    struct pt_regs, in its own field order, which is also the order of the
    replayer's Registers. W is U64 for what a processor holds and int for the
    Python values on their way to it.
   */
  datatype Registers<+W> = Registers(
    r15: W, r14: W, r13: W, r12: W, rbp: W, rbx: W, r11: W,
    r10: W, r9: W, r8: W, rax: W, rcx: W, rdx: W, rsi: W,
    rdi: W, orig_rax: W, rip: W, cs: W, eflags: W, rsp: W, ss: W)

  type WordRegisters = Registers<U64>

  predicate IsWord(x: int) {
    0 <= x < 0x1_0000_0000_0000_0000
  }

  /** Registers(*values) on a list of words. */
  function FromList(l: seq<U64>): WordRegisters
    requires |l| == 21
  {
    Registers(l[0], l[1], l[2], l[3], l[4], l[5], l[6], l[7], l[8], l[9], l[10],
              l[11], l[12], l[13], l[14], l[15], l[16], l[17], l[18], l[19], l[20])
  }

  /** Registers.to_list. */
  function ToList(r: WordRegisters): (l: seq<U64>)
    ensures |l| == 21
  {
    [r.r15, r.r14, r.r13, r.r12, r.rbp, r.rbx, r.r11, r.r10, r.r9, r.r8, r.rax,
     r.rcx, r.rdx, r.rsi, r.rdi, r.orig_rax, r.rip, r.cs, r.eflags, r.rsp, r.ss]
  }

  lemma RegistersRoundTrip(r: WordRegisters, l: seq<U64>)
    requires |l| == 21
    ensures FromList(ToList(r)) == r
    ensures ToList(FromList(l)) == l
  {
  }

  /** One recorded write to user memory: struct copy_record with its bytes. */
  datatype Copy = Copy(from: U64, to: U64, bytes: seq<Byte>)

  /** One completed struct syscall_record. */
  datatype Record = Record(regs: WordRegisters, ret: U64, copies: seq<Copy>)

  /** The replayer's SystemCall: the same call with a signed return value. */
  datatype SystemCall = SystemCall(regs: WordRegisters, returnValue: int, copies: seq<Copy>) {
    /** The system call number is the orig_rax the call was made with. */
    function Num(): U64 { regs.orig_rax }
  }

  function Loaded(r: Record): SystemCall {
    SystemCall(r.regs, ToSigned(r.ret), r.copies)
  }

  function LoadedAll(rs: seq<Record>): (cs: seq<SystemCall>)
    ensures |cs| == |rs|
    ensures forall i | 0 <= i < |rs| :: cs[i] == Loaded(rs[i])
  {
    seq(|rs|, i requires 0 <= i < |rs| => Loaded(rs[i]))
  }

  // ---- Serialization ----

  /** struct copy_record without its bytes. */
  function CopyHeader(from: U64, to: U64, len: nat): (s: seq<Byte>)
    ensures |s| == 24
  {
    EncodeWord(from) + EncodeWord(to) + EncodeWord(len)
  }

  function SerializeCopy(c: Copy): (s: seq<Byte>)
    ensures |s| == 24 + |c.bytes|
  {
    CopyHeader(c.from, c.to, |c.bytes|) + c.bytes
  }

  function SerializeCopies(cs: seq<Copy>): seq<Byte> {
    if cs == [] then [] else SerializeCopy(cs[0]) + SerializeCopies(cs[1..])
  }

  /** struct syscall_dump: registers, return value, number of copies. */
  function Header(regs: WordRegisters, ret: U64, amount: nat): (s: seq<Byte>)
    ensures |s| == 184
  {
    EncodeWords(ToList(regs)) + EncodeWord(ret) + EncodeWord(amount)
  }

  /** Word k of a byte string. */
  function WordAt(s: seq<Byte>, k: nat): seq<Byte>
    requires 8 * k + 8 <= |s|
  {
    s[8 * k..8 * k + 8]
  }

  lemma HeaderWord(regs: WordRegisters, ret: U64, amount: nat, k: nat)
    requires k < 21
    ensures WordAt(Header(regs, ret, amount), k) == EncodeWord(ToList(regs)[k])
  {
    hide EncodeWord, EncodeWords, ToList;
    EncodeWordsAt(ToList(regs), k);
    assert WordAt(Header(regs, ret, amount), k) == WordAt(EncodeWords(ToList(regs)), k);
  }

  /** Where the dump has which register, from its start. */
  lemma HeaderRegisters(regs: WordRegisters, ret: U64, amount: nat)
    ensures var h := Header(regs, ret, amount);
            && WordAt(h, 0) == EncodeWord(regs.r15) && WordAt(h, 1) == EncodeWord(regs.r14)
            && WordAt(h, 2) == EncodeWord(regs.r13) && WordAt(h, 3) == EncodeWord(regs.r12)
            && WordAt(h, 4) == EncodeWord(regs.rbp) && WordAt(h, 5) == EncodeWord(regs.rbx)
            && WordAt(h, 6) == EncodeWord(regs.r11) && WordAt(h, 7) == EncodeWord(regs.r10)
            && WordAt(h, 8) == EncodeWord(regs.r9) && WordAt(h, 9) == EncodeWord(regs.r8)
            && WordAt(h, 10) == EncodeWord(regs.rax)
  {
    hide EncodeWord, WordAt, Header;
    HeaderWord(regs, ret, amount, 0);
    HeaderWord(regs, ret, amount, 1);
    HeaderWord(regs, ret, amount, 2);
    HeaderWord(regs, ret, amount, 3);
    HeaderWord(regs, ret, amount, 4);
    HeaderWord(regs, ret, amount, 5);
    HeaderWord(regs, ret, amount, 6);
    HeaderWord(regs, ret, amount, 7);
    HeaderWord(regs, ret, amount, 8);
    HeaderWord(regs, ret, amount, 9);
    HeaderWord(regs, ret, amount, 10);
  }

  /** And the others. */
  lemma HeaderRegistersOn(regs: WordRegisters, ret: U64, amount: nat)
    ensures var h := Header(regs, ret, amount);
            && WordAt(h, 11) == EncodeWord(regs.rcx) && WordAt(h, 12) == EncodeWord(regs.rdx)
            && WordAt(h, 13) == EncodeWord(regs.rsi) && WordAt(h, 14) == EncodeWord(regs.rdi)
            && WordAt(h, 15) == EncodeWord(regs.orig_rax) && WordAt(h, 16) == EncodeWord(regs.rip)
            && WordAt(h, 17) == EncodeWord(regs.cs) && WordAt(h, 18) == EncodeWord(regs.eflags)
            && WordAt(h, 19) == EncodeWord(regs.rsp) && WordAt(h, 20) == EncodeWord(regs.ss)
  {
    hide EncodeWord, WordAt, Header;
    HeaderWord(regs, ret, amount, 11);
    HeaderWord(regs, ret, amount, 12);
    HeaderWord(regs, ret, amount, 13);
    HeaderWord(regs, ret, amount, 14);
    HeaderWord(regs, ret, amount, 15);
    HeaderWord(regs, ret, amount, 16);
    HeaderWord(regs, ret, amount, 17);
    HeaderWord(regs, ret, amount, 18);
    HeaderWord(regs, ret, amount, 19);
    HeaderWord(regs, ret, amount, 20);
  }

  /** Behind the registers, the return value and the number of copies. */
  lemma HeaderEnd(regs: WordRegisters, ret: U64, amount: nat)
    ensures WordAt(Header(regs, ret, amount), 21) == EncodeWord(ret)
    ensures WordAt(Header(regs, ret, amount), 22) == EncodeWord(amount)
  {
    hide EncodeWord, EncodeWords, ToList;
  }

  /** A copy's source, destination and length, and behind them its bytes. */
  lemma CopyLayout(c: Copy)
    ensures var s := SerializeCopy(c);
            && WordAt(s, 0) == EncodeWord(c.from) && WordAt(s, 1) == EncodeWord(c.to)
            && WordAt(s, 2) == EncodeWord(|c.bytes|) && s[24..] == c.bytes
  {
    hide EncodeWord;
  }

  function Serialize(r: Record): (s: seq<Byte>)
    ensures |s| == 184 + |SerializeCopies(r.copies)|
  {
    Header(r.regs, r.ret, |r.copies|) + SerializeCopies(r.copies)
  }

  function SerializeAll(rs: seq<Record>): seq<Byte> {
    if rs == [] then [] else Serialize(rs[0]) + SerializeAll(rs[1..])
  }

  lemma {:induction false} SerializeAllAppend(a: seq<Record>, b: seq<Record>)
    ensures SerializeAll(a + b) == SerializeAll(a) + SerializeAll(b)
  {
    hide Serialize;
    if a == [] {
      assert a + b == b;
    } else {
      SerializeAllAppend(a[1..], b);
      assert (a + b)[1..] == a[1..] + b;
      Assoc(Serialize(a[0]), SerializeAll(a[1..]), SerializeAll(b));
    }
  }

  /** Counts and lengths that fit the 64-bit fields that carry them. */
  predicate Fits64(r: Record) {
    && IsWord(|r.copies|)
    && forall c | c in r.copies :: IsWord(|c.bytes|)
  }

  // ---- Memory effect ----

  /** The memory after the copies are written in list order. */
  function ApplyCopies(m: Mem, cs: seq<Copy>): (r: Mem)
    ensures r.Keys == m.Keys
  {
    if cs == [] then m else ApplyCopies(Patch(m, cs[0].to, cs[0].bytes), cs[1..])
  }

  lemma {:induction false} ApplyCopiesAppend(m: Mem, a: seq<Copy>, b: seq<Copy>)
    ensures ApplyCopies(m, a + b) == ApplyCopies(ApplyCopies(m, a), b)
  {
    if a == [] {
      assert a + b == b;
    } else {
      ApplyCopiesAppend(Patch(m, a[0].to, a[0].bytes), a[1..], b);
      assert (a + b)[1..] == a[1..] + b;
    }
  }
}
