/**
  What the loader makes of a byte string, as functions of the bytes, and the
  theorems about the dump format: round trip, unambiguity and truncation.
 */
module LoaderSpec {
  import opened Bytes
  import opened Format

  /**
    The outcome of one load step: struct.error, or a value, the bytes left, and
    whether a payload came out shorter than its declared length.
   */
  datatype Parsed<+T> = Fail | Got(value: T, rest: seq<Byte>, short: bool)

  function Min(a: nat, b: nat): nat {
    if a <= b then a else b
  }

  function ParseCopy(b: seq<Byte>): (p: Parsed<Copy>)
    ensures p.Got? ==> |p.rest| < |b|
  {
    if |b| < 24 then Fail
    else
      var declared := DecodeWord(b[16..24]);
      var n := Min(declared, |b| - 24);
      Got(Copy(DecodeWord(b[..8]), DecodeWord(b[8..16]), b[24..24 + n]), b[24 + n..], n < declared)
  }

  function ParseCopies(n: nat, b: seq<Byte>): (p: Parsed<seq<Copy>>)
    ensures p.Got? ==> |p.rest| <= |b|
  {
    if n == 0 then Got([], b, false)
    else
      var head := ParseCopy(b);
      if head.Fail? then Fail
      else
        var tail := ParseCopies(n - 1, head.rest);
        if tail.Fail? then Fail
        else Got([head.value] + tail.value, tail.rest, head.short || tail.short)
  }

  function ParseCall(b: seq<Byte>): (p: Parsed<SystemCall>)
    ensures p.Got? ==> |p.rest| < |b|
  {
    if |b| < 184 then Fail
    else
      var copies := ParseCopies(DecodeWord(b[176..184]), b[184..]);
      if copies.Fail? then Fail
      else
        Got(SystemCall(FromList(DecodeWords(b[..168])), ToSigned(DecodeWord(b[168..176])), copies.value),
            copies.rest, copies.short)
  }

  /** load_system_calls: calls until the buffer is empty. */
  function ParseAll(b: seq<Byte>): Parsed<seq<SystemCall>>
    decreases |b|
  {
    if b == [] then Got([], [], false)
    else
      var head := ParseCall(b);
      if head.Fail? then Fail
      else
        var tail := ParseAll(head.rest);
        if tail.Fail? then Fail
        else Got([head.value] + tail.value, [], head.short || tail.short)
  }

  // ---- Consumption ----

  lemma {:induction false} CopiesConsume(n: nat, b: seq<Byte>)
    requires ParseCopies(n, b).Got?
    ensures |ParseCopies(n, b).value| == n
    ensures |ParseCopies(n, b).rest| + 24 * n <= |b|
  {
    if n > 0 {
      CopiesConsume(n - 1, ParseCopy(b).rest);
    }
  }

  /**
    A call takes at least 184 bytes, and 24 more for each of its copies. Its
    return value is signed, and the word at 168 modulo 2^64.
   */
  lemma CallConsumes(b: seq<Byte>)
    requires ParseCall(b).Got?
    ensures |ParseCall(b).rest| + 184 + 24 * |ParseCall(b).value.copies| <= |b|
    ensures var ret := ParseCall(b).value.returnValue;
            -0x8000_0000_0000_0000 <= ret < 0x8000_0000_0000_0000 && ToU64(ret) == DecodeWord(b[168..176])
  {
    SignedRoundTrip(DecodeWord(b[168..176]));
    CopiesConsume(DecodeWord(b[176..184]), b[184..]);
  }

  /** So a dump of m bytes holds at most m / 184 calls. */
  lemma {:induction false} CallsConsume(b: seq<Byte>)
    requires ParseAll(b).Got?
    ensures 184 * |ParseAll(b).value| <= |b|
    decreases |b|
  {
    if b != [] {
      CallConsumes(b);
      hide ParseCall;
      CallsConsume(ParseCall(b).rest);
    }
  }

  // ---- Round trip ----

  lemma CopyHeaderParses(c: Copy, t: seq<Byte>)
    requires IsWord(|c.bytes|)
    ensures var b := CopyHeader(c.from, c.to, |c.bytes|) + t;
            && b[24..] == t
            && DecodeWord(b[..8]) == c.from && DecodeWord(b[8..16]) == c.to
            && DecodeWord(b[16..24]) == |c.bytes|
  {
    var f, o, l := EncodeWord(c.from), EncodeWord(c.to), EncodeWord(|c.bytes|);
    DecodeOfEncode(c.from);
    DecodeOfEncode(c.to);
    DecodeOfEncode(|c.bytes|);
    hide EncodeWord, DecodeWord;
    var b := CopyHeader(c.from, c.to, |c.bytes|) + t;
    assert b == f + o + l + t;
    assert b[..8] == f && b[8..16] == o && b[16..24] == l;
  }

  lemma CopyRoundTrip(c: Copy, t: seq<Byte>)
    requires IsWord(|c.bytes|)
    ensures ParseCopy(SerializeCopy(c) + t) == Got(c, t, false)
  {
    CopyHeaderParses(c, c.bytes + t);
    hide CopyHeader, DecodeWord;
    Assoc(CopyHeader(c.from, c.to, |c.bytes|), c.bytes, t);
    var b := SerializeCopy(c) + t;
    assert b[24..24 + |c.bytes|] == c.bytes && b[24 + |c.bytes|..] == t;
  }

  lemma {:induction false} CopiesRoundTrip(cs: seq<Copy>, t: seq<Byte>)
    requires forall c | c in cs :: IsWord(|c.bytes|)
    ensures ParseCopies(|cs|, SerializeCopies(cs) + t) == Got(cs, t, false)
  {
    if cs == [] {
      assert SerializeCopies(cs) + t == t;
    } else {
      hide SerializeCopy, ParseCopy;
      Assoc(SerializeCopy(cs[0]), SerializeCopies(cs[1..]), t);
      CopyRoundTrip(cs[0], SerializeCopies(cs[1..]) + t);
      CopiesRoundTrip(cs[1..], t);
      assert [cs[0]] + cs[1..] == cs;
    }
  }

  /** The fixed part of a call is read back from any bytes that begin with a header. */
  lemma HeaderParses(r: Record, t: seq<Byte>)
    requires IsWord(|r.copies|)
    ensures var b := Header(r.regs, r.ret, |r.copies|) + t;
            && b[184..] == t
            && FromList(DecodeWords(b[..168])) == r.regs
            && DecodeWord(b[168..176]) == r.ret
            && DecodeWord(b[176..184]) == |r.copies|
  {
    hide EncodeWord, EncodeWords, DecodeWord, DecodeWords, ToList, FromList;
    var b := Header(r.regs, r.ret, |r.copies|) + t;
    RegistersRoundTrip(r.regs, ToList(r.regs));
    assert b[..168] == EncodeWords(ToList(r.regs));
    DecodeOfEncodeWords(ToList(r.regs));
    assert b[168..176] == EncodeWord(r.ret) && b[176..184] == EncodeWord(|r.copies|);
    DecodeOfEncode(r.ret);
    DecodeOfEncode(|r.copies|);
  }

  lemma CallRoundTrip(r: Record, t: seq<Byte>)
    requires Fits64(r)
    ensures ParseCall(Serialize(r) + t) == Got(Loaded(r), t, false)
  {
    var rest := SerializeCopies(r.copies) + t;
    assert Serialize(r) + t == Header(r.regs, r.ret, |r.copies|) + rest;
    HeaderParses(r, rest);
    CopiesRoundTrip(r.copies, t);
  }

  /** Loading a dump of any records gives those records, in order. */
  lemma {:induction false} RoundTrip(rs: seq<Record>)
    requires forall r | r in rs :: Fits64(r)
    ensures ParseAll(SerializeAll(rs)) == Got(LoadedAll(rs), [], false)
  {
    hide Serialize, ParseCall;
    if rs != [] {
      CallRoundTrip(rs[0], SerializeAll(rs[1..]));
      RoundTrip(rs[1..]);
      assert LoadedAll(rs) == [Loaded(rs[0])] + LoadedAll(rs[1..]);
    }
  }

  // ---- Unambiguity ----

  function Unloaded(c: SystemCall): Record {
    Record(c.regs, ToU64(c.returnValue), c.copies)
  }

  function Reserialize(cs: seq<SystemCall>): seq<Byte> {
    if cs == [] then [] else Serialize(Unloaded(cs[0])) + Reserialize(cs[1..])
  }

  lemma CopyInverse(b: seq<Byte>)
    requires ParseCopy(b).Got?
    ensures var p := ParseCopy(b);
            var again := SerializeCopy(p.value) + p.rest;
            |again| == |b| && (p.short <==> again != b) && (p.short ==> p.rest == [])
  {
    var p := ParseCopy(b);
    var n := |p.value.bytes|;
    EncodeOfDecode(b[..8]);
    EncodeOfDecode(b[8..16]);
    EncodeOfDecode(b[16..24]);
    DecodeOfEncode(n);
    hide EncodeWord, DecodeWord;
    var again := SerializeCopy(p.value) + p.rest;
    assert b == b[..8] + b[8..16] + b[16..24] + b[24..24 + n] + b[24 + n..];
    assert again == b[..8] + b[8..16] + EncodeWord(n) + b[24..24 + n] + b[24 + n..];
    assert again[16..24] == EncodeWord(n);
  }

  lemma {:induction false} CopiesInverse(n: nat, b: seq<Byte>)
    requires ParseCopies(n, b).Got?
    ensures var p := ParseCopies(n, b);
            var again := SerializeCopies(p.value) + p.rest;
            |again| == |b| && (p.short <==> again != b) && (p.short ==> p.rest == [])
  {
    hide SerializeCopy, ParseCopy;
    if n > 0 {
      var head := ParseCopy(b);
      CopyInverse(b);
      CopiesInverse(n - 1, head.rest);
      var tail := ParseCopies(n - 1, head.rest);
      assert ParseCopies(n, b).value[1..] == tail.value;
      var one := SerializeCopy(head.value);
      Assoc(one, SerializeCopies(tail.value), tail.rest);
      Cancel(one, SerializeCopies(tail.value) + tail.rest, head.rest);
    }
  }

  lemma HeaderInverse(b: seq<Byte>)
    requires |b| >= 184
    ensures Header(FromList(DecodeWords(b[..168])), ToU64(ToSigned(DecodeWord(b[168..176]))),
                   DecodeWord(b[176..184])) == b[..184]
  {
    SignedRoundTrip(DecodeWord(b[168..176]));
    EncodeOfDecodeWords(b[..168]);
    EncodeOfDecode(b[168..176]);
    EncodeOfDecode(b[176..184]);
    var words := DecodeWords(b[..168]);
    RegistersRoundTrip(FromList(words), words);
    hide DecodeWords, DecodeWord, EncodeWords, EncodeWord;
    assert b[..184] == b[..168] + b[168..176] + b[176..184];
  }

  lemma CallInverse(b: seq<Byte>)
    requires ParseCall(b).Got?
    ensures var p := ParseCall(b);
            var again := Serialize(Unloaded(p.value)) + p.rest;
            |again| == |b| && (p.short <==> again != b) && (p.short ==> p.rest == [])
  {
    var p := ParseCall(b);
    var head := Header(p.value.regs, ToU64(p.value.returnValue), |p.value.copies|);
    HeaderInverse(b);
    CopiesConsume(DecodeWord(b[176..184]), b[184..]);
    CopiesInverse(DecodeWord(b[176..184]), b[184..]);
    hide Header, ParseCopies, SerializeCopies, FromList, DecodeWords, DecodeWord, ToU64;
    Assoc(head, SerializeCopies(p.value.copies), p.rest);
    Cancel(head, SerializeCopies(p.value.copies) + p.rest, b[184..]);
    assert b == b[..184] + b[184..];
  }

  /**
    The format is unambiguous: whatever the loader accepts re-serializes to
    bytes of the same length, and to the very same bytes exactly when no
    payload was cut short.
   */
  lemma {:induction false} AcceptedInputReserializes(b: seq<Byte>)
    requires ParseAll(b).Got?
    ensures |Reserialize(ParseAll(b).value)| == |b|
    ensures ParseAll(b).short <==> Reserialize(ParseAll(b).value) != b
    decreases |b|
  {
    hide Serialize, ParseCall;
    if b != [] {
      var head := ParseCall(b);
      CallInverse(b);
      AcceptedInputReserializes(head.rest);
      var tail := ParseAll(head.rest);
      assert ParseAll(b).value[1..] == tail.value;
      Cancel(Serialize(Unloaded(head.value)), Reserialize(tail.value), head.rest);
    }
  }

  // ---- Truncation ----

  function WithBytes(c: Copy, n: nat): Copy
    requires n <= |c.bytes|
  {
    c.(bytes := c.bytes[..n])
  }

  /** How far before the end of a record a cut still leaves every header whole. */
  function LastPayload(cs: seq<Copy>): nat {
    if cs == [] then 0 else |cs[|cs| - 1].bytes|
  }

  lemma {:induction false} LastPayloadBound(cs: seq<Copy>)
    ensures LastPayload(cs) <= |SerializeCopies(cs)|
  {
    if cs != [] {
      LastPayloadBound(cs[1..]);
    }
  }

  /** The copies with the last payload shortened by `missing` bytes. */
  function Shortened(cs: seq<Copy>, missing: nat): (r: seq<Copy>)
    requires cs != [] && missing <= LastPayload(cs)
    ensures |r| == |cs|
  {
    var last := cs[|cs| - 1];
    cs[..|cs| - 1] + [WithBytes(last, |last.bytes| - missing)]
  }

  /** Parsing a record's copies when the last `missing` bytes are cut off. */
  function CutCopies(cs: seq<Copy>, missing: nat): Parsed<seq<Copy>> {
    if 0 < missing <= LastPayload(cs) then Got(Shortened(cs, missing), [], true) else Fail
  }

  lemma CopyTruncated(c: Copy, cut: nat)
    requires IsWord(|c.bytes|) && cut < |SerializeCopy(c)|
    ensures ParseCopy(SerializeCopy(c)[..cut]) == if cut < 24 then Fail else Got(WithBytes(c, cut - 24), [], true)
  {
    var head := CopyHeader(c.from, c.to, |c.bytes|);
    CutOfConcat(head, c.bytes, cut);
    if cut >= 24 {
      var t := c.bytes[..cut - 24];
      CopyHeaderParses(c, t);
      hide CopyHeader, DecodeWord;
      var b := head + t;
      assert b[24..24 + |t|] == t && b[24 + |t|..] == [];
    }
  }

  lemma {:induction false} CopiesTruncated(cs: seq<Copy>, cut: nat)
    requires forall c | c in cs :: IsWord(|c.bytes|)
    requires cut < |SerializeCopies(cs)|
    ensures ParseCopies(|cs|, SerializeCopies(cs)[..cut]) == CutCopies(cs, |SerializeCopies(cs)| - cut)
  {
    hide SerializeCopy, ParseCopies, CutCopies;
    if cut < |SerializeCopy(cs[0])| {
      CutInFirst(cs, cut);
    } else {
      CopiesTruncated(cs[1..], cut - |SerializeCopy(cs[0])|);
      CutBehindFirst(cs, cut);
    }
  }

  lemma CutBehindFirst(cs: seq<Copy>, cut: nat)
    requires cs != [] && (forall c | c in cs :: IsWord(|c.bytes|))
    requires |SerializeCopy(cs[0])| <= cut < |SerializeCopies(cs)|
    requires var others := SerializeCopies(cs[1..]);
             var rest := cut - |SerializeCopy(cs[0])|;
             rest < |others| && ParseCopies(|cs| - 1, others[..rest]) == CutCopies(cs[1..], |others| - rest)
    ensures ParseCopies(|cs|, SerializeCopies(cs)[..cut]) == CutCopies(cs, |SerializeCopies(cs)| - cut)
  {
    hide SerializeCopy, SerializeCopies, ParseCopies, CutCopies, LastPayload, Shortened;
    var one, others := SerializeCopy(cs[0]), SerializeCopies(cs[1..]);
    var rest := cut - |one|;
    FirstCopySerialized(cs);
    CutOfConcat(one, others, cut);
    CopyThenRest(cs[0], |cs| - 1, others[..rest]);
    LastPayloadBound(cs[1..]);
    CutCopiesBehind(cs, |others| - rest);
  }

  lemma FirstCopySerialized(cs: seq<Copy>)
    requires cs != []
    ensures SerializeCopies(cs) == SerializeCopy(cs[0]) + SerializeCopies(cs[1..])
    ensures |cs| == 1 ==> SerializeCopies(cs[1..]) == []
  {
  }

  lemma CopyThenRest(c: Copy, n: nat, t: seq<Byte>)
    requires IsWord(|c.bytes|)
    ensures var tail := ParseCopies(n, t);
            ParseCopies(n + 1, SerializeCopy(c) + t) ==
            if tail.Fail? then Fail else Got([c] + tail.value, tail.rest, tail.short)
  {
    hide SerializeCopy, ParseCopy;
    CopyRoundTrip(c, t);
  }

  lemma CutCopiesBehind(cs: seq<Copy>, missing: nat)
    requires |cs| > 1 || (cs != [] && missing == 0)
    ensures var tail := CutCopies(cs[1..], missing);
            CutCopies(cs, missing) == if tail.Fail? then Fail else Got([cs[0]] + tail.value, tail.rest, tail.short)
  {
    hide WithBytes;
    if 0 < missing <= LastPayload(cs) {
      assert LastPayload(cs) == LastPayload(cs[1..]);
      assert Shortened(cs, missing) == [cs[0]] + Shortened(cs[1..], missing);
    }
  }

  lemma CutInFirst(cs: seq<Copy>, cut: nat)
    requires cs != [] && (forall c | c in cs :: IsWord(|c.bytes|)) && cut < |SerializeCopy(cs[0])|
    ensures ParseCopies(|cs|, SerializeCopies(cs)[..cut]) == CutCopies(cs, |SerializeCopies(cs)| - cut)
  {
    hide SerializeCopy, SerializeCopies, ParseCopy, WithBytes;
    var one, others := SerializeCopy(cs[0]), SerializeCopies(cs[1..]);
    FirstCopySerialized(cs);
    var missing := |one| + |others| - cut;
    CutOfConcat(one, others, cut);
    CopyTruncated(cs[0], cut);
    if |cs| == 1 {
      assert cs[1..] == [];
      if cut >= 24 {
        var head := WithBytes(cs[0], cut - 24);
        assert [head] + [] == [head];
        assert Shortened(cs, missing) == [head];
      }
    } else {
      LastPayloadBound(cs[1..]);
      assert ParseCopies(|cs| - 1, []) == Fail;
      assert LastPayload(cs) == LastPayload(cs[1..]);
    }
  }

  /** Parsing one record when the last `missing` bytes are cut off. */
  function CutCall(r: Record, missing: nat): (p: Parsed<SystemCall>)
    ensures p.Got? ==> p.rest == [] && p.short
  {
    if 0 < missing <= LastPayload(r.copies)
    then Got(Loaded(r.(copies := Shortened(r.copies, missing))), [], true)
    else Fail
  }

  lemma CallTruncated(r: Record, cut: nat)
    requires Fits64(r) && cut < |Serialize(r)|
    ensures ParseCall(Serialize(r)[..cut]) == CutCall(r, |Serialize(r)| - cut)
  {
    hide ParseCopies, Header, FromList, DecodeWords;
    var head := Header(r.regs, r.ret, |r.copies|);
    var copies := SerializeCopies(r.copies);
    LastPayloadBound(r.copies);
    CutOfConcat(head, copies, cut);
    if cut >= 184 {
      HeaderParses(r, copies[..cut - 184]);
      CopiesTruncated(r.copies, cut - 184);
    }
  }

  /** What the loader makes of the first `cut` bytes of a dump of rs. */
  function Truncated(rs: seq<Record>, cut: nat): Parsed<seq<SystemCall>>
    requires cut <= |SerializeAll(rs)|
    decreases |rs|
  {
    if cut == 0 then Got([], [], false)
    else if cut < |Serialize(rs[0])| then
      var last := CutCall(rs[0], |Serialize(rs[0])| - cut);
      if last.Fail? then Fail else Got([last.value], [], true)
    else
      var tail := Truncated(rs[1..], cut - |Serialize(rs[0])|);
      if tail.Fail? then Fail else Got([Loaded(rs[0])] + tail.value, [], tail.short)
  }

  lemma {:induction false} TruncatedDump(rs: seq<Record>, cut: nat)
    requires forall r | r in rs :: Fits64(r)
    requires cut <= |SerializeAll(rs)|
    ensures ParseAll(SerializeAll(rs)[..cut]) == Truncated(rs, cut)
  {
    hide Serialize, ParseCall, CutCall;
    if cut > 0 {
      var one := Serialize(rs[0]);
      var others := SerializeAll(rs[1..]);
      CutOfConcat(one, others, cut);
      if cut < |one| {
        CallTruncated(rs[0], cut);
        var head := CutCall(rs[0], |one| - cut);
        if head.Got? {
          assert ParseAll(head.rest) == Got([], [], false);
          assert [head.value] + [] == [head.value];
        }
      } else {
        CallRoundTrip(rs[0], others[..cut - |one|]);
        TruncatedDump(rs[1..], cut - |one|);
      }
    }
  }

  /** Where record k ends in a dump of rs. */
  function EndOf(rs: seq<Record>, k: nat): nat
    requires k <= |rs|
  {
    |SerializeAll(rs[..k])|
  }

  /** The cut falls between the records before k and those from k on. */
  predicate AtBoundary(rs: seq<Record>, cut: nat, k: nat)
    requires k <= |rs|
  {
    cut == EndOf(rs, k)
  }

  /** The cut takes between one byte and all of the last payload of record k. */
  predicate InLastPayload(rs: seq<Record>, cut: nat, k: nat)
    requires k < |rs|
  {
    0 < EndOf(rs, k + 1) - cut <= LastPayload(rs[k].copies)
  }

  lemma EndOfStep(rs: seq<Record>, k: nat)
    requires 0 < k <= |rs|
    ensures EndOf(rs, k) == |Serialize(rs[0])| + EndOf(rs[1..], k - 1)
    ensures EndOf(rs, 0) == 0
  {
    assert rs[..k][0] == rs[0] && rs[..k][1..] == rs[1..][..k - 1];
    assert rs[..0] == [];
  }

  lemma EndOfNone(rs: seq<Record>)
    ensures EndOf(rs, 0) == 0 && Truncated(rs, 0) == Got([], [], false)
  {
    assert rs[..0] == [];
  }

  /** A cut behind the first record. */
  lemma TruncatedBehind(rs: seq<Record>, cut: nat)
    requires rs != [] && cut <= |SerializeAll(rs[1..])|
    ensures |SerializeAll(rs)| == |Serialize(rs[0])| + |SerializeAll(rs[1..])| && |Serialize(rs[0])| > 0
    ensures var tail := Truncated(rs[1..], cut);
            Truncated(rs, |Serialize(rs[0])| + cut) ==
            if tail.Fail? then Fail else Got([Loaded(rs[0])] + tail.value, [], tail.short)
  {
    hide Serialize, CutCall, Loaded;
  }

  lemma {:induction false} BoundaryCut(rs: seq<Record>, k: nat)
    requires k <= |rs|
    ensures EndOf(rs, k) <= |SerializeAll(rs)|
    ensures Truncated(rs, EndOf(rs, k)) == Got(LoadedAll(rs[..k]), [], false)
  {
    hide Serialize, CutCall, Loaded, EndOf, SerializeAll, Truncated;
    EndOfNone(rs);
    if k == 0 {
      assert rs[..0] == [] && LoadedAll([]) == [];
    } else {
      EndOfStep(rs, k);
      BoundaryCut(rs[1..], k - 1);
      TruncatedBehind(rs, EndOf(rs[1..], k - 1));
      assert rs[..k] == [rs[0]] + rs[1..][..k - 1];
      assert LoadedAll(rs[..k]) == [Loaded(rs[0])] + LoadedAll(rs[1..][..k - 1]);
    }
  }

  /** The records before k, and record k with `missing` bytes off its last payload. */
  function UpToShortened(rs: seq<Record>, k: nat, missing: nat): seq<SystemCall>
    requires k < |rs| && 0 < missing <= LastPayload(rs[k].copies)
  {
    LoadedAll(rs[..k]) + [Loaded(rs[k].(copies := Shortened(rs[k].copies, missing)))]
  }

  lemma UpToShortenedStep(rs: seq<Record>, k: nat, missing: nat)
    requires 0 < k < |rs| && 0 < missing <= LastPayload(rs[k].copies)
    ensures UpToShortened(rs, k, missing) == [Loaded(rs[0])] + UpToShortened(rs[1..], k - 1, missing)
  {
    hide Loaded, Shortened;
    assert rs[..k] == [rs[0]] + rs[1..][..k - 1];
    assert LoadedAll(rs[..k]) == [Loaded(rs[0])] + LoadedAll(rs[1..][..k - 1]);
  }

  lemma PayloadCutOfFirst(rs: seq<Record>, missing: nat)
    requires rs != [] && 0 < missing <= LastPayload(rs[0].copies)
    ensures 184 + missing <= |Serialize(rs[0])| == EndOf(rs, 1)
    ensures Truncated(rs, EndOf(rs, 1) - missing) == Got(UpToShortened(rs, 0, missing), [], true)
  {
    LastPayloadBound(rs[0].copies);
    hide Serialize, Shortened, Loaded;
    EndOfStep(rs, 1);
    assert rs[1..][..0] == [];
    var last := CutCall(rs[0], missing).value;
    assert rs[..0] == [] && LoadedAll([]) == [] && [] + [last] == [last];
  }

  lemma {:induction false} PayloadCut(rs: seq<Record>, k: nat, missing: nat)
    requires k < |rs| && 0 < missing <= LastPayload(rs[k].copies)
    ensures missing <= EndOf(rs, k + 1) <= |SerializeAll(rs)|
    ensures Truncated(rs, EndOf(rs, k + 1) - missing) == Got(UpToShortened(rs, k, missing), [], true)
  {
    hide Serialize, UpToShortened, CutCall, LastPayload;
    BoundaryCut(rs, k + 1);
    if k == 0 {
      PayloadCutOfFirst(rs, missing);
    } else {
      EndOfStep(rs, k + 1);
      PayloadCut(rs[1..], k - 1, missing);
      UpToShortenedStep(rs, k, missing);
    }
  }

  /** An accepted cut is one of the two kinds; k is the record it concerns. */
  lemma {:induction false} AcceptedCut(rs: seq<Record>, cut: nat) returns (k: nat)
    requires cut <= |SerializeAll(rs)| && Truncated(rs, cut).Got?
    ensures k <= |rs|
    ensures AtBoundary(rs, cut, k) || (k < |rs| && InLastPayload(rs, cut, k))
  {
    hide Serialize;
    if cut == 0 {
      assert rs[..0] == [];
      return 0;
    }
    var one := |Serialize(rs[0])|;
    EndOfStep(rs, 1);
    assert rs[1..][..0] == [];
    if cut < one {
      return 0;
    }
    var j := AcceptedCut(rs[1..], cut - one);
    EndOfStep(rs, j + 1);
    if j + 2 <= |rs| {
      EndOfStep(rs, j + 2);
    }
    return j + 1;
  }

  /**
    Truncation: loading the first `cut` bytes of a dump succeeds exactly when
    the cut is at a record boundary or takes part of the last payload of a
    record. At a boundary the result is the records before the cut; inside a
    last payload it also has that record with its last buffer shortened.
   */
  lemma Truncation(rs: seq<Record>, cut: nat)
    requires forall r | r in rs :: Fits64(r)
    requires cut <= |SerializeAll(rs)|
    ensures var p := ParseAll(SerializeAll(rs)[..cut]);
            && (p.Got? <==> (exists k: nat :: k <= |rs| && AtBoundary(rs, cut, k))
                            || (exists k: nat :: k < |rs| && InLastPayload(rs, cut, k)))
            && (forall k: nat | k <= |rs| && AtBoundary(rs, cut, k) ::
                  p == Got(LoadedAll(rs[..k]), [], false))
            && (forall k: nat | k < |rs| && InLastPayload(rs, cut, k) ::
                  p == Got(UpToShortened(rs, k, EndOf(rs, k + 1) - cut), [], true))
  {
    hide Truncated, ParseAll, SerializeAll, UpToShortened, LastPayload, EndOf;
    TruncatedDump(rs, cut);
    forall k: nat | k <= |rs| && AtBoundary(rs, cut, k)
      ensures Truncated(rs, cut) == Got(LoadedAll(rs[..k]), [], false)
    {
      BoundaryCut(rs, k);
    }
    forall k: nat | k < |rs| && InLastPayload(rs, cut, k)
      ensures Truncated(rs, cut) == Got(UpToShortened(rs, k, EndOf(rs, k + 1) - cut), [], true)
    {
      PayloadCut(rs, k, EndOf(rs, k + 1) - cut);
    }
    if Truncated(rs, cut).Got? {
      var k := AcceptedCut(rs, cut);
      assert AtBoundary(rs, cut, k) || InLastPayload(rs, cut, k);
    }
  }
}
