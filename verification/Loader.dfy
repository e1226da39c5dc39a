/**
  The loader as it runs: a cursor that gives up its buffer from the front, and
  load methods that consume it. Each is tied to the parse functions.
 */
module Loader {
  import opened Bytes
  import opened Format
  import opened LoaderSpec
  import opened Wrappers

  /** struct.unpack on fewer bytes than its format needs. */
  datatype Error = StructError

  class BinaryUnpacker {
    var buffer: seq<Byte>

    constructor (buffer: seq<Byte>)
      ensures this.buffer == buffer
    {
      this.buffer := buffer;
    }

    method UnpackUnsignedLong() returns (r: Result<U64, Error>)
      modifies this
      ensures if |old(buffer)| < 8 then r == Err(StructError) && buffer == old(buffer)
              else r == Ok(DecodeWord(old(buffer)[..8])) && buffer == old(buffer)[8..]
    {
      if |buffer| < 8 {
        return Err(StructError);
      }
      r := Ok(DecodeWord(buffer[..8]));
      buffer := buffer[8..];
    }

    method UnpackSignedLong() returns (r: Result<int, Error>)
      modifies this
      ensures if |old(buffer)| < 8 then r == Err(StructError) && buffer == old(buffer)
              else r == Ok(ToSigned(DecodeWord(old(buffer)[..8]))) && buffer == old(buffer)[8..]
    {
      if |buffer| < 8 {
        return Err(StructError);
      }
      r := Ok(ToSigned(DecodeWord(buffer[..8])));
      buffer := buffer[8..];
    }

    /** Slicing past the end is not an error: a short buffer gives a short string. */
    method UnpackStr(strLen: nat) returns (s: seq<Byte>)
      modifies this
      ensures old(buffer) == s + buffer
      ensures |s| == Min(strLen, |old(buffer)|)
    {
      var n := Min(strLen, |buffer|);
      s := buffer[..n];
      buffer := buffer[n..];
    }

    predicate HasMoreBytes()
      reads this
    {
      0 != |buffer|
    }
  }

  lemma {:induction false} DecodeWordsAppend(s: seq<Byte>, e: seq<Byte>)
    requires |s| % 8 == 0 && |e| == 8
    ensures DecodeWords(s + e) == DecodeWords(s) + [DecodeWord(e)]
  {
    if s == [] {
      assert s + e == e && e[..8] == e && e[8..] == [];
    } else {
      DecodeWordsAppend(s[8..], e);
      assert (s + e)[..8] == s[..8] && (s + e)[8..] == s[8..] + e;
    }
  }

  class Loader {
    const unpacker: BinaryUnpacker

    constructor (unpacker: BinaryUnpacker)
      ensures this.unpacker == unpacker
    {
      this.unpacker := unpacker;
    }

    method LoadMemoryCopy() returns (r: Result<Copy, Error>)
      modifies unpacker
      ensures var p := ParseCopy(old(unpacker.buffer));
              if p.Fail? then r == Err(StructError)
              else r == Ok(p.value) && unpacker.buffer == p.rest
    {
      ghost var b := unpacker.buffer;
      var from := unpacker.UnpackUnsignedLong();
      if from.Err? { return Err(StructError); }
      var to := unpacker.UnpackUnsignedLong();
      if to.Err? { return Err(StructError); }
      assert b[8..][..8] == b[8..16] && b[8..][8..] == b[16..];
      var copyLen := unpacker.UnpackUnsignedLong();
      if copyLen.Err? { return Err(StructError); }
      assert b[16..][..8] == b[16..24] && b[16..][8..] == b[24..];
      var bytes := unpacker.UnpackStr(copyLen.value);
      assert bytes == b[24..24 + |bytes|] && unpacker.buffer == b[24 + |bytes|..];
      r := Ok(Copy(from.value, to.value, bytes));
    }

    method LoadMemoryCopies() returns (r: Result<seq<Copy>, Error>)
      modifies unpacker
      ensures |old(unpacker.buffer)| < 8 ==> r == Err(StructError)
      ensures |old(unpacker.buffer)| >= 8 ==>
                var p := ParseCopies(DecodeWord(old(unpacker.buffer)[..8]), old(unpacker.buffer)[8..]);
                if p.Fail? then r == Err(StructError)
                else r == Ok(p.value) && unpacker.buffer == p.rest
    {
      var numberOfCopies := unpacker.UnpackUnsignedLong();
      if numberOfCopies.Err? { return Err(StructError); }
      r := LoadCopies(numberOfCopies.value);
    }

    /** The list comprehension over range(n). */
    method LoadCopies(n: nat) returns (r: Result<seq<Copy>, Error>)
      modifies unpacker
      ensures var p := ParseCopies(n, old(unpacker.buffer));
              if p.Fail? then r == Err(StructError)
              else r == Ok(p.value) && unpacker.buffer == p.rest
    {
      ghost var b := unpacker.buffer;
      ghost var short := false;
      var copies: seq<Copy> := [];
      NothingBefore(n, b);
      var failed := false;
      hide ParseCopies, ParseCopy, PrefixedCopies;
      var left := n;
      while left > 0 && !failed
        invariant if failed then ParseCopies(n, b).Fail?
                  else ParseCopies(n, b) == PrefixedCopies(copies, short, ParseCopies(left, unpacker.buffer))
        decreases !failed, left
      {
        PrefixOneMoreCopy(copies, short, left, unpacker.buffer);
        ghost var head := ParseCopy(unpacker.buffer);
        var copy := LoadMemoryCopy();
        if copy.Err? {
          failed := true;
        } else {
          copies := copies + [copy.value];
          short := short || head.short;
          left := left - 1;
        }
      }
      AllBefore(copies, short, unpacker.buffer);
      r := if failed then Err(StructError) else Ok(copies);
    }

    method LoadRegisterValues() returns (r: Result<WordRegisters, Error>)
      modifies unpacker
      ensures if |old(unpacker.buffer)| < 168 then r == Err(StructError)
              else r == Ok(FromList(DecodeWords(old(unpacker.buffer)[..168])))
                   && unpacker.buffer == old(unpacker.buffer)[168..]
    {
      ghost var b := unpacker.buffer;
      var words: seq<U64> := [];
      for i := 0 to 21
        invariant |b| >= 8 * i && unpacker.buffer == b[8 * i..]
        invariant words == DecodeWords(b[..8 * i])
      {
        var word := unpacker.UnpackUnsignedLong();
        if word.Err? { return Err(StructError); }
        DecodeWordsAppend(b[..8 * i], b[8 * i..][..8]);
        assert b[..8 * (i + 1)] == b[..8 * i] + b[8 * i..][..8];
        words := words + [word.value];
      }
      r := Ok(FromList(words));
    }

    method LoadSystemCall() returns (r: Result<SystemCall, Error>)
      modifies unpacker
      ensures var p := ParseCall(old(unpacker.buffer));
              if p.Fail? then r == Err(StructError)
              else r == Ok(p.value) && unpacker.buffer == p.rest
    {
      ghost var b := unpacker.buffer;
      var registers := LoadRegisterValues();
      if registers.Err? { return Err(StructError); }
      var returnValue := unpacker.UnpackSignedLong();
      if returnValue.Err? { return Err(StructError); }
      assert b[168..][..8] == b[168..176] && b[168..][8..] == b[176..];
      var memoryCopies := LoadMemoryCopies();
      assert |b| >= 184 ==> b[176..][..8] == b[176..184] && b[176..][8..] == b[184..];
      if memoryCopies.Err? { return Err(StructError); }
      r := Ok(SystemCall(registers.value, returnValue.value, memoryCopies.value));
    }

    /** The generator run to its end: every call in the buffer, or the first error. */
    method LoadSystemCalls() returns (r: Result<seq<SystemCall>, Error>)
      modifies unpacker
      ensures var p := ParseAll(old(unpacker.buffer));
              if p.Fail? then r == Err(StructError)
              else r == Ok(p.value) && !unpacker.HasMoreBytes()
    {
      ghost var b := unpacker.buffer;
      ghost var short := false;
      var calls: seq<SystemCall> := [];
      assert forall t: seq<SystemCall> :: calls + t == t;
      var failed := false;
      while unpacker.HasMoreBytes() && !failed
        invariant if failed then ParseAll(b).Fail? else ParseAll(b) == Prefixed(calls, short, ParseAll(unpacker.buffer))
        decreases !failed, |unpacker.buffer|
      {
        PrefixOneMore(calls, short, unpacker.buffer);
        ghost var head := ParseCall(unpacker.buffer);
        var call := LoadSystemCall();
        hide ParseAll, ParseCall, Prefixed;
        if call.Err? {
          failed := true;
        } else {
          calls := calls + [call.value];
          short := short || head.short;
        }
      }
      if failed {
        r := Err(StructError);
      } else {
        assert calls + [] == calls;
        r := Ok(calls);
      }
    }
  }

  /** A parse of the rest of the buffer, with the calls already loaded in front. */
  ghost function Prefixed(calls: seq<SystemCall>, short: bool, p: Parsed<seq<SystemCall>>): Parsed<seq<SystemCall>> {
    if p.Fail? then Fail else Got(calls + p.value, [], short || p.short)
  }

  lemma PrefixOneMore(calls: seq<SystemCall>, short: bool, b: seq<Byte>)
    requires b != []
    ensures var head := ParseCall(b);
            if head.Fail? then Prefixed(calls, short, ParseAll(b)) == Fail
            else
              && |head.rest| < |b|
              && Prefixed(calls, short, ParseAll(b)) ==
                   Prefixed(calls + [head.value], short || head.short, ParseAll(head.rest))
  {
    var head := ParseCall(b);
    hide ParseCall;
    if head.Got? && ParseAll(head.rest).Got? {
      var tail := ParseAll(head.rest).value;
      assert calls + ([head.value] + tail) == (calls + [head.value]) + tail;
    }
  }

  ghost function PrefixedCopies(copies: seq<Copy>, short: bool, p: Parsed<seq<Copy>>): Parsed<seq<Copy>> {
    if p.Fail? then Fail else Got(copies + p.value, p.rest, short || p.short)
  }

  lemma NothingBefore(n: nat, b: seq<Byte>)
    ensures PrefixedCopies([], false, ParseCopies(n, b)) == ParseCopies(n, b)
  {
    assert forall t: seq<Copy> :: [] + t == t;
  }

  lemma AllBefore(copies: seq<Copy>, short: bool, b: seq<Byte>)
    ensures PrefixedCopies(copies, short, ParseCopies(0, b)) == Got(copies, b, short)
  {
    assert copies + [] == copies;
  }

  lemma PrefixOneMoreCopy(copies: seq<Copy>, short: bool, n: nat, b: seq<Byte>)
    requires n > 0
    ensures var head := ParseCopy(b);
            if head.Fail? then PrefixedCopies(copies, short, ParseCopies(n, b)).Fail?
            else PrefixedCopies(copies, short, ParseCopies(n, b)) ==
                 PrefixedCopies(copies + [head.value], short || head.short, ParseCopies(n - 1, head.rest))
  {
    var head := ParseCopy(b);
    hide ParseCopy;
    if head.Got? && ParseCopies(n - 1, head.rest).Got? {
      var tail := ParseCopies(n - 1, head.rest).value;
      assert copies + ([head.value] + tail) == (copies + [head.value]) + tail;
    }
  }
}
