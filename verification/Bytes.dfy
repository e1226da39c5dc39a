/**
  Machine words as the recorder writes them and the loader reads them:
  unsigned 64-bit integers, their two's complement reading, and their
  little-endian byte form.
 */
module Bytes {

  type Byte = x: int | 0 <= x < 256

  type U64 = x: int | 0 <= x < 0x1_0000_0000_0000_0000

  /** struct.unpack("<q"): the two's complement reading of a word. */
  function ToSigned(w: U64): int {
    if w < 0x8000_0000_0000_0000 then w else w - 0x1_0000_0000_0000_0000
  }

  /** The "K" conversion of a Python int: reduction modulo 2^64. */
  function ToU64(i: int): U64 {
    i % 0x1_0000_0000_0000_0000
  }

  /** The C conversion of a 64-bit length to `int`. */
  function ToInt32(n: int): int {
    var w := n % 0x1_0000_0000;
    if w < 0x8000_0000 then w else w - 0x1_0000_0000
  }

  /** A word written unsigned, read back signed and reduced modulo 2^64 is unchanged. */
  lemma SignedRoundTrip(w: U64)
    ensures ToU64(ToSigned(w)) == w
    ensures -0x8000_0000_0000_0000 <= ToSigned(w) < 0x8000_0000_0000_0000
  {
    if w >= 0x8000_0000_0000_0000 {
      assert ToSigned(w) == w + 0x1_0000_0000_0000_0000 * (-1);
    }
  }

  lemma Assoc(x: seq<Byte>, y: seq<Byte>, z: seq<Byte>)
    ensures (x + y) + z == x + (y + z)
  {
  }

  /** A common beginning can be dropped from both sides. */
  lemma Cancel(x: seq<Byte>, y: seq<Byte>, z: seq<Byte>)
    ensures x + y == x + z <==> y == z
  {
    assert (x + y)[|x|..] == y && (x + z)[|x|..] == z;
  }

  /** A cut of x + y lies in x or in y. */
  lemma CutOfConcat(x: seq<Byte>, y: seq<Byte>, cut: nat)
    requires cut <= |x| + |y|
    ensures (x + y)[..cut] == if cut < |x| then x[..cut] else x + y[..cut - |x|]
  {
  }

  /** The low `width` bytes of x, least significant first. */
  function LE(x: nat, width: nat): (s: seq<Byte>)
    ensures |s| == width
  {
    if width == 0 then [] else [x % 256] + LE(x / 256, width - 1)
  }

  function Pow256(n: nat): nat {
    if n == 0 then 1 else 256 * Pow256(n - 1)
  }

  lemma Multiple(k: nat, d: nat)
    requires k > 0
    ensures k * d >= d
  {
  }

  lemma Distribute(a: int, b: int, d: int)
    ensures (a - b) * d == a * d - b * d
  {
  }

  /** A quotient and remainder are the only ones. */
  lemma OneQuotient(d: nat, q: nat, rest: nat, q': nat, rest': nat)
    requires q * d + rest == q' * d + rest' && rest < d && rest' < d
    ensures q == q'
  {
    Distribute(q, q', d);
    Distribute(q', q, d);
    if q' < q {
      Multiple(q - q', d);
    } else if q < q' {
      Multiple(q' - q, d);
    }
  }

  lemma Regroup(a: nat, d: nat, b: nat)
    ensures 256 * (a * d + b) == a * (256 * d) + 256 * b
  {
  }

  lemma Nested(x: nat, y: nat, low: nat, d: nat, q: nat, rest: nat, e: nat, q': nat, rest': nat)
    requires x == 256 * y + low && low < 256 && y == q * d + rest && rest < d
    requires e == 256 * d && x == q' * e + rest' && rest' < e
    ensures q == q'
  {
    Regroup(q, d, rest);
    OneQuotient(e, q, 256 * rest + low, q', rest');
  }

  lemma Divided(x: nat, d: nat) returns (q: nat, rest: nat)
    requires d > 0
    ensures q == x / d && x == q * d + rest && rest < d
  {
    q, rest := x / d, x % d;
  }

  lemma DivideTwice(x: nat, d: nat)
    requires d > 0
    ensures x / 256 / d == x / (256 * d)
  {
    var q, rest := Divided(x / 256, d);
    var q', rest' := Divided(x, 256 * d);
    Nested(x, x / 256, x % 256, d, q, rest, 256 * d, q', rest');
  }

  /** Byte i is the i-th digit of x to the base 256: the low one is at 0. */
  lemma {:induction false} LEAt(x: nat, width: nat, i: nat)
    requires i < width
    ensures Pow256(i) > 0 && LE(x, width)[i] == x / Pow256(i) % 256
  {
    if i > 0 {
      LEAt(x / 256, width - 1, i - 1);
      DivideTwice(x, Pow256(i - 1));
    }
  }

  function UnLE(s: seq<Byte>): nat {
    if s == [] then 0 else s[0] + 256 * UnLE(s[1..])
  }

  lemma {:induction false} UnLEOfLE(x: nat, width: nat)
    requires x < Pow256(width)
    ensures UnLE(LE(x, width)) == x
  {
    if width > 0 {
      UnLEOfLE(x / 256, width - 1);
      assert LE(x, width)[1..] == LE(x / 256, width - 1);
    }
  }

  lemma DivideBy256(b: Byte, rest: nat)
    ensures (b + 256 * rest) % 256 == b && (b + 256 * rest) / 256 == rest
  {
  }

  lemma {:induction false} LEOfUnLE(s: seq<Byte>)
    ensures UnLE(s) < Pow256(|s|)
    ensures LE(UnLE(s), |s|) == s
  {
    if s != [] {
      LEOfUnLE(s[1..]);
      DivideBy256(s[0], UnLE(s[1..]));
      assert s == [s[0]] + s[1..];
    }
  }

  lemma Pow256Of8()
    ensures Pow256(8) == 0x1_0000_0000_0000_0000
  {
    assert Pow256(4) == 0x1_0000_0000;
    assert Pow256(6) == 0x1_0000_0000_0000;
  }

  /** The eight bytes of a word. Only the low 64 bits of x survive. */
  function EncodeWord(x: nat): (s: seq<Byte>)
    ensures |s| == 8
  {
    LE(x, 8)
  }

  /** The eight bytes of a word in memory, the low one first. */
  lemma WordBytes(x: U64)
    ensures EncodeWord(x) ==
            [x % 0x100, x / 0x100 % 0x100, x / 0x1_0000 % 0x100, x / 0x100_0000 % 0x100,
             x / 0x1_0000_0000 % 0x100, x / 0x100_0000_0000 % 0x100, x / 0x1_0000_0000_0000 % 0x100,
             x / 0x100_0000_0000_0000 % 0x100]
  {
    hide LE;
    PowersOf256();
    LEAt(x, 8, 0);
    LEAt(x, 8, 1);
    LEAt(x, 8, 2);
    LEAt(x, 8, 3);
    LEAt(x, 8, 4);
    LEAt(x, 8, 5);
    LEAt(x, 8, 6);
    LEAt(x, 8, 7);
  }

  lemma PowersOf256()
    ensures Pow256(0) == 1 && Pow256(1) == 0x100 && Pow256(2) == 0x1_0000 && Pow256(3) == 0x100_0000
    ensures Pow256(4) == 0x1_0000_0000 && Pow256(5) == 0x100_0000_0000 && Pow256(6) == 0x1_0000_0000_0000
    ensures Pow256(7) == 0x100_0000_0000_0000
  {
  }

  function DecodeWord(s: seq<Byte>): U64
    requires |s| == 8
  {
    LEOfUnLE(s);
    Pow256Of8();
    UnLE(s)
  }

  lemma DecodeOfEncode(x: U64)
    ensures DecodeWord(EncodeWord(x)) == x
  {
    Pow256Of8();
    UnLEOfLE(x, 8);
  }

  lemma EncodeOfDecode(s: seq<Byte>)
    requires |s| == 8
    ensures EncodeWord(DecodeWord(s)) == s
  {
    LEOfUnLE(s);
  }

  function EncodeWords(ws: seq<U64>): (s: seq<Byte>)
    ensures |s| == 8 * |ws|
  {
    if ws == [] then [] else EncodeWord(ws[0]) + EncodeWords(ws[1..])
  }

  /** Word k is at 8 * k. */
  lemma {:induction false} EncodeWordsAt(ws: seq<U64>, k: nat)
    requires k < |ws|
    ensures EncodeWords(ws)[8 * k..8 * k + 8] == EncodeWord(ws[k])
  {
    hide EncodeWord;
    var s := EncodeWords(ws);
    if k > 0 {
      EncodeWordsAt(ws[1..], k - 1);
      assert s[8..] == EncodeWords(ws[1..]);
      assert s[8..][8 * (k - 1)..8 * (k - 1) + 8] == s[8 * k..8 * k + 8];
    }
  }

  function DecodeWords(s: seq<Byte>): (ws: seq<U64>)
    requires |s| % 8 == 0
    ensures |s| == 8 * |ws|
  {
    if s == [] then [] else [DecodeWord(s[..8])] + DecodeWords(s[8..])
  }

  lemma {:induction false} DecodeOfEncodeWords(ws: seq<U64>)
    ensures DecodeWords(EncodeWords(ws)) == ws
  {
    if ws != [] {
      var s := EncodeWords(ws);
      assert s[..8] == EncodeWord(ws[0]) && s[8..] == EncodeWords(ws[1..]);
      DecodeOfEncode(ws[0]);
      DecodeOfEncodeWords(ws[1..]);
    }
  }

  lemma {:induction false} EncodeOfDecodeWords(s: seq<Byte>)
    requires |s| % 8 == 0
    ensures EncodeWords(DecodeWords(s)) == s
  {
    if s != [] {
      EncodeOfDecode(s[..8]);
      EncodeOfDecodeWords(s[8..]);
      assert DecodeWords(s)[1..] == DecodeWords(s[8..]);
      assert s == s[..8] + s[8..];
    }
  }

  /** Queueing one more word at the end appends its eight bytes. */
  lemma {:induction false} EncodeWordsAppend(ws: seq<U64>, w: U64)
    ensures EncodeWords(ws + [w]) == EncodeWords(ws) + EncodeWord(w)
  {
    hide EncodeWord;
    if ws == [] {
      assert ws + [w] == [w];
    } else {
      EncodeWordsAppend(ws[1..], w);
      assert (ws + [w])[1..] == ws[1..] + [w];
    }
  }
}
