/**
 * Python's strict `str.encode('utf-8')` and `bytes.decode('utf-8')`.
 * Strings are sequences of Unicode scalar values; decoding accepts exactly the
 * well-formed byte sequences of the Unicode standard (table 3-7 of chapter 3):
 * no overlong forms, no surrogates, nothing above U+10FFFF.
 */
module Utf8 {
  import opened Wrappers

  type byte = x: int | 0 <= x < 256

  /** The bytes of one character. */
  function EncodeChar(c: char): (r: seq<byte>)
    ensures 1 <= |r| <= 4
  {
    var n := c as int;
    if n < 0x80 then [n]
    else if n < 0x800 then [0xC0 + n / 64, 0x80 + n % 64]
    else if n < 0x10000 then [0xE0 + n / 64 / 64, 0x80 + n / 64 % 64, 0x80 + n % 64]
    else [0xF0 + n / 64 / 64 / 64, 0x80 + n / 64 / 64 % 64, 0x80 + n / 64 % 64, 0x80 + n % 64]
  }

  /** `s.encode('utf-8')`. */
  function Encode(s: string): (r: seq<byte>)
    ensures |s| <= |r| <= 4 * |s|
  {
    if s == [] then [] else EncodeChar(s[0]) + Encode(s[1..])
  }

  predicate IsContinuation(b: byte) {
    0x80 <= b < 0xC0
  }

  /** The first character of `b` and the number of bytes it takes, or None when `b` does not start well-formed. */
  function DecodeFirst(b: seq<byte>): (r: Option<(char, nat)>)
    requires |b| > 0
    ensures r.Some? ==> 1 <= r.value.1 <= |b| && r.value.1 <= 4
  {
    var b0 := b[0] as int;
    if b0 < 0x80 then Some((b0 as char, 1))
    else if 0xC2 <= b0 <= 0xDF then
      if |b| < 2 || !IsContinuation(b[1]) then None
      else Some((((b0 - 0xC0) * 64 + (b[1] as int - 0x80)) as char, 2))
    else if 0xE0 <= b0 <= 0xEF then
      if |b| < 3 || !IsContinuation(b[1]) || !IsContinuation(b[2]) then None
      else if b0 == 0xE0 && b[1] < 0xA0 then None       // overlong
      else if b0 == 0xED && b[1] > 0x9F then None       // surrogate
      else Some((((b0 - 0xE0) * 4096 + (b[1] as int - 0x80) * 64 + (b[2] as int - 0x80)) as char, 3))
    else if 0xF0 <= b0 <= 0xF4 then
      if |b| < 4 || !IsContinuation(b[1]) || !IsContinuation(b[2]) || !IsContinuation(b[3]) then None
      else if b0 == 0xF0 && b[1] < 0x90 then None       // overlong
      else if b0 == 0xF4 && b[1] > 0x8F then None       // above U+10FFFF
      else Some((((b0 - 0xF0) * 262144 + (b[1] as int - 0x80) * 4096 + (b[2] as int - 0x80) * 64 + (b[3] as int - 0x80)) as char, 4))
    else None
  }

  /** `b.decode('utf-8')`, with None where Python raises UnicodeDecodeError. */
  function Decode(b: seq<byte>): (r: Option<string>)
    ensures r.Some? ==> |r.value| <= |b|
    decreases |b|
  {
    if b == [] then Some([])
    else match DecodeFirst(b)
      case None => None
      case Some((c, k)) =>
        match Decode(b[k..])
        case None => None
        case Some(rest) => Some([c] + rest)
  }

  /** Splitting off the low six bits. */
  lemma DivMod64(n: int)
    requires n >= 0
    ensures n == n / 64 * 64 + n % 64 && 0 <= n % 64 < 64 && n / 64 >= 0
  {
  }

  /** Six low bits put back together with the rest are taken apart again. */
  lemma Join64(n: int, x: int, y: int)
    requires 0 <= y < 64 && n == x * 64 + y
    ensures n / 64 == x && n % 64 == y
  {
  }

  /** The first character of an encoding decodes back, whatever follows it. */
  lemma {:induction false} DecodeFirstEncodeChar(c: char, rest: seq<byte>)
    ensures DecodeFirst(EncodeChar(c) + rest) == Some((c, |EncodeChar(c)|))
  {
    var n := c as int;
    if n < 0x80 {
    } else if n < 0x800 {
      DecodeFirstTwo(c, rest);
    } else if n < 0x10000 {
      DecodeFirstThree(c, rest);
    } else {
      DecodeFirstFour(c, rest);
    }
  }

  lemma {:induction false} DecodeFirstTwo(c: char, rest: seq<byte>)
    requires 0x80 <= c as int < 0x800
    ensures DecodeFirst(EncodeChar(c) + rest) == Some((c, 2))
  {
    var n := c as int;
    DivMod64(n);
    var b := EncodeChar(c) + rest;
    assert b[0] == 0xC0 + n / 64 && b[1] == 0x80 + n % 64;
  }

  lemma {:induction false} DecodeFirstThree(c: char, rest: seq<byte>)
    requires 0x800 <= c as int < 0x10000
    ensures DecodeFirst(EncodeChar(c) + rest) == Some((c, 3))
  {
    var n := c as int;
    DivMod64(n);
    DivMod64(n / 64);
    var b := EncodeChar(c) + rest;
    assert b[0] == 0xE0 + n / 64 / 64 && b[1] == 0x80 + n / 64 % 64 && b[2] == 0x80 + n % 64;
    assert n == (n / 64 / 64) * 4096 + (n / 64 % 64) * 64 + n % 64;
  }

  lemma {:induction false} DecodeFirstFour(c: char, rest: seq<byte>)
    requires 0x10000 <= c as int
    ensures DecodeFirst(EncodeChar(c) + rest) == Some((c, 4))
  {
    var n := c as int;
    DivMod64(n);
    DivMod64(n / 64);
    DivMod64(n / 64 / 64);
    var b := EncodeChar(c) + rest;
    assert b[0] == 0xF0 + n / 64 / 64 / 64 && b[1] == 0x80 + n / 64 / 64 % 64;
    assert b[2] == 0x80 + n / 64 % 64 && b[3] == 0x80 + n % 64;
    assert n == (n / 64 / 64 / 64) * 262144 + (n / 64 / 64 % 64) * 4096 + (n / 64 % 64) * 64 + n % 64;
  }

  /** Whatever the decoder accepts as one character is exactly that character's encoding. */
  lemma {:induction false} DecodeFirstIsEncoding(b: seq<byte>)
    requires |b| > 0 && DecodeFirst(b).Some?
    ensures b[..DecodeFirst(b).value.1] == EncodeChar(DecodeFirst(b).value.0)
  {
    var b0 := b[0] as int;
    if b0 < 0x80 {
    } else if b0 <= 0xDF {
      TwoIsEncoding(b);
    } else if b0 <= 0xEF {
      ThreeIsEncoding(b);
    } else {
      FourIsEncoding(b);
    }
  }

  lemma {:induction false} TwoIsEncoding(b: seq<byte>)
    requires |b| > 0 && DecodeFirst(b).Some? && 0x80 <= b[0] <= 0xDF
    ensures b[..2] == EncodeChar(DecodeFirst(b).value.0)
  {
    var n := DecodeFirst(b).value.0 as int;
    var x: int, y: int := b[0] as int - 0xC0, b[1] as int - 0x80;
    Join64(n, x, y);
  }

  lemma {:induction false} ThreeIsEncoding(b: seq<byte>)
    requires |b| > 0 && DecodeFirst(b).Some? && 0xE0 <= b[0] <= 0xEF
    ensures b[..3] == EncodeChar(DecodeFirst(b).value.0)
  {
    var n := DecodeFirst(b).value.0 as int;
    var x: int, y: int, z: int := b[0] as int - 0xE0, b[1] as int - 0x80, b[2] as int - 0x80;
    Join64(n, x * 64 + y, z);
    Join64(n / 64, x, y);
  }

  lemma {:induction false} FourIsEncoding(b: seq<byte>)
    requires |b| > 0 && DecodeFirst(b).Some? && 0xF0 <= b[0]
    ensures b[..4] == EncodeChar(DecodeFirst(b).value.0)
  {
    var n := DecodeFirst(b).value.0 as int;
    var w: int, x: int, y: int, z: int := b[0] as int - 0xF0, b[1] as int - 0x80, b[2] as int - 0x80, b[3] as int - 0x80;
    Join64(n, w * 4096 + x * 64 + y, z);
    Join64(n / 64, w * 64 + x, y);
    Join64(n / 64 / 64, w, x);
  }

  /** Round trip: decoding an encoding gives the original text back. */
  lemma {:induction false} DecodeEncode(s: string)
    ensures Decode(Encode(s)) == Some(s)
  {
    if s != [] {
      var e := EncodeChar(s[0]);
      DecodeFirstEncodeChar(s[0], Encode(s[1..]));
      assert (e + Encode(s[1..]))[|e|..] == Encode(s[1..]);
      DecodeEncode(s[1..]);
      assert [s[0]] + s[1..] == s;
    }
  }

  /** Round trip the other way: bytes that decode are the encoding of what they decode to. */
  lemma {:induction false} EncodeDecode(b: seq<byte>)
    requires Decode(b).Some?
    ensures Encode(Decode(b).value) == b
    decreases |b|
  {
    if b != [] {
      var k := DecodeFirst(b).value.1;
      var c := DecodeFirst(b).value.0;
      var t := Decode(b[k..]).value;
      calc {
        Encode(Decode(b).value);
        { DecodeCons(b); }
        Encode([c] + t);
        { EncodeCons(c, t); }
        EncodeChar(c) + Encode(t);
        { DecodeFirstIsEncoding(b); EncodeDecode(b[k..]); }
        b[..k] + b[k..];
        b;
      }
    }
  }

  lemma {:induction false} DecodeCons(b: seq<byte>)
    requires b != [] && Decode(b).Some?
    ensures DecodeFirst(b).Some? && Decode(b[DecodeFirst(b).value.1..]).Some?
    ensures Decode(b).value == [DecodeFirst(b).value.0] + Decode(b[DecodeFirst(b).value.1..]).value
  {
  }

  lemma {:induction false} EncodeCons(c: char, t: string)
    ensures Encode([c] + t) == EncodeChar(c) + Encode(t)
  {
    assert ([c] + t)[1..] == t;
  }
}
