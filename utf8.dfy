/** Strict UTF-8, as `bytes.decode('utf-8')` applies it to the output of the Base64
    decoder: overlong forms, surrogates and code points above U+10FFFF are errors. */
module Utf8 {
  import opened Util

  predicate IsCont(b: Byte) {
    0x80 <= b <= 0xBF
  }

  /** Allowed range of the second byte of a three-byte sequence with lead byte b0. */
  function Second3Lo(b0: Byte): Byte { if b0 == 0xE0 then 0xA0 else 0x80 }
  function Second3Hi(b0: Byte): Byte { if b0 == 0xED then 0x9F else 0xBF }

  /** Allowed range of the second byte of a four-byte sequence with lead byte b0. */
  function Second4Lo(b0: Byte): Byte { if b0 == 0xF0 then 0x90 else 0x80 }
  function Second4Hi(b0: Byte): Byte { if b0 == 0xF4 then 0x8F else 0xBF }

  /** The first character of b and the number of bytes it takes, or None when b does
      not start with a well-formed sequence. */
  function DecodeChar(b: seq<Byte>): (r: Option<(char, nat)>)
    requires b != []
    ensures r.Some? ==> 1 <= r.value.1 <= |b| && r.value.1 <= 4
  {
    var b0: int := b[0];
    var b1: int := if |b| >= 2 then b[1] else 0;
    var b2: int := if |b| >= 3 then b[2] else 0;
    var b3: int := if |b| >= 4 then b[3] else 0;
    if b0 < 0x80 then Some((b0 as char, 1))
    else if 0xC2 <= b0 <= 0xDF then
      if |b| >= 2 && IsCont(b[1]) then Some((((b0 - 0xC0) * 64 + (b1 - 0x80)) as char, 2))
      else None
    else if 0xE0 <= b0 <= 0xEF then
      if |b| >= 3 && Second3Lo(b0) <= b[1] <= Second3Hi(b0) && IsCont(b[2]) then
        Some((((b0 - 0xE0) * 4096 + (b1 - 0x80) * 64 + (b2 - 0x80)) as char, 3))
      else None
    else if 0xF0 <= b0 <= 0xF4 then
      if |b| >= 4 && Second4Lo(b0) <= b[1] <= Second4Hi(b0) && IsCont(b[2]) && IsCont(b[3]) then
        Some((((b0 - 0xF0) * 262144 + (b1 - 0x80) * 4096 + (b2 - 0x80) * 64 + (b3 - 0x80)) as char, 4))
      else None
    else None
  }

  /** `b.decode('utf-8')`; None where Python raises UnicodeDecodeError. */
  function Decode(b: seq<Byte>): Option<string>
    decreases |b|
  {
    if b == [] then Some("")
    else
      match DecodeChar(b)
      case None => None
      case Some((c, n)) =>
        match Decode(b[n..])
        case None => None
        case Some(rest) => Some([c] + rest)
  }

  /** The UTF-8 encoding of one character. */
  function EncodeChar(c: char): (r: seq<Byte>)
    ensures 1 <= |r| <= 4
  {
    var x := c as int;
    if x < 0x80 then [x]
    else if x < 0x800 then [0xC0 + x / 64, 0x80 + x % 64]
    else if x < 0x10000 then [0xE0 + x / 4096, 0x80 + (x / 64) % 64, 0x80 + x % 64]
    else [0xF0 + x / 262144, 0x80 + (x / 4096) % 64, 0x80 + (x / 64) % 64, 0x80 + x % 64]
  }

  /** `s.encode('utf-8')`. */
  function Encode(s: string): seq<Byte> {
    if s == [] then [] else EncodeChar(s[0]) + Encode(s[1..])
  }

  lemma DecodeEncodeChar2(c: char, t: seq<Byte>)
    requires 0x80 <= c as int < 0x800
    ensures DecodeChar(EncodeChar(c) + t) == Some((c, 2))
  {
    var x := c as int;
    var b := EncodeChar(c) + t;
    assert b[0] == 0xC0 + x / 64 && b[1] == 0x80 + x % 64;
    assert (x / 64) * 64 + x % 64 == x;
  }

  lemma DecodeEncodeChar3(c: char, t: seq<Byte>)
    requires 0x800 <= c as int < 0x10000
    ensures DecodeChar(EncodeChar(c) + t) == Some((c, 3))
  {
    var x := c as int;
    var b := EncodeChar(c) + t;
    var hi, mid, lo := x / 4096, (x / 64) % 64, x % 64;
    assert b[0] == 0xE0 + hi && b[1] == 0x80 + mid && b[2] == 0x80 + lo;
    assert x / 64 == hi * 64 + mid;
    assert x == hi * 4096 + mid * 64 + lo;
    assert hi == 0 ==> mid >= 32;
    assert hi == 13 ==> mid < 32;
  }

  lemma DecodeEncodeChar4(c: char, t: seq<Byte>)
    requires 0x10000 <= c as int
    ensures DecodeChar(EncodeChar(c) + t) == Some((c, 4))
  {
    var x := c as int;
    var b := EncodeChar(c) + t;
    var top, hi, mid, lo := x / 262144, (x / 4096) % 64, (x / 64) % 64, x % 64;
    assert b[0] == 0xF0 + top && b[1] == 0x80 + hi && b[2] == 0x80 + mid && b[3] == 0x80 + lo;
    assert x / 64 == (x / 4096) * 64 + mid;
    assert x / 4096 == top * 64 + hi;
    assert x == top * 262144 + hi * 4096 + mid * 64 + lo;
    assert top == 0 ==> hi >= 16;
    assert top == 4 ==> hi < 16;
  }

  /** Decoding the encoding of a character consumes exactly that encoding. */
  lemma DecodeEncodeChar(c: char, t: seq<Byte>)
    ensures DecodeChar(EncodeChar(c) + t) == Some((c, |EncodeChar(c)|))
  {
    var x := c as int;
    if x < 0x80 {
    } else if x < 0x800 {
      DecodeEncodeChar2(c, t);
    } else if x < 0x10000 {
      DecodeEncodeChar3(c, t);
    } else {
      DecodeEncodeChar4(c, t);
    }
  }

  /** Round trip: decoding an encoding gives back the text. */
  lemma {:induction false} DecodeEncode(s: string)
    ensures Decode(Encode(s)) == Some(s)
    decreases |s|
  {
    if s != [] {
      var e := EncodeChar(s[0]);
      var b := Encode(s);
      assert b == e + Encode(s[1..]);
      DecodeEncodeChar(s[0], Encode(s[1..]));
      assert b[|e|..] == Encode(s[1..]);
      DecodeEncode(s[1..]);
      assert [s[0]] + s[1..] == s;
    }
  }
}
