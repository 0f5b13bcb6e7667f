/** Base64 as the episode resolver uses it: `base64.b64decode(url)` in its default,
    non-validating mode (CPython's binascii.a2b_base64), over the alphabet of
    section 4 of RFC 4648, together with the padded encoder of that section. */
module Base64 {
  import opened Util

  /** The 6-bit value of an alphabet character; None for '=' and every other character. */
  function SextetOf(c: char): (r: Option<nat>)
    ensures r.Some? ==> r.value < 64
  {
    if 'A' <= c <= 'Z' then Some(c as int - 'A' as int)
    else if 'a' <= c <= 'z' then Some(c as int - 'a' as int + 26)
    else if '0' <= c <= '9' then Some(c as int - '0' as int + 52)
    else if c == '+' then Some(62)
    else if c == '/' then Some(63)
    else None
  }

  /** The alphabet character of a 6-bit value. */
  function SextetChar(v: nat): (c: char)
    requires v < 64
    ensures SextetOf(c) == Some(v)
    ensures IsB64Char(c) && c != '='
  {
    if v < 26 then ('A' as int + v) as char
    else if v < 52 then ('a' as int + v - 26) as char
    else if v < 62 then ('0' as int + v - 52) as char
    else if v == 62 then '+'
    else '/'
  }

  /** The character class `[A-Za-z0-9+/=]`. */
  predicate IsB64Char(c: char) {
    'A' <= c <= 'Z' || 'a' <= c <= 'z' || '0' <= c <= '9' || c == '+' || c == '/' || c == '='
  }

  /** Invariant of the decoder: the bits left over from the current quad fit in
      the space the next output byte leaves for them. */
  predicate QuadState(quad: nat, left: nat) {
    quad <= 3 && (quad == 1 ==> left < 64) && (quad == 2 ==> left < 16) && (quad == 3 ==> left < 4)
  }

  /** The decoding loop: `quad` is the position inside the current group of four,
      `left` the pending bits, `pads` the '=' seen since the last data character.
      Characters outside the alphabet are skipped; '=' ends the data once it
      completes a group; input that stops inside a group is an error. */
  function DecodeFrom(s: string, quad: nat, left: nat, pads: nat, acc: seq<Byte>): Option<seq<Byte>>
    requires QuadState(quad, left)
    decreases |s|
  {
    if s == [] then
      if quad == 0 then Some(acc) else None
    else if s[0] == '=' then
      if quad >= 2 && quad + pads + 1 >= 4 then Some(acc)
      else DecodeFrom(s[1..], quad, left, if quad >= 2 then pads + 1 else pads, acc)
    else
      match SextetOf(s[0])
      case None => DecodeFrom(s[1..], quad, left, pads, acc)
      case Some(v) =>
        if quad == 0 then DecodeFrom(s[1..], 1, v, 0, acc)
        else if quad == 1 then DecodeFrom(s[1..], 2, v % 16, 0, acc + [left * 4 + v / 16])
        else if quad == 2 then DecodeFrom(s[1..], 3, v % 4, 0, acc + [left * 16 + v / 4])
        else DecodeFrom(s[1..], 0, 0, 0, acc + [left * 64 + v])
  }

  /** `base64.b64decode(s)`; None where Python raises (a non-ASCII string, an
      incomplete final group). */
  function Decode(s: string): Option<seq<Byte>> {
    if !IsAscii(s) then None else DecodeFrom(s, 0, 0, 0, [])
  }

  /** Encoding of section 4 of RFC 4648, with '=' padding. */
  function Encode(b: seq<Byte>): (s: string)
    ensures |s| == 4 * ((|b| + 2) / 3)
    ensures forall i | 0 <= i < |s| :: IsB64Char(s[i])
    decreases |b|
  {
    if |b| == 0 then ""
    else if |b| == 1 then [SextetChar(b[0] / 4), SextetChar((b[0] % 4) * 16), '=', '=']
    else if |b| == 2 then
      [SextetChar(b[0] / 4), SextetChar((b[0] % 4) * 16 + b[1] / 16), SextetChar((b[1] % 16) * 4), '=']
    else
      assert (|b| + 2) / 3 == (|b[3..]| + 2) / 3 + 1;
      Quad(b[0], b[1], b[2]) + Encode(b[3..])
  }

  function Quad(x: Byte, y: Byte, z: Byte): (q: string)
    ensures |q| == 4 && forall i | 0 <= i < 4 :: IsB64Char(q[i])
  {
    [SextetChar(x / 4), SextetChar((x % 4) * 16 + y / 16), SextetChar((y % 16) * 4 + z / 64), SextetChar(z % 64)]
  }

  lemma EncodeIsAscii(b: seq<Byte>)
    ensures IsAscii(Encode(b))
  {
    var s := Encode(b);
    forall i | 0 <= i < |s| ensures s[i] as int < 128 {
      assert IsB64Char(s[i]);
    }
  }

  /** The four sextets of a group put back together give its three bytes. */
  lemma QuadBits(x: Byte, y: Byte, z: Byte)
    ensures var a, b, c, d := x / 4, (x % 4) * 16 + y / 16, (y % 16) * 4 + z / 64, z % 64;
      && a * 4 + b / 16 == x && (b % 16) * 16 + c / 4 == y && (c % 4) * 64 + d == z
  {
  }

  /** The characters of a group of four followed by t, one at a time. */
  lemma QuadChars(x: Byte, y: Byte, z: Byte, t: string)
    ensures var q, s := Quad(x, y, z), Quad(x, y, z) + t;
      && s[0] == SextetChar(x / 4) && s[1..] == q[1..] + t
      && (q[1..] + t)[0] == SextetChar((x % 4) * 16 + y / 16) && (q[1..] + t)[1..] == q[2..] + t
      && (q[2..] + t)[0] == SextetChar((y % 16) * 4 + z / 64) && (q[2..] + t)[1..] == q[3..] + t
      && (q[3..] + t)[0] == SextetChar(z % 64) && (q[3..] + t)[1..] == t
  {
  }

  /** Decoding one full group of four yields its three bytes. */
  lemma {:induction false} DecodeQuad(x: Byte, y: Byte, z: Byte, t: string, acc: seq<Byte>)
    ensures DecodeFrom(Quad(x, y, z) + t, 0, 0, 0, acc) == DecodeFrom(t, 0, 0, 0, acc + [x, y, z])
  {
    var q := Quad(x, y, z);
    var a, b, c, d := x / 4, (x % 4) * 16 + y / 16, (y % 16) * 4 + z / 64, z % 64;
    var s := q + t;
    QuadChars(x, y, z, t);
    QuadBits(x, y, z);
    calc {
      DecodeFrom(s, 0, 0, 0, acc);
      DecodeFrom(q[1..] + t, 1, a, 0, acc);
      DecodeFrom(q[2..] + t, 2, b % 16, 0, acc + [x]);
      DecodeFrom(q[3..] + t, 3, c % 4, 0, acc + [x] + [y]);
      DecodeFrom(t, 0, 0, 0, acc + [x] + [y] + [z]);
      { assert acc + [x] + [y] + [z] == acc + [x, y, z]; }
      DecodeFrom(t, 0, 0, 0, acc + [x, y, z]);
    }
  }

  /** Decoding the padded encoding of a final single byte. */
  lemma DecodeTail1(x: Byte, acc: seq<Byte>)
    ensures DecodeFrom(Encode([x]), 0, 0, 0, acc) == Some(acc + [x])
  {
    var s := Encode([x]);
    var a, c := x / 4, (x % 4) * 16;
    assert s[0] == SextetChar(a) && s[1..] == [SextetChar(c), '=', '='];
    assert s[1..][1..] == ['=', '='] && s[1..][1..][1..] == ['='];
    assert a * 4 + c / 16 == x;
    calc {
      DecodeFrom(s, 0, 0, 0, acc);
      DecodeFrom(s[1..], 1, a, 0, acc);
      DecodeFrom(s[1..][1..], 2, c % 16, 0, acc + [x]);
      DecodeFrom(s[1..][1..][1..], 2, c % 16, 1, acc + [x]);
      Some(acc + [x]);
    }
  }

  /** Decoding the padded encoding of two final bytes. */
  lemma DecodeTail2(x: Byte, y: Byte, acc: seq<Byte>)
    ensures DecodeFrom(Encode([x, y]), 0, 0, 0, acc) == Some(acc + [x, y])
  {
    var s := Encode([x, y]);
    var a, c, d := x / 4, (x % 4) * 16 + y / 16, (y % 16) * 4;
    assert s[0] == SextetChar(a) && s[1..] == [SextetChar(c), SextetChar(d), '='];
    assert s[1..][1..] == [SextetChar(d), '='] && s[1..][1..][1..] == ['='];
    assert a * 4 + c / 16 == x;
    assert (c % 16) * 16 + d / 4 == y;
    calc {
      DecodeFrom(s, 0, 0, 0, acc);
      DecodeFrom(s[1..], 1, a, 0, acc);
      DecodeFrom(s[1..][1..], 2, c % 16, 0, acc + [x]);
      DecodeFrom(s[1..][1..][1..], 3, d % 4, 0, acc + [x] + [y]);
      Some(acc + [x] + [y]);
      { assert acc + [x] + [y] == acc + [x, y]; }
      Some(acc + [x, y]);
    }
  }

  lemma HeadThenRest(acc: seq<Byte>, b: seq<Byte>)
    requires |b| >= 3
    ensures acc + [b[0], b[1], b[2]] + b[3..] == acc + b
  {
    assert b == [b[0], b[1], b[2]] + b[3..];
  }

  /** Round trip: decoding an encoding gives back the bytes. */
  lemma {:induction false} DecodeEncodeFrom(b: seq<Byte>, acc: seq<Byte>)
    ensures DecodeFrom(Encode(b), 0, 0, 0, acc) == Some(acc + b)
    decreases |b|
  {
    if |b| == 0 {
      assert acc + b == acc;
    } else if |b| == 1 {
      assert b == [b[0]];
      DecodeTail1(b[0], acc);
    } else if |b| == 2 {
      assert b == [b[0], b[1]];
      DecodeTail2(b[0], b[1], acc);
    } else {
      DecodeQuad(b[0], b[1], b[2], Encode(b[3..]), acc);
      DecodeEncodeFrom(b[3..], acc + [b[0], b[1], b[2]]);
      HeadThenRest(acc, b);
    }
  }

  lemma DecodeEncode(b: seq<Byte>)
    ensures Decode(Encode(b)) == Some(b)
  {
    EncodeIsAscii(b);
    DecodeEncodeFrom(b, []);
    assert [] + b == b;
  }
}
