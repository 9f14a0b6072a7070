/** UTF-8, as `str.encode("utf-8")` produces it and a strict decoder reads
    it back (RFC 3629). A Dafny `char` is a Unicode scalar value, so every
    string can be encoded. */
module Utf8 {
  import opened Wrappers

  newtype byte = x: int | 0 <= x < 256

  predicate IsCont(b: byte) {
    0x80 <= b < 0xC0
  }

  /** Number of bytes UTF-8 uses for code point `cp`. */
  function Width(cp: int): (w: int)
    ensures 1 <= w <= 4
  {
    if cp < 0x80 then 1 else if cp < 0x800 then 2 else if cp < 0x1_0000 then 3 else 4
  }

  /** The bytes of one character: a lead byte carrying the top bits, then
      continuation bytes carrying six bits each. */
  function EncodeChar(c: char): (r: seq<byte>)
    ensures |r| == Width(c as int)
    ensures forall k :: 1 <= k < |r| ==> IsCont(r[k])
  {
    var cp := c as int;
    if cp < 0x80 then
      [cp as byte]
    else if cp < 0x800 then
      [(0xC0 + cp / 64) as byte, (0x80 + cp % 64) as byte]
    else if cp < 0x1_0000 then
      [(0xE0 + cp / 4096) as byte, (0x80 + (cp / 64) % 64) as byte, (0x80 + cp % 64) as byte]
    else
      [(0xF0 + cp / 262144) as byte, (0x80 + (cp / 4096) % 64) as byte,
       (0x80 + (cp / 64) % 64) as byte, (0x80 + cp % 64) as byte]
  }

  /** `s.encode("utf-8")`. */
  function Encode(s: string): seq<byte> {
    if s == [] then [] else EncodeChar(s[0]) + Encode(s[1..])
  }

  /** A code point Dafny (and UTF-8) admits as a character: not a surrogate
      and at most U+10FFFF. */
  predicate IsScalar(cp: int) {
    (0 <= cp < 0xD800) || (0xE000 <= cp <= 0x10_FFFF)
  }

  /** Reads one character from the front of `bs`, rejecting truncated
      sequences, stray continuation bytes, overlong forms, surrogates and
      code points beyond U+10FFFF. On success gives the character and the
      number of bytes it used. */
  function DecodeChar(bs: seq<byte>): (r: Option<(char, nat)>)
    ensures r.Some? ==> 1 <= r.value.1 <= |bs| && r.value.1 == Width(r.value.0 as int)
  {
    if bs == [] then None
    else
      var b0 := bs[0] as int;
      if b0 < 0x80 then Some((b0 as char, 1))
      else if 0xC2 <= b0 < 0xE0 then
        if |bs| < 2 || !IsCont(bs[1]) then None
        else
          var cp := (b0 - 0xC0) * 64 + (bs[1] as int - 0x80);
          Some((cp as char, 2))
      else if 0xE0 <= b0 < 0xF0 then
        if |bs| < 3 || !IsCont(bs[1]) || !IsCont(bs[2]) then None
        else
          var cp := (b0 - 0xE0) * 4096 + (bs[1] as int - 0x80) * 64 + (bs[2] as int - 0x80);
          if cp < 0x800 || !IsScalar(cp) then None else Some((cp as char, 3))
      else if 0xF0 <= b0 < 0xF5 then
        if |bs| < 4 || !IsCont(bs[1]) || !IsCont(bs[2]) || !IsCont(bs[3]) then None
        else
          var cp := (b0 - 0xF0) * 262144 + (bs[1] as int - 0x80) * 4096
                    + (bs[2] as int - 0x80) * 64 + (bs[3] as int - 0x80);
          if cp < 0x1_0000 || !IsScalar(cp) then None else Some((cp as char, 4))
      else None
  }

  /** `bs.decode("utf-8")`: `None` where Python raises `UnicodeDecodeError`. */
  function Decode(bs: seq<byte>): Option<string>
    decreases |bs|
  {
    if bs == [] then Some([])
    else match DecodeChar(bs)
      case None => None
      case Some(p) =>
        match Decode(bs[p.1..])
        case None => None
        case Some(rest) => Some([p.0] + rest)
  }

  /** Decoding the encoding of one character, whatever follows it, reads
      back that character and exactly its bytes. */
  lemma DecodeEncodeChar(c: char, rest: seq<byte>)
    ensures DecodeChar(EncodeChar(c) + rest) == Some((c, |EncodeChar(c)|))
  {
    var cp := c as int;
    if cp < 0x80 {
      assert (EncodeChar(c) + rest)[0] == cp as byte;
    } else if cp < 0x800 {
      DecodeTwo(c, rest);
    } else if cp < 0x1_0000 {
      DecodeThree(c, rest);
    } else {
      DecodeFour(c, rest);
    }
  }

  lemma DecodeTwo(c: char, rest: seq<byte>)
    requires 0x80 <= c as int < 0x800
    ensures DecodeChar(EncodeChar(c) + rest) == Some((c, 2))
  {
    var cp := c as int;
    var hi, lo := cp / 64, cp % 64;
    assert cp == hi * 64 + lo;
    var bs := EncodeChar(c) + rest;
    assert bs[0] as int == 0xC0 + hi && bs[1] as int == 0x80 + lo;
  }

  lemma DecodeThree(c: char, rest: seq<byte>)
    requires 0x800 <= c as int < 0x1_0000
    ensures DecodeChar(EncodeChar(c) + rest) == Some((c, 3))
  {
    var cp := c as int;
    var q := cp / 64;
    var b0, b1, b2 := q / 64, q % 64, cp % 64;
    assert cp == q * 64 + b2;
    assert q == b0 * 64 + b1;
    assert cp / 4096 == b0 by { assert cp == b0 * 4096 + (b1 * 64 + b2); }
    var bs := EncodeChar(c) + rest;
    assert bs[0] as int == 0xE0 + b0 && bs[1] as int == 0x80 + b1 && bs[2] as int == 0x80 + b2;
    assert b0 * 4096 + b1 * 64 + b2 == cp;
  }

  lemma DecodeFour(c: char, rest: seq<byte>)
    requires 0x1_0000 <= c as int
    ensures DecodeChar(EncodeChar(c) + rest) == Some((c, 4))
  {
    var cp := c as int;
    assert cp <= 0x10_FFFF;
    var q := cp / 64;
    var q2 := q / 64;
    var b0, b1, b2, b3 := q2 / 64, q2 % 64, q % 64, cp % 64;
    assert cp == q * 64 + b3;
    assert q == q2 * 64 + b2;
    assert q2 == b0 * 64 + b1;
    assert cp / 4096 == q2 by { assert cp == q2 * 4096 + (b2 * 64 + b3); }
    assert cp / 262144 == b0 by { assert cp == b0 * 262144 + (b1 * 4096 + b2 * 64 + b3); }
    var bs := EncodeChar(c) + rest;
    assert bs[0] as int == 0xF0 + b0 && bs[1] as int == 0x80 + b1;
    assert bs[2] as int == 0x80 + b2 && bs[3] as int == 0x80 + b3;
    assert b0 * 262144 + b1 * 4096 + b2 * 64 + b3 == cp;
  }

  /** The round trip the text and Markdown exports rely on: the bytes decode
      back to the very text that was encoded. */
  lemma {:induction false} DecodeEncode(s: string)
    ensures Decode(Encode(s)) == Some(s)
  {
    if s != [] {
      var e := EncodeChar(s[0]);
      DecodeEncodeChar(s[0], Encode(s[1..]));
      DecodeEncode(s[1..]);
      assert (e + Encode(s[1..]))[|e|..] == Encode(s[1..]);
      assert [s[0]] + s[1..] == s;
    }
  }

  /** Encoding is injective: different texts never give the same bytes. */
  lemma EncodeInjective(s: string, t: string)
    requires Encode(s) == Encode(t)
    ensures s == t
  {
    DecodeEncode(s);
    DecodeEncode(t);
  }

  /** Encoding distributes over concatenation. */
  lemma {:induction false} EncodeAppend(s: string, t: string)
    ensures Encode(s + t) == Encode(s) + Encode(t)
  {
    if s != [] {
      EncodeAppend(s[1..], t);
      assert (s + t)[1..] == s[1..] + t;
      assert (s + t)[0] == s[0];
    } else {
      assert s + t == t;
    }
  }

  /** Each character takes between one and four bytes. */
  lemma {:induction false} EncodeLength(s: string)
    ensures |s| <= |Encode(s)| <= 4 * |s|
  {
    if s != [] {
      EncodeLength(s[1..]);
    }
  }

  /** ASCII text (every character below U+0080) encodes byte for byte. */
  lemma {:induction false} EncodeAscii(s: string)
    requires forall i :: 0 <= i < |s| ==> (s[i] as int) < 0x80
    ensures |Encode(s)| == |s|
    ensures forall i :: 0 <= i < |s| ==> Encode(s)[i] as int == s[i] as int
  {
    if s != [] {
      EncodeAscii(s[1..]);
      var r := Encode(s);
      forall i | 0 <= i < |s| ensures r[i] as int == s[i] as int {
        if i > 0 { assert r[i] == Encode(s[1..])[i - 1]; }
      }
    }
  }
}
