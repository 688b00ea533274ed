/**
 * Bytes as the two languages of the system see them: Python's hashlib and the JDK's
 * streams hand out unsigned octets, while a Java byte[] holds signed two's-complement
 * values. String.getBytes() turns text into UTF-8 octets.
 */
module Bytes {

  import opened Wrappers

  newtype uint8 = x: int | 0 <= x < 256

  /** A Java byte. */
  newtype int8 = x: int | -128 <= x < 128

  /** The narrowing cast (byte) of an octet. */
  function ToSigned(b: uint8): (s: int8)
    ensures s as int % 256 == b as int
  {
    if b < 128 then b as int as int8 else (b as int - 256) as int8
  }

  /** Byte.toUnsignedInt. */
  function ToUnsigned(s: int8): (b: uint8)
    ensures b as int % 256 == s as int % 256
  {
    if s >= 0 then s as int as uint8 else (s as int + 256) as uint8
  }

  lemma SignedRoundTrip(b: uint8)
    ensures ToUnsigned(ToSigned(b)) == b
  {
  }

  lemma UnsignedRoundTrip(s: int8)
    ensures ToSigned(ToUnsigned(s)) == s
  {
  }

  function SignedBytes(bs: seq<uint8>): (r: seq<int8>)
    ensures |r| == |bs|
    ensures forall i :: 0 <= i < |bs| ==> r[i] == ToSigned(bs[i])
  {
    if bs == [] then [] else [ToSigned(bs[0])] + SignedBytes(bs[1..])
  }

  /** The UTF-8 octets of one Unicode scalar value (RFC 3629, section 3). */
  function Utf8Char(c: char): (r: seq<uint8>)
    ensures 1 <= |r| <= 4
  {
    var v := c as int;
    if v < 0x80 then [v as uint8]
    else if v < 0x800 then [(0xC0 + v / 64) as uint8, (0x80 + v % 64) as uint8]
    else if v < 0x10000 then
      [(0xE0 + v / 4096) as uint8, (0x80 + v / 64 % 64) as uint8, (0x80 + v % 64) as uint8]
    else
      [(0xF0 + v / 262144) as uint8, (0x80 + v / 4096 % 64) as uint8,
       (0x80 + v / 64 % 64) as uint8, (0x80 + v % 64) as uint8]
  }

  /** String.getBytes() under the UTF-8 default charset. */
  function Utf8Encode(s: string): seq<uint8> {
    if s == [] then [] else Utf8Char(s[0]) + Utf8Encode(s[1..])
  }

  /** Encoding is a homomorphism: the bytes of a concatenation are the concatenated bytes. */
  lemma {:induction false} Utf8EncodeAppend(a: string, b: string)
    ensures Utf8Encode(a + b) == Utf8Encode(a) + Utf8Encode(b)
  {
    if a == [] {
      assert a + b == b;
    } else {
      assert (a + b)[1..] == a[1..] + b;
      Utf8EncodeAppend(a[1..], b);
    }
  }

  predicate IsAscii(s: string) {
    forall i :: 0 <= i < |s| ==> s[i] as int < 0x80
  }

  /** ASCII text encodes to one octet per character, each its code. */
  lemma {:induction false} Utf8EncodeAscii(s: string)
    requires IsAscii(s)
    ensures |Utf8Encode(s)| == |s|
    ensures forall i :: 0 <= i < |s| ==> Utf8Encode(s)[i] as int == s[i] as int
  {
    if s != [] {
      Utf8EncodeAscii(s[1..]);
    }
  }

  /** One decoded scalar value and the count of octets it used, or None for a malformed start. */
  function Utf8DecodeChar(bs: seq<uint8>): Option<(char, nat)>
  {
    if |bs| >= 1 && bs[0] < 0x80 then Some((bs[0] as int as char, 1))
    else if |bs| >= 2 && 0xC2 <= bs[0] < 0xE0 && Cont(bs[1]) then
      var v := (bs[0] as int - 0xC0) * 64 + (bs[1] as int - 0x80);
      Some((v as char, 2))
    else if |bs| >= 3 && 0xE0 <= bs[0] < 0xF0 && Cont(bs[1]) && Cont(bs[2]) then
      var v := (bs[0] as int - 0xE0) * 4096 + (bs[1] as int - 0x80) * 64 + (bs[2] as int - 0x80);
      if 0x800 <= v && !(0xD800 <= v < 0xE000) then Some((v as char, 3)) else None
    else if |bs| >= 4 && 0xF0 <= bs[0] < 0xF5 && Cont(bs[1]) && Cont(bs[2]) && Cont(bs[3]) then
      var v := (bs[0] as int - 0xF0) * 262144 + (bs[1] as int - 0x80) * 4096
               + (bs[2] as int - 0x80) * 64 + (bs[3] as int - 0x80);
      if 0x10000 <= v < 0x110000 then Some((v as char, 4)) else None
    else None
  }

  predicate Cont(b: uint8) { 0x80 <= b < 0xC0 }

  /** new String(bytes, UTF_8) on well-formed input; None where a malformed sequence starts. */
  function Utf8Decode(bs: seq<uint8>): Option<string>
    decreases |bs|
  {
    if bs == [] then Some("")
    else match Utf8DecodeChar(bs)
      case None => None
      case Some((c, n)) =>
        if n == 0 || n > |bs| then None
        else match Utf8Decode(bs[n..])
          case None => None
          case Some(rest) => Some([c] + rest)
  }

  lemma Utf8CharDecodes(c: char, tail: seq<uint8>)
    ensures Utf8DecodeChar(Utf8Char(c) + tail) == Some((c, |Utf8Char(c)|))
  {
    var v := c as int;
    if v < 0x80 {
    } else if v < 0x800 {
      Decodes2(c, tail);
    } else if v < 0x10000 {
      Decodes3(c, tail);
    } else {
      Decodes4(c, tail);
    }
  }

  lemma Decodes2(c: char, tail: seq<uint8>)
    requires 0x80 <= c as int < 0x800
    ensures Utf8DecodeChar(Utf8Char(c) + tail) == Some((c, 2))
  {
    var v := c as int;
    var hi, lo := v / 64, v % 64;
    assert 2 <= hi < 32 && hi * 64 + lo == v;
    var bs := Utf8Char(c) + tail;
    assert bs[0] as int == 0xC0 + hi && bs[1] as int == 0x80 + lo;
  }

  lemma Decodes3(c: char, tail: seq<uint8>)
    requires 0x800 <= c as int < 0x10000
    ensures Utf8DecodeChar(Utf8Char(c) + tail) == Some((c, 3))
  {
    var v := c as int;
    var q := v / 64;
    var x, y, z := v / 4096, v / 64 % 64, v % 64;
    assert q * 64 + z == v;
    assert x * 64 + y == q;
    assert x < 16;
    assert x * 4096 + y * 64 + z == v;
    var bs := Utf8Char(c) + tail;
    assert bs[0] as int == 0xE0 + x && bs[1] as int == 0x80 + y && bs[2] as int == 0x80 + z;
    assert !Cont(bs[0]) && !(0xC2 <= bs[0] < 0xE0);
  }

  lemma Decodes4(c: char, tail: seq<uint8>)
    requires 0x10000 <= c as int
    ensures Utf8DecodeChar(Utf8Char(c) + tail) == Some((c, 4))
  {
    var v := c as int;
    var q := v / 64;
    var r := v / 4096;
    var w, x, y, z := v / 262144, v / 4096 % 64, v / 64 % 64, v % 64;
    assert q * 64 + z == v;
    assert r * 64 + y == q by { assert v / 4096 == (v / 64) / 64; }
    assert w * 64 + x == r by { assert v / 262144 == (v / 4096) / 64; }
    assert w < 5;
    assert w * 262144 + x * 4096 + y * 64 + z == v;
    var bs := Utf8Char(c) + tail;
    assert bs[0] as int == 0xF0 + w && bs[1] as int == 0x80 + x;
    assert bs[2] as int == 0x80 + y && bs[3] as int == 0x80 + z;
  }

  /** Decoding undoes getBytes(): UTF-8 is lossless for every string. */
  lemma {:induction false} Utf8RoundTrip(s: string)
    ensures Utf8Decode(Utf8Encode(s)) == Some(s)
  {
    if s != [] {
      var head := Utf8Char(s[0]);
      var tail := Utf8Encode(s[1..]);
      Utf8CharDecodes(s[0], tail);
      assert (head + tail)[|head|..] == tail;
      Utf8RoundTrip(s[1..]);
      assert s == [s[0]] + s[1..];
    }
  }
}
