/**
 * Lowercase hexadecimal rendering of bytes: Java's String.format("%02x", b) on signed
 * bytes (a negative byte is rendered as b + 256) and Python's hashlib hexdigest() on
 * unsigned octets.
 */
module Hex {

  import opened Wrappers
  import opened Bytes

  function HexDigit(d: int): (c: char)
    requires 0 <= d < 16
    ensures IsHexChar(c)
  {
    if d < 10 then ('0' as int + d) as char else ('a' as int + (d - 10)) as char
  }

  predicate IsHexChar(c: char) {
    '0' <= c <= '9' || 'a' <= c <= 'f'
  }

  function DigitValue(c: char): (d: Option<int>)
    ensures d.Some? ==> 0 <= d.value < 16 && HexDigit(d.value) == c
    ensures IsHexChar(c) ==> d.Some?
  {
    if '0' <= c <= '9' then Some(c as int - '0' as int)
    else if 'a' <= c <= 'f' then Some(c as int - 'a' as int + 10)
    else None
  }

  /** The two digits of an octet value, high nibble first. */
  function OctetHex(v: uint8): string {
    [HexDigit(v as int / 16), HexDigit(v as int % 16)]
  }

  /** "%02x" of a Java byte. */
  function ByteHex(b: int8): string {
    OctetHex(ToUnsigned(b))
  }

  /** The text a StringBuilder holds after appending "%02x" of each byte in turn. */
  function HexOf(bs: seq<int8>): (s: string)
    ensures |s| == 2 * |bs|
    ensures forall k :: 0 <= k < |s| ==> IsHexChar(s[k])
  {
    if bs == [] then "" else HexOf(bs[..|bs| - 1]) + ByteHex(bs[|bs| - 1])
  }

  /** hashlib's hexdigest(): two lowercase digits per octet, in order. */
  function HexDigest(d: seq<uint8>): (s: string)
    ensures |s| == 2 * |d|
  {
    if d == [] then "" else OctetHex(d[0]) + HexDigest(d[1..])
  }

  /** Byte i of the input is rendered at positions 2i and 2i+1, as its unsigned value. */
  lemma {:induction false} HexOfAt(bs: seq<int8>, i: int)
    requires 0 <= i < |bs|
    ensures HexOf(bs)[2 * i..2 * i + 2] == OctetHex(ToUnsigned(bs[i]))
  {
    var init := bs[..|bs| - 1];
    if i < |bs| - 1 {
      HexOfAt(init, i);
      assert HexOf(bs)[2 * i..2 * i + 2] == HexOf(init)[2 * i..2 * i + 2];
    }
  }

  /** Rendering distributes over concatenation, so byte order is preserved. */
  lemma {:induction false} HexOfAppend(a: seq<int8>, b: seq<int8>)
    ensures HexOf(a + b) == HexOf(a) + HexOf(b)
    decreases |b|
  {
    if b == [] {
      assert a + b == a;
    } else {
      var b0 := b[..|b| - 1];
      assert (a + b)[..|a + b| - 1] == a + b0;
      HexOfAppend(a, b0);
    }
  }

  /** Java's rendering of the signed view of a digest is Python's hexdigest of the octets. */
  lemma {:induction false} SignedHexIsHexDigest(d: seq<uint8>)
    ensures HexOf(SignedBytes(d)) == HexDigest(d)
  {
    if d != [] {
      SignedHexIsHexDigest(d[1..]);
      assert SignedBytes(d) == [ToSigned(d[0])] + SignedBytes(d[1..]);
      HexOfAppend([ToSigned(d[0])], SignedBytes(d[1..]));
      assert [ToSigned(d[0])][..0] == [];
    }
  }

  /** Reads two-digit pairs back into signed bytes; None on odd length or a non-hex character. */
  function Unhex(s: string): Option<seq<int8>>
  {
    if s == "" then Some([])
    else if |s| < 2 then None
    else
      var hi, lo := DigitValue(s[|s| - 2]), DigitValue(s[|s| - 1]);
      if hi.None? || lo.None? then None
      else match Unhex(s[..|s| - 2])
        case None => None
        case Some(init) => Some(init + [ToSigned((hi.value * 16 + lo.value) as uint8)])
  }

  /** The fixed width makes the rendering reversible. */
  lemma {:induction false} HexRoundTrip(bs: seq<int8>)
    ensures Unhex(HexOf(bs)) == Some(bs)
  {
    if bs != [] {
      var init, last := bs[..|bs| - 1], bs[|bs| - 1];
      HexRoundTrip(init);
      UnhexLast(init, last);
      assert bs == init + [last];
    }
  }

  /** Reading back one more byte: its two digits come last and give back its value. */
  lemma UnhexLast(init: seq<int8>, last: int8)
    requires Unhex(HexOf(init)) == Some(init)
    ensures Unhex(HexOf(init) + ByteHex(last)) == Some(init + [last])
  {
    var s := HexOf(init) + ByteHex(last);
    assert s[..|s| - 2] == HexOf(init);
    var u := ToUnsigned(last) as int;
    assert (u / 16) * 16 + u % 16 == u;
    assert DigitValue(s[|s| - 2]) == Some(u / 16);
    assert DigitValue(s[|s| - 1]) == Some(u % 16);
    UnsignedRoundTrip(last);
  }
}

/** com.exasol.bucketfs.uploadnecessity.ByteArrayToHexConverter */
module ByteArrayToHexConverter {

  import opened Bytes
  import opened Hex

  /** Appends "%02x" of each byte to a builder, in array order. */
  method ToHex(bytes: seq<int8>) returns (result: string)
    ensures result == HexOf(bytes)
    ensures |result| == 2 * |bytes|
  {
    result := "";
    for i := 0 to |bytes|
      invariant result == HexOf(bytes[..i])
    {
      assert bytes[..i + 1][..i] == bytes[..i];
      result := result + ByteHex(bytes[i]);
    }
    assert bytes[..|bytes|] == bytes;
  }
}

/** com.exasol.bucketfs.uploadnecassity.ByteArrayToHexConverter, the older copy. */
module LegacyByteArrayToHexConverter {

  import opened Bytes
  import opened Hex

  method ToHex(bytes: seq<int8>) returns (sb: string)
    ensures sb == HexOf(bytes)
    ensures |sb| == 2 * |bytes|
  {
    sb := "";
    for i := 0 to |bytes|
      invariant sb == HexOf(bytes[..i])
    {
      assert bytes[..i + 1][..i] == bytes[..i];
      sb := sb + ByteHex(bytes[i]);
    }
    assert bytes[..|bytes|] == bytes;
  }
}
