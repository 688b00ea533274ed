/**
 * java.util.Base64.getEncoder(): the basic alphabet of RFC 4648, section 4, with '='
 * padding, plus its decoder as the partner that shows nothing is lost.
 */
module Base64 {

  import opened Wrappers
  import opened Bytes

  /** Table 1 of RFC 4648. */
  function Alphabet(i: int): (c: char)
    requires 0 <= i < 64
  {
    if i < 26 then ('A' as int + i) as char
    else if i < 52 then ('a' as int + (i - 26)) as char
    else if i < 62 then ('0' as int + (i - 52)) as char
    else if i == 62 then '+'
    else '/'
  }

  /** The inverse of the table; None for a character outside the basic alphabet. */
  function IndexOfChar(c: char): (r: Option<int>)
    ensures r.Some? ==> 0 <= r.value < 64 && Alphabet(r.value) == c
  {
    if 'A' <= c <= 'Z' then Some(c as int - 'A' as int)
    else if 'a' <= c <= 'z' then Some(c as int - 'a' as int + 26)
    else if '0' <= c <= '9' then Some(c as int - '0' as int + 52)
    else if c == '+' then Some(62)
    else if c == '/' then Some(63)
    else None
  }

  lemma AlphabetIndex(i: int)
    requires 0 <= i < 64
    ensures IndexOfChar(Alphabet(i)) == Some(i)
  {
  }

  function Six(v: int): char
    requires 0 <= v < 64
  {
    Alphabet(v)
  }

  /** Three octets become four characters, six bits each, most significant first. */
  function EncodeGroup(b0: uint8, b1: uint8, b2: uint8): string {
    [Six(b0 as int / 4), Six(b0 as int % 4 * 16 + b1 as int / 16),
     Six(b1 as int % 16 * 4 + b2 as int / 64), Six(b2 as int % 64)]
  }

  /** Base64.getEncoder().encodeToString(bytes). */
  function Encode(bs: seq<uint8>): (s: string)
    ensures |s| == 0 <==> |bs| == 0
  {
    if |bs| == 0 then ""
    else if |bs| == 1 then EncodeGroup(bs[0], 0, 0)[..2] + "=="
    else if |bs| == 2 then EncodeGroup(bs[0], bs[1], 0)[..3] + "="
    else EncodeGroup(bs[0], bs[1], bs[2]) + Encode(bs[3..])
  }

  /** Every started group of three octets takes four characters. */
  lemma {:induction false} EncodeLength(bs: seq<uint8>)
    ensures |Encode(bs)| == 4 * ((|bs| + 2) / 3)
    decreases |bs|
  {
    if |bs| >= 3 {
      EncodeLength(bs[3..]);
      assert (|bs| + 2) / 3 == (|bs[3..]| + 2) / 3 + 1;
    }
  }

  /** Four sextets back to three octets. */
  function DecodeGroup(c0: int, c1: int, c2: int, c3: int): (r: seq<uint8>)
    requires 0 <= c0 < 64 && 0 <= c1 < 64 && 0 <= c2 < 64 && 0 <= c3 < 64
    ensures |r| == 3
  {
    [(c0 * 4 + c1 / 16) as uint8, (c1 % 16 * 16 + c2 / 4) as uint8, (c2 % 4 * 64 + c3) as uint8]
  }

  /** A quad of four alphabet characters. */
  function DecodeFull(a: char, b: char, c: char, d: char): Option<seq<uint8>> {
    var i0, i1, i2, i3 := IndexOfChar(a), IndexOfChar(b), IndexOfChar(c), IndexOfChar(d);
    if i0.None? || i1.None? || i2.None? || i3.None? then None
    else Some(DecodeGroup(i0.value, i1.value, i2.value, i3.value))
  }

  /** The final quad, which may end in one or two padding characters. */
  function DecodeLast(a: char, b: char, c: char, d: char): Option<seq<uint8>> {
    var i0, i1, i2 := IndexOfChar(a), IndexOfChar(b), IndexOfChar(c);
    if i0.None? || i1.None? then None
    else if c == '=' && d == '=' then Some(DecodeGroup(i0.value, i1.value, 0, 0)[..1])
    else if i2.None? then None
    else if d == '=' then Some(DecodeGroup(i0.value, i1.value, i2.value, 0)[..2])
    else DecodeFull(a, b, c, d)
  }

  /** Base64.getDecoder().decode(s) on padded input; None where the input is not Base64. */
  function Decode(s: string): Option<seq<uint8>>
    decreases |s|
  {
    if s == "" then Some([])
    else if |s| < 4 then None
    else if |s| == 4 then DecodeLast(s[0], s[1], s[2], s[3])
    else match DecodeFull(s[0], s[1], s[2], s[3])
      case None => None
      case Some(group) =>
        match Decode(s[4..])
        case None => None
        case Some(rest) => Some(group + rest)
  }

  lemma GroupRoundTrip(b0: uint8, b1: uint8, b2: uint8)
    ensures DecodeGroup(b0 as int / 4, b0 as int % 4 * 16 + b1 as int / 16,
                        b1 as int % 16 * 4 + b2 as int / 64, b2 as int % 64) == [b0, b1, b2]
  {
    var x, y, z := b0 as int, b1 as int, b2 as int;
    var c1 := x % 4 * 16 + y / 16;
    var c2 := y % 16 * 4 + z / 64;
    assert c1 / 16 == x % 4 && c1 % 16 == y / 16;
    assert c2 / 4 == y % 16 && c2 % 4 == z / 64;
  }

  /** Decoding undoes encoding, for every byte string. */
  lemma {:induction false} RoundTrip(bs: seq<uint8>)
    ensures Decode(Encode(bs)) == Some(bs)
    decreases |bs|
  {
    if |bs| == 1 {
      RoundTripOne(bs);
    } else if |bs| == 2 {
      RoundTripTwo(bs);
    } else if |bs| >= 3 {
      RoundTrip(bs[3..]);
      RoundTripGroup(bs);
    }
  }

  /** The quad of one byte, two characters and two padding characters, decodes to it. */
  lemma QuadOne(b0: uint8)
    ensures var g := EncodeGroup(b0, 0, 0); DecodeLast(g[0], g[1], '=', '=') == Some([b0])
  {
    var c0, c1 := b0 as int / 4, b0 as int % 4 * 16;
    var g := EncodeGroup(b0, 0, 0);
    assert g[0] == Alphabet(c0) && g[1] == Alphabet(c1);
    AlphabetIndex(c0);
    AlphabetIndex(c1);
    assert c0 * 4 + c1 / 16 == b0 as int;
    var d := DecodeGroup(c0, c1, 0, 0);
    assert d[0] == b0;
    assert d[..1] == [b0];
  }

  /** The quad of two bytes, three characters and one padding character, decodes to them. */
  lemma QuadTwo(b0: uint8, b1: uint8)
    ensures var g := EncodeGroup(b0, b1, 0); DecodeLast(g[0], g[1], g[2], '=') == Some([b0, b1])
  {
    var c0, c1, c2 := b0 as int / 4, b0 as int % 4 * 16 + b1 as int / 16, b1 as int % 16 * 4;
    AlphabetIndex(c0);
    AlphabetIndex(c1);
    AlphabetIndex(c2);
    var g := EncodeGroup(b0, b1, 0);
    assert g[0] == Alphabet(c0) && g[1] == Alphabet(c1) && g[2] == Alphabet(c2);
    assert Alphabet(c2) != '=' by { assert IndexOfChar('=').None?; }
    GroupRoundTrip(b0, b1, 0);
    var d := DecodeGroup(c0, c1, c2, 0);
    assert d[0] == b0 && d[1] == b1;
    assert d[..2] == [b0, b1];
  }

  /** The quad of three bytes decodes to them, as a full quad and as a last quad. */
  lemma QuadThree(b0: uint8, b1: uint8, b2: uint8)
    ensures var g := EncodeGroup(b0, b1, b2);
      DecodeFull(g[0], g[1], g[2], g[3]) == Some([b0, b1, b2])
      && DecodeLast(g[0], g[1], g[2], g[3]) == Some([b0, b1, b2])
  {
    var c0, c1 := b0 as int / 4, b0 as int % 4 * 16 + b1 as int / 16;
    var c2, c3 := b1 as int % 16 * 4 + b2 as int / 64, b2 as int % 64;
    AlphabetIndex(c0);
    AlphabetIndex(c1);
    AlphabetIndex(c2);
    AlphabetIndex(c3);
    assert Alphabet(c2) != '=' && Alphabet(c3) != '=' by { assert IndexOfChar('=').None?; }
    GroupRoundTrip(b0, b1, b2);
  }

  /** A last group of one byte. */
  lemma RoundTripOne(bs: seq<uint8>)
    requires |bs| == 1
    ensures Decode(Encode(bs)) == Some(bs)
  {
    var g := EncodeGroup(bs[0], 0, 0);
    QuadOne(bs[0]);
    var s := Encode(bs);
    assert s == [g[0], g[1], '=', '='];
    assert Decode(s) == DecodeLast(g[0], g[1], '=', '=');
    assert [bs[0]] == bs;
  }

  /** A last group of two bytes. */
  lemma RoundTripTwo(bs: seq<uint8>)
    requires |bs| == 2
    ensures Decode(Encode(bs)) == Some(bs)
  {
    var g := EncodeGroup(bs[0], bs[1], 0);
    QuadTwo(bs[0], bs[1]);
    var s := Encode(bs);
    assert s == [g[0], g[1], g[2], '='];
    assert Decode(s) == DecodeLast(g[0], g[1], g[2], '=');
    assert [bs[0], bs[1]] == bs;
  }

  /** One full group in front of a tail that already round-trips. */
  lemma RoundTripGroup(bs: seq<uint8>)
    requires |bs| >= 3 && Decode(Encode(bs[3..])) == Some(bs[3..])
    ensures Decode(Encode(bs)) == Some(bs)
  {
    if |bs| == 3 {
      RoundTripThree(bs);
    } else {
      RoundTripCons(bs[..3], bs[3..]);
      assert bs[..3] + bs[3..] == bs;
    }
  }

  /** A group of three bytes in front of a non-empty tail that already round-trips. */
  lemma RoundTripCons(head: seq<uint8>, rest: seq<uint8>)
    requires |head| == 3 && rest != [] && Decode(Encode(rest)) == Some(rest)
    ensures Decode(Encode(head + rest)) == Some(head + rest)
  {
    var g := EncodeGroup(head[0], head[1], head[2]);
    QuadOfHead(head);
    EncodeFirstGroup(head, rest);
    DecodeAppend(g, Encode(rest), head, rest);
  }

  /** QuadThree for a group given as a sequence. */
  lemma QuadOfHead(head: seq<uint8>)
    requires |head| == 3
    ensures var g := EncodeGroup(head[0], head[1], head[2]); DecodeFull(g[0], g[1], g[2], g[3]) == Some(head)
  {
    QuadThree(head[0], head[1], head[2]);
    assert head == [head[0], head[1], head[2]];
  }

  /** A last group of three bytes: four characters and no padding. */
  lemma RoundTripThree(bs: seq<uint8>)
    requires |bs| == 3
    ensures Decode(Encode(bs)) == Some(bs)
  {
    var g := EncodeGroup(bs[0], bs[1], bs[2]);
    QuadThree(bs[0], bs[1], bs[2]);
    var s := Encode(bs);
    assert s == g + Encode(bs[3..]);
    assert Encode(bs[3..]) == [];
    assert s == [g[0], g[1], g[2], g[3]];
    assert Decode(s) == DecodeLast(g[0], g[1], g[2], g[3]);
    assert [bs[0], bs[1], bs[2]] == bs;
  }

  /** A full quad in front of a non-empty decodable tail. */
  lemma DecodeAppend(g: string, e: string, head: seq<uint8>, tail: seq<uint8>)
    requires |g| == 4 && e != []
    requires DecodeFull(g[0], g[1], g[2], g[3]) == Some(head) && Decode(e) == Some(tail)
    ensures Decode(g + e) == Some(head + tail)
  {
    var s := g + e;
    assert s[4..] == e;
    assert s[0] == g[0] && s[1] == g[1] && s[2] == g[2] && s[3] == g[3];
  }

  /** Every character of an encoding is in the alphabet or is padding. */
  lemma {:induction false} EncodeCharset(bs: seq<uint8>)
    ensures forall i :: 0 <= i < |Encode(bs)| ==> IndexOfChar(Encode(bs)[i]).Some? || Encode(bs)[i] == '='
    decreases |bs|
  {
    if |bs| >= 3 { EncodeCharset(bs[3..]); }
    if |bs| >= 1 {
      var g := EncodeGroup(bs[0], if |bs| >= 2 then bs[1] else 0, if |bs| >= 3 then bs[2] else 0);
      forall i | 0 <= i < 4 ensures IndexOfChar(g[i]).Some? {
        var v := if i == 0 then bs[0] as int / 4
          else if i == 1 then bs[0] as int % 4 * 16 + (if |bs| >= 2 then bs[1] else 0) as int / 16
          else if i == 2 then (if |bs| >= 2 then bs[1] else 0) as int % 16 * 4 + (if |bs| >= 3 then bs[2] else 0) as int / 64
          else (if |bs| >= 3 then bs[2] else 0) as int % 64;
        AlphabetIndex(v);
      }
    }
  }

  /** The encoded passwords the bucket-creation test expects for "read" and "write". */
  lemma EncodesRead()
    ensures Encode(Utf8Encode("read")) == "cmVhZA=="
  {
    Utf8EncodeAscii("read");
    var bs := Utf8Encode("read");
    assert bs == [114, 101, 97, 100];
    assert bs[3..] == [100];
  }

  lemma EncodesWrite()
    ensures Encode(Utf8Encode("write")) == "d3JpdGU="
  {
    Utf8EncodeAscii("write");
    var bs := Utf8Encode("write");
    assert bs == [119, 114, 105, 116, 101];
    assert bs[3..] == [116, 101];
  }

  lemma EncodesUserPassword()
    ensures Encode(Utf8Encode("user:password")) == "dXNlcjpwYXNzd29yZA=="
  {
    EncodesUserRpassword();
    UserPasswordPieces();
  }

  lemma EncodesUserRpassword()
    ensures Encode(Utf8Encode("use" + ("r:p" + ("ass" + "word")))) == "dXNl" + ("cjpw" + ("YXNz" + "d29yZA=="))
  {
    EncodesRpassword();
    EncodeAsciiGroup("use", "r:p" + ("ass" + "word"), "dXNl", "cjpw" + ("YXNz" + "d29yZA=="));
  }

  /** The pieces the encoding is computed from, put back together. */
  lemma UserPasswordPieces()
    ensures "use" + ("r:p" + ("ass" + "word")) == "user:password"
    ensures "dXNl" + ("cjpw" + ("YXNz" + "d29yZA==")) == "dXNlcjpwYXNzd29yZA=="
  {
  }

  lemma EncodesRpassword()
    ensures Encode(Utf8Encode("r:p" + ("ass" + "word"))) == "cjpw" + ("YXNz" + "d29yZA==")
  {
    EncodesAssword();
    EncodeAsciiGroup("r:p", "ass" + "word", "cjpw", "YXNz" + "d29yZA==");
  }

  lemma EncodesAssword()
    ensures Encode(Utf8Encode("ass" + "word")) == "YXNz" + "d29yZA=="
  {
    EncodesWord();
    EncodeAsciiGroup("ass", "word", "YXNz", "d29yZA==");
  }

  lemma EncodesWord()
    ensures Encode(Utf8Encode("word")) == "d29yZA=="
  {
    Utf8EncodeAscii("word");
    var bs := Utf8Encode("word");
    assert bs == [119, 111, 114, 100];
    assert bs[3..] == [100];
  }

  /** Three ASCII characters with a known encoding in front of a string with a known encoding. */
  lemma EncodeAsciiGroup(a: string, b: string, head: string, tail: string)
    requires |a| == 3 && IsAscii(a) && Encode(Utf8Encode(b)) == tail
    requires |head| == 4 && head[0] == Six(a[0] as int / 4)
    requires head[1] == Six(a[0] as int % 4 * 16 + a[1] as int / 16)
    requires head[2] == Six(a[1] as int % 16 * 4 + a[2] as int / 64) && head[3] == Six(a[2] as int % 64)
    ensures Encode(Utf8Encode(a + b)) == head + tail
  {
    Utf8EncodeAppend(a, b);
    Utf8EncodeAscii(a);
    EncodeStep(Utf8Encode(a), Utf8Encode(b), head, tail);
  }

  /** One full group with a known encoding in front of a tail with a known encoding. */
  lemma EncodeStep(g: seq<uint8>, rest: seq<uint8>, head: string, tail: string)
    requires |g| == 3 && |head| == 4 && Encode(rest) == tail
    requires head[0] == Six(g[0] as int / 4) && head[1] == Six(g[0] as int % 4 * 16 + g[1] as int / 16)
    requires head[2] == Six(g[1] as int % 16 * 4 + g[2] as int / 64) && head[3] == Six(g[2] as int % 64)
    ensures Encode(g + rest) == head + tail
  {
    EncodeFirstGroup(g, rest);
    assert EncodeGroup(g[0], g[1], g[2]) == head;
  }

  lemma EncodeFirstGroup(g: seq<uint8>, rest: seq<uint8>)
    requires |g| == 3
    ensures Encode(g + rest) == EncodeGroup(g[0], g[1], g[2]) + Encode(rest)
  {
    assert (g + rest)[3..] == rest;
  }
}
