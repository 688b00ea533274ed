/**
 * The parts of java.lang.String that the BucketFS client relies on, written out with
 * Java's exact semantics: prefix tests, substring by index, indexOf, the two regular
 * expressions the code splits on ("/" and "\\s+"), and decimal rendering of an int.
 */
module JavaString {

  import opened Wrappers

  /** BucketConstants.PATH_SEPARATOR */
  const PATH_SEPARATOR: char := '/'

  predicate StartsWith(s: string, prefix: string) {
    |prefix| <= |s| && s[..|prefix|] == prefix
  }

  predicate EndsWith(s: string, suffix: string) {
    |suffix| <= |s| && s[|s| - |suffix|..] == suffix
  }

  /** Java's String.indexOf(char): the first position of c, or -1. */
  function IndexOf(s: string, c: char): (i: int)
    ensures -1 <= i < |s|
    ensures i == -1 <==> c !in s
    ensures i >= 0 ==> s[i] == c && c !in s[..i]
  {
    if s == [] then -1
    else if s[0] == c then 0
    else
      var j := IndexOf(s[1..], c);
      assert s[1..][..if j < 0 then 0 else j] == s[1..1 + (if j < 0 then 0 else j)];
      if j < 0 then -1 else j + 1
  }

  /** Character.isWhitespace restricted to what the regex class \s matches: [ \t\n\x0B\f\r]. */
  predicate IsRegexWhitespace(c: char) {
    c == ' ' || c == '\t' || c == '\n' || c == '\U{000B}' || c == '\U{000C}' || c == '\r'
  }

  /** The two separators the source splits on. */
  datatype Separator = Slash | WhitespaceRun {
    predicate Matches(c: char) {
      match this
      case Slash => c == PATH_SEPARATOR
      case WhitespaceRun => IsRegexWhitespace(c)
    }
  }

  /** The pieces between single separator characters: every separator ends a piece. */
  function RawPieces(s: string, sep: Separator): (r: seq<string>)
    ensures |r| >= 1
    decreases |s|
  {
    if s == [] then [""]
    else
      var rest := RawPieces(s[1..], sep);
      if sep.Matches(s[0]) then [""] + rest else [[s[0]] + rest[0]] + rest[1..]
  }

  /** The longest prefix of parts that does not end in an empty string. */
  function DropTrailingEmpty(parts: seq<string>): (r: seq<string>)
    ensures |r| <= |parts| && r == parts[..|r|]
    ensures r == [] || r[|r| - 1] != ""
    ensures forall k :: |r| <= k < |parts| ==> parts[k] == ""
  {
    if parts == [] then []
    else if parts[|parts| - 1] == "" then DropTrailingEmpty(parts[..|parts| - 1])
    else parts
  }

  function NonEmpty(parts: seq<string>): (r: seq<string>)
    ensures forall k :: 0 <= k < |r| ==> r[k] != ""
    ensures forall x :: x in r <==> x in parts && x != ""
  {
    if parts == [] then []
    else (if parts[0] == "" then [] else [parts[0]]) + NonEmpty(parts[1..])
  }

  /**
   * Java's s.split("/"). Without a match the result is [s] (so "" gives [""]);
   * otherwise the pieces between separators, with trailing empty pieces removed.
   */
  function SplitOnSlash(s: string): seq<string> {
    if s == "" then [""] else DropTrailingEmpty(RawPieces(s, Slash))
  }

  /**
   * Java's s.split("\\s+"). A run of whitespace is one separator, so only a leading
   * run produces an empty piece; trailing empty pieces are removed.
   */
  function SplitOnWhitespace(s: string): seq<string> {
    if s == "" then [""]
    else
      var raw := RawPieces(s, WhitespaceRun);
      DropTrailingEmpty([raw[0]] + NonEmpty(raw[1..]))
  }

  /** A null string renders as "null" when Java concatenates it. */
  function Show(s: Option<string>): string {
    if s.Some? then s.value else "null"
  }

  /** Collectors.joining(sep) / String.join. */
  function Join(parts: seq<string>, sep: char): string {
    if parts == [] then ""
    else if |parts| == 1 then parts[0]
    else parts[0] + [sep] + Join(parts[1..], sep)
  }

  /** Java's decimal rendering of an int (Integer.toString / string concatenation). */
  function IntToString(i: int): (s: string)
    ensures s != ""
  {
    if i < 0 then "-" + NatToString(-i) else NatToString(i)
  }

  function Digit(d: nat): (c: char)
    requires d < 10
    ensures '0' <= c <= '9'
  {
    ('0' as int + d) as char
  }

  function NatToString(n: nat): (s: string)
    ensures s != ""
    ensures forall k :: 0 <= k < |s| ==> '0' <= s[k] <= '9'
  {
    if n < 10 then [Digit(n)] else NatToString(n / 10) + [Digit(n % 10)]
  }

  /** Reads a string of decimal digits back as a number. */
  function DecimalValue(s: string): nat
    requires forall k :: 0 <= k < |s| ==> '0' <= s[k] <= '9'
  {
    if s == [] then 0 else 10 * DecimalValue(s[..|s| - 1]) + (s[|s| - 1] as int - '0' as int)
  }

  /** The rendering is unambiguous: the decimal text reads back as the number. */
  lemma {:induction false} NatToStringRoundTrip(n: nat)
    ensures DecimalValue(NatToString(n)) == n
  {
    if n >= 10 {
      NatToStringRoundTrip(n / 10);
      var s := NatToString(n);
      assert s[..|s| - 1] == NatToString(n / 10);
    }
  }

  /** Splitting on single separators and joining back gives the input. */
  lemma {:induction false} RawPiecesJoin(s: string)
    ensures Join(RawPieces(s, Slash), PATH_SEPARATOR) == s
    ensures forall k :: 0 <= k < |RawPieces(s, Slash)| ==> PATH_SEPARATOR !in RawPieces(s, Slash)[k]
    decreases |s|
  {
    if s != [] {
      RawPiecesJoin(s[1..]);
      var rest := RawPieces(s[1..], Slash);
      if s[0] == PATH_SEPARATOR {
        assert s == [s[0]] + s[1..];
      } else {
        if |rest| == 1 {
          assert s == [s[0]] + rest[0];
        } else {
          assert rest == [rest[0]] + rest[1..];
          assert Join(rest, PATH_SEPARATOR) == rest[0] + [PATH_SEPARATOR] + Join(rest[1..], PATH_SEPARATOR);
          assert s == [s[0]] + s[1..];
        }
      }
    }
  }

  /** No piece of a whitespace split contains whitespace. */
  lemma {:induction false} RawPiecesFree(s: string, sep: Separator)
    ensures forall k, i :: 0 <= k < |RawPieces(s, sep)| && 0 <= i < |RawPieces(s, sep)[k]| ==> !sep.Matches(RawPieces(s, sep)[k][i])
    decreases |s|
  {
    if s != [] {
      RawPiecesFree(s[1..], sep);
    }
  }

  /** Java splits leave no separator in any piece. */
  lemma SplitOnSlashFree(s: string)
    ensures forall k :: 0 <= k < |SplitOnSlash(s)| ==> PATH_SEPARATOR !in SplitOnSlash(s)[k]
  {
    if s != "" {
      RawPiecesFree(s, Slash);
      var raw := RawPieces(s, Slash);
      var r := DropTrailingEmpty(raw);
      forall k | 0 <= k < |r| ensures PATH_SEPARATOR !in r[k] {
        assert r[k] == raw[k];
        assert forall i :: 0 <= i < |raw[k]| ==> raw[k][i] != PATH_SEPARATOR;
      }
    }
  }

  lemma SplitOnWhitespaceFree(s: string)
    ensures forall k, c :: 0 <= k < |SplitOnWhitespace(s)| && c in SplitOnWhitespace(s)[k] ==> !IsRegexWhitespace(c)
  {
    if s != "" {
      RawPiecesFree(s, WhitespaceRun);
      var raw := RawPieces(s, WhitespaceRun);
      var t := [raw[0]] + NonEmpty(raw[1..]);
      forall k, c | 0 <= k < |t| && c in t[k] ensures !IsRegexWhitespace(c) {
        var i :| 0 <= i < |t[k]| && t[k][i] == c;
        if k > 0 {
          var n := NonEmpty(raw[1..]);
          assert t[k] == n[k - 1];
          assert t[k] in raw[1..];
          var j :| 0 <= j < |raw[1..]| && raw[1..][j] == t[k];
          assert raw[j + 1] == t[k];
          assert !WhitespaceRun.Matches(raw[j + 1][i]);
        } else {
          assert !WhitespaceRun.Matches(raw[0][i]);
        }
      }
      var r := DropTrailingEmpty(t);
      forall k, c | 0 <= k < |r| && c in r[k] ensures !IsRegexWhitespace(c) {
        assert r[k] == t[k];
      }
    }
  }

  /** In a whitespace split only the first token can be empty (a leading run of whitespace). */
  lemma SplitOnWhitespaceNonEmpty(s: string)
    ensures forall k :: 1 <= k < |SplitOnWhitespace(s)| ==> SplitOnWhitespace(s)[k] != ""
  {
    if s != "" {
      var raw := RawPieces(s, WhitespaceRun);
      var t := [raw[0]] + NonEmpty(raw[1..]);
      assert forall k :: 1 <= k < |t| ==> t[k] == NonEmpty(raw[1..])[k - 1];
    }
  }

  /** The last raw piece is empty exactly when the string ends with a separator. */
  lemma {:induction false} RawPiecesLastEmpty(s: string, sep: Separator)
    requires s != []
    ensures var r := RawPieces(s, sep); r[|r| - 1] == "" <==> sep.Matches(s[|s| - 1])
    decreases |s|
  {
    var rest := RawPieces(s[1..], sep);
    if |s| > 1 {
      RawPiecesLastEmpty(s[1..], sep);
      assert s[1..][|s[1..]| - 1] == s[|s| - 1];
    }
  }

  /** Joining splits off the last part: everything before it, the separator, then the part. */
  lemma {:induction false} JoinSnoc(parts: seq<string>, sep: char)
    requires |parts| >= 2
    ensures Join(parts, sep) == Join(parts[..|parts| - 1], sep) + [sep] + parts[|parts| - 1]
    decreases |parts|
  {
    if |parts| > 2 {
      JoinSnoc(parts[1..], sep);
      assert parts[1..][..|parts| - 2] == parts[..|parts| - 1][1..];
    }
  }

  /** A path that does not end in "/" splits into exactly its raw pieces, and they join back to it. */
  lemma SplitOnSlashJoin(s: string)
    requires s != "" && s[|s| - 1] != PATH_SEPARATOR
    ensures SplitOnSlash(s) == RawPieces(s, Slash)
    ensures Join(SplitOnSlash(s), PATH_SEPARATOR) == s
  {
    RawPiecesLastEmpty(s, Slash);
    RawPiecesJoin(s);
  }

  /** The UTF-16 code units Java spends on a character: two for a supplementary one. */
  function Utf16Units(c: char): nat {
    if c as int > 0xFFFF then 2 else 1
  }

  /** String.length(): the number of UTF-16 code units. */
  function Utf16Length(s: string): (n: nat)
    ensures n >= |s|
    ensures (forall i :: 0 <= i < |s| ==> s[i] as int <= 0xFFFF) ==> n == |s|
    ensures (forall i :: 0 <= i < |s| ==> s[i] as int > 0xFFFF) ==> n == 2 * |s|
  {
    if s == [] then 0 else Utf16Units(s[0]) + Utf16Length(s[1..])
  }

  /**
   * The longest prefix of s of at most n UTF-16 units. It is substring(0, n) unless a
   * supplementary character straddles unit n.
   */
  function Utf16Prefix(s: string, n: nat): (p: string)
    ensures |p| <= |s| && p == s[..|p|]
    ensures Utf16Length(p) <= n
    ensures p == s || Utf16Length(p) + Utf16Units(s[|p|]) > n
  {
    if s == [] || Utf16Units(s[0]) > n then []
    else
      var q := Utf16Prefix(s[1..], n - Utf16Units(s[0]));
      assert ([s[0]] + q)[1..] == q;
      [s[0]] + q
  }
}
