/** The operations a bucket request performs; they appear in error messages. */
module BucketOperation {

  datatype BucketOperation = Download | List | Upload | Delete {

    /** Enum.name(). */
    function Name(): string {
      match this
      case Download => "DOWNLOAD"
      case List => "LIST"
      case Upload => "UPLOAD"
      case Delete => "DELETE"
    }

    /** The overridden toString(): the constant's name in lower case. */
    function ToString(): string
    {
      match this
      case Download => "download"
      case List => "list"
      case Upload => "upload"
      case Delete => "delete"
    }
  }

  function LowerChar(c: char): char {
    if 'A' <= c <= 'Z' then (c as int + 32) as char else c
  }

  /** String.toLowerCase() on the ASCII letters the constant names consist of. */
  function LowerAscii(s: string): (r: string)
    ensures |r| == |s|
    ensures forall i :: 0 <= i < |s| ==> r[i] == LowerChar(s[i])
  {
    if s == [] then [] else [LowerChar(s[0])] + LowerAscii(s[1..])
  }

  /** A string that agrees with LowerChar character by character is LowerAscii of it. */
  lemma LowerAsciiPointwise(s: string, t: string)
    requires |t| == |s| && forall i :: 0 <= i < |s| ==> t[i] == LowerChar(s[i])
    ensures t == LowerAscii(s)
  {
    var l := LowerAscii(s);
    assert forall i :: 0 <= i < |s| ==> t[i] == l[i];
  }

  /** toString() is the lower-cased constant name, as the enum promises. */
  lemma ToStringIsLowerName(op: BucketOperation)
    ensures op.ToString() == LowerAscii(op.Name())
  {
    LowerAsciiPointwise(op.Name(), op.ToString());
  }

  /** The four constants render as four different strings. */
  lemma ToStringInjective(a: BucketOperation, b: BucketOperation)
    requires a.ToString() == b.ToString()
    ensures a == b
  {
    assert a.ToString()[0] == b.ToString()[0];
  }
}

/**
 * BucketAccessException and the Throwables that can travel as its cause. Messages the
 * source builds with ExaError are kept as their error code plus the placeholder values
 * in order; the rendering of those values is not modelled. Messages built by plain
 * concatenation are kept as their full text.
 */
module BucketErrors {

  import opened Wrappers
  import JavaString

  datatype Message = Coded(code: string, args: seq<string>) | Text(text: string)

  /** The exception kinds that occur in the core: the type matters for catch clauses. */
  datatype Throwable =
    | IoException(detail: Message)
    | InterruptedException
    | NoSuchAlgorithmException
    | SqlException
    | UriSyntaxException
    /** What the timeout message names: the object, the fully qualified bucket and the instant (ns). */
    | TimeoutException(pathInBucket: string, bucketName: string, afterUtc: int)
    | IllegalStateException(message: Message)
    | IllegalArgumentException(message: Message)
    | NullPointerException(argument: string)
    | ArrayIndexOutOfBounds(index: int)
    | BucketAccess(e: BucketAccessException)

  datatype BucketAccessException =
    BucketAccessException(message: Message, uri: Option<string>, statusCode: int, cause: Option<Throwable>)
  {
    function GetUri(): Option<string> { uri }
    function GetStatusCode(): int { statusCode }
  }

  /** new BucketAccessException(message, uri, cause): the URI is appended after " URI: ". */
  function WithUriAndCause(message: string, uri: string, cause: Throwable): (e: BucketAccessException)
    ensures e.GetUri() == Some(uri) && e.GetStatusCode() == 0 && e.cause == Some(cause)
    ensures e.message.Text? && JavaString.StartsWith(e.message.text, message)
    ensures JavaString.EndsWith(e.message.text, " URI: " + uri)
  {
    BucketAccessException(Text(message + " URI: " + uri), Some(uri), 0, Some(cause))
  }

  /**
   * new BucketAccessException(message, statusCode, uri): "URI: " follows the message
   * directly, without a space, and the status closes the text in parentheses.
   */
  function WithStatus(message: string, statusCode: int, uri: string): (e: BucketAccessException)
    ensures e.GetUri() == Some(uri) && e.GetStatusCode() == statusCode && e.cause.None?
    ensures e.message.Text? && JavaString.StartsWith(e.message.text, message + "URI: " + uri)
    ensures JavaString.EndsWith(e.message.text, " (Status " + JavaString.IntToString(statusCode) + ")")
  {
    var suffix := " (Status " + JavaString.IntToString(statusCode) + ")";
    var t := message + "URI: " + uri + suffix;
    assert t[..|message + "URI: " + uri|] == message + "URI: " + uri;
    assert t[|t| - |suffix|..] == suffix;
    BucketAccessException(Text(t), Some(uri), statusCode, None)
  }

  /** new BucketAccessException(message, cause) */
  function WithCause(message: Message, cause: Throwable): (e: BucketAccessException)
    ensures e.GetUri().None? && e.GetStatusCode() == 0 && e.cause == Some(cause) && e.message == message
  {
    BucketAccessException(message, None, 0, Some(cause))
  }

  /** new BucketAccessException(message) */
  function Plain(message: Message): (e: BucketAccessException)
    ensures e.GetUri().None? && e.GetStatusCode() == 0 && e.cause.None? && e.message == message
  {
    BucketAccessException(message, None, 0, None)
  }

  /** BucketAccessException.downloadInterruptedException: E-BFSJ-4, no cause. */
  function DownloadInterrupted(uri: string, operation: string): (e: BucketAccessException)
    ensures e.message.Coded? && e.message.code == "E-BFSJ-4" && e.cause.None?
    ensures e.GetUri().None? && e.GetStatusCode() == 0
  {
    Plain(Coded("E-BFSJ-4", [operation, uri]))
  }

  /** BucketAccessException.downloadIoException: E-BFSJ-5, the IOException as cause. */
  function DownloadIo(uri: string, operation: string, cause: Throwable): (e: BucketAccessException)
    requires cause.IoException?
    ensures e.message.Coded? && e.message.code == "E-BFSJ-5" && e.cause == Some(cause)
    ensures e.GetUri().None? && e.GetStatusCode() == 0
  {
    WithCause(Coded("E-BFSJ-5", [operation, uri]), cause)
  }

  /** The error code an exception carries, or "" for a plain-text message. */
  function CodeOf(e: BucketAccessException): string {
    if e.message.Coded? then e.message.code else ""
  }

  /** Two texts with the same ending are equal once it is cut off. */
  lemma SameSuffixCancels(a: string, b: string, suffix: string)
    requires a + suffix == b + suffix
    ensures a == b
  {
    assert |a| == |b|;
    assert (a + suffix)[..|a|] == a && (b + suffix)[..|b|] == b;
  }

  /** The message, the URI and the cause can all be read back from a WithUriAndCause exception. */
  lemma WithUriAndCauseReadBack(m1: string, uri1: string, cause1: Throwable,
                                m2: string, uri2: string, cause2: Throwable)
    requires WithUriAndCause(m1, uri1, cause1) == WithUriAndCause(m2, uri2, cause2)
    ensures m1 == m2 && uri1 == uri2 && cause1 == cause2
  {
    assert m1 + (" URI: " + uri1) == m2 + (" URI: " + uri1);
    SameSuffixCancels(m1, m2, " URI: " + uri1);
  }

  /** The text WithStatus builds determines its message part. */
  lemma StatusTextCancels(m1: string, m2: string, uri: string, status: string)
    requires m1 + "URI: " + uri + (" (Status " + status + ")") == m2 + "URI: " + uri + (" (Status " + status + ")")
    ensures m1 == m2
  {
    var tail := "URI: " + uri + (" (Status " + status + ")");
    assert m1 + "URI: " + uri + (" (Status " + status + ")") == m1 + tail;
    assert m2 + "URI: " + uri + (" (Status " + status + ")") == m2 + tail;
    SameSuffixCancels(m1, m2, tail);
  }

  /** The message, the status and the URI can all be read back from a WithStatus exception. */
  lemma WithStatusReadBack(m1: string, status1: int, uri1: string, m2: string, status2: int, uri2: string)
    requires WithStatus(m1, status1, uri1) == WithStatus(m2, status2, uri2)
    ensures m1 == m2 && status1 == status2 && uri1 == uri2
  {
    assert status1 == status2 && uri1 == uri2 by {
      assert WithStatus(m1, status1, uri1).statusCode == status1 && WithStatus(m1, status1, uri1).uri == Some(uri1);
    }
    StatusTextCancels(m1, m2, uri1, JavaString.IntToString(status1));
  }



}

/** com.exasol.bucketfs.HttpResponseEvaluator: turns an HTTP status into an outcome. */
module HttpResponseEvaluator {

  import opened Wrappers
  import opened BucketErrors
  import opened BucketOperation
  import JavaString

  const HTTP_OK := 200
  const HTTP_FORBIDDEN := 403
  const HTTP_NOT_FOUND := 404

  /** The error code the classifier assigns to a failing status (section 15 of RFC 9110). */
  function FailureCode(statusCode: int): string {
    if statusCode == HTTP_NOT_FOUND then "E-BFSJ-2"
    else if statusCode == HTTP_FORBIDDEN then "E-BFSJ-3"
    else "E-BFSJ-1"
  }

  function Evaluate(uri: string, operation: BucketOperation, statusCode: int): (r: Outcome<BucketAccessException>)
    ensures r.Pass? <==> statusCode == HTTP_OK
    ensures r.Fail? ==>
      CodeOf(r.error) == FailureCode(statusCode)
      && r.error.GetStatusCode() == 0 && r.error.GetUri().None? && r.error.cause.None?
    ensures r.Fail? && statusCode != HTTP_NOT_FOUND && statusCode != HTTP_FORBIDDEN ==>
      r.error.message.Coded? && r.error.message.args == [operation.ToString(), uri, JavaString.IntToString(statusCode)]
  {
    if statusCode == HTTP_OK then Pass
    else if statusCode == HTTP_NOT_FOUND then Fail(Plain(Coded("E-BFSJ-2", [operation.ToString(), uri])))
    else if statusCode == HTTP_FORBIDDEN then Fail(Plain(Coded("E-BFSJ-3", [operation.ToString(), uri])))
    else Fail(Plain(Coded("E-BFSJ-1", [operation.ToString(), uri, JavaString.IntToString(statusCode)])))
  }

  /** Every status lands in exactly one of the four outcomes. */
  lemma EvaluateTotal(uri: string, operation: BucketOperation, statusCode: int)
    ensures var r := Evaluate(uri, operation, statusCode);
      (r.Pass? && statusCode == 200)
      || (r.Fail? && statusCode == 404 && CodeOf(r.error) == "E-BFSJ-2")
      || (r.Fail? && statusCode == 403 && CodeOf(r.error) == "E-BFSJ-3")
      || (r.Fail? && statusCode !in {200, 403, 404} && CodeOf(r.error) == "E-BFSJ-1")
  {
  }

  /** The listing failures the bucket tests expect for 404, 403 and 500. */
  lemma ListFailures(uri: string)
    ensures CodeOf(Evaluate(uri, List, 404).error) == "E-BFSJ-2"
    ensures CodeOf(Evaluate(uri, List, 403).error) == "E-BFSJ-3"
    ensures CodeOf(Evaluate(uri, List, 500).error) == "E-BFSJ-1"
  {
  }
}

/** com.exasol.bucketfs.HttpRequestStatus: the older duplicate of the classifier. */
module HttpRequestStatus {

  import opened Wrappers
  import opened BucketErrors
  import opened BucketOperation
  import JavaString
  import HttpResponseEvaluator

  /** evaluate: its exceptions are HttpResponseEvaluator's, as SameAsResponseEvaluator states. */
  function Evaluate(uri: string, operation: BucketOperation, statusCode: int): (r: Outcome<BucketAccessException>)
    ensures r.Pass? <==> statusCode == 200
  {
    match statusCode
    case 200 => Pass
    case 404 => Fail(Plain(Coded("E-BFSJ-2", [operation.ToString(), uri])))
    case 403 => Fail(Plain(Coded("E-BFSJ-3", [operation.ToString(), uri])))
    case _ => Fail(Plain(Coded("E-BFSJ-1", [operation.ToString(), uri, JavaString.IntToString(statusCode)])))
  }

  /** Both classifiers give the same outcome, exception included, for every status. */
  lemma SameAsResponseEvaluator(uri: string, operation: BucketOperation, statusCode: int)
    ensures Evaluate(uri, operation, statusCode) == HttpResponseEvaluator.Evaluate(uri, operation, statusCode)
  {
  }
}
