/**
 * com.exasol.bucketfs.WriteEnabledBucket: a read-enabled bucket that also uploads and
 * remembers when it last uploaded to each path. Instants are integer nanoseconds since
 * the epoch; the clock reading and the HTTP exchange are inputs.
 */
module WriteEnabledBucket {

  import opened Wrappers
  import opened JavaString
  import opened BucketErrors
  import opened BasicAuth
  import opened HttpExchange
  import opened FileIo
  import opened ReadEnabledBucket

  /** uploadHistory.put(path, now): path now maps to now, every other entry stays. */
  function Recorded(history: map<string, int>, pathInBucket: string, now: int): (h: map<string, int>)
    ensures pathInBucket in h && h[pathInBucket] == now
    ensures h.Keys == history.Keys + {pathInBucket}
    ensures forall p :: p in history && p != pathInBucket ==> h[p] == history[p]
  {
    history[pathInBucket := now]
  }

  /** "http://ip:port/bucket/path", the write URI before normalisation. */
  function CreateWriteUri(config: BucketConfig, pathInBucket: string): string {
    "http://" + config.ipAddress + ":" + IntToString(config.port) + "/" + config.bucketName + "/" + pathInBucket
  }

  /** The outcome of one PUT: only 200 succeeds; other statuses and I/O errors name the URI. */
  function UploadOutcome(uri: string, contentDescription: string, put: Exchange): (r: Outcome<Throwable>)
    ensures r.Pass? <==> put.Response? && put.statusCode == 200
    ensures put.Response? && put.statusCode != 200 ==>
      r.error.BucketAccess? && r.error.e.GetStatusCode() == put.statusCode && r.error.e.GetUri() == Some(uri)
    ensures put.IoError? ==>
      r.error.BucketAccess? && r.error.e.cause == Some(IoException(put.detail)) && r.error.e.GetUri() == Some(uri)
    ensures put.Interrupted? ==> r == Fail(InterruptedException)
  {
    match put
    case Response(statusCode, _) =>
      if statusCode != 200 then
        Fail(BucketAccess(WithStatus("Unable to upload file \"" + contentDescription + "\" to ", statusCode, uri)))
      else Pass
    case IoError(detail) =>
      Fail(BucketAccess(WithUriAndCause("I/O error trying to upload \"" + contentDescription + "\" to ", uri,
        IoException(detail))))
    case Interrupted => Fail(InterruptedException)
  }

  /**
   * A description of at most 20 UTF-16 units (String.length()) is kept; a longer one is
   * cut to its first 20 units (substring(0, 20)) and marked "...".
   */
  function Excerpt(content: string): (e: string)
    ensures Utf16Length(content) <= 20 ==> e == content
    ensures Utf16Length(content) > 20 ==>
      |e| >= 3 && e[|e| - 3..] == "..."
      && var kept := e[..|e| - 3];
      |kept| < |content| && kept == content[..|kept|]
      && Utf16Length(kept) <= 20 && Utf16Length(kept) + Utf16Units(content[|kept|]) > 20
  {
    if Utf16Length(content) > 20 then
      var kept := Utf16Prefix(content, 20);
      assert (kept + "...")[..|kept|] == kept;
      kept + "..."
    else content
  }

  /** Text without supplementary characters is cut at its 20th character. */
  lemma ExcerptOfBmpText(content: string)
    requires forall i :: 0 <= i < |content| ==> content[i] as int <= 0xFFFF
    ensures |content| <= 20 ==> Excerpt(content) == content
    ensures |content| > 20 ==> Excerpt(content) == content[..20] + "..."
  {
    var e := Excerpt(content);
    if |content| > 20 {
      var kept := e[..|e| - 3];
      assert forall i :: 0 <= i < |kept| ==> kept[i] == content[i];
      assert Utf16Length(kept) == |kept|;
      assert |kept| == 20;
      assert e == kept + "...";
    }
  }

  /** Eleven emoji are 22 UTF-16 units: ten of them are kept, as substring(0, 20) does. */
  lemma ExcerptOfEmoji()
    ensures var emoji := seq(11, _ => '\U{1F600}');
      Excerpt(emoji) == emoji[..10] + "..."
  {
    var emoji := seq(11, _ => '\U{1F600}');
    assert Utf16Length(emoji) == 22;
    var e := Excerpt(emoji);
    var kept := e[..|e| - 3];
    assert forall i :: 0 <= i < |kept| ==> kept[i] == emoji[i];
    assert |kept| == 10;
    assert e == kept + "...";
  }

  class WriteEnabledBucket {
    const config: BucketConfig
    const writePassword: string
    var uploadHistory: map<string, int>

    constructor (config: BucketConfig, writePassword: string)
      ensures this.config == config && this.writePassword == writePassword
      ensures uploadHistory == map[]
    {
      this.config := config;
      this.writePassword := writePassword;
      uploadHistory := map[];
    }

    /** encodeBasicAuth(write): the "w" user with the write password, or the "r" user. */
    function EncodeBasicAuth(write: bool): (h: string)
      ensures |h| >= |BASIC_PREFIX| && h[..|BASIC_PREFIX|] == BASIC_PREFIX
      ensures write ==> Credentials(h[|BASIC_PREFIX|..]) == Some("w:" + writePassword)
      ensures !write ==> Credentials(h[|BASIC_PREFIX|..]) == Some("r:" + config.readPassword)
    {
      if write then
        assert "w" + ":" + writePassword == "w:" + writePassword;
        HeaderValue("w", writePassword)
      else
        assert "r" + ":" + config.readPassword == "r:" + config.readPassword;
        HeaderValue("r", config.readPassword)
    }

    /** The PUT request: the write URI with the write credentials. */
    function PutRequest(pathInBucket: string): (request: Request)
      ensures request.verb == "PUT" && request.uri == CreateWriteUri(config, pathInBucket)
      ensures request.headers == [Header(AUTHORIZATION, EncodeBasicAuth(true))]
    {
      Request("PUT", CreateWriteUri(config, pathInBucket), [Header(AUTHORIZATION, EncodeBasicAuth(true))])
    }

    /** recordUploadInHistory: remember the upload time, overwriting an earlier one. */
    method RecordUploadInHistory(pathInBucket: string, now: int)
      modifies this
      ensures uploadHistory == Recorded(old(uploadHistory), pathInBucket, now)
    {
      uploadHistory := uploadHistory[pathInBucket := now];
    }

    /**
     * uploadContentNonBlocking: one PUT; the history is updated, with the clock reading
     * taken after the response, only if the service answered 200.
     */
    method UploadContentNonBlocking(pathInBucket: string, contentDescription: string, put: Exchange, now: int)
      returns (r: Outcome<Throwable>, request: Request)
      modifies this
      ensures request == PutRequest(pathInBucket)
      ensures r == UploadOutcome(CreateWriteUri(config, pathInBucket), contentDescription, put)
      ensures r.Pass? ==> uploadHistory == Recorded(old(uploadHistory), pathInBucket, now)
      ensures r.Fail? ==> uploadHistory == old(uploadHistory)
    {
      var uri := CreateWriteUri(config, pathInBucket);
      request := PutRequest(pathInBucket);
      r := UploadOutcome(uri, contentDescription, put);
      if r.Pass? {
        RecordUploadInHistory(pathInBucket, now);
      }
    }

    /**
     * uploadFileNonBlocking: the target is extended by the local file name; a local file
     * that cannot be opened fails before any request is made.
     */
    method UploadFileNonBlocking(fs: FileSystem, localPath: string, pathInBucket: string,
                                 put: Exchange, now: int)
      returns (r: Outcome<Throwable>, request: Option<Request>)
      modifies this
      ensures localPath !in fs ==>
        r == Fail(BucketAccess(WithCause(Text("I/O failed to open file \"" + localPath + "\" for upload to BucketFS."),
          NO_SUCH_FILE)))
        && request == None && uploadHistory == old(uploadHistory)
      ensures localPath in fs ==>
        var target := ExtendPathInBucketDownToFilename(localPath, pathInBucket);
        request == Some(PutRequest(target))
        && r == UploadOutcome(CreateWriteUri(config, target), "file " + target, put)
        && uploadHistory == (if r.Pass? then Recorded(old(uploadHistory), target, now) else old(uploadHistory))
    {
      var extendedPathInBucket := ExtendPathInBucketDownToFilename(localPath, pathInBucket);
      if localPath !in fs {
        r := Fail(BucketAccess(WithCause(Text("I/O failed to open file \"" + localPath + "\" for upload to BucketFS."),
          NO_SUCH_FILE)));
        request := None;
        return;
      }
      var sent;
      r, sent := UploadContentNonBlocking(extendedPathInBucket, "file " + extendedPathInBucket, put, now);
      request := Some(sent);
    }

    /** uploadStringContentNonBlocking: described as "text " and an excerpt of the content. */
    method UploadStringContentNonBlocking(content: string, pathInBucket: string, put: Exchange, now: int)
      returns (r: Outcome<Throwable>, request: Request)
      modifies this
      ensures request == PutRequest(pathInBucket)
      ensures r == UploadOutcome(CreateWriteUri(config, pathInBucket), "text " + Excerpt(content), put)
      ensures uploadHistory == (if r.Pass? then Recorded(old(uploadHistory), pathInBucket, now) else old(uploadHistory))
    {
      var excerpt := Excerpt(content);
      r, request := UploadContentNonBlocking(pathInBucket, "text " + excerpt, put, now);
    }

    /** uploadInputStream(supplier, path, blocking): the flag is ignored, the upload never waits. */
    method UploadInputStream(pathInBucket: string, blocking: bool, put: Exchange, now: int)
      returns (r: Outcome<Throwable>, request: Request)
      modifies this
      ensures request == PutRequest(pathInBucket)
      ensures r == UploadOutcome(CreateWriteUri(config, pathInBucket), "input stream", put)
      ensures uploadHistory == (if r.Pass? then Recorded(old(uploadHistory), pathInBucket, now) else old(uploadHistory))
    {
      r, request := UploadContentNonBlocking(pathInBucket, "input stream", put, now);
    }
  }

  /** Only successful uploads are remembered: a path enters the history only with a 200. */
  lemma HistoryOnlyGrowsOnSuccess(history: map<string, int>, uri: string, desc: string, path: string,
                                  put: Exchange, now: int)
    ensures var r := UploadOutcome(uri, desc, put);
      var h := if r.Pass? then Recorded(history, path, now) else history;
      (path in h && path !in history ==> put == Response(200, put.body))
      && (put.Response? && put.statusCode == 200 ==> path in h && h[path] == now)
  {
  }
}

/**
 * com.exasol.bucketfs.SyncAwareBucket: a write-enabled bucket whose blocking uploads
 * throttle repeated writes to one path and then wait until the monitor reports the
 * object synchronized. Sleeping is not modelled; the decisions and the waits are.
 */
module SyncAwareBucket {

  import opened Wrappers
  import opened BucketErrors
  import opened HttpExchange
  import opened FileIo
  import opened ReadEnabledBucket
  import opened WriteEnabledBucket

  const BUCKET_SYNC_TIMEOUT_IN_MILLISECONDS := 60000
  const FILE_SYNC_POLLING_DELAY_IN_MILLISECONDS := 200
  const NANOS_PER_SECOND := 1000000000
  const NANOS_PER_MILLI := 1000000

  /**
   * The monitor's answer to its k-th question "is this path synchronized after this
   * instant?"; the monitor may also throw.
   */
  type Monitor = (string, int, nat) -> Result<bool, Throwable>

  /** The clock readings one upload takes, in the order the code takes them. */
  datatype Clock = Clock(
    throttleNow: int,        // Instant.now() in the throttle, nanoseconds
    beforeUploadMillis: int, // System.currentTimeMillis() before the PUT
    historyNow: int,         // Instant.now() when the upload is recorded, nanoseconds
    pollReadings: seq<int>)  // System.currentTimeMillis() at each test of the wait loop

  /** The clock eventually passes the deadline, so the wait loop ends. */
  predicate ReachesDeadline(readings: seq<int>, expiry: int) {
    |readings| > 0 && readings[|readings| - 1] >= expiry
  }

  /**
   * delayRepeatedUploadToSamePath: wait only when the path was uploaded before and "now"
   * is not after its upload second plus one second; then wait for the rest of now's second.
   */
  function ThrottleDelay(history: map<string, int>, pathInBucket: string, now: int): (delay: Option<int>)
    ensures pathInBucket !in history ==> delay.None?
    ensures pathInBucket in history ==>
      (delay.Some? <==> !(now > history[pathInBucket] - history[pathInBucket] % NANOS_PER_SECOND + NANOS_PER_SECOND))
    ensures delay.Some? ==> 1 <= delay.value <= 1000
    ensures delay.Some? ==> delay.value * NANOS_PER_MILLI + now % NANOS_PER_SECOND >= NANOS_PER_SECOND
  {
    if pathInBucket in history then
      var lastUploadAt := history[pathInBucket] - history[pathInBucket] % NANOS_PER_SECOND;
      if !(now > lastUploadAt + NANOS_PER_SECOND) then Some(1000 - (now % NANOS_PER_SECOND) / NANOS_PER_MILLI)
      else None
    else None
  }

  /**
   * The throttle's purpose: an upload starting after the delay falls in a later whole
   * second than the previous upload to the same path, so the two can be told apart.
   */
  lemma ThrottleSeparatesSeconds(history: map<string, int>, pathInBucket: string, now: int, start: int)
    requires pathInBucket in history && history[pathInBucket] <= now
    requires var d := ThrottleDelay(history, pathInBucket, now);
      start >= now + (if d.Some? then d.value * NANOS_PER_MILLI else 0)
    ensures start / NANOS_PER_SECOND > history[pathInBucket] / NANOS_PER_SECOND
  {
    var last := history[pathInBucket];
    var d := ThrottleDelay(history, pathInBucket, now);
    if d.Some? {
      assert start >= now - now % NANOS_PER_SECOND + NANOS_PER_SECOND;
      assert now / NANOS_PER_SECOND >= last / NANOS_PER_SECOND;
    } else {
      assert now > last - last % NANOS_PER_SECOND + NANOS_PER_SECOND;
    }
  }

  /** The k-th and later polls of waitForFileToBeSynchronized, with their outcome. */
  datatype Wait = Wait(outcome: Outcome<Throwable>, polls: nat)

  function WaitFrom(monitor: Monitor, pathInBucket: string, bucketName: string, afterUtc: int, readings: seq<int>,
                    expiry: int, k: nat)
    : (w: Wait)
    requires ReachesDeadline(readings, expiry) && k < |readings|
    ensures k <= w.polls < |readings|
    ensures forall j :: k <= j < w.polls ==>
      readings[j] < expiry && monitor(pathInBucket, afterUtc, j) == Ok(false)
    ensures readings[w.polls] >= expiry ==> w.outcome == Fail(TimeoutException(pathInBucket, bucketName, afterUtc))
    ensures readings[w.polls] < expiry ==>
      match monitor(pathInBucket, afterUtc, w.polls)
      case Ok(synced) => synced && w.outcome == Pass
      case Err(e) => w.outcome == Fail(e)
    decreases |readings| - k
  {
    if readings[k] >= expiry then Wait(Fail(TimeoutException(pathInBucket, bucketName, afterUtc)), k)
    else match monitor(pathInBucket, afterUtc, k)
      case Err(e) => Wait(Fail(e), k)
      case Ok(synced) =>
        if synced then Wait(Pass, k) else WaitFrom(monitor, pathInBucket, bucketName, afterUtc, readings, expiry, k + 1)
  }

  /** A timeout means every poll made before the deadline was answered "not yet". */
  lemma TimeoutMeansNeverSynchronized(monitor: Monitor, pathInBucket: string, bucketName: string, afterUtc: int, readings: seq<int>,
                                      expiry: int)
    requires ReachesDeadline(readings, expiry)
    requires WaitFrom(monitor, pathInBucket, bucketName, afterUtc, readings, expiry, 0).outcome
             == Fail(TimeoutException(pathInBucket, bucketName, afterUtc))
    requires forall j :: 0 <= j < |readings| ==>
      monitor(pathInBucket, afterUtc, j) != Err(TimeoutException(pathInBucket, bucketName, afterUtc))
    ensures var w := WaitFrom(monitor, pathInBucket, bucketName, afterUtc, readings, expiry, 0);
      readings[w.polls] >= expiry
      && forall j :: 0 <= j < w.polls ==> monitor(pathInBucket, afterUtc, j) == Ok(false)
  {
  }

  class SyncAwareBucket {
    const bucket: WriteEnabledBucket
    const monitor: Monitor

    constructor (bucket: WriteEnabledBucket, monitor: Monitor)
      ensures this.bucket == bucket && this.monitor == monitor
    {
      this.bucket := bucket;
      this.monitor := monitor;
    }

    /** delayRepeatedUploadToSamePath: the delay it would sleep for, if any. */
    method DelayRepeatedUploadToSamePath(extendedPathInBucket: string, now: int) returns (delay: Option<int>)
      ensures delay == ThrottleDelay(bucket.uploadHistory, extendedPathInBucket, now)
    {
      delay := None;
      if extendedPathInBucket in bucket.uploadHistory {
        var lastUploadAt := bucket.uploadHistory[extendedPathInBucket];
        lastUploadAt := lastUploadAt - lastUploadAt % NANOS_PER_SECOND;
        if !(now > lastUploadAt + NANOS_PER_SECOND) {
          delay := Some(1000 - (now % NANOS_PER_SECOND) / NANOS_PER_MILLI);
        }
      }
    }

    /** waitForFileToBeSynchronized: poll until the monitor agrees or the clock passes start + 60 s. */
    method WaitForFileToBeSynchronized(pathInBucket: string, millisSinceEpochBeforeUpload: int, readings: seq<int>)
      returns (r: Outcome<Throwable>, polls: nat)
      requires ReachesDeadline(readings, millisSinceEpochBeforeUpload + BUCKET_SYNC_TIMEOUT_IN_MILLISECONDS)
      ensures Wait(r, polls) == WaitFrom(monitor, pathInBucket, GetFullyQualifiedBucketName(bucket.config),
                                         millisSinceEpochBeforeUpload * NANOS_PER_MILLI, readings,
                                         millisSinceEpochBeforeUpload + BUCKET_SYNC_TIMEOUT_IN_MILLISECONDS, 0)
    {
      var expiry := millisSinceEpochBeforeUpload + BUCKET_SYNC_TIMEOUT_IN_MILLISECONDS;
      var afterUtc := millisSinceEpochBeforeUpload * NANOS_PER_MILLI;
      var bucketName := GetFullyQualifiedBucketName(bucket.config);
      var k := 0;
      while readings[k] < expiry
        invariant k < |readings|
        invariant WaitFrom(monitor, pathInBucket, bucketName, afterUtc, readings, expiry, k)
               == WaitFrom(monitor, pathInBucket, bucketName, afterUtc, readings, expiry, 0)
        decreases |readings| - k
      {
        var answer := monitor(pathInBucket, afterUtc, k);
        if answer.Err? {
          return Fail(answer.error), k;
        }
        if answer.value {
          return Pass, k;
        }
        k := k + 1;
      }
      r, polls := Fail(TimeoutException(pathInBucket, bucketName, afterUtc)), k;
    }

    /**
     * uploadContent: a blocking upload first throttles, then uploads, then waits for
     * synchronization after the time taken just before the upload; a non-blocking one
     * only uploads.
     */
    method UploadContent(pathInBucket: string, contentDescription: string, blocking: bool, clock: Clock, put: Exchange)
      returns (r: Outcome<Throwable>, delay: Option<int>, polls: nat)
      requires blocking ==>
        ReachesDeadline(clock.pollReadings, clock.beforeUploadMillis + BUCKET_SYNC_TIMEOUT_IN_MILLISECONDS)
      modifies bucket
      ensures delay == (if blocking then ThrottleDelay(old(bucket.uploadHistory), pathInBucket, clock.throttleNow) else None)
      ensures var upload := UploadOutcome(CreateWriteUri(bucket.config, pathInBucket), contentDescription, put);
        bucket.uploadHistory
          == (if upload.Pass? then Recorded(old(bucket.uploadHistory), pathInBucket, clock.historyNow)
              else old(bucket.uploadHistory))
        && (upload.Fail? || !blocking ==> r == upload && polls == 0)
        && (upload.Pass? && blocking ==>
              Wait(r, polls) == WaitFrom(monitor, pathInBucket, GetFullyQualifiedBucketName(bucket.config),
                clock.beforeUploadMillis * NANOS_PER_MILLI,
                clock.pollReadings, clock.beforeUploadMillis + BUCKET_SYNC_TIMEOUT_IN_MILLISECONDS, 0))
    {
      delay := None;
      if blocking {
        delay := DelayRepeatedUploadToSamePath(pathInBucket, clock.throttleNow);
      }
      var millisSinceEpochBeforeUpload := clock.beforeUploadMillis;
      var request;
      r, request := bucket.UploadContentNonBlocking(pathInBucket, contentDescription, put, clock.historyNow);
      ghost var upload := r;
      assert upload == UploadOutcome(CreateWriteUri(bucket.config, pathInBucket), contentDescription, put);
      polls := 0;
      if r.Pass? && blocking {
        r, polls := WaitForFileToBeSynchronized(pathInBucket, millisSinceEpochBeforeUpload, clock.pollReadings);
      }
    }

    /** uploadFile(localPath, pathInBucket, blocking) */
    method UploadFileWithBlocking(fs: FileSystem, localPath: string, pathInBucket: string,
                                  blocking: bool, clock: Clock, put: Exchange)
      returns (r: Outcome<Throwable>, delay: Option<int>, polls: nat)
      requires blocking ==>
        ReachesDeadline(clock.pollReadings, clock.beforeUploadMillis + BUCKET_SYNC_TIMEOUT_IN_MILLISECONDS)
      modifies bucket
      ensures localPath !in fs ==>
        r == Fail(BucketAccess(WithCause(Text("I/O failed to open file \"" + localPath + "\" for upload to BucketFS."),
          NO_SUCH_FILE)))
        && delay == None && bucket.uploadHistory == old(bucket.uploadHistory)
      ensures localPath in fs ==>
        var target := ExtendPathInBucketDownToFilename(localPath, pathInBucket);
        delay == (if blocking then ThrottleDelay(old(bucket.uploadHistory), target, clock.throttleNow) else None)
        && var upload := UploadOutcome(CreateWriteUri(bucket.config, target), "file " + target, put);
        bucket.uploadHistory
          == (if upload.Pass? then Recorded(old(bucket.uploadHistory), target, clock.historyNow)
              else old(bucket.uploadHistory))
        && (upload.Fail? || !blocking ==> r == upload && polls == 0)
        && (upload.Pass? && blocking ==>
              Wait(r, polls) == WaitFrom(monitor, target, GetFullyQualifiedBucketName(bucket.config),
                clock.beforeUploadMillis * NANOS_PER_MILLI,
                clock.pollReadings, clock.beforeUploadMillis + BUCKET_SYNC_TIMEOUT_IN_MILLISECONDS, 0))
    {
      var extendedPathInBucket := ExtendPathInBucketDownToFilename(localPath, pathInBucket);
      if localPath !in fs {
        r := Fail(BucketAccess(WithCause(Text("I/O failed to open file \"" + localPath + "\" for upload to BucketFS."),
          NO_SUCH_FILE)));
        return r, None, 0;
      }
      r, delay, polls := UploadContent(extendedPathInBucket, "file " + extendedPathInBucket, blocking, clock, put);
    }

    /** uploadFile(localPath, pathInBucket): always blocking. */
    method UploadFile(fs: FileSystem, localPath: string, pathInBucket: string,
                      clock: Clock, put: Exchange)
      returns (r: Outcome<Throwable>, delay: Option<int>, polls: nat)
      requires ReachesDeadline(clock.pollReadings, clock.beforeUploadMillis + BUCKET_SYNC_TIMEOUT_IN_MILLISECONDS)
      modifies bucket
      ensures localPath !in fs ==>
        r == Fail(BucketAccess(WithCause(Text("I/O failed to open file \"" + localPath + "\" for upload to BucketFS."),
          NO_SUCH_FILE)))
        && delay == None && bucket.uploadHistory == old(bucket.uploadHistory)
      ensures localPath in fs ==>
        var target := ExtendPathInBucketDownToFilename(localPath, pathInBucket);
        delay == ThrottleDelay(old(bucket.uploadHistory), target, clock.throttleNow)
        && var upload := UploadOutcome(CreateWriteUri(bucket.config, target), "file " + target, put);
        bucket.uploadHistory
          == (if upload.Pass? then Recorded(old(bucket.uploadHistory), target, clock.historyNow)
              else old(bucket.uploadHistory))
        && (upload.Fail? ==> r == upload && polls == 0)
        && (upload.Pass? ==>
              Wait(r, polls) == WaitFrom(monitor, target, GetFullyQualifiedBucketName(bucket.config),
                clock.beforeUploadMillis * NANOS_PER_MILLI,
                clock.pollReadings, clock.beforeUploadMillis + BUCKET_SYNC_TIMEOUT_IN_MILLISECONDS, 0))
    {
      r, delay, polls := UploadFileWithBlocking(fs, localPath, pathInBucket, true, clock, put);
    }

    /** uploadStringContent(content, pathInBucket, blocking): described by an excerpt of the text. */
    method UploadStringContentWithBlocking(content: string, pathInBucket: string, blocking: bool, clock: Clock,
                                           put: Exchange)
      returns (r: Outcome<Throwable>, delay: Option<int>, polls: nat)
      requires blocking ==>
        ReachesDeadline(clock.pollReadings, clock.beforeUploadMillis + BUCKET_SYNC_TIMEOUT_IN_MILLISECONDS)
      modifies bucket
      ensures delay == (if blocking then ThrottleDelay(old(bucket.uploadHistory), pathInBucket, clock.throttleNow) else None)
      ensures var upload := UploadOutcome(CreateWriteUri(bucket.config, pathInBucket), "text " + Excerpt(content), put);
        (upload.Fail? || !blocking ==> r == upload && polls == 0)
        && bucket.uploadHistory
          == (if upload.Pass? then Recorded(old(bucket.uploadHistory), pathInBucket, clock.historyNow)
              else old(bucket.uploadHistory))
        && (upload.Pass? && blocking ==>
              Wait(r, polls) == WaitFrom(monitor, pathInBucket, GetFullyQualifiedBucketName(bucket.config),
                clock.beforeUploadMillis * NANOS_PER_MILLI,
                clock.pollReadings, clock.beforeUploadMillis + BUCKET_SYNC_TIMEOUT_IN_MILLISECONDS, 0))
    {
      var excerpt := Excerpt(content);
      r, delay, polls := UploadContent(pathInBucket, "text " + excerpt, blocking, clock, put);
    }

    /** uploadStringContent(content, pathInBucket): always blocking. */
    method UploadStringContent(content: string, pathInBucket: string, clock: Clock, put: Exchange)
      returns (r: Outcome<Throwable>, delay: Option<int>, polls: nat)
      requires ReachesDeadline(clock.pollReadings, clock.beforeUploadMillis + BUCKET_SYNC_TIMEOUT_IN_MILLISECONDS)
      modifies bucket
      ensures delay == ThrottleDelay(old(bucket.uploadHistory), pathInBucket, clock.throttleNow)
      ensures var upload := UploadOutcome(CreateWriteUri(bucket.config, pathInBucket), "text " + Excerpt(content), put);
        bucket.uploadHistory
          == (if upload.Pass? then Recorded(old(bucket.uploadHistory), pathInBucket, clock.historyNow)
              else old(bucket.uploadHistory))
        && (upload.Fail? ==> r == upload && polls == 0)
        && (upload.Pass? ==>
              Wait(r, polls) == WaitFrom(monitor, pathInBucket, GetFullyQualifiedBucketName(bucket.config),
                clock.beforeUploadMillis * NANOS_PER_MILLI,
                clock.pollReadings, clock.beforeUploadMillis + BUCKET_SYNC_TIMEOUT_IN_MILLISECONDS, 0))
    {
      r, delay, polls := UploadStringContentWithBlocking(content, pathInBucket, true, clock, put);
    }

    /** uploadInputStream(supplier, path, blocking): never throttles and never waits. */
    method UploadInputStream(pathInBucket: string, blocking: bool, clock: Clock, put: Exchange)
      returns (r: Outcome<Throwable>)
      modifies bucket
      ensures r == UploadOutcome(CreateWriteUri(bucket.config, pathInBucket), "input stream", put)
      ensures bucket.uploadHistory
        == (if r.Pass? then Recorded(old(bucket.uploadHistory), pathInBucket, clock.historyNow)
            else old(bucket.uploadHistory))
    {
      var request;
      r, request := bucket.UploadContentNonBlocking(pathInBucket, "input stream", put, clock.historyNow);
    }
  }
}
