/**
 * The JSON-RPC result envelope of the BucketFS service and the check every command makes
 * on it (com.exasol.bucketfs.jsonrpc.AbstractJsonResponseCommand). The JSON-B
 * deserialisation is not modelled: a command gets the response already read into fields.
 */
module AbstractJsonResponseCommand {

  import opened Wrappers
  import opened JavaString

  const SUCCESS_RESULT_NAME := "OK"
  const SUCCESS_RESULT_CODE := 0

  /** The JSON text of a jakarta.json.JsonStructure, as its toString() renders it. */
  type JsonStructure = string

  /** JsonRpcException(message[, cause]): the client's one runtime exception. */
  datatype JsonRpcException = JsonRpcException(message: string, cause: Option<Cause>)

  /** The checked exceptions the client turns into a JsonRpcException. */
  datatype Cause = IoException(detail: string) | InterruptedException

  /** JsonRpcResponse: the fields "result_jobid" … "result_output"; missing strings are null. */
  datatype JsonRpcResponse = JsonRpcResponse(
    jobId: Option<string>,
    code: int,
    name: Option<string>,
    description: Option<string>,
    revision: int,
    output: Option<JsonStructure>)
  {
    function GetCode(): int { code }

    function GetName(): Option<string> { name }

    function GetOutput(): Option<JsonStructure> { output }

    /** toString(): "Response [jobId=…, code=…, name=…, description=…, revision=…, output=…]", null as "null". */
    function ToString(): (s: string)
      ensures StartsWith(s, "Response [jobId=" + Show(jobId) + ", code=" + IntToString(code) + ", name=")
      ensures EndsWith(s, ", output=" + Show(output) + "]")
    {
      var head := "Response [jobId=" + Show(jobId) + ", code=" + IntToString(code) + ", name=";
      var tail := ", output=" + Show(output) + "]";
      var s := head + Show(name) + ", description=" + Show(description) + ", revision=" + IntToString(revision) + tail;
      assert s[..|head|] == head;
      assert s[|s| - |tail|..] == tail;
      s
    }
  }

  /**
   * "OK".equalsIgnoreCase(name). Java compares char by char: equal chars, chars with
   * equal Character.toUpperCase, or chars whose upper cases have equal lower cases. Against
   * 'O' that admits 'O' and 'o'; against 'K' it admits 'K', 'k' and the KELVIN SIGN U+212A,
   * whose lower case is 'k'. A null name is never equal.
   */
  predicate EqualsIgnoreCaseOk(name: Option<string>) {
    name.Some? && |name.value| == 2
    && (name.value[0] == 'O' || name.value[0] == 'o')
    && (name.value[1] == 'K' || name.value[1] == 'k' || name.value[1] == '\U{212A}')
  }

  /** Exactly six names count as "OK". */
  lemma OkNames(name: string)
    ensures EqualsIgnoreCaseOk(Some(name)) <==> name in {"OK", "Ok", "oK", "ok", "O\U{212A}", "o\U{212A}"}
  {
    if EqualsIgnoreCaseOk(Some(name)) {
      assert name == [name[0], name[1]];
    }
  }

  /** verifySuccess(result): a non-zero code is reported first, then a name other than "OK". */
  function VerifySuccess(result: JsonRpcResponse): (r: Outcome<JsonRpcException>)
    ensures r.Pass? <==> result.GetCode() == SUCCESS_RESULT_CODE && EqualsIgnoreCaseOk(result.GetName())
    ensures result.GetCode() != SUCCESS_RESULT_CODE ==>
      r == Fail(JsonRpcException("Command returned non-zero result code: " + result.ToString(), None))
    ensures result.GetCode() == SUCCESS_RESULT_CODE && !EqualsIgnoreCaseOk(result.GetName()) ==>
      r == Fail(JsonRpcException("Command returned non-OK result name: " + result.ToString(), None))
  {
    if result.GetCode() != SUCCESS_RESULT_CODE then
      Fail(JsonRpcException("Command returned non-zero result code: " + result.ToString(), None))
    else if !EqualsIgnoreCaseOk(result.GetName()) then
      Fail(JsonRpcException("Command returned non-OK result name: " + result.ToString(), None))
    else Pass
  }

  /** processResult(payload): the subclass sees the output only of a successful response. */
  function ProcessResult<R>(payload: JsonRpcResponse, process: Option<JsonStructure> -> R)
    : (r: Result<R, JsonRpcException>)
    ensures r.Ok? <==> VerifySuccess(payload).Pass?
    ensures r.Ok? ==> r.value == process(payload.GetOutput())
    ensures r.Err? ==> r.error == VerifySuccess(payload).error
  {
    match VerifySuccess(payload)
    case Fail(e) => Err(e)
    case Pass => Ok(process(payload.GetOutput()))
  }

  /** The unit tests' responses: (0, "error name") and (1, "OK") fail, (0, "OK") succeeds. */
  lemma UnitTestResponses(jobId: Option<string>, description: Option<string>, revision: int,
                          output: Option<JsonStructure>)
    ensures VerifySuccess(JsonRpcResponse(jobId, 0, Some("error name"), description, revision, output)).Fail?
    ensures VerifySuccess(JsonRpcResponse(jobId, 1, Some("OK"), description, revision, output)).Fail?
    ensures VerifySuccess(JsonRpcResponse(jobId, 0, Some("OK"), description, revision, output)).Pass?
  {
  }

  /** A non-zero code is what gets reported even when the name is wrong as well. */
  lemma CodeCheckedFirst(result: JsonRpcResponse)
    requires result.GetCode() != SUCCESS_RESULT_CODE && !EqualsIgnoreCaseOk(result.GetName())
    ensures VerifySuccess(result).error.message[..39] == "Command returned non-zero result code: "
  {
    var m := VerifySuccess(result).error.message;
    assert m == "Command returned non-zero result code: " + result.ToString();
  }
}

/** com.exasol.bucketfs.jsonrpc.JsonResponseCommand: the older copy of the same check. */
module JsonResponseCommand {

  import opened Wrappers
  import opened AbstractJsonResponseCommand

  /**
   * verifySuccess(result), with the literals 0 and "OK" written inline. The exception for a
   * bad name is stated through SameAsAbstractCommand.
   */
  function VerifySuccess(result: JsonRpcResponse): (r: Outcome<JsonRpcException>)
    ensures r.Pass? <==> result.GetCode() == 0 && EqualsIgnoreCaseOk(result.GetName())
    ensures result.GetCode() != 0 ==>
      r == Fail(JsonRpcException("Command returned non-zero result code: " + result.ToString(), None))
  {
    if result.GetCode() != 0 then
      Fail(JsonRpcException("Command returned non-zero result code: " + result.ToString(), None))
    else if !EqualsIgnoreCaseOk(result.GetName()) then
      Fail(JsonRpcException("Command returned non-OK result name: " + result.ToString(), None))
    else Pass
  }

  /** processResult: its failures are verification's, as SameAsAbstractCommand states. */
  function ProcessResult<R>(payload: JsonRpcResponse, process: Option<JsonStructure> -> R)
    : (r: Result<R, JsonRpcException>)
    ensures r.Ok? <==> VerifySuccess(payload).Pass?
    ensures r.Ok? ==> r.value == process(payload.GetOutput())
  {
    match VerifySuccess(payload)
    case Fail(e) => Err(e)
    case Pass => Ok(process(payload.GetOutput()))
  }

  /** Both copies accept and reject the same responses with the same exceptions. */
  lemma SameAsAbstractCommand<R>(payload: JsonRpcResponse, process: Option<JsonStructure> -> R)
    ensures VerifySuccess(payload) == AbstractJsonResponseCommand.VerifySuccess(payload)
    ensures ProcessResult(payload, process) == AbstractJsonResponseCommand.ProcessResult(payload, process)
  {
  }
}

/**
 * com.exasol.bucketfs.jsonrpc.JsonRpcClient: posts a serialised payload to the service
 * URI with the authenticator's header and hands back the body of a 2xx response. The
 * HTTP client is an input exchange.
 */
module JsonRpcClient {

  import opened Wrappers
  import opened JavaString
  import opened BucketErrors
  import opened BasicAuth
  import opened BasicAuthAuthenticator
  import HttpExchange
  import opened AbstractJsonResponseCommand

  /** JsonRpcCommandExecutor.JsonRpcPayload: the job name and its parameters, serialised by the mapper. */
  datatype JsonRpcPayload = JsonRpcPayload(jobName: string, parameters: JsonStructure)

  /** The POST request the client sends. */
  datatype PostRequest = PostRequest(uri: string, body: string, headers: seq<Header>)
  {
    /** HttpRequest.toString(): the URI, a space and the method. */
    function ToString(): string { uri + " POST" }
  }

  /** Java's int division, which truncates toward zero (Dafny's rounds down). */
  function JavaDiv(a: int, b: int): (q: int)
    requires b > 0
    ensures a >= 0 ==> q == a / b
    ensures a < 0 ==> q == -((-a) / b)
  {
    if a >= 0 then a / b else -((-a) / b)
  }

  /** The client's success test: status / 100 == 2 in Java arithmetic. */
  predicate IsSuccessStatus(statusCode: int) {
    JavaDiv(statusCode, 100) == 2
  }

  /** Exactly the statuses 200 to 299 pass, negative ones included in the reckoning. */
  lemma SuccessStatusRange(statusCode: int)
    ensures IsSuccessStatus(statusCode) <==> 200 <= statusCode <= 299
  {
    if statusCode < 0 {
      assert JavaDiv(statusCode, 100) <= 0;
    }
  }

  /** The unit test's statuses: 200 and 250 pass, 404 does not. */
  lemma UnitTestStatuses()
    ensures IsSuccessStatus(200) && IsSuccessStatus(250) && !IsSuccessStatus(404)
  {
    SuccessStatusRange(200);
    SuccessStatusRange(250);
    SuccessStatusRange(404);
  }

  /** The HTTP client and the mapper are opaque handles; the mapper's serialisation is a function. */
  datatype JsonRpcClient = JsonRpcClient(
    httpClient: nat,
    serialize: JsonRpcPayload -> string,
    authenticator: Authenticator,
    serviceUri: string)
  {
    /** buildRequest(payload): POST of the serialised payload, with the authenticator's header. */
    method BuildRequest(payload: JsonRpcPayload) returns (request: PostRequest)
      ensures request == PostRequest(serviceUri, serialize(payload),
                                     [Header(AUTHORIZATION, authenticator.BasicAuthValue())])
    {
      var requestBuilder := new RequestBuilder();
      authenticator.Authenticate(requestBuilder);
      request := PostRequest(serviceUri, serialize(payload), requestBuilder.headers);
    }

    /** sendRequest(payload): the body of a 2xx response; anything else is a JsonRpcException. */
    method SendRequest(payload: JsonRpcPayload, exchange: HttpExchange.Exchange)
      returns (r: Result<string, JsonRpcException>, request: PostRequest)
      ensures request.uri == serviceUri && request.body == serialize(payload)
      ensures request.headers == [Header(AUTHORIZATION, authenticator.BasicAuthValue())]
      ensures r == ResponseOutcome(request, exchange)
    {
      request := BuildRequest(payload);
      r := ResponseOutcome(request, exchange);
    }
  }

  /**
   * sendRequest(request) and verifySuccessResponse: an I/O error or an interrupt becomes a
   * JsonRpcException carrying it; a response passes iff its status is 2xx, with the body unchanged.
   */
  function ResponseOutcome(request: PostRequest, exchange: HttpExchange.Exchange): (r: Result<string, JsonRpcException>)
    ensures r.Ok? <==> exchange.Response? && 200 <= exchange.statusCode <= 299
    ensures r.Ok? ==> r.value == exchange.body
    ensures exchange.Response? && r.Err? ==>
      r.error == JsonRpcException("Received non-ok response status " + IntToString(exchange.statusCode)
                                  + " for request " + request.ToString() + ". Response body: '" + exchange.body + "'", None)
    ensures !exchange.Response? ==> r.Err? && r.error.message == "Error executing request '" + request.ToString() + "'"
    ensures exchange.IoError? ==>
      r.error.cause == Some(Cause.IoException(if exchange.detail.Text? then exchange.detail.text else exchange.detail.code))
    ensures exchange.Interrupted? ==> r.error.cause == Some(Cause.InterruptedException)
  {
    match exchange
    case IoError(detail) =>
      Err(JsonRpcException("Error executing request '" + request.ToString() + "'",
                           Some(Cause.IoException(if detail.Text? then detail.text else detail.code))))
    case Interrupted =>
      Err(JsonRpcException("Error executing request '" + request.ToString() + "'", Some(Cause.InterruptedException)))
    case Response(statusCode, body) =>
      SuccessStatusRange(statusCode);
      if !IsSuccessStatus(statusCode) then
        Err(JsonRpcException("Received non-ok response status " + IntToString(statusCode) + " for request "
                             + request.ToString() + ". Response body: '" + body + "'", None))
      else Ok(body)
  }

  /**
   * The constructor: Objects.requireNonNull on each argument in order, the exception
   * naming the first one that is null.
   */
  function NewClient(httpClient: Option<nat>, serializer: Option<JsonRpcPayload -> string>,
                     authenticator: Option<Authenticator>, serviceUri: Option<string>)
    : (r: Result<JsonRpcClient, Throwable>)
    ensures r.Ok? <==> httpClient.Some? && serializer.Some? && authenticator.Some? && serviceUri.Some?
    ensures httpClient.None? ==> r == Err(NullPointerException("httpClient"))
    ensures httpClient.Some? && serializer.None? ==> r == Err(NullPointerException("serializer"))
    ensures httpClient.Some? && serializer.Some? && authenticator.None? ==>
      r == Err(NullPointerException("authenticator"))
    ensures httpClient.Some? && serializer.Some? && authenticator.Some? && serviceUri.None? ==>
      r == Err(NullPointerException("serviceUri"))
    ensures r.Ok? ==>
      r.value.httpClient == httpClient.value && r.value.serialize == serializer.value
      && r.value.authenticator == authenticator.value && r.value.serviceUri == serviceUri.value
  {
    if httpClient.None? then Err(NullPointerException("httpClient"))
    else if serializer.None? then Err(NullPointerException("serializer"))
    else if authenticator.None? then Err(NullPointerException("authenticator"))
    else if serviceUri.None? then Err(NullPointerException("serviceUri"))
    else Ok(JsonRpcClient(httpClient.value, serializer.value, authenticator.value, serviceUri.value))
  }
}

/**
 * com.exasol.bucketfs.jsonrpc.CreateBucketCommand: the "bucket_add" job, its parameters,
 * and the builder that collects them and hands one command to the executor.
 */
module CreateBucketCommand {

  import opened Wrappers
  import opened Bytes
  import opened BucketErrors
  import Base64
  import opened AbstractJsonResponseCommand
  import JsonResponseCommand

  const JOB_NAME := "bucket_add"

  /** base64Encode(value): Base64 of the UTF-8 bytes; null stays null. */
  function Base64Encode(value: Option<string>): (r: Option<string>)
    ensures r.None? <==> value.None?
    ensures r.Some? ==> Base64.Decode(r.value) == Some(Utf8Encode(value.value))
    ensures r.Some? ==> Utf8Decode(Base64.Decode(r.value).value) == Some(value.value)
  {
    match value
    case None => None
    case Some(v) =>
      Base64.RoundTrip(Utf8Encode(v));
      Utf8RoundTrip(v);
      Some(Base64.Encode(Utf8Encode(v)))
  }

  /** The unit test's passwords: "read" and "write". */
  lemma EncodesTestPasswords()
    ensures Base64Encode(Some("read")) == Some("cmVhZA==")
    ensures Base64Encode(Some("write")) == Some("d3JpdGU=")
  {
    Base64.EncodesRead();
    Base64.EncodesWrite();
  }

  /** Request: the parameters of "bucket_add", as JSON-B sends them. */
  datatype Request = Request(
    bucketFsName: string,
    bucketName: string,
    isPublic: bool,
    readPassword: Option<string>,
    writePassword: Option<string>,
    additionalFiles: Option<seq<string>>)

  /**
   * new Request(builder): both names are mandatory, bucketFsName checked first; the
   * passwords are Base64-encoded; everything else is copied.
   */
  function NewRequest(bucketFsName: Option<string>, bucketName: Option<string>, isPublic: bool,
                      readPassword: Option<string>, writePassword: Option<string>,
                      additionalFiles: Option<seq<string>>)
    : (r: Result<Request, Throwable>)
    ensures r.Ok? <==> bucketFsName.Some? && bucketName.Some?
    ensures bucketFsName.None? ==> r == Err(NullPointerException("bucketFsName"))
    ensures bucketFsName.Some? && bucketName.None? ==> r == Err(NullPointerException("bucketName"))
    ensures r.Ok? ==>
      r.value.bucketFsName == bucketFsName.value && r.value.bucketName == bucketName.value
      && r.value.isPublic == isPublic && r.value.additionalFiles == additionalFiles
      && r.value.readPassword == Base64Encode(readPassword)
      && r.value.writePassword == Base64Encode(writePassword)
  {
    if bucketFsName.None? then Err(NullPointerException("bucketFsName"))
    else if bucketName.None? then Err(NullPointerException("bucketName"))
    else Ok(Request(bucketFsName.value, bucketName.value, isPublic, Base64Encode(readPassword),
                    Base64Encode(writePassword), additionalFiles))
  }

  /** The command the executor gets: the job name and its parameters. */
  datatype CreateBucketCommand = CreateBucketCommand(request: Request)
  {
    function GetJobName(): string { JOB_NAME }

    function GetParameters(): Request { request }

    /** processResult: Void once the response is verified. */
    function ProcessResult(payload: JsonRpcResponse): (r: Result<(), JsonRpcException>)
      ensures r.Ok? <==> payload.GetCode() == 0 && EqualsIgnoreCaseOk(payload.GetName())
    {
      JsonResponseCommand.ProcessResult(payload, (_: Option<JsonStructure>) => ())
    }
  }

  /** JsonRpcCommandExecutor, reduced to the commands it was asked to run. */
  class JsonRpcCommandExecutor {
    var executed: seq<CreateBucketCommand>

    constructor ()
      ensures executed == []
    {
      executed := [];
    }

    method Execute(command: CreateBucketCommand)
      modifies this
      ensures executed == old(executed) + [command]
    {
      executed := executed + [command];
    }
  }

  class CreateBucketCommandBuilder {
    const executor: JsonRpcCommandExecutor
    var bucketFsName: Option<string>
    var bucketName: Option<string>
    var isPublic: bool
    var readPassword: Option<string>
    var writePassword: Option<string>
    var additionalFiles: Option<seq<string>>

    /** The defaults: no names, not public, no passwords, no additional files. */
    constructor (executor: JsonRpcCommandExecutor)
      ensures this.executor == executor
      ensures bucketFsName.None? && bucketName.None? && !isPublic
      ensures readPassword.None? && writePassword.None? && additionalFiles.None?
    {
      this.executor := executor;
      bucketFsName := None;
      bucketName := None;
      isPublic := false;
      readPassword := None;
      writePassword := None;
      additionalFiles := None;
    }

    /** The request the current settings make. */
    function CurrentRequest(): Result<Request, Throwable>
      reads this
    {
      NewRequest(bucketFsName, bucketName, isPublic, readPassword, writePassword, additionalFiles)
    }

    method BucketFsName(bucketFsName: string) returns (self: CreateBucketCommandBuilder)
      modifies this
      ensures self == this && this.bucketFsName == Some(bucketFsName)
      ensures bucketName == old(bucketName) && isPublic == old(isPublic) && readPassword == old(readPassword)
      ensures writePassword == old(writePassword) && additionalFiles == old(additionalFiles)
    {
      this.bucketFsName := Some(bucketFsName);
      self := this;
    }

    method BucketName(bucketName: string) returns (self: CreateBucketCommandBuilder)
      modifies this
      ensures self == this && this.bucketName == Some(bucketName)
      ensures bucketFsName == old(bucketFsName) && isPublic == old(isPublic) && readPassword == old(readPassword)
      ensures writePassword == old(writePassword) && additionalFiles == old(additionalFiles)
    {
      this.bucketName := Some(bucketName);
      self := this;
    }

    method IsPublic(isPublic: bool) returns (self: CreateBucketCommandBuilder)
      modifies this
      ensures self == this && this.isPublic == isPublic
      ensures bucketFsName == old(bucketFsName) && bucketName == old(bucketName) && readPassword == old(readPassword)
      ensures writePassword == old(writePassword) && additionalFiles == old(additionalFiles)
    {
      this.isPublic := isPublic;
      self := this;
    }

    method ReadPassword(readPassword: Option<string>) returns (self: CreateBucketCommandBuilder)
      modifies this
      ensures self == this && this.readPassword == readPassword
      ensures bucketFsName == old(bucketFsName) && bucketName == old(bucketName) && isPublic == old(isPublic)
      ensures writePassword == old(writePassword) && additionalFiles == old(additionalFiles)
    {
      this.readPassword := readPassword;
      self := this;
    }

    method WritePassword(writePassword: Option<string>) returns (self: CreateBucketCommandBuilder)
      modifies this
      ensures self == this && this.writePassword == writePassword
      ensures bucketFsName == old(bucketFsName) && bucketName == old(bucketName) && isPublic == old(isPublic)
      ensures readPassword == old(readPassword) && additionalFiles == old(additionalFiles)
    {
      this.writePassword := writePassword;
      self := this;
    }

    method AdditionalFiles(additionalFiles: Option<seq<string>>) returns (self: CreateBucketCommandBuilder)
      modifies this
      ensures self == this && this.additionalFiles == additionalFiles
      ensures bucketFsName == old(bucketFsName) && bucketName == old(bucketName) && isPublic == old(isPublic)
      ensures readPassword == old(readPassword) && writePassword == old(writePassword)
    {
      this.additionalFiles := additionalFiles;
      self := this;
    }

    /** execute(): one command built from the current settings, or the NullPointerException of a missing name. */
    method Execute() returns (r: Outcome<Throwable>)
      modifies executor
      ensures CurrentRequest().Err? ==> r == Fail(CurrentRequest().error) && executor.executed == old(executor.executed)
      ensures CurrentRequest().Ok? ==>
        r == Pass && executor.executed == old(executor.executed) + [CreateBucketCommand(CurrentRequest().value)]
    {
      var request := NewRequest(bucketFsName, bucketName, isPublic, readPassword, writePassword, additionalFiles);
      if request.Err? {
        return Fail(request.error);
      }
      executor.Execute(CreateBucketCommand(request.value));
      r := Pass;
    }
  }

  /** The unit test with defaults: bfs and bucket, not public, no passwords. */
  lemma DefaultValues()
    ensures NewRequest(Some("bfs"), Some("bucket"), false, None, None, None)
         == Ok(Request("bfs", "bucket", false, None, None, None))
  {
  }

  /** The unit test with custom values: public, with the passwords "read" and "write". */
  lemma CustomValues()
    ensures NewRequest(Some("bfs"), Some("bucket"), true, Some("read"), Some("write"), None)
         == Ok(Request("bfs", "bucket", true, Some("cmVhZA=="), Some("d3JpdGU="), None))
  {
    EncodesTestPasswords();
  }

  /** The unit tests with a name missing: bucketFsName is reported even when both are missing. */
  lemma MissingNames(bucketFsName: string)
    ensures NewRequest(None, None, false, None, None, None) == Err(NullPointerException("bucketFsName"))
    ensures NewRequest(Some(bucketFsName), None, false, None, None, None) == Err(NullPointerException("bucketName"))
  {
  }
}
