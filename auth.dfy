/**
 * HTTP Basic authentication as the client builds it everywhere (RFC 7617, section 2):
 * "Basic " followed by the Base64 of the UTF-8 bytes of user-id ":" password.
 */
module BasicAuth {

  import opened Wrappers
  import opened Bytes
  import Base64

  const AUTHORIZATION := "Authorization"
  const BASIC_PREFIX := "Basic "

  /** The credentials a receiver reads back out of a token. */
  function Credentials(token: string): Option<string> {
    match Base64.Decode(token)
    case None => None
    case Some(bytes) => Utf8Decode(bytes)
  }

  /** "Basic " + Base64(getBytes(username + ":" + password)). */
  function HeaderValue(username: string, password: string): (h: string)
    ensures |h| >= |BASIC_PREFIX| && h[..|BASIC_PREFIX|] == BASIC_PREFIX
    ensures Credentials(h[|BASIC_PREFIX|..]) == Some(username + ":" + password)
  {
    var bytes := Utf8Encode(username + ":" + password);
    Base64.RoundTrip(bytes);
    Utf8RoundTrip(username + ":" + password);
    var h := BASIC_PREFIX + Base64.Encode(bytes);
    assert h[|BASIC_PREFIX|..] == Base64.Encode(bytes);
    h
  }

  /** Different credentials give different header values. */
  lemma HeaderValueInjective(u1: string, p1: string, u2: string, p2: string)
    requires HeaderValue(u1, p1) == HeaderValue(u2, p2)
    ensures u1 + ":" + p1 == u2 + ":" + p2
  {
    var h := HeaderValue(u1, p1);
    assert Credentials(h[|BASIC_PREFIX|..]) == Some(u1 + ":" + p1);
  }

  /** The header value is the prefix followed by the Base64 token of the credentials. */
  lemma HeaderValueOf(username: string, password: string, token: string)
    requires Base64.Encode(Utf8Encode(username + ":" + password)) == token
    ensures HeaderValue(username, password) == BASIC_PREFIX + token
  {
  }

  /** The value the unit test expects for user "user" with password "password". */
  lemma UserPasswordHeader(username: string, password: string)
    requires username + ":" + password == "user:password"
    ensures HeaderValue(username, password) == BASIC_PREFIX + "dXNlcjpwYXNzd29yZA=="
  {
    Base64.EncodesUserPassword();
    HeaderValueOf(username, password, "dXNlcjpwYXNzd29yZA==");
  }

  /** One request header: a name and its value. */
  datatype Header = Header(name: string, value: string)

  /** java.net.http.HttpRequest.Builder, reduced to the headers it collects. */
  class RequestBuilder {
    var headers: seq<Header>

    constructor ()
      ensures headers == []
    {
      headers := [];
    }

    /** header(name, value): appends one header. */
    method AddHeader(name: string, value: string)
      modifies this
      ensures headers == old(headers) + [Header(name, value)]
    {
      headers := headers + [Header(name, value)];
    }
  }
}

/** com.exasol.bucketfs.jsonrpc.BasicAuthAuthenticator */
module BasicAuthAuthenticator {

  import opened Wrappers
  import opened BasicAuth

  /** The credentials are fixed when the authenticator is made. */
  datatype Authenticator = Authenticator(username: string, password: string) {

    /** basicAuth(username, password) */
    function BasicAuthValue(): (h: string)
      ensures |h| >= |BASIC_PREFIX| && h[..|BASIC_PREFIX|] == BASIC_PREFIX
      ensures Credentials(h[|BASIC_PREFIX|..]) == Some(username + ":" + password)
    {
      HeaderValue(username, password)
    }

    /** authenticate(requestBuilder): adds exactly one Authorization header. */
    method Authenticate(requestBuilder: RequestBuilder)
      modifies requestBuilder
      ensures requestBuilder.headers == old(requestBuilder.headers) + [Header(AUTHORIZATION, BasicAuthValue())]
    {
      requestBuilder.AddHeader(AUTHORIZATION, BasicAuthValue());
    }
  }
}

/** com.exasol.bucketfs.jsonrpc.auth.BasicAuthAuthenticator, the copy in the auth package. */
module AuthBasicAuthAuthenticator {

  import opened Wrappers
  import opened BasicAuth
  import Other = BasicAuthAuthenticator

  datatype Authenticator = Authenticator(username: string, password: string) {

    function BasicAuthValue(): (h: string)
      ensures |h| >= |BASIC_PREFIX| && h[..|BASIC_PREFIX|] == BASIC_PREFIX
      ensures Credentials(h[|BASIC_PREFIX|..]) == Some(username + ":" + password)
    {
      HeaderValue(username, password)
    }

    method Authenticate(requestBuilder: RequestBuilder)
      modifies requestBuilder
      ensures requestBuilder.headers == old(requestBuilder.headers) + [Header(AUTHORIZATION, BasicAuthValue())]
    {
      requestBuilder.AddHeader(AUTHORIZATION, BasicAuthValue());
    }
  }

  /** Both copies send the same header for the same credentials. */
  lemma SameAsJsonRpcCopy(username: string, password: string)
    ensures Authenticator(username, password).BasicAuthValue()
         == Other.Authenticator(username, password).BasicAuthValue()
  {
  }
}
