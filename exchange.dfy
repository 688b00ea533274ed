/**
 * One HTTP exchange as java.net.http.HttpClient.send presents it to the client: a
 * response with status and body, or the IOException or InterruptedException the call
 * throws. The transport itself is not modelled; the exchange is an input.
 */
module HttpExchange {

  import opened BucketErrors
  import opened BasicAuth

  datatype Exchange =
    | Response(statusCode: int, body: string)
    | IoError(detail: Message)
    | Interrupted

  /** The request the client builds: verb, URI text and headers in the order added. */
  datatype Request = Request(verb: string, uri: string, headers: seq<Header>)
}
