/**
 * The parts of Go's net/http request that the controller touches: a method,
 * a URL, a body and a header list that setCommonOptions extends in place.
 */
module Http {

  const StatusOK := 200

  /** A header value; BasicCredentials stands for "Basic " + base64(user:password). */
  datatype HeaderValue = Text(text: string) | BasicCredentials(user: string, password: string)

  datatype HeaderField = HeaderField(name: string, value: HeaderValue)

  /** What goes on the wire: the request as the transport sees it. */
  datatype RequestData = RequestData(Method: string, URL: string, Body: string, Header: seq<HeaderField>)

  class Request {
    const Method: string
    const URL: string
    const Body: string
    var Header: seq<HeaderField>

    /** http.NewRequest: a request with no headers yet. */
    constructor (verb: string, url: string, body: string)
      ensures Method == verb && URL == url && Body == body && Header == []
    {
      Method, URL, Body := verb, url, body;
      Header := [];
    }

    function Sent(): RequestData
      reads this
    {
      RequestData(Method, URL, Body, Header)
    }
  }
}
