/**
 * The route table and the built-in `/api/hello` handler. Routes live in one
 * map keyed by the method and the path separated by a space; registering a
 * route overwrites whatever was stored under its key. The hello handler
 * writes a fixed-form JSON response and always closes the connection. The
 * clock's two readings and `JSON.stringify` are parameters.
 */
module Router {
  import opened Strings
  import opened Utf8
  import opened Decimal
  import opened Net
  import opened ResponseBuilder

  /** What a handler is told about the request. */
  datatype RequestContext = RequestContext(
    httpMethod: string,
    path: string,
    httpVersion: string,
    headers: map<string, string>)

  /** The key a route is stored under: `${method} ${path}`. */
  function RouteKey(httpMethod: string, path: string): string {
    httpMethod + " " + path
  }

  /** The module-level `routes` map, over handlers of type `H`. */
  class RouteTable<H> {
    var routes: map<string, H>

    /** `new Map()`. */
    constructor ()
      ensures routes == map[]
    {
      routes := map[];
    }

    /**
     * `addRoute(method, path, handler)`: the handler is stored under the
     * route's key, replacing any earlier one; every other entry stays.
     */
    method AddRoute(httpMethod: string, path: string, handler: H)
      modifies this
      ensures routes == old(routes)[RouteKey(httpMethod, path) := handler]
      ensures RouteKey(httpMethod, path) in routes && routes[RouteKey(httpMethod, path)] == handler
      ensures forall k :: k != RouteKey(httpMethod, path) ==>
        (k in routes <==> k in old(routes)) && (k in routes ==> routes[k] == old(routes)[k])
      ensures |routes| == if RouteKey(httpMethod, path) in old(routes) then |old(routes)| else |old(routes)| + 1
    {
      routes := routes[RouteKey(httpMethod, path) := handler];
    }
  }

  /** The first space of a key whose method has none is the one after the method. */
  lemma FirstSpaceEndsMethod(httpMethod: string, path: string)
    requires ' ' !in httpMethod
    ensures var k := RouteKey(httpMethod, path);
      k[|httpMethod|] == ' ' && forall i :: 0 <= i < |httpMethod| ==> k[i] != ' '
  {
    var k := RouteKey(httpMethod, path);
    forall i | 0 <= i < |httpMethod| ensures k[i] != ' ' {
      assert k[i] == httpMethod[i];
    }
  }

  /**
   * Two routes share a key exactly when they have the same method and path,
   * as long as neither method contains a space (no HTTP method does).
   */
  lemma RouteKeyInjective(m1: string, p1: string, m2: string, p2: string)
    requires ' ' !in m1 && ' ' !in m2
    ensures RouteKey(m1, p1) == RouteKey(m2, p2) <==> m1 == m2 && p1 == p2
  {
    var k1 := RouteKey(m1, p1);
    var k2 := RouteKey(m2, p2);
    FirstSpaceEndsMethod(m1, p1);
    FirstSpaceEndsMethod(m2, p2);
    if k1 == k2 {
      assert |m1| == |m2|;
      assert m1 == k1[..|m1|] && m2 == k2[..|m2|];
      assert p1 == k1[|m1| + 1..] && p2 == k2[|m2| + 1..];
    }
  }

  /** The name greeted: the path after its first five characters, or `world` when nothing follows them. */
  function GreetingName(path: string): string {
    var suffix := SubstringFrom(path, 5);
    if suffix == "" then "world" else suffix
  }

  /** The `message` field of the hello response. */
  function Greeting(path: string): string {
    "Hello, " + GreetingName(path) + " from your API!"
  }

  /** The hand-written header lines of the hello response, for a body and the clock's `toUTCString()`. */
  function ApiHelloHeaderLines(responseBody: string, date: string): seq<string> {
    [ "HTTP/1.1 200 OK",
      "Content-Type: application/json; charset=utf-8",
      "Content-Length: " + NatToString(Utf8Length(responseBody)),
      "Connection: close",
      "Server: RohitHTTPServer/0.69",
      "Date: " + date
    ]
  }

  /** The one text the hello handler writes: the header lines joined with CRLF, the blank line, the body. */
  function ApiHelloText(responseBody: string, date: string): string {
    Join(ApiHelloHeaderLines(responseBody, date), CRLF) + "\r\n\r\n" + responseBody
  }

  /**
   * `handleApiHello(socket, context)`: `stringify` stands for `JSON.stringify`
   * applied to the message and the timestamp, `timestamp` for the clock's
   * `toISOString()` and `date` for its `toUTCString()`. One write, then `end()`.
   */
  method HandleApiHello(socket: Socket, context: RequestContext, stringify: (string, string) -> string,
                        timestamp: string, date: string)
    modifies socket
    ensures var responseBody := stringify(Greeting(context.path), timestamp);
      socket.output ==
        if old(socket.ended) then old(socket.output)
        else old(socket.output) + Encode(ApiHelloText(responseBody, date))
    ensures socket.ended
  {
    var suffix := SubstringFrom(context.path, 5);
    var name := if suffix == "" then "world" else suffix;
    var message := "Hello, " + name + " from your API!";
    var responseBody := stringify(message, timestamp);
    var contentLength := Utf8Length(responseBody);
    var headers := Join([ "HTTP/1.1 200 OK",
                          "Content-Type: application/json; charset=utf-8",
                          "Content-Length: " + NatToString(contentLength),
                          "Connection: close",
                          "Server: RohitHTTPServer/0.69",
                          "Date: " + date
                        ], CRLF);
    socket.Write(Encode(headers + "\r\n\r\n" + responseBody));
    socket.End();
  }

  // ---------------------------------------------------------------------
  // What the hello handler promises
  // ---------------------------------------------------------------------

  /**
   * The greeting names the path's text after its first five characters when
   * there is any, and `world` otherwise.
   */
  lemma GreetingNameIff(path: string)
    ensures |path| > 5 ==> GreetingName(path) == path[5..] && path == path[..5] + GreetingName(path)
    ensures |path| <= 5 ==> GreetingName(path) == "world"
    ensures GreetingName(path) == "world" <==> |path| <= 5 || path[5..] == "world"
  {
  }

  /** The request `/api/hello` greets `hello`. */
  lemma HelloPathGreetsHello(path: string)
    requires path == "/api/hello"
    ensures GreetingName(path) == "hello"
  {
    assert path[5..] == "hello";
  }

  /**
   * The hello response is what `buildResponse` writes for the same body under
   * the type `application/json; charset=utf-8` with no options: status
   * `200 OK`, the closing Connection header, no extra header.
   */
  lemma ApiHelloIsDefaultResponse(responseBody: string, date: string)
    requires responseBody != ""
    ensures ApiHelloHeaderLines(responseBody, date)
         == HeaderLines(Text(responseBody), "application/json; charset=utf-8", NoOptions, date)
    ensures Encode(ApiHelloText(responseBody, date))
         == ResponseBytes(Text(responseBody), "application/json; charset=utf-8", NoOptions, date)
  {
    DefaultOptions(Text(responseBody), "application/json; charset=utf-8", date);
    JsonTypeCarriesCharset(responseBody, date);
    var lines := ApiHelloHeaderLines(responseBody, date);
    assert ExtraLines([]) == [];
    EncodeAppend(Join(lines, CRLF) + "\r\n\r\n", responseBody);
  }

  /** The hand-written Content-Type: the `text/` rule leaves it as it is. */
  lemma JsonTypeCarriesCharset(responseBody: string, date: string)
    ensures HeaderLines(Text(responseBody), "application/json; charset=utf-8", NoOptions, date)[1]
         == "Content-Type: application/json; charset=utf-8"
  {
    assert "application/json; charset=utf-8"[0] != "text/"[0];
  }

  /**
   * The hello response is its header block followed by exactly the encoded
   * body, its Content-Length line reads back as the number of those body
   * bytes, and it always says `Connection: close`.
   */
  lemma ApiHelloFraming(responseBody: string, date: string)
    ensures var lines := ApiHelloHeaderLines(responseBody, date);
      var prefix := "Content-Length: ";
      && Encode(ApiHelloText(responseBody, date)) == Encode(Join(lines, CRLF) + "\r\n\r\n") + Encode(responseBody)
      && prefix <= lines[2]
      && AllDigits(lines[2][|prefix|..])
      && ParseNat(lines[2][|prefix|..]) == |Encode(responseBody)|
      && lines[3] == "Connection: close"
  {
    var lines := ApiHelloHeaderLines(responseBody, date);
    EncodeAppend(Join(lines, CRLF) + "\r\n\r\n", responseBody);
    var n := Utf8Length(responseBody);
    assert lines[2][|"Content-Length: "|..] == NatToString(n);
    ParseNatToString(n);
    EncodeLength(responseBody);
  }
}
