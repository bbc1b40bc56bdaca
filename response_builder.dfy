/**
 * The response serializer: the fixed-order header block of an HTTP/1.1
 * response (status line, Content-Type, Content-Length, Connection, Server,
 * Date, then the caller's headers), the body after the blank line, and the
 * connection closed unless the caller keeps it alive (sections 4 and 6 of
 * RFC 9112). The wrappers for HTML, JSON and error pages are compositions of
 * `BuildResponse`. The clock's `Date` text is a parameter.
 */
module ResponseBuilder {
  import opened Wrappers
  import opened Strings
  import opened Utf8
  import opened Decimal
  import opened Net

  /** A response body: text (sent UTF-8 encoded) or a byte buffer. */
  datatype Body = Text(text: string) | Buffer(data: seq<Byte>)

  /** The optional settings of a response; `None` is an omitted field. */
  datatype ResponseOptions = ResponseOptions(
    statusCode: Option<nat>,
    statusText: Option<string>,
    headers: seq<(string, string)>,
    shouldKeepAlive: Option<bool>)

  /** `{}`: every option omitted. */
  const NoOptions: ResponseOptions := ResponseOptions(None, None, [], None)

  /** The options a caller builds from a keep-alive flag alone, `{ shouldKeepAlive }`. */
  function KeepAliveOnly(keepAlive: bool): ResponseOptions {
    ResponseOptions(None, None, [], Some(keepAlive))
  }

  const ServerLine: string := "Server: RohitHTTPServer/0.69"
  const BlankLine: string := "\r\n\r\n"

  function StatusCode(o: ResponseOptions): nat { o.statusCode.GetOr(200) }
  function StatusText(o: ResponseOptions): string { o.statusText.GetOr("OK") }
  function KeepAlive(o: ResponseOptions): bool { o.shouldKeepAlive.GetOr(false) }

  /** The bytes the body puts on the wire. */
  function BodyBytes(body: Body): seq<Byte> {
    match body
    case Text(t) => Encode(t)
    case Buffer(d) => d
  }

  /** The value of the Content-Length header: a buffer's length, or a text's UTF-8 byte length. */
  function ContentLength(body: Body): nat {
    match body
    case Buffer(d) => |d|
    case Text(t) => Utf8Length(t)
  }

  /** Whether `if (body)` holds: a buffer object always, a text unless it is empty. */
  predicate Truthy(body: Body) {
    body.Buffer? || body.text != ""
  }

  /** `Content-Type` value: `; charset=utf-8` is added to `text/` types only. */
  function ContentTypeValue(contentType: string): string {
    contentType + (if "text/" <= contentType then "; charset=utf-8" else "")
  }

  /** The caller's headers as `key: value` lines, in their given order. */
  function ExtraLines(headers: seq<(string, string)>): (lines: seq<string>)
    ensures |lines| == |headers|
    ensures forall i :: 0 <= i < |headers| ==> lines[i] == headers[i].0 + ": " + headers[i].1
  {
    if headers == [] then []
    else [headers[0].0 + ": " + headers[0].1] + ExtraLines(headers[1..])
  }

  /** The lines of the header block, before they are joined. */
  function HeaderLines(body: Body, contentType: string, o: ResponseOptions, date: string): seq<string> {
    [ "HTTP/1.1 " + NatToString(StatusCode(o)) + " " + StatusText(o),
      "Content-Type: " + ContentTypeValue(contentType),
      "Content-Length: " + NatToString(ContentLength(body)),
      "Connection: " + (if KeepAlive(o) then "keep-alive" else "close"),
      ServerLine,
      "Date: " + date
    ] + ExtraLines(o.headers)
  }

  /** The header block joined with CRLF and closed by the blank line. */
  function HeaderBlock(body: Body, contentType: string, o: ResponseOptions, date: string): string {
    Join(HeaderLines(body, contentType, o, date), CRLF) + BlankLine
  }

  /** Everything `buildResponse` writes: the encoded header block, then the body if it is truthy. */
  function ResponseBytes(body: Body, contentType: string, o: ResponseOptions, date: string): seq<Byte> {
    Encode(HeaderBlock(body, contentType, o, date)) + (if Truthy(body) then BodyBytes(body) else [])
  }

  /**
   * `buildResponse(socket, body, contentType, options)` at the instant whose
   * `toUTCString()` is `date`: one write of the header block, one of the body
   * when it is truthy, and `end()` unless keep-alive was asked for.
   */
  method BuildResponse(socket: Socket, body: Body, contentType: string, options: ResponseOptions, date: string)
    modifies socket
    ensures socket.output ==
      if old(socket.ended) then old(socket.output)
      else old(socket.output) + ResponseBytes(body, contentType, options, date)
    ensures socket.ended <==> old(socket.ended) || !KeepAlive(options)
  {
    var shouldKeepAlive := options.shouldKeepAlive.GetOr(false);
    var fullResponse := HeaderBlock(body, contentType, options, date);
    socket.Write(Encode(fullResponse));
    if Truthy(body) {
      socket.Write(BodyBytes(body));
    }
    if !shouldKeepAlive {
      socket.End();
    }
  }

  /** `buildHtmlResponse`: a text body sent as `text/html`. */
  method BuildHtmlResponse(socket: Socket, html: string, options: ResponseOptions, date: string)
    modifies socket
    ensures socket.output ==
      if old(socket.ended) then old(socket.output)
      else old(socket.output) + ResponseBytes(Text(html), "text/html", options, date)
    ensures socket.ended <==> old(socket.ended) || !KeepAlive(options)
  {
    BuildResponse(socket, Text(html), "text/html", options, date);
  }

  /** `buildJsonResponse`, given the text `JSON.stringify` produced for the data. */
  method BuildJsonResponse(socket: Socket, jsonBody: string, options: ResponseOptions, date: string)
    modifies socket
    ensures socket.output ==
      if old(socket.ended) then old(socket.output)
      else old(socket.output) + ResponseBytes(Text(jsonBody), "application/json", options, date)
    ensures socket.ended <==> old(socket.ended) || !KeepAlive(options)
  {
    BuildResponse(socket, Text(jsonBody), "application/json", options, date);
  }

  /** The error page: a heading with code and reason, and a paragraph only for a non-empty message. */
  function ErrorHtml(statusCode: nat, statusText: string, message: Option<string>): string {
    "<h1>" + NatToString(statusCode) + " " + statusText + "</h1>"
    + (if message.Some? && message.value != "" then "<p>" + message.value + "</p>" else "")
  }

  /** `{ ...options, statusCode, statusText }`. */
  function ErrorOptions(options: ResponseOptions, statusCode: nat, statusText: string): ResponseOptions {
    options.(statusCode := Some(statusCode), statusText := Some(statusText))
  }

  /** `buildErrorResponse`: the error page as `text/html` under the given status. */
  method BuildErrorResponse(socket: Socket, statusCode: nat, statusText: string, message: Option<string>,
                            options: ResponseOptions, date: string)
    modifies socket
    ensures socket.output ==
      if old(socket.ended) then old(socket.output)
      else old(socket.output) + ResponseBytes(Text(ErrorHtml(statusCode, statusText, message)), "text/html",
                                              ErrorOptions(options, statusCode, statusText), date)
    ensures socket.ended <==> old(socket.ended) || !KeepAlive(options)
  {
    var errorHtml := ErrorHtml(statusCode, statusText, message);
    BuildResponse(socket, Text(errorHtml), "text/html", ErrorOptions(options, statusCode, statusText), date);
  }

  const NotFoundMessage: string := "The requested URL was not found on this server."
  const ForbiddenMessage: string := "Access to the requested resource is forbidden."
  const ServerErrorMessage: string := "Something went wrong on the server."

  /** What one of the canned error helpers writes. */
  function ErrorResponseBytes(statusCode: nat, statusText: string, message: string,
                              options: ResponseOptions, date: string): seq<Byte> {
    ResponseBytes(Text(ErrorHtml(statusCode, statusText, Some(message))), "text/html",
                  ErrorOptions(options, statusCode, statusText), date)
  }

  method Build404Response(socket: Socket, options: ResponseOptions, date: string)
    modifies socket
    ensures socket.output ==
      if old(socket.ended) then old(socket.output)
      else old(socket.output) + ErrorResponseBytes(404, "Not Found", NotFoundMessage, options, date)
    ensures socket.ended <==> old(socket.ended) || !KeepAlive(options)
  {
    BuildErrorResponse(socket, 404, "Not Found", Some(NotFoundMessage), options, date);
  }

  method Build403Response(socket: Socket, options: ResponseOptions, date: string)
    modifies socket
    ensures socket.output ==
      if old(socket.ended) then old(socket.output)
      else old(socket.output) + ErrorResponseBytes(403, "Forbidden", ForbiddenMessage, options, date)
    ensures socket.ended <==> old(socket.ended) || !KeepAlive(options)
  {
    BuildErrorResponse(socket, 403, "Forbidden", Some(ForbiddenMessage), options, date);
  }

  method Build500Response(socket: Socket, options: ResponseOptions, date: string)
    modifies socket
    ensures socket.output ==
      if old(socket.ended) then old(socket.output)
      else old(socket.output) + ErrorResponseBytes(500, "Internal Server Error", ServerErrorMessage, options, date)
    ensures socket.ended <==> old(socket.ended) || !KeepAlive(options)
  {
    BuildErrorResponse(socket, 500, "Internal Server Error", Some(ServerErrorMessage), options, date);
  }

  // ---------------------------------------------------------------------
  // What the serializer promises
  // ---------------------------------------------------------------------

  /** Content-Length counts exactly the bytes the body puts on the wire. */
  lemma ContentLengthIsBodyLength(body: Body)
    ensures ContentLength(body) == |BodyBytes(body)|
  {
    if body.Text? {
      EncodeLength(body.text);
    }
  }

  /**
   * Whatever the body, the response is its header block followed by exactly
   * the body's bytes: an untruthy body is the empty text, which has none.
   */
  lemma BodyFollowsHeaderBlock(body: Body, contentType: string, o: ResponseOptions, date: string)
    ensures ResponseBytes(body, contentType, o, date) == Encode(HeaderBlock(body, contentType, o, date)) + BodyBytes(body)
    ensures Truthy(body) || BodyBytes(body) == []
  {
  }

  /**
   * The Content-Length line reads back, as a decimal number, as the number
   * of body bytes that follow the header block.
   */
  lemma ContentLengthReadsBack(body: Body, contentType: string, o: ResponseOptions, date: string)
    ensures var line := HeaderLines(body, contentType, o, date)[2];
      var prefix := "Content-Length: ";
      && prefix <= line
      && AllDigits(line[|prefix|..])
      && ParseNat(line[|prefix|..]) == |BodyBytes(body)|
  {
    var n := ContentLength(body);
    var line := "Content-Length: " + NatToString(n);
    assert line[|"Content-Length: "|..] == NatToString(n);
    ParseNatToString(n);
    ContentLengthIsBodyLength(body);
  }

  /**
   * The header lines come in the fixed order status line, Content-Type,
   * Content-Length, Connection, Server, Date, and then the caller's headers in
   * their given order, none dropped or merged.
   */
  lemma HeaderOrder(body: Body, contentType: string, o: ResponseOptions, date: string)
    ensures var lines := HeaderLines(body, contentType, o, date);
      && |lines| == 6 + |o.headers|
      && "HTTP/1.1 " <= lines[0]
      && "Content-Type: " <= lines[1]
      && "Content-Length: " <= lines[2]
      && "Connection: " <= lines[3]
      && lines[4] == ServerLine
      && lines[5] == "Date: " + date
      && forall i :: 0 <= i < |o.headers| ==> lines[6 + i] == o.headers[i].0 + ": " + o.headers[i].1
  {
  }

  /** The charset parameter is added if and only if the type starts with `text/`. */
  lemma CharsetIffText(body: Body, contentType: string, o: ResponseOptions, date: string)
    ensures var line := HeaderLines(body, contentType, o, date)[1];
      && (line == "Content-Type: " + contentType + "; charset=utf-8" <==> "text/" <= contentType)
      && (!("text/" <= contentType) ==> line == "Content-Type: " + contentType)
  {
    var line := HeaderLines(body, contentType, o, date)[1];
    if line == "Content-Type: " + contentType + "; charset=utf-8" {
      assert |ContentTypeValue(contentType)| == |contentType| + 15;
    }
  }

  /** The Connection header says `keep-alive` if and only if keep-alive was asked for, and `close` otherwise. */
  lemma ConnectionHeaderIff(body: Body, contentType: string, o: ResponseOptions, date: string)
    ensures var line := HeaderLines(body, contentType, o, date)[3];
      && (line == "Connection: keep-alive" <==> KeepAlive(o))
      && (line == "Connection: close" <==> !KeepAlive(o))
  {
    if !KeepAlive(o) {
      assert ("Connection: " + "close")[12] != "Connection: keep-alive"[12];
    }
  }

  /** With no options the status is `200 OK`, the connection closes and no extra header follows Date. */
  lemma DefaultOptions(body: Body, contentType: string, date: string)
    ensures var lines := HeaderLines(body, contentType, NoOptions, date);
      && lines[0] == "HTTP/1.1 200 OK"
      && lines[3] == "Connection: close"
      && |lines| == 6
  {
    StatusDigits();
  }

  /**
   * The error page always starts with the heading, and carries a paragraph
   * after it exactly when a non-empty message was given.
   */
  lemma ErrorHtmlShape(statusCode: nat, statusText: string, message: Option<string>)
    ensures var heading := "<h1>" + NatToString(statusCode) + " " + statusText + "</h1>";
      var page := ErrorHtml(statusCode, statusText, message);
      && heading <= page
      && (|page| > |heading| <==> message.Some? && message.value != "")
      && (message.Some? && message.value != "" ==> page[|heading|..] == "<p>" + message.value + "</p>")
  {
    var heading := "<h1>" + NatToString(statusCode) + " " + statusText + "</h1>";
    var page := ErrorHtml(statusCode, statusText, message);
    if message.Some? && message.value != "" {
      assert page == heading + ("<p>" + message.value + "</p>");
    } else {
      assert page == heading + "";
    }
  }

  /**
   * An error response carries the status it was given, whatever the options
   * said, and keeps the options' headers and keep-alive flag.
   */
  lemma ErrorStatusOverrides(options: ResponseOptions, statusCode: nat, statusText: string, body: Body, date: string)
    ensures var o := ErrorOptions(options, statusCode, statusText);
      && HeaderLines(body, "text/html", o, date)[0] == "HTTP/1.1 " + NatToString(statusCode) + " " + statusText
      && KeepAlive(o) == KeepAlive(options)
      && o.headers == options.headers
  {
  }

  /** The canned 404 response: its status line and the caller's keep-alive flag. */
  lemma NotFoundResponse(options: ResponseOptions, body: Body, date: string)
    ensures var o := ErrorOptions(options, 404, "Not Found");
      && HeaderLines(body, "text/html", o, date)[0] == "HTTP/1.1 " + "404" + " " + "Not Found"
      && KeepAlive(o) == KeepAlive(options)
  {
    StatusDigits();
  }

  /** The canned 403 response: its status line and the caller's keep-alive flag. */
  lemma ForbiddenResponse(options: ResponseOptions, body: Body, date: string)
    ensures var o := ErrorOptions(options, 403, "Forbidden");
      && HeaderLines(body, "text/html", o, date)[0] == "HTTP/1.1 " + "403" + " " + "Forbidden"
      && KeepAlive(o) == KeepAlive(options)
  {
    StatusDigits();
  }

  /** The canned 500 response: its status line and the caller's keep-alive flag. */
  lemma ServerErrorResponse(options: ResponseOptions, body: Body, date: string)
    ensures var o := ErrorOptions(options, 500, "Internal Server Error");
      && HeaderLines(body, "text/html", o, date)[0] == "HTTP/1.1 " + "500" + " " + "Internal Server Error"
      && KeepAlive(o) == KeepAlive(options)
  {
    StatusDigits();
  }

  /** The status codes the server sends, rendered in decimal. */
  lemma StatusDigits()
    ensures NatToString(200) == "200" && NatToString(403) == "403"
    ensures NatToString(404) == "404" && NatToString(500) == "500"
  {
    assert NatToString(20) == "20" && NatToString(40) == "40" && NatToString(50) == "50";
  }

  /** A JSON response is labelled with the bare `application/json` type, without a charset. */
  lemma JsonHasNoCharset(jsonBody: string, o: ResponseOptions, date: string)
    ensures HeaderLines(Text(jsonBody), "application/json", o, date)[1] == "Content-Type: application/json"
  {
    assert "application/json"[0] != "text/"[0];
  }
}
