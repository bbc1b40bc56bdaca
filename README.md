# A verified model of a minimal HTTP/1.1 server's core

This project models in Dafny the request-handling core of a small HTTP/1.1
server written in TypeScript for Node. It has four parts:

- **Request framer** (`RequestParser`): finds the blank line that ends the
  header block and splits the request line on single spaces. It builds the
  lower-cased header record line by line, and reports how many bytes of the
  buffer it consumed. This is HTTP/1.1 message framing, sections 2.1 and 3 of
  RFC 9112, with field lines as in section 5 of RFC 9110.
- **Response serializer** (`ResponseBuilder`): writes the fixed-order header
  block, then the body, and ends the connection unless keep-alive was asked
  for. Also models the HTML, JSON and error-page wrappers, including the
  canned 404, 403 and 500 responses.
- **Static-file resolver** (`StaticFileHandler`, with `PosixPath`): maps a
  request path to a file under a root directory. It substitutes the default
  file for `/`, normalizes the path, strips leading `..` segments, joins it
  onto the root and checks the root prefix. It then asks the filesystem and
  answers 200, 403, 404 or 500. `StaticHandler` models the closure that
  `createStaticFileHandler` returns.
- **Router** (`Router`): the route table keyed by `"method path"`, and the
  `/api/hello` handler that writes a JSON greeting.

Supporting modules:

- `Strings`: search, split, join, JavaScript `trim` and ASCII `toLowerCase`.
- `Utf8`: UTF-8 encoding and `Buffer.byteLength`.
- `Decimal`: decimal rendering of numbers and reading them back.
- `Net`: the socket, an output byte sequence plus an `ended` flag.
- `Wrappers`: `Option` and `Result`.

How the outside world appears in the model:

- **Socket.** A `Net.Socket` object whose `Write` appends bytes and whose
  `End` sets `ended`. A write after `End` is dropped.
- **Text on the wire.** Text written to a socket is UTF-8 encoded by
  `Utf8.Encode`.
- **Clock.** Its readings (`toUTCString()`, `toISOString()`) are string
  parameters.
- **Filesystem.** A map from path to what `fs.stat` and `fs.readFile`
  report there.
- **MIME table.** The extension-to-type table is a parameter.
- **`JSON.stringify`.** A function parameter in the hello handler. The JSON
  wrapper takes the already-serialized text.
- **Node's `path` module.** `PosixPath` models the POSIX behaviour of
  `path.normalize`, `path.join` and `path.extname`, and this model is an
  assumption. Segments are separated by `/`. Empty and `.` segments vanish,
  and `..` cancels the segment before it. An absolute path cannot climb
  above the root, while a relative path keeps the `..` it cannot cancel.
  `normalize` keeps one trailing `/`. `join` joins the non-empty arguments
  with `/` and normalizes the result. `extname` takes the last segment from
  its last `.` on, unless that `.` is the segment's first character or the
  segment is `..`.

Behaviour of the code worth knowing, each stated as a lemma:

- **`/api/hello` greeting.** The handler greets `path.substring(5)`, which
  for `/api/hello` is `hello`. It falls back to `world` only when nothing
  follows the fifth character (`Router.HelloPathGreetsHello`,
  `Router.GreetingNameIff`).
- **JSON content type.** `buildJsonResponse` sends the bare
  `application/json`, because only `text/` types get a charset
  (`ResponseBuilder.JsonHasNoCharset`). Only the hand-written `/api/hello`
  response carries `application/json; charset=utf-8`.
- **`..` at the start of an absolute request path.** `/../x` is re-rooted
  to `/x`, not refused: normalization cannot climb above `/`, so the request
  is answered exactly as `/x` would be (`StaticFileHandler.TraversalReRooted`).
  Under an absolute root, a served file's path starts with the root and `/`
  and holds no `..` segment (`StaticFileHandler.ServedStaysUnderRoot`).
- **The root prefix check.** The joined path must start with the root
  followed by `/`. A request whose joined path is exactly the root text,
  such as `.` under a root in normal form, is refused with 403
  (`StaticFileHandler.RootItselfForbidden`). A request that joins to the
  root followed by `/`, such as `/.` or `/x/..`, passes the check; `stat`
  then finds a directory and the answer is 404
  (`StaticFileHandler.RootDirectoryNotFound`). Under a root written with a
  trailing `/` every request is refused: the joined path is normalized and
  never holds `//` (`StaticFileHandler.TrailingSlashRootForbidsAll`).

## Model

| member | source | states |
|---|---|---|
| RequestParser.RequestParser | src/requestParser.ts:19-87 | The parser method's result is the framing function `Parse` of the decoded text, which the lemmas below characterize. |
| RequestParser.ParseHeaders | src/requestParser.ts:55-66 | The header loop, which updates the record in place line by line, ends with the record of all header lines applied first to last. |
| RequestParser.IncompleteUntilTerminator | src/requestParser.ts:23-48 | A buffer without the blank line yields no request and 0 consumed, and every failed parse consumes nothing. |
| RequestParser.ParseSucceedsIff | src/requestParser.ts:23-48 | Framing succeeds exactly when the blank line has arrived and the buffer's first line holds at least two spaces. A terminated but malformed request line still yields no request and 0 consumed. |
| RequestParser.FirstLineOfHeaderBlock | src/requestParser.ts:33-37 | The first `\r\n`-separated line of the header block is the first line of the whole buffer. |
| RequestParser.RequestLineTokens | src/requestParser.ts:41-52 | When the request line splits into three or more parts, the first three contain no space and, joined by single spaces, form a prefix of the line that is followed by its end or a space. |
| RequestParser.FramedAtFirstBlankLine | src/requestParser.ts:33-34 | A framed buffer is the header block, then the blank line, then the body. No blank line starts inside the header block, and the consumed count is the header block's characters plus 4 plus the body's bytes. |
| RequestParser.RequestLineOfFramed | src/requestParser.ts:36-52 | `raw.requestLine` is the buffer's first line. The method, path and version are its first three space-separated tokens, and further tokens are ignored. |
| RequestParser.HeaderLinesOfFramed | src/requestParser.ts:36-77 | The request line and `raw.headerLines` are the CRLF-free pieces that, joined with CRLF, give `raw.fullHeaders`: the header lines are exactly the block's remaining lines. The header record is built from them. |
| RequestParser.ConsumedArithmetic | src/requestParser.ts:81 | Counting the header block in characters never exceeds its UTF-8 length, and equals it exactly when the block is ASCII. |
| RequestParser.ConsumedWithinBuffer | src/requestParser.ts:81 | The consumed count never exceeds the buffer's byte length, and equals it exactly when the header block is ASCII. |
| RequestParser.HeaderEntryNoneIff | src/requestParser.ts:58-61 | A header line contributes nothing exactly when it is all white space or has no colon. |
| RequestParser.HeaderEntryAt | src/requestParser.ts:60-65 | A line whose first colon is at `c` sets the trimmed, lower-cased text before it to the trimmed text after it, so later colons stay in the value. |
| RequestParser.FieldLineEntry | src/requestParser.ts:60-65 | A field line of the form `name:`, optional white space, `value` sets the lower-cased name to the value. |
| RequestParser.HostValueKeepsPort | src/requestParser.ts:63-65 | `Host: h:p` sets `host` to `h:p`, keeping the colon before the port. |
| RequestParser.RecordKeys | src/requestParser.ts:57-66 | A key is in the record built from a list of entries exactly when some entry sets it. |
| RequestParser.RecordLastWins | src/requestParser.ts:57-66 | A key's value in the record is that of the last entry setting it. |
| RequestParser.HeadersOfKeys | src/requestParser.ts:57-66 | A header is present exactly when some header line sets it. |
| RequestParser.HeadersOfLastWins | src/requestParser.ts:57-66 | For duplicate header names, compared after lower-casing, the last line wins. |
| RequestParser.RequestLineOnly | src/requestParser.ts:41-52 | A buffer holding just a three-token request line and the blank line is framed, with the line's characters plus 4 consumed. |
| RequestParser.NonAsciiRequestLineUndercounts | src/requestParser.ts:81 | The finding below: `GET /é HTTP/1.1` plus the blank line is 20 bytes, but 19 are reported consumed. |
| RequestParser.CorrectedConsumesWholeBuffer | src/requestParser.ts:81 | With the header block counted in bytes, the consumed count is the whole buffer's byte length, and the request is unchanged. |
| Strings.Split | src/requestParser.ts:36 | `split` gives at least one part, the parts joined with the separator give back the text, and no part contains the separator. |
| Strings.SplitJoin | src/requestParser.ts:41 | Splitting the join of parts on a one-character separator none of them contains, as the space split of the request line and the `/` split of paths are, gives back those parts. |
| Strings.SplitJoinLines | src/requestParser.ts:36-38 | Splitting CRLF-free lines joined with CRLF gives back those lines: CRLF cannot overlap itself, so the request line and header lines are determined by the header block. |
| Strings.SplitJoinPair | src/requestParser.ts:36 | The same round trip for any two-character separator whose characters differ and that no part contains. |
| Strings.SplitCharCount | src/requestParser.ts:41-42 | Splitting on a character gives one part more than the character's occurrences. |
| Strings.TrimmedIsEmptyIffAllSpace | src/requestParser.ts:58 | `trim()` gives the empty string exactly when the line is all JavaScript white space. |
| Strings.TrimPadded | src/requestParser.ts:63-64 | Trimming removes exactly the white-space padding around text that does not begin or end with white space. |
| Strings.ToLower | src/requestParser.ts:65 | Lower-casing keeps the length and lower-cases each ASCII letter in place. |
| Strings.IndexOf | src/requestParser.ts:23 | `indexOf` returns the first occurrence, or -1 when there is none. |
| Utf8.EncodeLength | src/responseBuilder.ts:23-25 | `Buffer.byteLength` is the length of the UTF-8 encoding. |
| Utf8.EncodeAppend | src/responseBuilder.ts:41-46 | Encoding distributes over concatenation, so writing two texts one after the other puts the encoding of their concatenation on the wire. |
| Utf8.Utf8LengthBounds | src/requestParser.ts:81 | A text has at least as many UTF-8 bytes as characters, and exactly as many when it is ASCII. |
| Decimal.ParseNatToString | src/responseBuilder.ts:34 | The decimal rendering of a number reads back as that number. |
| Net.Socket.Write | src/responseBuilder.ts:43-46 | A write appends its bytes unless the socket has ended. |
| Net.Socket.End | src/responseBuilder.ts:48-50 | `end()` marks the socket ended and writes nothing. |
| ResponseBuilder.BuildResponse | src/responseBuilder.ts:10-51 | The bytes written are the encoded header block, then the body's bytes when the body is truthy. The socket is ended exactly when keep-alive is not set. |
| ResponseBuilder.BuildHtmlResponse | src/responseBuilder.ts:53-59 | An HTML response is the base response for a text body of type `text/html`. |
| ResponseBuilder.BuildJsonResponse | src/responseBuilder.ts:61-68 | A JSON response is the base response for the serialized text with type `application/json`. |
| ResponseBuilder.BuildErrorResponse | src/responseBuilder.ts:70-86 | An error response is the error page sent as `text/html`, with the given status code and text overriding those in the options. |
| ResponseBuilder.Build404Response | src/responseBuilder.ts:88-99 | Writes the error response for 404 `Not Found` with its fixed message, keeping the caller's options. |
| ResponseBuilder.Build403Response | src/responseBuilder.ts:101-112 | Writes the error response for 403 `Forbidden` with its fixed message, keeping the caller's options. |
| ResponseBuilder.Build500Response | src/responseBuilder.ts:114-125 | Writes the error response for 500 `Internal Server Error` with its fixed message, keeping the caller's options. |
| ResponseBuilder.ExtraLines | src/responseBuilder.ts:38 | Each caller header becomes one `key: value` line, in the given order. |
| ResponseBuilder.ContentLengthIsBodyLength | src/responseBuilder.ts:23-25 | Content-Length equals the number of body bytes: a buffer's length, or a text's UTF-8 length. |
| ResponseBuilder.BodyFollowsHeaderBlock | src/responseBuilder.ts:41-46 | The output is the header block followed by exactly the body's bytes. An untruthy body is the empty text, which contributes none. |
| ResponseBuilder.ContentLengthReadsBack | src/responseBuilder.ts:23-34 | The Content-Length line is `Content-Length: ` and decimal digits that read back as the number of body bytes. |
| ResponseBuilder.HeaderOrder | src/responseBuilder.ts:29-39 | The header lines run status line, Content-Type, Content-Length, Connection, Server, Date, then every caller header in order, none dropped or merged. |
| ResponseBuilder.CharsetIffText | src/responseBuilder.ts:31-33 | `; charset=utf-8` is appended to the type exactly when the type starts with `text/`. |
| ResponseBuilder.ConnectionHeaderIff | src/responseBuilder.ts:27-35 | The Connection header is `keep-alive` exactly when keep-alive is set, and `close` exactly when it is not. |
| ResponseBuilder.DefaultOptions | src/responseBuilder.ts:16-21 | With no options the status line is `HTTP/1.1 200 OK`, the connection closes, and no header follows Date. |
| ResponseBuilder.ErrorHtmlShape | src/responseBuilder.ts:77-79 | The error page starts with `<h1>code text</h1>`, and has a `<p>message</p>` after it exactly when a non-empty message was given. |
| ResponseBuilder.ErrorStatusOverrides | src/responseBuilder.ts:81-85 | An error response's status line carries the passed code and text whatever the options said, and the options' headers and keep-alive flag are kept. |
| ResponseBuilder.NotFoundResponse | src/responseBuilder.ts:88-99 | The canned 404 response's status line is `HTTP/1.1 404 Not Found`, and it keeps the caller's keep-alive flag. |
| ResponseBuilder.ForbiddenResponse | src/responseBuilder.ts:101-112 | The canned 403 response's status line is `HTTP/1.1 403 Forbidden`, and it keeps the caller's keep-alive flag. |
| ResponseBuilder.ServerErrorResponse | src/responseBuilder.ts:114-125 | The canned 500 response's status line is `HTTP/1.1 500 Internal Server Error`, and it keeps the caller's keep-alive flag. |
| ResponseBuilder.StatusDigits | src/responseBuilder.ts:30 | The status codes 200, 403, 404 and 500 render as their three digits. |
| ResponseBuilder.JsonHasNoCharset | src/responseBuilder.ts:66-67 | A JSON response's Content-Type line is the bare `Content-Type: application/json`. |
| PosixPath.StripLeadingDotDot | src/staticFileHandler.ts:38-40 | The regex removes exactly a leading run of `../` and `..\` pieces, with a bare `..` removed only when it is all that is left. What remains is the rest of the path and no longer starts with such a piece; a path that does not start with one is left unchanged. |
| PosixPath.TrimTrailingSeparators | src/staticFileHandler.ts:58 | The path without its trailing separators: a prefix that does not end in `/`, with only `/` removed after it. |
| PosixPath.ResolveKeeps | src/staticFileHandler.ts:38-39 | Normalization keeps only plain input segments and `..`, and keeps no `..` in an absolute path. |
| PosixPath.NormalizeAbsolute | src/staticFileHandler.ts:38-39 | An absolute path normalizes to an absolute path with no `..` segment. |
| PosixPath.JoinOntoAbsolute | src/staticFileHandler.ts:41 | Joining anything onto an absolute root gives an absolute path with no `..` segment. |
| PosixPath.NormalizeRootedDotDot | src/staticFileHandler.ts:38-39 | `/../x` normalizes exactly as `/x` does. |
| PosixPath.ExtnameShape | src/staticFileHandler.ts:58 | The extension is empty or a `.` plus the end of the last segment, without a further `.` or `/`. It is empty exactly when the last segment is `..` or has no `.` after its first character. |
| StaticFileHandler.ServeStaticFile | src/staticFileHandler.ts:18-71 | Exactly one response is written: the bytes for the outcome the request path reaches. The socket is ended exactly when keep-alive, by default false, is not set. |
| StaticFileHandler.ServeResolved | src/staticFileHandler.ts:43-61 | After the path is resolved: a 403 outside the root, otherwise the response the lookup leads to. |
| StaticFileHandler.ServeExisting | src/staticFileHandler.ts:50-56 | The `stat` step: the caught error's response, 404 for anything but a regular file, else the file. |
| StaticFileHandler.SendFile | src/staticFileHandler.ts:57-61 | The `readFile` step: the caught error's response, or the file's bytes under its content type. |
| StaticFileHandler.SendContent | src/staticFileHandler.ts:61 | A served file is the base response for the bytes as a buffer body, with the same keep-alive flag. |
| StaticFileHandler.ReportFailure | src/staticFileHandler.ts:62-70 | A caught error becomes a 404 for `ENOENT` and a 500 for any other code, with the same keep-alive flag. |
| StaticFileHandler.StaticHandler.constructor | src/staticFileHandler.ts:73 | The handler keeps the options it was created with. |
| StaticFileHandler.StaticHandler.Handle | src/staticFileHandler.ts:74-83 | Calling the handler serves the path with the stored options, but with the call's keep-alive flag, defaulting to false. |
| StaticFileHandler.OutcomeIgnoresKeepAlive | src/staticFileHandler.ts:79-82 | Overriding the keep-alive flag never changes which response is chosen. |
| StaticFileHandler.RootServesDefaultFile | src/staticFileHandler.ts:26-34 | Requesting `/` is requesting `/` plus the default file, which is `index.html` unless configured. |
| StaticFileHandler.ForbiddenIff | src/staticFileHandler.ts:43-47 | The outcome is 403 exactly when the joined path does not start with the root plus `/`, and the filesystem plays no part in that decision. |
| StaticFileHandler.ServedIff | src/staticFileHandler.ts:50-61 | A file is served exactly when the prefix check passed and the path names a readable regular file. Its bytes are then served under the type from the table. |
| StaticFileHandler.NotFoundIff | src/staticFileHandler.ts:50-66 | 404 exactly when the prefix check passed and the path is missing, not a regular file, or failed with `ENOENT`. |
| StaticFileHandler.ServerErrorIff | src/staticFileHandler.ts:62-69 | 500 exactly when the prefix check passed and `stat` or `readFile` failed with a code other than `ENOENT`. |
| StaticFileHandler.ServedStaysUnderRoot | src/staticFileHandler.ts:38-47 | Under an absolute root, a served file's path starts with the root and `/` and has no `..` segment, whatever was requested. |
| StaticFileHandler.TraversalReRooted | src/staticFileHandler.ts:38-41 | A request for `/../x` resolves to, and is answered as, `/x`: re-rooted, not refused. |
| StaticFileHandler.RootItselfForbidden | src/staticFileHandler.ts:43-47 | A request whose joined path is exactly the root text is refused with 403. |
| StaticFileHandler.RootDirectoryNotFound | src/staticFileHandler.ts:43-56 | A request that joins to the root followed by `/` passes the prefix check, and a directory there is answered with 404. |
| StaticFileHandler.TrailingSlashRootForbidsAll | src/staticFileHandler.ts:38-47 | Under a root written with a trailing `/`, every request is refused with 403, whatever the filesystem holds. |
| PosixPath.NormalizeNoDoubleSeparator | src/staticFileHandler.ts:41 | A normalized path never holds two separators in a row. |
| StaticFileHandler.ContentTypeFromTable | src/staticFileHandler.ts:58-59 | The content type is the table's non-empty entry for the lower-cased extension, and `application/octet-stream` otherwise. |
| Router.RouteTable.constructor | src/router.ts:15 | The route table starts empty. |
| Router.RouteTable.AddRoute | src/router.ts:17-23 | The handler is stored under `method + " " + path`, replacing an earlier one. Every other key keeps its entry, and the table grows by one key exactly when the key is new. |
| Router.RouteKeyInjective | src/router.ts:22 | For methods without spaces, two routes share a key exactly when they have the same method and path. |
| Router.HandleApiHello | src/router.ts:25-44 | One write of the header lines joined with CRLF, the blank line and the JSON body for the greeting and timestamp; then the socket is ended. |
| Router.GreetingNameIff | src/router.ts:27 | The greeted name is the path after its fifth character, or `world` when nothing follows it. |
| Router.HelloPathGreetsHello | src/router.ts:27 | `/api/hello` greets `hello`. |
| Router.ApiHelloIsDefaultResponse | src/router.ts:33-42 | The hello response is byte for byte what `buildResponse` writes with no options for the same body and the type `application/json; charset=utf-8`. |
| Router.ApiHelloFraming | src/router.ts:30-42 | The hello response is its header block followed by exactly the encoded body. Its Content-Length reads back as the body's byte count, and it always says `Connection: close`. |

## Left out

- Decoding the request buffer to text (`buffer.toString("utf-8")`) is not modelled. The framer takes the decoded text, so invalid UTF-8 and its replacement characters are outside the model.
- Dafny characters are Unicode scalar values, while JavaScript indexes strings by UTF-16 code units. A character outside the Basic Multilingual Plane counts as 1 here and as 2 in `headerEndIndex`. The finding below holds in both counts, with different sizes.
- Strings.ToLower: lower-cases ASCII letters only, while JavaScript's `toLowerCase` also maps non-ASCII letters.
- RequestParser.ParseHeaders: the header record is a map, so a header named `__proto__`, which a plain JavaScript object silently drops, is kept.
- ResponseBuilder.ExtraLines: caller headers are a sequence in their given order. `Object.entries` lists integer-like keys first, in ascending order, and a record cannot hold a key twice.
- ResponseBuilder.BuildResponse: status codes are natural numbers. A negative or fractional `statusCode` renders differently in JavaScript.
- Clock readings (`toUTCString()`, `toISOString()`) are parameters: the Date header text, and the hello handler's timestamp and date.
- Router.HandleApiHello: `JSON.stringify` is a function parameter, so the model states which message and timestamp the body is built from but not the JSON text itself.
- ResponseBuilder.BuildJsonResponse: takes the text `JSON.stringify` produced, for the same reason.
- Symbolic links are not modelled: `fs.stat` and `fs.readFile` follow them, so a link under the root can serve a file outside it, while the filesystem map knows only paths. What is proved about containment is about the path string.
- Filesystem access is a map from path to entry: asynchrony, concurrent changes between `stat` and `readFile`, and the `console.error` logging are not modelled.
- Node's `path` module is modelled only as the POSIX segment model described above. Windows separators and drive letters are not modelled, except that the leading-`..\` strip is kept.
- The `mimeTypes` table comes from `./config`, which is not part of this model. It is a parameter.
- Socket errors, backpressure and exceptions thrown by writes are not modelled. A thrown write would reach the resolver's `catch` block and produce a second response.
- The route table holds handlers of an abstract type, and handlers are never invoked through it.
- `src/server.ts` is not modelled: socket event wiring, `listen`, its inline earlier copy of the parser whose result is only logged, and the constant response it sends.

## Findings

| source | as written | input that shows it | evidently intended | confidence | as-written member | corrected member |
|---|---|---|---|---|---|---|
| src/requestParser.ts:81 | `bytesConsumed` adds `headerEndIndex`, a character index, to `Buffer.byteLength(body)`, a byte count. | The buffer `GET /é HTTP/1.1\r\n\r\n` is 20 bytes, but 19 are reported consumed. | The count of buffer bytes the request occupies: the header block's byte length plus 4 plus the body's byte length, which is the whole buffer. | not executed | RequestParser.NonAsciiRequestLineUndercounts | RequestParser.CorrectedConsumesWholeBuffer |
