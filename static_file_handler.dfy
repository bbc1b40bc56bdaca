/**
 * The static-file resolver: maps a request path to a file under a root
 * directory, refuses paths that leave it, and answers with the file (200),
 * 403, 404 or 500. The filesystem is a map from path to what `fs.stat` and
 * `fs.readFile` find there, and the extension-to-type table is a parameter.
 */
module StaticFileHandler {
  import opened Wrappers
  import opened Strings
  import opened Utf8
  import opened PosixPath
  import opened ResponseBuilder
  import opened Net

  datatype StaticFileOptions = StaticFileOptions(
    rootPath: string,
    shouldKeepAlive: Option<bool>,
    defaultFile: Option<string>)

  /**
   * What the filesystem holds at a path: a regular file, something else (a
   * directory, say), a path whose `stat` fails with an error code, or a
   * regular file whose `readFile` fails with one. A path missing from the
   * map does not exist.
   */
  datatype FsEntry = RegularFile(content: seq<Byte>) | NotAFile | StatFails(code: string) | ReadFails(code: string)

  type FileSystem = map<string, FsEntry>

  const NoEntry: string := "ENOENT"
  const OctetStream: string := "application/octet-stream"

  /** `fs.stat(path)`: whether the path is a regular file, or the error code it fails with. */
  function Stat(fs: FileSystem, path: string): Result<bool, string> {
    if path !in fs then Failure(NoEntry)
    else match fs[path]
      case RegularFile(_) => Success(true)
      case ReadFails(_) => Success(true)
      case NotAFile => Success(false)
      case StatFails(code) => Failure(code)
  }

  /** `fs.readFile(path)`: the file's bytes, or the error code it fails with. */
  function ReadFile(fs: FileSystem, path: string): Result<seq<Byte>, string> {
    if path !in fs then Failure(NoEntry)
    else match fs[path]
      case RegularFile(content) => Success(content)
      case ReadFails(code) => Failure(code)
      case NotAFile => Failure("EISDIR")
      case StatFails(code) => Failure(code)
  }

  /** The path to look up: `/` stands for the default file. */
  function FilePath(requestedPath: string, defaultFile: string): string {
    if requestedPath == "/" then "/" + defaultFile else requestedPath
  }

  /** The path the request resolves to: normalized, stripped of leading `..`, joined onto the root. */
  function ResolvedPath(requestedPath: string, options: StaticFileOptions): string {
    var filePath := FilePath(requestedPath, options.defaultFile.GetOr("index.html"));
    PathJoin(options.rootPath, StripLeadingDotDot(Normalize(filePath)))
  }

  /** `mimeTypes[ext] || "application/octet-stream"` for the lower-cased extension. */
  function ContentTypeFor(path: string, mimeTypes: map<string, string>): string {
    var ext := ToLower(Extname(path));
    if ext in mimeTypes && mimeTypes[ext] != "" then mimeTypes[ext] else OctetStream
  }

  /** Which response the resolver sends. */
  datatype Outcome = Forbidden | NotFound | ServerError | Served(content: seq<Byte>, contentType: string)

  /** The caught error's response: `ENOENT` is a 404, anything else a 500. */
  function FailureOutcome(code: string): Outcome {
    if code == NoEntry then NotFound else ServerError
  }

  /** What `readFile` leads to for a regular file: its bytes under the table's type, or the caught error. */
  function ReadOutcome(fs: FileSystem, mimeTypes: map<string, string>, resolved: string): Outcome {
    match ReadFile(fs, resolved)
    case Failure(code) => FailureOutcome(code)
    case Success(content) => Served(content, ContentTypeFor(resolved, mimeTypes))
  }

  /** What `stat` leads to: the caught error, 404 for anything but a regular file, else reading it. */
  function LookupOutcome(fs: FileSystem, mimeTypes: map<string, string>, resolved: string): Outcome {
    match Stat(fs, resolved)
    case Failure(code) => FailureOutcome(code)
    case Success(isFile) => if !isFile then NotFound else ReadOutcome(fs, mimeTypes, resolved)
  }

  /** The decision `serveStaticFile` takes once the path is resolved: 403 outside the root, else the lookup. */
  function OutcomeAt(fs: FileSystem, mimeTypes: map<string, string>, rootPath: string, resolved: string): Outcome {
    if !(rootPath + Sep <= resolved) then Forbidden else LookupOutcome(fs, mimeTypes, resolved)
  }

  /** The outcome `serveStaticFile` reaches for a request path, given the filesystem and the type table. */
  function StaticOutcome(fs: FileSystem, mimeTypes: map<string, string>, requestedPath: string,
                         options: StaticFileOptions): Outcome {
    OutcomeAt(fs, mimeTypes, options.rootPath, ResolvedPath(requestedPath, options))
  }

  /** The bytes written for an outcome. */
  function OutcomeBytes(outcome: Outcome, keepAlive: bool, date: string): seq<Byte> {
    var o := KeepAliveOnly(keepAlive);
    match outcome
    case Forbidden => ErrorResponseBytes(403, "Forbidden", ForbiddenMessage, o, date)
    case NotFound => ErrorResponseBytes(404, "Not Found", NotFoundMessage, o, date)
    case ServerError => ErrorResponseBytes(500, "Internal Server Error", ServerErrorMessage, o, date)
    case Served(content, contentType) => ResponseBytes(Buffer(content), contentType, o, date)
  }

  /** The `catch` block: 404 for a missing path, 500 for any other error. */
  method ReportFailure(socket: Socket, code: string, keepAlive: bool, date: string)
    modifies socket
    ensures socket.output ==
      if old(socket.ended) then old(socket.output)
      else old(socket.output) + OutcomeBytes(FailureOutcome(code), keepAlive, date)
    ensures socket.ended <==> old(socket.ended) || !keepAlive
  {
    if code == NoEntry {
      Build404Response(socket, KeepAliveOnly(keepAlive), date);
    } else {
      Build500Response(socket, KeepAliveOnly(keepAlive), date);
    }
  }

  /** Answering with a file's bytes under its content type. */
  method SendContent(socket: Socket, fileContent: seq<Byte>, contentType: string, shouldKeepAlive: bool, date: string)
    modifies socket
    ensures socket.output ==
      if old(socket.ended) then old(socket.output)
      else old(socket.output) + OutcomeBytes(Served(fileContent, contentType), shouldKeepAlive, date)
    ensures socket.ended <==> old(socket.ended) || !shouldKeepAlive
  {
    BuildResponse(socket, Buffer(fileContent), contentType, KeepAliveOnly(shouldKeepAlive), date);
  }

  /** Reading a regular file and answering with it, or with the caught error. */
  method SendFile(socket: Socket, fs: FileSystem, mimeTypes: map<string, string>,
                  resolvedFilePath: string, shouldKeepAlive: bool, date: string)
    modifies socket
    ensures socket.output ==
      if old(socket.ended) then old(socket.output)
      else old(socket.output) + OutcomeBytes(ReadOutcome(fs, mimeTypes, resolvedFilePath), shouldKeepAlive, date)
    ensures socket.ended <==> old(socket.ended) || !shouldKeepAlive
  {
    var fileContent := ReadFile(fs, resolvedFilePath);
    if fileContent.Failure? {
      ReportFailure(socket, fileContent.error, shouldKeepAlive, date);
      return;
    }
    var contentType := ContentTypeFor(resolvedFilePath, mimeTypes);
    SendContent(socket, fileContent.value, contentType, shouldKeepAlive, date);
  }

  /** The `try` block after the root check: `stat`, then 404 for anything but a regular file, else the file. */
  method ServeExisting(socket: Socket, fs: FileSystem, mimeTypes: map<string, string>,
                       resolvedFilePath: string, shouldKeepAlive: bool, date: string)
    modifies socket
    ensures socket.output ==
      if old(socket.ended) then old(socket.output)
      else old(socket.output) + OutcomeBytes(LookupOutcome(fs, mimeTypes, resolvedFilePath), shouldKeepAlive, date)
    ensures socket.ended <==> old(socket.ended) || !shouldKeepAlive
  {
    var stats := Stat(fs, resolvedFilePath);
    if stats.Failure? {
      ReportFailure(socket, stats.error, shouldKeepAlive, date);
      return;
    }
    if !stats.value {
      Build404Response(socket, KeepAliveOnly(shouldKeepAlive), date);
      return;
    }
    SendFile(socket, fs, mimeTypes, resolvedFilePath, shouldKeepAlive, date);
  }

  /** Everything after the path is resolved: 403 outside the root, else the lookup. */
  method ServeResolved(socket: Socket, fs: FileSystem, mimeTypes: map<string, string>,
                       rootPath: string, resolvedFilePath: string, shouldKeepAlive: bool, date: string)
    modifies socket
    ensures socket.output ==
      if old(socket.ended) then old(socket.output)
      else old(socket.output) + OutcomeBytes(OutcomeAt(fs, mimeTypes, rootPath, resolvedFilePath), shouldKeepAlive, date)
    ensures socket.ended <==> old(socket.ended) || !shouldKeepAlive
  {
    if !(rootPath + Sep <= resolvedFilePath) {
      Build403Response(socket, KeepAliveOnly(shouldKeepAlive), date);
      return;
    }
    ServeExisting(socket, fs, mimeTypes, resolvedFilePath, shouldKeepAlive, date);
  }

  /**
   * `serveStaticFile(socket, requestedPath, options)`: resolves the path,
   * checks it stays under the root, consults the filesystem and writes
   * exactly one response.
   */
  method ServeStaticFile(socket: Socket, fs: FileSystem, mimeTypes: map<string, string>,
                         requestedPath: string, options: StaticFileOptions, date: string)
    modifies socket
    ensures var keepAlive := options.shouldKeepAlive.GetOr(false);
      && socket.output ==
        (if old(socket.ended) then old(socket.output)
         else old(socket.output) + OutcomeBytes(StaticOutcome(fs, mimeTypes, requestedPath, options), keepAlive, date))
      && (socket.ended <==> old(socket.ended) || !keepAlive)
  {
    var shouldKeepAlive := options.shouldKeepAlive.GetOr(false);
    var defaultFile := options.defaultFile.GetOr("index.html");
    var filePath := requestedPath;
    if filePath == "/" {
      filePath := "/" + defaultFile;
    }
    var normalizedPath := StripLeadingDotDot(Normalize(filePath));
    var resolvedFilePath := PathJoin(options.rootPath, normalizedPath);
    ServeResolved(socket, fs, mimeTypes, options.rootPath, resolvedFilePath, shouldKeepAlive, date);
  }

  /** `{ ...options, shouldKeepAlive }` with the handler's argument, which defaults to `false`. */
  function HandlerOptions(options: StaticFileOptions, shouldKeepAlive: Option<bool>): StaticFileOptions {
    options.(shouldKeepAlive := Some(shouldKeepAlive.GetOr(false)))
  }

  /** The handler `createStaticFileHandler(options)` returns: a closure over `options`. */
  class StaticHandler {
    const options: StaticFileOptions

    /** `createStaticFileHandler(options)`. */
    constructor (options: StaticFileOptions)
      ensures this.options == options
    {
      this.options := options;
    }

    /** Calling the handler: the request's keep-alive flag replaces the stored one. */
    method Handle(socket: Socket, fs: FileSystem, mimeTypes: map<string, string>,
                  requestedPath: string, shouldKeepAlive: Option<bool>, date: string)
      modifies socket
      ensures var keepAlive := shouldKeepAlive.GetOr(false);
        && socket.output ==
          (if old(socket.ended) then old(socket.output)
           else old(socket.output) + OutcomeBytes(StaticOutcome(fs, mimeTypes, requestedPath, options), keepAlive, date))
        && (socket.ended <==> old(socket.ended) || !keepAlive)
    {
      ServeStaticFile(socket, fs, mimeTypes, requestedPath, HandlerOptions(options, shouldKeepAlive), date);
      OutcomeIgnoresKeepAlive(fs, mimeTypes, requestedPath, options, shouldKeepAlive);
    }
  }

  // ---------------------------------------------------------------------
  // What the resolver promises
  // ---------------------------------------------------------------------

  /** Which response is chosen never depends on the keep-alive flag. */
  lemma OutcomeIgnoresKeepAlive(fs: FileSystem, mimeTypes: map<string, string>, requestedPath: string,
                                options: StaticFileOptions, shouldKeepAlive: Option<bool>)
    ensures StaticOutcome(fs, mimeTypes, requestedPath, HandlerOptions(options, shouldKeepAlive))
         == StaticOutcome(fs, mimeTypes, requestedPath, options)
  {
    assert ResolvedPath(requestedPath, HandlerOptions(options, shouldKeepAlive)) == ResolvedPath(requestedPath, options);
  }

  /** Requesting `/` is requesting `/` followed by the default file, `index.html` unless configured. */
  lemma RootServesDefaultFile(options: StaticFileOptions)
    ensures ResolvedPath("/", options) == ResolvedPath("/" + options.defaultFile.GetOr("index.html"), options)
  {
  }

  /**
   * 403 exactly when the resolved path does not start with the root and a
   * separator; the filesystem plays no part in that decision.
   */
  lemma ForbiddenIff(fs: FileSystem, other: FileSystem, mimeTypes: map<string, string>, rootPath: string, resolved: string)
    ensures OutcomeAt(fs, mimeTypes, rootPath, resolved) == Forbidden <==> !(rootPath + Sep <= resolved)
    ensures OutcomeAt(fs, mimeTypes, rootPath, resolved) == Forbidden
        <==> OutcomeAt(other, mimeTypes, rootPath, resolved) == Forbidden
  {
  }

  /** A file is served exactly when the path passed the root check, names a regular file, and reading it succeeded. */
  lemma ServedIff(fs: FileSystem, mimeTypes: map<string, string>, rootPath: string, resolved: string)
    ensures OutcomeAt(fs, mimeTypes, rootPath, resolved).Served?
      <==> rootPath + Sep <= resolved && resolved in fs && fs[resolved].RegularFile?
    ensures OutcomeAt(fs, mimeTypes, rootPath, resolved).Served? ==>
      OutcomeAt(fs, mimeTypes, rootPath, resolved) == Served(fs[resolved].content, ContentTypeFor(resolved, mimeTypes))
  {
  }

  /**
   * 404 exactly when the path passed the root check and it is missing, is
   * not a regular file, or `stat` or `readFile` failed with `ENOENT`.
   */
  lemma NotFoundIff(fs: FileSystem, mimeTypes: map<string, string>, rootPath: string, resolved: string)
    ensures OutcomeAt(fs, mimeTypes, rootPath, resolved) == NotFound
      <==> rootPath + Sep <= resolved
           && (resolved !in fs || fs[resolved] in {NotAFile, StatFails(NoEntry), ReadFails(NoEntry)})
  {
  }

  /** 500 exactly when the path passed the root check and `stat` or `readFile` failed with another code. */
  lemma ServerErrorIff(fs: FileSystem, mimeTypes: map<string, string>, rootPath: string, resolved: string)
    ensures OutcomeAt(fs, mimeTypes, rootPath, resolved) == ServerError
      <==> rootPath + Sep <= resolved && resolved in fs
           && ((fs[resolved].StatFails? && fs[resolved].code != NoEntry)
               || (fs[resolved].ReadFails? && fs[resolved].code != NoEntry))
  {
  }

  /**
   * Containment: under an absolute root, a served file's path starts with
   * the root and a separator and has no `..` segment, whatever was requested.
   */
  lemma ServedStaysUnderRoot(fs: FileSystem, mimeTypes: map<string, string>, requestedPath: string,
                             options: StaticFileOptions)
    requires options.rootPath != "" && options.rootPath[0] == '/'
    requires StaticOutcome(fs, mimeTypes, requestedPath, options).Served?
    ensures var resolved := ResolvedPath(requestedPath, options);
      options.rootPath + Sep <= resolved && ".." !in Split(resolved, Sep)
  {
    var filePath := FilePath(requestedPath, options.defaultFile.GetOr("index.html"));
    JoinOntoAbsolute(options.rootPath, StripLeadingDotDot(Normalize(filePath)));
  }

  /**
   * A request that climbs out of the root with a leading `/../` is not
   * refused: it is answered as the same path without the `/..` would be.
   */
  lemma TraversalReRooted(fs: FileSystem, mimeTypes: map<string, string>, x: string, options: StaticFileOptions)
    requires x != ""
    ensures ResolvedPath("/../" + x, options) == ResolvedPath("/" + x, options)
    ensures StaticOutcome(fs, mimeTypes, "/../" + x, options) == StaticOutcome(fs, mimeTypes, "/" + x, options)
  {
    var d := options.defaultFile.GetOr("index.html");
    assert |"/../" + x| > 1 && |"/" + x| > 1;
    assert FilePath("/../" + x, d) == "/../" + x;
    assert FilePath("/" + x, d) == "/" + x;
    NormalizeRootedDotDot(x);
  }

  /**
   * The prefix check asks for the root followed by `/`. A joined path is
   * normalized and never holds `//`, so under a root written with a trailing
   * `/` every request is refused.
   */
  lemma TrailingSlashRootForbidsAll(fs: FileSystem, mimeTypes: map<string, string>, requestedPath: string,
                                    options: StaticFileOptions)
    requires options.rootPath != "" && options.rootPath[|options.rootPath| - 1] == '/'
    ensures StaticOutcome(fs, mimeTypes, requestedPath, options) == Forbidden
  {
    var root := options.rootPath;
    var b := StripLeadingDotDot(Normalize(FilePath(requestedPath, options.defaultFile.GetOr("index.html"))));
    var joined := if b == "" then root else root + Sep + b;
    assert joined != "";
    assert ResolvedPath(requestedPath, options) == Normalize(joined);
    NormalizeNoDoubleSeparator(joined);
    DoubleSeparatorNotPrefix(root, Normalize(joined));
  }

  /** A request that resolves to the root directory itself is refused: the root is no proper prefix of itself. */
  lemma RootItselfForbidden(fs: FileSystem, mimeTypes: map<string, string>, rootPath: string)
    ensures OutcomeAt(fs, mimeTypes, rootPath, rootPath) == Forbidden
  {
    assert |rootPath + Sep| > |rootPath|;
  }

  /**
   * A request that reaches the root directory as `root/` (such as `/.` or
   * `/x/..`) passes the prefix check, and `stat` finds a directory: 404.
   */
  lemma RootDirectoryNotFound(fs: FileSystem, mimeTypes: map<string, string>, rootPath: string)
    requires rootPath + Sep in fs && fs[rootPath + Sep] == NotAFile
    ensures OutcomeAt(fs, mimeTypes, rootPath, rootPath + Sep) == NotFound
  {
  }

  /** The content type is the table's non-empty entry for the lower-cased extension, or the generic binary type. */
  lemma ContentTypeFromTable(path: string, mimeTypes: map<string, string>)
    ensures var ext := ToLower(Extname(path));
      var t := ContentTypeFor(path, mimeTypes);
      && (t == OctetStream <==> ext !in mimeTypes || mimeTypes[ext] == "" || mimeTypes[ext] == OctetStream)
      && (t != OctetStream ==> t == mimeTypes[ext])
  {
  }
}
