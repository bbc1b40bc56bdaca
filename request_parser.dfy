/**
 * The request framer: finds the end of the header block in the buffered
 * request text, splits the request line and the header lines, and reports how
 * much of the buffer it consumed (HTTP/1.1 message framing, sections 2.1 and
 * 3 of RFC 9112; header fields per section 5 of RFC 9110).
 */
module RequestParser {
  import opened Wrappers
  import opened Strings
  import opened Utf8

  /** The blank line that ends the header block. */
  const Terminator: string := "\r\n\r\n"

  /** The unparsed pieces kept for diagnostics. */
  datatype RawRequest = RawRequest(requestLine: string, headerLines: seq<string>, fullHeaders: string)

  datatype HttpRequest = HttpRequest(
    httpMethod: string,
    path: string,
    httpVersion: string,
    headers: map<string, string>,
    body: string,
    raw: RawRequest)

  /** `request` is `None` where the source returns `null`. */
  datatype ParseResult = ParseResult(request: Option<HttpRequest>, bytesConsumed: nat)

  /** The entry one header line contributes to the header record, if any. */
  function HeaderEntry(line: string): Option<(string, string)> {
    if Trim(line) == "" then None
    else
      var colon := IndexOf(line, ":");
      if colon == -1 then None
      else Some((ToLower(Trim(line[..colon])), Trim(line[colon + 1..])))
  }

  /** What one header line contributes: nothing, or a key and its value. */
  type Entry = Option<(string, string)>

  /** The entries of `lines`, line by line. */
  function Entries(lines: seq<string>): (es: seq<Entry>)
    ensures |es| == |lines|
  {
    seq(|lines|, i requires 0 <= i < |lines| => HeaderEntry(lines[i]))
  }

  /** The record after applying `entries` first to last: a later entry overwrites an earlier one. */
  function Record(entries: seq<Entry>): map<string, string>
    decreases |entries|
  {
    if entries == [] then map[]
    else
      var m := Record(entries[..|entries| - 1]);
      match entries[|entries| - 1]
      case None => m
      case Some(e) => m[e.0 := e.1]
  }

  /** The header record built from `lines`. */
  function HeadersOf(lines: seq<string>): map<string, string> {
    Record(Entries(lines))
  }

  /** One more entry extends the record by that entry, if it has one. */
  lemma RecordSnoc(entries: seq<Entry>, i: nat)
    requires i < |entries|
    ensures entries[i].None? ==> Record(entries[..i + 1]) == Record(entries[..i])
    ensures entries[i].Some? ==>
      Record(entries[..i + 1]) == Record(entries[..i])[entries[i].value.0 := entries[i].value.1]
  {
    assert entries[..i + 1][..i] == entries[..i];
  }

  /** The result `requestParser` returns for the decoded buffer `s`. */
  function Parse(s: string): ParseResult {
    var headerEndIndex := IndexOf(s, Terminator);
    if headerEndIndex == -1 then ParseResult(None, 0)
    else
      var rawHeaders := s[..headerEndIndex];
      var body := s[headerEndIndex + 4..];
      var lines := Split(rawHeaders, CRLF);
      var requestLine := lines[0];
      var headerLines := lines[1..];
      var parts := Split(requestLine, " ");
      if |parts| < 3 then ParseResult(None, 0)
      else
        var request := HttpRequest(parts[0], parts[1], parts[2], HeadersOf(headerLines), body,
                                   RawRequest(requestLine, headerLines, rawHeaders));
        ParseResult(Some(request), headerEndIndex + 4 + Utf8Length(body))
  }

  /** The header-line loop: each line sets one key of the record in place. */
  method ParseHeaders(headerLines: seq<string>) returns (headers: map<string, string>)
    ensures headers == HeadersOf(headerLines)
  {
    headers := map[];
    var i := 0;
    assert headerLines[..0] == [];
    while i < |headerLines|
      invariant 0 <= i <= |headerLines|
      invariant headers == Record(Entries(headerLines)[..i])
    {
      var line := headerLines[i];
      RecordSnoc(Entries(headerLines), i);
      assert Entries(headerLines)[i] == HeaderEntry(line);
      if Trim(line) != "" {
        var firstColonIdx := IndexOf(line, ":");
        if firstColonIdx != -1 {
          var key := Trim(line[..firstColonIdx]);
          var value := Trim(line[firstColonIdx + 1..]);
          headers := headers[ToLower(key) := value];
        }
      }
      i := i + 1;
    }
    assert Entries(headerLines)[..i] == Entries(headerLines);
  }

  /** `requestParser(buffer)`, given the buffer already decoded to text. */
  method RequestParser(requestString: string) returns (result: ParseResult)
    ensures result == Parse(requestString)
  {
    var headerEndIndex := IndexOf(requestString, Terminator);
    if headerEndIndex == -1 {
      return ParseResult(None, 0);
    }
    var rawHeaders := requestString[..headerEndIndex];
    var body := requestString[headerEndIndex + 4..];
    var lines := Split(rawHeaders, CRLF);
    var requestLine := lines[0];
    var headerLines := lines[1..];
    var parts := Split(requestLine, " ");
    if |parts| < 3 {
      return ParseResult(None, 0);
    }
    var headers := ParseHeaders(headerLines);
    var request := HttpRequest(parts[0], parts[1], parts[2], headers, body,
                               RawRequest(requestLine, headerLines, rawHeaders));
    result := ParseResult(Some(request), headerEndIndex + 4 + Utf8Length(body));
  }

  // ---------------------------------------------------------------------
  // What the framer promises
  // ---------------------------------------------------------------------

  /** The text before the first line break of `s`, or all of `s` when it has none. */
  function FirstLine(s: string): (r: string)
    ensures r <= s && !Contains(r, CRLF)
  {
    var j := IndexOf(s, CRLF);
    if j == -1 then s
    else
      PrefixBeforeFirstOccurrence(s, CRLF, j);
      s[..j]
  }

  /** Until a blank line has arrived the framer reports nothing and consumes nothing; it never consumes without a request. */
  lemma IncompleteUntilTerminator(s: string)
    ensures !Contains(s, Terminator) ==> Parse(s) == ParseResult(None, 0)
    ensures Parse(s).request.None? ==> Parse(s).bytesConsumed == 0
  {
  }

  /** The request line is the first line of the whole buffer. */
  lemma FirstLineOfHeaderBlock(s: string, i: int)
    requires i >= 0 && i == IndexOf(s, Terminator)
    ensures Split(s[..i], CRLF)[0] == FirstLine(s)
  {
    assert OccursAt(s, Terminator, i);
    assert s[i] == '\r' && s[i + 1] == '\n' by {
      assert s[i] == s[i..i + 4][0] && s[i + 1] == s[i..i + 4][1];
    }
    assert OccursAt(s, CRLF, i) by { assert s[i..i + 2] == [s[i], s[i + 1]]; }
    var j := IndexOf(s, CRLF);
    assert 0 <= j <= i;
    assert s[j + 1] == '\n' by { assert OccursAt(s, CRLF, j); assert s[j + 1] == s[j..j + 2][1]; }
    IndexOfPrefix(s, CRLF, i);
    SplitHead(s[..i], CRLF);
  }

  /** A request line that splits into three or more parts starts with the first three, separated by single spaces. */
  lemma RequestLineTokens(line: string)
    requires |Split(line, " ")| >= 3
    ensures var p := Split(line, " ");
      var head := p[0] + " " + p[1] + " " + p[2];
      && head <= line
      && (|line| == |head| || line[|head|] == ' ')
      && ' ' !in p[0] && ' ' !in p[1] && ' ' !in p[2]
  {
    var p := Split(line, " ");
    NoSpaceIn(p[0]);
    NoSpaceIn(p[1]);
    NoSpaceIn(p[2]);
    JoinThree(p, " ");
    var head := p[0] + " " + p[1] + " " + p[2];
    var tail: string := if |p| == 3 then [] else " " + Join(p[3..], " ");
    assert line == head + tail;
  }

  lemma NoSpaceIn(x: string)
    requires !Contains(x, " ")
    ensures ' ' !in x
  {
    ContainsChar(x, ' ');
  }

  /**
   * Framing succeeds exactly when a blank line has arrived and the first line
   * of the buffer holds at least two spaces (three or more tokens).
   */
  lemma ParseSucceedsIff(s: string)
    ensures Parse(s).request.Some? <==> Contains(s, Terminator) && Count(FirstLine(s), ' ') >= 2
  {
    var i := IndexOf(s, Terminator);
    if i >= 0 {
      FirstLineOfHeaderBlock(s, i);
      SplitCharCount(FirstLine(s), ' ');
    }
  }

  /**
   * A framed request splits the buffer at its first blank line: the header
   * block is everything before it, the body everything after it, and the
   * count of consumed bytes adds the block, the blank line and the body's
   * UTF-8 length.
   */
  lemma FramedAtFirstBlankLine(s: string)
    requires Parse(s).request.Some?
    ensures var r := Parse(s).request.value;
      && s == r.raw.fullHeaders + Terminator + r.body
      && (forall j :: 0 <= j < |r.raw.fullHeaders| ==> !OccursAt(s, Terminator, j))
      && Parse(s).bytesConsumed == |r.raw.fullHeaders| + 4 + Utf8Length(r.body)
  {
    var i := IndexOf(s, Terminator);
    Cut3(s, i, 4);
  }

  /**
   * The request line of a framed request is the buffer's first line; it
   * begins with the method, the path and the version separated by single
   * spaces, and anything after them is ignored.
   */
  lemma RequestLineOfFramed(s: string)
    requires Parse(s).request.Some?
    ensures var r := Parse(s).request.value;
      var head := r.httpMethod + " " + r.path + " " + r.httpVersion;
      && r.raw.requestLine == FirstLine(s)
      && head <= r.raw.requestLine
      && (|r.raw.requestLine| == |head| || r.raw.requestLine[|head|] == ' ')
      && ' ' !in r.httpMethod && ' ' !in r.path && ' ' !in r.httpVersion
  {
    var i := IndexOf(s, Terminator);
    FirstLineOfHeaderBlock(s, i);
    RequestLineTokens(Parse(s).request.value.raw.requestLine);
  }

  /**
   * The header lines of a framed request are the lines of the header block
   * after the request line, and the header record is built from them.
   */
  lemma HeaderLinesOfFramed(s: string)
    requires Parse(s).request.Some?
    ensures var r := Parse(s).request.value;
      && Join([r.raw.requestLine] + r.raw.headerLines, CRLF) == r.raw.fullHeaders
      && !Contains(r.raw.requestLine, CRLF)
      && (forall k :: 0 <= k < |r.raw.headerLines| ==> !Contains(r.raw.headerLines[k], CRLF))
      && r.headers == HeadersOf(r.raw.headerLines)
  {
    var i := IndexOf(s, Terminator);
    var lines := Split(s[..i], CRLF);
    assert [lines[0]] + lines[1..] == lines;
    forall k | 0 <= k < |lines| - 1 ensures !Contains(lines[1..][k], CRLF) {
      assert lines[1..][k] == lines[k + 1];
    }
  }

  /** The byte length of a framed buffer: header block, blank line, body. */
  lemma Utf8LengthOfFramed(h: string, body: string)
    ensures Utf8Length(h + Terminator + body) == Utf8Length(h) + 4 + Utf8Length(body)
  {
    assert h + Terminator + body == h + (Terminator + body);
    Utf8LengthAppend(h, Terminator + body);
    Utf8LengthAppend(Terminator, body);
    Utf8LengthBounds(Terminator);
  }

  /** Byte arithmetic behind the consumed count: characters before the blank line, bytes after it. */
  lemma ConsumedArithmetic(h: string, body: string)
    ensures |h| + 4 + Utf8Length(body) <= Utf8Length(h + Terminator + body)
    ensures |h| + 4 + Utf8Length(body) == Utf8Length(h + Terminator + body) <==> IsAscii(h)
  {
    Utf8LengthOfFramed(h, body);
    Utf8LengthBounds(h);
  }

  /**
   * The framer never reports more than the buffer's byte length, and reports
   * exactly that length if and only if the header block is ASCII (the header
   * block is counted in characters, the body in bytes).
   */
  lemma ConsumedWithinBuffer(s: string)
    requires Parse(s).request.Some?
    ensures Parse(s).bytesConsumed <= Utf8Length(s)
    ensures Parse(s).bytesConsumed == Utf8Length(s) <==> IsAscii(Parse(s).request.value.raw.fullHeaders)
  {
    FramedAtFirstBlankLine(s);
    var r := Parse(s).request.value;
    ConsumedArithmetic(r.raw.fullHeaders, r.body);
  }

  // ---------------------------------------------------------------------
  // Header lines and the header record
  // ---------------------------------------------------------------------

  /** A header line contributes nothing exactly when it is blank or has no colon. */
  lemma HeaderEntryNoneIff(line: string)
    ensures HeaderEntry(line).None? <==> AllSpace(line) || ':' !in line
  {
    ContainsChar(line, ':');
    if ':' in line {
      var k :| 0 <= k < |line| && line[k] == ':';
      assert !IsSpace(line[k]);
    }
  }

  /**
   * A header line with a colon at `c` and none before it sets the key made of
   * the trimmed, lower-cased text before the colon to the trimmed text after
   * it (which may hold further colons).
   */
  lemma HeaderEntryAt(line: string, c: int)
    requires 0 <= c < |line| && line[c] == ':' && ':' !in line[..c]
    ensures HeaderEntry(line) == Some((ToLower(Trim(line[..c])), Trim(line[c + 1..])))
  {
    FirstColonIs(line, c);
    assert Trim(line) != "" by { assert !IsSpace(line[c]); }
  }

  /** The first colon of a line is found where it is. */
  lemma FirstColonIs(line: string, c: int)
    requires 0 <= c < |line| && line[c] == ':' && ':' !in line[..c]
    ensures IndexOf(line, ":") == c
  {
    OccursAtChar(line, ':', c);
    forall j | 0 <= j < c ensures !OccursAt(line, ":", j) {
      OccursAtChar(line, ':', j);
      assert line[..c][j] == line[j];
    }
    IndexOfIs(line, ":", c);
  }

  /**
   * A well-formed field line `name:` followed by optional white space and the
   * value sets the lower-cased name to the value.
   */
  lemma FieldLineEntry(name: string, ows: string, value: string)
    requires ':' !in name
    requires name == [] || (!IsSpace(name[0]) && !IsSpace(name[|name| - 1]))
    requires AllSpace(ows)
    requires value == [] || (!IsSpace(value[0]) && !IsSpace(value[|value| - 1]))
    ensures HeaderEntry(name + ":" + ows + value) == Some((ToLower(name), value))
  {
    var line := name + ":" + ows + value;
    FieldLineShape(name, ows, value);
    HeaderEntryAt(line, |name|);
    TrimmedName(name);
    TrimmedValue(ows, value);
  }

  lemma FieldLineShape(name: string, ows: string, value: string)
    ensures var line := name + ":" + ows + value;
      && |name| < |line| && line[|name|] == ':'
      && line[..|name|] == name && line[|name| + 1..] == ows + value
  {
  }

  lemma TrimmedName(name: string)
    requires name == [] || (!IsSpace(name[0]) && !IsSpace(name[|name| - 1]))
    ensures Trim(name) == name
  {
    TrimPadded("", name, "");
    assert "" + name + "" == name;
  }

  lemma TrimmedValue(ows: string, value: string)
    requires AllSpace(ows)
    requires value == [] || (!IsSpace(value[0]) && !IsSpace(value[|value| - 1]))
    ensures Trim(ows + value) == value
  {
    TrimPadded(ows, value, "");
    assert ows + value + "" == ows + value;
  }

  /** A `Host: <host>:<port>` line: the colon before the port stays in the value. */
  lemma HostValueKeepsPort(host: string, port: string)
    requires host != [] && !IsSpace(host[0])
    requires port != [] && !IsSpace(port[|port| - 1])
    ensures HeaderEntry("Host" + ":" + " " + (host + ":" + port)) == Some(("host", host + ":" + port))
  {
    var value := host + ":" + port;
    assert value[0] == host[0] && value[|value| - 1] == port[|port| - 1];
    FieldLineEntry("Host", " ", value);
    LowerHost("Host");
  }

  lemma LowerHost(name: string)
    requires name == "Host"
    ensures ToLower(name) == "host"
  {
  }

  /** Entry `e` sets key `k`. */
  predicate SetsKey(e: Entry, k: string) {
    e.Some? && e.value.0 == k
  }

  /** A key is in the record exactly when some entry sets it. */
  lemma {:induction false} RecordKeys(entries: seq<Entry>, k: string)
    ensures k in Record(entries) <==> exists j :: 0 <= j < |entries| && SetsKey(entries[j], k)
    decreases |entries|
  {
    if entries != [] {
      var init := entries[..|entries| - 1];
      RecordKeys(init, k);
      if exists j :: 0 <= j < |init| && SetsKey(init[j], k) {
        var j :| 0 <= j < |init| && SetsKey(init[j], k);
        assert entries[j] == init[j];
      }
      if exists j :: 0 <= j < |entries| && SetsKey(entries[j], k) {
        var j :| 0 <= j < |entries| && SetsKey(entries[j], k);
        if j < |init| {
          assert init[j] == entries[j];
        }
      }
    }
  }

  /** A key's value comes from the last entry that sets it. */
  lemma {:induction false} RecordLastWins(entries: seq<Entry>, j: int, k: string, v: string)
    requires 0 <= j < |entries| && entries[j] == Some((k, v))
    requires forall i :: j < i < |entries| ==> !SetsKey(entries[i], k)
    ensures k in Record(entries) && Record(entries)[k] == v
    decreases |entries|
  {
    var init := entries[..|entries| - 1];
    if j < |entries| - 1 {
      assert init[j] == entries[j];
      forall i | j < i < |init| ensures !SetsKey(init[i], k) {
        assert init[i] == entries[i];
      }
      RecordLastWins(init, j, k, v);
      assert !SetsKey(entries[|entries| - 1], k);
    }
  }

  /** A header is in the record exactly when some header line sets it. */
  lemma HeadersOfKeys(lines: seq<string>, k: string)
    ensures k in HeadersOf(lines) <==> exists j :: 0 <= j < |lines| && SetsKey(HeaderEntry(lines[j]), k)
  {
    var es := Entries(lines);
    RecordKeys(es, k);
    if k in HeadersOf(lines) {
      var j :| 0 <= j < |es| && SetsKey(es[j], k);
      assert es[j] == HeaderEntry(lines[j]);
    }
    if exists j :: 0 <= j < |lines| && SetsKey(HeaderEntry(lines[j]), k) {
      var j :| 0 <= j < |lines| && SetsKey(HeaderEntry(lines[j]), k);
      assert es[j] == HeaderEntry(lines[j]);
    }
  }

  /** A header's value comes from the last header line that sets it. */
  lemma HeadersOfLastWins(lines: seq<string>, j: int, k: string, v: string)
    requires 0 <= j < |lines| && HeaderEntry(lines[j]) == Some((k, v))
    requires forall i :: j < i < |lines| ==> !SetsKey(HeaderEntry(lines[i]), k)
    ensures k in HeadersOf(lines) && HeadersOf(lines)[k] == v
  {
    var es := Entries(lines);
    forall i | j < i < |es| ensures !SetsKey(es[i], k) {
      assert es[i] == HeaderEntry(lines[i]);
    }
    RecordLastWins(es, j, k, v);
  }

  // ---------------------------------------------------------------------
  // Byte count of the consumed request
  // ---------------------------------------------------------------------

  /**
   * The framer with the consumed count taken in bytes throughout: the header
   * block's UTF-8 length instead of its character count.
   */
  function CorrectedParse(s: string): ParseResult {
    var r := Parse(s);
    if r.request.None? then r
    else r.(bytesConsumed := Utf8Length(r.request.value.raw.fullHeaders) + 4 + Utf8Length(r.request.value.body))
  }

  /** The corrected count is the byte length of the whole buffer, whatever the header block holds. */
  lemma CorrectedConsumesWholeBuffer(s: string)
    requires CorrectedParse(s).request.Some?
    ensures CorrectedParse(s).bytesConsumed == Utf8Length(s)
    ensures CorrectedParse(s).request == Parse(s).request
  {
    FramedAtFirstBlankLine(s);
    var r := Parse(s).request.value;
    Utf8LengthOfFramed(r.raw.fullHeaders, r.body);
  }

  /**
   * A buffer holding only a request line of three tokens and the blank line
   * is framed, and the framer counts the line in characters.
   */
  lemma RequestLineOnly(m: string, p: string, v: string)
    requires ' ' !in m && ' ' !in p && ' ' !in v
    requires '\r' !in m && '\r' !in p && '\r' !in v
    ensures var h := m + " " + p + " " + v;
      && Parse(h + Terminator).request.Some?
      && Parse(h + Terminator).bytesConsumed == |h| + 4
  {
    var h := m + " " + p + " " + v;
    assert multiset(h) == multiset(m) + multiset(" ") + multiset(p) + multiset(" ") + multiset(v);
    assert '\r' !in h;
    var s := h + Terminator;
    assert OccursAt(s, Terminator, |h|) by { assert s[|h|..|h| + 4] == Terminator; }
    forall j | 0 <= j < |h| ensures !OccursAt(s, Terminator, j) {
      if j + 4 <= |s| {
        assert s[j..j + 4][0] == h[j] != '\r' == Terminator[0];
      }
    }
    IndexOfIs(s, Terminator, |h|);
    assert s[..|h|] == h && s[|h| + 4..] == [];
    AbsentWithoutFirstChar(h, CRLF);
    assert Split(h, CRLF) == [h];
    SplitCharCount(h, ' ');
  }

  /**
   * A request line with one non-ASCII character (`GET /\U{E9} HTTP/1.1`):
   * the buffer holds 20 bytes but the framer reports 19 consumed.
   */
  lemma NonAsciiRequestLineUndercounts(m: string, p: string, v: string)
    requires m == "GET" && p == "/\U{E9}" && v == "HTTP/1.1"
    ensures var s := m + " " + p + " " + v + Terminator;
      Parse(s).request.Some? && Parse(s).bytesConsumed == 19 && Utf8Length(s) == 20
  {
    RequestLineOnly(m, p, v);
    NonAsciiLineBytes(m, p, v);
  }

  lemma NonAsciiLineBytes(m: string, p: string, v: string)
    requires m == "GET" && p == "/\U{E9}" && v == "HTTP/1.1"
    ensures var h := m + " " + p + " " + v;
      |h| == 15 && Utf8Length(h + Terminator) == 20
  {
    var h := m + " " + p + " " + v;
    Utf8LengthAppend(h, Terminator);
    Utf8LengthAppend(m + " " + p + " ", v);
    Utf8LengthAppend(m + " " + p, " ");
    Utf8LengthAppend(m + " ", p);
    Utf8LengthAppend(m, " ");
    Utf8LengthBounds(m);
    Utf8LengthBounds(v);
    Utf8LengthBounds(Terminator);
    assert Utf8Length(" ") == 1;
    assert Utf8Length(p) == 3 by {
      assert p[1..] == "\U{E9}" && p[1..][1..] == [];
    }
  }
}
