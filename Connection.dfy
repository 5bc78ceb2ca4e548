/**
 * The per-connection handler: from a parsed request to what the server
 * does with it. Non-file routes produce the exact response bytes written
 * to the connection; file routes produce the file path they open or
 * create (the file I/O itself is not modelled); a route parameter that
 * does not exist is Go's index-out-of-range panic.
 */
module Connection {
  import opened ByteStrings
  import opened Decimal
  import opened Negotiation
  import opened Routing
  import opened Framing

  /** A request as `http.ReadRequest` delivers it; `userAgent` is `req.UserAgent()`. */
  datatype Request = Request(httpMethod: Bytes, path: Bytes, headers: HeaderMap, userAgent: Bytes)

  /** What handling one request amounts to. */
  datatype Action =
    | Send(response: Bytes)      // one write of these bytes to the connection
    | ServeFile(filePath: Bytes) // GET of a file: open and send this file
    | StoreFile(filePath: Bytes) // POST of a file: create this file from the body
    | Panic                      // `strings.Split(path, "/")[2]` out of range

  /** The gzip compressor, whose internals are not modelled. */
  type Compressor = Bytes -> Bytes

  // The lines of the server's format strings.
  const OkLine: Bytes := "HTTP/1.1 200 OK\r\n"
  const NotFoundLine: Bytes := "HTTP/1.1 404 Not Found\r\n"
  const TypeLine: Bytes := "Content-Type: text/plain\r\n"
  const EncodingLine: Bytes := "Content-Encoding: gzip\r\n"
  const LengthLabel: Bytes := "Content-Length: "

  /** The fixed text of a 200 text/plain response, up to the length digits. */
  const PlainHead: Bytes := OkLine + TypeLine + LengthLabel
  const GzipHead: Bytes := OkLine + TypeLine + EncodingLine + LengthLabel

  /** The echo response: the segment, or its compressed form when the client asked for gzip. */
  function EchoResponse(segment: Bytes, hasGzip: bool, gzip: Compressor): Bytes
  {
    if hasGzip then
      var body := gzip(segment);
      GzipHead + NatToDecimal(|body|) + HeadEnd + body
    else
      PlainHead + NatToDecimal(|segment|) + HeadEnd + segment
  }

  /** The user-agent response: the agent string as the body, never compressed. */
  function UserAgentResponse(ua: Bytes, hasGzip: bool): Bytes
  {
    if hasGzip then
      GzipHead + NatToDecimal(|ua|) + HeadEnd + ua
    else
      PlainHead + NatToDecimal(|ua|) + HeadEnd + ua
  }

  const RootResponse: Bytes := OkLine + "\r\n"
  const NotFoundResponse: Bytes := NotFoundLine + "\r\n"

  /** The handler of one connection, with `dir` the serving directory. */
  function Handle(req: Request, dir: Bytes, gzip: Compressor): Action
  {
    var hasGzip := HasGzip(req.headers);
    match Dispatch(req.httpMethod, req.path)
    case Echo =>
      (match RouteParam(req.path)
       case None => Panic
       case Some(segment) => Send(EchoResponse(segment, hasGzip, gzip)))
    case FileGet =>
      (match RouteParam(req.path)
       case None => Panic
       case Some(name) => ServeFile(FilePath(dir, name)))
    case FilePost =>
      (match RouteParam(req.path)
       case None => Panic
       case Some(name) => StoreFile(FilePath(dir, name)))
    case UserAgent => Send(UserAgentResponse(req.userAgent, hasGzip))
    case Root => Send(RootResponse)
    case NotFound => Send(NotFoundResponse)
  }

  /**
   * The handler as the server runs it: the header scan first, then the
   * switch. It does what `Handle` describes.
   */
  method Serve(req: Request, dir: Bytes, gzip: Compressor) returns (action: Action)
    ensures action == Handle(req, dir, gzip)
  {
    var hasGzip := ScanAcceptEncoding(req.headers);
    var route := Dispatch(req.httpMethod, req.path);
    if route == UserAgent {
      return Send(UserAgentResponse(req.userAgent, hasGzip));
    } else if route == Root {
      return Send(RootResponse);
    } else if route == NotFound {
      return Send(NotFoundResponse);
    }
    var param := RouteParam(req.path);
    if param.None? {
      return Panic;
    }
    if route == Echo {
      action := Send(EchoResponse(param.value, hasGzip, gzip));
    } else if route == FileGet {
      action := ServeFile(FilePath(dir, param.value));
    } else {
      action := StoreFile(FilePath(dir, param.value));
    }
  }

  // ---------------------------------------------------------------------
  // The responses as a client reads them.

  const OK := Status(200, "OK")
  const NotFoundStatus := Status(404, "Not Found")
  const TextPlain := Header(ContentType, "text/plain")
  const GzipEncoding := Header(ContentEncoding, "gzip")

  function LengthHeader(n: nat): Header
  {
    Header(ContentLengthName, NatToDecimal(n))
  }

  /** The headers of a 200 text/plain response carrying `n` body bytes. */
  function TextHeaders(encoded: bool, n: nat): seq<Header>
  {
    if encoded then [TextPlain, GzipEncoding, LengthHeader(n)] else [TextPlain, LengthHeader(n)]
  }

  lemma StatusCodes()
    ensures NatToDecimal(200) == "200" && NatToDecimal(404) == "404"
  {
    assert NatToDecimal(2) == "2" && NatToDecimal(4) == "4";
    assert NatToDecimal(20) == "20" && NatToDecimal(40) == "40";
  }

  /** The lines of the format strings are a status line and header lines. */
  lemma FormatLines()
    ensures OkLine == StatusLine(OK) + CRLF
    ensures NotFoundLine == StatusLine(NotFoundStatus) + CRLF
    ensures TypeLine == HeaderLine(TextPlain) + CRLF
    ensures EncodingLine == HeaderLine(GzipEncoding) + CRLF
    ensures LengthLabel == ContentLengthName + ": "
    ensures HeadEnd == CRLF + CRLF
  {
    StatusCodes();
  }

  lemma PlainHeadText()
    ensures PlainHead == StatusLine(OK) + CRLF + HeaderBlock([TextPlain]) + (ContentLengthName + ": ")
  {
    FormatLines();
    assert HeaderBlock([TextPlain]) == TypeLine;
  }

  lemma GzipHeadText()
    ensures GzipHead == StatusLine(OK) + CRLF + HeaderBlock([TextPlain, GzipEncoding]) + (ContentLengthName + ": ")
  {
    FormatLines();
    assert HeaderBlock([GzipEncoding]) == EncodingLine;
    assert HeaderBlock([TextPlain, GzipEncoding]) == TypeLine + EncodingLine;
  }

  lemma TextHeadersShape(n: nat)
    ensures TextHeaders(false, n) == [TextPlain] + [LengthHeader(n)]
    ensures TextHeaders(true, n) == [TextPlain, GzipEncoding] + [LengthHeader(n)]
    ensures HeaderLine(LengthHeader(n)) == (ContentLengthName + ": ") + NatToDecimal(n)
  {
  }

  /** The plain 200 text/plain layout is a serialised response. */
  lemma PlainLayout(body: Bytes)
    ensures PlainHead + NatToDecimal(|body|) + HeadEnd + body
            == Serialize(Response(OK, TextHeaders(false, |body|), body))
  {
    var n := |body|;
    PlainHeadText();
    TextHeadersShape(n);
    FormatLines();
    LastHeaderLayout(OK, [TextPlain], LengthHeader(n), PlainHead, ContentLengthName + ": ", NatToDecimal(n), body);
  }

  /** The gzip 200 text/plain layout is a serialised response. */
  lemma GzipLayout(body: Bytes)
    ensures GzipHead + NatToDecimal(|body|) + HeadEnd + body
            == Serialize(Response(OK, TextHeaders(true, |body|), body))
  {
    var n := |body|;
    GzipHeadText();
    TextHeadersShape(n);
    FormatLines();
    LastHeaderLayout(OK, [TextPlain, GzipEncoding], LengthHeader(n), GzipHead, ContentLengthName + ": ",
                     NatToDecimal(n), body);
  }

  lemma TextWellFormed(encoded: bool, n: nat, body: Bytes)
    ensures WellFormed(Response(OK, TextHeaders(encoded, n), body))
  {
    NonDigitAbsent(NatToDecimal(n), '\r');
    assert WellFormedHeader(TextPlain);
    assert WellFormedHeader(GzipEncoding);
    assert WellFormedHeader(LengthHeader(n));
  }

  /** The length a client reads from a 200 text/plain response is the one it was built with. */
  lemma TextContentLength(encoded: bool, n: nat, body: Bytes)
    ensures HeaderValue(TextHeaders(encoded, n), ContentLengthName) == Some(NatToDecimal(n))
    ensures ContentLength(Response(OK, TextHeaders(encoded, n), body)) == Some(n)
    ensures (HeaderValue(TextHeaders(encoded, n), ContentEncoding) == Some("gzip")) == encoded
  {
    var ct: Bytes := ContentType;
    var ce: Bytes := ContentEncoding;
    var cl: Bytes := ContentLengthName;
    assert ct[8] != cl[8];
    assert ce[8] != cl[8];
    assert ct[8] != ce[8];
    var hs := TextHeaders(encoded, n);
    var tail := hs[|hs| - 1..];
    assert tail == [LengthHeader(n)];
    assert HeaderValue(tail, cl) == Some(NatToDecimal(n));
    if encoded {
      assert HeaderValue(hs[1..], cl) == HeaderValue(tail, cl);
    }
    ParsePrinted(n);
  }

  // ---------------------------------------------------------------------
  // What a client reads from each response.

  /**
   * The echo response reads back as 200 OK with Content-Type text/plain,
   * Content-Encoding gzip exactly when gzip was negotiated, and as body
   * the compressed segment (gzip) or the segment itself, with a
   * Content-Length equal to that body's length.
   */
  lemma EchoFraming(segment: Bytes, hasGzip: bool, gzip: Compressor)
    ensures var payload := if hasGzip then gzip(segment) else segment;
            Parse(EchoResponse(segment, hasGzip, gzip)) == Some(Response(OK, TextHeaders(hasGzip, |payload|), payload))
  {
    var payload := if hasGzip then gzip(segment) else segment;
    if hasGzip {
      GzipLayout(payload);
    } else {
      PlainLayout(payload);
    }
    TextWellFormed(hasGzip, |payload|, payload);
    ParseSerialize(Response(OK, TextHeaders(hasGzip, |payload|), payload));
  }

  /** The bytes after the first blank line of the echo response are the payload. */
  lemma EchoBody(segment: Bytes, hasGzip: bool, gzip: Compressor)
    ensures var payload := if hasGzip then gzip(segment) else segment;
            AfterHead(EchoResponse(segment, hasGzip, gzip)) == Some(payload)
  {
    var payload := if hasGzip then gzip(segment) else segment;
    if hasGzip {
      GzipLayout(payload);
    } else {
      PlainLayout(payload);
    }
    TextWellFormed(hasGzip, |payload|, payload);
    BodyAfterHead(Response(OK, TextHeaders(hasGzip, |payload|), payload));
  }

  /**
   * The user-agent response reads back with the agent string as body and
   * its length as Content-Length in both branches; with gzip negotiated it
   * still declares Content-Encoding gzip over the uncompressed string.
   */
  lemma UserAgentFraming(ua: Bytes, hasGzip: bool)
    ensures Parse(UserAgentResponse(ua, hasGzip)) == Some(Response(OK, TextHeaders(hasGzip, |ua|), ua))
  {
    if hasGzip {
      GzipLayout(ua);
    } else {
      PlainLayout(ua);
    }
    TextWellFormed(hasGzip, |ua|, ua);
    ParseSerialize(Response(OK, TextHeaders(hasGzip, |ua|), ua));
  }

  /** The bytes after the first blank line of the user-agent response are the agent string. */
  lemma UserAgentBody(ua: Bytes, hasGzip: bool)
    ensures AfterHead(UserAgentResponse(ua, hasGzip)) == Some(ua)
  {
    if hasGzip {
      GzipLayout(ua);
    } else {
      PlainLayout(ua);
    }
    TextWellFormed(hasGzip, |ua|, ua);
    BodyAfterHead(Response(OK, TextHeaders(hasGzip, |ua|), ua));
  }

  /** The root response is a bare 200 status line: no header, no body. */
  lemma RootFraming()
    ensures Parse(RootResponse) == Some(Response(OK, [], []))
    ensures AfterHead(RootResponse) == Some([])
  {
    FormatLines();
    assert RootResponse == Serialize(Response(OK, [], []));
    ParseSerialize(Response(OK, [], []));
    BodyAfterHead(Response(OK, [], []));
  }

  /** The not-found response is a bare 404 status line: no header, no body. */
  lemma NotFoundFraming()
    ensures Parse(NotFoundResponse) == Some(Response(NotFoundStatus, [], []))
    ensures AfterHead(NotFoundResponse) == Some([])
  {
    FormatLines();
    assert NotFoundResponse == Serialize(Response(NotFoundStatus, [], []));
    ParseSerialize(Response(NotFoundStatus, [], []));
    BodyAfterHead(Response(NotFoundStatus, [], []));
  }

  // ---------------------------------------------------------------------
  // Whole requests.

  /**
   * What a client relies on in the bytes it receives: they parse, the body
   * is exactly the bytes after the first blank line, and the declared
   * Content-Length equals the body length, or there is none and no body.
   */
  predicate Framed(wire: Bytes)
  {
    Parse(wire).Some? && AfterHead(wire) == Some(Parse(wire).value.body) &&
    LengthConsistent(Parse(wire).value)
  }

  /** The response declares a length, and it counts the bytes after the first blank line. */
  predicate LengthDeclared(wire: Bytes)
  {
    Parse(wire).Some? && AfterHead(wire).Some? &&
    ContentLength(Parse(wire).value) == Some(|AfterHead(wire).value|)
  }

  lemma EchoFramed(segment: Bytes, hasGzip: bool, gzip: Compressor)
    ensures Framed(EchoResponse(segment, hasGzip, gzip))
    ensures LengthDeclared(EchoResponse(segment, hasGzip, gzip))
  {
    var payload := if hasGzip then gzip(segment) else segment;
    EchoFraming(segment, hasGzip, gzip);
    EchoBody(segment, hasGzip, gzip);
    TextContentLength(hasGzip, |payload|, payload);
  }

  lemma UserAgentFramed(ua: Bytes, hasGzip: bool)
    ensures Framed(UserAgentResponse(ua, hasGzip))
    ensures LengthDeclared(UserAgentResponse(ua, hasGzip))
  {
    UserAgentFraming(ua, hasGzip);
    UserAgentBody(ua, hasGzip);
    TextContentLength(hasGzip, |ua|, ua);
  }

  /** The bare responses are framed: no header, so no declared length, and an empty body. */
  lemma BareFramed()
    ensures Framed(RootResponse) && Framed(NotFoundResponse)
    ensures Parse(RootResponse) == Some(Response(OK, [], [])) && AfterHead(RootResponse) == Some([])
    ensures Parse(NotFoundResponse) == Some(Response(NotFoundStatus, [], [])) &&
            AfterHead(NotFoundResponse) == Some([])
  {
    assert Framed(RootResponse) && Parse(RootResponse) == Some(Response(OK, [], [])) &&
           AfterHead(RootResponse) == Some([]) by {
      RootFraming();
    }
    NotFoundFraming();
  }

  /**
   * The framing invariant holds for every response of the echo, user-agent,
   * root and not-found routes, that is, for every `Send`. The file routes
   * produce no `Send`; their responses are not modelled.
   */
  lemma FramingInvariant(req: Request, dir: Bytes, gzip: Compressor)
    requires Handle(req, dir, gzip).Send?
    ensures Framed(Handle(req, dir, gzip).response)
  {
    var hasGzip := HasGzip(req.headers);
    var wire := Handle(req, dir, gzip).response;
    match Dispatch(req.httpMethod, req.path)
    case Echo =>
      var segment := RouteParam(req.path).value;
      assert wire == EchoResponse(segment, hasGzip, gzip);
      EchoFramed(segment, hasGzip, gzip);
    case UserAgent =>
      assert wire == UserAgentResponse(req.userAgent, hasGzip);
      UserAgentFramed(req.userAgent, hasGzip);
    case Root =>
      assert wire == RootResponse;
      BareFramed();
    case NotFound =>
      assert wire == NotFoundResponse;
      BareFramed();
  }

  /** Echo and user-agent responses always declare their length. */
  lemma DeclaredLength(req: Request, dir: Bytes, gzip: Compressor)
    requires Handle(req, dir, gzip).Send?
    requires Dispatch(req.httpMethod, req.path) in {Echo, UserAgent}
    ensures LengthDeclared(Handle(req, dir, gzip).response)
  {
    var hasGzip := HasGzip(req.headers);
    if Dispatch(req.httpMethod, req.path) == Echo {
      EchoFramed(RouteParam(req.path).value, hasGzip, gzip);
    } else {
      UserAgentFramed(req.userAgent, hasGzip);
    }
  }

  /**
   * A path whose field 1 starts with "echo" is routed to echo, whatever the
   * method, with field 2 (the segment after the second slash) as parameter.
   */
  lemma EchoPathRoutes(first: Bytes, seg: Bytes, tail: Bytes, httpMethod: Bytes)
    requires HasPrefix(first, "echo") && '/' !in first && '/' !in seg
    requires tail == [] || tail[0] == '/'
    ensures Dispatch(httpMethod, "/" + first + "/" + seg + tail) == Echo
    ensures RouteParam("/" + first + "/" + seg + tail) == Some(seg)
  {
    var path := "/" + first + "/" + seg + tail;
    assert path[..5] == "/" + first[..4];
    ParamIsThirdField(first, seg, tail);
  }

  /**
   * Echo without gzip: exactly the plain head, the decimal byte length of
   * the segment, the empty line and the segment; a client reads back the
   * segment with that length. Later path segments are dropped.
   */
  lemma EchoPlain(req: Request, dir: Bytes, gzip: Compressor, first: Bytes, seg: Bytes, tail: Bytes)
    requires req.path == "/" + first + "/" + seg + tail
    requires HasPrefix(first, "echo") && '/' !in first && '/' !in seg
    requires tail == [] || tail[0] == '/'
    requires !HasGzip(req.headers)
    ensures Handle(req, dir, gzip) == Send(PlainHead + NatToDecimal(|seg|) + HeadEnd + seg)
    ensures Parse(Handle(req, dir, gzip).response) == Some(Response(OK, [TextPlain, LengthHeader(|seg|)], seg))
    ensures ContentLength(Parse(Handle(req, dir, gzip).response).value) == Some(|seg|)
  {
    var wire := EchoResponse(seg, false, gzip);
    assert Handle(req, dir, gzip) == Send(wire) by {
      EchoPathRoutes(first, seg, tail, req.httpMethod);
    }
    PlainEchoReadBack(seg, gzip);
  }

  lemma PlainEchoReadBack(seg: Bytes, gzip: Compressor)
    ensures Parse(EchoResponse(seg, false, gzip)) == Some(Response(OK, [TextPlain, LengthHeader(|seg|)], seg))
    ensures ContentLength(Response(OK, [TextPlain, LengthHeader(|seg|)], seg)) == Some(|seg|)
  {
    EchoFraming(seg, false, gzip);
    TextContentLength(false, |seg|, seg);
  }

  /**
   * Echo with gzip: Content-Encoding gzip sits between Content-Type and
   * Content-Length, the body is the compressed segment and the declared
   * length is the compressed length.
   */
  lemma EchoGzip(req: Request, dir: Bytes, gzip: Compressor, first: Bytes, seg: Bytes, tail: Bytes)
    requires req.path == "/" + first + "/" + seg + tail
    requires HasPrefix(first, "echo") && '/' !in first && '/' !in seg
    requires tail == [] || tail[0] == '/'
    requires HasGzip(req.headers)
    ensures Handle(req, dir, gzip) == Send(GzipHead + NatToDecimal(|gzip(seg)|) + HeadEnd + gzip(seg))
    ensures Parse(Handle(req, dir, gzip).response)
            == Some(Response(OK, [TextPlain, GzipEncoding, LengthHeader(|gzip(seg)|)], gzip(seg)))
    ensures ContentLength(Parse(Handle(req, dir, gzip).response).value) == Some(|gzip(seg)|)
  {
    assert Handle(req, dir, gzip) == Send(EchoResponse(seg, true, gzip)) by {
      EchoPathRoutes(first, seg, tail, req.httpMethod);
    }
    EchoFraming(seg, true, gzip);
    TextContentLength(true, |gzip(seg)|, gzip(seg));
  }

  /**
   * "/user-agent", for any method: the agent string is the body and its
   * length the Content-Length; gzip negotiation adds the Content-Encoding
   * header and leaves the body uncompressed.
   */
  lemma UserAgentRequest(req: Request, dir: Bytes, gzip: Compressor)
    requires req.path == "/user-agent"
    ensures Handle(req, dir, gzip) == Send(UserAgentResponse(req.userAgent, HasGzip(req.headers)))
    ensures var r := Parse(Handle(req, dir, gzip).response);
            r.Some? && r.value.body == req.userAgent && ContentLength(r.value) == Some(|req.userAgent|) &&
            (HeaderValue(r.value.headers, ContentEncoding) == Some("gzip")) == HasGzip(req.headers)
  {
    DispatchOrder(req.httpMethod);
    UserAgentFraming(req.userAgent, HasGzip(req.headers));
    TextContentLength(HasGzip(req.headers), |req.userAgent|, req.userAgent);
  }

  /** "/" gives exactly the bare 200 status line; an unmatched request the bare 404. */
  lemma RootAndNotFound(req: Request, dir: Bytes, gzip: Compressor)
    ensures req.path == "/" ==> Handle(req, dir, gzip) == Send("HTTP/1.1 200 OK\r\n\r\n")
    ensures Dispatch(req.httpMethod, req.path) == NotFound ==>
              Handle(req, dir, gzip) == Send("HTTP/1.1 404 Not Found\r\n\r\n")
  {
    DispatchOrder(req.httpMethod);
  }

  /**
   * The handler panics exactly on an echo path with fewer than two
   * slashes ("/echo", "/echoes"); file paths always have their parameter.
   */
  lemma PanicExactly(req: Request, dir: Bytes, gzip: Compressor)
    ensures Handle(req, dir, gzip) == Panic <==> HasPrefix(req.path, "/echo") && Count(req.path, '/') < 2
  {
    var route := Dispatch(req.httpMethod, req.path);
    if route == FileGet || route == FilePost {
      FilePathsHaveParam(req.path);
    }
  }

  /**
   * File routes open or create the directory joined with field 2 of the
   * path, the segment after the second slash. The path is the already
   * percent-decoded `req.URL.Path`; the handler does no further decoding
   * and no check on the name: later fields are dropped and ".." is kept
   * as it is.
   */
  lemma FileRequest(req: Request, dir: Bytes, gzip: Compressor, name: Bytes, tail: Bytes)
    requires req.path == "/files/" + name + tail
    requires '/' !in name && (tail == [] || tail[0] == '/')
    ensures req.httpMethod == "GET" ==> Handle(req, dir, gzip) == ServeFile(dir + "/" + name)
    ensures req.httpMethod == "POST" ==> Handle(req, dir, gzip) == StoreFile(dir + "/" + name)
  {
    var files: Bytes := "files";
    assert req.path == "/" + files + "/" + name + tail;
    assert HasPrefix(req.path, "/files/");
    assert !HasPrefix(req.path, "/echo") by {
      assert req.path[1] == 'f';
    }
    ParamIsThirdField(files, name, tail);
  }

  /** "/files/../secret" names the parent of the serving directory: the name is not checked. */
  lemma FileNameNotSanitised(req: Request, dir: Bytes, gzip: Compressor)
    requires req.httpMethod == "GET" && req.path == "/files/../secret"
    ensures Handle(req, dir, gzip) == ServeFile(dir + "/..")
  {
    var up: Bytes, secret: Bytes := "..", "/secret";
    assert "/files/" + up + secret == "/files/../secret";
    FileRequest(req, dir, gzip, up, secret);
    assert dir + "/" + up == dir + "/..";
  }
}
