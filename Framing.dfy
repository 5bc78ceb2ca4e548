/**
 * HTTP/1.1 response framing (section 4 of RFC 9112 for the status line,
 * sections 8.4 and 8.6 of RFC 9110 for Content-Encoding and
 * Content-Length). `Serialize` lays a response out as the server writes
 * it: status line, one line per header, an empty line, then the body.
 * `Parse` is the reader a client applies to those bytes; the round trip
 * between the two is what makes a response's framing checkable.
 */
module Framing {
  import opened ByteStrings
  import opened Decimal

  datatype Status = Status(code: nat, reason: Bytes)
  datatype Header = Header(name: Bytes, value: Bytes)
  datatype Response = Response(status: Status, headers: seq<Header>, body: Bytes)

  const CRLF: Bytes := "\r\n"
  /** The end of the last header line and the empty line after it. */
  const HeadEnd: Bytes := "\r\n\r\n"
  const ContentType: Bytes := "Content-Type"
  const ContentEncoding: Bytes := "Content-Encoding"
  const ContentLengthName: Bytes := "Content-Length"

  function StatusLine(s: Status): Bytes
  {
    "HTTP/1.1 " + NatToDecimal(s.code) + " " + s.reason
  }

  function HeaderLine(h: Header): Bytes
  {
    h.name + ": " + h.value
  }

  function HeaderBlock(headers: seq<Header>): Bytes
  {
    if |headers| == 0 then [] else HeaderLine(headers[0]) + CRLF + HeaderBlock(headers[1..])
  }

  /** The bytes of a response on the wire. */
  function Serialize(r: Response): Bytes
  {
    StatusLine(r.status) + CRLF + HeaderBlock(r.headers) + CRLF + r.body
  }

  /** A header that fits on one line and whose name ends at the colon. */
  predicate WellFormedHeader(h: Header)
  {
    |h.name| > 0 && ':' !in h.name && '\r' !in h.name && '\r' !in h.value
  }

  predicate WellFormed(r: Response)
  {
    '\r' !in r.status.reason &&
    forall i :: 0 <= i < |r.headers| ==> WellFormedHeader(r.headers[i])
  }

  /** Appending a header appends its line to the header block. */
  lemma {:induction false} HeaderBlockSnoc(front: seq<Header>, last: Header)
    ensures HeaderBlock(front + [last]) == HeaderBlock(front) + HeaderLine(last) + CRLF
  {
    if |front| == 0 {
      assert front + [last] == [last];
    } else {
      assert (front + [last])[1..] == front[1..] + [last];
      HeaderBlockSnoc(front[1..], last);
    }
  }

  /**
   * A response whose last header is `prefix` followed by digits, laid out as
   * fixed head text, the digits, the empty line and the body.
   */
  lemma LastHeaderLayout(st: Status, front: seq<Header>, last: Header, head: Bytes, prefix: Bytes,
                         digits: Bytes, body: Bytes)
    requires HeaderLine(last) == prefix + digits
    requires head == StatusLine(st) + CRLF + HeaderBlock(front) + prefix
    ensures head + digits + (CRLF + CRLF) + body == Serialize(Response(st, front + [last], body))
  {
    HeaderBlockSnoc(front, last);
  }

  // ---------------------------------------------------------------------
  // The reader.

  /** The bytes up to the first CR, which must be followed by LF, and the rest. */
  function ReadLine(s: Bytes): (r: Option<(Bytes, Bytes)>)
    ensures r.Some? ==> '\r' !in r.value.0 && s == r.value.0 + CRLF + r.value.1
  {
    match SplitAtFirst(s, '\r')
    case None => None
    case Some((line, rest)) =>
      if |rest| > 0 && rest[0] == '\n' then
        assert s == line + CRLF + rest[1..] by {
          assert rest == ['\n' as Byte] + rest[1..];
        }
        Some((line, rest[1..]))
      else None
  }

  function ParseStatusLine(line: Bytes): Option<Status>
  {
    if !HasPrefix(line, "HTTP/1.1 ") then None
    else match SplitAtFirst(line[9..], ' ')
      case None => None
      case Some((code, reason)) =>
        match ParseDecimal(code)
        case None => None
        case Some(n) => Some(Status(n, reason))
  }

  function ParseHeaderLine(line: Bytes): Option<Header>
  {
    match SplitAtFirst(line, ':')
    case None => None
    case Some((name, rest)) =>
      if |rest| > 0 && rest[0] == ' ' then Some(Header(name, rest[1..])) else None
  }

  /** Header lines up to the empty line; what follows the empty line is the body. */
  function ParseHeaders(s: Bytes): Option<(seq<Header>, Bytes)>
    decreases |s|
  {
    match ReadLine(s)
    case None => None
    case Some((line, rest)) =>
      if line == [] then Some(([], rest))
      else match ParseHeaderLine(line)
        case None => None
        case Some(h) =>
          match ParseHeaders(rest)
          case None => None
          case Some((hs, body)) => Some(([h] + hs, body))
  }

  function Parse(s: Bytes): Option<Response>
  {
    match ReadLine(s)
    case None => None
    case Some((line, rest)) =>
      match ParseStatusLine(line)
      case None => None
      case Some(status) =>
        match ParseHeaders(rest)
        case None => None
        case Some((hs, body)) => Some(Response(status, hs, body))
  }

  // ---------------------------------------------------------------------
  // Round trip.

  lemma ReadLineOf(line: Bytes, rest: Bytes)
    requires '\r' !in line
    ensures ReadLine(line + CRLF + rest) == Some((line, rest))
  {
    SplitAtFirstOf(line, '\r', ['\n' as Byte] + rest);
    assert line + CRLF + rest == line + ['\r' as Byte] + (['\n' as Byte] + rest);
  }

  lemma StatusLineRoundTrip(s: Status)
    ensures ParseStatusLine(StatusLine(s)) == Some(s)
    ensures '\r' !in s.reason ==> '\r' !in StatusLine(s)
  {
    var code := NatToDecimal(s.code);
    var line := StatusLine(s);
    assert line[9..] == code + [' ' as Byte] + s.reason;
    NonDigitAbsent(code, ' ');
    SplitAtFirstOf(code, ' ', s.reason);
    ParsePrinted(s.code);
    NonDigitAbsent(code, '\r');
  }

  lemma HeaderLineRoundTrip(h: Header)
    requires WellFormedHeader(h)
    ensures ParseHeaderLine(HeaderLine(h)) == Some(h)
    ensures '\r' !in HeaderLine(h) && HeaderLine(h) != []
  {
    SplitAtFirstOf(h.name, ':', " " + h.value);
    assert HeaderLine(h) == h.name + [':' as Byte] + (" " + h.value);
  }

  lemma {:induction false} HeadersRoundTrip(headers: seq<Header>, body: Bytes)
    requires forall i :: 0 <= i < |headers| ==> WellFormedHeader(headers[i])
    ensures ParseHeaders(HeaderBlock(headers) + CRLF + body) == Some((headers, body))
  {
    if |headers| == 0 {
      ReadLineOf([], body);
      assert [] + CRLF + body == HeaderBlock(headers) + CRLF + body;
    } else {
      var line := HeaderLine(headers[0]);
      var rest := HeaderBlock(headers[1..]) + CRLF + body;
      HeaderLineRoundTrip(headers[0]);
      ReadLineOf(line, rest);
      BlockRegroup(headers, body);
      HeadersRoundTrip(headers[1..], body);
      assert [headers[0]] + headers[1..] == headers;
    }
  }

  lemma BlockRegroup(headers: seq<Header>, body: Bytes)
    requires |headers| > 0
    ensures HeaderBlock(headers) + CRLF + body ==
            HeaderLine(headers[0]) + CRLF + (HeaderBlock(headers[1..]) + CRLF + body)
    ensures HeaderBlock(headers) + CRLF + body ==
            HeaderLine(headers[0]) + (CRLF + (HeaderBlock(headers[1..]) + CRLF + body))
  {
    Associate(HeaderLine(headers[0]), CRLF, HeaderBlock(headers[1..]), CRLF, body);
  }

  lemma Associate(a: Bytes, b: Bytes, c: Bytes, d: Bytes, e: Bytes)
    ensures a + b + c + d + e == a + b + (c + d + e)
  {
  }

  /** A client reading a well-formed response gets back exactly what was written. */
  lemma ParseSerialize(r: Response)
    requires WellFormed(r)
    ensures Parse(Serialize(r)) == Some(r)
  {
    var rest := HeaderBlock(r.headers) + CRLF + r.body;
    StatusLineRoundTrip(r.status);
    ReadLineOf(StatusLine(r.status), rest);
    assert Serialize(r) == StatusLine(r.status) + CRLF + rest;
    HeadersRoundTrip(r.headers, r.body);
  }

  // ---------------------------------------------------------------------
  // Content-Length.

  /** The value of the first header called `name`. */
  function HeaderValue(headers: seq<Header>, name: Bytes): (v: Option<Bytes>)
    ensures v.Some? <==> exists i :: 0 <= i < |headers| && headers[i].name == name
    ensures v.Some? ==> exists i :: 0 <= i < |headers| && headers[i] == Header(name, v.value) &&
                                    forall j :: 0 <= j < i ==> headers[j].name != name
  {
    if |headers| == 0 then None
    else if headers[0].name == name then
      assert headers[0] == Header(name, headers[0].value);
      Some(headers[0].value)
    else
      var v := HeaderValue(headers[1..], name);
      assert forall i :: 1 <= i < |headers| ==> headers[i] == headers[1..][i - 1];
      if v.Some? then
        var k :| 0 <= k < |headers[1..]| && headers[1..][k] == Header(name, v.value) &&
                 forall j :: 0 <= j < k ==> headers[1..][j].name != name;
        assert headers[k + 1] == Header(name, v.value);
        v
      else
        v
  }

  /** The length a client reads from the Content-Length header, if any. */
  function ContentLength(r: Response): Option<nat>
  {
    match HeaderValue(r.headers, ContentLengthName)
    case None => None
    case Some(v) => ParseDecimal(v)
  }

  /**
   * The framing invariant: a declared length equals the number of body
   * bytes, and a response that declares none has no body.
   */
  predicate LengthConsistent(r: Response)
  {
    match HeaderValue(r.headers, ContentLengthName)
    case None => r.body == []
    case Some(_) => ContentLength(r) == Some(|r.body|)
  }

  // ---------------------------------------------------------------------
  // The body as the bytes after the first blank line.

  /** The bytes after the first occurrence of CR LF CR LF, if there is one. */
  function AfterHead(s: Bytes): (r: Option<Bytes>)
    ensures r.None? <==> !Contains(s, HeadEnd)
    ensures r.Some? ==> exists i :: FirstOccurrence(s, HeadEnd, i) && r.value == s[i + |HeadEnd|..]
    decreases |s|
  {
    if |s| < |HeadEnd| then None
    else if s[..|HeadEnd|] == HeadEnd then
      assert FirstOccurrence(s, HeadEnd, 0);
      Some(s[|HeadEnd|..])
    else
      ShiftOccurrence(s, HeadEnd);
      FirstOccurrenceShift(s, HeadEnd);
      AfterHead(s[1..])
  }

  lemma HeadEndLines()
    ensures HeadEnd == CRLF + CRLF && |HeadEnd| == 4
  {
  }

  /** A leading byte other than CR is skipped by the search. */
  lemma SkipByte(s: Bytes)
    requires |s| > 0 && s[0] != '\r'
    ensures AfterHead(s) == AfterHead(s[1..])
  {
    if |s| >= |HeadEnd| {
      assert s[..|HeadEnd|][0] != HeadEnd[0];
    }
  }

  /** A line without CR is skipped by the search. */
  lemma {:induction false} SkipLine(line: Bytes, rest: Bytes)
    requires '\r' !in line
    ensures AfterHead(line + rest) == AfterHead(rest)
  {
    if |line| > 0 {
      assert (line + rest)[0] == line[0];
      SkipByte(line + rest);
      assert (line + rest)[1..] == line[1..] + rest;
      SkipLine(line[1..], rest);
    } else {
      assert line + rest == rest;
    }
  }

  /** A line break followed by a non-empty line is no blank line: both are skipped. */
  lemma SkipBreakAndLine(line: Bytes, rest: Bytes)
    requires |line| > 0 && '\r' !in line
    ensures AfterHead(CRLF + (line + rest)) == AfterHead(rest)
  {
    var s := CRLF + (line + rest);
    if |s| >= |HeadEnd| {
      assert s[..|HeadEnd|][2] == line[0];
    }
    assert s[1..] == ['\n' as Byte] + (line + rest);
    SkipByte(s[1..]);
    assert s[1..][1..] == line + rest;
    SkipLine(line, rest);
  }

  /** Header lines after a line break are skipped up to the empty line. */
  lemma {:induction false} SkipHeaderLines(headers: seq<Header>, body: Bytes)
    requires forall i :: 0 <= i < |headers| ==> WellFormedHeader(headers[i])
    ensures AfterHead(CRLF + (HeaderBlock(headers) + CRLF + body)) == Some(body)
  {
    if |headers| == 0 {
      HeadEndLines();
      assert CRLF + (HeaderBlock(headers) + CRLF + body) == HeadEnd + body;
      assert (HeadEnd + body)[..|HeadEnd|] == HeadEnd;
    } else {
      HeaderLineRoundTrip(headers[0]);
      BlockRegroup(headers, body);
      SkipBreakAndLine(HeaderLine(headers[0]), CRLF + (HeaderBlock(headers[1..]) + CRLF + body));
      SkipHeaderLines(headers[1..], body);
    }
  }

  /** In a well-formed response the bytes after the first blank line are exactly the body. */
  lemma BodyAfterHead(r: Response)
    requires WellFormed(r)
    ensures AfterHead(Serialize(r)) == Some(r.body)
  {
    StatusLineRoundTrip(r.status);
    var rest := CRLF + (HeaderBlock(r.headers) + CRLF + r.body);
    Associate(StatusLine(r.status), CRLF, HeaderBlock(r.headers), CRLF, r.body);
    assert Serialize(r) == StatusLine(r.status) + rest;
    SkipLine(StatusLine(r.status), rest);
    SkipHeaderLines(r.headers, r.body);
  }
}
