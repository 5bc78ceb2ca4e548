# codecrafters-http-server-go, modelled in Dafny

This project models the request handler of a small HTTP/1.1 server written
in Go. In `app/server.go` the handler is the per-connection closure. It
works in three steps:

1. It scans the parsed header map for a gzip request. The flag `hasGzip` is
   set when a value under the key `Accept-Encoding` contains the substring
   `gzip`.
2. It picks a route with a first-match `switch`. The cases, in order, are:
   - a `/echo` prefix, for any method;
   - `GET` on a `/files/` prefix;
   - `POST` on a `/files/` prefix;
   - exactly `/user-agent`;
   - exactly `/`;
   - anything else, which is not found.
3. On the non-file routes it writes the response as one hand-formatted
   string. The file routes do file I/O and can write several responses.

The route parameter is field 2 of `strings.Split(path, "/")`, the segment
after the second slash (fields are numbered from 0, and field 0 is the
empty string before the leading slash). When that field does not exist, Go
panics.

The modules follow that structure:

- `ByteStrings`: Go strings as byte sequences, with `strings.Contains`,
  `strings.HasPrefix`, splitting at a byte and counting a byte.
- `Decimal`: what `%d` prints for a length, and the reader that takes it
  back.
- `Negotiation`: the header scan as a loop (`ScanAcceptEncoding`) and the
  predicate it computes (`HasGzip`).
- `Routing`:
  - the `switch` (`Dispatch`), checked against a table-driven first-match
    router (`FirstMatch` over `Table`);
  - `strings.Split` (`Fields`) with its inverse `Join`;
  - the route parameter;
  - the file path built from the serving directory.
- `Framing`: HTTP/1.1 response framing, from section 4 of RFC 9112 and
  sections 8.4 and 8.6 of RFC 9110. It has:
  - a serialiser and a reader, with the round trip proved between them;
  - `AfterHead`, the bytes after the first CR LF CR LF;
  - the Content-Length a client reads.
- `Connection`:
  - the handler as a function (`Handle`) and as the step-by-step procedure
    the closure runs (`Serve`);
  - the exact response bytes of each route;
  - lemmas about what a client reads back from them.

Gzip compression is a parameter of type `Bytes -> Bytes` whose internals are
not modelled. The serving directory (`os.Args[2]`) and the User-Agent string
(`req.UserAgent()`) are inputs. The file routes end in the path they would
open or create. A missing route parameter is the explicit action `Panic`.

## Model

| member | source | states |
|---|---|---|
| ByteStrings.HasPrefix | app/server.go:55 | `strings.HasPrefix(s, p)`, as used at lines 55, 74 and 98: true exactly when `p` is no longer than `s` and `s` starts with the bytes of `p` |
| ByteStrings.Contains | app/server.go:48 | `strings.Contains(s, t)` is true exactly when `t` occurs in `s` at some index |
| Negotiation.HasGzip | app/server.go:42-52 | The value the scan leaves in `hasGzip`: "Accept-Encoding" is a key and one of its values contains "gzip" (proved equal to the loop by `ScanAcceptEncoding`) |
| Negotiation.ScanAcceptEncoding | app/server.go:42-52 | The loop over every key of the header map (in any order), and over the values of "Accept-Encoding", ends with `hasGzip` equal to `HasGzip(headers)`: some value under exactly "Accept-Encoding" contains "gzip" |
| Negotiation.OtherKeysIgnored | app/server.go:43-46 | Adding, changing or removing a header under any other key never changes the gzip decision |
| Negotiation.AnyGzipValueSuffices | app/server.go:47-50 | Any value of the form pre + "gzip" + post, at any position in the value list, switches gzip on |
| Negotiation.GzipVariantsEnable | app/server.go:48 | Matching is by substring: "gzip;q=0" (a refusal) and "x-gzip" both switch gzip on |
| Negotiation.WithoutLetterG | app/server.go:47-48 | Values that never contain the byte 'g' cannot switch gzip on |
| Negotiation.NoSubstringNoGzip | app/server.go:48 | "deflate, br" and "identity" leave gzip off |
| Negotiation.KeyMustBeExact | app/server.go:44 | A lower-case key "accept-encoding" is not consulted, and an empty value list asks for nothing |
| Routing.Dispatch | app/server.go:54-123 | The `switch` as written: echo prefix, then GET files, then POST files, then exact user-agent, then exact root, else not found (checked against `FirstMatch` by `DispatchIsFirstMatch`) |
| Routing.FirstMatch | app/server.go:54-124 | Reference first-match router: the route of the earliest matching rule, or NotFound when no rule matches |
| Routing.DispatchIsFirstMatch | app/server.go:54-124 | The `switch` equals first-match over the rule table, in the order echo prefix, GET files, POST files, exact user-agent, exact root |
| Routing.DispatchOrder | app/server.go:54-123 | "/echoes/x" and "/echo/files/" are echo for every method; "/user-agent" and "/" ignore the method; "/files/a" is a file route only for GET and POST; "/files" and "/user-agent/" are not found for every method |
| Routing.Fields | app/server.go:56 | `strings.Split(s, "/")` has one more field than `s` has slashes, and no field contains a slash |
| Routing.JoinFields | app/server.go:56 | Joining the fields with "/" gives back the path |
| Routing.FieldsJoin | app/server.go:56 | Splitting a join of slash-free fields gives back the fields |
| Routing.RouteParam | app/server.go:56 | The parameter is missing (Go's index out of range) exactly when the path has fewer than two slashes; when present it contains no slash |
| Routing.ParamIsThirdField | app/server.go:56 | For "/" + first + "/" + seg + tail, where tail is empty or starts with a slash, the parameter is `seg`: later segments are dropped |
| Routing.EchoParamExample | app/server.go:56 | "/echo/abc/def" gives "abc" |
| Routing.EchoEmptyParam | app/server.go:56 | "/echo/" gives the empty segment |
| Routing.EchoWithoutParam | app/server.go:55-56 | "/echo" and "/echoes" have no parameter |
| Routing.FilePathsHaveParam | app/server.go:74-75 | Every path with the "/files/" prefix has a parameter |
| Routing.FilePath | app/server.go:77 | The file path is the directory, a slash, then the name unchanged |
| Decimal.NatToDecimal | app/server.go:70 | `%d` of a length prints a non-empty run of digits with no leading zero |
| Decimal.ParsePrinted | app/server.go:72 | Reading back the printed length gives the length |
| Decimal.PrintParsed | app/server.go:72 | Every canonical numeral is the printed form of its value |
| Decimal.PrintInjective | app/server.go:72 | Different lengths never print the same Content-Length value |
| Framing.ParseSerialize | app/server.go:70-72 | A client reading a well-formed serialised response (status line, header lines, empty line, body) gets back the status, the headers in order and the body |
| Framing.HeadersRoundTrip | app/server.go:70-72 | Reading the header block back gives the headers, and the bytes after the empty line as the body |
| Framing.HeaderValue | app/server.go:70-72 | A client's header lookup: some value exactly when a header has that name, and then the value of the earliest such header |
| Framing.AfterHead | app/server.go:70-72 | Reference reader for the body: none exactly when CR LF CR LF does not occur; otherwise the bytes after its first occurrence |
| Framing.BodyAfterHead | app/server.go:70-72 | In a well-formed serialised response, the bytes after the first CR LF CR LF are exactly the body |
| Connection.EchoResponse | app/server.go:56-73 | The echo bytes: with gzip, the gzip head, the compressed length, the blank line and the compressed segment; without, the plain head, the segment's length, the blank line and the segment (read back by `EchoFraming`, `EchoBody`) |
| Connection.UserAgentResponse | app/server.go:114-119 | The user-agent bytes: the gzip or plain head, the agent string's length, the blank line and the uncompressed agent string (read back by `UserAgentFraming`, `UserAgentBody`) |
| Connection.RootResponse | app/server.go:121 | Exactly "HTTP/1.1 200 OK\r\n\r\n" (read back by `RootFraming`) |
| Connection.NotFoundResponse | app/server.go:123 | Exactly "HTTP/1.1 404 Not Found\r\n\r\n" (read back by `NotFoundFraming`) |
| Connection.Handle | app/server.go:39-124 | The closure as a function of the request, the directory and the compressor: the gzip flag, then the route; echo and file routes take field 2 of the path or panic; echo, user-agent, root and not-found send their bytes; file routes name the file they open or create |
| Connection.Serve | app/server.go:39-124 | The handler as the closure runs it (header scan, then the switch) does what `Handle` says for every request |
| Connection.TextContentLength | app/server.go:70-72 | The headers of a text/plain 200 response declare Content-Length n, read back as n; they carry Content-Encoding gzip exactly when encoded |
| Connection.EchoFraming | app/server.go:68-73 | The echo response reads back as 200 text/plain with gzip encoding iff negotiated; the body is the compressed or the plain segment, with its length |
| Connection.EchoBody | app/server.go:68-73 | The bytes after the first blank line of the echo response are the compressed or the plain segment |
| Connection.UserAgentFraming | app/server.go:114-119 | The user-agent response reads back with the agent string as the body and its length as Content-Length, whether or not gzip was negotiated |
| Connection.UserAgentBody | app/server.go:114-119 | The bytes after the first blank line of the user-agent response are the agent string |
| Connection.RootFraming | app/server.go:121 | The root response reads back as 200 OK with no header and no body |
| Connection.NotFoundFraming | app/server.go:123 | The not-found response reads back as 404 Not Found with no header and no body |
| Connection.EchoFramed | app/server.go:68-73 | The echo response, gzip or not, is framed: it parses, its body is the bytes after the first blank line, and its declared Content-Length counts exactly those bytes |
| Connection.UserAgentFramed | app/server.go:115-119 | The user-agent response, with or without the gzip header, is framed in the same sense and declares its length |
| Connection.BareFramed | app/server.go:120-123 | The root and not-found responses parse, declare no length and have nothing after the blank line |
| Connection.FramingInvariant | app/server.go:54-124 | Every response of the echo, user-agent, root and not-found routes (every `Send`) parses; its body is the bytes after the first blank line; it declares a Content-Length equal to the body length, or declares none and has no body |
| Connection.DeclaredLength | app/server.go:68-119 | Echo and user-agent responses always declare a Content-Length, and it equals the number of bytes after the first CR LF CR LF |
| Connection.EchoPathRoutes | app/server.go:55-56 | A path whose field 1 starts with "echo" is an echo for every method, with field 2 of `strings.Split(path, "/")`, the segment after the second slash, as its parameter |
| Connection.EchoPlain | app/server.go:71-72 | Echo without gzip sends exactly the plain head, the decimal byte length of the segment, an empty line and the segment; a client reads the segment back with that length |
| Connection.PlainEchoReadBack | app/server.go:72 | The plain echo response reads back as Content-Type text/plain and Content-Length, with the segment as the body |
| Connection.EchoGzip | app/server.go:57-70 | Echo with gzip adds Content-Encoding gzip between Content-Type and Content-Length; the body is the compressed segment and the declared length is the compressed length |
| Connection.UserAgentRequest | app/server.go:113-119 | "/user-agent" for any method sends the agent string with its length; gzip negotiation adds Content-Encoding gzip but leaves the body uncompressed |
| Connection.RootAndNotFound | app/server.go:120-123 | "/" sends exactly "HTTP/1.1 200 OK\r\n\r\n"; an unmatched request sends exactly "HTTP/1.1 404 Not Found\r\n\r\n" |
| Connection.PanicExactly | app/server.go:55-56 | The handler panics exactly when the path starts with "/echo" and has fewer than two slashes |
| Connection.FileRequest | app/server.go:74-101 | GET and POST on "/files/" + name + tail open or create dir + "/" + name: later segments are dropped |
| Connection.FileNameNotSanitised | app/server.go:75-77 | "/files/../secret" names dir + "/..": the handler does no further decoding and no check on the name |

## Left out

- The accept loop (lines 18-37) is not modelled. As written, it spawns goroutines without bound, and each of them waits in `l.Accept()` for a connection, reads one request and closes the connection with `defer conn.Close()`. Concurrency and sockets are outside the model. Each request is handled on its own.
- `http.ReadRequest` is not modelled, and neither is its failure path. The request arrives already parsed: method, path, header map, User-Agent. The path is `req.URL.Path`, which the Go library has already percent-decoded. So "/files/%2e%2e/secret" reaches the handler as "/files/../secret", and "/echo/a%2Fb" yields the segment "a". The model's claims about the name ("no decoding, no check") are about the handler's own code only.
- Header-name canonicalisation by the Go library is not modelled. The map is taken as the library delivers it, so `KeyMustBeExact` speaks about map keys, not about bytes on the wire.
- `req.UserAgent()` is an input field of the request. Its lookup is library code.
- Gzip internals are a parameter function. The error returns after `gz.Write` and `gz.Close` (lines 59-66) are not modelled, because writing into a `bytes.Buffer` does not fail. The source compresses the segment on every echo (lines 57-66), even when gzip was not negotiated. The model applies the compressor only when gzip was negotiated. Nothing observable is lost: the compressor is a total pure function and its error returns are left out.
- File I/O on the file routes (lines 78-97 and 102-112) is not modelled. The model stops at the path that is opened or created. Left out with it:
  - the 404 and 500 answers;
  - the 1024-byte read buffer;
  - the several responses one request can write;
  - the 201 answer.
- FramingInvariant: does not cover the file routes. The file GET response (lines 93-96) declares `n` but sends the whole 1024-byte buffer. The file routes can also write several responses in a row (lines 81, 91 and 96; lines 104, 110 and 112). So the invariant does not hold there, and the model produces no `Send` for those routes.
- `os.Args[2]` is the `dir` parameter. A missing argument, which would be another panic, is not modelled.
- `writeResponse` failures and the `os.Exit` they cause (lines 129-134) are not modelled. A `Send` is the single write of its bytes.
- The effect of a panic on the process is not modelled. An unrecovered panic in a goroutine ends the whole server; the model stops at the `Panic` action.
- Go's randomised map iteration order is not modelled as a particular order. `ScanAcceptEncoding` picks keys with `:|`, so its contract holds for every order.
