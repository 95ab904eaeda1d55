# rusttp, modelled in Dafny

A model of the core of `rusttp`, a small HTTP/1.1 server library written in Rust.
It covers three parts:

- **Request parsing** (`src/request.rs`). The server receives a buffer. It keeps
  the text up to the first NUL and splits it into lines at every CRLF. The first
  line is split on whitespace into the method, the target and the version
  token. The target is split into a path and `&`-separated `key=value` query
  parameters. The lines up to the first empty line become headers, split at
  their first `": "`. Every later line becomes part of the body, followed by a
  newline.
- **Response building** (`src/response.rs`). A `Response` has a `u16` status,
  content and a header map. `build_http_response` writes the status line with
  its reason phrase, one line per header and a `Content-Length` trailer followed
  by the content.
- **Routing** (`src/router.rs`). A `Router` maps a method and an exact path to a
  handler. Handling one connection reads once into a zeroed 1024-byte buffer
  and parses a request. It then writes the handler's reply, or a fixed
  "Not Found" reply when no route matches.

Files:

- `wrappers.dfy` (`Wrappers`): `Option` and `Result`.
- `text.dfy` (`Text`): the Rust string operations the core uses, each with its
  properties. These are `find`, `split`, `split_once`,
  `split_whitespace`, decimal formatting, UTF-8 byte length and collecting
  pairs into a map.
- `request.dfy` (`RequestParser`): `request.rs`. The parsing functions are
  Dafny functions. `from_parts` is a method whose two loops are proved
  against the specification function `RequestOf`. `from_u8_buffer` is a
  method, without a loop, proved against `Decode`. The `splitn(2, '?')` of
  `parse_path_and_query_params` is a `Find` of the first `'?'`.
- `response.dfy` (`ResponseBuilder`): `response.rs`. `Response` is a class with
  constructors and setters. `build_http_response` is a method whose loop over
  the header map is proved against `HttpText`.
- `router.dfy` (`Routing`): `router.rs`. `Router` is a class over its route
  map. `handle_incoming_stream` is a method proved against `Respond`, with the
  socket replaced by the bytes that arrived and the text written back.
- `scenarios.dfy` (`Scenarios`): the unit tests of `src/request.rs` restated
  as lemmas, and a usage example of the modelled `Router` (`HelloWorld`,
  `HelloWorldMiss`): a hello-world route table of this model's own, not a part
  of the source (the binary in `src/main.rs` has its own router and does not
  use `src/router.rs`).

Behaviour of the code that differs from RFC 9112, or that a reader may not expect:

- A header line is split at its first `": "`, and key and value are not trimmed.
  A line without `": "` is skipped.
- The body is every line after the first empty line, each followed by `'\n'`.
  It is not the lines joined with a separator, so a final empty line adds a
  newline to the body.
- A request with no matching route gets `HTTP/1.1 404 OK` with content
  "Not Found". It is not the `default_response` of `response.rs`, whose content
  is "404 - Not Found" and whose header is `Content-Type: text/plain`. The
  reason phrase written by the router is always "OK".
- The read buffer holds 1024 bytes and there is exactly one read.
- `status_text` falls back to "Unknown Status" for every code outside its table.

## Model

| member | source | states |
|---|---|---|
| RequestParser.MethodText | src/request.rs:17-29 | The text of every method is non-empty and holds no whitespace, so it survives a whitespace split. |
| RequestParser.ParseMethod | src/request.rs:165-177 | Parsing succeeds exactly for the five case-sensitive tokens GET, POST, PUT, DELETE, PATCH, and the method displays back as the token. Every other token, and no token, fails with InvalidInput "Unsupported method!". |
| RequestParser.MethodRoundTrip | src/request.rs:17-29 | Parsing the displayed method gives the method back for all methods except OPTIONS and HEAD, which never parse. |
| RequestParser.ParsePathAndQueryParams | src/request.rs:69-90 | The result is always `Some`. The path is the prefix before the first '?' and holds no '?'. A target without '?' is the path with no parameters. |
| RequestParser.QueryPair | src/request.rs:79-84 | A query segment yields no pair exactly when it holds no '='; the empty segment is one such case. The key of a pair holds no '=' and is followed by '=' in the segment. |
| RequestParser.QueryPairKeyValue | src/request.rs:79-84 | `k=v` yields the pair (k, v). |
| RequestParser.QueryPairExtraEquals | src/request.rs:80-83 | `k=v=w` yields (k, v). The text after a second '=' is dropped. |
| RequestParser.PathWithOneParam | src/request.rs:69-90 | `path?k=v` parses to the path and the single parameter k = v. |
| RequestParser.QueryParamPresent | src/request.rs:77-85 | A parameter is present exactly when some segment yields its key. |
| RequestParser.QueryParamLastWins | src/request.rs:77-85 | With duplicate keys, the value comes from the last segment that carries the key. |
| RequestParser.ParseRequestLine | src/request.rs:92-108 | Anything other than exactly three whitespace-separated tokens fails with InvalidData "Invalid request line". With three tokens and an unsupported method it fails with parse_method's InvalidInput "Unsupported method!". Otherwise the result is the parsed method, path, parameters and version token. |
| RequestParser.RequestLineParts | src/request.rs:92-108 | A supported method, a target and a version joined by spaces parse back to that method, the target's path and parameters, and that version. |
| RequestParser.UnsupportedMethodLine | src/request.rs:102 | A three-token line whose first token is not a supported method fails with "Unsupported method!". |
| RequestParser.Request.GetHeader | src/request.rs:42-44 | A header is returned exactly when its key is in the header map, and the value is the map's value. |
| RequestParser.Request.GetQueryParam | src/request.rs:58-60 | A parameter is returned exactly when its key is in the parameter map, and the value is the map's value. |
| RequestParser.HeaderField | src/request.rs:123 | A line gives no field exactly when it holds no `": "`. Otherwise the line is the key, `": "` and the value, and the key holds no earlier `": "`. |
| RequestParser.HeaderFieldOfLine | src/request.rs:123-125 | `key: value` with no ':' in the key is split into exactly (key, value), with no trimming. |
| RequestParser.HeaderEnd | src/request.rs:118-122 | The header section ends at the first empty line, or at the end when there is none. |
| RequestParser.FromParts | src/request.rs:110-142 | The result is the request line's error, or the request whose headers and body are `HeadersOf` and `BodyOf` of the remaining lines. |
| RequestParser.ReadHeaders | src/request.rs:118-126 | The loop collects the fields of the lines before the first empty line, with later keys overwriting earlier ones. It stops just past that empty line. |
| RequestParser.ReadBody | src/request.rs:129-132 | The body is every remaining line in order, each followed by a newline. |
| RequestParser.HeaderLoopDone | src/request.rs:118-126 | Where the header loop stops, its map and position are the headers and the body start. |
| RequestParser.JoinLinesStep | src/request.rs:129-132 | One more body line appends that line and a newline. |
| RequestParser.HeadersStopAtBlankLine | src/request.rs:118-132 | Lines after the first empty line never become headers and all go to the body. Without an empty line the body is empty. |
| RequestParser.HeaderEndIs | src/request.rs:118-122 | The end of the headers is the unique position with only non-empty lines before it and an empty line, or the end, at it. |
| RequestParser.JoinLinesAppend | src/request.rs:129-132 | The body of two runs of lines is the body of the first followed by the body of the second. |
| RequestParser.HeaderPresent | src/request.rs:118-126 | A header key is present exactly when a line before the first empty line yields it. |
| RequestParser.HeaderLastWins | src/request.rs:124 | With duplicate header keys, the last such line decides the value. |
| RequestParser.TruncateAtNul | src/request.rs:147-149 | The kept text is the longest prefix without a NUL: it holds no NUL, and the next character is a NUL. |
| RequestParser.LinesOf | src/request.rs:151 | Splitting at CRLF always gives at least one line, so the request line always exists. |
| RequestParser.FromU8Buffer | src/request.rs:144-163 | The result is `Decode` of the buffer: truncate at NUL, split at CRLF, then `from_parts` on the first line and the rest. |
| RequestParser.DecodeFailsOnlyOnRequestLine | src/request.rs:157-160 | Decoding fails exactly when the first line fails to parse, and with that error. |
| RequestParser.DecodeStopsAtNul | src/request.rs:147-149 | Anything after a NUL character has no effect on the decoded request. |
| RequestParser.DecodeLines | src/request.rs:144-163 | Lines free of CR and NUL, joined with CRLF, decode as `from_parts` of those lines. |
| RequestParser.TruncateWithoutNul | src/request.rs:147-149 | Text without a NUL is kept whole. |
| RequestParser.NoNulInJoin | src/request.rs:147-151 | Joining NUL-free lines with CRLF gives NUL-free text. |
| Text.SplitWhitespace | src/request.rs:93 | Every token is non-empty and holds no whitespace. |
| Text.SplitWhitespaceJoin | src/request.rs:93 | Splitting space-joined whitespace-free tokens gives those tokens back. |
| Text.SplitOnce | src/request.rs:123 | `split_once` gives none exactly when the pattern is absent. Otherwise the text is the part before, the pattern and the part after, split at the first occurrence. |
| Text.SplitOn | src/request.rs:151 | `split` always gives at least one piece. |
| Text.JoinSplitOn | src/request.rs:151 | Joining the pieces of a split with the pattern gives the text back. |
| Text.SplitOnJoin | src/request.rs:151 | Splitting pattern-free pieces joined with the pattern gives the pieces back. |
| Text.CollectKeys | src/request.rs:77-85 | A key is in the collected map exactly when some element yields it. |
| Text.CollectLastWins | src/request.rs:77-85 | The collected map holds the value of the last element that yields a key. |
| Text.Decimal | src/response.rs:48 | `{}` of a number gives non-empty digits, with a leading '0' only for zero. |
| Text.DecimalRoundTrip | src/response.rs:48 | Reading the decimal digits gives the number back. |
| Text.ReadDecimal | src/response.rs:48 | A reader finds the text before, the digits of the number, then exactly the rest. |
| Text.Utf8Length | src/response.rs:56 | `len()` counts UTF-8 bytes: between one and four per character. |
| Text.AsciiUtf8Length | src/router.rs:74 | The byte length of ASCII text is its character count. |
| ResponseBuilder.StatusText | src/response.rs:74-140 | The reason phrase is "Unknown Status" exactly for the codes outside the table. |
| ResponseBuilder.KnownStatusExamples | src/response.rs:80 | 200 is "OK", 404 is "Not Found" and 418 is "I'm a Teapot". |
| ResponseBuilder.UnknownStatusExamples | src/response.rs:138 | 0 and 599 get "Unknown Status". |
| ResponseBuilder.Response.constructor | src/response.rs:10-16 | `new`: status 0, empty content, no headers. |
| ResponseBuilder.Response.Success | src/response.rs:18-23 | `success`: status 200, empty content, no headers. |
| ResponseBuilder.Response.Default | src/response.rs:63-72 | `default_response`: status 404, content "404 - Not Found", header Content-Type: text/plain. |
| ResponseBuilder.Response.SetStatus | src/response.rs:25-27 | Only the status changes. |
| ResponseBuilder.Response.SetContent | src/response.rs:29-31 | Only the content changes. |
| ResponseBuilder.Response.SetHeaders | src/response.rs:33-35 | The header map is replaced and nothing else changes. |
| ResponseBuilder.Response.SetHeader | src/response.rs:37-39 | The key is set to the value, replacing any earlier value, and nothing else changes. |
| ResponseBuilder.Response.BuildHttpResponse | src/response.rs:43-61 | Whatever the iteration order, the text starts with the status line, ends with the Content-Length trailer and holds every entry's `key: value` line. Exactly: for some order listing each key once, the text is the status line, one line per header in that order, then the trailer. |
| ResponseBuilder.HttpTextShape | src/response.rs:43-61 | For every visiting order, the response begins with the status line, ends with the length trailer and holds the line of every header entry. |
| ResponseBuilder.HeaderBlockSnoc | src/response.rs:50-52 | Visiting one more key appends exactly its `key: value` line. |
| ResponseBuilder.DistinctCardinality | src/response.rs:50 | A listing of distinct keys is as long as the set of keys it lists. |
| ResponseBuilder.HeaderLinesOnePerEntry | src/response.rs:50-52 | One header line is written per map entry. |
| ResponseBuilder.HeaderLinePresent | src/response.rs:50-52 | Every entry's `key: value` line occurs in the header block. |
| ResponseBuilder.StatusReadsBack | src/response.rs:48 | A reader finds "HTTP/1.1 ", then digits that spell the status, then " ", the reason phrase and CRLF, then the rest of the response. |
| ResponseBuilder.ContentLengthReadsBack | src/response.rs:54-58 | After "Content-Length: " a reader finds the UTF-8 byte length of the content, then a blank line, the content and "\n\n". |
| ResponseBuilder.ContentTrailerExample | src/response.rs:54-58 | Content "hi" gets the trailer "Content-Length: 2", a blank line, "hi" and "\n\n". |
| ResponseBuilder.ContentLengthMayRepeat | src/response.rs:50-58 | A user-set Content-Length header is written in addition to the computed one, before it. |
| ResponseBuilder.LineBeforeTrailer | src/response.rs:50-58 | A line inside the header block occurs in the response before the computed length line. |
| Routing.ReadBuffer | src/router.rs:49-50 | The buffer holds 1024 characters: what arrived, up to 1024, then zeros. |
| Routing.FormatReply | src/router.rs:61-66 | The reply text starts with "HTTP/1.1 " and ends with the same `Content-Length` trailer the response builder writes, for the content given. |
| Routing.Router.constructor | src/router.rs:19-23 | `new`: no routes. |
| Routing.Router.AddRoute | src/router.rs:25-31 | The handler is stored under the method and the exact path, replacing an earlier one. |
| Routing.Router.HandleIncomingStream | src/router.rs:48-82 | It returns an error, writing nothing, exactly when the read buffer does not decode, and the error is the decoder's. Otherwise the written text is `Respond` of the route map and the buffer: the handler's reply for an exact method-and-path match, or the fixed "Not Found" reply. |
| Routing.NotFoundText | src/router.rs:71-76 | The miss reply is "HTTP/1.1 404 OK", "Content-Length: 9", a blank line, "Not Found" and "\n\n". |
| Routing.MissWritesNotFound | src/router.rs:69-79 | A decoded request whose method and path have no route gets exactly that fixed reply. |
| Routing.ExactKeyLookup | src/router.rs:55-58 | The outcome depends only on the route entry for the request's exact method and path. |
| Routing.LookupPathHasNoQuery | src/router.rs:57 | The path used for lookup never holds '?', so a route registered with a query is unreachable. |
| Routing.ShortDecimal | src/router.rs:14 | A `u8` status is written with at most three digits. |
| Routing.ReplyReadsBack | src/router.rs:61-66 | A reader finds "HTTP/1.1 ", one to three digits that spell the handler's status, then " OK" and the length trailer. |
| RequestParser.TruncateIs | src/request.rs:147-149 | Any NUL-free prefix followed by a NUL, or by the end, is the truncated text. |
| Routing.ParserSeesArrivedBytes | src/router.rs:49-52 | The zero padding of the buffer never reaches the parser. The outcome is the same as for the bytes that arrived, cut at 1024. |
| Routing.ArrivesWhole | src/router.rs:49-52 | A request shorter than the buffer is parsed exactly as it was sent. |
| Scenarios.ParseMethodCases | src/request.rs:245-255 | "GET" parses to GET. "INVALID", "get", "OPTIONS", "HEAD" and no token fail. |
| Scenarios.PathWithoutQuery | src/request.rs:185-190 | "/path" gives the path "/path" and no parameters. |
| Scenarios.PathWithQuery | src/request.rs:192-197 | "/path?key=value" gives "/path" and key = value. |
| Scenarios.RequestLineValid | src/request.rs:199-206 | "GET /path HTTP/1.1" gives GET, "/path", no parameters and "HTTP/1.1". |
| Scenarios.RequestLineInvalid | src/request.rs:208-212 | "INVALID /path HTTP/1.1" fails. |
| Scenarios.HostHeaderLines | src/request.rs:216 | The lines "Host: example.com" and "" give that one header and an empty body. |
| Scenarios.FromPartsValid | src/request.rs:214-220 | `from_parts` gives GET, "/path", the Host header and an empty body. |
| Scenarios.FromPartsInvalid | src/request.rs:222-226 | `from_parts` with an unsupported method fails. |
| Scenarios.QueryRequestLine | src/request.rs:230 | "GET /path?key=hello HTTP/1.1" gives GET, "/path", key = hello and "HTTP/1.1". |
| Scenarios.HostThenBlankLines | src/request.rs:230 | The lines "Host: example.com", "" and "" give that header and the body "\n". |
| Scenarios.DecodeFourLines | src/request.rs:151-158 | A request line, one more line and two empty lines, joined with CRLF, decode as those four lines. |
| Scenarios.FromBufferValid | src/request.rs:228-236 | The buffer gives GET, "/path", the Host header, key = hello and the body "\n". |
| Scenarios.FromBufferInvalid | src/request.rs:238-243 | The buffer with an unsupported method fails. |
| Scenarios.GetDecodes | src/request.rs:144-163 | `GET <path> HTTP/1.1` with a Host line and a blank line fits in the buffer. It decodes to GET, that path, the Host header, the body "\n" and no parameters. |
| Scenarios.HelloText | src/router.rs:61-66 | The reply (200, "Hello, world!") is "HTTP/1.1 200 OK", "Content-Length: 13", a blank line, the content and "\n\n". |
| Scenarios.HelloReply | src/router.rs:48-66 | A table whose `GET /hello` handler answers 200 and "Hello, world!" writes that reply for such a request. |
| Scenarios.MissReply | src/router.rs:69-79 | A table without `GET /missing` writes the fixed "Not Found" reply for that request. |
| Scenarios.HelloWorld | src/router.rs:18-82 | A router with one `GET /hello` route, given that request, writes the spelled-out hello reply. |
| Scenarios.HelloWorldMiss | src/router.rs:18-82 | The same router, given `GET /missing`, writes the spelled-out "Not Found" reply. |

## Left out

- `src/main.rs` and `src/lib.rs` (the example server and re-exports) are not part of this model.
- `listen_and_serve` is not modelled. It accepts connections forever and spawns one task per connection, which is I/O and concurrency. Each connection is modelled by `HandleIncomingStream`.
- Socket errors are not modelled. The read, `write_all` and `flush` errors that `handle_incoming_stream` passes up with `?` are left out. The bytes that arrive are a parameter, and the written text is the result.
- Routing.Router.HandleIncomingStream: a read is modelled as delivering at most 1024 bytes at once, and a partial or split request is not modelled.
- `String::from_utf8_lossy` is not modelled. The buffer is a sequence of characters, one per byte. Invalid UTF-8 and its replacement characters are not modelled.
- HashMap iteration order is unspecified. `BuildHttpResponse` returns a ghost `order` that lists each key once, and its text is stated for that order.
- Handler bodies are arbitrary Rust closures. The model takes them as Dafny functions of the request and does not model their side effects.
- `get_method`, `get_path`, `get_body` and `get_http_version` are modelled as the `Request` datatype's fields.
- `status_text` is modelled on the status value alone, as `StatusText`.
- `from_u8_buffer` has two error branches that cannot happen, "missing request line, length is zero" and "missing request line". `split` always yields a first line, so they are proved unreachable (`LinesOf`) and not produced.
- `parse_request_line` has an "Invalid path" error (`ok_or_else` on the result of `parse_path_and_query_params`) that cannot happen, since that result is always `Some`. The model keeps the branch in `ParseRequestLine` and proves it is never taken.
- The router's own `Response` (a `u8` status and content) is the datatype `Reply`, since nothing updates it in place.
- The `Display` text and formatting of `io::Error` are not modelled. An error is its kind and its message.
