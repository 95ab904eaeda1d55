/**
 * The request parser of src/request.rs: a received buffer becomes a `Request`
 * made of the method, the path, the query parameters, the headers, the body
 * and the HTTP version token.
 */
module RequestParser {
  import opened Wrappers
  import opened Text

  /** The methods a request can name; `OPTIONS` and `HEAD` exist but are never parsed. */
  datatype Method = GET | POST | PUT | DELETE | PATCH | OPTIONS | HEAD

  /** The text `Display` writes for a method. */
  function MethodText(m: Method): (s: string)
    ensures s != [] && NoWhitespace(s)
  {
    match m
    case GET => "GET"
    case POST => "POST"
    case PUT => "PUT"
    case DELETE => "DELETE"
    case PATCH => "PATCH"
    case OPTIONS => "OPTIONS"
    case HEAD => "HEAD"
  }

  /** The `io::ErrorKind`s the parser reports. */
  datatype ErrorKind = InvalidData | InvalidInput

  /** An `io::Error`: its kind and its message. */
  datatype Error = Error(kind: ErrorKind, message: string)

  /** The method tokens the parser accepts: exact, case-sensitive. */
  predicate IsSupportedMethod(token: string)
  {
    token == "GET" || token == "POST" || token == "PUT" || token == "DELETE" || token == "PATCH"
  }

  /** `parse_method`: a closed match on the token. */
  function ParseMethod(token: Option<string>): (r: Result<Method, Error>)
    ensures r.Success? <==> token.Some? && IsSupportedMethod(token.value)
    ensures r.Success? ==> MethodText(r.value) == token.value
    ensures r.Failure? ==> r.error == Error(InvalidInput, "Unsupported method!")
  {
    match token
    case Some(s) =>
      if s == "GET" then Success(GET)
      else if s == "POST" then Success(POST)
      else if s == "PUT" then Success(PUT)
      else if s == "DELETE" then Success(DELETE)
      else if s == "PATCH" then Success(PATCH)
      else Failure(Error(InvalidInput, "Unsupported method!"))
    case None => Failure(Error(InvalidInput, "Unsupported method!"))
  }

  /** Displaying a method and parsing the text gives the method back, except for
      `OPTIONS` and `HEAD`, whose text is rejected. */
  lemma MethodRoundTrip(m: Method)
    ensures ParseMethod(Some(MethodText(m))).Success? <==> m != OPTIONS && m != HEAD
    ensures ParseMethod(Some(MethodText(m))).Success? ==> ParseMethod(Some(MethodText(m))).value == m
  {
  }

  /** One `&`-separated query segment split on `=`: the first piece is the key, the
      second the value; a segment with a single piece produces no pair. */
  function QueryPair(param: string): (r: Option<(string, string)>)
    ensures r.None? <==> '=' !in param
    ensures r.Some? ==> '=' !in r.value.0 && r.value.0 + "=" <= param
  {
    SplitOnCharHead(param, '=');
    var parts := SplitOn(param, "=");
    var key := parts[0];
    if |parts| < 2 then None else Some((key, parts[1]))
  }

  /** `parse_path_and_query_params`: the path is the text before the first `?`;
      the text after it, split on `&`, gives the query parameters. */
  function ParsePathAndQueryParams(pathWithQuery: string): (r: Option<(string, map<string, string>)>)
    ensures r.Some?
    ensures '?' !in r.value.0 && r.value.0 <= pathWithQuery
    ensures '?' !in pathWithQuery ==> r.value == (pathWithQuery, map[])
    ensures '?' in pathWithQuery ==> pathWithQuery[|r.value.0|] == '?'
  {
    FindChar(pathWithQuery, '?');
    match Find(pathWithQuery, "?")
    case None => Some((pathWithQuery, map[]))
    case Some(i) => Some((pathWithQuery[..i], Collect(SplitOn(pathWithQuery[i + 1..], "&"), QueryPair)))
  }

  /** The query string of a request target: the text after the first `?`. */
  function QueryString(pathWithQuery: string): Option<string>
  {
    match Find(pathWithQuery, "?")
    case None => None
    case Some(i) => Some(pathWithQuery[i + 1..])
  }

  /** `k=v` gives the pair (k, v). */
  lemma QueryPairKeyValue(k: string, v: string)
    requires '=' !in k && '=' !in v
    ensures QueryPair(k + "=" + v) == Some((k, v))
  {
    SplitOnFirst(k, "=", v);
    SplitOnWhole(v, "=");
    assert SplitOn(k + "=" + v, "=") == [k, v];
  }

  /** `k=v=w` also gives (k, v): the text after a second `=` is lost. */
  lemma QueryPairExtraEquals(k: string, v: string, tail: string)
    requires '=' !in k && '=' !in v
    ensures QueryPair(k + "=" + v + "=" + tail) == Some((k, v))
  {
    var rest := v + "=" + tail;
    assert k + "=" + v + "=" + tail == k + "=" + rest;
    SplitOnFirst(k, "=", rest);
    SplitOnFirst(v, "=", tail);
    assert SplitOn(k + "=" + rest, "=")[1] == v;
  }

  /** A target with one `k=v` parameter: the path before the `?` and that one pair. */
  lemma PathWithOneParam(path: string, k: string, v: string)
    requires '?' !in path && '=' !in k && '=' !in v && '&' !in k && '&' !in v
    ensures ParsePathAndQueryParams(path + "?" + (k + "=" + v)) == Some((path, map[k := v]))
  {
    var query := k + "=" + v;
    var target := path + "?" + query;
    FindAfter(path, "?", query);
    assert target[|path| + 1..] == query;
    assert target[..|path|] == path;
    SplitOnWhole(query, "&");
    QueryPairKeyValue(k, v);
    assert Collect([query], QueryPair) == map[k := v] by {
      assert [query][..0] == [];
    }
  }

  /** The query parameters are the pairs of the `&`-separated segments after the first `?`. */
  lemma QueryParamsOfSegments(pathWithQuery: string, query: string)
    requires QueryString(pathWithQuery) == Some(query)
    ensures ParsePathAndQueryParams(pathWithQuery).value.1 == Collect(SplitOn(query, "&"), QueryPair)
  {
  }

  /** A query parameter is present exactly when some segment produces its key. */
  lemma QueryParamPresent(pathWithQuery: string, query: string, k: string)
    requires QueryString(pathWithQuery) == Some(query)
    ensures var segments := SplitOn(query, "&");
      (k in ParsePathAndQueryParams(pathWithQuery).value.1 <==> exists i :: 0 <= i < |segments| && Yields(QueryPair, segments[i], k))
  {
    QueryParamsOfSegments(pathWithQuery, query);
    CollectKeys(SplitOn(query, "&"), QueryPair, k);
  }

  /** With duplicate keys, the last segment carrying the key decides its value. */
  lemma QueryParamLastWins(pathWithQuery: string, query: string, j: nat)
    requires QueryString(pathWithQuery) == Some(query)
    requires var segments := SplitOn(query, "&");
      && j < |segments| && QueryPair(segments[j]).Some?
      && forall i :: j < i < |segments| ==> !Yields(QueryPair, segments[i], QueryPair(segments[j]).value.0)
    ensures var kv := QueryPair(SplitOn(query, "&")[j]).value;
      && kv.0 in ParsePathAndQueryParams(pathWithQuery).value.1
      && ParsePathAndQueryParams(pathWithQuery).value.1[kv.0] == kv.1
  {
    QueryParamsOfSegments(pathWithQuery, query);
    CollectLastWins(SplitOn(query, "&"), QueryPair, j);
  }

  /** `parse_request_line`: exactly three whitespace-separated tokens: the method,
      the target with its query and the version, kept verbatim. */
  function ParseRequestLine(requestLine: string): (r: Result<(Method, string, map<string, string>, string), Error>)
    ensures var t := SplitWhitespace(requestLine);
      r.Success? <==> |t| == 3 && IsSupportedMethod(t[0])
    ensures |SplitWhitespace(requestLine)| != 3 ==> r == Failure(Error(InvalidData, "Invalid request line"))
    ensures var t := SplitWhitespace(requestLine);
      |t| == 3 && !IsSupportedMethod(t[0]) ==> r == Failure(Error(InvalidInput, "Unsupported method!"))
    ensures r.Success? ==> var t := SplitWhitespace(requestLine);
      && MethodText(r.value.0) == t[0]
      && (r.value.1, r.value.2) == ParsePathAndQueryParams(t[1]).value
      && r.value.3 == t[2]
  {
    var parts := SplitWhitespace(requestLine);
    if |parts| != 3 then Failure(Error(InvalidData, "Invalid request line"))
    else
      match ParseMethod(Some(parts[0]))
      case Failure(e) => Failure(e)
      case Success(m) =>
        match ParsePathAndQueryParams(parts[1])
        case None => Failure(Error(InvalidData, "Invalid path"))
        case Some((path, query)) => Success((m, path, query, parts[2]))
  }

  /** A line `METHOD TARGET VERSION` with a supported method parses into its three parts. */
  lemma RequestLineParts(m: Method, target: string, version: string)
    requires m != OPTIONS && m != HEAD
    requires target != [] && NoWhitespace(target) && version != [] && NoWhitespace(version)
    ensures var r := ParseRequestLine(MethodText(m) + " " + target + " " + version);
      && r.Success?
      && r.value.0 == m
      && (r.value.1, r.value.2) == ParsePathAndQueryParams(target).value
      && r.value.3 == version
  {
    var tokens := [MethodText(m), target, version];
    SplitWhitespaceJoin(tokens);
    assert JoinWith(tokens, " ") == MethodText(m) + " " + target + " " + version by {
      assert tokens[1..] == [target, version];
      assert tokens[1..][1..] == [version];
      assert JoinWith([target, version], " ") == target + " " + version;
    }
    MethodRoundTrip(m);
  }

  /** A request line whose method token is not supported is rejected as such. */
  lemma UnsupportedMethodLine(token: string, target: string, version: string)
    requires token != [] && NoWhitespace(token) && !IsSupportedMethod(token)
    requires target != [] && NoWhitespace(target) && version != [] && NoWhitespace(version)
    ensures ParseRequestLine(token + " " + target + " " + version) == Failure(Error(InvalidInput, "Unsupported method!"))
  {
    var tokens := [token, target, version];
    SplitWhitespaceJoin(tokens);
    assert JoinWith(tokens, " ") == token + " " + target + " " + version by {
      assert tokens[1..] == [target, version];
      assert tokens[1..][1..] == [version];
      assert JoinWith([target, version], " ") == target + " " + version;
    }
  }

  /** A parsed request. The getters `get_method` (`httpMethod`), `get_path`, `get_body` and
      `get_http_version` are the field selectors. */
  datatype Request = Request(
    httpMethod: Method,
    path: string,
    headers: map<string, string>,
    body: string,
    queryParams: map<string, string>,
    httpVersion: string)
  {
    /** `get_header`: the value stored for `key`, if any. */
    function GetHeader(key: string): (r: Option<string>)
      ensures r.Some? <==> key in headers
      ensures r.Some? ==> r.value == headers[key]
    {
      if key in headers then Some(headers[key]) else None
    }

    /** `get_query_param`: the value stored for `key`, if any. */
    function GetQueryParam(key: string): (r: Option<string>)
      ensures r.Some? <==> key in queryParams
      ensures r.Some? ==> r.value == queryParams[key]
    {
      if key in queryParams then Some(queryParams[key]) else None
    }
  }

  /** A header line split at its first `": "`, with no trimming. */
  function HeaderField(line: string): (r: Option<(string, string)>)
    ensures r.None? <==> forall j: nat :: !OccursAt(line, ": ", j)
    ensures r.Some? ==> line == r.value.0 + ": " + r.value.1
    ensures r.Some? ==> forall j: nat :: j < |r.value.0| ==> !OccursAt(line, ": ", j)
  {
    SplitOnce(line, ": ")
  }

  /** A line `key: value` whose key holds no ':' gives exactly (key, value): the
      value keeps any further ": " and any surrounding spaces. */
  lemma HeaderFieldOfLine(key: string, value: string)
    requires ':' !in key
    ensures HeaderField(key + ": " + value) == Some((key, value))
  {
    var line := key + ": " + value;
    FindAfter(key, ": ", value);
    var r := HeaderField(line).value;
    assert line[..|key|] == key && line[..|key|] == r.0;
    assert line[|key| + 2..] == value && line[|key| + 2..] == r.1;
  }

  /** The position of the first empty line: the end of the header lines. */
  function HeaderEnd(lines: seq<string>): (e: nat)
    ensures e <= |lines|
    ensures forall j :: 0 <= j < e ==> |lines[j]| > 0
    ensures e < |lines| ==> |lines[e]| == 0
  {
    if lines == [] || |lines[0]| == 0 then 0
    else 1 + HeaderEnd(lines[1..])
  }

  /** Every line followed by a newline. */
  function JoinLines(lines: seq<string>): string
  {
    if lines == [] then ""
    else JoinLines(lines[..|lines| - 1]) + lines[|lines| - 1] + "\n"
  }

  /** The headers: the fields of the lines before the first empty line, a later
      field overwriting an earlier one with the same key. */
  function HeadersOf(lines: seq<string>): map<string, string>
  {
    Collect(lines[..HeaderEnd(lines)], HeaderField)
  }

  /** Where the body starts: just past the first empty line, or at the end. */
  function BodyStart(lines: seq<string>): nat
  {
    var e := HeaderEnd(lines);
    if e < |lines| then e + 1 else |lines|
  }

  /** The body: every line after the first empty line, each followed by a newline;
      empty when there is no empty line. */
  function BodyOf(lines: seq<string>): string
  {
    JoinLines(lines[BodyStart(lines)..])
  }

  /** What `from_parts` returns for a request line and the lines after it. */
  function RequestOf(requestLine: string, headersAndBody: seq<string>): Result<Request, Error>
  {
    match ParseRequestLine(requestLine)
    case Failure(e) => Failure(e)
    case Success((m, path, query, version)) =>
      Success(Request(m, path, HeadersOf(headersAndBody), BodyOf(headersAndBody), query, version))
  }

  /** `from_parts`: parse the request line, read header lines up to the first empty
      line into a map, then append every remaining line and a newline to the body. */
  method FromParts(requestLine: string, headersAndBody: seq<string>) returns (r: Result<Request, Error>)
    ensures r == RequestOf(requestLine, headersAndBody)
  {
    var line := ParseRequestLine(requestLine);
    if line.Failure? {
      return Failure(line.error);
    }
    var (m, path, query, version) := line.value;
    var headers, next := ReadHeaders(headersAndBody);
    var body := ReadBody(headersAndBody, next);
    r := Success(Request(m, path, headers, body, query, version));
  }

  /** The `while let` loop of `from_parts`: take lines until an empty one (which is
      consumed too), inserting each line's field into the header map. Returns the
      position of the first line not consumed. */
  method ReadHeaders(lines: seq<string>) returns (headers: map<string, string>, next: nat)
    ensures headers == HeadersOf(lines)
    ensures next == BodyStart(lines)
  {
    headers := map[];
    var i := 0;
    while i < |lines|
      invariant 0 <= i <= |lines|
      invariant forall j :: 0 <= j < i ==> |lines[j]| > 0
      invariant headers == Collect(lines[..i], HeaderField)
    {
      var headerLine := lines[i];
      i := i + 1;
      if |headerLine| == 0 {
        break;
      }
      CollectStep(lines, HeaderField, i - 1);
      match SplitOnce(headerLine, ": ") {
        case Some((key, value)) => headers := headers[key := value];
        case None =>
      }
    }
    HeaderLoopDone(lines, i, headers);
    next := i;
  }

  /** The `for` loop of `from_parts`: every line from `start` on, each followed by a newline. */
  method ReadBody(lines: seq<string>, start: nat) returns (body: string)
    requires start <= |lines|
    ensures body == JoinLines(lines[start..])
  {
    body := "";
    var i := start;
    while i < |lines|
      invariant start <= i <= |lines|
      invariant body == JoinLines(lines[start..i])
    {
      JoinLinesStep(lines, start, i);
      body := body + lines[i] + "\n";
      i := i + 1;
    }
    assert lines[start..] == lines[start..i];
  }

  /** Where the header loop of `FromParts` stops: at the end of the lines, or just
      past the first empty line. */
  lemma HeaderLoopDone(lines: seq<string>, i: nat, headers: map<string, string>)
    requires i <= |lines|
    requires
      || (i == |lines| && (forall j :: 0 <= j < i ==> |lines[j]| > 0) && headers == Collect(lines[..i], HeaderField))
      || (0 < i && |lines[i - 1]| == 0 && (forall j :: 0 <= j < i - 1 ==> |lines[j]| > 0)
          && headers == Collect(lines[..i - 1], HeaderField))
    ensures headers == HeadersOf(lines) && i == BodyStart(lines)
  {
    if i == |lines| && forall j :: 0 <= j < i ==> |lines[j]| > 0 {
      HeaderEndIs(lines, i);
    } else {
      HeaderEndIs(lines, i - 1);
    }
  }

  lemma JoinLinesStep(lines: seq<string>, start: nat, i: nat)
    requires start <= i < |lines|
    ensures JoinLines(lines[start..i + 1]) == JoinLines(lines[start..i]) + lines[i] + "\n"
  {
    assert lines[start..i + 1][..i - start] == lines[start..i];
  }

  /** Header lines are only those before the first empty line; what follows it is body. */
  lemma {:induction false} HeadersStopAtBlankLine(headerLines: seq<string>, bodyLines: seq<string>)
    requires forall j :: 0 <= j < |headerLines| ==> |headerLines[j]| > 0
    ensures HeadersOf(headerLines + [""] + bodyLines) == Collect(headerLines, HeaderField)
    ensures BodyOf(headerLines + [""] + bodyLines) == JoinLines(bodyLines)
    ensures HeadersOf(headerLines) == Collect(headerLines, HeaderField)
    ensures BodyOf(headerLines) == ""
  {
    var lines := headerLines + [""] + bodyLines;
    HeaderEndIs(lines, |headerLines|);
    HeaderEndIs(headerLines, |headerLines|);
    assert lines[..|headerLines|] == headerLines;
    assert lines[|headerLines| + 1..] == bodyLines;
    assert headerLines[..|headerLines|] == headerLines;
  }

  /** `HeaderEnd` is the one position with only non-empty lines before it and an
      empty line (or the end) at it. */
  lemma {:induction false} HeaderEndIs(lines: seq<string>, n: nat)
    requires n <= |lines|
    requires forall j :: 0 <= j < n ==> |lines[j]| > 0
    requires n < |lines| ==> |lines[n]| == 0
    ensures HeaderEnd(lines) == n
  {
    if n > 0 {
      HeaderEndIs(lines[1..], n - 1);
    }
  }

  /** The body is every line in turn, each followed by a newline. */
  lemma {:induction false} JoinLinesAppend(a: seq<string>, b: seq<string>)
    ensures JoinLines(a + b) == JoinLines(a) + JoinLines(b)
    decreases |b|
  {
    if b != [] {
      var b' := b[..|b| - 1];
      assert (a + b)[..|a + b| - 1] == a + b';
      JoinLinesAppend(a, b');
    } else {
      assert a + b == a;
    }
  }

  /** The header lines are the lines before the first empty line. */
  lemma HeaderLinesAt(lines: seq<string>, i: nat)
    requires i < HeaderEnd(lines)
    ensures lines[..HeaderEnd(lines)][i] == lines[i]
  {
  }

  /** A header is present exactly when a line before the first empty line carries its
      key before its first `": "`. */
  lemma HeaderPresent(lines: seq<string>, k: string)
    ensures k in HeadersOf(lines) <==> exists i :: 0 <= i < HeaderEnd(lines) && Yields(HeaderField, lines[i], k)
  {
    var hs := lines[..HeaderEnd(lines)];
    CollectKeys(hs, HeaderField, k);
    forall i | 0 <= i < |hs| ensures hs[i] == lines[i] {
      HeaderLinesAt(lines, i);
    }
  }

  /** With duplicate header keys, the last line carrying the key decides its value. */
  lemma HeaderLastWins(lines: seq<string>, j: nat)
    requires j < HeaderEnd(lines) && HeaderField(lines[j]).Some?
    requires forall i :: j < i < HeaderEnd(lines) ==> !Yields(HeaderField, lines[i], HeaderField(lines[j]).value.0)
    ensures var kv := HeaderField(lines[j]).value;
      kv.0 in HeadersOf(lines) && HeadersOf(lines)[kv.0] == kv.1
  {
    var hs := lines[..HeaderEnd(lines)];
    forall i | 0 <= i < |hs| ensures hs[i] == lines[i] {
      HeaderLinesAt(lines, i);
    }
    CollectLastWins(hs, HeaderField, j);
  }

  /** The received text up to, not including, its first NUL character. */
  function TruncateAtNul(text: string): (t: string)
    ensures t <= text && '\0' !in t
    ensures |t| < |text| ==> text[|t|] == '\0'
  {
    FindChar(text, '\0');
    match Find(text, "\0")
    case None => text
    case Some(i) => text[..i]
  }

  /** `TruncateAtNul` is the longest NUL-free prefix: any such prefix is it. */
  lemma TruncateIs(text: string, t: string)
    requires t <= text && '\0' !in t
    requires |t| < |text| ==> text[|t|] == '\0'
    ensures TruncateAtNul(text) == t
  {
    var u := TruncateAtNul(text);
    assert forall i :: 0 <= i < |t| ==> text[i] != '\0';
    assert forall i :: 0 <= i < |u| ==> text[i] != '\0';
    assert |u| == |t|;
  }

  /** The text split into lines at every CRLF. */
  function LinesOf(buffer: string): (lines: seq<string>)
    ensures |lines| >= 1
  {
    SplitOn(TruncateAtNul(buffer), "\r\n")
  }

  /** What `from_u8_buffer` returns for an already decoded buffer. */
  function Decode(buffer: string): Result<Request, Error>
  {
    var lines := LinesOf(buffer);
    RequestOf(lines[0], lines[1..])
  }

  /** `from_u8_buffer`: cut the text at the first NUL, split it at every CRLF, then
      read the first line as the request line and the rest as headers and body. */
  method FromU8Buffer(buffer: string) returns (r: Result<Request, Error>)
    ensures r == Decode(buffer)
  {
    var requestString := buffer;
    var nul := Find(requestString, "\0");
    if nul.Some? {
      requestString := requestString[..nul.value];
    }

    var parts := SplitOn(requestString, "\r\n");
    if |parts| == 0 {
      return Failure(Error(InvalidData, "missing request line, length is zero"));
    }
    if |parts| >= 1 {
      r := FromParts(parts[0], parts[1..]);
      return;
    }
    r := Failure(Error(InvalidData, "missing request line"));
  }

  /** Decoding fails only when the request line does, with the request line's error. */
  lemma DecodeFailsOnlyOnRequestLine(buffer: string)
    ensures var line := LinesOf(buffer)[0];
      && (Decode(buffer).Failure? <==> ParseRequestLine(line).Failure?)
      && (Decode(buffer).Failure? ==> Decode(buffer).error == ParseRequestLine(line).error)
      && (Decode(buffer).Failure? ==>
            Decode(buffer).error in {Error(InvalidData, "Invalid request line"), Error(InvalidInput, "Unsupported method!")})
  {
  }

  /** Everything from the first NUL character on is ignored. */
  lemma DecodeStopsAtNul(text: string, junk: string)
    requires '\0' !in text
    ensures Decode(text + "\0" + junk) == Decode(text)
  {
    FindAfter(text, "\0", junk);
    FindAbsent(text, "\0");
    assert (text + "\0" + junk)[..|text|] == text;
  }

  /** A buffer made of CR-free lines joined with CRLF decodes as those lines. */
  lemma DecodeLines(requestLine: string, headersAndBody: seq<string>)
    requires '\r' !in requestLine && '\0' !in requestLine
    requires forall k :: 0 <= k < |headersAndBody| ==> '\r' !in headersAndBody[k] && '\0' !in headersAndBody[k]
    ensures Decode(JoinWith([requestLine] + headersAndBody, "\r\n")) == RequestOf(requestLine, headersAndBody)
  {
    var parts := [requestLine] + headersAndBody;
    var text := JoinWith(parts, "\r\n");
    assert forall k :: 0 <= k < |parts| ==> '\r' !in parts[k] && '\0' !in parts[k] by {
      forall k | 0 <= k < |parts| ensures '\r' !in parts[k] && '\0' !in parts[k] {
        if k > 0 {
          assert parts[k] == headersAndBody[k - 1];
        }
      }
    }
    NoNulInJoin(parts);
    TruncateWithoutNul(text);
    SplitOnJoin(parts, "\r\n");
    assert LinesOf(text) == parts;
    assert parts[1..] == headersAndBody;
  }

  /** Text without a NUL character is kept whole. */
  lemma TruncateWithoutNul(text: string)
    requires '\0' !in text
    ensures TruncateAtNul(text) == text
  {
    FindAbsent(text, "\0");
  }

  lemma {:induction false} NoNulInJoin(parts: seq<string>)
    requires forall k :: 0 <= k < |parts| ==> '\0' !in parts[k]
    ensures '\0' !in JoinWith(parts, "\r\n")
  {
    if |parts| > 1 {
      NoNulInJoin(parts[1..]);
    }
  }
}
