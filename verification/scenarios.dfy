/**
 * The unit tests of src/request.rs and the request/response exchange the
 * server is built for, restated as lemmas about the model.
 *
 * Expected texts are written as concatenations of their pieces
 * ("HTTP/1.1 " + "200" + " OK\r\n" + ...) rather than as one literal: each
 * piece then lines up with one piece of the formatting function, and the
 * verifier compares them piece by piece instead of character by character.
 * Facts about the characters of those pieces (no '\r', no '\0', no
 * whitespace) sit in small lemmas of their own, such as `QueryPiecesClean`,
 * so the verifier proves them apart from the larger scenario lemmas.
 */
module Scenarios {
  import opened Wrappers
  import opened Text
  import opened RequestParser
  import opened ResponseBuilder
  import opened Routing

  /** `parse_method`: "GET" is accepted; other spellings and unsupported methods are not. */
  lemma ParseMethodCases()
    ensures ParseMethod(Some("GET")) == Success(GET)
    ensures ParseMethod(Some("INVALID")).Failure? && ParseMethod(Some("get")).Failure?
    ensures ParseMethod(Some("OPTIONS")).Failure? && ParseMethod(Some("HEAD")).Failure?
    ensures ParseMethod(None).Failure?
  {
  }

  /** `parse_path_and_query_params("/path")`: the path, and no query parameters. */
  lemma PathWithoutQuery()
    ensures ParsePathAndQueryParams("/path") == Some(("/path", map[]))
  {
  }

  /** `parse_path_and_query_params("/path?key=value")`: the path and the one parameter. */
  lemma PathWithQuery()
    ensures ParsePathAndQueryParams("/path" + "?" + ("key" + "=" + "value")) == Some(("/path", map["key" := "value"]))
  {
    PathWithOneParam("/path", "key", "value");
  }

  /** The request line `GET /path HTTP/1.1` parses into its three parts. */
  lemma RequestLineValid()
    ensures ParseRequestLine("GET" + " " + "/path" + " " + "HTTP/1.1") == Success((GET, "/path", map[], "HTTP/1.1"))
  {
    RequestLineParts(GET, "/path", "HTTP/1.1");
  }

  /** The request line `INVALID /path HTTP/1.1` is rejected. */
  lemma RequestLineInvalid()
    ensures ParseRequestLine("INVALID" + " " + "/path" + " " + "HTTP/1.1").Failure?
  {
    UnsupportedMethodLine("INVALID", "/path", "HTTP/1.1");
  }

  /** The header and body lines of the `from_parts` test: one header, no body. */
  lemma HostHeaderLines()
    ensures HeadersOf(["Host" + ": " + "example.com", ""]) == map["Host" := "example.com"]
    ensures |BodyOf(["Host" + ": " + "example.com", ""])| == 0
  {
    var line := "Host" + ": " + "example.com";
    HeadersStopAtBlankLine([line], []);
    HeaderFieldOfLine("Host", "example.com");
    assert [line] + [""] + [] == [line, ""];
    assert Collect([line], HeaderField) == map["Host" := "example.com"] by {
      assert [line][..0] == [];
    }
  }

  /** `from_parts` with a `Host` header line and the empty line after it. */
  lemma FromPartsValid()
    ensures var r := RequestOf("GET" + " " + "/path" + " " + "HTTP/1.1", ["Host" + ": " + "example.com", ""]);
      && r.Success?
      && r.value.httpMethod == GET && r.value.path == "/path"
      && r.value.GetHeader("Host") == Some("example.com")
      && |r.value.body| == 0
  {
    RequestLineValid();
    HostHeaderLines();
  }

  /** `from_parts` with an unsupported method fails. */
  lemma FromPartsInvalid()
    ensures RequestOf("INVALID" + " " + "/path" + " " + "HTTP/1.1", ["Host" + ": " + "example.com", ""]).Failure?
  {
    RequestLineInvalid();
  }

  /** Character facts about the pieces of the `from_u8_buffer` test. */
  lemma QueryPiecesClean()
    ensures '?' !in "/path" && '=' !in "key" && '=' !in "hello" && '&' !in "key" && '&' !in "hello"
    ensures NoWhitespace("/path") && NoWhitespace("?") && NoWhitespace("key")
    ensures NoWhitespace("=") && NoWhitespace("hello")
  {
  }

  /** The request line of the `from_u8_buffer` test, with its query. */
  lemma QueryRequestLine()
    ensures ParseRequestLine("GET" + " " + ("/path" + "?" + ("key" + "=" + "hello")) + " " + "HTTP/1.1")
         == Success((GET, "/path", map["key" := "hello"], "HTTP/1.1"))
  {
    QueryPiecesClean();
    NoWhitespaceAppend("key", "=");
    NoWhitespaceAppend("key" + "=", "hello");
    NoWhitespaceAppend("/path", "?");
    NoWhitespaceAppend("/path" + "?", "key" + "=" + "hello");
    RequestLineParts(GET, "/path" + "?" + ("key" + "=" + "hello"), "HTTP/1.1");
    PathWithOneParam("/path", "key", "hello");
  }

  /** The lines after the request line in the `from_u8_buffer` tests. */
  lemma HostThenBlankLines()
    ensures HeadersOf(["Host" + ": " + "example.com", "", ""]) == map["Host" := "example.com"]
    ensures BodyOf(["Host" + ": " + "example.com", "", ""]) == "\n"
  {
    var host := "Host" + ": " + "example.com";
    HeadersStopAtBlankLine([host], [""]);
    assert [host] + [""] + [""] == [host, "", ""];
    HeaderFieldOfLine("Host", "example.com");
    assert Collect([host], HeaderField) == map["Host" := "example.com"] by {
      assert [host][..0] == [];
    }
    assert JoinLines([""]) == "\n" by {
      assert [""][..0] == [];
    }
  }

  /** The lines of the `from_u8_buffer` tests hold no CR and no NUL. */
  lemma QueryLineClean()
    ensures var line := "GET" + " " + ("/path" + "?" + ("key" + "=" + "hello")) + " " + "HTTP/1.1";
      '\r' !in line && '\0' !in line
  {
  }

  lemma InvalidLineClean()
    ensures var line := "INVALID" + " " + "/path" + " " + "HTTP/1.1";
      '\r' !in line && '\0' !in line
  {
  }

  lemma HostLineClean()
    ensures var line := "Host" + ": " + "example.com";
      '\r' !in line && '\0' !in line
  {
  }

  /** A buffer of a request line, one more line and two empty lines decodes line by line. */
  lemma DecodeFourLines(requestLine: string, line: string)
    requires '\r' !in requestLine && '\0' !in requestLine
    requires '\r' !in line && '\0' !in line
    ensures Decode(JoinWith([requestLine, line, "", ""], "\r\n")) == RequestOf(requestLine, [line, "", ""])
  {
    DecodeLines(requestLine, [line, "", ""]);
    assert [requestLine] + [line, "", ""] == [requestLine, line, "", ""];
  }

  /**
   * `from_u8_buffer` on `GET /path?key=hello HTTP/1.1`, a `Host` line and an
   * empty line: the method, the path, the header, the query parameter, and a
   * body of one newline (the empty last line).
   */
  lemma FromBufferValid()
    ensures var r := Decode(JoinWith([
          "GET" + " " + ("/path" + "?" + ("key" + "=" + "hello")) + " " + "HTTP/1.1",
          "Host" + ": " + "example.com", "", ""], "\r\n"));
      && r.Success?
      && r.value.httpMethod == GET && r.value.path == "/path"
      && r.value.GetHeader("Host") == Some("example.com")
      && r.value.GetQueryParam("key") == Some("hello")
      && r.value.body == "\n"
  {
    var requestLine := "GET" + " " + ("/path" + "?" + ("key" + "=" + "hello")) + " " + "HTTP/1.1";
    var host := "Host" + ": " + "example.com";
    QueryLineClean();
    HostLineClean();
    DecodeFourLines(requestLine, host);
    QueryRequestLine();
    HostThenBlankLines();
  }

  /** `from_u8_buffer` with an unsupported method fails. */
  lemma FromBufferInvalid()
    ensures Decode(JoinWith(["INVALID" + " " + "/path" + " " + "HTTP/1.1", "Host" + ": " + "example.com", "", ""], "\r\n")).Failure?
  {
    var requestLine := "INVALID" + " " + "/path" + " " + "HTTP/1.1";
    var host := "Host" + ": " + "example.com";
    InvalidLineClean();
    HostLineClean();
    DecodeFourLines(requestLine, host);
    RequestLineInvalid();
  }

  // ---------------------------------------------------------------------------
  // A hello-world server: one route, one request
  // ---------------------------------------------------------------------------

  /** The bytes a client sends: `GET <path> HTTP/1.1`, a `Host` line and an empty line. */
  function GetBytes(path: string): string
  {
    JoinWith(["GET" + " " + path + " " + "HTTP/1.1", "Host" + ": " + "example.com", "", ""], "\r\n")
  }

  /** The request the server decodes from those bytes. */
  function GetRequest(path: string): Request
  {
    Request(GET, path, map["Host" := "example.com"], "\n", map[], "HTTP/1.1")
  }

  lemma GetLineClean()
    ensures '\r' !in "GET" + " " && '\0' !in "GET" + " "
    ensures '\r' !in " " + "HTTP/1.1" && '\0' !in " " + "HTTP/1.1"
    ensures NoWhitespace("HTTP/1.1")
  {
  }

  /** Such a request for a short plain path arrives whole and decodes to `GetRequest(path)`. */
  lemma GetDecodes(path: string)
    requires path != [] && NoWhitespace(path) && |path| < 900
    requires '?' !in path && '\r' !in path && '\0' !in path
    ensures |GetBytes(path)| < BufferSize
    ensures Decode(GetBytes(path)) == Success(GetRequest(path))
  {
    var requestLine := "GET" + " " + path + " " + "HTTP/1.1";
    var host := "Host" + ": " + "example.com";
    GetLineClean();
    JoinWithCons(requestLine, [host, "", ""], "\r\n");
    assert [requestLine] + [host, "", ""] == [requestLine, host, "", ""];
    JoinWithCons(host, ["", ""], "\r\n");
    assert [host] + ["", ""] == [host, "", ""];
    JoinWithCons("", [""], "\r\n");
    assert [""] + [""] == ["", ""];
    assert '\r' !in requestLine && '\0' !in requestLine by {
      CharNotInAppend('\r', "GET" + " ", path);
      CharNotInAppend('\r', "GET" + " " + path, " " + "HTTP/1.1");
      CharNotInAppend('\0', "GET" + " ", path);
      CharNotInAppend('\0', "GET" + " " + path, " " + "HTTP/1.1");
      AppendAssoc("GET" + " " + path, " ", "HTTP/1.1");
    }
    HostLineClean();
    DecodeFourLines(requestLine, host);
    RequestLineParts(GET, path, "HTTP/1.1");
    HostThenBlankLines();
  }

  /** The hello-world reply, spelled out piece by piece. */
  lemma HelloText()
    ensures FormatReply(200, "Hello, world!")
         == "HTTP/1.1 " + "200" + " OK\r\n" + "Content-Length: " + "13" + "\r\n\r\n" + "Hello, world!" + "\n\n"
  {
    FormatReplySpelled(200, "Hello, world!");
    assert Decimal(200) == "200";
    AsciiUtf8Length("Hello, world!");
    assert Decimal(13) == "13";
  }

  /**
   * Any route table whose handler for `GET /hello` answers this request with
   * status 200 and "Hello, world!" writes that reply.
   */
  lemma HelloReply(routes: map<(Method, string), Handler>)
    requires (GET, "/hello") in routes
    requires routes[(GET, "/hello")](GetRequest("/hello")) == Reply(200, "Hello, world!")
    ensures Respond(routes, ReadBuffer(GetBytes("/hello"))) == Success(FormatReply(200, "Hello, world!"))
  {
    assert NoWhitespace("/hello");
    GetDecodes("/hello");
    ArrivesWhole(routes, GetBytes("/hello"));
  }

  /** A request for a path with no route gets the "Not Found" reply. */
  lemma MissReply(routes: map<(Method, string), Handler>)
    requires (GET, "/missing") !in routes
    ensures Respond(routes, ReadBuffer(GetBytes("/missing")))
         == Success("HTTP/1.1 " + "404" + " OK\r\n" + "Content-Length: " + "9" + "\r\n\r\n" + "Not Found" + "\n\n")
  {
    assert NoWhitespace("/missing");
    GetDecodes("/missing");
    ArrivesWhole(routes, GetBytes("/missing"));
    MissWritesNotFound(routes, GetBytes("/missing"));
  }

  /** A server with one route, handling one connection that sends `GET /hello`. */
  method HelloWorld() returns (written: Result<string, Error>)
    ensures written == Success("HTTP/1.1 " + "200" + " OK\r\n" + "Content-Length: " + "13" + "\r\n\r\n" + "Hello, world!" + "\n\n")
  {
    var router := new Router();
    router.AddRoute(GET, "/hello", (request: Request) => Reply(200, "Hello, world!"));
    written := router.HandleIncomingStream(GetBytes("/hello"));
    HelloReply(router.routes);
    HelloText();
  }

  /** The same server answers `GET /missing` with "Not Found". */
  method HelloWorldMiss() returns (written: Result<string, Error>)
    ensures written == Success("HTTP/1.1 " + "404" + " OK\r\n" + "Content-Length: " + "9" + "\r\n\r\n" + "Not Found" + "\n\n")
  {
    var router := new Router();
    router.AddRoute(GET, "/hello", (request: Request) => Reply(200, "Hello, world!"));
    written := router.HandleIncomingStream(GetBytes("/missing"));
    MissReply(router.routes);
  }
}
