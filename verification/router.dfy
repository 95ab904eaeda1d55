/**
 * The route table and the dispatch of src/router.rs: a map from a method and
 * an exact path to a handler, and what one connection's handling writes back
 * for the bytes its single read delivered.
 */
module Routing {
  import opened Wrappers
  import opened Text
  import opened RequestParser
  import opened ResponseBuilder

  /** Rust's `u8`. */
  type u8 = x: int | 0 <= x < 0x100

  /** The `Response` a handler returns: this file's own type, with a `u8` status. */
  datatype Reply = Reply(status: u8, content: string)

  /** A route handler: any function of the parsed request. */
  type Handler = Request -> Reply

  /** Size of the zero-initialised buffer the single read goes into. */
  const BufferSize: nat := 1024

  /**
   * The buffer after the read: the first bytes that arrived (at most
   * `BufferSize` of them) and then the zeros it was initialised with.
   */
  function ReadBuffer(arrived: string): (buffer: string)
    ensures |buffer| == BufferSize
    ensures forall i :: 0 <= i < BufferSize ==> buffer[i] == if i < |arrived| then arrived[i] else '\0'
  {
    var n := if |arrived| < BufferSize then |arrived| else BufferSize;
    arrived[..n] + seq(BufferSize - n, _ => '\0')
  }

  /**
   * The text written for one reply. The reason phrase is always "OK"; the
   * length line is the same `Content-Length` trailer the response builder
   * writes.
   */
  function FormatReply(status: nat, content: string): (reply: string)
    ensures "HTTP/1.1 " <= reply
    ensures |ContentTrailer(content)| < |reply|
    ensures reply[|reply| - |ContentTrailer(content)|..] == ContentTrailer(content)
  {
    var trailer := ContentTrailer(content);
    var statusLine := "HTTP/1.1 " + Decimal(status) + " OK\r\n";
    AppendParts("HTTP/1.1 ", Decimal(status) + " OK\r\n");
    AppendParts(statusLine, trailer);
    AppendAssoc("HTTP/1.1 ", Decimal(status), " OK\r\n");
    statusLine + trailer
  }

  /** The text written for a request that decoded: the handler's reply or "Not Found". */
  function Dispatch(routes: map<(Method, string), Handler>, request: Request): string
  {
    var key := (request.httpMethod, request.path);
    if key in routes then
      var reply := routes[key](request);
      FormatReply(reply.status, reply.content)
    else
      FormatReply(404, "Not Found")
  }

  /**
   * What handling a connection does with the buffer: the text it writes, or
   * the decoding error it returns before looking up a route or writing.
   */
  function Respond(routes: map<(Method, string), Handler>, buffer: string): Result<string, Error>
  {
    match Decode(buffer)
    case Failure(e) => Failure(e)
    case Success(request) => Success(Dispatch(routes, request))
  }

  class Router {
    var routes: map<(Method, string), Handler>

    /** `Router::new`: no routes. */
    constructor ()
      ensures routes == map[]
    {
      routes := map[];
    }

    /**
     * `add_route`: the handler is stored under the method and the exact path;
     * an earlier handler for the same pair is replaced.
     */
    method AddRoute(m: Method, path: string, handler: Handler)
      modifies this
      ensures routes == old(routes)[(m, path) := handler]
    {
      routes := routes[(m, path) := handler];
    }

    /**
     * `handle_incoming_stream` with the socket taken out: `arrived` is what
     * the single read delivered, and the result is the text written to the
     * stream (`Success`) or the error returned without writing (`Failure`).
     */
    method HandleIncomingStream(arrived: string) returns (written: Result<string, Error>)
      ensures written == Respond(routes, ReadBuffer(arrived))
      ensures written.Failure? <==> Decode(ReadBuffer(arrived)).Failure?
      ensures written.Failure? ==> written.error == Decode(ReadBuffer(arrived)).error
    {
      var buffer := new char[BufferSize](_ => '\0');
      var n := if |arrived| < BufferSize then |arrived| else BufferSize;
      forall i | 0 <= i < n {
        buffer[i] := arrived[i];
      }
      assert buffer[..] == ReadBuffer(arrived);
      var decoded := FromU8Buffer(buffer[..]);
      match decoded {
        case Failure(e) =>
          written := Failure(e);
        case Success(request) =>
          var key := (request.httpMethod, request.path);
          if key in routes {
            var reply := routes[key](request);
            written := Success(FormatReply(reply.status, reply.content));
          } else {
            written := Success(FormatReply(404, "Not Found"));
          }
      }
    }
  }

  // ---------------------------------------------------------------------------
  // Properties of dispatch
  // ---------------------------------------------------------------------------

  /** A reply is the status line, the length line, a blank line, the content and "\n\n". */
  lemma FormatReplySpelled(status: nat, content: string)
    ensures FormatReply(status, content)
         == "HTTP/1.1 " + Decimal(status) + " OK\r\n" + "Content-Length: " + Decimal(Utf8Length(content))
            + "\r\n\r\n" + content + "\n\n"
  {
    var digits := Decimal(status);
    var length := Decimal(Utf8Length(content));
    var tail := "\r\n\r\n" + content + "\n\n";
    var q4 := "HTTP/1.1 " + digits + " OK\r\n" + "Content-Length: ";
    AppendAssoc(q4 + length + "\r\n\r\n", content, "\n\n");
    AppendAssoc(q4 + length, "\r\n\r\n", content);
    AppendAssoc(q4 + length, "\r\n\r\n" + content, "\n\n");
    AppendAssoc(q4, length, tail);
    AppendAssoc("HTTP/1.1 " + digits + " OK\r\n", "Content-Length: ", length + tail);
    AppendAssoc("HTTP/1.1 " + digits, " OK\r\n", "Content-Length: " + (length + tail));
    AppendAssoc("HTTP/1.1 ", digits, " OK\r\n" + ("Content-Length: " + (length + tail)));
  }

  /** The "Not Found" reply, spelled out piece by piece. */
  lemma NotFoundText()
    ensures FormatReply(404, "Not Found")
         == "HTTP/1.1 " + "404" + " OK\r\n" + "Content-Length: " + "9" + "\r\n\r\n" + "Not Found" + "\n\n"
  {
    FormatReplySpelled(404, "Not Found");
    assert Decimal(404) == "404";
    AsciiUtf8Length("Not Found");
    assert Decimal(9) == "9";
  }

  /** A request no route matches is answered with the fixed "Not Found" text. */
  lemma MissWritesNotFound(routes: map<(Method, string), Handler>, buffer: string)
    requires Decode(buffer).Success?
    requires (Decode(buffer).value.httpMethod, Decode(buffer).value.path) !in routes
    ensures Respond(routes, buffer)
         == Success("HTTP/1.1 " + "404" + " OK\r\n" + "Content-Length: " + "9" + "\r\n\r\n" + "Not Found" + "\n\n")
  {
    NotFoundText();
  }

  /**
   * Lookup is by the exact pair: two route tables that agree on the entry for
   * the request's method and path write the same text, whatever else they hold.
   */
  lemma ExactKeyLookup(routes1: map<(Method, string), Handler>, routes2: map<(Method, string), Handler>, buffer: string)
    requires Decode(buffer).Success?
    requires var key := (Decode(buffer).value.httpMethod, Decode(buffer).value.path);
      && (key in routes1 <==> key in routes2)
      && (key in routes1 ==> routes1[key](Decode(buffer).value) == routes2[key](Decode(buffer).value))
    ensures Respond(routes1, buffer) == Respond(routes2, buffer)
  {
  }

  /**
   * The path used for lookup never holds a '?': the query is split off
   * before, so a route registered with a '?' in its path is never reached.
   */
  lemma LookupPathHasNoQuery(buffer: string)
    requires Decode(buffer).Success?
    ensures '?' !in Decode(buffer).value.path
  {
  }

  /** A status below 1000 is written with at most three digits. */
  lemma ShortDecimal(n: nat)
    requires n < 1000
    ensures |Decimal(n)| <= 3
  {
    if n >= 10 {
      assert |Decimal(n / 10)| <= 2;
    }
  }

  /**
   * A client reading a reply finds "HTTP/1.1 ", at most three digits that
   * spell the handler's `u8` status, the fixed phrase " OK" and the
   * `Content-Length` trailer.
   */
  lemma ReplyReadsBack(status: u8, content: string)
    ensures var text := FormatReply(status, content);
      var n := DigitRun(text[9..]);
      && text[..9] == "HTTP/1.1 "
      && 1 <= n <= 3
      && DecimalValue(text[9..][..n]) == status
      && text[9 + n..] == " OK\r\n" + ContentTrailer(content)
  {
    var digits := Decimal(status);
    AppendAssoc("HTTP/1.1 " + digits, " OK\r\n", ContentTrailer(content));
    AppendAssoc("HTTP/1.1 ", digits, " OK\r\n" + ContentTrailer(content));
    ReadDecimal("HTTP/1.1 ", status, " OK\r\n" + ContentTrailer(content));
    ShortDecimal(status);
  }

  /**
   * The parser sees only what arrived before the first zero byte: the padding
   * of the buffer never reaches it.
   */
  lemma ParserSeesArrivedBytes(routes: map<(Method, string), Handler>, arrived: string)
    ensures var n := if |arrived| < BufferSize then |arrived| else BufferSize;
      && TruncateAtNul(ReadBuffer(arrived)) == TruncateAtNul(arrived[..n])
      && Respond(routes, ReadBuffer(arrived)) == Respond(routes, arrived[..n])
  {
    var n := if |arrived| < BufferSize then |arrived| else BufferSize;
    var buffer := ReadBuffer(arrived);
    var t := TruncateAtNul(arrived[..n]);
    assert buffer[..n] == arrived[..n];
    TruncateIs(buffer, t);
  }

  /** A request shorter than the buffer is parsed exactly as it was sent. */
  lemma ArrivesWhole(routes: map<(Method, string), Handler>, arrived: string)
    requires |arrived| < BufferSize
    ensures Respond(routes, ReadBuffer(arrived)) == Respond(routes, arrived)
  {
    ParserSeesArrivedBytes(routes, arrived);
    assert arrived[..|arrived|] == arrived;
  }
}
