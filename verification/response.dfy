/**
 * The response record of src/response.rs and its serialisation: a status line
 * with the reason phrase, one line per header, a computed `Content-Length`,
 * the content and a trailing blank line.
 */
module ResponseBuilder {
  import opened Text

  /** Rust's `u16`. */
  type u16 = x: int | 0 <= x < 0x1_0000

  /** The codes `status_text` has a reason phrase for. */
  predicate IsKnownStatus(status: int)
  {
    status == 100 || status == 101 || status == 102 || status == 103 || status == 200 || status == 201 || status == 202 || status == 203
    || status == 204 || status == 205 || status == 206 || status == 207 || status == 208 || status == 226 || status == 300 || status == 301
    || status == 302 || status == 303 || status == 304 || status == 305 || status == 307 || status == 308 || status == 400 || status == 401
    || status == 402 || status == 403 || status == 404 || status == 405 || status == 406 || status == 407 || status == 408 || status == 409
    || status == 410 || status == 411 || status == 412 || status == 413 || status == 414 || status == 415 || status == 416 || status == 417
    || status == 418 || status == 421 || status == 422 || status == 423 || status == 424 || status == 425 || status == 426 || status == 428
    || status == 429 || status == 431 || status == 451 || status == 500 || status == 501 || status == 502 || status == 503 || status == 504
    || status == 505 || status == 506 || status == 507 || status == 508 || status == 510 || status == 511
  }

  /**
   * `status_text`: the reason phrase for a status code. "Unknown Status" is
   * the phrase of exactly the codes the table does not list.
   */
  function StatusText(status: u16): (phrase: string)
    ensures phrase == "Unknown Status" <==> !IsKnownStatus(status)
  {
    PhraseTableFallback(status);
    PhraseTable(status)
  }

  /** The match of `status_text`, case by case. */
  function PhraseTable(status: u16): string
  {
    match status
    case 100 => "Continue"
    case 101 => "Switching Protocols"
    case 102 => "Processing"
    case 103 => "Early Hints"
    case 200 => "OK"
    case 201 => "Created"
    case 202 => "Accepted"
    case 203 => "Non-Authoritative Information"
    case 204 => "No Content"
    case 205 => "Reset Content"
    case 206 => "Partial Content"
    case 207 => "Multi-Status"
    case 208 => "Already Reported"
    case 226 => "IM Used"
    case 300 => "Multiple Choices"
    case 301 => "Moved Permanently"
    case 302 => "Found"
    case 303 => "See Other"
    case 304 => "Not Modified"
    case 305 => "Use Proxy"
    case 307 => "Temporary Redirect"
    case 308 => "Permanent Redirect"
    case 400 => "Bad Request"
    case 401 => "Unauthorized"
    case 402 => "Payment Required"
    case 403 => "Forbidden"
    case 404 => "Not Found"
    case 405 => "Method Not Allowed"
    case 406 => "Not Acceptable"
    case 407 => "Proxy Authentication Required"
    case 408 => "Request Timeout"
    case 409 => "Conflict"
    case 410 => "Gone"
    case 411 => "Length Required"
    case 412 => "Precondition Failed"
    case 413 => "Payload Too Large"
    case 414 => "URI Too Long"
    case 415 => "Unsupported Media Type"
    case 416 => "Range Not Satisfiable"
    case 417 => "Expectation Failed"
    case 418 => "I'm a Teapot"
    case 421 => "Misdirected Request"
    case 422 => "Unprocessable Entity"
    case 423 => "Locked"
    case 424 => "Failed Dependency"
    case 425 => "Too Early"
    case 426 => "Upgrade Required"
    case 428 => "Precondition Required"
    case 429 => "Too Many Requests"
    case 431 => "Request Header Fields Too Large"
    case 451 => "Unavailable For Legal Reasons"
    case 500 => "Internal Server Error"
    case 501 => "Not Implemented"
    case 502 => "Bad Gateway"
    case 503 => "Service Unavailable"
    case 504 => "Gateway Timeout"
    case 505 => "HTTP Version Not Supported"
    case 506 => "Variant Also Negotiates"
    case 507 => "Insufficient Storage"
    case 508 => "Loop Detected"
    case 510 => "Not Extended"
    case 511 => "Network Authentication Required"
    case _ => "Unknown Status"
  }

  /** The fallback phrase is used exactly for the codes outside the table. */
  lemma PhraseTableFallback(status: u16)
    ensures PhraseTable(status) == "Unknown Status" <==> !IsKnownStatus(status)
  {
    if !IsKnownStatus(status) {
      UnknownStatusPhrase(status);
    } else if status < 300 {
      InformationalAndSuccessPhrases(status);
    } else if status < 400 {
      RedirectionPhrases(status);
    } else if status < 500 {
      ClientErrorPhrases(status);
    } else {
      ServerErrorPhrases(status);
    }
  }

  lemma UnknownStatusPhrase(status: u16)
    requires !IsKnownStatus(status)
    ensures PhraseTable(status) == "Unknown Status"
  {
  }

  lemma InformationalAndSuccessPhrases(status: u16)
    requires IsKnownStatus(status) && status < 300
    ensures PhraseTable(status) != "Unknown Status"
  {
  }

  lemma RedirectionPhrases(status: u16)
    requires IsKnownStatus(status) && 300 <= status < 400
    ensures PhraseTable(status) != "Unknown Status"
  {
  }

  lemma ClientErrorPhrases(status: u16)
    requires IsKnownStatus(status) && 400 <= status < 500
    ensures PhraseTable(status) != "Unknown Status"
  {
  }

  lemma ServerErrorPhrases(status: u16)
    requires IsKnownStatus(status) && 500 <= status
    ensures PhraseTable(status) != "Unknown Status"
  {
  }

  /** `status_text` on some of the values the table lists. */
  lemma KnownStatusExamples()
    ensures StatusText(200) == "OK" && StatusText(404) == "Not Found"
    ensures StatusText(418) == "I'm a Teapot"
  {
  }

  /** `status_text` on values the table does not list. */
  lemma UnknownStatusExamples()
    ensures StatusText(0) == "Unknown Status" && StatusText(599) == "Unknown Status"
  {
  }

  // ---------------------------------------------------------------------------
  // The text `build_http_response` produces
  // ---------------------------------------------------------------------------

  /** The status line: version, decimal code, reason phrase. */
  function StatusLine(status: u16): string
  {
    "HTTP/1.1 " + (Decimal(status) + (" " + StatusText(status) + "\r\n"))
  }

  /** One header line. */
  function HeaderLine(key: string, value: string): string
  {
    key + ": " + value + "\r\n"
  }

  /** `order` lists every key of `headers` exactly once. */
  ghost predicate IsOrderOf(order: seq<string>, headers: map<string, string>)
  {
    && (forall i, j :: 0 <= i < j < |order| ==> order[i] != order[j])
    && (forall i :: 0 <= i < |order| ==> order[i] in headers)
    && (forall k :: k in headers ==> k in order)
  }

  /** The header lines of `headers`, emitted in the order `order` visits the keys. */
  function HeaderBlock(headers: map<string, string>, order: seq<string>): string
    requires forall i :: 0 <= i < |order| ==> order[i] in headers
  {
    if |order| == 0 then ""
    else
      var key := order[|order| - 1];
      HeaderBlock(headers, order[..|order| - 1]) + HeaderLine(key, headers[key])
  }

  /** Visiting one more key appends that key's line. */
  lemma HeaderBlockSnoc(headers: map<string, string>, order: seq<string>, key: string)
    requires forall i :: 0 <= i < |order| ==> order[i] in headers
    requires key in headers
    ensures HeaderBlock(headers, order + [key]) == HeaderBlock(headers, order) + HeaderLine(key, headers[key])
  {
    assert (order + [key])[..|order|] == order;
  }

  /** What follows the header lines: the computed length and the content. */
  function ContentTrailer(content: string): string
  {
    "Content-Length: " + (Decimal(Utf8Length(content)) + ("\r\n\r\n" + content + "\n\n"))
  }

  /** The whole response text for one iteration order of the header map. */
  function HttpText(status: u16, headers: map<string, string>, order: seq<string>, content: string): string
    requires forall i :: 0 <= i < |order| ==> order[i] in headers
  {
    StatusLine(status) + HeaderBlock(headers, order) + ContentTrailer(content)
  }

  /** Distinct keys: the listing is as long as the set it lists. */
  lemma {:induction false} DistinctCardinality(order: seq<string>)
    requires forall i, j :: 0 <= i < j < |order| ==> order[i] != order[j]
    ensures |(set k | k in order)| == |order|
  {
    if |order| > 0 {
      var init := order[..|order| - 1];
      var last := order[|order| - 1];
      DistinctCardinality(init);
      assert last !in init by {
        assert forall i :: 0 <= i < |init| ==> init[i] == order[i];
      }
      assert (set k | k in order) == (set k | k in init) + {last};
    }
  }

  /** One header line per map entry: the iteration visits `|headers|` keys. */
  lemma HeaderLinesOnePerEntry(headers: map<string, string>, order: seq<string>)
    requires IsOrderOf(order, headers)
    ensures |order| == |headers|
  {
    DistinctCardinality(order);
    assert (set k | k in order) == headers.Keys;
  }

  /** Every entry of the map has its `key: value` line in the header block. */
  lemma {:induction false} HeaderLinePresent(headers: map<string, string>, order: seq<string>, key: string)
    requires forall i :: 0 <= i < |order| ==> order[i] in headers
    requires key in order && key in headers
    ensures exists i: nat :: OccursAt(HeaderBlock(headers, order), HeaderLine(key, headers[key]), i)
  {
    var init := order[..|order| - 1];
    var last := order[|order| - 1];
    var block := HeaderBlock(headers, init);
    var line := HeaderLine(key, headers[key]);
    assert HeaderBlock(headers, order) == block + HeaderLine(last, headers[last]);
    if last == key {
      assert OccursAt(HeaderBlock(headers, order), line, |block|);
    } else {
      assert key in init by {
        var j :| 0 <= j < |order| && order[j] == key;
        assert init[j] == key;
      }
      HeaderLinePresent(headers, init, key);
      var i: nat :| OccursAt(block, line, i);
      assert HeaderBlock(headers, order)[i..i + |line|] == block[i..i + |line|];
      assert OccursAt(HeaderBlock(headers, order), line, i);
    }
  }

  /**
   * A client reading the response finds "HTTP/1.1 ", then a run of digits
   * that spells the status code, then a space and the reason phrase.
   */
  lemma StatusReadsBack(status: u16, headers: map<string, string>, order: seq<string>, content: string)
    requires forall i :: 0 <= i < |order| ==> order[i] in headers
    ensures var text := HttpText(status, headers, order, content);
      var n := DigitRun(text[9..]);
      && text[..9] == "HTTP/1.1 "
      && DecimalValue(text[9..][..n]) == status
      && text[9 + n..] == " " + StatusText(status) + "\r\n" + (HeaderBlock(headers, order) + ContentTrailer(content))
  {
    var digits := Decimal(status);
    var phrase := " " + StatusText(status) + "\r\n";
    var after := HeaderBlock(headers, order) + ContentTrailer(content);
    AppendAssoc(StatusLine(status), HeaderBlock(headers, order), ContentTrailer(content));
    AppendAssoc("HTTP/1.1 ", digits + phrase, after);
    AppendAssoc(digits, phrase, after);
    ReadDecimal("HTTP/1.1 ", status, phrase + after);
  }

  /**
   * Whatever precedes the trailer (in `HttpText`, the status line and the
   * header block), the response ends with a `Content-Length` line whose
   * digits spell the UTF-8 length of the content, a blank line, the content
   * and "\n\n".
   */
  lemma ContentLengthReadsBack(head: string, content: string)
    ensures var text := head + ContentTrailer(content);
      var start := |head| + 16;
      var n := DigitRun(text[start..]);
      && text[..start] == head + "Content-Length: "
      && DecimalValue(text[start..][..n]) == Utf8Length(content)
      && text[start + n..] == "\r\n\r\n" + content + "\n\n"
  {
    var field := "Content-Length: ";
    var digits := Decimal(Utf8Length(content));
    var rest := "\r\n\r\n" + content + "\n\n";
    assert |field| == 16;
    assert ContentTrailer(content) == field + (digits + rest);
    AppendAssoc(head, field, digits + rest);
    ReadDecimal(head + field, Utf8Length(content), rest);
  }

  /** Content "hi" is announced with length 2. */
  lemma ContentTrailerExample()
    ensures ContentTrailer("hi") == "Content-Length: 2\r\n\r\nhi\n\n"
  {
    AsciiUtf8Length("hi");
  }

  /**
   * A "Content-Length" entry set by the caller is written as a header line
   * and the computed length line follows it: the field can appear twice.
   */
  lemma ContentLengthMayRepeat(status: u16, headers: map<string, string>, order: seq<string>, content: string)
    requires IsOrderOf(order, headers) && "Content-Length" in headers
    ensures var text := HttpText(status, headers, order, content);
      var computed := |StatusLine(status) + HeaderBlock(headers, order)|;
      && OccursAt(text, "Content-Length: ", computed)
      && exists i: nat :: i < computed && OccursAt(text, HeaderLine("Content-Length", headers["Content-Length"]), i)
  {
    var line := HeaderLine("Content-Length", headers["Content-Length"]);
    HeaderLinePresent(headers, order, "Content-Length");
    var i: nat :| OccursAt(HeaderBlock(headers, order), line, i);
    LineBeforeTrailer(StatusLine(status), HeaderBlock(headers, order), content, line, i);
  }

  lemma LineBeforeTrailer(statusLine: string, block: string, content: string, line: string, i: nat)
    requires OccursAt(block, line, i)
    ensures var text := statusLine + block + ContentTrailer(content);
      && OccursAt(text, "Content-Length: ", |statusLine + block|)
      && OccursAt(text, line, |statusLine| + i)
  {
    var trailer := ContentTrailer(content);
    var text := statusLine + block + trailer;
    assert trailer[..16] == "Content-Length: ";
    assert text[|statusLine + block|..][..16] == trailer[..16];
    assert (statusLine + block)[|statusLine| + i..|statusLine| + i + |line|] == block[i..i + |line|];
    assert text[|statusLine| + i..|statusLine| + i + |line|] == block[i..i + |line|];
  }

  /**
   * Whatever order the header map is visited in, the response starts with the
   * status line, ends with the length trailer, and holds every entry's line.
   */
  lemma HttpTextShape(status: u16, headers: map<string, string>, order: seq<string>, content: string)
    requires IsOrderOf(order, headers)
    ensures var text := HttpText(status, headers, order, content);
      && StatusLine(status) <= text
      && |ContentTrailer(content)| <= |text|
      && text[|text| - |ContentTrailer(content)|..] == ContentTrailer(content)
      && forall key :: key in headers ==> exists i: nat :: OccursAt(text, HeaderLine(key, headers[key]), i)
  {
    var statusLine := StatusLine(status);
    var block := HeaderBlock(headers, order);
    var trailer := ContentTrailer(content);
    var text := statusLine + block + trailer;
    assert text[..|statusLine|] == statusLine;
    assert text[|text| - |trailer|..] == trailer;
    forall key | key in headers
      ensures exists i: nat :: OccursAt(text, HeaderLine(key, headers[key]), i)
    {
      var line := HeaderLine(key, headers[key]);
      HeaderLinePresent(headers, order, key);
      var i: nat :| OccursAt(block, line, i);
      LineBeforeTrailer(statusLine, block, content, line, i);
    }
  }

  // ---------------------------------------------------------------------------
  // The response object
  // ---------------------------------------------------------------------------

  class Response {
    var status: u16
    var content: string
    var headers: map<string, string>

    /** `Response::new`. */
    constructor ()
      ensures status == 0 && |content| == 0 && headers == map[]
    {
      status := 0;
      content := "";
      headers := map[];
    }

    /** `Response::success`: a fresh response whose status is then set to 200. */
    constructor Success()
      ensures status == 200 && |content| == 0 && headers == map[]
    {
      status := 0;
      content := "";
      headers := map[];
      new;
      SetStatus(200);
    }

    /** `Response::default_response`. */
    constructor Default()
      ensures status == 404 && content == "404 - Not Found"
      ensures headers == map["Content-Type" := "text/plain"]
    {
      status := 404;
      headers := map["Content-Type" := "text/plain"];
      content := "404 - Not Found";
    }

    method SetStatus(status: u16)
      modifies this
      ensures this.status == status
      ensures content == old(content) && headers == old(headers)
    {
      this.status := status;
    }

    method SetContent(content: string)
      modifies this
      ensures this.content == content
      ensures status == old(status) && headers == old(headers)
    {
      this.content := content;
    }

    method SetHeaders(headers: map<string, string>)
      modifies this
      ensures this.headers == headers
      ensures status == old(status) && content == old(content)
    {
      this.headers := headers;
    }

    /** `set_header`: insert into the map, replacing any value already under `key`. */
    method SetHeader(key: string, value: string)
      modifies this
      ensures headers == old(headers)[key := value]
      ensures status == old(status) && content == old(content)
    {
      headers := headers[key := value];
    }

    /**
     * `build_http_response`. The map's iteration order is not determined by
     * the source; `order` is the order this run visited the keys in.
     */
    method BuildHttpResponse() returns (text: string, ghost order: seq<string>)
      ensures IsOrderOf(order, headers)
      ensures text == HttpText(status, headers, order, content)
      ensures StatusLine(status) <= text
      ensures |ContentTrailer(content)| <= |text| && text[|text| - |ContentTrailer(content)|..] == ContentTrailer(content)
      ensures forall key :: key in headers ==> exists i: nat :: OccursAt(text, HeaderLine(key, headers[key]), i)
    {
      text := StatusLine(status);
      ghost var head := text;
      var remaining := headers.Keys;
      order := [];
      while remaining != {}
        invariant remaining <= headers.Keys
        invariant forall i :: 0 <= i < |order| ==> order[i] in headers && order[i] !in remaining
        invariant forall i, j :: 0 <= i < j < |order| ==> order[i] != order[j]
        invariant forall k :: k in headers ==> k in remaining || k in order
        invariant text == head + HeaderBlock(headers, order)
        decreases remaining
      {
        var key :| key in remaining;
        HeaderBlockSnoc(headers, order, key);
        AppendAssoc(head, HeaderBlock(headers, order), HeaderLine(key, headers[key]));
        text := text + HeaderLine(key, headers[key]);
        order := order + [key];
        remaining := remaining - {key};
      }
      text := text + ContentTrailer(content);
      HttpTextShape(status, headers, order, content);
    }
  }
}
