/** The mutable response object, and the relaying of a script's reply through it. */
module HttpResponse {
  import opened Machine
  import opened Text
  import opened HttpParsers
  import opened HttpMessage

  lemma PrintStep(order: seq<string>, headers: Headers, i: nat)
    requires i < |order| && forall k :: k in order ==> k in headers
    ensures PrintHeaders(order[i..], headers)
            == (Line(order[i], headers[order[i]]) + CRLF) + PrintHeaders(order[i + 1..], headers)
  {
    assert order[i..][1..] == order[i + 1..];
  }

  lemma PrintNone(headers: Headers)
    ensures PrintHeaders([], headers) == ""
  {
  }

  class Response {
    var status: int
    var statusMsg: string
    var body: string
    var headers: Headers
    var builtResponse: string

    constructor (code: int)
      ensures status == code && statusMsg == StatusMessage(code)
      ensures body == "" && headers == map[] && builtResponse == ""
    {
      body, headers, builtResponse := "", map[], "";
      new;
      SetStatus(code);
    }

    method SetStatus(code: int)
      modifies this`status, this`statusMsg
      ensures status == code && statusMsg == StatusMessage(code)
    {
      status, statusMsg := code, StatusMessage(code);
    }

    method AddHeader(key: string, value: string)
      modifies this`headers
      ensures headers == old(headers)[key := value]
    {
      headers := headers[key := value];
    }

    /** The given headers win over the ones already there. */
    method AddHeaders(more: Headers)
      modifies this`headers
      ensures headers == old(headers) + more
    {
      var left := more.Keys;
      while left != {}
        invariant left <= more.Keys
        invariant headers == old(headers) + map k | k in more && k !in left :: more[k]
        decreases left
      {
        var key :| key in left;
        headers := headers[key := more[key]];
        left := left - {key};
      }
      assert (map k | k in more && k !in left :: more[k]) == more;
    }

    /** Stamps the date and prints the message, the headers in the iteration order of the map. */
    method Build(date: string, order: seq<string>) returns (text: string)
      requires Lists(order, headers["Date" := date])
      modifies this`headers, this`builtResponse
      ensures headers == old(headers)["Date" := date]
      ensures text == Print(statusMsg, order, headers, body)
      ensures builtResponse == statusMsg + CRLF + PrintHeaders(order, headers)
    {
      hide PrintHeaders;
      builtResponse := statusMsg + CRLF;
      headers := headers["Date" := date];
      assert order[0..] == order;
      for i := 0 to |order|
        modifies this`builtResponse
        invariant builtResponse + PrintHeaders(order[i..], headers) == statusMsg + CRLF + PrintHeaders(order, headers)
      {
        PrintStep(order, headers, i);
        ghost var before := builtResponse;
        var line := Line(order[i], headers[order[i]]) + CRLF;
        builtResponse := builtResponse + line;
        assert builtResponse + PrintHeaders(order[i + 1..], headers)
            == before + (line + PrintHeaders(order[i + 1..], headers));
      }
      PrintNone(headers);
      text := builtResponse + CRLF + body;
    }
  }

  // The response that an exception carries

  function ErrorHeaders(headers: Headers, date: string): Headers {
    headers["Connection" := "close"]["Content-Length" := "0"]["Date" := date]
  }

  /** What the constructor of an HTTP exception builds, for a rejection with headers such as Retry-After. */
  method ErrorResponse(code: int, headers: Headers, date: string, order: seq<string>)
    returns (response: Response, text: string)
    requires Lists(order, ErrorHeaders(headers, date))
    ensures fresh(response) && response.status == code && response.headers == ErrorHeaders(headers, date)
    ensures text == Print(StatusMessage(code), order, ErrorHeaders(headers, date), "")
  {
    response := new Response(code);
    response.AddHeaders(headers);
    response.AddHeader("Connection", "close");
    response.AddHeader("Content-Length", "0");
    text := response.Build(date, order);
  }

  /** Such a response parses back to its status line, exactly its headers and an empty body, and to its
      code if and only if that is a known one. */
  lemma ErrorParses(code: int, headers: Headers, date: string, order: seq<string>)
    requires CleanHeaders(headers) && !Has(date, CRLF) && Lists(order, ErrorHeaders(headers, date))
    ensures var text := Print(StatusMessage(code), order, ErrorHeaders(headers, date), "");
            && HeaderLineOf(text) == StatusMessage(code)
            && (StatusCodeOf(text) == code <==> Reason(code).Some?)
            && HeadersOf(text) == Ok(ErrorHeaders(headers, date))
            && BodyOf(text) == Ok("")
  {
    hide Has, HeadersOf, BodyOf, StatusCodeOf, PrintHeaders, StatusMessage;
    var all := ErrorHeaders(headers, date);
    OwnHeadersClean(date);
    assert CleanHeaders(all) by {
      hide CleanHeader;
    }
    StatusMessageClean(code);
    CutWholeIff("");
    PrintedParses(StatusMessage(code), order, all, "");
    StatusMessageParsesIff(code, CRLF + PrintHeaders(order, all) + CRLF + "");
    assert StatusMessage(code) + (CRLF + PrintHeaders(order, all) + CRLF + "")
        == Print(StatusMessage(code), order, all, "");
  }

  /** No control characters and no colon. */
  predicate Printable(s: string) {
    forall i :: 0 <= i < |s| ==> s[i] >= ' ' && s[i] != ':'
  }

  lemma StatusMessageClean(code: int)
    ensures !Has(StatusMessage(code), CRLF)
  {
    hide Reason, Has;
    var known := if code >= 0 && Reason(code).Some? then code else INTERNAL_SERVER_ERROR;
    assert Reason(INTERNAL_SERVER_ERROR).Some? by {
      ServerErrorKnown();
    }
    ReasonPrintable(known);
    DecimalValue(known);
    assert Printable(Decimal(known)) by {
      assert forall i :: 0 <= i < |Decimal(known)| ==> IsDigit(Decimal(known)[i]);
    }
    WordClean(StatusMessage(code));
  }

  lemma ServerErrorKnown()
    ensures Reason(INTERNAL_SERVER_ERROR).Some?
  {
  }

  lemma ReasonPrintable(code: int)
    requires Reason(code).Some?
    ensures Printable(Reason(code).value)
  {
    hide Printable;
    SuccessPrintable();
    RedirectionPrintable();
    ClientErrorPrintable();
    LaterClientErrorPrintable();
    ServerErrorPrintable();
  }

  lemma SuccessPrintable()
    ensures Printable("OK") && Printable("Created")
    ensures Printable("Accepted") && Printable("No Content")
  {
  }

  lemma RedirectionPrintable()
    ensures Printable("Moved Permanently") && Printable("Found")
    ensures Printable("See Other") && Printable("Not Modified")
  {
  }

  lemma ClientErrorPrintable()
    ensures Printable("Bad Request") && Printable("Unauthorized")
    ensures Printable("Forbidden") && Printable("Not Found")
  {
  }

  lemma LaterClientErrorPrintable()
    ensures Printable("Method Not Allowed") && Printable("Unsupported Media Type")
    ensures Printable("Too Many Requests") && Printable("Client Closed Request")
  {
  }

  lemma ServerErrorPrintable()
    ensures Printable("Internal Server Error") && Printable("Not Implemented")
    ensures Printable("Bad Gateway") && Printable("Service Unavailable")
    ensures Printable("Gateway Timeout") && Printable("Insufficient Storage")
  {
  }

  /** The headers of the relayed message: the earlier ones, overlaid by the script's, then by
      Connection and Date. */
  function RelayedHeaders(earlier: Headers, script: Headers, date: string): Headers {
    (earlier + script)["Connection" := "close"]["Date" := date]
  }

  /** One invocation of the chunk callback on a script's reply: the message to be written. */
  method Relay(response: Response, reply: string, date: string, order: seq<string>) returns (r: Result<string>)
    requires HeadersOf(reply).Ok? ==>
               Lists(order, RelayedHeaders(response.headers, HeadersOf(reply).value, date))
    modifies response
    ensures var bad := StatusCodeOf(reply) in {BAD_REQUEST, NOT_A_STATUS};
            && (r.Err? <==> bad || BodyOf(reply).Err? || HeadersOf(reply).Err?)
            && (r.Err? ==> r.status == if bad then BAD_GATEWAY else BAD_REQUEST)
    ensures r.Ok? ==>
              && response.status == StatusCodeOf(reply) && response.statusMsg == HeaderLineOf(reply)
              && response.body == BodyOf(reply).value
              && response.headers == RelayedHeaders(old(response.headers), HeadersOf(reply).value, date)
              && r == Ok(Print(HeaderLineOf(reply), order, response.headers, BodyOf(reply).value))
  {
    response.statusMsg := HeaderLineOf(reply);
    response.status := StatusCodeOf(reply);
    if response.status == BAD_REQUEST || response.status == NOT_A_STATUS {
      return Err(BAD_GATEWAY);
    }
    var body := BodyOf(reply);
    if body.Err? {
      return body;
    }
    response.body := body.value;
    var headers := ExtractHeaders(reply);
    if headers.Err? {
      return Err(headers.status);
    }
    response.AddHeaders(headers.value);
    response.AddHeader("Connection", "close");
    var text := response.Build(date, order);
    return Ok(text);
  }

  /** The status line settles the code by itself. */
  predicate TwoSpaces(line: string) {
    var a := Find(line, " ", 0);
    a.Some? && Find(line, " ", a.value + 1).Some?
  }

  lemma FindInPrefix(s: string, after: string, pattern: string, from: nat)
    requires Find(s, pattern, from).Some?
    ensures Find(s + after, pattern, from) == Find(s, pattern, from)
  {
    hide At, Find;
    Found(s, pattern, from);
    var i := Find(s, pattern, from).value;
    forall j: nat | j <= |s| - |pattern|
      ensures At(s + after, pattern, j) <==> At(s, pattern, j)
    {
      AtInside("", s, after, pattern, j);
      assert "" + s + after == s + after;
    }
    FindIs(s + after, pattern, from, i);
  }

  lemma CodeFromLine(line: string, rest: string)
    requires TwoSpaces(line)
    ensures StatusCodeOf(line + rest) == StatusCodeOf(line)
  {
    hide Find, Stoi;
    var a := Find(line, " ", 0).value;
    var b := Find(line, " ", a + 1).value;
    FindInPrefix(line, rest, " ", 0);
    FindInPrefix(line, rest, " ", a + 1);
    assert (line + rest)[a + 1..b] == line[a + 1..b];
  }

  /** For every script reply the callback accepts, if the earlier headers and the date are clean, the
      relayed message parses back to the script's status line and code, to the earlier headers overlaid
      by the script's and then by Connection and Date, and to the script's body exactly when that body
      has no LF. */
  lemma RelayedParses(earlier: Headers, reply: string, date: string, order: seq<string>)
    requires BodyOf(reply).Ok? && HeadersOf(reply).Ok?
    requires CleanHeaders(earlier) && !Has(date, CRLF)
    requires Lists(order, RelayedHeaders(earlier, HeadersOf(reply).value, date))
    ensures var headers := RelayedHeaders(earlier, HeadersOf(reply).value, date);
            var text := Print(HeaderLineOf(reply), order, headers, BodyOf(reply).value);
            && HeaderLineOf(text) == HeaderLineOf(reply)
            && (TwoSpaces(HeaderLineOf(reply)) ==> StatusCodeOf(text) == StatusCodeOf(reply))
            && HeadersOf(text) == Ok(headers)
            && (BodyOf(text) == BodyOf(reply) <==> '\n' !in BodyOf(reply).value)
  {
    hide Find, Has, CleanHeader, HeadersOf, BodyOf, StatusCodeOf, TwoSpaces, PrintHeaders;
    var headers := RelayedHeaders(earlier, HeadersOf(reply).value, date);
    HeadersClean(reply);
    OwnHeadersClean(date);
    RelayedClean(earlier, HeadersOf(reply).value, date);
    var line, body := HeaderLineOf(reply), BodyOf(reply).value;
    PrintedParses(line, order, headers, body);
    CutWholeIff(body);
    if TwoSpaces(line) {
      assert reply == line + reply[|line|..];
      CodeFromLine(line, reply[|line|..]);
      CodeFromLine(line, CRLF + PrintHeaders(order, headers) + CRLF + body);
      assert line + (CRLF + PrintHeaders(order, headers) + CRLF + body) == Print(line, order, headers, body);
    }
  }

  /** The callback takes code 400 for a failure to parse: of all well-formed replies with a known code, it
      refuses exactly those with that one, and answers them with a 502. */
  lemma WellFormedRefusedIff(code: int, order: seq<string>, headers: Headers, body: string)
    requires Reason(code).Some? && Lists(order, headers) && CleanHeaders(headers)
    ensures var reply := Print(StatusMessage(code), order, headers, body);
            && StatusCodeOf(reply) == code && HeadersOf(reply) == Ok(headers) && BodyOf(reply) == Ok(Cut(body))
            && (StatusCodeOf(reply) in {BAD_REQUEST, NOT_A_STATUS} || BodyOf(reply).Err? || HeadersOf(reply).Err?
                <==> code == BAD_REQUEST)
  {
    hide Has, HeadersOf, BodyOf, StatusCodeOf, PrintHeaders, StatusMessage, CleanHeaders, Cut;
    StatusMessageClean(code);
    PrintedParses(StatusMessage(code), order, headers, body);
    var rest := CRLF + PrintHeaders(order, headers) + CRLF + body;
    StatusMessageParsesIff(code, rest);
    assert StatusMessage(code) + rest == Print(StatusMessage(code), order, headers, body);
    KnownCode(code);
  }

  lemma KnownCode(code: int)
    requires Reason(code).Some?
    ensures code != NOT_A_STATUS
  {
  }

  /** Every relayed message says that the connection closes and carries the date; an exception's response says
      the first too, and that it has no content. */
  lemma OwnHeaders(earlier: Headers, script: Headers, date: string)
    ensures var relayed, error := RelayedHeaders(earlier, script, date), ErrorHeaders(earlier, date);
            && "Connection" in relayed && relayed["Connection"] == "close"
            && "Date" in relayed && relayed["Date"] == date
            && "Connection" in error && error["Connection"] == "close"
            && "Date" in error && error["Date"] == date
            && "Content-Length" in error && error["Content-Length"] == "0"
            && relayed.Keys == earlier.Keys + script.Keys + {"Connection", "Date"}
            && error.Keys == earlier.Keys + {"Connection", "Content-Length", "Date"}
            && (forall k :: k in relayed && k !in {"Connection", "Date"} ==>
                  relayed[k] == if k in script then script[k] else earlier[k])
            && (forall k :: k in error && k !in {"Connection", "Content-Length", "Date"} ==> error[k] == earlier[k])
  {
    assert "Connection"[0] == 'C' && "Date"[0] == 'D' && "Content-Length"[3] == 't' && "Connection"[3] == 'n';
  }

  /** A header added before the script ran, such as the authenticator's Set-Cookie, comes back from every
      relayed reply that does not have that header itself, whatever the reply's code. */
  lemma EarlierHeaderRelayed(earlier: Headers, reply: string, date: string, order: seq<string>, key: string)
    requires BodyOf(reply).Ok? && HeadersOf(reply).Ok?
    requires CleanHeaders(earlier) && !Has(date, CRLF)
    requires Lists(order, RelayedHeaders(earlier, HeadersOf(reply).value, date))
    requires key in earlier && key !in {"Connection", "Date"}
    ensures var script := HeadersOf(reply).value;
            var headers := RelayedHeaders(earlier, script, date);
            var parsed := HeadersOf(Print(HeaderLineOf(reply), order, headers, BodyOf(reply).value));
            && parsed.Ok? && key in parsed.value
            && parsed.value[key] == if key in script then script[key] else earlier[key]
  {
    hide HeadersOf, BodyOf, StatusCodeOf, HeaderLineOf, Print, TwoSpaces, Has, CleanHeaders;
    RelayedParses(earlier, reply, date, order);
  }

  lemma RelayedClean(earlier: Headers, script: Headers, date: string)
    requires CleanHeaders(earlier) && CleanHeaders(script)
    requires CleanHeader("Connection", "close") && CleanHeader("Date", date)
    ensures CleanHeaders(RelayedHeaders(earlier, script, date))
  {
    hide CleanHeader;
  }

  lemma OwnHeadersClean(date: string)
    requires !Has(date, CRLF)
    ensures CleanHeader("Connection", "close") && CleanHeader("Content-Length", "0") && CleanHeader("Date", date)
  {
    WordClean("Connection");
    WordClean("close");
    WordClean("Content-Length");
    WordClean("0");
    WordClean("Date");
  }

  lemma WordClean(word: string)
    requires '\r' !in word && ':' !in word
    ensures !Has(word, CRLF) && !Has(word, SPLITTER)
  {
    forall i: nat
      ensures !At(word, CRLF, i) && !At(word, SPLITTER, i)
    {
      CrlfChars(word, i);
      SplitterChars(word, i);
    }
  }
}
