/** The response object, its printer, and the theorem that the parsers undo the printer. */
module HttpMessage {
  import opened Machine
  import opened Text
  import opened HttpParsers

  // Printing

  function Line(key: string, value: string): string {
    key + SPLITTER + value
  }

  /** The header lines in the given order, each ended by CRLF. */
  function PrintHeaders(order: seq<string>, headers: Headers): string
    requires forall k :: k in order ==> k in headers
  {
    if order == [] then ""
    else Line(order[0], headers[order[0]]) + CRLF + PrintHeaders(order[1..], headers)
  }

  function Print(statusLine: string, order: seq<string>, headers: Headers, body: string): string
    requires forall k :: k in order ==> k in headers
  {
    statusLine + CRLF + PrintHeaders(order, headers) + CRLF + body
  }

  /** An iteration order of the map: every key and nothing else. */
  ghost predicate Lists(order: seq<string>, headers: Headers) {
    forall k :: k in order <==> k in headers
  }

  ghost predicate CleanHeader(key: string, value: string) {
    !Has(key, CRLF) && !Has(key, SPLITTER) && !Has(value, CRLF)
  }

  ghost predicate CleanHeaders(headers: Headers) {
    forall k :: k in headers ==> CleanHeader(k, headers[k])
  }

  // Where the parsers stop in a printed message

  lemma CrlfChars(s: string, i: int)
    ensures At(s, CRLF, i) <==> 0 <= i < |s| - 1 && s[i] == '\r' && s[i + 1] == '\n'
  {
    if 0 <= i < |s| - 1 {
      assert s[i..i + 2] == [s[i], s[i + 1]];
    }
  }

  lemma BlankChars(s: string, i: int)
    ensures At(s, BLANK, i) <==> At(s, CRLF, i) && At(s, CRLF, i + 2)
  {
    CrlfChars(s, i);
    CrlfChars(s, i + 2);
    if 0 <= i <= |s| - 4 {
      assert s[i..i + 4] == [s[i], s[i + 1], s[i + 2], s[i + 3]];
    }
  }

  lemma SplitterChars(s: string, i: int)
    ensures At(s, SPLITTER, i) <==> 0 <= i < |s| - 1 && s[i] == ':' && s[i + 1] == ' '
  {
    if 0 <= i < |s| - 1 {
      assert s[i..i + 2] == [s[i], s[i + 1]];
    }
  }

  /** No line break starts inside a line that has none of its own. */
  lemma NoBreakInside(before: string, line: string, rest: string, j: int)
    requires !Has(line, CRLF) && |before| <= j < |before| + |line|
    ensures !At(before + line + CRLF + rest, CRLF, j)
  {
    var s := before + line + CRLF + rest;
    CrlfChars(s, j);
    CrlfChars(line, j - |before|);
  }

  lemma BreakAtEnd(before: string, line: string, rest: string)
    requires !Has(line, CRLF)
    ensures Find(before + line + CRLF + rest, CRLF, |before|) == Some(|before| + |line|)
  {
    var s := before + line + CRLF + rest;
    CrlfChars(s, |before| + |line|);
    forall j | |before| <= j < |before| + |line|
      ensures !At(s, CRLF, j)
    {
      NoBreakInside(before, line, rest, j);
    }
    FindIs(s, CRLF, |before|, |before| + |line|);
  }

  lemma CleanLine(key: string, value: string)
    requires CleanHeader(key, value)
    ensures !Has(Line(key, value), CRLF) && Find(Line(key, value), SPLITTER, 0) == Some(|key|)
    ensures |Line(key, value)| >= 2
  {
    var line := Line(key, value);
    forall i: nat
      ensures !At(line, CRLF, i)
    {
      CrlfChars(line, i);
      CrlfChars(key, i);
      CrlfChars(value, i - |key| - 2);
    }
    SplitterChars(line, |key|);
    forall i: nat | i < |key|
      ensures !At(line, SPLITTER, i)
    {
      SplitterChars(line, i);
      SplitterChars(key, i);
    }
    FindIs(line, SPLITTER, 0, |key|);
  }

  lemma FindSkip(s: string, pattern: string, a: nat, b: nat)
    requires a <= b && forall j :: a <= j < b ==> !At(s, pattern, j)
    ensures Find(s, pattern, a) == Find(s, pattern, b)
  {
    hide At;
    Found(s, pattern, a);
    Found(s, pattern, b);
  }

  /** The blank line is the one that ends the printed headers. */
  lemma {:induction false} BlankAtEnd(before: string, line: string, order: seq<string>, headers: Headers, body: string)
    requires !Has(line, CRLF) && CleanHeaders(headers) && forall k :: k in order ==> k in headers
    ensures Find(before + line + CRLF + PrintHeaders(order, headers) + CRLF + body, BLANK, |before|)
            == Some(|before| + |line| + |PrintHeaders(order, headers)|)
    decreases |order|
  {
    hide At, Find;
    var printed := PrintHeaders(order, headers);
    var s := before + line + CRLF + printed + CRLF + body;
    var end := |before| + |line|;
    assert s == before + line + CRLF + (printed + CRLF + body);
    forall j | |before| <= j < end
      ensures !At(s, BLANK, j)
    {
      NoBreakInside(before, line, printed + CRLF + body, j);
      BlankChars(s, j);
    }
    BlankChars(s, end);
    CrlfChars(s, end);
    CrlfChars(s, end + 2);
    if order == [] {
      FindIs(s, BLANK, |before|, end);
    } else {
      var key := order[0];
      var next := Line(key, headers[key]);
      var rest := PrintHeaders(order[1..], headers);
      CleanLine(key, headers[key]);
      var before' := before + line + CRLF;
      assert s == before' + next + CRLF + (rest + CRLF + body);
      NoBreakInside(before', next, rest + CRLF + body, end + 2);
      BlankChars(s, end + 1);
      CrlfChars(s, end + 1);
      FindSkip(s, BLANK, |before|, end + 2);
      BlankAtEnd(before', next, order[1..], headers, body);
      assert s == before' + next + CRLF + rest + CRLF + body;
    }
  }

  /** `found` with the listed headers written over it, in order. */
  function Overlay(found: Headers, order: seq<string>, headers: Headers): Headers
    requires forall k :: k in order ==> k in headers
    decreases |order|
  {
    if order == [] then found
    else Overlay(found[order[0] := headers[order[0]]], order[1..], headers)
  }

  lemma {:induction false} OverlayIs(found: Headers, order: seq<string>, headers: Headers)
    requires forall k :: k in order ==> k in headers
    ensures var r := Overlay(found, order, headers);
            && (forall k :: k in r <==> k in found || k in order)
            && (forall k :: k in r ==> r[k] == if k in order then headers[k] else found[k])
    decreases |order|
  {
    if order != [] {
      OverlayIs(found[order[0] := headers[order[0]]], order[1..], headers);
    }
  }

  lemma OneLineParsed(before: string, key: string, value: string, rest: string, end: nat, found: Headers)
    requires |before| < end && CleanHeader(key, value)
    ensures var line := Line(key, value);
            var s := before + line + CRLF + rest;
            HeadersFrom(s, |before|, end, found) == HeadersFrom(s, |before| + |line| + 2, end, found[key := value])
  {
    hide At, Find;
    var line := Line(key, value);
    var s := before + line + CRLF + rest;
    CleanLine(key, value);
    BreakAtEnd(before, line, rest);
    assert s[|before|..|before| + |line|] == line;
    assert line[..|key|] == key && line[|key| + 2..] == value;
  }

  /** The header loop reads back the printed lines one by one. */
  lemma {:induction false} LinesParsed(before: string, order: seq<string>, headers: Headers, after: string,
                                       found: Headers)
    requires |before| >= 2 && CleanHeaders(headers) && forall k :: k in order ==> k in headers
    ensures var printed := PrintHeaders(order, headers);
            HeadersFrom(before + printed + after, |before|, |before| + |printed| - 2, found)
            == Ok(Overlay(found, order, headers))
    decreases |order|
  {
    hide At, Find, CleanHeader;
    if order != [] {
      hide HeadersFrom;
      var key := order[0];
      var line := Line(key, headers[key]);
      var rest := PrintHeaders(order[1..], headers);
      var printed := PrintHeaders(order, headers);
      var s := before + printed + after;
      OneLineParsed(before, key, headers[key], rest + after, |before| + |printed| - 2, found);
      assert s == before + line + CRLF + (rest + after);
      LinesParsed(before + line + CRLF, order[1..], headers, after, found[key := headers[key]]);
      assert s == (before + line + CRLF) + rest + after;
    }
  }

  lemma BreaksFound(status: string, order: seq<string>, headers: Headers, body: string)
    requires Lists(order, headers) && !Has(status, CRLF) && CleanHeaders(headers)
    ensures var text := Print(status, order, headers, body);
            && Find(text, CRLF, 0) == Some(|status|)
            && Find(text, BLANK, 0) == Some(|status| + |PrintHeaders(order, headers)|)
  {
    hide At, Find, CleanHeader;
    var printed := PrintHeaders(order, headers);
    var text := Print(status, order, headers, body);
    BreakAtEnd("", status, printed + CRLF + body);
    assert text == "" + status + CRLF + (printed + CRLF + body);
    BlankAtEnd("", status, order, headers, body);
    assert text == "" + status + CRLF + printed + CRLF + body;
  }

  lemma PrintedHeadersParse(status: string, order: seq<string>, headers: Headers, body: string)
    requires Lists(order, headers) && !Has(status, CRLF) && CleanHeaders(headers)
    ensures HeadersOf(Print(status, order, headers, body)) == Ok(headers)
  {
    hide Find, Has, CleanHeaders, HeadersFrom, Overlay;
    var printed := PrintHeaders(order, headers);
    BreaksFound(status, order, headers, body);
    LinesParsed(status + CRLF, order, headers, CRLF + body, map[]);
    assert (status + CRLF) + printed + (CRLF + body) == Print(status, order, headers, body);
    OverlayIs(map[], order, headers);
    assert Overlay(map[], order, headers) == headers;
  }

  /** A printed message parses back, its body up to the first line break. */
  lemma PrintedParses(status: string, order: seq<string>, headers: Headers, body: string)
    requires Lists(order, headers) && !Has(status, CRLF) && CleanHeaders(headers)
    ensures var text := Print(status, order, headers, body);
            HeaderLineOf(text) == status && HeadersOf(text) == Ok(headers) && BodyOf(text) == Ok(Cut(body))
  {
    hide Find, Has, CleanHeaders, HeadersOf, Cut, PrintHeaders;
    BreaksFound(status, order, headers, body);
    PrintedHeadersParse(status, order, headers, body);
    var text := Print(status, order, headers, body);
    assert text[..|status|] == status;
    assert text[|status| + |PrintHeaders(order, headers)| + 4..] == body;
  }

  // The other direction: nothing else comes back

  lemma HasInside(s: string, a: nat, b: nat, pattern: string)
    requires a <= b <= |s| && Has(s[a..b], pattern)
    ensures Has(s, pattern)
  {
    var i: nat :| At(s[a..b], pattern, i);
    AtInside(s[..a], s[a..b], s[b..], pattern, i);
    assert s[..a] + s[a..b] + s[b..] == s;
    assert At(s, pattern, a + i);
  }

  lemma FirstEnds(s: string, pattern: string, from: nat, i: nat)
    requires pattern != "" && Find(s, pattern, from) == Some(i)
    ensures !Has(s[from..i], pattern)
  {
    Found(s, pattern, from);
    var before := s[from..i];
    forall j: nat
      ensures !At(before, pattern, j)
    {
      if j + |pattern| <= |before| {
        AtInside(s[..from], before, s[i..], pattern, j);
        assert s[..from] + before + s[i..] == s;
        assert !At(s, pattern, from + j);
      }
    }
  }

  /** Whatever text is parsed, the headers that come out are clean. */
  lemma {:induction false} ParsedClean(buf: string, pos: nat, end: nat, found: Headers)
    requires CleanHeaders(found)
    ensures var r := HeadersFrom(buf, pos, end, found);
            r.Ok? ==> CleanHeaders(r.value)
    decreases |buf| - pos
  {
    hide Find, Has;
    if pos < end && Find(buf, CRLF, pos).Some? {
      var stop := Find(buf, CRLF, pos).value;
      var line := buf[pos..stop];
      if line != "" && Find(line, SPLITTER, 0).Some? {
        var k := Find(line, SPLITTER, 0).value;
        FirstEnds(buf, CRLF, pos, stop);
        FirstEnds(line, SPLITTER, 0, k);
        assert line[0..k] == line[..k] && line[k + 2..|line|] == line[k + 2..];
        if Has(line[0..k], CRLF) {
          HasInside(line, 0, k, CRLF);
        }
        if Has(line[k + 2..|line|], CRLF) {
          HasInside(line, k + 2, |line|, CRLF);
        }
        ParsedClean(buf, stop + 2, end, found[line[..k] := line[k + 2..]]);
      }
    }
  }

  lemma HeadersClean(buf: string)
    ensures HeadersOf(buf).Ok? ==> CleanHeaders(HeadersOf(buf).value)
    ensures !Has(HeaderLineOf(buf), CRLF)
  {
    var first, end := Find(buf, CRLF, 0), Find(buf, BLANK, 0);
    if first.Some? {
      FirstEnds(buf, CRLF, 0, first.value);
      assert buf[0..first.value] == buf[..first.value];
      if end.Some? {
        ParsedClean(buf, first.value + 2, end.value, map[]);
      }
    }
  }

  lemma CutWholeIff(body: string)
    ensures Cut(body) == body <==> '\n' !in body
  {
    hide Find;
    Found(body, CRLF, 0);
    Found(body, "\n", 0);
    var crlf, lf := Find(body, CRLF, 0), Find(body, "\n", 0);
    HasChar(body, '\n');
    if crlf.Some? {
      CrlfChars(body, crlf.value);
    }
    if lf.Some? {
      assert Has(body, "\n");
    }
  }

  /** Printing then parsing is the identity, for any iteration order of the headers, exactly when the
      status line, keys and values have no CRLF, no key has the splitter, and the body has no LF. */
  lemma RoundTripIff(status: string, order: seq<string>, headers: Headers, body: string)
    requires Lists(order, headers)
    ensures var text := Print(status, order, headers, body);
            (HeaderLineOf(text) == status && HeadersOf(text) == Ok(headers) && BodyOf(text) == Ok(body))
            <==> (!Has(status, CRLF) && CleanHeaders(headers) && '\n' !in body)
  {
    hide Has, CleanHeader;
    HeadersClean(Print(status, order, headers, body));
    CutWholeIff(body);
    if !Has(status, CRLF) && CleanHeaders(headers) {
      PrintedParses(status, order, headers, body);
    }
  }

  // Status codes

  /** The number a piece of text starts with, or 502 when there is none. */
  function NumberOr502(s: string): int {
    var n := Stoi(s);
    if n.Some? then n.value else BAD_GATEWAY
  }

  /** The code of a text is the number between its first two spaces. */
  lemma CodeBetweenSpaces(before: string, word: string, rest: string)
    requires ' ' !in before && ' ' !in word
    ensures StatusCodeOf(before + " " + word + " " + rest) == NumberOr502(word)
    ensures StatusCodeOf(before + " " + word) == BAD_GATEWAY
  {
    hide Find, Stoi;
    var buf := before + " " + word + " " + rest;
    FindAfterWord("", before, ' ', word + " " + rest);
    assert "" + before + [' '] + (word + " " + rest) == buf;
    FindAfterWord(before + " ", word, ' ', rest);
    assert |before + " "| == |before| + 1;
    assert (before + " ") + word + [' '] + rest == buf;
    assert buf[|before| + 1..|before| + 1 + |word|] == word;
    FindAfterWord("", before, ' ', word);
    assert "" + before + [' '] + word == before + " " + word;
    NotFoundChar(word, ' ');
    FindInSuffix(before + " ", word, " ", 0);
  }

  /** Text without a space in front does not change the code. */
  lemma CodeAfterWord(before: string, s: string)
    requires ' ' !in before
    ensures StatusCodeOf(before + s) == StatusCodeOf(s)
  {
    hide At, Find, Stoi;
    forall j | 0 <= j < |before|
      ensures !At(before + s, " ", j)
    {
      AtChar(before + s, ' ', j);
    }
    FindSkip(before + s, " ", 0, |before|);
    FindInSuffix(before, s, " ", 0);
    var a := Find(s, " ", 0);
    if a.Some? {
      FindInSuffix(before, s, " ", a.value + 1);
      var b := Find(s, " ", a.value + 1);
      if b.Some? {
        assert (before + s)[|before| + a.value + 1..|before| + b.value] == s[a.value + 1..b.value];
      }
    }
  }

  /** A status line `version SP code SP reason` gives its code back, whatever follows it. */
  lemma StatusCodeParses(version: string, code: nat, reason: string, rest: string)
    requires ' ' !in version && code <= 0x7FFF_FFFF
    ensures StatusCodeOf(version + " " + Decimal(code) + " " + reason + rest) == code
  {
    hide StatusCodeOf, Stoi;
    var digits := Decimal(code);
    DecimalValue(code);
    assert ' ' !in digits by {
      assert forall i :: 0 <= i < |digits| ==> IsDigit(digits[i]);
    }
    CodeBetweenSpaces(version, digits, reason + rest);
    assert version + " " + digits + " " + (reason + rest) == version + " " + digits + " " + reason + rest;
    StoiOfDecimal(code, "");
    assert digits + "" == digits;
  }

  function Reason(code: int): Option<string> {
    match code
    case 200 => Some("OK")
    case 201 => Some("Created")
    case 202 => Some("Accepted")
    case 204 => Some("No Content")
    case 301 => Some("Moved Permanently")
    case 302 => Some("Found")
    case 303 => Some("See Other")
    case 304 => Some("Not Modified")
    case 400 => Some("Bad Request")
    case 401 => Some("Unauthorized")
    case 403 => Some("Forbidden")
    case 404 => Some("Not Found")
    case 405 => Some("Method Not Allowed")
    case 415 => Some("Unsupported Media Type")
    case 429 => Some("Too Many Requests")
    case 499 => Some("Client Closed Request")
    case 500 => Some("Internal Server Error")
    case 501 => Some("Not Implemented")
    case 502 => Some("Bad Gateway")
    case 503 => Some("Service Unavailable")
    case 504 => Some("Gateway Timeout")
    case 507 => Some("Insufficient Storage")
    case _ => None
  }

  /** The status line the server uses for a code; an unknown code gets that of 500. */
  function StatusMessage(code: int): string {
    var known := if code >= 0 && Reason(code).Some? then code else INTERNAL_SERVER_ERROR;
    "HTTP/1.1 " + Decimal(known) + " " + Reason(known).value
  }

  /** A response built from a code parses back to that code if and only if the code is a known one. */
  lemma StatusMessageParsesIff(code: int, rest: string)
    ensures StatusCodeOf(StatusMessage(code) + rest) == code <==> Reason(code).Some?
  {
    hide StatusCodeOf;
    var known := if code >= 0 && Reason(code).Some? then code else INTERNAL_SERVER_ERROR;
    StatusCodeParses("HTTP/1.1", known, Reason(known).value, rest);
    assert "HTTP/1.1" + " " + Decimal(known) + " " + Reason(known).value == StatusMessage(code);
  }

  // Bodies and headers that are not printed ones

  /** A body ends before its first CRLF; without a CRLF, before its first LF. */
  lemma CutBefore(before: string, after: string)
    ensures !Has(before, CRLF) ==> Cut(before + CRLF + after) == before
    ensures !Has(before + "\n" + after, CRLF) && '\n' !in before ==> Cut(before + "\n" + after) == before
  {
    hide Find, At;
    if !Has(before, CRLF) {
      BreakAtEnd("", before, after);
      assert "" + before + CRLF + after == before + CRLF + after;
    }
    var bare := before + "\n" + after;
    if !Has(bare, CRLF) && '\n' !in before {
      Found(bare, CRLF, 0);
      FindAfterWord("", before, '\n', after);
      assert "" + before + ['\n'] + after == bare;
    }
  }

  /** A message has a body exactly when it has a blank line, by CRLFs or by LFs; otherwise it gets a 400. */
  lemma BodyIff(buf: string)
    ensures BodyOf(buf).Ok? <==> Has(buf, BLANK) || Has(buf, "\n\n")
    ensures BodyOf(buf).Err? ==> BodyOf(buf) == Err(400)
  {
    hide At, Cut;
    Found(buf, BLANK, 0);
    Found(buf, "\n\n", 0);
    assert Find(buf, BLANK, 0).Some? ==> Has(buf, BLANK);
    assert Find(buf, "\n\n", 0).Some? ==> Has(buf, "\n\n");
  }

  /** The body stands behind the first blank line by CRLFs, or, in a message without any, behind the first
      one by LFs. */
  lemma BodyBehind(head: string, body: string)
    ensures Find(head + BLANK + body, BLANK, 0) == Some(|head|) ==> BodyOf(head + BLANK + body) == Ok(Cut(body))
    ensures !Has(head + "\n\n" + body, BLANK) && !Has(head + "\n", "\n\n") ==>
              BodyOf(head + "\n\n" + body) == Ok(Cut(body))
  {
    hide At, Find, Cut;
    assert (head + BLANK + body)[|head| + 4..] == body;
    var bare := head + "\n\n" + body;
    if !Has(bare, BLANK) && !Has(head + "\n", "\n\n") {
      Found(bare, BLANK, 0);
      forall j | 0 <= j < |head|
        ensures !At(bare, "\n\n", j)
      {
        BareInside(head, body, j);
      }
      BareAt(head, body);
      FindIs(bare, "\n\n", 0, |head|);
      assert bare[|head| + 2..] == body;
    }
  }

  lemma BareInside(head: string, body: string, j: nat)
    requires j < |head| && !Has(head + "\n", "\n\n")
    ensures !At(head + "\n\n" + body, "\n\n", j)
  {
    AtInside("", head + "\n", "\n" + body, "\n\n", j);
    assert "" + (head + "\n") + ("\n" + body) == head + "\n\n" + body;
    assert !At(head + "\n", "\n\n", j);
  }

  lemma BareAt(head: string, body: string)
    ensures At(head + "\n\n" + body, "\n\n", |head|)
  {
    assert (head + "\n\n" + body)[|head|..|head| + 2] == "\n\n";
  }

  /** One header line without the splitter, behind any number of good ones, and the message gets a 400. */
  lemma BadHeaderRefused(status: string, order: seq<string>, headers: Headers, bad: string, after: string)
    requires Lists(order, headers) && CleanHeaders(headers) && !Has(status, CRLF)
    requires bad != "" && !Has(bad, CRLF) && !Has(bad, SPLITTER)
    requires Has(bad + CRLF + after, BLANK)
    ensures HeadersOf(status + CRLF + PrintHeaders(order, headers) + (bad + CRLF + after)) == Err(400)
  {
    hide At, Find, CleanHeader, HeadersFrom, PrintHeaders;
    var printed, tail := PrintHeaders(order, headers), bad + CRLF + after;
    var text := status + CRLF + printed + tail;
    var before := status + CRLF + printed;
    BreakAtEnd("", status, printed + tail);
    assert "" + status + CRLF + (printed + tail) == text;
    NoBlankYet("", status, order, headers, bad, after);
    assert "" + status + CRLF + printed + tail == text;
    var i: nat :| At(tail, BLANK, i);
    AtSuffix(before, tail, BLANK, i);
    assert before + tail == text;
    Found(text, BLANK, 0);
    var end := Find(text, BLANK, 0).value;
    BadLineFails(status + CRLF, order, headers, bad, after, end, map[]);
    assert (status + CRLF) + printed + tail == text;
  }

  /** No blank line starts at the places from..to. */
  predicate NoBlankIn(s: string, from: nat, to: nat) {
    forall j :: from <= j <= to ==> !At(s, BLANK, j)
  }

  lemma {:induction false} NoBlankYet(before: string, line: string, order: seq<string>, headers: Headers,
                                      bad: string, after: string)
    requires !Has(line, CRLF) && CleanHeaders(headers) && forall k :: k in order ==> k in headers
    requires bad != "" && !Has(bad, CRLF)
    ensures var start := before + line + CRLF + PrintHeaders(order, headers);
            NoBlankIn(start + (bad + CRLF + after), |before|, |start|)
    decreases |order|
  {
    hide At, Find;
    var printed, tail := PrintHeaders(order, headers), bad + CRLF + after;
    var s := before + line + CRLF + printed + tail;
    var end := |before| + |line|;
    assert s == before + line + CRLF + (printed + tail);
    forall j | |before| <= j < end
      ensures !At(s, BLANK, j)
    {
      NoBreakInside(before, line, printed + tail, j);
      BlankChars(s, j);
    }
    BlankChars(s, end);
    BlankChars(s, end + 1);
    CrlfChars(s, end + 1);
    if order == [] {
      assert s == (before + line + CRLF) + bad + CRLF + after;
      NoBreakInside(before + line + CRLF, bad, after, end + 2);
      BlankChars(s, end + 2);
    } else {
      var key := order[0];
      var next := Line(key, headers[key]);
      var rest := PrintHeaders(order[1..], headers);
      CleanLine(key, headers[key]);
      var before' := before + line + CRLF;
      assert s == before' + next + CRLF + (rest + tail);
      NoBreakInside(before', next, rest + tail, end + 2);
      NoBlankYet(before', next, order[1..], headers, bad, after);
      var start := before' + next + CRLF + rest;
      assert start == before + line + CRLF + printed;
      assert NoBlankIn(start + tail, |before'|, |start|);
      assert start + tail == s;
    }
  }

  lemma {:induction false} BadLineFails(before: string, order: seq<string>, headers: Headers, bad: string,
                                        after: string, end: nat, found: Headers)
    requires CleanHeaders(headers) && forall k :: k in order ==> k in headers
    requires bad != "" && !Has(bad, CRLF) && !Has(bad, SPLITTER)
    requires |before| + |PrintHeaders(order, headers)| < end
    ensures HeadersFrom(before + PrintHeaders(order, headers) + (bad + CRLF + after), |before|, end, found) == Err(400)
    decreases |order|
  {
    hide At, Find, CleanHeader;
    var tail := bad + CRLF + after;
    var s := before + PrintHeaders(order, headers) + tail;
    if order == [] {
      assert s == before + bad + CRLF + after;
      BreakAtEnd(before, bad, after);
      assert s[|before|..|before| + |bad|] == bad;
      Found(bad, SPLITTER, 0);
    } else {
      hide HeadersFrom;
      var key := order[0];
      var line := Line(key, headers[key]);
      var rest := PrintHeaders(order[1..], headers);
      OneLineParsed(before, key, headers[key], rest + tail, end, found);
      assert s == before + line + CRLF + (rest + tail);
      BadLineFails(before + line + CRLF, order[1..], headers, bad, after, end, found[key := headers[key]]);
      assert s == (before + line + CRLF) + rest + tail;
    }
  }

  /** On the wire: a message with one header, byte by byte. */
  lemma OnTheWire(status: string, key: string, value: string, body: string)
    ensures Print(status, [key], map[key := value], body)
            == status + "\r\n" + key + ": " + value + "\r\n" + "\r\n" + body
    ensures Print(status, [], map[], body) == status + "\r\n" + "\r\n" + body
  {
    var headers: Headers := map[key := value];
    assert [key][1..] == [];
    assert PrintHeaders([key], headers) == key + ": " + value + "\r\n" + "";
    assert PrintHeaders([], map[]) == "";
  }
}
