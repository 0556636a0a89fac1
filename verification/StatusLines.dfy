/** The status lines the server writes, spelled out. */
module StatusLines {
  import opened Machine
  import opened Text
  import opened HttpParsers
  import opened HttpMessage

  /** The codes with a status line of their own. */
  const KNOWN := {200, 201, 202, 204, 301, 302, 303, 304, 400, 401, 403,
                  404, 405, 415, 429, 499, 500, 501, 502, 503, 504, 507}

  /** Exactly these; every other code is answered with the line of 500. */
  lemma KnownCodes(code: int)
    ensures Reason(code).Some? <==> code in KNOWN
    ensures code !in KNOWN ==> StatusMessage(code) == StatusMessage(500)
  {
  }

  /** A line of three digits and a reason. */
  lemma LineOfCode(code: nat, digits: string)
    requires 100 <= code < 1000 && Reason(code).Some?
    requires digits == [Digit(code / 100), Digit(code / 10 % 10), Digit(code % 10)]
    ensures StatusMessage(code) == "HTTP/1.1 " + digits + " " + Reason(code).value
  {
    assert Decimal(code / 100) == [Digit(code / 100)];
    assert Decimal(code / 10) == Decimal(code / 100) + [Digit(code / 10 % 10)];
    assert Decimal(code) == Decimal(code / 10) + [Digit(code % 10)];
  }

  lemma SuccessLines()
    ensures StatusMessage(200) == "HTTP/1.1 " + "200" + " " + "OK"
    ensures StatusMessage(201) == "HTTP/1.1 " + "201" + " " + "Created"
    ensures StatusMessage(202) == "HTTP/1.1 " + "202" + " " + "Accepted"
    ensures StatusMessage(204) == "HTTP/1.1 " + "204" + " " + "No Content"
  {
    hide StatusMessage;
    LineOfCode(200, "200");
    LineOfCode(201, "201");
    LineOfCode(202, "202");
    LineOfCode(204, "204");
  }

  lemma RedirectionLines()
    ensures StatusMessage(301) == "HTTP/1.1 " + "301" + " " + "Moved Permanently"
    ensures StatusMessage(302) == "HTTP/1.1 " + "302" + " " + "Found"
    ensures StatusMessage(303) == "HTTP/1.1 " + "303" + " " + "See Other"
    ensures StatusMessage(304) == "HTTP/1.1 " + "304" + " " + "Not Modified"
  {
    hide StatusMessage;
    LineOfCode(301, "301");
    LineOfCode(302, "302");
    LineOfCode(303, "303");
    LineOfCode(304, "304");
  }

  lemma EarlyClientErrorLines()
    ensures StatusMessage(400) == "HTTP/1.1 " + "400" + " " + "Bad Request"
    ensures StatusMessage(401) == "HTTP/1.1 " + "401" + " " + "Unauthorized"
    ensures StatusMessage(403) == "HTTP/1.1 " + "403" + " " + "Forbidden"
    ensures StatusMessage(404) == "HTTP/1.1 " + "404" + " " + "Not Found"
  {
    hide StatusMessage;
    LineOfCode(400, "400");
    LineOfCode(401, "401");
    LineOfCode(403, "403");
    LineOfCode(404, "404");
  }

  lemma ClientErrorLines()
    ensures StatusMessage(405) == "HTTP/1.1 " + "405" + " " + "Method Not Allowed"
    ensures StatusMessage(415) == "HTTP/1.1 " + "415" + " " + "Unsupported Media Type"
    ensures StatusMessage(429) == "HTTP/1.1 " + "429" + " " + "Too Many Requests"
    ensures StatusMessage(499) == "HTTP/1.1 " + "499" + " " + "Client Closed Request"
  {
    hide StatusMessage;
    LineOfCode(405, "405");
    LineOfCode(415, "415");
    LineOfCode(429, "429");
    LineOfCode(499, "499");
  }

  lemma ServerErrorLines()
    ensures StatusMessage(500) == "HTTP/1.1 " + "500" + " " + "Internal Server Error"
    ensures StatusMessage(501) == "HTTP/1.1 " + "501" + " " + "Not Implemented"
    ensures StatusMessage(502) == "HTTP/1.1 " + "502" + " " + "Bad Gateway"
  {
    hide StatusMessage;
    LineOfCode(500, "500");
    LineOfCode(501, "501");
    LineOfCode(502, "502");
  }

  lemma LateServerErrorLines()
    ensures StatusMessage(503) == "HTTP/1.1 " + "503" + " " + "Service Unavailable"
    ensures StatusMessage(504) == "HTTP/1.1 " + "504" + " " + "Gateway Timeout"
    ensures StatusMessage(507) == "HTTP/1.1 " + "507" + " " + "Insufficient Storage"
  {
    hide StatusMessage;
    LineOfCode(503, "503");
    LineOfCode(504, "504");
    LineOfCode(507, "507");
  }
}
