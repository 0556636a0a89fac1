/** The search-based parsers of HTTP/1.1 messages, as values. */
module HttpParsers {
  import opened Machine
  import opened Text

  const BLANK: string := "\r\n\r\n"
  const SPLITTER: string := ": "

  const OK := 200
  const BAD_REQUEST := 400
  const INTERNAL_SERVER_ERROR := 500
  const BAD_GATEWAY := 502
  const NOT_A_STATUS := -1

  type Headers = map<string, string>

  function HeaderLineOf(buf: string): string {
    var end := Find(buf, CRLF, 0);
    if end.None? then "" else buf[..end.value]
  }

  /** Where the body stops: at the first CRLF, or else at the first LF, or else at the end. */
  function Cut(body: string): (r: string)
    ensures r <= body
  {
    var crlf := Find(body, CRLF, 0);
    var lf := Find(body, "\n", 0);
    if crlf.Some? then body[..crlf.value] else if lf.Some? then body[..lf.value] else body
  }

  function BodyOf(buf: string): Result<string> {
    var blank := Find(buf, BLANK, 0);
    var bare := Find(buf, "\n\n", 0);
    if blank.Some? then Ok(Cut(buf[blank.value + 4..]))
    else if bare.Some? then Ok(Cut(buf[bare.value + 2..]))
    else Err(BAD_REQUEST)
  }

  /** The header lines from `pos` up to the blank line, later ones overriding earlier ones. */
  function HeadersFrom(buf: string, pos: nat, end: nat, found: Headers): (r: Result<Headers>)
    ensures r.Err? ==> r.status == BAD_REQUEST
    decreases |buf| - pos
  {
    if pos >= end then Ok(found)
    else
      var stop := Find(buf, CRLF, pos);
      if stop.None? then Err(BAD_REQUEST)
      else
        var line := buf[pos..stop.value];
        var split := Find(line, SPLITTER, 0);
        if line == "" then Ok(found)
        else if split.None? then Err(BAD_REQUEST)
        else HeadersFrom(buf, stop.value + 2, end,
                         found[line[..split.value] := line[split.value + 2..]])
  }

  function HeadersOf(buf: string): Result<Headers> {
    var end := Find(buf, BLANK, 0);
    var first := Find(buf, CRLF, 0);
    if end.None? || first.None? then Err(BAD_REQUEST)
    else HeadersFrom(buf, first.value + 2, end.value, map[])
  }

  /** The header loop, as the source runs it. */
  method ExtractHeaders(buf: string) returns (r: Result<Headers>)
    ensures r == HeadersOf(buf)
  {
    var headers: Headers := map[];
    var headersEnd := Find(buf, BLANK, 0);
    if headersEnd.None? {
      return Err(BAD_REQUEST);
    }
    var endOfRequestLine := Find(buf, CRLF, 0);
    if endOfRequestLine.None? {
      return Err(BAD_REQUEST);
    }
    var pos := endOfRequestLine.value + 2;
    while pos < headersEnd.value
      invariant HeadersFrom(buf, pos, headersEnd.value, headers) == HeadersOf(buf)
      decreases |buf| - pos
    {
      var end := Find(buf, CRLF, pos);
      if end.None? {
        return Err(BAD_REQUEST);
      }
      var line := buf[pos..end.value];
      if line == "" {
        break;
      }
      var splitterPos := Find(line, SPLITTER, 0);
      if splitterPos.None? {
        return Err(BAD_REQUEST);
      }
      headers := headers[line[..splitterPos.value] := line[splitterPos.value + 2..]];
      pos := end.value + 2;
    }
    return Ok(headers);
  }

  /** The number between the first two spaces, wherever they are. */
  function StatusCodeOf(buf: string): int {
    var versionEnd := Find(buf, " ", 0);
    if versionEnd.None? then BAD_REQUEST
    else
      var codeEnd := Find(buf, " ", versionEnd.value + 1);
      if codeEnd.None? then BAD_GATEWAY
      else
        var n := Stoi(buf[versionEnd.value + 1..codeEnd.value]);
        if n.None? then BAD_GATEWAY else n.value
  }

  // Requests

  function RequestTargetOf(buf: string): Result<string> {
    var a := Find(buf, " ", 0);
    if a.None? then Err(BAD_REQUEST)
    else
      var b := Find(buf, " ", a.value + 1);
      if b.None? then Err(BAD_REQUEST) else Ok(buf[a.value + 1..b.value])
  }

  function EndpointOf(buf: string): Result<string> {
    var target := RequestTargetOf(buf);
    if target.Err? then target
    else
      var q := Find(target.value, "?", 0);
      Ok(if q.None? then target.value else target.value[..q.value])
  }

  function QueryStringOf(buf: string): Result<string> {
    var target := RequestTargetOf(buf);
    if target.Err? then target
    else
      var q := Find(target.value, "?", 0);
      Ok(if q.None? then "" else target.value[q.value + 1..])
  }

  datatype Method = Get | Head | Post | Options | NotAllowed

  function MethodFromName(name: string): Method {
    if name == "GET" || name == "get" then Get
    else if name == "POST" || name == "post" then Post
    else if name == "HEAD" || name == "head" then Head
    else if name == "OPTIONS" || name == "options" then Options
    else NotAllowed
  }

  function MethodOf(buf: string): Result<Method> {
    var lineEnd := Find(buf, CRLF, 0);
    if lineEnd.None? then Err(BAD_REQUEST)
    else
      var line := buf[..lineEnd.value];
      var methodEnd := Find(line, " ", 0);
      if methodEnd.None? then Err(BAD_REQUEST) else Ok(MethodFromName(line[..methodEnd.value]))
  }

  /** For a request `name SP path [? query] SP rest`: the pieces come back, and path, question mark and
      query are the request target. */
  lemma RequestPieces(name: string, path: string, query: Option<string>, rest: string)
    requires ' ' !in name && ' ' !in path && '?' !in path && !Has(name, CRLF)
    requires query.Some? ==> ' ' !in query.value
    requires Has(rest, CRLF)
    ensures var target := path + if query.Some? then "?" + query.value else "";
            var buf := name + " " + target + " " + rest;
            && RequestTargetOf(buf) == Ok(target)
            && EndpointOf(buf) == Ok(path)
            && QueryStringOf(buf) == Ok(if query.Some? then query.value else "")
            && MethodOf(buf) == Ok(MethodFromName(name))
  {
    hide Find, At;
    var target := path + if query.Some? then "?" + query.value else "";
    var buf := name + " " + target + " " + rest;
    TargetFound(name, target, rest);
    if query.Some? {
      FindAfterWord("", path, '?', query.value);
      assert "" + path + ['?'] + query.value == target;
    } else {
      assert target == path;
      NotFoundChar(path, '?');
    }
    var i: nat :| At(rest, CRLF, i);
    AtSuffix(name + " " + target + " ", rest, CRLF, i);
    assert (name + " " + target + " ") + rest == name + " " + (target + " " + rest);
    assert Has(name + " " + (target + " " + rest), CRLF);
    MethodFound(name, target + " " + rest);
    assert name + " " + (target + " " + rest) == buf;
  }

  lemma TargetFound(name: string, target: string, rest: string)
    requires ' ' !in name && ' ' !in target
    ensures RequestTargetOf(name + " " + target + " " + rest) == Ok(target)
  {
    hide Find, At;
    var buf := name + " " + target + " " + rest;
    FindAfterWord("", name, ' ', target + " " + rest);
    assert "" + name + [' '] + (target + " " + rest) == buf;
    FindAfterWord(name + " ", target, ' ', rest);
    assert |name + " "| == |name| + 1;
    assert (name + " ") + target + [' '] + rest == buf;
    assert buf[|name| + 1..|name| + 1 + |target|] == target;
  }

  lemma MethodFound(name: string, rest: string)
    requires ' ' !in name && !Has(name, CRLF) && Has(name + " " + rest, CRLF)
    ensures MethodOf(name + " " + rest) == Ok(MethodFromName(name))
  {
    hide Find, MethodFromName;
    var buf := name + " " + rest;
    Found(buf, CRLF, 0);
    var i :| At(buf, CRLF, i);
    var end := Find(buf, CRLF, 0).value;
    NotBefore(name, rest, end);
    var line := buf[..end];
    assert line == "" + name + [' '] + line[|name| + 1..];
    FindAfterWord("", name, ' ', line[|name| + 1..]);
    assert line[..|name|] == name;
  }

  lemma NotBefore(name: string, rest: string, i: nat)
    requires !Has(name, CRLF) && At(name + " " + rest, CRLF, i)
    ensures |name| < i
  {
    var buf := name + " " + rest;
    assert buf[i..i + 2][0] == '\r' && buf[i..i + 2][1] == '\n';
    if i + 1 < |name| {
      assert name[i..i + 2] == buf[i..i + 2];
      assert At(name, CRLF, i);
    }
  }

  // What is refused

  /** The first line is what stands before the first CRLF, and nothing when there is none. */
  lemma LineOf(buf: string)
    ensures Has(buf, CRLF) ==> HeaderLineOf(buf) + CRLF <= buf
    ensures Has(buf, CRLF) ==> forall j :: 0 <= j < |HeaderLineOf(buf)| ==> !At(buf, CRLF, j)
    ensures !Has(buf, CRLF) ==> HeaderLineOf(buf) == ""
  {
    Found(buf, CRLF, 0);
    var end := Find(buf, CRLF, 0);
    if end.Some? {
      assert buf[end.value..end.value + 2] == CRLF;
      assert buf[..end.value] + CRLF == buf[..end.value + 2];
    }
  }

  ghost predicate TwoIn(buf: string) {
    exists i, j :: 0 <= i < j < |buf| && buf[i] == ' ' && buf[j] == ' '
  }

  /** A request has a target, a path and a query exactly when it has two spaces; otherwise it gets a 400. */
  lemma TargetIff(buf: string)
    ensures RequestTargetOf(buf).Ok? <==> TwoIn(buf)
    ensures !TwoIn(buf) ==>
              RequestTargetOf(buf) == EndpointOf(buf) == QueryStringOf(buf) == Err(400)
    ensures TwoIn(buf) ==> EndpointOf(buf).Ok? && QueryStringOf(buf).Ok?
  {
    hide Find;
    Found(buf, " ", 0);
    var a := Find(buf, " ", 0);
    if a.Some? {
      AtChar(buf, ' ', a.value);
      Found(buf, " ", a.value + 1);
      var b := Find(buf, " ", a.value + 1);
      if b.Some? {
        AtChar(buf, ' ', b.value);
      }
    }
    if TwoIn(buf) {
      var i, j :| 0 <= i < j < |buf| && buf[i] == ' ' && buf[j] == ' ';
      AtChar(buf, ' ', i);
      AtChar(buf, ' ', j);
      assert At(buf, " ", i) && At(buf, " ", j);
    }
  }

  /** A request has a method exactly when it has a CRLF and a space before the first one. */
  lemma MethodIff(buf: string)
    ensures MethodOf(buf).Ok? <==> ' ' in HeaderLineOf(buf)
    ensures MethodOf(buf).Err? ==> MethodOf(buf) == Err(400)
  {
    hide MethodFromName, At, Find;
    var line := HeaderLineOf(buf);
    Found(line, " ", 0);
    HasChar(line, ' ');
    if Find(line, " ", 0).Some? {
      assert Has(line, " ");
    }
  }

  /** Each method by its names; every other name is not allowed. */
  lemma MethodsByName(name: string)
    ensures MethodFromName(name) == Get <==> name == "GET" || name == "get"
    ensures MethodFromName(name) == Head <==> name == "HEAD" || name == "head"
    ensures MethodFromName(name) == Post <==> name == "POST" || name == "post"
    ensures MethodFromName(name) == Options <==> name == "OPTIONS" || name == "options"
  {
    assert "GET"[0] == 'G' && "get"[0] == 'g' && "HEAD"[0] == 'H' && "head"[0] == 'h';
    assert "POST"[0] == 'P' && "post"[0] == 'p' && "OPTIONS"[0] == 'O' && "options"[0] == 'o';
  }

  /** A text without a space has code 400. */
  lemma SpacelessCode(buf: string)
    requires ' ' !in buf
    ensures StatusCodeOf(buf) == 400
  {
    NotFoundChar(buf, ' ');
  }
}
