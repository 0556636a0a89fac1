/** Which status code a relayed reply parses back to, for every reply the callback accepts. With two
    spaces in the status line it is the reply's own; otherwise the code is looked for beyond the line,
    where the relayed message and the reply differ. */
module RelayedStatus {
  import opened Machine
  import opened Text
  import opened HttpParsers
  import opened HttpMessage
  import opened HttpResponse

  /** The part of a status line behind its first space. */
  function Tail(line: string): string {
    var a := Find(line, " ", 0);
    if a.Some? then line[a.value + 1..] else ""
  }

  function FirstWord(s: string): (w: string)
    ensures w <= s
  {
    var a := Find(s, " ", 0);
    if a.Some? then s[..a.value] else s
  }

  lemma SplitAtSpace(s: string)
    ensures ' ' !in FirstWord(s)
    ensures ' ' in s ==> s == FirstWord(s) + " " + Tail(s)
    ensures ' ' !in s ==> FirstWord(s) == s
  {
    Found(s, " ", 0);
    HasChar(s, ' ');
    forall i | 0 <= i < |FirstWord(s)|
      ensures s[i] != ' '
    {
      AtChar(s, ' ', i);
    }
    var a := Find(s, " ", 0);
    if a.Some? {
      AtChar(s, ' ', a.value);
    } else {
      assert ' ' in s ==> Has(s, " ");
    }
  }

  /** One space in the line: the code is what stands between it and the next space, in the next line. */
  lemma CodeOfSingleSpace(line: string, after: string)
    requires ' ' in line && ' ' !in Tail(line)
    ensures var text := line + CRLF + after;
            StatusCodeOf(text) ==
            if ' ' !in after then BAD_GATEWAY
            else if Blank(Tail(line)) then NumberOr502(FirstWord(after))
            else NumberOr502(Tail(line))
  {
    hide StatusCodeOf, Stoi, Find, FirstWord, Tail;
    var version, tail := FirstWord(line), Tail(line);
    SplitAtSpace(line);
    var text := line + CRLF + after;
    if ' ' in after {
      var word := FirstWord(after);
      SplitAtSpace(after);
      CodeBetweenSpaces(version, tail + CRLF + word, Tail(after));
      assert text == version + " " + (tail + CRLF + word) + " " + Tail(after);
      StoiAcrossBreak(tail, word);
    } else {
      CodeBetweenSpaces(version, tail + CRLF + after, "");
      assert text == version + " " + (tail + CRLF + after);
    }
  }

  /** No space in the line: the code is that of what follows the line. */
  lemma CodeOfNoSpace(line: string, after: string)
    requires ' ' !in line
    ensures StatusCodeOf(line + CRLF + after) == StatusCodeOf(after)
  {
    CodeAfterWord(line + CRLF, after);
  }

  /** What follows the status line. */
  function AfterLine(text: string): string {
    var end := |HeaderLineOf(text)| + 2;
    if end <= |text| then text[end..] else ""
  }

  lemma LineThenRest(text: string)
    requires Find(text, CRLF, 0).Some?
    ensures text == HeaderLineOf(text) + CRLF + AfterLine(text)
  {
    Found(text, CRLF, 0);
    var end := Find(text, CRLF, 0).value;
    assert text[end..end + 2] == CRLF;
  }

  /** The codes of two texts with the same status line, by the spaces in that line. */
  lemma SameLine(line: string, after: string, printed: string)
    requires ' ' in printed
    ensures var code, relayed := StatusCodeOf(line + CRLF + after), StatusCodeOf(line + CRLF + printed);
            && (TwoSpaces(line) ==> relayed == code)
            && (' ' in line && !TwoSpaces(line) && !Blank(Tail(line)) ==>
                  && relayed == NumberOr502(Tail(line))
                  && (relayed == code <==> ' ' in after || NumberOr502(Tail(line)) == BAD_GATEWAY))
            && (' ' in line && !TwoSpaces(line) && Blank(Tail(line)) ==>
                  && relayed == NumberOr502(FirstWord(printed))
                  && (relayed == code <==>
                        relayed == if ' ' in after then NumberOr502(FirstWord(after)) else BAD_GATEWAY))
            && (' ' !in line ==> code == StatusCodeOf(after) && relayed == StatusCodeOf(printed))
  {
    hide Tail, FirstWord, StatusCodeOf, NumberOr502, TwoSpaces, Blank;
    SpacesOf(line);
    if TwoSpaces(line) {
      CodeFromLine(line, CRLF + after);
      CodeFromLine(line, CRLF + printed);
      assert line + (CRLF + after) == line + CRLF + after && line + (CRLF + printed) == line + CRLF + printed;
    } else if ' ' in line {
      CodeOfSingleSpace(line, after);
      CodeOfSingleSpace(line, printed);
    } else {
      CodeOfNoSpace(line, after);
      CodeOfNoSpace(line, printed);
    }
  }

  /** The relayed status code, for every accepted reply and every iteration order of the headers. With
      two spaces in the status line it is the reply's. With one, and something behind it, it is the
      number there, which is the reply's code if and only if the reply has another space anywhere or
      that number is 502. With nothing behind it, or without any space, it is made of the first two
      headers printed, whatever their order puts first. */
  lemma RelayedCodeIff(earlier: Headers, reply: string, date: string, order: seq<string>)
    requires BodyOf(reply).Ok? && HeadersOf(reply).Ok?
    requires Lists(order, RelayedHeaders(earlier, HeadersOf(reply).value, date))
    ensures var line, after := HeaderLineOf(reply), AfterLine(reply);
            var headers := RelayedHeaders(earlier, HeadersOf(reply).value, date);
            var code, relayed := StatusCodeOf(reply), StatusCodeOf(Print(line, order, headers, BodyOf(reply).value));
            && order != []
            && (TwoSpaces(line) ==> relayed == code)
            && (' ' in line && !TwoSpaces(line) && !Blank(Tail(line)) ==>
                  && relayed == NumberOr502(Tail(line))
                  && (relayed == code <==> ' ' in after || NumberOr502(Tail(line)) == BAD_GATEWAY))
            && (' ' in line && !TwoSpaces(line) && Blank(Tail(line)) ==>
                  && relayed == NumberOr502(FirstWord(order[0] + ":"))
                  && (relayed == code <==>
                        relayed == if ' ' in after then NumberOr502(FirstWord(after)) else BAD_GATEWAY))
            && (' ' !in line ==>
                  && |order| >= 2 && relayed == HeadersCode(order, headers)
                  && (relayed == code <==> HeadersCode(order, headers) == StatusCodeOf(after)))
  {
    hide Tail, FirstWord, StatusCodeOf, NumberOr502, TwoSpaces, Blank, Find, AfterLine, HeaderLineOf, BodyOf,
         PrintHeaders, HeadersFrom;
    var line, after := HeaderLineOf(reply), AfterLine(reply);
    var headers := RelayedHeaders(earlier, HeadersOf(reply).value, date);
    var end := CRLF + BodyOf(reply).value;
    var printed := PrintHeaders(order, headers) + end;
    assert "Connection" in order;
    LineThenRest(reply);
    FirstPrinted(order, headers, end);
    SameLine(line, after, printed);
    CodeOfHeaders(order, headers, end);
    assert Print(line, order, headers, BodyOf(reply).value) == line + CRLF + printed;
  }

  lemma SpacesOf(line: string)
    ensures TwoSpaces(line) <==> ' ' in line && ' ' in Tail(line)
  {
    hide At;
    Found(line, " ", 0);
    HasChar(line, ' ');
    var a := Find(line, " ", 0);
    assert a.None? ==> ' ' !in line;
    if a.Some? {
      FindInSuffix(line[..a.value + 1], Tail(line), " ", 0);
      assert line[..a.value + 1] + Tail(line) == line;
      Found(Tail(line), " ", 0);
      HasChar(Tail(line), ' ');
    }
  }

  /** The first word of the printed headers comes from the first key. */
  lemma FirstPrinted(order: seq<string>, headers: Headers, rest: string)
    requires order != [] && forall k :: k in order ==> k in headers
    ensures var printed := PrintHeaders(order, headers) + rest;
            ' ' in printed && FirstWord(printed) == FirstWord(order[0] + ":")
  {
    hide Find, FirstWord, PrintHeaders;
    PrintedFromKey(order, headers, rest);
    var more := headers[order[0]] + CRLF + PrintHeaders(order[1..], headers) + rest;
    FirstWordStays(order[0] + ":", more);
  }

  lemma PrintedFromKey(order: seq<string>, headers: Headers, rest: string)
    requires order != [] && forall k :: k in order ==> k in headers
    ensures PrintHeaders(order, headers) + rest
            == (order[0] + ":") + " " + (headers[order[0]] + CRLF + PrintHeaders(order[1..], headers) + rest)
  {
    var value, others := headers[order[0]], PrintHeaders(order[1..], headers);
    assert PrintHeaders(order, headers) == order[0] + SPLITTER + value + CRLF + others;
    assert SPLITTER == ":" + " ";
  }

  lemma FirstWordStays(s: string, more: string)
    ensures ' ' in s + " " + more && FirstWord(s + " " + more) == FirstWord(s)
  {
    hide Find, Tail;
    var whole := s + " " + more;
    assert whole[|s|] == ' ';
    var word := FirstWord(s);
    SplitAtSpace(s);
    if ' ' in s {
      FindAfterWord("", word, ' ', Tail(s) + " " + more);
      assert "" + word + [' '] + (Tail(s) + " " + more) == whole;
    } else {
      FindAfterWord("", s, ' ', more);
      assert "" + s + [' '] + more == whole;
    }
  }

  /** The code that the printed headers spell by themselves: behind the first space, which is in the first
      key or ends it, up to the next one. */
  function HeadersCode(order: seq<string>, headers: Headers): int
    requires |order| >= 2 && order[0] in headers
  {
    var key, value := order[0], headers[order[0]];
    if ' ' in key then NumberOr502(FirstWord(Tail(key + ":")))
    else if ' ' in value then NumberOr502(FirstWord(value))
    else if Blank(value) then NumberOr502(FirstWord(order[1] + ":"))
    else NumberOr502(value)
  }

  /** The code of a text that starts with a word and a space. */
  lemma CodeBehindWord(word: string, more: string)
    requires ' ' !in word && ' ' in more
    ensures StatusCodeOf(word + " " + more) == NumberOr502(FirstWord(more))
  {
    hide StatusCodeOf, NumberOr502, FirstWord, Tail;
    SplitAtSpace(more);
    CodeBetweenSpaces(word, FirstWord(more), Tail(more));
    assert word + " " + FirstWord(more) + " " + Tail(more) == word + " " + more;
  }

  lemma CodeOfHeaders(order: seq<string>, headers: Headers, rest: string)
    requires "Connection" in headers && "Date" in headers && Lists(order, headers)
    ensures |order| >= 2 && StatusCodeOf(PrintHeaders(order, headers) + rest) == HeadersCode(order, headers)
  {
    hide StatusCodeOf, NumberOr502, FirstWord, Tail, PrintHeaders, Blank;
    TwoHeaders(order, headers);
    var key, value := order[0], headers[order[0]];
    var next := PrintHeaders(order[1..], headers) + rest;
    FirstPrinted(order[1..], headers, rest);
    PrintedFromKey(order, headers, rest);
    Regroup(value + CRLF, PrintHeaders(order[1..], headers), rest);
    CodeOfTwoLines(key, value, next);
  }

  lemma Regroup(a: string, b: string, c: string)
    ensures a + b + c == a + (b + c)
  {
  }

  lemma TwoHeaders(order: seq<string>, headers: Headers)
    requires "Connection" in headers && "Date" in headers && Lists(order, headers)
    ensures |order| >= 2
  {
    assert "Connection" in order && "Date" in order;
    assert "Connection"[0] == 'C' && "Date"[0] == 'D';
  }

  /** The first line "key: value", and behind it one with a space of its own. */
  lemma CodeOfTwoLines(key: string, value: string, next: string)
    requires ' ' in next
    ensures StatusCodeOf((key + ":") + " " + (value + CRLF + next)) ==
            if ' ' in key then NumberOr502(FirstWord(Tail(key + ":")))
            else if ' ' in value then NumberOr502(FirstWord(value))
            else if Blank(value) then NumberOr502(FirstWord(next))
            else NumberOr502(value)
  {
    hide StatusCodeOf, Find, FirstWord, Tail, Stoi, Blank;
    var first, more := key + ":", value + CRLF + next;
    var text := first + " " + more;
    if ' ' in key {
      SplitAtSpace(first);
      var word, tail := FirstWord(first), Tail(first);
      CodeBehindWord(word, tail + " " + more);
      assert word + " " + (tail + " " + more) == text;
      FirstWordStays(tail, more);
      assert tail + " " + more == tail + (" " + more);
    } else if ' ' in value {
      SplitAtSpace(value);
      assert more == FirstWord(value) + " " + (Tail(value) + CRLF + next);
      FirstWordStays(FirstWord(value), Tail(value) + CRLF + next);
      WordIsItself(FirstWord(value));
      CodeBehindWord(first, more);
    } else {
      SplitAtSpace(next);
      var word := value + CRLF + FirstWord(next);
      assert more == word + " " + Tail(next);
      FirstWordStays(word, Tail(next));
      WordIsItself(word);
      CodeBehindWord(first, more);
      StoiAcrossBreak(value, FirstWord(next));
    }
  }

  lemma WordIsItself(word: string)
    requires ' ' !in word
    ensures FirstWord(word) == word
  {
    SplitAtSpace(word);
  }

  /** A number read across a line break is the one before it, unless only white space stands there. */
  lemma StoiAcrossBreak(s: string, next: string)
    ensures Stoi(s + CRLF + next) == if Blank(s) then Stoi(next) else Stoi(s)
  {
    hide Stoi;
    StoiBefore(s, '\r', ['\n'] + next);
    assert s + ['\r'] + (['\n'] + next) == s + CRLF + next;
    StoiBefore("", '\n', next);
    assert "" + ['\n'] + next == ['\n'] + next;
  }

  const BARE := "HTTP/1.1 200"

  lemma BareLine()
    ensures ' ' in BARE && Tail(BARE) == "200" && ' ' !in Tail(BARE) && !Blank("200")
    ensures !Has(BARE, CRLF)
  {
    hide Find;
    var version, code := "HTTP/1.1", "200";
    assert ' ' !in version && BARE == version + [' '] + code;
    FindAfterWord("", version, ' ', code);
    assert "" + version + [' '] + code == BARE;
    assert BARE[|version| + 1..] == code;
    assert BARE[|version|] == ' ';
    assert code[0] == '2';
    NoBreakInWord(BARE);
  }

  lemma NoBreakInWord(word: string)
    requires '\r' !in word
    ensures !Has(word, CRLF)
  {
    forall i: nat
      ensures !At(word, CRLF, i)
    {
      CrlfChars(word, i);
    }
  }

  lemma TwoHundred()
    ensures NumberOr502("200") == 200
  {
    hide Stoi;
    StoiOfDecimal(200, "");
    assert Decimal(2) == "2" && Decimal(20) == "20" && Decimal(200) == "200";
    assert "200" + "" == "200";
  }

  /** A bare status line: the reply is accepted with code 502, and its relayed message says 200. */
  lemma BareStatusLineChanges(date: string, order: seq<string>)
    requires Lists(order, RelayedHeaders(map[], map[], date))
    ensures var reply := BARE + CRLF + CRLF;
            var text := Print(BARE, order, RelayedHeaders(map[], map[], date), "");
            && HeaderLineOf(reply) == BARE && HeadersOf(reply) == Ok(map[]) && BodyOf(reply) == Ok("")
            && StatusCodeOf(reply) == 502 && StatusCodeOf(text) == 200
  {
    hide Find, Stoi, StatusCodeOf, NumberOr502, Tail, Blank, Has, HeaderLineOf, HeadersOf, BodyOf, PrintHeaders;
    BareLine();
    TwoHundred();
    var headers := RelayedHeaders(map[], map[], date);
    BareReply();
    var printed := PrintHeaders(order, headers) + (CRLF + "");
    assert "Connection" in order;
    FirstPrinted(order, headers, CRLF + "");
    CodeOfSingleSpace(BARE, CRLF);
    CodeOfSingleSpace(BARE, printed);
    assert BARE + CRLF + printed == Print(BARE, order, headers, "");
  }

  lemma BareReply()
    requires !Has(BARE, CRLF)
    ensures var reply := BARE + CRLF + CRLF;
            HeaderLineOf(reply) == BARE && HeadersOf(reply) == Ok(map[]) && BodyOf(reply) == Ok("")
  {
    hide Find, HeaderLineOf, HeadersOf, BodyOf, Cut;
    assert BARE + CRLF + CRLF == Print(BARE, [], map[], "");
    PrintedParses(BARE, [], map[], "");
    CutWholeIff("");
  }
}
