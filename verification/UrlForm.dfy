/** The three scanners of URL-encoded forms: the validator, the decoder and the splitter, each as the
    source loops, and the proof that they agree on one grammar. */
module UrlForm {
  // Characters

  predicate IsHex(c: char) {
    '0' <= c <= '9' || 'a' <= c <= 'f' || 'A' <= c <= 'F'
  }

  function HexValue(c: char): (v: nat)
    requires IsHex(c)
    ensures v < 16
  {
    if '0' <= c <= '9' then c as int - '0' as int
    else if 'a' <= c <= 'f' then c as int - 'a' as int + 10
    else c as int - 'A' as int + 10
  }

  /** The unreserved characters of RFC 3986, section 2.3. */
  predicate IsUnreserved(c: char) {
    'a' <= c <= 'z' || 'A' <= c <= 'Z' || '0' <= c <= '9' || c in {'-', '_', '.', '~'}
  }

  predicate IsPlain(c: char) {
    c == '+' || IsUnreserved(c)
  }

  /** An escape starts here: a percent sign and two hexadecimal digits. */
  predicate Escape(s: string) {
    |s| >= 3 && s[0] == '%' && IsHex(s[1]) && IsHex(s[2])
  }

  function Unescape(high: char, low: char): char
    requires IsHex(high) && IsHex(low)
  {
    (16 * HexValue(high) + HexValue(low)) as char
  }

  // Decoding

  /** `url_decode`: malformed escapes stand for themselves. */
  function Decode(s: string): string {
    if s == "" then ""
    else if Escape(s) then [Unescape(s[1], s[2])] + Decode(s[3..])
    else if s[0] == '+' then [' '] + Decode(s[1..])
    else [s[0]] + Decode(s[1..])
  }

  lemma DecodeEscape(s: string, i: nat)
    requires i + 2 < |s| && s[i] == '%' && IsHex(s[i + 1]) && IsHex(s[i + 2])
    ensures Decode(s[i..]) == [Unescape(s[i + 1], s[i + 2])] + Decode(s[i + 3..])
  {
    assert s[i..][3..] == s[i + 3..];
  }

  lemma DecodeOne(s: string, i: nat)
    requires i < |s| && !Escape(s[i..])
    ensures Decode(s[i..]) == [if s[i] == '+' then ' ' else s[i]] + Decode(s[i + 1..])
  {
    assert s[i..][1..] == s[i + 1..];
  }

  method UrlDecode(buf: string) returns (decoded: string)
    ensures decoded == Decode(buf)
  {
    hide Decode, Unescape;
    decoded := "";
    var i := 0;
    assert buf[0..] == buf;
    while i < |buf|
      invariant 0 <= i <= |buf|
      invariant decoded + Decode(buf[i..]) == Decode(buf)
    {
      ghost var before := decoded;
      var c: char;
      if buf[i] == '%' && i + 2 < |buf| && IsHex(buf[i + 1]) && IsHex(buf[i + 2]) {
        DecodeEscape(buf, i);
        c := Unescape(buf[i + 1], buf[i + 2]);
        i := i + 2;
      } else {
        DecodeOne(buf, i);
        c := if buf[i] == '+' then ' ' else buf[i];
      }
      decoded := decoded + [c];
      i := i + 1;
      assert before + ([c] + Decode(buf[i..])) == decoded + Decode(buf[i..]);
    }
    DecodeEnd(buf);
  }

  lemma DecodeEnd(s: string)
    ensures Decode(s[|s|..]) == ""
  {
  }

  /** No escape starts anywhere in the text. */
  predicate NoEscapeIn(s: string) {
    forall i :: 0 <= i < |s| ==> !Escape(s[i..])
  }

  lemma NoEscapeBehind(s: string)
    requires s != ""
    ensures NoEscapeIn(s) <==> !Escape(s) && NoEscapeIn(s[1..])
  {
    hide Escape;
    assert s[0..] == s;
    assert forall i :: 0 <= i < |s| - 1 ==> s[1..][i..] == s[i + 1..];
    if !Escape(s) && NoEscapeIn(s[1..]) {
      forall i | 0 < i < |s|
        ensures !Escape(s[i..])
      {
        assert s[1..][i - 1..] == s[i..];
      }
    }
  }

  lemma {:induction false} DecodeNoLonger(s: string)
    ensures |Decode(s)| <= |s|
  {
    if s != "" {
      DecodeNoLonger(if Escape(s) then s[3..] else s[1..]);
    }
  }

  /** Decoding leaves a text alone exactly when it holds no plus sign and no escape anywhere: a percent
      sign that starts no escape stands for itself. */
  lemma {:induction false} DecodeKeepsIff(s: string)
    ensures |Decode(s)| <= |s|
    ensures Decode(s) == s <==> '+' !in s && NoEscapeIn(s)
  {
    DecodeNoLonger(s);
    if s != "" {
      NoEscapeBehind(s);
      if Escape(s) {
        DecodeNoLonger(s[3..]);
      } else {
        hide Escape, NoEscapeIn, Unescape;
        DecodeKeepsIff(s[1..]);
        assert s == [s[0]] + s[1..];
      }
    }
  }

  // The grammar

  /** A run of units: plain characters and escapes. */
  predicate Units(s: string) {
    s == "" || (Escape(s) && Units(s[3..])) || (IsPlain(s[0]) && Units(s[1..]))
  }

  datatype Pair = Pair(key: string, value: string)

  predicate IsPair(p: Pair) {
    p.key != "" && Units(p.key) && Units(p.value)
  }

  function Join(pairs: seq<Pair>): string {
    if pairs == [] then ""
    else pairs[0].key + "=" + pairs[0].value + (if |pairs| > 1 then "&" + Join(pairs[1..]) else "")
  }

  /** One or more pairs joined by ampersands, with an optional last ampersand. */
  ghost predicate Forms(s: string, pairs: seq<Pair>) {
    && pairs != [] && (forall i :: 0 <= i < |pairs| ==> IsPair(pairs[i]))
    && (s == Join(pairs) || s == Join(pairs) + "&")
  }

  ghost predicate InGrammar(s: string) {
    exists pairs :: Forms(s, pairs)
  }

  // Searching for one character

  function IndexOf(s: string, c: char): (i: nat)
    ensures i <= |s|
  {
    if s == "" || s[0] == c then 0 else 1 + IndexOf(s[1..], c)
  }

  function Before(s: string, c: char): string {
    s[..IndexOf(s, c)]
  }

  function Beyond(s: string, c: char): (r: string)
    ensures IndexOf(s, c) < |s| ==> |r| < |s|
  {
    if IndexOf(s, c) < |s| then s[IndexOf(s, c) + 1..] else ""
  }

  lemma {:induction false} IndexFound(s: string, c: char)
    ensures var i := IndexOf(s, c);
            (i < |s| ==> s[i] == c) && c !in s[..i]
  {
    if s != "" && s[0] != c {
      IndexFound(s[1..], c);
      var i := IndexOf(s, c);
      assert s[..i] == [s[0]] + s[1..][..i - 1];
    }
  }

  lemma {:induction false} IndexIs(word: string, c: char, rest: string)
    requires c !in word
    ensures IndexOf(word + [c] + rest, c) == |word| && IndexOf(word, c) == |word|
  {
    if word == "" {
      assert word + [c] + rest == [c] + rest;
    } else {
      assert (word + [c] + rest)[1..] == word[1..] + [c] + rest;
      IndexIs(word[1..], c, rest);
    }
  }

  lemma SplitIs(word: string, c: char, rest: string)
    requires c !in word
    ensures var s := word + [c] + rest;
            IndexOf(s, c) == |word| && Before(s, c) == word && Beyond(s, c) == rest
    ensures IndexOf(word, c) == |word| && Before(word, c) == word && Beyond(word, c) == ""
  {
    IndexIs(word, c, rest);
    assert (word + [c] + rest)[..|word|] == word;
    assert (word + [c] + rest)[|word| + 1..] == rest;
    assert word[..|word|] == word;
  }

  lemma SplitJoins(s: string, c: char)
    ensures s == if IndexOf(s, c) < |s| then Before(s, c) + [c] + Beyond(s, c) else Before(s, c)
    ensures IndexOf(s, c) == |s| ==> Beyond(s, c) == ""
  {
    IndexFound(s, c);
  }

  lemma {:induction false} UnitsNo(s: string, c: char)
    requires Units(s) && c != '%' && !IsHex(c) && !IsPlain(c)
    ensures c !in s
  {
    if s != "" {
      if Escape(s) {
        UnitsNo(s[3..], c);
        assert forall i :: 3 <= i < |s| ==> s[i] == s[3..][i - 3];
      } else {
        UnitsNo(s[1..], c);
        assert forall i :: 1 <= i < |s| ==> s[i] == s[1..][i - 1];
      }
    }
  }

  // Validation

  /** The validator's verdict on the suffix it still has to look at. */
  predicate Valid(s: string)
    decreases |s|
  {
    && 0 < IndexOf(s, '=') < |s| && Units(Before(s, '='))
    && var rest := Beyond(s, '=');
       && Units(Before(rest, '&'))
       && (Beyond(rest, '&') == "" || Valid(Beyond(rest, '&')))
  }

  /** The scan of one key or value as the source does it: its bound check looks at the whole text, not
      at the end of the piece. When the piece is followed by the end or by a character that is no
      hexadecimal digit, this makes no difference: an escape cannot cross the boundary. */
  method ScanUnits(s: string, from: nat, end: nat) returns (ok: bool)
    requires from <= end <= |s|
    requires end < |s| ==> !IsHex(s[end])
    ensures ok == Units(s[from..end])
  {
    var k := from;
    while k < end
      invariant from <= k <= end
      invariant Units(s[from..end]) == Units(s[k..end])
      decreases end - k
    {
      ghost var piece := s[k..end];
      assert piece[1..] == s[k + 1..end];
      var c := s[k];
      if c == '%' {
        if k + 2 >= |s| || !IsHex(s[k + 1]) || !IsHex(s[k + 2]) {
          return false;
        }
        assert k + 2 < end;
        assert piece[3..] == s[k + 3..end];
        k := k + 2;
      } else if !IsPlain(c) {
        return false;
      }
      k := k + 1;
    }
    assert s[k..end] == "";
    return true;
  }

  /** What the validator checks on the suffix from `i`, by positions in the whole text. */
  lemma ValidAt(s: string, i: nat)
    requires i <= |s|
    ensures var eq := i + IndexOf(s[i..], '=');
            && (eq == |s| || eq == i ==> !Valid(s[i..]))
            && (i < eq < |s| ==>
                  var end := eq + 1 + IndexOf(s[eq + 1..], '&');
                  (Valid(s[i..]) <==>
                     Units(s[i..eq]) && Units(s[eq + 1..end]) && (end + 1 >= |s| || Valid(s[end + 1..]))))
  {
    hide Units, IndexOf;
    var t := s[i..];
    var eq := i + IndexOf(t, '=');
    if i < eq < |s| {
      assert Before(t, '=') == s[i..eq];
      assert Beyond(t, '=') == s[eq + 1..];
      var end := eq + 1 + IndexOf(s[eq + 1..], '&');
      assert Before(s[eq + 1..], '&') == s[eq + 1..end];
      assert Beyond(s[eq + 1..], '&') == if end < |s| then s[end + 1..] else "";
    }
  }

  /** The validator accepts exactly the grammar. */
  method IsValidUrlForm(s: string) returns (ok: bool)
    ensures ok <==> Valid(s)
    ensures ok <==> InGrammar(s)
  {
    hide Valid, Units, InGrammar, IndexOf;
    ValidIffInGrammar(s);
    NothingInvalid();
    assert s[0..] == s;
    if s == "" {
      return false;
    }
    var i := 0;
    while i < |s|
      invariant 0 <= i <= |s|
      invariant Valid(s) == (i == |s| || Valid(s[i..]))
      decreases |s| - i
    {
      ValidAt(s, i);
      var eq := i + IndexOf(s[i..], '=');
      if eq == |s| || eq == i {
        return false;
      }
      IndexFound(s[i..], '=');
      assert s[eq] == s[i..][eq - i];
      var ok := ScanUnits(s, i, eq);
      if !ok {
        return false;
      }
      var end := eq + 1 + IndexOf(s[eq + 1..], '&');
      IndexFound(s[eq + 1..], '&');
      assert end < |s| ==> s[end] == s[eq + 1..][end - eq - 1];
      ok := ScanUnits(s, eq + 1, end);
      if !ok {
        return false;
      }
      if end == |s| {
        break;
      }
      i := end + 1;
    }
    return true;
  }

  lemma NothingInvalid()
    ensures !Valid("")
  {
  }

  // The validator accepts exactly the grammar

  lemma PairFound(p: Pair, after: string)
    requires IsPair(p) && (after == "" || after[0] == '&')
    ensures var s := p.key + "=" + p.value + after;
            Valid(s) <==> |after| <= 1 || Valid(after[1..])
  {
    hide Units, IndexOf, Before, Beyond;
    var s := p.key + "=" + p.value + after;
    UnitsNo(p.key, '=');
    UnitsNo(p.value, '&');
    assert s == p.key + ['='] + (p.value + after);
    SplitIs(p.key, '=', p.value + after);
    if after == "" {
      SplitIs(p.value, '&', "");
      assert p.value + after == p.value;
    } else {
      assert p.value + after == p.value + ['&'] + after[1..];
      SplitIs(p.value, '&', after[1..]);
    }
  }

  lemma {:induction false} JoinedValid(pairs: seq<Pair>, last: string)
    requires pairs != [] && (forall i :: 0 <= i < |pairs| ==> IsPair(pairs[i])) && (last == "" || last == "&")
    ensures Valid(Join(pairs) + last)
    decreases |pairs|
  {
    hide Valid, IsPair;
    var p := pairs[0];
    assert IsPair(p);
    var after := if |pairs| > 1 then "&" + (Join(pairs[1..]) + last) else last;
    assert Join(pairs) + last == p.key + "=" + p.value + after;
    if |pairs| > 1 {
      assert forall i :: 0 <= i < |pairs[1..]| ==> pairs[1..][i] == pairs[i + 1];
      JoinedValid(pairs[1..], last);
      assert after[1..] == Join(pairs[1..]) + last;
    }
    PairFound(p, after);
  }

  /** The pairs of a valid form. */
  function Pairs(s: string): (pairs: seq<Pair>)
    requires Valid(s)
    ensures pairs != []
    decreases |s|
  {
    var rest := Beyond(s, '=');
    [Pair(Before(s, '='), Before(rest, '&'))] + if Beyond(rest, '&') == "" then [] else Pairs(Beyond(rest, '&'))
  }

  lemma {:induction false} ValidForms(s: string)
    requires Valid(s)
    ensures Forms(s, Pairs(s))
    decreases |s|
  {
    hide Units, IndexOf, Before;
    var rest := Beyond(s, '=');
    var p := Pair(Before(s, '='), Before(rest, '&'));
    SplitJoins(s, '=');
    SplitJoins(rest, '&');
    if Beyond(rest, '&') == "" {
      assert Join([p]) == p.key + "=" + p.value;
    } else {
      var next := Beyond(rest, '&');
      ValidForms(next);
      MorePairs(p, s, next, Pairs(next));
      assert Pairs(s) == [p] + Pairs(next);
    }
  }

  lemma MorePairs(p: Pair, s: string, next: string, pairs: seq<Pair>)
    requires IsPair(p) && Forms(next, pairs) && s == p.key + "=" + (p.value + "&" + next)
    ensures Forms(s, [p] + pairs)
  {
    hide IsPair;
    var all := [p] + pairs;
    assert all[1..] == pairs;
    var j := Join(pairs);
    assert Join(all) == p.key + "=" + p.value + ("&" + j);
    hide Join;
    if next == j {
      assert s == Join(all);
    } else {
      assert p.key + "=" + (p.value + "&" + (j + "&")) == p.key + "=" + p.value + ("&" + j) + "&";
    }
  }

  lemma ValidIffInGrammar(s: string)
    ensures Valid(s) <==> InGrammar(s)
  {
    if Valid(s) {
      ValidForms(s);
    }
    if InGrammar(s) {
      var pairs :| Forms(s, pairs);
      JoinedValid(pairs, "");
      JoinedValid(pairs, "&");
      assert Join(pairs) + "" == Join(pairs);
    }
  }

  // Splitting

  /** The source's JSON value: null until the first pair is stored. */
  datatype Json = Null | Object(fields: map<string, string>)

  function Put(j: Json, key: string, value: string): Json {
    match j
    case Null => Object(map[key := value])
    case Object(fields) => Object(fields[key := value])
  }

  /** One segment between ampersands; without an equals sign it is skipped. */
  function PutSegment(j: Json, segment: string): Json {
    if IndexOf(segment, '=') < |segment|
    then Put(j, Decode(Before(segment, '=')), Decode(Beyond(segment, '=')))
    else j
  }

  function ParseFrom(s: string, j: Json): Json
    decreases |s|
  {
    if s == "" then j
    else
      SplitJoins(s, '&');
      ParseFrom(Beyond(s, '&'), PutSegment(j, Before(s, '&')))
  }

  /** `parse_url_form`: `getline` takes the segments off the stream one by one. */
  method ParseUrlForm(body: string) returns (result: Json)
    ensures result == ParseFrom(body, Null)
  {
    hide Decode, Put, IndexOf;
    result := Null;
    var stream := body;
    while stream != ""
      invariant ParseFrom(stream, result) == ParseFrom(body, Null)
      decreases |stream|
    {
      SplitJoins(stream, '&');
      var segment := Before(stream, '&');
      stream := Beyond(stream, '&');
      var delimiter := IndexOf(segment, '=');
      if delimiter < |segment| {
        var key := UrlDecode(segment[..delimiter]);
        var value := UrlDecode(segment[delimiter + 1..]);
        result := Put(result, key, value);
      }
    }
  }

  /** The decoded pairs stored in order, each overriding an earlier one with the same key. */
  function Collect(pairs: seq<Pair>, j: Json): Json {
    if pairs == [] then j
    else Collect(pairs[1..], Put(j, Decode(pairs[0].key), Decode(pairs[0].value)))
  }

  /** On every text the validator accepts, the splitter finds exactly the grammar's pairs. */
  lemma {:induction false} ScannersAgree(s: string, j: Json)
    requires Valid(s)
    ensures ParseFrom(s, j) == Collect(Pairs(s), j)
    decreases |Pairs(s)|
  {
    hide Units, Decode, Put, IndexOf, Before, Beyond;
    var rest := Beyond(s, '=');
    var key, value := Before(s, '='), Before(rest, '&');
    ValidPieces(s);
    var segment := key + ['='] + value;
    var j' := Put(j, Decode(key), Decode(value));
    assert PutSegment(j, segment) == j';
    assert ParseFrom(s, j) == ParseFrom(Beyond(rest, '&'), j');
    if Beyond(rest, '&') == "" {
      assert Pairs(s) == [Pair(key, value)];
      assert Collect([], j') == j';
    } else {
      ScannersAgree(Beyond(rest, '&'), j');
      assert Pairs(s)[1..] == Pairs(Beyond(rest, '&'));
    }
  }

  /** The first segment of a valid text is its first pair. */
  lemma ValidPieces(s: string)
    requires Valid(s)
    ensures var rest := Beyond(s, '=');
            var segment := Before(s, '=') + ['='] + Before(rest, '&');
            && s != "" && Before(s, '&') == segment && Beyond(s, '&') == Beyond(rest, '&')
            && IndexOf(segment, '=') < |segment|
            && Before(segment, '=') == Before(s, '=') && Beyond(segment, '=') == Before(rest, '&')
  {
    hide Units, IndexOf, Before, Beyond;
    var rest := Beyond(s, '=');
    var key, value := Before(s, '='), Before(rest, '&');
    var segment := key + ['='] + value;
    SplitJoins(s, '=');
    SplitJoins(rest, '&');
    UnitsNo(key, '&');
    UnitsNo(key, '=');
    UnitsNo(value, '&');
    assert '&' !in segment;
    SplitIs(key, '=', value);
    if IndexOf(rest, '&') < |rest| {
      assert s == segment + ['&'] + Beyond(rest, '&');
    } else {
      assert s == segment;
    }
    SplitIs(segment, '&', Beyond(rest, '&'));
  }

  /** What `Collect` stores: the keys are the decoded keys, and each has the value of its last pair. */
  lemma {:induction false} CollectIsLastWins(pairs: seq<Pair>, j: Json, i: nat)
    requires i < |pairs|
    requires forall k :: i < k < |pairs| ==> Decode(pairs[k].key) != Decode(pairs[i].key)
    ensures var r := Collect(pairs, j);
            && r.Object? && Decode(pairs[i].key) in r.fields
            && r.fields[Decode(pairs[i].key)] == Decode(pairs[i].value)
            && forall key :: key in r.fields ==>
                 (j.Object? && key in j.fields) || exists k :: 0 <= k < |pairs| && Decode(pairs[k].key) == key
    decreases |pairs|
  {
    hide Decode;
    var j' := Put(j, Decode(pairs[0].key), Decode(pairs[0].value));
    if i > 0 {
      assert forall k :: 0 < k < |pairs| ==> pairs[k] == pairs[1..][k - 1];
      CollectIsLastWins(pairs[1..], j', i - 1);
    } else {
      CollectKeeps(pairs[1..], j', Decode(pairs[0].key));
    }
    var r := Collect(pairs, j);
    forall key | key in r.fields && !(j.Object? && key in j.fields)
      ensures exists k :: 0 <= k < |pairs| && Decode(pairs[k].key) == key
    {
      CollectKeys(pairs, j, key);
    }
  }

  lemma {:induction false} CollectKeeps(pairs: seq<Pair>, j: Json, key: string)
    requires j.Object? && key in j.fields
    requires forall k :: 0 <= k < |pairs| ==> Decode(pairs[k].key) != key
    ensures var r := Collect(pairs, j);
            r.Object? && key in r.fields && r.fields[key] == j.fields[key]
    decreases |pairs|
  {
    hide Decode;
    if pairs != [] {
      assert Decode(pairs[0].key) != key;
      CollectKeeps(pairs[1..], Put(j, Decode(pairs[0].key), Decode(pairs[0].value)), key);
    }
  }

  lemma {:induction false} CollectKeys(pairs: seq<Pair>, j: Json, key: string)
    requires Collect(pairs, j).Object? && key in Collect(pairs, j).fields
    requires !(j.Object? && key in j.fields)
    ensures exists k :: 0 <= k < |pairs| && Decode(pairs[k].key) == key
    decreases |pairs|
  {
    hide Decode;
    if Decode(pairs[0].key) != key {
      CollectKeys(pairs[1..], Put(j, Decode(pairs[0].key), Decode(pairs[0].value)), key);
      var k :| 0 <= k < |pairs[1..]| && Decode(pairs[1..][k].key) == key;
      assert pairs[k + 1] == pairs[1..][k];
    }
  }

  // Encoding

  /** The strings of the source: one byte a character. */
  predicate IsBytes(s: string) {
    forall i :: 0 <= i < |s| ==> s[i] as int < 256
  }

  function HexDigit(v: nat): (c: char)
    requires v < 16
    ensures IsHex(c) && HexValue(c) == v
  {
    if v < 10 then '0' + v as char else 'A' + (v - 10) as char
  }

  /** Percent-encoding, with a space written as a plus sign. */
  function EncodeChar(c: char): (r: string)
    requires c as int < 256
    ensures r != "" && Units(r)
  {
    if IsUnreserved(c) then [c]
    else if c == ' ' then "+"
    else ['%', HexDigit(c as int / 16), HexDigit(c as int % 16)]
  }

  function Encode(s: string): string
    requires IsBytes(s)
  {
    if s == "" then "" else EncodeChar(s[0]) + Encode(s[1..])
  }

  lemma DecodeEncodedChar(c: char, rest: string)
    requires c as int < 256
    ensures Decode(EncodeChar(c) + rest) == [c] + Decode(rest)
  {
    var e := EncodeChar(c);
    if IsUnreserved(c) || c == ' ' {
      assert (e + rest)[1..] == rest;
    } else {
      assert (e + rest)[3..] == rest;
      assert 16 * (c as int / 16) + c as int % 16 == c as int;
    }
  }

  lemma UnitsJoin(c: char, rest: string)
    requires c as int < 256 && Units(rest)
    ensures Units(EncodeChar(c) + rest)
  {
    var e := EncodeChar(c);
    if IsUnreserved(c) || c == ' ' {
      assert (e + rest)[1..] == rest;
    } else {
      assert (e + rest)[3..] == rest;
    }
  }

  /** Decoding undoes encoding, and encoded text is a run of units. */
  lemma {:induction false} DecodeEncode(s: string)
    requires IsBytes(s)
    ensures Decode(Encode(s)) == s && Units(Encode(s)) && (s != "" ==> Encode(s) != "")
    decreases |s|
  {
    if s != "" {
      hide Decode, Units, EncodeChar;
      DecodeEncode(s[1..]);
      DecodeEncodedChar(s[0], Encode(s[1..]));
      UnitsJoin(s[0], Encode(s[1..]));
      assert [s[0]] + s[1..] == s;
    }
  }

  function EncodePairs(pairs: seq<Pair>): seq<Pair>
    requires forall i :: 0 <= i < |pairs| ==> IsBytes(pairs[i].key) && IsBytes(pairs[i].value)
  {
    if pairs == [] then []
    else [Pair(Encode(pairs[0].key), Encode(pairs[0].value))] + EncodePairs(pairs[1..])
  }

  /** The pairs stored as they are, a later one overriding an earlier one with the same key. */
  function LastWins(pairs: seq<Pair>, j: Json): Json {
    if pairs == [] then j else LastWins(pairs[1..], Put(j, pairs[0].key, pairs[0].value))
  }

  lemma {:induction false} EncodedPairs(pairs: seq<Pair>, j: Json)
    requires forall i :: 0 <= i < |pairs| ==> pairs[i].key != "" && IsBytes(pairs[i].key) && IsBytes(pairs[i].value)
    ensures |EncodePairs(pairs)| == |pairs|
    ensures forall i :: 0 <= i < |pairs| ==> IsPair(EncodePairs(pairs)[i])
    ensures Collect(EncodePairs(pairs), j) == LastWins(pairs, j)
    decreases |pairs|
  {
    hide Decode, Units, Encode, Put, IsBytes;
    if pairs != [] {
      DecodeEncode(pairs[0].key);
      DecodeEncode(pairs[0].value);
      assert forall i :: 0 <= i < |pairs[1..]| ==> pairs[1..][i] == pairs[i + 1];
      EncodedPairs(pairs[1..], Put(j, pairs[0].key, pairs[0].value));
      assert EncodePairs(pairs)[1..] == EncodePairs(pairs[1..]);
    }
  }

  /** Reading off the first pair of a valid text. */
  lemma FirstPair(p: Pair, s: string, next: string)
    requires IsPair(p) && Valid(s) && s == p.key + "=" + p.value + (if next == "" then "" else "&" + next)
    ensures next != "" ==> Valid(next)
    ensures Pairs(s) == [p] + if next == "" then [] else Pairs(next)
  {
    hide Units, IndexOf, Before, Beyond;
    UnitsNo(p.key, '=');
    UnitsNo(p.value, '&');
    if next == "" {
      assert s == p.key + ['='] + p.value;
      SplitIs(p.key, '=', p.value);
      SplitIs(p.value, '&', "");
    } else {
      assert s == p.key + ['='] + (p.value + ['&'] + next);
      SplitIs(p.key, '=', p.value + ['&'] + next);
      SplitIs(p.value, '&', next);
    }
  }

  lemma {:induction false} PairsOfJoined(pairs: seq<Pair>)
    requires pairs != [] && forall i :: 0 <= i < |pairs| ==> IsPair(pairs[i])
    ensures Valid(Join(pairs)) && Pairs(Join(pairs)) == pairs
    decreases |pairs|
  {
    hide Valid, Pairs, IsPair;
    JoinedValid(pairs, "");
    assert Join(pairs) + "" == Join(pairs);
    var next := if |pairs| > 1 then Join(pairs[1..]) else "";
    if |pairs| > 1 {
      assert forall i :: 0 <= i < |pairs[1..]| ==> pairs[1..][i] == pairs[i + 1];
      PairsOfJoined(pairs[1..]);
      NothingInvalid();
    }
    FirstPair(pairs[0], Join(pairs), next);
    assert pairs == [pairs[0]] + pairs[1..];
  }

  /** Every list of pairs with non-empty keys survives the round trip: its encoded form is accepted by
      the validator, and the splitter returns the last-wins map of the list. */
  lemma FormRoundTrip(pairs: seq<Pair>)
    requires pairs != []
    requires forall i :: 0 <= i < |pairs| ==> pairs[i].key != "" && IsBytes(pairs[i].key) && IsBytes(pairs[i].value)
    ensures var s := Join(EncodePairs(pairs));
            Valid(s) && InGrammar(s) && ParseFrom(s, Null) == LastWins(pairs, Null)
  {
    hide ParseFrom, Collect, LastWins, Valid, IsPair, Join;
    EncodedPairs(pairs, Null);
    PairsOfJoined(EncodePairs(pairs));
    var s := Join(EncodePairs(pairs));
    ScannersAgree(s, Null);
    ValidIffInGrammar(s);
  }

  // Every spelling

  /** `c` is the digit of value `v`, in either case. */
  predicate IsDigitOf(v: nat, c: char)
    requires v < 16
  {
    c == "0123456789abcdef"[v] || c == "0123456789ABCDEF"[v]
  }

  /** An escape decodes to the character its two digits spell, whatever their case. */
  lemma DecodeSpelled(v: nat, u: nat, high: char, low: char, rest: string)
    requires v < 16 && u < 16 && IsDigitOf(v, high) && IsDigitOf(u, low)
    ensures Decode(['%', high, low] + rest) == [(16 * v + u) as char] + Decode(rest)
  {
    DigitValue(v, high);
    DigitValue(u, low);
    var s := ['%', high, low] + rest;
    assert s[3..] == rest;
  }

  lemma DigitValue(v: nat, c: char)
    requires v < 16 && IsDigitOf(v, c)
    ensures IsHex(c) && HexValue(c) == v
  {
  }

  lemma ValueDigit(c: char)
    requires IsHex(c)
    ensures IsDigitOf(HexValue(c), c)
  {
  }

  /** `e` is a spelling of the character: itself if it is unreserved, a plus sign for a space, or any escape. */
  ghost predicate SpellsChar(c: char, e: string) {
    || (IsUnreserved(c) && e == [c])
    || (c == ' ' && e == "+")
    || (|e| == 3 && e[0] == '%'
        && exists v, u :: 0 <= v < 16 && 0 <= u < 16 && IsDigitOf(v, e[1]) && IsDigitOf(u, e[2])
                          && 16 * v + u == c as int)
  }

  /** `t` spells the text, character by character. */
  ghost predicate Spells(s: string, t: string) {
    if s == "" then t == ""
    else exists k :: 0 < k <= |t| && SpellsChar(s[0], t[..k]) && Spells(s[1..], t[k..])
  }

  lemma SpelledChar(c: char, e: string, rest: string)
    requires SpellsChar(c, e)
    ensures e != "" && Decode(e + rest) == [c] + Decode(rest) && (Units(rest) ==> Units(e + rest))
  {
    if |e| == 3 && e[0] == '%' && !(IsUnreserved(c) && e == [c]) {
      var v, u :| 0 <= v < 16 && 0 <= u < 16 && IsDigitOf(v, e[1]) && IsDigitOf(u, e[2]) && 16 * v + u == c as int;
      DecodeSpelled(v, u, e[1], e[2], rest);
      assert e == ['%', e[1], e[2]];
      DigitValue(v, e[1]);
      DigitValue(u, e[2]);
      assert (e + rest)[3..] == rest;
    } else {
      assert (e + rest)[1..] == rest;
    }
  }

  /** Decoding is exactly the inverse of spelling: a text is a spelling of what it decodes to if and only if
      it is a run of units. */
  lemma {:induction false} SpellsIff(s: string, t: string)
    ensures Spells(s, t) <==> Units(t) && Decode(t) == s
    decreases |t|
  {
    hide SpellsChar, Unescape;
    if Spells(s, t) && s != "" {
      var k :| 0 < k <= |t| && SpellsChar(s[0], t[..k]) && Spells(s[1..], t[k..]);
      SpellsIff(s[1..], t[k..]);
      SpelledChar(s[0], t[..k], t[k..]);
      assert t[..k] + t[k..] == t;
      assert [s[0]] + s[1..] == s;
    }
    if Units(t) && Decode(t) == s && t != "" {
      var k := if Escape(t) then 3 else 1;
      FirstSpelled(t);
      SpellsIff(Decode(t[k..]), t[k..]);
      assert s[1..] == Decode(t[k..]);
      assert Spells(s[1..], t[k..]);
    }
  }

  lemma FirstSpelled(t: string)
    requires Units(t) && t != ""
    ensures var k := if Escape(t) then 3 else 1;
            Decode(t) != "" && Decode(t) == [Decode(t)[0]] + Decode(t[k..]) && SpellsChar(Decode(t)[0], t[..k])
  {
    if Escape(t) {
      ValueDigit(t[1]);
      ValueDigit(t[2]);
      assert t[..3] == ['%', t[1], t[2]];
    } else {
      assert t[..1] == [t[0]];
    }
  }

  /** The second list spells the first, pair by pair. */
  ghost predicate SpellsPairs(pairs: seq<Pair>, spelled: seq<Pair>) {
    |pairs| == |spelled| && forall i :: 0 <= i < |pairs| ==>
      Spells(pairs[i].key, spelled[i].key) && Spells(pairs[i].value, spelled[i].value)
  }

  lemma {:induction false} SpelledPairs(pairs: seq<Pair>, spelled: seq<Pair>, j: Json)
    requires SpellsPairs(pairs, spelled) && forall i :: 0 <= i < |pairs| ==> pairs[i].key != ""
    ensures forall i :: 0 <= i < |spelled| ==> IsPair(spelled[i])
    ensures Collect(spelled, j) == LastWins(pairs, j)
    decreases |pairs|
  {
    hide Decode, Units, Spells, Put;
    if pairs != [] {
      SpellsIff(pairs[0].key, spelled[0].key);
      SpellsIff(pairs[0].value, spelled[0].value);
      assert spelled[0].key != "" by {
        NothingDecoded();
      }
      assert forall i :: 0 <= i < |pairs[1..]| ==> pairs[1..][i] == pairs[i + 1] && spelled[1..][i] == spelled[i + 1];
      SpelledPairs(pairs[1..], spelled[1..], Put(j, pairs[0].key, pairs[0].value));
    }
  }

  lemma NothingDecoded()
    ensures Decode("") == ""
  {
  }

  /** The round trip for every encoder, whatever spelling it chooses for each character: the form is accepted,
      and the splitter returns the last-wins map of the list. */
  lemma SpelledFormRoundTrip(pairs: seq<Pair>, spelled: seq<Pair>)
    requires pairs != [] && SpellsPairs(pairs, spelled) && forall i :: 0 <= i < |pairs| ==> pairs[i].key != ""
    ensures var s := Join(spelled);
            Valid(s) && InGrammar(s) && ParseFrom(s, Null) == LastWins(pairs, Null)
  {
    hide ParseFrom, Collect, LastWins, Valid, IsPair, Join, Spells;
    SpelledPairs(pairs, spelled, Null);
    PairsOfJoined(spelled);
    ScannersAgree(Join(spelled), Null);
    ValidIffInGrammar(Join(spelled));
  }

  // The characters, and texts that are no forms

  const DIGITS: string := "0123456789"
  const CAPITALS: string := "ABCDEFGHIJKLMNOPQRSTUVWXYZ"
  const SMALL: string := "abcdefghijklmnopqrstuvwxyz"

  lemma CharacterSets(c: char)
    ensures c in DIGITS <==> '0' <= c <= '9'
    ensures c in CAPITALS <==> 'A' <= c <= 'Z'
    ensures c in SMALL <==> 'a' <= c <= 'z'
    ensures c in "-_.~" <==> c == '-' || c == '_' || c == '.' || c == '~'
  {
    DigitPlaces(c);
    CapitalPlaces(c);
    SmallPlaces(c);
    assert forall i :: 0 <= i < 4 ==> "-_.~"[i] in {'-', '_', '.', '~'};
    assert "-_.~"[0] == '-' && "-_.~"[1] == '_' && "-_.~"[2] == '.' && "-_.~"[3] == '~';
  }

  lemma DigitPlaces(c: char)
    ensures c in DIGITS <==> '0' <= c <= '9'
  {
    if '0' <= c <= '9' {
      assert DIGITS[c as int - '0' as int] == c;
    }
  }

  lemma CapitalPlaces(c: char)
    ensures c in CAPITALS <==> 'A' <= c <= 'Z'
  {
    if 'A' <= c <= 'Z' {
      assert CAPITALS[c as int - 'A' as int] == c;
    }
  }

  lemma SmallPlaces(c: char)
    ensures c in SMALL <==> 'a' <= c <= 'z'
  {
    if 'a' <= c <= 'z' {
      assert SMALL[c as int - 'a' as int] == c;
    }
  }

  /** Which one-character keys are accepted. */
  lemma AcceptedCharacter(c: char)
    ensures Valid([c, '=']) <==> c in DIGITS || c in CAPITALS || c in SMALL || c in "-_.~" || c == '+'
  {
    CharacterSets(c);
    OneUnit(c);
    if c == '=' {
      assert IndexOf([c, '='], '=') == 0;
    } else {
      SplitIs([c], '=', "");
      assert [c] + ['='] + "" == [c, '='];
    }
  }

  lemma OneUnit(c: char)
    ensures Units([c]) <==> IsPlain(c)
    ensures Units("")
  {
    assert [c][1..] == "";
  }

  /** Which escapes are accepted as keys. */
  lemma AcceptedEscape(high: char, low: char)
    requires high != '=' && low != '='
    ensures Valid(['%', high, low, '=']) <==>
              (high in DIGITS || high in "abcdefABCDEF") && (low in DIGITS || low in "abcdefABCDEF")
  {
    hide IsPlain;
    HexPlaces(high);
    HexPlaces(low);
    var key := ['%', high, low];
    SplitIs(key, '=', "");
    assert key + ['='] + "" == ['%', high, low, '='];
    assert key[3..] == "";
    NoPercent();
    OneUnit(high);
    assert Units(key) <==> Escape(key);
  }

  lemma NoPercent()
    ensures !IsPlain('%')
  {
  }

  lemma HexPlaces(c: char)
    ensures IsHex(c) <==> c in DIGITS || c in "abcdefABCDEF"
  {
    DigitPlaces(c);
    var letters := "abcdefABCDEF";
    if 'a' <= c <= 'f' {
      assert letters[c as int - 'a' as int] == c;
    } else if 'A' <= c <= 'F' {
      assert letters[c as int - 'A' as int + 6] == c;
    }
    assert forall i :: 0 <= i < 12 ==> 'a' <= letters[i] <= 'f' || 'A' <= letters[i] <= 'F';
  }

  /** A text's first segment: with an equals sign, the part before the first one is the key and all the rest
      of the segment the value, equals signs included; without one it is skipped. */
  lemma FirstSegment(segment: string, rest: string, j: Json)
    requires '&' !in segment
    ensures ParseFrom(segment + "&" + rest, j) == ParseFrom(rest, ParseFrom(segment, j))
    ensures '=' !in segment ==> ParseFrom(segment, j) == j
  {
    hide Decode, Put;
    SplitIs(segment, '&', rest);
    assert segment + ['&'] + rest == segment + "&" + rest;
    if '=' !in segment {
      SplitIs(segment, '=', "");
    }
    if segment != "" {
      assert ParseFrom(segment, j) == ParseFrom("", PutSegment(j, segment));
    }
  }

  lemma SegmentPair(key: string, value: string, j: Json)
    requires '&' !in key && '=' !in key && '&' !in value
    ensures ParseFrom(key + "=" + value, j) == Put(j, Decode(key), Decode(value))
  {
    hide Decode, Put;
    var segment := key + ['='] + value;
    assert '&' !in segment;
    SplitIs(key, '=', value);
    SplitIs(segment, '&', "");
    assert ParseFrom(segment, j) == ParseFrom("", PutSegment(j, segment));
    assert segment == key + "=" + value;
  }
}
