/** The string operations of the C++ library that the parsers use: substring search, decimal
    printing, and `std::stoi`. */
module Text {
  import opened Machine

  const CRLF: string := "\r\n"

  predicate At(s: string, pattern: string, i: int) {
    0 <= i <= |s| - |pattern| && s[i..i + |pattern|] == pattern
  }

  /** `find`: the first place at or after `from` where the pattern stands. */
  function Find(s: string, pattern: string, from: nat): (r: Option<nat>)
    ensures r.Some? ==> from <= r.value <= |s| - |pattern|
    decreases |s| + 1 - from
  {
    if from + |pattern| > |s| then None
    else if At(s, pattern, from) then Some(from)
    else Find(s, pattern, from + 1)
  }

  /** A place found is the first one; none found means there is none. */
  lemma {:induction false} Found(s: string, pattern: string, from: nat)
    ensures var r := Find(s, pattern, from);
            && (r.Some? ==> At(s, pattern, r.value) && forall j :: from <= j < r.value ==> !At(s, pattern, j))
            && (r.None? ==> forall j :: from <= j ==> !At(s, pattern, j))
    decreases |s| + 1 - from
  {
    if from + |pattern| <= |s| && !At(s, pattern, from) {
      Found(s, pattern, from + 1);
    }
  }

  ghost predicate Has(s: string, pattern: string) {
    exists i: nat :: At(s, pattern, i)
  }

  lemma FindIs(s: string, pattern: string, from: nat, i: nat)
    requires from <= i && At(s, pattern, i)
    requires forall j :: from <= j < i ==> !At(s, pattern, j)
    ensures Find(s, pattern, from) == Some(i)
  {
    hide At;
    Found(s, pattern, from);
  }

  /** What stands in the middle part stands in the whole, shifted. */
  lemma AtInside(before: string, s: string, after: string, pattern: string, i: int)
    requires 0 <= i <= |s| - |pattern|
    ensures At(before + s + after, pattern, |before| + i) <==> At(s, pattern, i)
  {
    var whole := before + s + after;
    assert whole[|before| + i..|before| + i + |pattern|] == s[i..i + |pattern|];
  }

  lemma AtSuffix(before: string, s: string, pattern: string, i: nat)
    ensures At(before + s, pattern, |before| + i) <==> At(s, pattern, i)
  {
    if i + |pattern| <= |s| {
      assert (before + s)[|before| + i..|before| + i + |pattern|] == s[i..i + |pattern|];
    }
  }

  lemma {:induction false} FindInSuffix(before: string, s: string, pattern: string, from: nat)
    ensures var r := Find(s, pattern, from);
            Find(before + s, pattern, |before| + from) == if r.Some? then Some(|before| + r.value) else None
    decreases |s| + 1 - from
  {
    hide At;
    AtSuffix(before, s, pattern, from);
    if from + |pattern| <= |s| && !At(s, pattern, from) {
      FindInSuffix(before, s, pattern, from + 1);
    }
  }

  /** A one-character pattern stands where the character is. */
  lemma AtChar(s: string, c: char, i: int)
    ensures At(s, [c], i) <==> 0 <= i < |s| && s[i] == c
  {
    if 0 <= i < |s| {
      assert s[i..i + 1] == [s[i]];
    }
  }

  lemma HasChar(s: string, c: char)
    ensures Has(s, [c]) <==> c in s
  {
    if c in s {
      var i :| 0 <= i < |s| && s[i] == c;
      AtChar(s, c, i);
    }
    if Has(s, [c]) {
      var i: nat :| At(s, [c], i);
      AtChar(s, c, i);
    }
  }

  /** In `word c rest` the first `c` ends the word. */
  lemma FindAfterWord(before: string, word: string, c: char, rest: string)
    requires c !in word
    ensures Find(before + word + [c] + rest, [c], |before|) == Some(|before| + |word|)
  {
    var s := before + word + [c] + rest;
    AtChar(s, c, |before| + |word|);
    forall j | |before| <= j < |before| + |word|
      ensures !At(s, [c], j)
    {
      AtChar(s, c, j);
      assert s[j] == word[j - |before|];
    }
    FindIs(s, [c], |before|, |before| + |word|);
  }

  lemma NotFoundChar(s: string, c: char)
    requires c !in s
    ensures Find(s, [c], 0) == None
  {
    Found(s, [c], 0);
    HasChar(s, c);
    assert Find(s, [c], 0).Some? ==> Has(s, [c]);
  }

  // Decimal numbers

  predicate IsDigit(c: char) {
    '0' <= c <= '9'
  }

  predicate IsSpace(c: char) {
    c == ' ' || ('\t' <= c <= '\r')
  }

  function Digit(d: nat): char
    requires d < 10
  {
    '0' + d as char
  }

  function Decimal(n: nat): (r: string)
    ensures r != []
  {
    if n < 10 then [Digit(n)] else Decimal(n / 10) + [Digit(n % 10)]
  }

  predicate AllDigits(s: string) {
    forall i :: 0 <= i < |s| ==> IsDigit(s[i])
  }

  function ValueOf(s: string): nat
    requires AllDigits(s)
  {
    if s == [] then 0
    else 10 * ValueOf(s[..|s| - 1]) + (s[|s| - 1] as int - '0' as int)
  }

  function DigitRun(s: string): (n: nat)
    ensures n <= |s| && AllDigits(s[..n])
    ensures n < |s| ==> !IsDigit(s[n])
  {
    if s == [] || !IsDigit(s[0]) then 0 else
      var n := 1 + DigitRun(s[1..]);
      assert s[..n] == [s[0]] + s[1..][..n - 1];
      n
  }

  function SkipSpaces(s: string): string {
    if s != [] && IsSpace(s[0]) then SkipSpaces(s[1..]) else s
  }

  /** `std::stoi`: optional white space, optional sign, then as many digits as there are. It raises
      (here: answers None) without a digit or outside the range of `int`. */
  function Stoi(s: string): Option<int> {
    var t := SkipSpaces(s);
    var signed := t != [] && (t[0] == '-' || t[0] == '+');
    var u := if signed then t[1..] else t;
    var n := DigitRun(u);
    var magnitude: int := ValueOf(u[..n]);
    var value: int := if signed && t[0] == '-' then -magnitude else magnitude;
    if n == 0 || value < -0x8000_0000 || value > 0x7FFF_FFFF then None else Some(value)
  }

  lemma {:induction false} DecimalValue(n: nat)
    ensures AllDigits(Decimal(n)) && ValueOf(Decimal(n)) == n
  {
    if n < 10 {
      assert Decimal(n)[..0] == [];
    } else {
      DecimalValue(n / 10);
      assert Decimal(n)[..|Decimal(n)| - 1] == Decimal(n / 10);
    }
  }

  lemma {:induction false} DigitRunIs(digits: string, rest: string)
    requires AllDigits(digits) && (rest == [] || !IsDigit(rest[0]))
    ensures DigitRun(digits + rest) == |digits|
  {
    if digits == [] {
      assert digits + rest == rest;
    } else {
      assert (digits + rest)[1..] == digits[1..] + rest;
      DigitRunIs(digits[1..], rest);
    }
  }

  /** Reading back a printed number: exact up to the largest `int`, an error beyond. */
  lemma StoiOfDecimal(n: nat, rest: string)
    requires rest == [] || !IsDigit(rest[0])
    ensures Stoi(Decimal(n) + rest) == if n <= 0x7FFF_FFFF then Some(n) else None
  {
    DecimalValue(n);
    var s := Decimal(n) + rest;
    assert IsDigit(s[0]);
    DigitRunIs(Decimal(n), rest);
    assert s[..|Decimal(n)|] == Decimal(n);
  }

  predicate Blank(s: string) {
    forall i :: 0 <= i < |s| ==> IsSpace(s[i])
  }

  lemma {:induction false} SkipSpacesJoin(s: string, rest: string)
    ensures SkipSpaces(s + rest) == if Blank(s) then SkipSpaces(rest) else SkipSpaces(s) + rest
    ensures Blank(s) <==> SkipSpaces(s) == ""
  {
    if s == "" {
      assert s + rest == rest;
    } else {
      assert (s + rest)[1..] == s[1..] + rest;
      assert s == [s[0]] + s[1..];
      SkipSpacesJoin(s[1..], rest);
    }
  }

  /** A number followed by white space is read as if nothing followed it; after white space only, the
      reading goes on with what follows. */
  lemma StoiBefore(s: string, c: char, rest: string)
    requires IsSpace(c)
    ensures Stoi(s + [c] + rest) == if Blank(s) then Stoi(rest) else Stoi(s)
  {
    hide ValueOf;
    var after := [c] + rest;
    assert s + [c] + rest == s + after;
    SkipSpacesJoin(s, after);
    if Blank(s) {
      assert after[1..] == rest;
    } else {
      var t := SkipSpaces(s);
      var signed := t[0] == '-' || t[0] == '+';
      var u := if signed then t[1..] else t;
      assert (t + after)[1..] == t[1..] + after;
      DigitRunBefore(u, after);
      assert (u + after)[..DigitRun(u)] == u[..DigitRun(u)];
    }
  }

  lemma DigitRunBefore(u: string, after: string)
    requires after != "" && !IsDigit(after[0])
    ensures DigitRun(u + after) == DigitRun(u)
  {
    var n := DigitRun(u);
    DigitRunIs(u[..n], u[n..] + after);
    assert u[..n] + (u[n..] + after) == u + after;
  }

  lemma StoiSkips(blanks: string, s: string)
    requires Blank(blanks)
    ensures Stoi(blanks + s) == Stoi(s)
  {
    hide ValueOf, DigitRun;
    SkipSpacesJoin(blanks, s);
  }

  lemma StoiWithSign(sign: char, n: nat, rest: string)
    requires sign == '-' || sign == '+'
    requires rest == "" || !IsDigit(rest[0])
    ensures var value := (if sign == '-' then -1 else 1) * n;
            Stoi([sign] + (Decimal(n) + rest)) == if -0x8000_0000 <= value <= 0x7FFF_FFFF then Some(value) else None
  {
    hide ValueOf, Decimal;
    var digits := Decimal(n);
    var s := [sign] + (digits + rest);
    assert SkipSpaces(s) == s;
    assert s[1..] == digits + rest;
    DecimalValue(n);
    DigitRunIs(digits, rest);
    assert (digits + rest)[..|digits|] == digits;
  }

  /** White space and a sign in front of a number are read as such, up to the range of `int`. */
  lemma StoiOfSigned(blanks: string, sign: char, n: nat, rest: string)
    requires Blank(blanks) && (sign == '-' || sign == '+') && (rest == "" || !IsDigit(rest[0]))
    ensures var value := (if sign == '-' then -1 else 1) * n;
            Stoi(blanks + ([sign] + (Decimal(n) + rest)))
            == if -0x8000_0000 <= value <= 0x7FFF_FFFF then Some(value) else None
  {
    hide Stoi, Decimal;
    StoiSkips(blanks, [sign] + (Decimal(n) + rest));
    StoiWithSign(sign, n, rest);
  }

  /** Without a digit there is nothing to read. */
  lemma StoiOfNothing(s: string)
    requires forall i :: 0 <= i < |s| ==> !IsDigit(s[i])
    ensures Stoi(s) == None
  {
    SkipsWithin(s);
  }

  lemma {:induction false} SkipsWithin(s: string)
    ensures exists k :: 0 <= k <= |s| && SkipSpaces(s) == s[k..]
  {
    assert s[0..] == s;
    if s != "" && IsSpace(s[0]) {
      SkipsWithin(s[1..]);
      var k :| 0 <= k <= |s[1..]| && SkipSpaces(s[1..]) == s[1..][k..];
      assert s[1..][k..] == s[k + 1..];
    }
  }
}
