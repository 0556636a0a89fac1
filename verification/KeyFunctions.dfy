/** How a rate limit identifies its client: the key functions, and how the configuration picks one. */
module KeyFunctions {
  import opened Machine
  import opened Text

  datatype KeyFunction =
    | ByIp
    | ByHeader(name: string, ipFallback: bool)
    | ByForwardedFor(ipFallback: bool)
    | ByQuery(ipFallback: bool)

  /** What a key function can see of a parsed request. */
  datatype Request = Request(headers: map<string, string>, query: string)

  function HeaderOf(r: Request, name: string): string {
    if name in r.headers then r.headers[name] else ""
  }

  predicate IsBlank(c: char) {
    c == ' ' || c == '\t' || c == '\r' || c == '\n'
  }

  function TrimLeft(s: string): string {
    if s != "" && IsBlank(s[0]) then TrimLeft(s[1..]) else s
  }

  function TrimRight(s: string): string {
    if s != "" && IsBlank(s[|s| - 1]) then TrimRight(s[..|s| - 1]) else s
  }

  /** The client part of X-Forwarded-For: up to the first comma, trimmed. */
  function ClientOf(forwarded: string): string {
    var comma := Find(forwarded, ",", 0);
    TrimRight(TrimLeft(if comma.Some? then forwarded[..comma.value] else forwarded))
  }

  /** The key of a request, or status 400 when it is missing and may not fall back to the address. */
  function MakeKey(k: KeyFunction, ip: string, r: Request): Result<string> {
    match k
    case ByIp => Ok(ip)
    case ByHeader(name, fallback) =>
      if HeaderOf(r, name) != "" then Ok(HeaderOf(r, name)) else if fallback then Ok(ip) else Err(400)
    case ByForwardedFor(fallback) =>
      if HeaderOf(r, "X-Forwarded-For") != "" then Ok(ClientOf(HeaderOf(r, "X-Forwarded-For")))
      else if fallback then Ok(ip) else Err(400)
    case ByQuery(fallback) =>
      if r.query != "" then Ok(r.query) else if fallback then Ok(ip) else Err(400)
  }

  /** Two requests from the same address can get different keys. */
  ghost predicate DependsOnRequest(k: KeyFunction) {
    exists ip, r, q :: MakeKey(k, ip, r) != MakeKey(k, ip, q)
  }

  /** Exactly the address key can be computed before the request has been parsed. */
  lemma DependsOnRequestIff(k: KeyFunction)
    ensures DependsOnRequest(k) <==> !k.ByIp?
  {
    var name := if k.ByHeader? then k.name else "X-Forwarded-For";
    var r, q := Request(map[name := "a"], "a"), Request(map[name := "b"], "b");
    assert ClientOf("a") == "a" && ClientOf("b") == "b" by {
      NotFoundChar("a", ',');
      NotFoundChar("b", ',');
    }
    if !k.ByIp? {
      assert MakeKey(k, "", r) == Ok("a") && MakeKey(k, "", q) == Ok("b");
    }
  }

  /** The Key element of a rate limit: its attributes, where given. */
  datatype KeyElement = KeyElement(kind: Option<string>, name: Option<string>, fallback: Option<string>)

  function Lower(s: string): string {
    if s == "" then ""
    else [if 'A' <= s[0] <= 'Z' then s[0] - 'A' + 'a' else s[0]] + Lower(s[1..])
  }

  function GetOr(o: Option<string>, default: string): string {
    if o.Some? then o.value else default
  }

  /** `get_key_func`: the key function, and the `uses_ip` flag it reports. */
  function GetKeyFunction(e: Option<KeyElement>): (KeyFunction, bool) {
    if e.None? || GetOr(e.value.kind, "") == "" then (ByIp, true)
    else
      var kind := Lower(e.value.kind.value);
      var fallback := GetOr(e.value.fallback, "ip") == "ip";
      var name := GetOr(e.value.name, "");
      if kind == "header" then if name == "" then (ByIp, true) else (ByHeader(name, fallback), false)
      else if kind == "xff" then (ByForwardedFor(fallback), false)
      else if kind == "query" then (ByQuery(fallback), false)
      else (ByIp, true)
  }

  // What the keys are

  /** A client that is told apart gets its own text as the key; one that is not gets its address, or a 400
      when it may not fall back to that. */
  lemma KeyOrFallback(name: string, fallback: bool, ip: string, r: Request)
    requires name in r.headers && r.headers[name] != "" && r.query != ""
    ensures MakeKey(ByIp, ip, r) == Ok(ip)
    ensures MakeKey(ByHeader(name, fallback), ip, r) == Ok(r.headers[name])
    ensures MakeKey(ByQuery(fallback), ip, r) == Ok(r.query)
    ensures "X-Forwarded-For" in r.headers && r.headers["X-Forwarded-For"] != "" ==>
              MakeKey(ByForwardedFor(fallback), ip, r) == Ok(ClientOf(r.headers["X-Forwarded-For"]))
    ensures var bare := Request(r.headers - {name, "X-Forwarded-For"}, "");
            forall k :: k in {ByHeader(name, fallback), ByForwardedFor(fallback), ByQuery(fallback)} ==>
              MakeKey(k, ip, bare) == if fallback then Ok(ip) else Err(400)
  {
  }

  const BLANKS := {' ', '\t', '\r', '\n'}

  predicate Blanks(s: string) {
    forall i :: 0 <= i < |s| ==> s[i] in BLANKS
  }

  predicate Trimmed(s: string) {
    s != "" ==> s[0] !in BLANKS && s[|s| - 1] !in BLANKS
  }

  /** The client of a forwarding chain is its first member without the blanks around it, whatever follows. */
  lemma ForwardedClient(before: string, client: string, after: string, rest: string)
    requires Blanks(before) && Blanks(after) && Trimmed(client) && ',' !in client
    ensures ClientOf(before + client + after + "," + rest) == client
    ensures ClientOf(before + client + after) == client
  {
    hide Find;
    var member := before + client + after;
    assert ',' !in member;
    FindAfterWord("", member, ',', rest);
    assert "" + member + [','] + rest == member + "," + rest;
    assert (member + "," + rest)[..|member|] == member;
    NotFoundChar(member, ',');
    TrimmedBoth(before, client, after);
  }

  lemma TrimmedBoth(before: string, client: string, after: string)
    requires Blanks(before) && Blanks(after) && Trimmed(client)
    ensures TrimRight(TrimLeft(before + client + after)) == client
  {
    assert before + client + after == before + (client + after);
    if client == "" {
      assert before + (client + after) == (before + after) + "";
      TrimsLeft(before + after, "");
    } else {
      TrimsLeft(before, client + after);
      TrimsRight(client, after);
    }
  }

  lemma {:induction false} TrimsLeft(before: string, s: string)
    requires Blanks(before) && (s != "" ==> !IsBlank(s[0]))
    ensures TrimLeft(before + s) == s
  {
    if before == "" {
      assert before + s == s;
    } else {
      assert (before + s)[1..] == before[1..] + s;
      TrimsLeft(before[1..], s);
    }
  }

  lemma {:induction false} TrimsRight(s: string, after: string)
    requires Blanks(after) && (s != "" ==> !IsBlank(s[|s| - 1]))
    ensures TrimRight(s + after) == s
  {
    if after == "" {
      assert s + after == s;
    } else {
      var n := |after| - 1;
      assert (s + after)[..|s + after| - 1] == s + after[..n];
      TrimsRight(s, after[..n]);
    }
  }

  /** Two words that differ in case only. */
  predicate SameLetters(s: string, lower: string) {
    |s| == |lower| && forall i :: 0 <= i < |s| ==>
      s[i] == lower[i] || ('a' <= lower[i] <= 'z' && s[i] as int + 32 == lower[i] as int)
  }

  lemma {:induction false} LowerIs(s: string, lower: string)
    requires SameLetters(s, lower) && forall i :: 0 <= i < |lower| ==> 'a' <= lower[i] <= 'z'
    ensures Lower(s) == lower
  {
    if s != "" {
      LowerIs(s[1..], lower[1..]);
      assert lower == [lower[0]] + lower[1..];
    }
  }

  /** The kinds of key by name, in any case; the fallback is the address unless another one is asked for. */
  lemma KeysByName(kind: string, lower: string, name: string, fallback: Option<string>)
    requires SameLetters(kind, lower) && lower in {"header", "xff", "query", "ip"} && name != ""
    ensures var key := GetKeyFunction(Some(KeyElement(Some(kind), Some(name), fallback))).0;
            var falls := fallback.None? || fallback.value == "ip";
            && (lower == "header" ==> key == ByHeader(name, falls))
            && (lower == "xff" ==> key == ByForwardedFor(falls))
            && (lower == "query" ==> key == ByQuery(falls))
            && (lower == "ip" ==> key == ByIp)
  {
    LowerIs(kind, lower);
  }

  /** The flag says whether the key works before parsing, and without a kind or a needed name it is the address. */
  lemma FlagIsAddress(e: Option<KeyElement>)
    ensures GetKeyFunction(e).1 <==> GetKeyFunction(e).0.ByIp?
    ensures e.None? || e.value.kind.None? ==> GetKeyFunction(e).0 == ByIp
    ensures e.Some? && e.value.kind == Some("header") && e.value.name.None? ==> GetKeyFunction(e).0 == ByIp
  {
  }
}
