/** How the configuration builds the global limiter, the pipeline, and the token bucket's rate. */
module ServerConfig {
  import opened Machine
  import opened Division
  import opened Sums
  import opened Text
  import opened KeyFunctions
  import opened Pipeline
  import T = TokenBucket
  import C = TokenBucketConcurrent

  // The pipeline

  /** The global section: absent, without a rate limit, disabled, or a rate limit. */
  datatype GlobalSection =
    | NoSection
    | NoRateLimit
    | RateLimit(disable: Option<string>, algorithm: Option<string>, key: Option<KeyElement>)

  /** The global limiter's key function, if there is a limiter, and the `uses_ip` flag. An unknown
      algorithm falls back to the default limiter and leaves the flag alone. */
  function GlobalLimit(g: GlobalSection): (Option<KeyFunction>, bool) {
    if !g.RateLimit? then (Some(ByIp), true)
    else if g.disable == Some("true") then (None, true)
    else if GetOr(g.algorithm, "") in {"", "fixed window", "fixed_window", "token bucket", "token_bucket"} then
      var (key, usesIp) := GetKeyFunction(g.key);
      (Some(key), usesIp)
    else (Some(ByIp), true)
  }

  /** The source pushes the components one by one; moving the limiter out leaves nothing behind. */
  method LoadPipeline(g: GlobalSection) returns (components: seq<Component>)
    ensures Layered(components)
    ensures |components| == if GlobalLimit(g).0.Some? then 6 else 5
    ensures forall i :: 0 <= i < |components| && components[i].GlobalLimiter? ==>
              GlobalLimit(g).0 == Some(components[i].key)
    ensures (exists i :: 0 <= i < |components| && components[i].GlobalLimiter?) <==> GlobalLimit(g).0.Some?
    ensures InOrder(components)
  {
    var (limiter, globalUsesIp) := GlobalLimit(g);
    ghost var key := limiter;
    components := [];
    components := components + [Logger];
    components := components + [ErrorHandler];
    if limiter.Some? && globalUsesIp {
      components := components + [GlobalLimiter(limiter.value)];
      limiter := None;
    }
    components := components + [Parser];
    if limiter.Some? && !globalUsesIp {
      components := components + [GlobalLimiter(limiter.value)];
      limiter := None;
    }
    components := components + [RouteLimiter];
    components := components + [Authenticator];
    if key.Some? {
      DependsOnRequestIff(key.value);
      assert components[if globalUsesIp then 2 else 3] == GlobalLimiter(key.value);
    }
    assert OrderedAround(components, if key.Some? && globalUsesIp then 3 else 2);
  }

  /** The only parser is at `p`; a global limiter comes after it exactly when its key depends on the
      request; the route's limiter and then the authenticator end the pipeline. */
  ghost predicate OrderedAround(components: seq<Component>, p: nat) {
    && p < |components| - 2
    && components[|components| - 2] == RouteLimiter && components[|components| - 1] == Authenticator
    && forall i :: 0 <= i < |components| ==>
         (components[i].Parser? <==> i == p)
         && (components[i].GlobalLimiter? ==> (i > p <==> DependsOnRequest(components[i].key)))
  }

  ghost predicate InOrder(components: seq<Component>) {
    exists p :: OrderedAround(components, p)
  }

  // The rate

  const DEFAULT_REFILL_RATE := 2

  function SecondsIn(unit: string): (n: nat)
    ensures n >= 1
  {
    if unit in {"d", "day", "days"} then 24 * 3600
    else if unit in {"h", "hr", "hour", "hours"} then 3600
    else if unit in {"m", "min", "mins"} then 60
    else 1
  }

  /** `load_refill_rate`: tokens per second, rounded down. A number too large for `int` counts as zero;
      without a slash the whole text is taken for the unit. */
  function RefillRate(text: Option<string>): (rate: nat)
    ensures rate <= 0x7FFF_FFFF
  {
    if text.None? then DEFAULT_REFILL_RATE
    else
      var s := text.value;
      var pos := DigitRun(s);
      if pos == 0 then DEFAULT_REFILL_RATE
      else
        FloorDiv(Value(s[..pos]), SecondsIn(UnitOf(s)))
  }

  function Value(digits: string): (v: nat)
    ensures v <= 0x7FFF_FFFF
  {
    var value := Stoi(digits);
    if value.Some? && 0 <= value.value <= 0x7FFF_FFFF then value.value else 0
  }

  function UnitOf(s: string): string {
    var slash := Find(s, "/", 0);
    if slash.Some? then s[slash.value + 1..] else s
  }

  method LoadRefillRate(text: Option<string>) returns (rate: nat)
    ensures rate == RefillRate(text)
  {
    hide Value, UnitOf, SecondsIn, FloorDiv;
    if text.None? {
      return DEFAULT_REFILL_RATE;
    }
    var s := text.value;
    var pos := 0;
    while pos < |s| && IsDigit(s[pos])
      invariant 0 <= pos <= |s| && AllDigits(s[..pos])
    {
      assert s[..pos + 1] == s[..pos] + [s[pos]];
      pos := pos + 1;
    }
    assert s == s[..pos] + s[pos..];
    DigitRunIs(s[..pos], s[pos..]);
    if pos == 0 {
      return DEFAULT_REFILL_RATE;
    }
    rate := FloorDiv(Value(s[..pos]), SecondsIn(UnitOf(s)));
  }

  /** A text that starts with a number: the number, if it fits, by the seconds of its unit. */
  lemma RateOfNumber(n: nat, rest: string)
    requires rest == "" || !IsDigit(rest[0])
    ensures RefillRate(Some(Decimal(n) + rest))
            == FloorDiv(if n <= 0x7FFF_FFFF then n else 0, SecondsIn(UnitOf(Decimal(n) + rest)))
  {
    hide Stoi, SecondsIn, FloorDiv, UnitOf, Decimal, DigitRun;
    var digits := Decimal(n);
    DecimalValue(n);
    DigitRunIs(digits, rest);
    assert (digits + rest)[..|digits|] == digits && digits + "" == digits;
    StoiOfDecimal(n, "");
  }

  lemma UnitBehind(n: nat, unit: string)
    ensures UnitOf(Decimal(n) + "/" + unit) == unit
  {
    hide Find, Decimal;
    var digits := Decimal(n);
    DecimalValue(n);
    assert '/' !in digits by {
      assert forall i :: 0 <= i < |digits| ==> IsDigit(digits[i]);
    }
    FindAfterWord("", digits, '/', unit);
    assert "" + digits + ['/'] + unit == digits + "/" + unit;
    assert (digits + "/" + unit)[|digits| + 1..] == unit;
  }

  /** The text "n/unit" is read as floor(n / seconds in the unit): never more than asked for, less than one
      token a second short of it, and exactly what was asked for if and only if the unit's seconds divide `n`. */
  lemma ConfiguredRate(n: nat, unit: string)
    requires n <= 0x7FFF_FFFF
    ensures var rate := RefillRate(Some(Decimal(n) + "/" + unit));
            && rate == FloorDiv(n, SecondsIn(unit))
            && rate * SecondsIn(unit) <= n < rate * SecondsIn(unit) + SecondsIn(unit)
            && (rate * SecondsIn(unit) == n <==> n % SecondsIn(unit) == 0)
  {
    hide RefillRate, SecondsIn, FloorDiv, UnitOf, Decimal;
    RateOfNumber(n, "/" + unit);
    assert Decimal(n) + ("/" + unit) == Decimal(n) + "/" + unit;
    UnitBehind(n, unit);
    FloorDivFacts(n, SecondsIn(unit));
  }

  /** The seconds in `k` units. */
  function Units(k: nat, unit: string): nat {
    MulAtMost(0, k, SecondsIn(unit));
    k * SecondsIn(unit)
  }

  /** A bucket configured with capacity c and "n/unit" admits, over any k units, at most c + k * n
      requests, and one more for each call in flight with an older clock: from whatever state the span
      starts, and however the calls interleave. */
  lemma ConfiguredBucketBound(capacity: i32, n: nat, unit: string, s: C.State, es: seq<C.Event>, from: u32, k: nat)
    requires 0 <= capacity && n <= 0x7FFF_FFFF && from + Units(k, unit) < TWO_32
    requires C.Runs(T.Setting(capacity, RefillRate(Some(Decimal(n) + "/" + unit))), s, es)
    requires T.Stamp(s.word) <= from + Units(k, unit) && C.ReadWithin(s, es, from, from + Units(k, unit))
    ensures C.Admissions(es) <= capacity + k * n + Sum(s.calls, C.IsStale(from))
  {
    hide RefillRate, SecondsIn, Units, T.Earned, C.Runs, C.ReadWithin;
    ConfiguredRate(n, unit);
    var cfg := T.Setting(capacity, RefillRate(Some(Decimal(n) + "/" + unit)));
    C.AtMostCapacityPlusRate(cfg, s, es, from, from + Units(k, unit));
    EarnedInUnits(cfg, k, unit, n);
    assert from + Units(k, unit) - from == Units(k, unit);
  }

  lemma EarnedInUnits(cfg: T.Setting, k: nat, unit: string, n: nat)
    requires 0 <= cfg.refillRate && cfg.refillRate * SecondsIn(unit) <= n
    ensures T.Earned(cfg, Units(k, unit)) <= k * n
  {
    hide SecondsIn;
    var rate, seconds := cfg.refillRate, SecondsIn(unit);
    MulAtMost(rate * seconds, n, k);
    assert rate * (k * seconds) == (rate * seconds) * k;
  }

  /** The units by name: every other text, an unknown unit included, counts as seconds. */
  lemma RatesByName(n: nat, unit: string)
    requires n <= 0x7FFF_FFFF
    ensures var rate := RefillRate(Some(Decimal(n) + "/" + unit));
            if unit == "d" || unit == "day" || unit == "days" then rate == n / 86400
            else if unit == "h" || unit == "hr" || unit == "hour" || unit == "hours" then rate == n / 3600
            else if unit == "m" || unit == "min" || unit == "mins" then rate == n / 60
            else rate == n
  {
    hide RefillRate;
    ConfiguredRate(n, unit);
  }

  /** The fallbacks: two tokens a second without a text or without a leading digit, none for a number that
      does not fit, and the number itself as a rate by the second when there is no slash. */
  lemma RateFallbacks(n: nat, rest: string)
    requires rest == "" || !IsDigit(rest[0])
    ensures RefillRate(None) == 2
    ensures RefillRate(Some(rest)) == 2
    ensures n > 0x7FFF_FFFF ==> RefillRate(Some(Decimal(n) + rest)) == 0
    ensures n <= 0x7FFF_FFFF && '/' !in rest ==> RefillRate(Some(Decimal(n) + rest)) == n
  {
    hide Find, Stoi, Decimal, SecondsIn, FloorDiv;
    RateOfNumber(n, rest);
    var s := Decimal(n) + rest;
    FloorDivFacts(0, SecondsIn(UnitOf(s)));
    if '/' !in rest {
      WholeIsUnit(n, rest);
      FloorDivFacts(n, 1);
    }
  }

  /** Without a slash the whole text is taken for the unit, and no unit starts with a digit. */
  lemma WholeIsUnit(n: nat, rest: string)
    requires '/' !in rest
    ensures SecondsIn(UnitOf(Decimal(n) + rest)) == 1
  {
    hide Find, Decimal;
    var digits := Decimal(n);
    DecimalValue(n);
    assert '/' !in digits by {
      assert forall i :: 0 <= i < |digits| ==> IsDigit(digits[i]);
    }
    NotFoundChar(digits + rest, '/');
    assert IsDigit((digits + rest)[0]);
  }

  /** When a global limiter is loaded: always, unless the rate limit says that it is disabled. */
  lemma LoadedUnlessDisabled(g: GlobalSection)
    ensures GlobalLimit(g).0.None? <==> g.RateLimit? && g.disable == Some("true")
    ensures g.NoSection? || g.NoRateLimit? ==> GlobalLimit(g) == (Some(ByIp), true)
    ensures g.RateLimit? && g.disable != Some("true") ==>
              GlobalLimit(g) ==
              if g.algorithm in {None, Some(""), Some("fixed window"), Some("fixed_window"), Some("token bucket"),
                                 Some("token_bucket")}
              then (Some(GetKeyFunction(g.key).0), GetKeyFunction(g.key).1) else (Some(ByIp), true)
  {
  }
}
