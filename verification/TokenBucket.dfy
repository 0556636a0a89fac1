/** One iteration of the token bucket's compare-exchange loop, and what it promises:
    the Retry-After it answers, and the simple once-a-second bucket it stands for. */
module TokenBucket {
  import opened Machine
  import opened Division

  /** The configured limits are plain `int`s in the source; nothing below excludes negative ones. */
  datatype Setting = Setting(capacity: i32, refillRate: i32)

  datatype Verdict = Admitted(remaining: u32, delay: u32) | Rejected(retryAfter: u32)

  function Tokens(w: Word): u32 {
    w.high
  }

  function Stamp(w: Word): u32 {
    w.low
  }

  /** The tokens added per second, as the unsigned arithmetic reads the setting. */
  function Rate(cfg: Setting): u32 {
    ToU32(cfg.refillRate)
  }

  /** The tokens that `elapsed` seconds are worth. */
  function Earned(cfg: Setting, elapsed: nat): (r: nat)
    ensures elapsed == 0 ==> r == 0
  {
    MulAtMost(0, Rate(cfg), elapsed);
    Rate(cfg) * elapsed
  }

  lemma EarnedAdds(cfg: Setting, x: nat, y: nat)
    ensures Earned(cfg, x + y) == Earned(cfg, x) + Earned(cfg, y)
    ensures Earned(cfg, 1) == Rate(cfg)
  {
    assert Rate(cfg) * (x + y) == Rate(cfg) * x + Rate(cfg) * y;
  }

  lemma EarnedMonotone(cfg: Setting, x: nat, y: nat)
    requires x <= y
    ensures Earned(cfg, x) <= Earned(cfg, y)
  {
    EarnedAdds(cfg, x, y - x);
  }

  function Elapsed(secs: u32, stamp: u32): u32 {
    if secs > stamp then secs - stamp else 0
  }

  /** Unsigned 32-bit `tokens + product`, where the product is itself already reduced. */
  function Sum32(tokens: u32, product: nat): (r: u32)
    ensures r <= tokens + product
    ensures r == (tokens + product) % TWO_32
  {
    ToU32(tokens + ToU32(product))
  }

  /** The sum is reduced modulo 2^32 before it is widened and capped. */
  function Refilled(cfg: Setting, tokens: u32, elapsed: u32): (r: u32)
    ensures r <= tokens + Earned(cfg, elapsed)
    ensures cfg.capacity >= 0 ==> r <= cfg.capacity
  {
    var sum := Sum32(tokens, Earned(cfg, elapsed));
    if sum > ToU64(cfg.capacity) then ToU64(cfg.capacity) else sum
  }

  /** Seconds until the clock passes `stamp`, with the 32-bit wrap of `stamp + 1`. */
  function Delay(stamp: u32, secs: u32): u32 {
    if ToU32(stamp + 1) > secs then ToU32(stamp + 1) - secs else 0
  }

  /** A whole call, taken in one step on word `w`: the new word and the answer. */
  function TakeToken(cfg: Setting, w: Word, secs: u32): (Word, Verdict) {
    var elapsed := Elapsed(secs, Stamp(w));
    var tokens := Refilled(cfg, Tokens(w), elapsed);
    var stamp := if elapsed > 0 then secs else Stamp(w);
    if tokens < 1 then (w, Rejected(Delay(stamp, secs)))
    else (Word(tokens - 1, stamp), Admitted(tokens - 1, Delay(stamp, secs)))
  }

  /** A new key starts with a full bucket stamped with the current second. */
  function FreshBucket(cfg: Setting, now: u32): Word {
    Word(ToU32(cfg.capacity), now)
  }

  /** One call spends exactly what it answers: an admitted call takes one token out of at most the
      tokens present plus `rate` for each second the stamp moves, and the stamp never moves back. */
  lemma CallConserves(cfg: Setting, w: Word, secs: u32)
    ensures var (w', v) := TakeToken(cfg, w, secs);
            && Stamp(w) <= Stamp(w')
            && Tokens(w') + (if v.Admitted? then 1 else 0)
               <= Tokens(w) + Earned(cfg, Stamp(w') - Stamp(w))
            && (0 <= cfg.capacity && Tokens(w) <= cfg.capacity ==> Tokens(w') <= cfg.capacity)
            && (v.Rejected? ==> w' == w)
            && (v.Admitted? ==> v.remaining == Tokens(w') && w' != w)
  {
  }

  lemma OneMoreSecond(tokens: u32, rate: u32, product: nat)
    requires Sum32(tokens, product) == 0
    ensures Sum32(tokens, product + rate) == rate
  {
    hide Sum32;
    RemainderShift(tokens + product, rate, TWO_32);
    assert tokens + (product + rate) == tokens + product + rate;
  }

  /** A rejection means that the sum came out as zero or that there is no capacity at all. */
  lemma RejectedOnZero(cfg: Setting, w: Word, secs: u32)
    ensures TakeToken(cfg, w, secs).1.Rejected? <==>
              cfg.capacity == 0 || Sum32(w.high, Earned(cfg, Elapsed(secs, w.low))) == 0
  {
    hide Sum32, Earned;
  }

  lemma DelayStep(cfg: Setting, w: Word, secs: u32)
    requires TakeToken(cfg, w, secs).1.Rejected?
    requires secs + 1 < TWO_32 && Stamp(w) + 1 < TWO_32
    ensures var again := secs + TakeToken(cfg, w, secs).1.retryAfter;
            && secs < again < TWO_32
            && (again - 1 > secs ==> again - 1 == Stamp(w))
            && Elapsed(again, Stamp(w)) == Elapsed(secs, Stamp(w)) + 1
  {
    hide Refilled;
  }

  /** Retry-After is exact. Whatever the settings, a rejected client that asks again with no other
      traffic is rejected at every earlier second, and is admitted at the announced second if and
      only if the setting ever grants a token (neither the rate nor the capacity is zero). */
  lemma RetryAfterExact(cfg: Setting, w: Word, secs: u32, later: u32)
    requires TakeToken(cfg, w, secs).1.Rejected?
    requires secs + 1 < TWO_32 && Stamp(w) + 1 < TWO_32
    requires secs <= later
    ensures var retry := TakeToken(cfg, w, secs).1.retryAfter;
            && 1 <= retry
            && (later < secs + retry ==> TakeToken(cfg, w, later).1.Rejected?)
            && (later == secs + retry ==>
                  (TakeToken(cfg, w, later).1.Admitted? <==> cfg.refillRate != 0 && cfg.capacity != 0))
  {
    hide TakeToken, Sum32, Earned;
    var again := secs + TakeToken(cfg, w, secs).1.retryAfter;
    var elapsed := Elapsed(secs, w.low);
    DelayStep(cfg, w, secs);
    RejectedOnZero(cfg, w, secs);
    RejectedOnZero(cfg, w, later);
    if later == again && cfg.capacity != 0 {
      OneMoreSecond(w.high, Rate(cfg), Earned(cfg, elapsed));
      EarnedAdds(cfg, elapsed, 1);
    } else if secs < later < again {
      assert elapsed == Elapsed(later, w.low) == 0;
    }
  }

  /** The excluded seconds: Retry-After is zero exactly when the stamp or the clock is at its last value,
      for the stamp's successor wraps around. */
  lemma RetryAfterZeroIff(cfg: Setting, w: Word, secs: u32)
    requires TakeToken(cfg, w, secs).1.Rejected?
    ensures TakeToken(cfg, w, secs).1.retryAfter == 0 <==> secs + 1 == TWO_32 || Stamp(w) + 1 == TWO_32
  {
    hide Refilled;
  }

  /** The delay told to an admitted client is exact: from the announced second on, and not before, the clock
      has passed the bucket's stamp and time spent waiting counts again. */
  lemma DelayExact(cfg: Setting, w: Word, secs: u32, later: u32)
    requires TakeToken(cfg, w, secs).1.Admitted?
    requires secs + 1 < TWO_32 && Stamp(w) + 1 < TWO_32 && secs <= later
    ensures var (w', v) := TakeToken(cfg, w, secs);
            Stamp(w') < later <==> secs + v.delay <= later
  {
    hide Refilled;
  }

  /** It is zero exactly when the stamp or the clock is at its last value. */
  lemma DelayZeroIff(cfg: Setting, w: Word, secs: u32)
    requires TakeToken(cfg, w, secs).1.Admitted?
    ensures TakeToken(cfg, w, secs).1.delay == 0 <==> secs + 1 == TWO_32 || Stamp(w) + 1 == TWO_32
  {
    hide Refilled;
  }

  // The bucket of the textbook: one capped refill every second, one token for each admission.

  datatype Moment = Second | Request

  function EagerRefill(cfg: Setting, level: nat): nat
    requires 0 <= cfg.capacity
  {
    Min(cfg.capacity, level + cfg.refillRate % TWO_32)
  }

  function Spend(level: nat): nat {
    if level >= 1 then level - 1 else 0
  }

  /** The answers of the simple bucket over a schedule. */
  function EagerAnswers(cfg: Setting, level: nat, schedule: seq<Moment>): seq<bool>
    requires 0 <= cfg.capacity
    decreases |schedule|
  {
    if schedule == [] then []
    else if schedule[0].Second? then EagerAnswers(cfg, EagerRefill(cfg, level), schedule[1..])
    else [level >= 1] + EagerAnswers(cfg, Spend(level), schedule[1..])
  }

  function Seconds(schedule: seq<Moment>): nat {
    if schedule == [] then 0
    else (if schedule[0].Second? then 1 else 0) + Seconds(schedule[1..])
  }

  /** The answers of the packed word over the same schedule, the clock starting at `now`. */
  function LazyAnswers(cfg: Setting, w: Word, now: u32, schedule: seq<Moment>): seq<bool>
    requires now + Seconds(schedule) < TWO_32
    decreases |schedule|
  {
    if schedule == [] then []
    else if schedule[0].Second? then LazyAnswers(cfg, w, now + 1, schedule[1..])
    else
      var (w', v) := TakeToken(cfg, w, now);
      [v.Admitted?] + LazyAnswers(cfg, w', now, schedule[1..])
  }

  /** What the packed word stands for at second `now`. */
  function Observed(cfg: Setting, w: Word, now: u32): nat
    requires 0 <= cfg.capacity && Stamp(w) <= now
  {
    Min(cfg.capacity, Tokens(w) + Earned(cfg, now - Stamp(w)))
  }

  /** The 32-bit sum is harmless: it did not wrap, or what is left of it still fills the bucket. */
  predicate SumHarmless(cfg: Setting, w: Word, now: u32)
    requires Stamp(w) <= now
  {
    var sum := Tokens(w) + Earned(cfg, now - Stamp(w));
    sum < TWO_32 || sum % TWO_32 >= cfg.capacity
  }

  /** At every request of the schedule the sum is harmless. */
  predicate NeverHarmed(cfg: Setting, w: Word, now: u32, schedule: seq<Moment>)
    requires Stamp(w) <= now && now + Seconds(schedule) < TWO_32
    decreases |schedule|
  {
    schedule == [] ||
    if schedule[0].Second? then NeverHarmed(cfg, w, now + 1, schedule[1..])
    else
      && SumHarmless(cfg, w, now)
      && (CallConserves(cfg, w, now); NeverHarmed(cfg, TakeToken(cfg, w, now).0, now, schedule[1..]))
  }

  /** At every request of the schedule the code counts exactly the tokens of the simple bucket. */
  predicate Tracks(cfg: Setting, w: Word, now: u32, level: nat, schedule: seq<Moment>)
    requires 0 <= cfg.capacity && Stamp(w) <= now && now + Seconds(schedule) < TWO_32
    decreases |schedule|
  {
    schedule == [] ||
    if schedule[0].Second? then Tracks(cfg, w, now + 1, EagerRefill(cfg, level), schedule[1..])
    else
      && Refilled(cfg, Tokens(w), Elapsed(now, Stamp(w))) == level
      && (CallConserves(cfg, w, now); Tracks(cfg, TakeToken(cfg, w, now).0, now, Spend(level), schedule[1..]))
  }

  /** One count is right exactly when the sum is harmless. */
  lemma CountRightIff(cfg: Setting, w: Word, now: u32)
    requires 0 <= cfg.capacity && Stamp(w) <= now
    ensures Refilled(cfg, Tokens(w), Elapsed(now, Stamp(w))) == Observed(cfg, w, now) <==> SumHarmless(cfg, w, now)
  {
    hide Sum32, Earned;
    assert Elapsed(now, Stamp(w)) == now - Stamp(w);
    CappedRightIff(Tokens(w) + Earned(cfg, now - Stamp(w)), cfg.capacity);
  }

  lemma CappedRightIff(sum: nat, capacity: nat)
    requires capacity < TWO_32
    ensures Min(capacity, sum % TWO_32) == Min(capacity, sum) <==> sum < TWO_32 || sum % TWO_32 >= capacity
  {
  }

  lemma ObservedSecond(cfg: Setting, w: Word, now: u32)
    requires 0 <= cfg.capacity && Stamp(w) <= now && now + 1 < TWO_32
    ensures Observed(cfg, w, now + 1) == EagerRefill(cfg, Observed(cfg, w, now))
  {
    hide Earned;
    EarnedAdds(cfg, now - Stamp(w), 1);
    assert now - Stamp(w) + 1 == now + 1 - Stamp(w);
  }

  lemma ObservedRequest(cfg: Setting, w: Word, now: u32)
    requires 0 <= cfg.capacity && Stamp(w) <= now && SumHarmless(cfg, w, now)
    ensures var w' := TakeToken(cfg, w, now).0;
            Stamp(w') <= now && Observed(cfg, w', now) == Spend(Observed(cfg, w, now))
  {
    CountRightIff(cfg, w, now);
    CallConserves(cfg, w, now);
  }

  /** Lazy refill refines the simple bucket: over every schedule, the word tracks the simple bucket
      request by request if and only if no request meets a harmful wrap. */
  lemma {:induction false} LazyTracksEagerIff(cfg: Setting, w: Word, now: u32, schedule: seq<Moment>)
    requires 0 <= cfg.capacity && Stamp(w) <= now && now + Seconds(schedule) < TWO_32
    ensures Tracks(cfg, w, now, Observed(cfg, w, now), schedule) <==> NeverHarmed(cfg, w, now, schedule)
    decreases |schedule|
  {
    if schedule != [] {
      if schedule[0].Second? {
        ObservedSecond(cfg, w, now);
        LazyTracksEagerIff(cfg, w, now + 1, schedule[1..]);
      } else {
        CountRightIff(cfg, w, now);
        if SumHarmless(cfg, w, now) {
          ObservedRequest(cfg, w, now);
          LazyTracksEagerIff(cfg, TakeToken(cfg, w, now).0, now, schedule[1..]);
        }
      }
    }
  }

  /** When no request meets a harmful wrap, both buckets admit the same requests. */
  lemma {:induction false} LazyAdmitsAsEager(cfg: Setting, w: Word, now: u32, schedule: seq<Moment>)
    requires 0 <= cfg.capacity && Stamp(w) <= now && now + Seconds(schedule) < TWO_32
    requires NeverHarmed(cfg, w, now, schedule)
    ensures LazyAnswers(cfg, w, now, schedule) == EagerAnswers(cfg, Observed(cfg, w, now), schedule)
    decreases |schedule|
  {
    if schedule != [] {
      if schedule[0].Second? {
        ObservedSecond(cfg, w, now);
        LazyAdmitsAsEager(cfg, w, now + 1, schedule[1..]);
      } else {
        CountRightIff(cfg, w, now);
        ObservedRequest(cfg, w, now);
        LazyAdmitsAsEager(cfg, TakeToken(cfg, w, now).0, now, schedule[1..]);
      }
    }
  }

  /** `n` requests and no second between them. */
  function Burst(n: nat): seq<Moment> {
    if n == 0 then [] else [Request] + Burst(n - 1)
  }

  lemma {:induction false} BurstLevel(cfg: Setting, level: nat, n: nat, i: nat)
    requires 0 <= cfg.capacity && i < n
    ensures |EagerAnswers(cfg, level, Burst(n))| == n
    ensures EagerAnswers(cfg, level, Burst(n))[i] <==> i < level
    decreases n
  {
    assert Burst(n)[1..] == Burst(n - 1);
    if n > 1 {
      BurstLevel(cfg, Spend(level), n - 1, if i > 0 then i - 1 else 0);
    }
  }

  lemma {:induction false} BurstNeverHarmed(cfg: Setting, w: Word, n: nat)
    requires 0 <= cfg.capacity
    ensures Seconds(Burst(n)) == 0 && NeverHarmed(cfg, w, Stamp(w), Burst(n))
    decreases n
  {
    if n > 0 {
      assert Burst(n)[1..] == Burst(n - 1);
      CallConserves(cfg, w, Stamp(w));
      BurstNeverHarmed(cfg, TakeToken(cfg, w, Stamp(w)).0, n - 1);
    }
  }

  /** A new client may spend its whole capacity at once, and no more: of the requests in the second its
      bucket is created, exactly the first `capacity` are admitted. */
  lemma FreshBurstExact(cfg: Setting, now: u32, n: nat, i: nat)
    requires 0 <= cfg.capacity && i < n
    ensures Seconds(Burst(n)) == 0
    ensures var answers := LazyAnswers(cfg, FreshBucket(cfg, now), now, Burst(n));
            |answers| == n && (answers[i] <==> i < cfg.capacity)
  {
    hide NeverHarmed, LazyAnswers, EagerAnswers, Burst, Seconds;
    BurstNeverHarmed(cfg, FreshBucket(cfg, now), n);
    LazyAdmitsAsEager(cfg, FreshBucket(cfg, now), now, Burst(n));
    BurstLevel(cfg, cfg.capacity, n, i);
  }

  /** The harmful wrap is real: after 65536 idle seconds at 65536 tokens a second the simple bucket
      is full, and the packed word turns the client away. */
  lemma WrapStarves()
    ensures var cfg := Setting(10, 65536);
            var w := Word(0, 0);
            && TakeToken(cfg, w, 65536).1.Rejected?
            && Observed(cfg, w, 65536) == 10
            && !SumHarmless(cfg, w, 65536)
  {
  }
}
