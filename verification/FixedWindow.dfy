/** The fixed window limiter's call on one key, taken whole, and what a client gets from it. */
module FixedWindow {
  import opened Machine
  import opened Division

  type Seconds = x: i32 | x > 0 witness 1

  datatype Setting = Setting(window: Seconds, maxRequests: i32)

  datatype Verdict = Admitted(remaining: u32, reset: u32) | Rejected(retryAfter: u32)

  /** The request limit, as the comparison with the unsigned count reads it. */
  function Limit(cfg: Setting): u32 {
    ToU32(cfg.maxRequests)
  }

  function WindowId(cfg: Setting, secs: u32): u32 {
    Quotient(secs, cfg.window);
    secs / cfg.window
  }

  /** The first second of window `k`. */
  function Begin(cfg: Setting, k: nat): nat {
    k * cfg.window
  }

  /** The end of the window, with the 32-bit wraps of its computation. */
  function ResetTime(cfg: Setting, id: u32): u32 {
    ToU32(ToU32(Begin(cfg, id)) + cfg.window)
  }

  function RetryAfter(cfg: Setting, secs: u32): u32 {
    var reset := ResetTime(cfg, WindowId(cfg, secs));
    if reset > secs then reset - secs else 0
  }

  /** The loop body's test: this window is used up. */
  predicate Refuses(cfg: Setting, w: Word, secs: u32) {
    w.high == WindowId(cfg, secs) && w.low >= Limit(cfg)
  }

  /** The loop body's exchange value. */
  function Desired(cfg: Setting, w: Word, secs: u32): Word {
    var id := WindowId(cfg, secs);
    if w.high == id then Word(id, ToU32(w.low + 1)) else Word(id, 1)
  }

  function Answer(cfg: Setting, desired: Word, secs: u32): Verdict {
    Admitted(ToU32(cfg.maxRequests - desired.low), ResetTime(cfg, WindowId(cfg, secs)))
  }

  /** A whole call that counts its request once. */
  function Call(cfg: Setting, w: Word, secs: u32): (Word, Verdict) {
    if Refuses(cfg, w, secs) then (w, Rejected(RetryAfter(cfg, secs)))
    else (Desired(cfg, w, secs), Answer(cfg, Desired(cfg, w, secs), secs))
  }

  const FRESH := Word(0, 0)

  lemma InItsWindow(cfg: Setting, secs: u32, k: nat)
    ensures Begin(cfg, k) <= secs < Begin(cfg, k) + cfg.window <==> WindowId(cfg, secs) == k
    ensures Begin(cfg, k) + cfg.window == Begin(cfg, k + 1)
  {
    Quotient(secs, cfg.window);
    if Begin(cfg, k) <= secs < Begin(cfg, k) + cfg.window {
      QuotientIs(secs, cfg.window, k);
    }
  }

  /** Retry-After is the distance to the end of the window, and so lies in 1..window, exactly when
      the end of the window still fits 32 bits; otherwise it is zero. */
  lemma RetryAfterIff(cfg: Setting, secs: u32)
    ensures var end := Begin(cfg, WindowId(cfg, secs)) + cfg.window;
            && secs < end <= secs + cfg.window
            && (1 <= RetryAfter(cfg, secs) <==> end < TWO_32)
            && RetryAfter(cfg, secs) == (if end < TWO_32 then end - secs else 0)
  {
    var id := WindowId(cfg, secs);
    InItsWindow(cfg, secs, id);
    TwoWraps(Begin(cfg, id), cfg.window);
    hide WindowId, Begin, ToU32;
  }

  lemma TwoWraps(begin: u32, window: u32)
    ensures ToU32(ToU32(begin) + window) == if begin + window < TWO_32 then begin + window else begin + window - TWO_32
  {
  }

  /** Retry-After is exact: with no other arrivals the same key is rejected at every earlier second
      and admitted at the announced one. */
  lemma RetryAfterExact(cfg: Setting, w: Word, secs: u32, later: u32)
    requires Refuses(cfg, w, secs) && secs <= later
    requires Begin(cfg, WindowId(cfg, secs)) + cfg.window < TWO_32
    ensures var retry := RetryAfter(cfg, secs);
            && 1 <= retry <= cfg.window
            && (later < secs + retry ==> Call(cfg, w, later).1.Rejected?)
            && (later == secs + retry ==> Call(cfg, w, later).1.Admitted?)
  {
    var id := WindowId(cfg, secs);
    RetryAfterIff(cfg, secs);
    InItsWindow(cfg, secs, id);
    InItsWindow(cfg, later, id);
    hide WindowId, Begin, RetryAfter, Desired, Answer;
  }

  /** What an admitted client is told is exact. Until the announced reset the clock stays in the request's
      window, and from it on it does not; beyond 32 bits the reset wraps. The announced remainder and the
      stored count make up the limit. */
  lemma AdmittedTold(cfg: Setting, w: Word, secs: u32, later: u32)
    requires Limit(cfg) >= 1 && !Refuses(cfg, w, secs) && secs <= later
    ensures var (w', v) := Call(cfg, w, secs);
            var id := WindowId(cfg, secs);
            var end := Begin(cfg, id) + cfg.window;
            && v.Admitted?
            && (end < TWO_32 ==> (later < v.reset <==> WindowId(cfg, later) == id))
            && (end >= TWO_32 ==> v.reset == end - TWO_32)
            && v.remaining + CountOf(w', id) == Limit(cfg)
  {
    var id := WindowId(cfg, secs);
    InItsWindow(cfg, secs, id);
    InItsWindow(cfg, later, id);
    TwoWraps(Begin(cfg, id), cfg.window);
    ToldCount(cfg, w, secs);
    hide WindowId, Begin, ToU32, Limit, Desired;
  }

  lemma ToldCount(cfg: Setting, w: Word, secs: u32)
    requires Limit(cfg) >= 1 && !Refuses(cfg, w, secs)
    ensures var d := Desired(cfg, w, secs);
            d.high == WindowId(cfg, secs) && ToU32(cfg.maxRequests - d.low) + d.low == Limit(cfg)
  {
    hide WindowId;
  }

  /** A clock that runs back into another window makes the limiter forget: however used up the window
      of `secs` is, one call with a stale reading in between and its next call is the first again. */
  lemma StaleClockForgets(cfg: Setting, w: Word, secs: u32, stale: u32)
    requires w.high == WindowId(cfg, secs) != WindowId(cfg, stale)
    ensures var between := Call(cfg, w, stale).0;
            Call(cfg, between, secs) == (Word(w.high, 1), Answer(cfg, Word(w.high, 1), secs))
  {
    hide WindowId, Answer, RetryAfter;
  }

  // Sequential runs of one key with a monotone clock

  predicate Monotone(arrivals: seq<u32>) {
    forall i, j :: 0 <= i < j < |arrivals| ==> arrivals[i] <= arrivals[j]
  }

  /** The key's word after the given arrivals, from a fresh key. */
  function WordAfter(cfg: Setting, arrivals: seq<u32>): Word {
    if arrivals == [] then FRESH
    else Call(cfg, WordAfter(cfg, arrivals[..|arrivals| - 1]), arrivals[|arrivals| - 1]).0
  }

  /** How many of the arrivals fall in the seconds from..to. */
  function Hits(arrivals: seq<u32>, from: int, to: int): nat {
    if arrivals == [] then 0
    else
      var last := arrivals[|arrivals| - 1];
      Hits(arrivals[..|arrivals| - 1], from, to) + if from <= last < to then 1 else 0
  }

  /** How many of them are admitted. */
  function Grants(cfg: Setting, arrivals: seq<u32>, from: int, to: int): nat {
    if arrivals == [] then 0
    else
      var before := arrivals[..|arrivals| - 1];
      var last := arrivals[|arrivals| - 1];
      Grants(cfg, before, from, to) +
      if from <= last < to && Call(cfg, WordAfter(cfg, before), last).1.Admitted? then 1 else 0
  }

  function HitsOf(cfg: Setting, arrivals: seq<u32>, k: nat): nat {
    Hits(arrivals, Begin(cfg, k), Begin(cfg, k) + cfg.window)
  }

  lemma IdMonotone(cfg: Setting, x: u32, y: u32)
    requires x <= y
    ensures WindowId(cfg, x) <= WindowId(cfg, y)
  {
    Quotient(x, cfg.window);
    Quotient(y, cfg.window);
    MulApart(WindowId(cfg, y), WindowId(cfg, x), cfg.window);
  }

  // Sequential runs with any clocks

  /** No arrival of another window stands between two arrivals of window `k`. */
  predicate Together(cfg: Setting, arrivals: seq<u32>, k: nat) {
    forall i, j, l :: 0 <= i < j < l < |arrivals| ==>
      WindowId(cfg, arrivals[i]) == k && WindowId(cfg, arrivals[l]) == k ==> WindowId(cfg, arrivals[j]) == k
  }

  /** How many arrivals of window `k` stand at the end. */
  function Trail(cfg: Setting, arrivals: seq<u32>, k: nat): nat {
    var n := |arrivals|;
    if n == 0 || WindowId(cfg, arrivals[n - 1]) != k then 0 else 1 + Trail(cfg, arrivals[..n - 1], k)
  }

  function GrantsOf(cfg: Setting, arrivals: seq<u32>, k: nat): nat {
    Grants(cfg, arrivals, Begin(cfg, k), Begin(cfg, k) + cfg.window)
  }

  /** One arrival more, in window `k` or not. */
  lemma OneMoreArrival(cfg: Setting, before: seq<u32>, last: u32, k: nat)
    ensures var arrivals := before + [last];
            var own := if WindowId(cfg, last) == k then 1 else 0;
            && HitsOf(cfg, arrivals, k) == HitsOf(cfg, before, k) + own
            && Trail(cfg, arrivals, k) == (if own == 1 then Trail(cfg, before, k) + 1 else 0)
            && WordAfter(cfg, arrivals) == Call(cfg, WordAfter(cfg, before), last).0
            && GrantsOf(cfg, arrivals, k) == GrantsOf(cfg, before, k)
               + if own == 1 && Call(cfg, WordAfter(cfg, before), last).1.Admitted? then 1 else 0
  {
    InItsWindow(cfg, last, k);
    hide WindowId, Begin, Call;
    assert (before + [last])[..|before|] == before;
  }

  /** The count the word holds for window `k`: none when it is in another window. */
  function CountOf(w: Word, k: nat): u32 {
    if w.high == k then w.low else 0
  }

  lemma CallCounts(cfg: Setting, w: Word, secs: u32, k: nat)
    requires Limit(cfg) >= 1 && CountOf(w, k) <= Limit(cfg)
    ensures CountOf(Call(cfg, w, secs).0, k)
            == if WindowId(cfg, secs) == k then Min(CountOf(w, k) + 1, Limit(cfg)) else 0
  {
    hide WindowId, Limit, Answer;
  }

  /** Whatever the clocks, the word counts the last arrivals of a window that stand together. */
  lemma {:induction false} TrailCounted(cfg: Setting, arrivals: seq<u32>, k: nat)
    requires Limit(cfg) >= 1
    ensures CountOf(WordAfter(cfg, arrivals), k) == Min(Trail(cfg, arrivals, k), Limit(cfg))
  {
    if arrivals != [] {
      hide WindowId, WordAfter, Trail, CountOf, Limit, Call;
      var before, last := arrivals[..|arrivals| - 1], arrivals[|arrivals| - 1];
      assert before + [last] == arrivals;
      TrailCounted(cfg, before, k);
      OneMoreArrival(cfg, before, last, k);
      CallCounts(cfg, WordAfter(cfg, before), last, k);
    }
  }

  lemma {:induction false} NoHits(cfg: Setting, arrivals: seq<u32>, k: nat)
    ensures HitsOf(cfg, arrivals, k) == 0 <==> forall i :: 0 <= i < |arrivals| ==> WindowId(cfg, arrivals[i]) != k
  {
    hide WindowId, Begin;
    if arrivals != [] {
      var before, last := arrivals[..|arrivals| - 1], arrivals[|arrivals| - 1];
      assert before + [last] == arrivals;
      NoHits(cfg, before, k);
      OneMoreArrival(cfg, before, last, k);
      assert forall i :: 0 <= i < |before| ==> before[i] == arrivals[i];
    }
  }

  /** The arrivals of window `k` are its trailing ones exactly when none stands before those. */
  lemma {:induction false} TrailHits(cfg: Setting, arrivals: seq<u32>, k: nat)
    ensures var rest := |arrivals| - Trail(cfg, arrivals, k);
            && 0 <= rest
            && (forall i :: rest <= i < |arrivals| ==> WindowId(cfg, arrivals[i]) == k)
            && (rest > 0 ==> WindowId(cfg, arrivals[rest - 1]) != k)
            && (HitsOf(cfg, arrivals, k) == Trail(cfg, arrivals, k) <==>
                  forall i :: 0 <= i < rest ==> WindowId(cfg, arrivals[i]) != k)
  {
    hide WindowId, HitsOf, Begin;
    NoHits(cfg, arrivals, k);
    if arrivals != [] {
      var before, last := arrivals[..|arrivals| - 1], arrivals[|arrivals| - 1];
      assert before + [last] == arrivals;
      TrailHits(cfg, before, k);
      OneMoreArrival(cfg, before, last, k);
      assert forall i :: 0 <= i < |before| ==> before[i] == arrivals[i];
    }
  }

  /** An arrival of window `k` joins the others of its window exactly when all of them are trailing. */
  lemma TogetherStep(cfg: Setting, before: seq<u32>, last: u32, k: nat)
    ensures Together(cfg, before + [last], k) <==>
              && Together(cfg, before, k)
              && (WindowId(cfg, last) == k ==> HitsOf(cfg, before, k) == Trail(cfg, before, k))
  {
    hide WindowId, HitsOf, Trail;
    var arrivals := before + [last];
    var n := |before|;
    TrailHits(cfg, before, k);
    assert forall i :: 0 <= i < n ==> arrivals[i] == before[i];
    var rest := n - Trail(cfg, before, k);
    if Together(cfg, arrivals, k) && WindowId(cfg, last) == k && rest > 0 {
      forall i | 0 <= i < rest
        ensures WindowId(cfg, before[i]) != k
      {
        assert WindowId(cfg, arrivals[n]) == k && WindowId(cfg, arrivals[rest - 1]) != k;
      }
    }
  }

  /** How arrivals, grants and trailing arrivals of a window stand to each other in every run. */
  predicate Shape(hits: nat, grants: nat, trail: nat, together: bool, limit: nat) {
    && trail <= hits && (trail == hits ==> together)
    && (hits <= limit ==> grants == hits)
    && (together ==> grants == Min(hits, limit))
    && (!together && hits > limit ==> grants > limit)
    && grants >= Min(trail, limit) + if hits > trail then 1 else 0
  }

  /** The shape is kept by an arrival of the window, admitted while its trailing ones are below the limit,
      and by one of another window. */
  lemma ShapeStep(hits: nat, grants: nat, trail: nat, together: bool, limit: nat)
    requires limit >= 1 && Shape(hits, grants, trail, together, limit)
    ensures Shape(hits + 1, grants + (if Min(trail, limit) < limit then 1 else 0), trail + 1,
                  together && hits == trail, limit)
    ensures Shape(hits, grants, 0, together, limit)
  {
  }

  lemma {:induction false} RunShape(cfg: Setting, arrivals: seq<u32>, k: nat)
    requires Limit(cfg) >= 1
    ensures Shape(HitsOf(cfg, arrivals, k), GrantsOf(cfg, arrivals, k), Trail(cfg, arrivals, k),
                  Together(cfg, arrivals, k), Limit(cfg))
  {
    if arrivals != [] {
      hide HitsOf, GrantsOf, Trail, Together, WordAfter, WindowId, Call, Limit, CountOf, Shape;
      var before, last := arrivals[..|arrivals| - 1], arrivals[|arrivals| - 1];
      assert before + [last] == arrivals;
      RunShape(cfg, before, k);
      OneMoreArrival(cfg, before, last, k);
      TogetherStep(cfg, before, last, k);
      TrailCounted(cfg, before, k);
      AdmittedIff(cfg, WordAfter(cfg, before), last);
      ShapeStep(HitsOf(cfg, before, k), GrantsOf(cfg, before, k), Trail(cfg, before, k),
                Together(cfg, before, k), Limit(cfg));
    }
  }

  lemma AdmittedIff(cfg: Setting, w: Word, secs: u32)
    requires Limit(cfg) >= 1
    ensures Call(cfg, w, secs).1.Admitted? <==> CountOf(w, WindowId(cfg, secs)) < Limit(cfg)
  {
    hide WindowId, Limit, Desired;
  }

  /** Whatever the clocks read: a window admits exactly min(arrivals, max_requests) requests of the key if
      and only if it has no more arrivals than that, or no arrival of another window stands between its
      own. A stale clock makes the limiter forget, and never makes it turn away a request too many. */
  lemma WindowExactIff(cfg: Setting, arrivals: seq<u32>, k: nat)
    requires Limit(cfg) >= 1
    ensures var hits, grants := HitsOf(cfg, arrivals, k), GrantsOf(cfg, arrivals, k);
            && (grants == Min(hits, Limit(cfg)) <==> hits <= Limit(cfg) || Together(cfg, arrivals, k))
            && grants >= Min(hits, Limit(cfg))
  {
    hide HitsOf, GrantsOf, Trail, Together, Limit;
    RunShape(cfg, arrivals, k);
  }

  /** With a monotone clock every window admits exactly its first `max_requests` arrivals. */
  lemma WindowExact(cfg: Setting, arrivals: seq<u32>, k: nat)
    requires Monotone(arrivals) && Limit(cfg) >= 1
    ensures Grants(cfg, arrivals, Begin(cfg, k), Begin(cfg, k) + cfg.window)
            == Min(HitsOf(cfg, arrivals, k), Limit(cfg))
  {
    WindowExactIff(cfg, arrivals, k);
    MonotoneTogether(cfg, arrivals, k);
  }

  /** With a monotone clock, before every call the word counts the admitted requests of the window the call
      falls in. */
  lemma CountedBefore(cfg: Setting, before: seq<u32>, last: u32)
    requires Monotone(before + [last]) && Limit(cfg) >= 1
    ensures var id := WindowId(cfg, last);
            CountOf(WordAfter(cfg, before), id) == Min(HitsOf(cfg, before, id), Limit(cfg))
  {
    hide WindowId, HitsOf, WordAfter, Trail;
    var id, n := WindowId(cfg, last), |before|;
    TrailCounted(cfg, before, id);
    TrailHits(cfg, before, id);
    var rest := n - Trail(cfg, before, id);
    forall i | 0 <= i < rest
      ensures WindowId(cfg, before[i]) != id
    {
      var arrivals := before + [last];
      assert before[i] == arrivals[i] && before[rest - 1] == arrivals[rest - 1] && last == arrivals[n];
      IdMonotone(cfg, before[i], before[rest - 1]);
      IdMonotone(cfg, before[rest - 1], last);
    }
  }

  lemma MonotoneTogether(cfg: Setting, arrivals: seq<u32>, k: nat)
    requires Monotone(arrivals)
    ensures Together(cfg, arrivals, k)
  {
    hide WindowId;
    forall i, j, l | 0 <= i < j < l < |arrivals| && WindowId(cfg, arrivals[i]) == k && WindowId(cfg, arrivals[l]) == k
      ensures WindowId(cfg, arrivals[j]) == k
    {
      IdMonotone(cfg, arrivals[i], arrivals[j]);
      IdMonotone(cfg, arrivals[j], arrivals[l]);
    }
  }

  lemma {:induction false} GrantsSplit(cfg: Setting, arrivals: seq<u32>, a: int, b: int, c: int)
    requires a <= b <= c
    ensures Grants(cfg, arrivals, a, b) + Grants(cfg, arrivals, b, c) == Grants(cfg, arrivals, a, c)
  {
    if arrivals != [] {
      GrantsSplit(cfg, arrivals[..|arrivals| - 1], a, b, c);
    }
  }

  /** From the start of a window on: `max_requests` for each window begun. */
  lemma {:induction false} AlignedSpan(cfg: Setting, arrivals: seq<u32>, k: nat, length: nat)
    requires Monotone(arrivals) && Limit(cfg) >= 1
    ensures Grants(cfg, arrivals, Begin(cfg, k), Begin(cfg, k) + length)
            <= Limit(cfg) * CeilDiv(length, cfg.window)
    decreases length
  {
    hide Grants, Limit, CeilDiv, Hits;
    var W := cfg.window;
    var from := Begin(cfg, k);
    WindowExact(cfg, arrivals, k);
    if length == 0 {
      NoGrants(cfg, arrivals, from);
      CeilSmall(0, W);
    } else if length <= W {
      GrantsSplit(cfg, arrivals, from, from + length, from + W);
      CeilSmall(length, W);
    } else {
      GrantsSplit(cfg, arrivals, from, from + W, from + length);
      assert Begin(cfg, k + 1) == from + W;
      AlignedSpan(cfg, arrivals, k + 1, length - W);
      CeilStep(length, W);
      OneMore(Limit(cfg), CeilDiv(length - W, W));
    }
  }

  lemma OneMore(k: nat, x: nat)
    ensures k * (1 + x) == k + k * x
  {
  }

  lemma {:induction false} NoGrants(cfg: Setting, arrivals: seq<u32>, from: int)
    ensures Grants(cfg, arrivals, from, from) == 0
  {
    if arrivals != [] {
      NoGrants(cfg, arrivals[..|arrivals| - 1], from);
    }
  }

  /** Any span of `length` seconds, wherever it starts, admits at most `max_requests` for each window
      it can touch. */
  lemma SpanBound(cfg: Setting, arrivals: seq<u32>, start: nat, length: nat)
    requires Monotone(arrivals) && Limit(cfg) >= 1
    ensures Grants(cfg, arrivals, start, start + length)
            <= Limit(cfg) * (CeilDiv(length, cfg.window) + 1)
  {
    hide Grants, Limit, CeilDiv, Hits;
    var W := cfg.window;
    var k := start / W;
    Quotient(start, W);
    var from, next := Begin(cfg, k), Begin(cfg, k) + W;
    assert next == Begin(cfg, k + 1);
    WindowExact(cfg, arrivals, k);
    OneMore(Limit(cfg), CeilDiv(length, W));
    GrantsSplit(cfg, arrivals, from, start, next);
    if start + length <= next {
      GrantsSplit(cfg, arrivals, start, start + length, next);
    } else {
      GrantsSplit(cfg, arrivals, start, next, start + length);
      var rest := start + length - next;
      AlignedSpan(cfg, arrivals, k + 1, rest);
      CeilMonotone(rest, length, W);
      MulAtMost(CeilDiv(rest, W), CeilDiv(length, W), Limit(cfg));
    }
  }
}
