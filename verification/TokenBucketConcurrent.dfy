/** Any number of token bucket calls on one bucket, interleaved one atomic action at a time.

    A call reads the clock, loads the word, and then either refuses on the word it last read or
    tries to exchange that word for the next one. A weak exchange may fail for no reason, and a
    failed exchange hands the call the word that is there now. */
module TokenBucketConcurrent {
  import opened Machine
  import opened Sums
  import opened TokenBucket

  /** Where a call stands. `seen` records how many exchanges had succeeded when `held` was read. */
  datatype Call =
    | Waiting
    | Clocked(secs: u32)
    | Looping(secs: u32, held: Word, seen: nat)
    | Returned(secs: u32, verdict: Verdict)

  datatype Entry = Entry(call: nat, secs: u32, verdict: Verdict)

  /** `log`, `wins` and `attempts` only record the past: no action depends on them. */
  datatype State = State(word: Word, calls: seq<Call>, log: seq<Entry>, wins: nat, attempts: nat)

  datatype Event =
    | ReadClock(call: nat, secs: u32)
    | Load(call: nat)
    | Refuse(call: nat)
    | ExchangeSucceeds(call: nat)
    | ExchangeFails(call: nat)

  function Initial(w: Word, n: nat): State {
    State(w, seq(n, _ => Waiting), [], 0, 0)
  }

  predicate Refuses(cfg: Setting, w: Word, secs: u32) {
    TakeToken(cfg, w, secs).1.Rejected?
  }

  /** The clock may say anything: it can be stale, and it need not be monotone. */
  predicate Enabled(cfg: Setting, s: State, e: Event) {
    && e.call < |s.calls|
    && var call := s.calls[e.call];
      match e
      case ReadClock(_, _) => call.Waiting?
      case Load(_) => call.Clocked?
      case Refuse(_) => call.Looping? && Refuses(cfg, call.held, call.secs)
      case ExchangeSucceeds(_) => call.Looping? && !Refuses(cfg, call.held, call.secs) && s.word == call.held
      case ExchangeFails(_) => call.Looping? && !Refuses(cfg, call.held, call.secs)
  }

  /** The call takes the current word; from then on a refusal is certain if this word refuses. */
  function Read(cfg: Setting, s: State, c: nat, secs: u32): State
    requires c < |s.calls|
  {
    var v := TakeToken(cfg, s.word, secs).1;
    s.(calls := s.calls[c := Looping(secs, s.word, s.wins)],
       log := if v.Rejected? then s.log + [Entry(c, secs, v)] else s.log)
  }

  function Apply(cfg: Setting, s: State, e: Event): State
    requires Enabled(cfg, s, e)
  {
    var c := e.call;
    var call := s.calls[c];
    match e
    case ReadClock(_, secs) => s.(calls := s.calls[c := Clocked(secs)])
    case Load(_) => Read(cfg, s, c, call.secs)
    case Refuse(_) => s.(calls := s.calls[c := Returned(call.secs, TakeToken(cfg, call.held, call.secs).1)])
    case ExchangeSucceeds(_) =>
      var (desired, v) := TakeToken(cfg, call.held, call.secs);
      State(desired, s.calls[c := Returned(call.secs, v)], s.log + [Entry(c, call.secs, v)],
            s.wins + 1, s.attempts + 1)
    case ExchangeFails(_) => Read(cfg, s.(attempts := s.attempts + 1), c, call.secs)
  }

  predicate Runs(cfg: Setting, s: State, es: seq<Event>)
    decreases |es|
  {
    es == [] || (Enabled(cfg, s, es[0]) && Runs(cfg, Apply(cfg, s, es[0]), es[1..]))
  }

  function After(cfg: Setting, s: State, es: seq<Event>): State
    requires Runs(cfg, s, es)
    decreases |es|
  {
    if es == [] then s else After(cfg, Apply(cfg, s, es[0]), es[1..])
  }

  function Admissions(es: seq<Event>): nat {
    if es == [] then 0 else (if es[0].ExchangeSucceeds? then 1 else 0) + Admissions(es[1..])
  }

  /** A run is its first action and the run from there. */
  lemma FirstAction(cfg: Setting, s: State, es: seq<Event>)
    requires es != [] && Runs(cfg, s, es)
    ensures Enabled(cfg, s, es[0])
    ensures var m := Apply(cfg, s, es[0]);
            Runs(cfg, m, es[1..]) && After(cfg, s, es) == After(cfg, m, es[1..])
    ensures Admissions(es) == (if es[0].ExchangeSucceeds? then 1 else 0) + Admissions(es[1..])
  {
    hide Enabled, Apply;
  }

  // Conservation

  lemma EventConserves(cfg: Setting, s: State, e: Event)
    requires Enabled(cfg, s, e)
    ensures var s' := Apply(cfg, s, e);
            && Stamp(s.word) <= Stamp(s'.word)
            && Tokens(s'.word) + (if e.ExchangeSucceeds? then 1 else 0)
               <= Tokens(s.word) + Earned(cfg, Stamp(s'.word) - Stamp(s.word))
            && (0 <= cfg.capacity && Tokens(s.word) <= cfg.capacity ==> Tokens(s'.word) <= cfg.capacity)
  {
    hide TakeToken, Earned;
    var call := s.calls[e.call];
    if e.ExchangeSucceeds? {
      CallConserves(cfg, call.held, call.secs);
    }
  }

  /** In every interleaving, from any point to any later point: what was admitted plus what is left
      is at most what was there plus `rate` tokens for each second the stamp has moved. */
  lemma {:induction false} Conservation(cfg: Setting, s: State, es: seq<Event>)
    requires Runs(cfg, s, es)
    ensures var t := After(cfg, s, es);
            && Stamp(s.word) <= Stamp(t.word)
            && Admissions(es) + Tokens(t.word)
               <= Tokens(s.word) + Earned(cfg, Stamp(t.word) - Stamp(s.word))
            && (0 <= cfg.capacity && Tokens(s.word) <= cfg.capacity ==> Tokens(t.word) <= cfg.capacity)
    decreases |es|
  {
    if es != [] {
      hide Earned, Apply, Enabled, Runs, After, Admissions;
      FirstAction(cfg, s, es);
      var m := Apply(cfg, s, es[0]);
      EventConserves(cfg, s, es[0]);
      Conservation(cfg, m, es[1..]);
      var t := After(cfg, m, es[1..]);
      EarnedAdds(cfg, Stamp(m.word) - Stamp(s.word), Stamp(t.word) - Stamp(m.word));
    }
  }

  /** The clocks of the run are read in the seconds from..to, and none in use is later than that. */
  ghost predicate ReadWithin(s: State, es: seq<Event>, from: nat, to: nat) {
    && (forall i :: 0 <= i < |es| && es[i].ReadClock? ==> from <= es[i].secs <= to)
    && (forall c :: 0 <= c < |s.calls| && (s.calls[c].Clocked? || s.calls[c].Looping?) ==> s.calls[c].secs <= to)
  }

  lemma ReadWithinStep(cfg: Setting, s: State, es: seq<Event>, from: nat, to: nat)
    requires es != [] && Enabled(cfg, s, es[0]) && ReadWithin(s, es, from, to)
    ensures ReadWithin(Apply(cfg, s, es[0]), es[1..], from, to)
    ensures es[0].ExchangeSucceeds? ==> s.calls[es[0].call].secs <= to
  {
    hide TakeToken;
    assert es[0].ReadClock? ==> from <= es[0].secs <= to;
    assert forall i :: 0 <= i < |es[1..]| ==> es[1..][i] == es[i + 1];
  }

  /** The stamp is the bucket's first stamp or some call's clock reading. */
  lemma {:induction false} StampBounded(cfg: Setting, s: State, es: seq<Event>, latest: u32)
    requires Runs(cfg, s, es)
    requires Stamp(s.word) <= latest && ReadWithin(s, es, 0, latest)
    ensures Stamp(After(cfg, s, es).word) <= latest
    decreases |es|
  {
    if es != [] {
      ReadWithinStep(cfg, s, es, 0, latest);
      StampBounded(cfg, Apply(cfg, s, es[0]), es[1..], latest);
    }
  }

  lemma WithinMore(s: State, es: seq<Event>, from: nat, to: nat)
    requires ReadWithin(s, es, from, to)
    ensures ReadWithin(s, es, 0, to)
  {
  }

  /** A successful exchange leaves less than a full bucket, stamped no earlier than its clock. */
  lemma ExchangeRefreshes(cfg: Setting, s: State, e: Event)
    requires 0 <= cfg.capacity && Enabled(cfg, s, e) && e.ExchangeSucceeds?
    ensures var w, secs := Apply(cfg, s, e).word, s.calls[e.call].secs;
            Tokens(w) + 1 <= cfg.capacity && Stamp(w) == if Stamp(s.word) < secs then secs else Stamp(s.word)
  {
    hide Earned;
  }

  /** A call in flight that read its clock before `from`. */
  function IsStale(from: nat): Call -> int {
    (call: Call) => if (call.Clocked? || call.Looping?) && call.secs < from then 1 else 0
  }

  /** Stale calls become no more, and one fewer with each of them that is admitted. */
  lemma StaleStep(cfg: Setting, s: State, e: Event, from: nat)
    requires Enabled(cfg, s, e) && (e.ReadClock? ==> from <= e.secs)
    ensures var admitted := if e.ExchangeSucceeds? && s.calls[e.call].secs < from then 1 else 0;
            Sum(Apply(cfg, s, e).calls, IsStale(from)) + admitted <= Sum(s.calls, IsStale(from))
  {
    hide TakeToken;
    SumUpdate(s.calls, e.call, Apply(cfg, s, e).calls[e.call], IsStale(from));
  }

  lemma {:induction false} NoneStale(calls: seq<Call>, from: nat)
    ensures 0 <= Sum(calls, IsStale(from)) <= |calls|
    ensures Sum(calls, IsStale(from)) == 0 <==> forall c :: 0 <= c < |calls| ==> IsStale(from)(calls[c]) == 0
  {
    if calls != [] {
      NoneStale(calls[1..], from);
      assert forall c :: 1 <= c < |calls| ==> calls[c] == calls[1..][c - 1];
    }
  }

  lemma WordKept(cfg: Setting, s: State, e: Event)
    requires Enabled(cfg, s, e) && !e.ExchangeSucceeds?
    ensures Apply(cfg, s, e).word == s.word
  {
    hide TakeToken;
  }

  /** What is admitted after a call of the span has refreshed the bucket. */
  lemma AfterRefresh(cfg: Setting, s: State, es: seq<Event>, from: u32, to: u32)
    requires Runs(cfg, s, es) && ReadWithin(s, es, from, to)
    requires from <= Stamp(s.word) <= to
    ensures Admissions(es) <= Tokens(s.word) + Earned(cfg, to - from)
  {
    hide Apply, Enabled, ReadWithin, Earned, Runs, After, Admissions;
    Conservation(cfg, s, es);
    WithinMore(s, es, from, to);
    StampBounded(cfg, s, es, to);
    EarnedMonotone(cfg, Stamp(After(cfg, s, es).word) - Stamp(s.word), to - from);
  }

  /** Over any span of seconds, from any state of the bucket however old its stamp, at most the capacity
      plus `rate` for each second of the span is admitted, and one more for each call in flight that
      read its clock before the span, however the calls interleave. */
  lemma {:induction false} AtMostCapacityPlusRate(cfg: Setting, s: State, es: seq<Event>, from: u32, to: u32)
    requires 0 <= cfg.capacity && from <= to
    requires Stamp(s.word) <= to && ReadWithin(s, es, from, to)
    requires Runs(cfg, s, es)
    ensures Admissions(es) <= cfg.capacity + Earned(cfg, to - from) + Sum(s.calls, IsStale(from))
    decreases |es|
  {
    NoneStale(s.calls, from);
    if es != [] {
      hide Apply, Enabled, ReadWithin, Earned, Runs, After, Admissions, Sum, IsStale;
      FirstAction(cfg, s, es);
      var e, m := es[0], Apply(cfg, s, es[0]);
      ReadWithinStep(cfg, s, es, from, to);
      ReadFrom(s, es, from, to);
      StaleStep(cfg, s, e, from);
      if e.ExchangeSucceeds? {
        ExchangeRefreshes(cfg, s, e);
      } else {
        WordKept(cfg, s, e);
      }
      if e.ExchangeSucceeds? && from <= s.calls[e.call].secs {
        AfterRefresh(cfg, m, es[1..], from, to);
      } else {
        AtMostCapacityPlusRate(cfg, m, es[1..], from, to);
      }
    }
  }

  lemma ReadFrom(s: State, es: seq<Event>, from: nat, to: nat)
    requires es != [] && ReadWithin(s, es, from, to)
    ensures es[0].ReadClock? ==> from <= es[0].secs
  {
  }

  /** The same from the creation of a bucket, whatever the sign of its capacity. */
  lemma FreshAtMostCapacityPlusRate(cfg: Setting, now: u32, n: nat, es: seq<Event>, seconds: nat)
    requires now + seconds < TWO_32
    requires Runs(cfg, Initial(FreshBucket(cfg, now), n), es)
    requires forall i :: 0 <= i < |es| && es[i].ReadClock? ==> es[i].secs <= now + seconds
    ensures Admissions(es) <= ToU32(cfg.capacity) + Earned(cfg, seconds)
  {
    hide Apply, Enabled, Runs, After, Earned;
    var s := Initial(FreshBucket(cfg, now), n);
    Conservation(cfg, s, es);
    StampBounded(cfg, s, es, now + seconds);
    EarnedMonotone(cfg, Stamp(After(cfg, s, es).word) - now, seconds);
  }

  /** The stale calls count: one can drain the bucket without refilling it, and the refill up to the span
      then still lies ahead. Here the bound is attained. */
  lemma StaleCallAdmitsMore()
    ensures var cfg := Setting(1, 1);
            var s := State(Word(1, 0), [Looping(0, Word(1, 0), 0), Clocked(10)], [], 0, 0);
            var es := [ExchangeSucceeds(0), Load(1), ExchangeSucceeds(1)];
            && Runs(cfg, s, es)
            && ReadWithin(s, es, 10, 10) && Sum(s.calls, IsStale(10)) == 1
            && Admissions(es) == 2 && cfg.capacity + Earned(cfg, 10 - 10) == 1
  {
    hide TakeToken;
    var cfg := Setting(1, 1);
    var stale, clocked := Looping(0, Word(1, 0), 0), Clocked(10);
    var s := State(Word(1, 0), [stale, clocked], [], 0, 0);
    TwoTokens();
    var v0, v1 := TakeToken(cfg, Word(1, 0), 0).1, TakeToken(cfg, Word(0, 0), 10).1;
    var after0 := State(Word(0, 0), [Returned(0, v0), clocked], [Entry(0, 0, v0)], 1, 1);
    var after1 := State(Word(0, 0), [Returned(0, v0), Looping(10, Word(0, 0), 1)], [Entry(0, 0, v0)], 1, 1);
    assert Apply(cfg, s, ExchangeSucceeds(0)) == after0;
    assert Apply(cfg, after0, Load(1)) == after1;
    RunOfThree(cfg, s, ExchangeSucceeds(0), Load(1), ExchangeSucceeds(1));
    assert s.calls[1..] == [clocked];
  }

  lemma TwoTokens()
    ensures TakeToken(Setting(1, 1), Word(1, 0), 0) == (Word(0, 0), Admitted(0, 1))
    ensures TakeToken(Setting(1, 1), Word(0, 0), 10) == (Word(0, 10), Admitted(0, 1))
  {
  }

  lemma RunOfThree(cfg: Setting, s: State, e: Event, f: Event, g: Event)
    requires Enabled(cfg, s, e) && Enabled(cfg, Apply(cfg, s, e), f)
    requires Enabled(cfg, Apply(cfg, Apply(cfg, s, e), f), g)
    ensures Runs(cfg, s, [e, f, g])
    ensures Admissions([e, f, g]) == Admissions([e]) + Admissions([f]) + Admissions([g])
  {
    hide Enabled, Apply;
    assert [e, f, g][1..] == [f, g] && [f, g][1..] == [g] && [g][1..] == [];
    var m := Apply(cfg, Apply(cfg, s, e), f);
    assert Runs(cfg, Apply(cfg, m, g), []);
    assert Runs(cfg, m, [g]);
  }

  // Linearisation

  /** The logged calls, run whole and one at a time from `w`, give exactly the logged answers and
      end in `end`. */
  ghost predicate Replays(cfg: Setting, w: Word, log: seq<Entry>, end: Word) {
    if log == [] then w == end
    else
      var last := log[|log| - 1];
      exists mid :: Replays(cfg, w, log[..|log| - 1], mid) && TakeToken(cfg, mid, last.secs) == (end, last.verdict)
  }

  /** The answer a call is already bound to give. */
  function Bound(cfg: Setting, call: Call): Option<(u32, Verdict)> {
    match call
    case Returned(secs, v) => Some((secs, v))
    case Looping(secs, held, _) =>
      if Refuses(cfg, held, secs) then Some((secs, TakeToken(cfg, held, secs).1)) else None
    case _ => None
  }

  function BoundBy(cfg: Setting, s: State, e: Entry): bool {
    e.call < |s.calls| && Bound(cfg, s.calls[e.call]) == Some((e.secs, e.verdict))
  }

  predicate Logged(log: seq<Entry>, c: nat) {
    exists i :: 0 <= i < |log| && log[i].call == c
  }

  predicate Distinct(log: seq<Entry>) {
    forall i, j :: 0 <= i < j < |log| ==> log[i].call != log[j].call
  }

  /** The log holds each bound call once, with its answer, and no other call. */
  ghost predicate LogOfBound(cfg: Setting, s: State) {
    && (forall i :: 0 <= i < |s.log| ==> BoundBy(cfg, s, s.log[i]))
    && Distinct(s.log)
    && (forall c :: 0 <= c < |s.calls| && Bound(cfg, s.calls[c]).Some? ==> Logged(s.log, c))
  }

  /** One action touches one call. Either it changes neither the word nor what that call is bound to,
      or it binds the call, appends it, and moves the word as the whole call would. */
  lemma EventShape(cfg: Setting, s: State, e: Event)
    requires Enabled(cfg, s, e)
    ensures var s' := Apply(cfg, s, e);
            var c := e.call;
            && c < |s.calls|
            && s'.calls == s.calls[c := s'.calls[c]]
            && (|| (s'.log == s.log && s'.word == s.word && Bound(cfg, s'.calls[c]) == Bound(cfg, s.calls[c]))
                || (&& Bound(cfg, s.calls[c]).None?
                    && exists entry: Entry ::
                         && entry.call == c && s'.log == s.log + [entry] && BoundBy(cfg, s', entry)
                         && TakeToken(cfg, s.word, entry.secs) == (s'.word, entry.verdict)))
  {
    hide TakeToken;
    var s' := Apply(cfg, s, e);
    var call := s.calls[e.call];
    if s'.log != s.log {
      CallConserves(cfg, s.word, call.secs);
      var entry := s'.log[|s.log|];
      assert s'.log == s.log + [entry];
      assert BoundBy(cfg, s', entry);
    }
  }

  lemma LogGrows(cfg: Setting, s: State, s': State, entry: Entry)
    requires LogOfBound(cfg, s) && entry.call < |s.calls| && Bound(cfg, s.calls[entry.call]).None?
    requires |s'.calls| == |s.calls| && s'.calls == s.calls[entry.call := s'.calls[entry.call]]
    requires s'.log == s.log + [entry] && BoundBy(cfg, s', entry)
    ensures LogOfBound(cfg, s')
  {
    hide Bound;
    assert forall i :: 0 <= i < |s.log| ==> BoundBy(cfg, s, s.log[i]) && s'.log[i] == s.log[i];
    forall d | 0 <= d < |s'.calls| && Bound(cfg, s'.calls[d]).Some?
      ensures Logged(s'.log, d)
    {
      if d == entry.call {
        assert s'.log[|s.log|].call == d;
      } else {
        assert Logged(s.log, d);
        var i :| 0 <= i < |s.log| && s.log[i].call == d;
        assert s'.log[i].call == d;
      }
    }
  }

  lemma LogStays(cfg: Setting, s: State, s': State, c: nat)
    requires LogOfBound(cfg, s) && c < |s.calls|
    requires |s'.calls| == |s.calls| && s'.calls == s.calls[c := s'.calls[c]]
    requires s'.log == s.log && Bound(cfg, s'.calls[c]) == Bound(cfg, s.calls[c])
    ensures LogOfBound(cfg, s')
  {
    hide Bound;
    assert forall i :: 0 <= i < |s.log| ==> BoundBy(cfg, s, s.log[i]);
    assert forall d :: 0 <= d < |s.calls| ==> Bound(cfg, s'.calls[d]) == Bound(cfg, s.calls[d]);
  }

  /** One action keeps the log faithful. */
  lemma EventLinearises(cfg: Setting, w: Word, s: State, e: Event)
    requires Enabled(cfg, s, e) && LogOfBound(cfg, s) && Replays(cfg, w, s.log, s.word)
    ensures var s' := Apply(cfg, s, e);
            s.log <= s'.log && LogOfBound(cfg, s') && Replays(cfg, w, s'.log, s'.word)
  {
    hide TakeToken, Bound, BoundBy, Apply, LogOfBound, Enabled;
    EventShape(cfg, s, e);
    var s' := Apply(cfg, s, e);
    if s'.log == s.log {
      LogStays(cfg, s, s', e.call);
    } else {
      var entry: Entry :| entry.call == e.call && s'.log == s.log + [entry] && BoundBy(cfg, s', entry)
                          && TakeToken(cfg, s.word, entry.secs) == (s'.word, entry.verdict);
      LogGrows(cfg, s, s', entry);
      assert s'.log[..|s'.log| - 1] == s.log;
      assert s'.log[|s'.log| - 1] == entry;
      assert Replays(cfg, w, s'.log[..|s'.log| - 1], s.word);
    }
  }

  lemma {:induction false} RunLinearises(cfg: Setting, w: Word, s: State, es: seq<Event>)
    requires Runs(cfg, s, es) && LogOfBound(cfg, s) && Replays(cfg, w, s.log, s.word)
    ensures var t := After(cfg, s, es);
            s.log <= t.log && LogOfBound(cfg, t) && Replays(cfg, w, t.log, t.word)
    decreases |es|
  {
    if es != [] {
      EventLinearises(cfg, w, s, es[0]);
      RunLinearises(cfg, w, Apply(cfg, s, es[0]), es[1..]);
    }
  }

  /** Every concurrent run is linearisable: its log is a one-at-a-time history of whole calls that
      ends in the same word. It holds only calls of the run that have returned or are bound to, each once
      and with its answer, and every call that has returned. */
  lemma Linearisable(cfg: Setting, w: Word, n: nat, es: seq<Event>, c: nat)
    requires Runs(cfg, Initial(w, n), es) && c < n
    ensures var t := After(cfg, Initial(w, n), es);
            && Replays(cfg, w, t.log, t.word)
            && (forall i, j :: 0 <= i < j < |t.log| ==> t.log[i].call != t.log[j].call)
            && (forall i :: 0 <= i < |t.log| ==> BoundBy(cfg, t, t.log[i]))
            && |t.calls| == n
            && (t.calls[c].Returned? ==>
                  exists i :: 0 <= i < |t.log| && t.log[i] == Entry(c, t.calls[c].secs, t.calls[c].verdict))
  {
    RunLinearises(cfg, w, Initial(w, n), es);
    CallsKept(cfg, Initial(w, n), es);
    var t := After(cfg, Initial(w, n), es);
    if t.calls[c].Returned? {
      assert Bound(cfg, t.calls[c]).Some? && Logged(t.log, c);
      var i :| 0 <= i < |t.log| && t.log[i].call == c;
      assert BoundBy(cfg, t, t.log[i]);
    }
  }

  lemma {:induction false} CallsKept(cfg: Setting, s: State, es: seq<Event>)
    requires Runs(cfg, s, es)
    ensures |After(cfg, s, es).calls| == |s.calls|
    decreases |es|
  {
    if es != [] {
      CallsKept(cfg, Apply(cfg, s, es[0]), es[1..]);
    }
  }

  /** The history respects real time: a call that has returned before another one starts comes
      before it in the history of every continuation of the run. */
  lemma RealTimeOrder(cfg: Setting, w: Word, n: nat, es: seq<Event>, fs: seq<Event>, i: nat, j: nat)
    requires Runs(cfg, Initial(w, n), es) && Runs(cfg, After(cfg, Initial(w, n), es), fs)
    requires var m := After(cfg, Initial(w, n), es);
             var log := After(cfg, m, fs).log;
             && i < |log| && j < |log| && log[i].call < |m.calls| && log[j].call < |m.calls|
             && m.calls[log[i].call].Returned? && m.calls[log[j].call].Waiting?
    ensures i < j
  {
    hide TakeToken, Apply, Enabled, Runs, After;
    var m := After(cfg, Initial(w, n), es);
    RunLinearises(cfg, w, Initial(w, n), es);
    RunLinearises(cfg, w, m, fs);
    var log := After(cfg, m, fs).log;
    assert Logged(m.log, log[i].call);
    var k :| 0 <= k < |m.log| && m.log[k].call == log[i].call;
    assert log[k] == m.log[k];
  }

  // How long the exchange loops can go on

  /** A strong exchange fails only when the word is not the expected one. */
  predicate StrongStep(s: State, e: Event) {
    e.ExchangeFails? && e.call < |s.calls| && s.calls[e.call].Looping? ==> s.word != s.calls[e.call].held
  }

  predicate StrongRun(cfg: Setting, s: State, es: seq<Event>)
    requires Runs(cfg, s, es)
    decreases |es|
  {
    es == [] || (StrongStep(s, es[0]) && StrongRun(cfg, Apply(cfg, s, es[0]), es[1..]))
  }

  function Attempts(es: seq<Event>): nat {
    if es == [] then 0
    else (if es[0].ExchangeSucceeds? || es[0].ExchangeFails? then 1 else 0) + Attempts(es[1..])
  }

  function IsWinner(call: Call): int {
    if call.Returned? && call.verdict.Admitted? then 1 else 0
  }

  function IsLooping(call: Call): int {
    if call.Looping? then 1 else 0
  }

  /** The successes of others that a looping call has not yet been charged for. */
  function Credit(wins: nat): Call -> int {
    (call: Call) => if call.Looping? then wins - call.seen else 0
  }

  /** The failures that `wins` successes among `n` calls can cause, and those successes. */
  function Budget(n: nat, wins: nat): int {
    if wins == 0 then 0 else Budget(n, wins - 1) + n - wins + 1
  }

  lemma {:induction false} BudgetClosed(n: nat, wins: nat)
    ensures 2 * Budget(n, wins) == wins * (2 * n - wins + 1)
  {
    if wins > 0 {
      BudgetClosed(n, wins - 1);
      assert (wins - 1) * (2 * n - (wins - 1) + 1) + 2 * (n - wins + 1) == wins * (2 * n - wins + 1);
    }
  }

  /** Nothing has been exchanged since a call that has seen every success read the word. */
  ghost predicate Charged(s: State) {
    && Sum(s.calls, IsWinner) == s.wins
    && (forall c :: 0 <= c < |s.calls| && s.calls[c].Looping? ==>
          (s.calls[c].seen <= s.wins && (s.calls[c].seen == s.wins ==> s.calls[c].held == s.word)))
    && s.attempts + Sum(s.calls, Credit(s.wins)) <= Budget(|s.calls|, s.wins)
  }

  lemma {:induction false} OneMoreWin(calls: seq<Call>, wins: nat)
    ensures Sum(calls, Credit(wins + 1)) == Sum(calls, Credit(wins)) + Sum(calls, IsLooping)
  {
    SumOfTwo(calls, Credit(wins), IsLooping, Credit(wins + 1));
  }

  lemma {:induction false} LoopersAndWinners(calls: seq<Call>)
    ensures Sum(calls, IsLooping) + Sum(calls, IsWinner) <= |calls|
  {
    if calls != [] {
      LoopersAndWinners(calls[1..]);
    }
  }

  /** Each failed strong exchange is paid for by a success that happened since the call last read. */
  lemma EventCharged(cfg: Setting, s: State, e: Event)
    requires Enabled(cfg, s, e) && StrongStep(s, e) && Charged(s)
    ensures var s' := Apply(cfg, s, e);
            && Charged(s') && |s'.calls| == |s.calls|
            && s'.attempts == s.attempts + Attempts([e])
  {
    hide TakeToken;
    var s' := Apply(cfg, s, e);
    var c := e.call;
    SumUpdate(s.calls, c, s'.calls[c], IsWinner);
    SumUpdate(s.calls, c, s'.calls[c], Credit(s.wins));
    if e.ExchangeSucceeds? {
      OneMoreWin(s'.calls, s.wins);
      LoopersAndWinners(s'.calls);
    }
  }

  lemma {:induction false} RunCharged(cfg: Setting, s: State, es: seq<Event>)
    requires Runs(cfg, s, es) && StrongRun(cfg, s, es) && Charged(s)
    ensures var t := After(cfg, s, es);
            Charged(t) && |t.calls| == |s.calls| && t.attempts == s.attempts + Attempts(es)
    decreases |es|
  {
    if es != [] {
      EventCharged(cfg, s, es[0]);
      RunCharged(cfg, Apply(cfg, s, es[0]), es[1..]);
    }
  }

  /** With strong exchanges, `n` calls on one bucket make at most n(n+1)/2 exchange attempts
      altogether, in every interleaving. */
  lemma AttemptsBounded(cfg: Setting, w: Word, n: nat, es: seq<Event>)
    requires Runs(cfg, Initial(w, n), es) && StrongRun(cfg, Initial(w, n), es)
    ensures 2 * Attempts(es) <= n * (n + 1)
  {
    var s := Initial(w, n);
    SumConstant(s.calls, IsWinner, 0);
    SumConstant(s.calls, Credit(0), 0);
    RunCharged(cfg, s, es);
    var t := After(cfg, s, es);
    LoopersAndWinners(t.calls);
    SumConstantBelow(t.calls);
    CreditNonnegative(t);
    BudgetClosed(n, t.wins);
    Triangle(n, t.wins);
  }

  lemma {:induction false} SumConstantBelow(calls: seq<Call>)
    ensures 0 <= Sum(calls, IsLooping)
  {
    if calls != [] {
      SumConstantBelow(calls[1..]);
    }
  }

  lemma CreditNonnegative(s: State)
    requires Charged(s)
    ensures 0 <= Sum(s.calls, Credit(s.wins))
  {
    SumConstant(s.calls, _ => 0, 0);
    SumAtMost(s.calls, _ => 0, Credit(s.wins));
  }

  lemma Triangle(n: nat, wins: nat)
    requires wins <= n
    ensures wins * (2 * n - wins + 1) <= n * (n + 1)
  {
    assert n * (n + 1) - wins * (2 * n - wins + 1) == (n - wins) * (n - wins) + (n - wins);
  }

  /** Until a call has returned it can act, and without a spurious failure; so a strong run that
      cannot be continued has answered every call. */
  lemma NeverStuck(cfg: Setting, s: State, c: nat)
    requires c < |s.calls| && !s.calls[c].Returned?
    ensures exists e: Event :: e.call == c && Enabled(cfg, s, e) && StrongStep(s, e)
  {
    var call := s.calls[c];
    var e := match call
             case Waiting => ReadClock(c, 0)
             case Clocked(_) => Load(c)
             case Looping(secs, held, _) =>
               if Refuses(cfg, held, secs) then Refuse(c)
               else if s.word == held then ExchangeSucceeds(c) else ExchangeFails(c)
             case Returned(_, _) => Load(c);
    assert Enabled(cfg, s, e);
  }

  /** Actions still owed by a call, its failed exchanges aside. */
  function Owed(call: Call): int {
    match call
    case Waiting => 3
    case Clocked(_) => 2
    case Looping(_, _, _) => 1
    case Returned(_, _) => 0
  }

  lemma {:induction false} RunLength(cfg: Setting, s: State, es: seq<Event>)
    requires Runs(cfg, s, es)
    ensures |es| + Sum(After(cfg, s, es).calls, Owed) <= Attempts(es) + Sum(s.calls, Owed)
    decreases |es|
  {
    hide TakeToken;
    if es != [] {
      var m := Apply(cfg, s, es[0]);
      SumUpdate(s.calls, es[0].call, m.calls[es[0].call], Owed);
      RunLength(cfg, m, es[1..]);
    }
  }

  /** With strong exchanges every run of `n` calls is finite: no interleaving is longer than this. */
  lemma RunsFinite(cfg: Setting, w: Word, n: nat, es: seq<Event>)
    requires Runs(cfg, Initial(w, n), es) && StrongRun(cfg, Initial(w, n), es)
    ensures 2 * |es| <= 6 * n + n * (n + 1)
  {
    var t := After(cfg, Initial(w, n), es);
    AttemptsBounded(cfg, w, n, es);
    RunLength(cfg, Initial(w, n), es);
    SumConstant(Initial(w, n).calls, Owed, 3);
    SumConstant(t.calls, _ => 0, 0);
    SumAtMost(t.calls, _ => 0, Owed);
  }
}
