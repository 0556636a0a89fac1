/** Any number of fixed window calls on one key, interleaved one atomic action at a time.

    The loop goes round while the exchange succeeds, and a successful exchange leaves the expected
    word as it was. So a call raises the count when its exchange succeeds, and ends, admitted, when
    its exchange fails. */
module FixedWindowConcurrent {
  import opened Machine
  import opened Sums
  import opened FixedWindow

  /** `counted` records whether some exchange of the call has succeeded. */
  datatype Caller =
    | Waiting
    | Clocked(secs: u32)
    | Looping(secs: u32, held: Word, counted: bool)
    | Turned(secs: u32)
    | Passed(secs: u32, verdict: Verdict, counted: bool)

  datatype State = State(word: Word, callers: seq<Caller>)

  datatype Event =
    | ReadClock(caller: nat, secs: u32)
    | Load(caller: nat)
    | Refuse(caller: nat)
    | ExchangeSucceeds(caller: nat)
    | ExchangeFails(caller: nat)

  function Initial(w: Word, n: nat): State {
    State(w, seq(n, _ => Waiting))
  }

  predicate Enabled(cfg: Setting, s: State, e: Event) {
    && e.caller < |s.callers|
    && var c := s.callers[e.caller];
      match e
      case ReadClock(_, _) => c.Waiting?
      case Load(_) => c.Clocked?
      case Refuse(_) => c.Looping? && Refuses(cfg, c.held, c.secs)
      case ExchangeSucceeds(_) => c.Looping? && !Refuses(cfg, c.held, c.secs) && s.word == c.held
      case ExchangeFails(_) => c.Looping? && !Refuses(cfg, c.held, c.secs)
  }

  function Apply(cfg: Setting, s: State, e: Event): State
    requires Enabled(cfg, s, e)
  {
    var i := e.caller;
    var c := s.callers[i];
    match e
    case ReadClock(_, secs) => s.(callers := s.callers[i := Clocked(secs)])
    case Load(_) => s.(callers := s.callers[i := Looping(c.secs, s.word, false)])
    case Refuse(_) => s.(callers := s.callers[i := Turned(c.secs)])
    case ExchangeSucceeds(_) => State(Desired(cfg, c.held, c.secs), s.callers[i := Looping(c.secs, c.held, true)])
    case ExchangeFails(_) =>
      s.(callers := s.callers[i := Passed(c.secs, Answer(cfg, Desired(cfg, c.held, c.secs), c.secs), c.counted)])
  }

  predicate Runs(cfg: Setting, s: State, es: seq<Event>)
    decreases |es|
  {
    es == [] || (Enabled(cfg, s, es[0]) && Runs(cfg, Apply(cfg, s, es[0]), es[1..]))
  }

  function After(cfg: Setting, s: State, es: seq<Event>): State
    requires Runs(cfg, s, es)
    decreases |es|
  {
    if es == [] then s else After(cfg, Apply(cfg, s, es[0]), es[1..])
  }

  // The stored count

  ghost predicate WithinLimit(cfg: Setting, s: State) {
    && s.word.low <= Limit(cfg)
    && forall i :: 0 <= i < |s.callers| ==>
         match s.callers[i]
         case Looping(_, held, _) => held.low <= Limit(cfg)
         case Passed(_, v, _) => v.Admitted? && v.remaining < Limit(cfg)
         case _ => true
  }

  lemma DesiredWithinLimit(cfg: Setting, w: Word, secs: u32)
    requires Limit(cfg) >= 1 && !Refuses(cfg, w, secs)
    ensures var d := Desired(cfg, w, secs);
            && 1 <= d.low <= Limit(cfg)
            && Answer(cfg, d, secs).Admitted? && Answer(cfg, d, secs).remaining == Limit(cfg) - d.low
            && d != w
  {
    hide WindowId, ResetTime;
  }

  lemma EventWithinLimit(cfg: Setting, s: State, e: Event)
    requires Limit(cfg) >= 1 && Enabled(cfg, s, e) && WithinLimit(cfg, s)
    ensures WithinLimit(cfg, Apply(cfg, s, e))
  {
    hide Desired, Answer, Refuses, Limit;
    var c := s.callers[e.caller];
    if c.Looping? && !Refuses(cfg, c.held, c.secs) {
      DesiredWithinLimit(cfg, c.held, c.secs);
    }
  }

  /** In every interleaving the stored count stays within the limit, and every admitted client is
      told a remaining count below the limit: the unsigned subtraction never underflows. */
  lemma {:induction false} CountWithinLimit(cfg: Setting, s: State, es: seq<Event>)
    requires Limit(cfg) >= 1
    requires Runs(cfg, s, es) && WithinLimit(cfg, s)
    ensures WithinLimit(cfg, After(cfg, s, es))
    decreases |es|
  {
    if es != [] {
      EventWithinLimit(cfg, s, es[0]);
      CountWithinLimit(cfg, Apply(cfg, s, es[0]), es[1..]);
    }
  }

  /** Every answer is that of a whole call on some word: an admission is told what such a call would be told, and
      a rejection has a word that refuses it. */
  ghost predicate Answered(cfg: Setting, c: Caller) {
    match c
    case Turned(secs) => exists w :: Refuses(cfg, w, secs)
    case Passed(secs, v, _) => exists w :: !Refuses(cfg, w, secs) && Call(cfg, w, secs).1 == v
    case _ => true
  }

  ghost predicate AllAnswered(cfg: Setting, s: State) {
    forall i :: 0 <= i < |s.callers| ==> Answered(cfg, s.callers[i])
  }

  lemma EventAnswered(cfg: Setting, s: State, e: Event)
    requires Enabled(cfg, s, e) && AllAnswered(cfg, s)
    ensures AllAnswered(cfg, Apply(cfg, s, e))
  {
    hide WindowId, Desired, Refuses, Answer;
    var c := s.callers[e.caller];
    if e.ExchangeFails? {
      assert Call(cfg, c.held, c.secs).1 == Answer(cfg, Desired(cfg, c.held, c.secs), c.secs);
    }
  }

  lemma {:induction false} RunAnswered(cfg: Setting, s: State, es: seq<Event>)
    requires Runs(cfg, s, es) && AllAnswered(cfg, s)
    ensures AllAnswered(cfg, After(cfg, s, es))
    decreases |es|
  {
    hide AllAnswered;
    if es != [] {
      EventAnswered(cfg, s, es[0]);
      RunAnswered(cfg, Apply(cfg, s, es[0]), es[1..]);
    }
  }

  /** A limit of zero requests breaks this: the first client of a new window is admitted and told
      that 2^32 - 1 requests remain. */
  lemma ZeroLimitUnderflows(window: Seconds)
    ensures var cfg := Setting(window, 0);
            Call(cfg, FRESH, window).1 == Admitted(TWO_32 - 1, ResetTime(cfg, WindowId(cfg, window)))
  {
    assert window / window == 1;
  }

  // Counting under contention

  function Counts(c: Caller): int {
    if (c.Looping? || c.Passed?) && c.counted then 1 else 0
  }

  /** Admitted without having raised the count. */
  function Missed(c: Caller): int {
    if c.Passed? && !c.counted then 1 else 0
  }

  function IsAdmitted(c: Caller): int {
    if c.Passed? then 1 else 0
  }

  /** All clocks read window `id`, and `base` was its count before the run. */
  ghost predicate OneWindow(cfg: Setting, s: State, id: u32, base: nat) {
    && CountOf(s.word, id) == base + Sum(s.callers, Counts)
    && forall i :: 0 <= i < |s.callers| ==> CallerInWindow(cfg, s, id, s.callers[i])
  }

  /** A call that has counted has moved the count past the word it holds, which did not refuse it. */
  predicate CallerInWindow(cfg: Setting, s: State, id: u32, c: Caller) {
    match c
    case Clocked(secs) => WindowId(cfg, secs) == id
    case Looping(secs, held, counted) =>
      && WindowId(cfg, secs) == id && CountOf(held, id) <= CountOf(s.word, id)
      && (counted ==> CountOf(held, id) < CountOf(s.word, id) && !Refuses(cfg, held, secs))
    case _ => true
  }

  /** Whether the word is in the window or is reset into it, the window's count goes up by one. */
  lemma DesiredCountsOn(cfg: Setting, w: Word, secs: u32)
    requires !Refuses(cfg, w, secs)
    ensures var id := WindowId(cfg, secs);
            Desired(cfg, w, secs).high == id && CountOf(Desired(cfg, w, secs), id) == CountOf(w, id) + 1
  {
  }

  lemma EventInWindow(cfg: Setting, s: State, e: Event, id: u32, base: nat)
    requires Enabled(cfg, s, e) && OneWindow(cfg, s, id, base)
    requires e.ReadClock? ==> WindowId(cfg, e.secs) == id
    ensures var s' := Apply(cfg, s, e);
            OneWindow(cfg, s', id, base) && (s'.word == s.word || s'.word.high == id)
  {
    hide WindowId, Desired, Refuses, CountOf;
    var s' := Apply(cfg, s, e);
    var c := s.callers[e.caller];
    assert CallerInWindow(cfg, s, id, c);
    SumUpdate(s.callers, e.caller, s'.callers[e.caller], Counts);
    if e.ExchangeSucceeds? {
      DesiredCountsOn(cfg, c.held, c.secs);
    }
    assert CountOf(s.word, id) <= CountOf(s'.word, id);
    forall i | 0 <= i < |s'.callers|
      ensures CallerInWindow(cfg, s', id, s'.callers[i])
    {
      assert CallerInWindow(cfg, s, id, s.callers[i]);
    }
  }

  lemma {:induction false} RunInWindow(cfg: Setting, s: State, es: seq<Event>, id: u32, base: nat)
    requires Runs(cfg, s, es) && OneWindow(cfg, s, id, base)
    requires forall i :: 0 <= i < |es| && es[i].ReadClock? ==> WindowId(cfg, es[i].secs) == id
    ensures var t := After(cfg, s, es);
            OneWindow(cfg, t, id, base) && (t.word == s.word || t.word.high == id)
    decreases |es|
  {
    if es != [] {
      EventInWindow(cfg, s, es[0], id, base);
      assert forall i :: 0 <= i < |es[1..]| ==> es[1..][i] == es[i + 1];
      RunInWindow(cfg, Apply(cfg, s, es[0]), es[1..], id, base);
    }
  }

  /** The first exchange that the caller makes in the run fails. */
  predicate FirstFails(es: seq<Event>, c: nat) {
    es != [] &&
    if es[0].caller == c && (es[0].ExchangeSucceeds? || es[0].ExchangeFails?) then es[0].ExchangeFails?
    else FirstFails(es[1..], c)
  }

  predicate NoFirstFails(es: seq<Event>, n: nat) {
    forall c :: 0 <= c < n ==> !FirstFails(es, c)
  }

  /** A caller is admitted uncounted exactly when its first exchange fails. */
  lemma {:induction false} FirstExchangeDecides(cfg: Setting, s: State, es: seq<Event>, c: nat)
    requires Runs(cfg, s, es) && c < |s.callers|
    ensures var t := After(cfg, s, es);
            && |t.callers| == |s.callers|
            && (Missed(t.callers[c]) == 1 <==>
                  match s.callers[c]
                  case Passed(_, _, counted) => !counted
                  case Turned(_) => false
                  case Looping(_, _, true) => false
                  case _ => FirstFails(es, c))
            && (s.callers[c].Turned? || s.callers[c].Passed? ==> !FirstFails(es, c))
    decreases |es|
  {
    hide WindowId, Desired, Refuses, Answer;
    if es != [] {
      FirstExchangeDecides(cfg, Apply(cfg, s, es[0]), es[1..], c);
    }
  }

  /** When all clocks read window `id`, whatever window the word starts in, and no call is left in its
      loop, the window's count has risen by the number of admitted calls less those whose first exchange
      failed. So concurrent counting is exact if and only if no call's first exchange fails. */
  lemma ConcurrentCountIff(cfg: Setting, w: Word, n: nat, es: seq<Event>, id: u32)
    requires Runs(cfg, Initial(w, n), es)
    requires forall i :: 0 <= i < |es| && es[i].ReadClock? ==> WindowId(cfg, es[i].secs) == id
    requires var t := After(cfg, Initial(w, n), es);
             forall i :: 0 <= i < |t.callers| ==> !t.callers[i].Looping?
    ensures var t := After(cfg, Initial(w, n), es);
            var risen := CountOf(t.word, id) - CountOf(w, id);
            && (t.word == w || t.word.high == id)
            && risen == Sum(t.callers, IsAdmitted) - Sum(t.callers, Missed)
            && (risen == Sum(t.callers, IsAdmitted) <==> NoFirstFails(es, n))
  {
    var s := Initial(w, n);
    SumConstant(s.callers, Counts, 0);
    RunInWindow(cfg, s, es, id, CountOf(w, id));
    var t := After(cfg, s, es);
    SumOfTwo(t.callers, Counts, Missed, IsAdmitted);
    MissedIff(cfg, w, n, es);
  }

  lemma MissedIff(cfg: Setting, w: Word, n: nat, es: seq<Event>)
    requires Runs(cfg, Initial(w, n), es)
    ensures Sum(After(cfg, Initial(w, n), es).callers, Missed) == 0 <==> NoFirstFails(es, n)
  {
    hide Initial, Missed;
    MissedOnSchedule(cfg, w, n, es);
    var callers := After(cfg, Initial(w, n), es).callers;
    NoneMissed(callers);
    if c :| 0 <= c < n && FirstFails(es, c) {
      assert Missed(callers[c]) == 1;
    } else {
      assert forall c :: 0 <= c < |callers| ==> Missed(callers[c]) == 0;
    }
  }

  lemma MissedOnSchedule(cfg: Setting, w: Word, n: nat, es: seq<Event>)
    requires Runs(cfg, Initial(w, n), es)
    ensures var t := After(cfg, Initial(w, n), es);
            && |t.callers| == n
            && forall c :: 0 <= c < n ==> Missed(t.callers[c]) == if FirstFails(es, c) then 1 else 0
  {
    var t := After(cfg, Initial(w, n), es);
    CallersKept(cfg, Initial(w, n), es);
    forall c | 0 <= c < n
      ensures Missed(t.callers[c]) == if FirstFails(es, c) then 1 else 0
    {
      FirstExchangeDecides(cfg, Initial(w, n), es, c);
    }
  }

  lemma {:induction false} CallersKept(cfg: Setting, s: State, es: seq<Event>)
    requires Runs(cfg, s, es)
    ensures |After(cfg, s, es).callers| == |s.callers|
    decreases |es|
  {
    if es != [] {
      CallersKept(cfg, Apply(cfg, s, es[0]), es[1..]);
    }
  }

  lemma {:induction false} NoneMissed(callers: seq<Caller>)
    ensures 0 <= Sum(callers, Missed)
    ensures Sum(callers, Missed) == 0 <==> forall i :: 0 <= i < |callers| ==> Missed(callers[i]) == 0
  {
    if callers != [] {
      NoneMissed(callers[1..]);
      assert forall i :: 1 <= i < |callers| ==> callers[i] == callers[1..][i - 1];
    }
  }

  // How long the loops can go on

  /** Actions still owed by a caller whose second exchange must fail. */
  function Owed(c: Caller): int {
    match c
    case Waiting => 4
    case Clocked(_) => 3
    case Looping(_, _, counted) => if counted then 1 else 2
    case _ => 0
  }

  lemma EventOwed(cfg: Setting, s: State, e: Event, id: u32, base: nat)
    requires Enabled(cfg, s, e) && OneWindow(cfg, s, id, base)
    ensures Sum(Apply(cfg, s, e).callers, Owed) + 1 <= Sum(s.callers, Owed)
  {
    hide WindowId, Desired, Refuses, Answer;
    assert CallerInWindow(cfg, s, id, s.callers[e.caller]);
    SumUpdate(s.callers, e.caller, Apply(cfg, s, e).callers[e.caller], Owed);
  }

  lemma {:induction false} OneWindowRunLength(cfg: Setting, s: State, es: seq<Event>, id: u32, base: nat)
    requires Runs(cfg, s, es) && OneWindow(cfg, s, id, base)
    requires forall i :: 0 <= i < |es| && es[i].ReadClock? ==> WindowId(cfg, es[i].secs) == id
    ensures |es| + Sum(After(cfg, s, es).callers, Owed) <= Sum(s.callers, Owed)
    decreases |es|
  {
    if es != [] {
      EventInWindow(cfg, s, es[0], id, base);
      EventOwed(cfg, s, es[0], id, base);
      assert forall i :: 0 <= i < |es[1..]| ==> es[1..][i] == es[i + 1];
      OneWindowRunLength(cfg, Apply(cfg, s, es[0]), es[1..], id, base);
    }
  }

  /** When all clocks read one window, the loops end even with weak exchanges: no interleaving of `n`
      calls has more than 4n actions. */
  lemma OneWindowRunsFinite(cfg: Setting, w: Word, n: nat, es: seq<Event>, id: u32)
    requires Runs(cfg, Initial(w, n), es)
    requires forall i :: 0 <= i < |es| && es[i].ReadClock? ==> WindowId(cfg, es[i].secs) == id
    ensures |es| <= 4 * n
  {
    var s := Initial(w, n);
    SumConstant(s.callers, Counts, 0);
    OneWindowRunLength(cfg, s, es, id, CountOf(w, id));
    SumConstant(s.callers, Owed, 4);
    var t := After(cfg, s, es);
    SumConstant(t.callers, _ => 0, 0);
    SumAtMost(t.callers, _ => 0, Owed);
  }

  // Clocks that read several windows

  /** How often a run raises the count of window `id`. */
  function Raised(cfg: Setting, s: State, es: seq<Event>, id: u32): nat
    requires Runs(cfg, s, es)
    decreases |es|
  {
    if es == [] then 0
    else
      Raised(cfg, Apply(cfg, s, es[0]), es[1..], id) +
      if es[0].ExchangeSucceeds? && WindowId(cfg, s.callers[es[0].caller].secs) == id then 1 else 0
  }

  /** How much of the count of window `id` is forgotten because a call of another window resets the word. */
  function Forgotten(cfg: Setting, s: State, es: seq<Event>, id: u32): nat
    requires Runs(cfg, s, es)
    decreases |es|
  {
    if es == [] then 0
    else
      Forgotten(cfg, Apply(cfg, s, es[0]), es[1..], id) +
      if es[0].ExchangeSucceeds? && WindowId(cfg, s.callers[es[0].caller].secs) != id then CountOf(s.word, id) else 0
  }

  /** In every run, whatever the clocks read: a window's count rises by one for each successful exchange
      of a call in that window, and falls only by what calls in other windows make it forget. */
  lemma {:induction false} WindowBalance(cfg: Setting, s: State, es: seq<Event>, id: u32)
    requires Runs(cfg, s, es)
    ensures CountOf(After(cfg, s, es).word, id) + Forgotten(cfg, s, es, id)
            == CountOf(s.word, id) + Raised(cfg, s, es, id)
    decreases |es|
  {
    hide WindowId, Desired, Refuses;
    if es != [] {
      var c := s.callers[es[0].caller];
      if es[0].ExchangeSucceeds? {
        DesiredCountsOn(cfg, c.held, c.secs);
      }
      WindowBalance(cfg, Apply(cfg, s, es[0]), es[1..], id);
    }
  }

  function CountedIn(cfg: Setting, id: u32): Caller -> int {
    (c: Caller) => if (c.Looping? || c.Passed?) && c.counted && WindowId(cfg, c.secs) == id then 1 else 0
  }

  function AdmittedIn(cfg: Setting, id: u32): Caller -> int {
    (c: Caller) => if c.Passed? && WindowId(cfg, c.secs) == id then 1 else 0
  }

  /** Admitted in the window without having raised its count. */
  function MissedIn(cfg: Setting, id: u32): Caller -> int {
    (c: Caller) => if c.Passed? && !c.counted && WindowId(cfg, c.secs) == id then 1 else 0
  }

  lemma EventRaises(cfg: Setting, s: State, e: Event, id: u32)
    requires Enabled(cfg, s, e)
    ensures Sum(Apply(cfg, s, e).callers, CountedIn(cfg, id)) <=
            Sum(s.callers, CountedIn(cfg, id)) +
            if e.ExchangeSucceeds? && WindowId(cfg, s.callers[e.caller].secs) == id then 1 else 0
  {
    hide WindowId, Desired, Refuses, Answer;
    SumUpdate(s.callers, e.caller, Apply(cfg, s, e).callers[e.caller], CountedIn(cfg, id));
  }

  lemma {:induction false} RunRaises(cfg: Setting, s: State, es: seq<Event>, id: u32)
    requires Runs(cfg, s, es)
    ensures Sum(After(cfg, s, es).callers, CountedIn(cfg, id))
            <= Sum(s.callers, CountedIn(cfg, id)) + Raised(cfg, s, es, id)
    decreases |es|
  {
    if es != [] {
      EventRaises(cfg, s, es[0], id);
      RunRaises(cfg, Apply(cfg, s, es[0]), es[1..], id);
    }
  }

  lemma {:induction false} AdmittedCounted(cfg: Setting, callers: seq<Caller>, id: u32)
    ensures Sum(callers, AdmittedIn(cfg, id)) <= Sum(callers, CountedIn(cfg, id)) + Sum(callers, MissedIn(cfg, id))
  {
    hide WindowId;
    if callers != [] {
      AdmittedCounted(cfg, callers[1..], id);
    }
  }

  /** In every run, whatever the clocks read: at most `max_requests` calls are admitted in a window, one more
      for each of them whose first exchange fails, and one more for each count that calls of other
      windows make the word forget. */
  lemma AdmittedBound(cfg: Setting, w: Word, n: nat, es: seq<Event>, id: u32)
    requires Limit(cfg) >= 1 && w.low <= Limit(cfg)
    requires Runs(cfg, Initial(w, n), es)
    ensures var s := Initial(w, n);
            var t := After(cfg, s, es);
            Sum(t.callers, AdmittedIn(cfg, id)) + CountOf(w, id)
            <= Limit(cfg) + Sum(t.callers, MissedIn(cfg, id)) + Forgotten(cfg, s, es, id)
  {
    hide Runs, After, Limit, Raised, Forgotten, WindowId;
    var s := Initial(w, n);
    SumConstant(s.callers, CountedIn(cfg, id), 0);
    RunRaises(cfg, s, es, id);
    WindowBalance(cfg, s, es, id);
    CountWithinLimit(cfg, s, es);
    AdmittedCounted(cfg, After(cfg, s, es).callers, id);
  }

  const ONE_A_MINUTE := Setting(60, 1)

  lemma OverlapReads()
    ensures var es := [ReadClock(0, 60), ReadClock(1, 60), Load(0), Load(1)];
            var s := Initial(Word(1, 0), 2);
            && Runs(ONE_A_MINUTE, s, es)
            && After(ONE_A_MINUTE, s, es)
               == State(Word(1, 0), [Looping(60, Word(1, 0), false), Looping(60, Word(1, 0), false)])
  {
    var w := Word(1, 0);
    var s0 := State(w, [Waiting, Waiting]);
    var s1 := State(w, [Clocked(60), Waiting]);
    var s2 := State(w, [Clocked(60), Clocked(60)]);
    var s3 := State(w, [Looping(60, w, false), Clocked(60)]);
    var s4 := State(w, [Looping(60, w, false), Looping(60, w, false)]);
    Unfold(ONE_A_MINUTE, s3, Load(1), [], s4);
    Unfold(ONE_A_MINUTE, s2, Load(0), [Load(1)], s3);
    Unfold(ONE_A_MINUTE, s1, ReadClock(1, 60), [Load(0), Load(1)], s2);
    Unfold(ONE_A_MINUTE, s0, ReadClock(0, 60), [ReadClock(1, 60), Load(0), Load(1)], s1);
    assert s0 == Initial(w, 2);
  }

  lemma OverlapExchanges()
    ensures var es := [ExchangeSucceeds(0), ExchangeFails(0), ExchangeFails(1)];
            var s := State(Word(1, 0), [Looping(60, Word(1, 0), false), Looping(60, Word(1, 0), false)]);
            && Runs(ONE_A_MINUTE, s, es)
            && After(ONE_A_MINUTE, s, es).word == Word(1, 1)
            && Sum(After(ONE_A_MINUTE, s, es).callers, IsAdmitted) == 2
  {
    InItsWindow(ONE_A_MINUTE, 60, 1);
    hide WindowId, Answer;
    var c, w, passed := Looping(60, Word(1, 0), false), Word(1, 1), Answer(ONE_A_MINUTE, Word(1, 1), 60);
    var s0 := State(Word(1, 0), [c, c]);
    var s1 := State(w, [Looping(60, Word(1, 0), true), c]);
    var s2 := State(w, [Passed(60, passed, true), c]);
    var s3 := State(w, [Passed(60, passed, true)] + [Passed(60, passed, false)]);
    Unfold(ONE_A_MINUTE, s2, ExchangeFails(1), [], s3);
    Unfold(ONE_A_MINUTE, s1, ExchangeFails(0), [ExchangeFails(1)], s2);
    Unfold(ONE_A_MINUTE, s0, ExchangeSucceeds(0), [ExchangeFails(0), ExchangeFails(1)], s1);
    SumAppend([s3.callers[0]], [s3.callers[1]], IsAdmitted);
  }

  /** Two overlapping calls with a limit of one: both are admitted and the count is one. */
  lemma OverlapAdmitsBoth()
    ensures var es := [ReadClock(0, 60), ReadClock(1, 60), Load(0), Load(1)]
                      + [ExchangeSucceeds(0), ExchangeFails(0), ExchangeFails(1)];
            var s := Initial(Word(1, 0), 2);
            && Runs(ONE_A_MINUTE, s, es)
            && After(ONE_A_MINUTE, s, es).word == Word(1, 1)
            && Sum(After(ONE_A_MINUTE, s, es).callers, IsAdmitted) == 2
  {
    OverlapReads();
    OverlapExchanges();
    RunsJoin(ONE_A_MINUTE, Initial(Word(1, 0), 2), [ReadClock(0, 60), ReadClock(1, 60), Load(0), Load(1)],
             [ExchangeSucceeds(0), ExchangeFails(0), ExchangeFails(1)]);
  }

  lemma {:induction false} RunsJoin(cfg: Setting, s: State, es: seq<Event>, fs: seq<Event>)
    requires Runs(cfg, s, es) && Runs(cfg, After(cfg, s, es), fs)
    ensures Runs(cfg, s, es + fs) && After(cfg, s, es + fs) == After(cfg, After(cfg, s, es), fs)
    decreases |es|
  {
    if es == [] {
      assert es + fs == fs;
    } else {
      assert (es + fs)[1..] == es[1..] + fs;
      RunsJoin(cfg, Apply(cfg, s, es[0]), es[1..], fs);
    }
  }

  lemma Unfold(cfg: Setting, s: State, e: Event, rest: seq<Event>, m: State)
    requires Enabled(cfg, s, e) && m == Apply(cfg, s, e) && Runs(cfg, m, rest)
    ensures Runs(cfg, s, [e] + rest) && After(cfg, s, [e] + rest) == After(cfg, m, rest)
  {
    assert ([e] + rest)[1..] == rest;
  }
}
