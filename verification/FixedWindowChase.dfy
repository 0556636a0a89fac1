/** When two fixed window calls on one key can go on for ever: exactly which words and clocks let each of them
    write the word that the other one expects. */
module FixedWindowChase {
  import opened Machine
  import opened FixedWindow
  import opened FixedWindowConcurrent

  /** Call 0 reads second `x`, call 1 reads second `y`. */
  predicate Reads(es: seq<Event>, x: u32, y: u32) {
    forall i :: 0 <= i < |es| && es[i].ReadClock? ==> es[i].secs == if es[i].caller == 0 then x else y
  }

  ghost predicate RunsFor(cfg: Setting, w: Word, x: u32, y: u32, length: nat) {
    exists es :: |es| >= length && Runs(cfg, Initial(w, 2), es) && Reads(es, x, y)
  }

  /** There are runs of every length. */
  ghost predicate NeedNotEnd(cfg: Setting, w: Word, x: u32, y: u32) {
    forall length: nat :: RunsFor(cfg, w, x, y, length)
  }

  /** The clocks read different windows, and the word is what a first request of one of them leaves. */
  predicate CanChase(cfg: Setting, w: Word, x: u32, y: u32) {
    var a, b := WindowId(cfg, x), WindowId(cfg, y);
    a != b && (w == Word(a, 1) || w == Word(b, 1))
  }

  // Otherwise every run ends

  /** What a looping caller writes. */
  function Writes(cfg: Setting, c: Caller): Word
    requires c.Looping?
  {
    Desired(cfg, c.held, c.secs)
  }

  predicate Chasing(cfg: Setting, c: Caller, d: Caller) {
    c.Looping? && d.Looping? && Writes(cfg, c) == d.held && Writes(cfg, d) == c.held
  }

  lemma WritesAnother(cfg: Setting, w: Word, secs: u32)
    ensures Desired(cfg, w, secs) != w
  {
    hide WindowId;
  }

  /** Two calls that write what the other expects hold the first words of each other's windows. */
  lemma ChasingWords(cfg: Setting, c: Caller, d: Caller)
    requires Chasing(cfg, c, d)
    ensures var a, b := WindowId(cfg, c.secs), WindowId(cfg, d.secs);
            a != b && c.held == Word(b, 1) && d.held == Word(a, 1)
  {
    hide WindowId;
  }

  predicate Unloaded(c: Caller) {
    c.Waiting? || c.Clocked?
  }

  /** Actions a caller still owes, its successful exchanges aside. */
  function Base(c: Caller): nat {
    match c
    case Waiting => 3
    case Clocked(_) => 2
    case Looping(_, _, _) => 1
    case _ => 0
  }

  /** Successful exchanges still possible that start with `c`. */
  function Chain(cfg: Setting, word: Word, c: Caller, d: Caller): nat {
    if c.Looping? && word == c.held then if d.Looping? && Writes(cfg, c) == d.held then 2 else 1 else 0
  }

  /** Successful exchanges still possible while a call has not loaded the word and the other is `c`. */
  function Ahead(word: Word, c: Caller): nat {
    if c.Looping? then if word == c.held then 3 else 2 else 1
  }

  /** Successful exchanges still possible, while the calls are not chasing each other. */
  function Allowance(cfg: Setting, word: Word, c: Caller, d: Caller): nat {
    if Unloaded(c) && Unloaded(d) then 3
    else if Unloaded(c) then Ahead(word, d)
    else if Unloaded(d) then Ahead(word, c)
    else if Chain(cfg, word, c, d) > Chain(cfg, word, d, c) then Chain(cfg, word, c, d)
    else Chain(cfg, word, d, c)
  }

  function Left(cfg: Setting, s: State): nat
    requires |s.callers| == 2
  {
    var c, d := s.callers[0], s.callers[1];
    Base(c) + Base(d) + Allowance(cfg, s.word, c, d)
  }

  lemma EventLowers(cfg: Setting, s: State, e: Event)
    requires |s.callers| == 2 && Enabled(cfg, s, e) && !Chasing(cfg, s.callers[0], s.callers[1])
    ensures var s' := Apply(cfg, s, e);
            |s'.callers| == 2 && Left(cfg, s') + 1 <= Left(cfg, s)
  {
    hide Desired, Refuses, Answer;
    var c := s.callers[e.caller];
    if c.Looping? {
      WritesAnother(cfg, c.held, c.secs);
    }
    var d := s.callers[1 - e.caller];
    if d.Looping? {
      WritesAnother(cfg, d.held, d.secs);
    }
  }

  /** While both calls are under way, whichever loaded first holds the first word, and the other one holds
      that or what the first wrote. */
  predicate Traces(cfg: Setting, w: Word, word: Word, c: Caller, d: Caller) {
    && (Unloaded(c) && Unloaded(d) ==> word == w)
    && (c.Looping? && Unloaded(d) ==> c.held == w && (word == w || word == Writes(cfg, c)))
    && (d.Looping? && Unloaded(c) ==> d.held == w && (word == w || word == Writes(cfg, d)))
    && (c.Looping? && d.Looping? ==>
          || (c.held == w && (d.held == w || d.held == Writes(cfg, c)))
          || (d.held == w && (c.held == w || c.held == Writes(cfg, d))))
  }

  predicate Traced(cfg: Setting, w: Word, x: u32, y: u32, s: State) {
    && |s.callers| == 2
    && var c, d := s.callers[0], s.callers[1];
       && (c.Clocked? || c.Looping? ==> c.secs == x)
       && (d.Clocked? || d.Looping? ==> d.secs == y)
       && Traces(cfg, w, s.word, c, d)
  }

  lemma EventTraced(cfg: Setting, w: Word, x: u32, y: u32, s: State, e: Event)
    requires Traced(cfg, w, x, y, s) && Enabled(cfg, s, e) && Reads([e], x, y)
    ensures Traced(cfg, w, x, y, Apply(cfg, s, e))
  {
    hide Desired, Refuses, Answer;
    assert [e][0] == e;
  }

  lemma NeverChasing(cfg: Setting, w: Word, x: u32, y: u32, s: State)
    requires Traced(cfg, w, x, y, s) && !CanChase(cfg, w, x, y)
    ensures !Chasing(cfg, s.callers[0], s.callers[1])
  {
    hide Desired, WindowId;
    var c, d := s.callers[0], s.callers[1];
    if c.Looping? {
      WritesAnother(cfg, c.held, c.secs);
    }
    if Chasing(cfg, c, d) {
      ChasingWords(cfg, c, d);
    }
  }

  lemma {:induction false} RunLowers(cfg: Setting, w: Word, x: u32, y: u32, s: State, es: seq<Event>)
    requires Traced(cfg, w, x, y, s) && !CanChase(cfg, w, x, y)
    requires Runs(cfg, s, es) && Reads(es, x, y)
    ensures |es| <= Left(cfg, s)
    decreases |es|
  {
    hide Enabled, Apply, Traced, CanChase, Left, Chasing;
    if es != [] {
      assert |s.callers| == 2 by {
        TwoCallers(cfg, w, x, y, s);
      }
      NeverChasing(cfg, w, x, y, s);
      EventLowers(cfg, s, es[0]);
      EventTraced(cfg, w, x, y, s, es[0]);
      assert forall i :: 0 <= i < |es[1..]| ==> es[1..][i] == es[i + 1];
      RunLowers(cfg, w, x, y, Apply(cfg, s, es[0]), es[1..]);
    }
  }

  lemma TwoCallers(cfg: Setting, w: Word, x: u32, y: u32, s: State)
    requires Traced(cfg, w, x, y, s)
    ensures |s.callers| == 2
  {
  }

  /** Two calls that cannot chase each other end within nine actions. */
  lemma TwoCallsEnd(cfg: Setting, w: Word, x: u32, y: u32, es: seq<Event>)
    requires !CanChase(cfg, w, x, y)
    requires Runs(cfg, Initial(w, 2), es) && Reads(es, x, y)
    ensures |es| <= 9
  {
    hide Runs, CanChase;
    RunLowers(cfg, w, x, y, Initial(w, 2), es);
  }

  // The chase

  /** Caller `p` is `c` and the other one is `d`. */
  function Pair(p: nat, c: Caller, d: Caller): seq<Caller> {
    if p == 0 then [c, d] else [d, c]
  }

  lemma PairUpdates(p: nat, c: Caller, d: Caller, e: Caller)
    requires p < 2
    ensures Pair(p, c, d)[p] == c && Pair(p, c, d)[1 - p] == d
    ensures Pair(p, c, d)[p := e] == Pair(p, e, d) && Pair(p, c, d)[1 - p := e] == Pair(p, c, e)
  {
  }

  /** Caller `p` and then the other one load the word and write what the other expects. */
  function Opening(p: nat, x: u32, y: u32): seq<Event>
    requires p < 2
  {
    [ReadClock(p, x), Load(p), ExchangeSucceeds(p), ReadClock(1 - p, y), Load(1 - p), ExchangeSucceeds(1 - p)]
  }

  function Rounds(p: nat, rounds: nat): seq<Event>
    requires p < 2
  {
    if rounds == 0 then [] else [ExchangeSucceeds(p), ExchangeSucceeds(1 - p)] + Rounds(p, rounds - 1)
  }

  /** The state in which both exchanges succeed in turn: each call holds what the other one writes. */
  function Chase(cfg: Setting, p: nat, x: u32, y: u32): State {
    var a, b := WindowId(cfg, x), WindowId(cfg, y);
    State(Word(b, 1), Pair(p, Looping(x, Word(b, 1), true), Looping(y, Word(a, 1), true)))
  }

  lemma ChaseWrites(cfg: Setting, x: u32, y: u32)
    requires WindowId(cfg, x) != WindowId(cfg, y)
    ensures var before := Word(WindowId(cfg, y), 1);
            !Refuses(cfg, before, x) && Desired(cfg, before, x) == Word(WindowId(cfg, x), 1)
  {
    hide WindowId;
  }

  lemma OpeningRuns(cfg: Setting, p: nat, x: u32, y: u32)
    requires p < 2 && WindowId(cfg, x) != WindowId(cfg, y)
    ensures var s := Initial(Word(WindowId(cfg, y), 1), 2);
            Runs(cfg, s, Opening(p, x, y)) && After(cfg, s, Opening(p, x, y)) == Chase(cfg, p, x, y)
  {
    ChaseWrites(cfg, x, y);
    ChaseWrites(cfg, y, x);
    hide WindowId, Refuses, Desired, Pair;
    var q := 1 - p;
    var early, late := Word(WindowId(cfg, y), 1), Word(WindowId(cfg, x), 1);
    var ahead, chaser := Looping(x, early, true), Looping(y, late, true);
    var c1, c2, d1, d2 := Clocked(x), Looping(x, early, false), Clocked(y), Looping(y, late, false);
    PairUpdates(p, Waiting, Waiting, c1);
    PairUpdates(p, c1, Waiting, c2);
    PairUpdates(p, c2, Waiting, ahead);
    PairUpdates(p, ahead, Waiting, d1);
    PairUpdates(p, ahead, d1, d2);
    PairUpdates(p, ahead, d2, chaser);
    var s0, s1 := State(early, Pair(p, Waiting, Waiting)), State(early, Pair(p, c1, Waiting));
    var s2, s3 := State(early, Pair(p, c2, Waiting)), State(late, Pair(p, ahead, Waiting));
    var s4, s5 := State(late, Pair(p, ahead, d1)), State(late, Pair(p, ahead, d2));
    Unfold(cfg, s5, ExchangeSucceeds(q), [], Chase(cfg, p, x, y));
    Unfold(cfg, s4, Load(q), [ExchangeSucceeds(q)], s5);
    Unfold(cfg, s3, ReadClock(q, y), [Load(q), ExchangeSucceeds(q)], s4);
    Unfold(cfg, s2, ExchangeSucceeds(p), [ReadClock(q, y), Load(q), ExchangeSucceeds(q)], s3);
    Unfold(cfg, s1, Load(p), [ExchangeSucceeds(p), ReadClock(q, y), Load(q), ExchangeSucceeds(q)], s2);
    Unfold(cfg, s0, ReadClock(p, x), [Load(p), ExchangeSucceeds(p), ReadClock(q, y), Load(q), ExchangeSucceeds(q)], s1);
    BothWaiting(p, early);
  }

  lemma BothWaiting(p: nat, w: Word)
    ensures State(w, Pair(p, Waiting, Waiting)) == Initial(w, 2)
  {
  }

  lemma {:induction false} RoundsRun(cfg: Setting, p: nat, x: u32, y: u32, rounds: nat)
    requires p < 2 && WindowId(cfg, x) != WindowId(cfg, y)
    ensures var s := Chase(cfg, p, x, y);
            Runs(cfg, s, Rounds(p, rounds)) && After(cfg, s, Rounds(p, rounds)) == s
    ensures |Rounds(p, rounds)| == 2 * rounds
  {
    if rounds > 0 {
      RoundsRun(cfg, p, x, y, rounds - 1);
      ChaseWrites(cfg, x, y);
      ChaseWrites(cfg, y, x);
      hide WindowId, Refuses, Desired, Pair;
      var s, rest := Chase(cfg, p, x, y), Rounds(p, rounds - 1);
      var early, late := Word(WindowId(cfg, y), 1), Word(WindowId(cfg, x), 1);
      var ahead, chaser := Looping(x, early, true), Looping(y, late, true);
      PairUpdates(p, ahead, chaser, ahead);
      PairUpdates(p, ahead, chaser, chaser);
      var m := s.(word := late);
      Unfold(cfg, m, ExchangeSucceeds(1 - p), rest, s);
      Unfold(cfg, s, ExchangeSucceeds(p), [ExchangeSucceeds(1 - p)] + rest, m);
      assert [ExchangeSucceeds(p)] + ([ExchangeSucceeds(1 - p)] + rest) == Rounds(p, rounds);
    }
  }

  /** Across two windows the loops need not end, even with strong exchanges: from the word that a first
      request of one window leaves, two calls get into a state where both exchanges succeed, in turn, for
      any number of rounds, and neither call is answered. */
  lemma TwoWindowsNeedNotEnd(cfg: Setting, p: nat, x: u32, y: u32, rounds: nat)
    requires p < 2 && WindowId(cfg, x) != WindowId(cfg, y)
    ensures var s, es := Initial(Word(WindowId(cfg, y), 1), 2), Opening(p, x, y) + Rounds(p, rounds);
            Runs(cfg, s, es) && After(cfg, s, es) == Chase(cfg, p, x, y) && |es| == 6 + 2 * rounds
  {
    hide Opening, Runs, After;
    OpeningRuns(cfg, p, x, y);
    RoundsRun(cfg, p, x, y, rounds);
    RunsJoin(cfg, Initial(Word(WindowId(cfg, y), 1), 2), Opening(p, x, y), Rounds(p, rounds));
    assert |Opening(p, x, y)| == 6 by {
      OpeningLength(p, x, y);
    }
  }

  lemma OpeningLength(p: nat, x: u32, y: u32)
    requires p < 2
    ensures |Opening(p, x, y)| == 6
  {
  }

  lemma {:induction false} RoundsRead(p: nat, rounds: nat)
    requires p < 2
    ensures forall i :: 0 <= i < |Rounds(p, rounds)| ==> !Rounds(p, rounds)[i].ReadClock?
  {
    if rounds > 0 {
      RoundsRead(p, rounds - 1);
    }
  }

  lemma LongRun(cfg: Setting, w: Word, x: u32, y: u32, length: nat)
    requires CanChase(cfg, w, x, y)
    ensures RunsFor(cfg, w, x, y, length)
  {
    hide Runs, WindowId;
    var p := if w == Word(WindowId(cfg, y), 1) then 0 else 1;
    var first, second := if p == 0 then x else y, if p == 0 then y else x;
    TwoWindowsNeedNotEnd(cfg, p, first, second, length);
    RoundsRead(p, length);
    var es := Opening(p, first, second) + Rounds(p, length);
    assert Reads(es, x, y);
  }

  /** Two calls on one key need not end if and only if their clocks read different windows and the word
      they start from is what a first request of one of these windows leaves. */
  lemma TwoCallsNeedNotEndIff(cfg: Setting, w: Word, x: u32, y: u32)
    ensures NeedNotEnd(cfg, w, x, y) <==> CanChase(cfg, w, x, y)
  {
    hide CanChase, Runs, Reads;
    if CanChase(cfg, w, x, y) {
      forall length: nat
        ensures RunsFor(cfg, w, x, y, length)
      {
        LongRun(cfg, w, x, y, length);
      }
    } else if NeedNotEnd(cfg, w, x, y) {
      assert RunsFor(cfg, w, x, y, 10);
      var es :| |es| >= 10 && Runs(cfg, Initial(w, 2), es) && Reads(es, x, y);
      TwoCallsEnd(cfg, w, x, y, es);
    }
  }
}
