/** Any number of token bucket calls on any number of keys, interleaved one atomic action at a time. Finding
    a key's bucket, or creating it, is one atomic action on the map. */
module TokenBucketKeys {
  import opened Machine
  import opened Sums
  import opened Keyed
  import opened RateLimiters
  import T = TokenBucket
  import C = TokenBucketConcurrent

  datatype Phase =
    | Arrived
    | Found
    | Clocked(secs: u32)
    | Looping(secs: u32, held: Word)
    | Returned(secs: u32, verdict: T.Verdict)

  datatype State = State(words: Words, phases: seq<Phase>)

  function Start(keys: seq<string>): State {
    State(map[], seq(|keys|, _ => Arrived))
  }

  /** `keys` holds the key of each call. A call that has looked its bucket up finds it there. */
  predicate Sound(keys: seq<string>, s: State) {
    && |s.phases| == |keys|
    && forall c :: 0 <= c < |keys| && !s.phases[c].Arrived? ==> keys[c] in s.words
  }

  predicate Enabled(cfg: T.Setting, keys: seq<string>, s: State, e: Action)
    requires Sound(keys, s)
  {
    && e.call < |keys|
    && var p := s.phases[e.call];
      match e
      case FindOrCreate(_, _) => p.Arrived?
      case ReadClock(_, _) => p.Found?
      case Load(_) => p.Clocked?
      case Refuse(_) => p.Looping? && C.Refuses(cfg, p.held, p.secs)
      case ExchangeSucceeds(_) => p.Looping? && !C.Refuses(cfg, p.held, p.secs) && s.words[keys[e.call]] == p.held
      case ExchangeFails(_) => p.Looping? && !C.Refuses(cfg, p.held, p.secs)
  }

  function Apply(cfg: T.Setting, keys: seq<string>, s: State, e: Action): (r: State)
    requires Sound(keys, s) && Enabled(cfg, keys, s, e)
    ensures Sound(keys, r)
  {
    var c := e.call;
    var key, p := keys[c], s.phases[c];
    match e
    case FindOrCreate(_, now) =>
      State(if key in s.words then s.words else s.words[key := T.FreshBucket(cfg, now)], s.phases[c := Found])
    case ReadClock(_, secs) => s.(phases := s.phases[c := Clocked(secs)])
    case Load(_) => s.(phases := s.phases[c := Looping(p.secs, s.words[key])])
    case Refuse(_) => s.(phases := s.phases[c := Returned(p.secs, T.TakeToken(cfg, p.held, p.secs).1)])
    case ExchangeSucceeds(_) =>
      var (desired, v) := T.TakeToken(cfg, p.held, p.secs);
      State(s.words[key := desired], s.phases[c := Returned(p.secs, v)])
    case ExchangeFails(_) => s.(phases := s.phases[c := Looping(p.secs, s.words[key])])
  }

  predicate Runs(cfg: T.Setting, keys: seq<string>, s: State, es: seq<Action>)
    requires Sound(keys, s)
    decreases |es|
  {
    es == [] || (Enabled(cfg, keys, s, es[0]) && Runs(cfg, keys, Apply(cfg, keys, s, es[0]), es[1..]))
  }

  function After(cfg: T.Setting, keys: seq<string>, s: State, es: seq<Action>): (r: State)
    requires Sound(keys, s) && Runs(cfg, keys, s, es)
    ensures Sound(keys, r)
    decreases |es|
  {
    if es == [] then s else After(cfg, keys, Apply(cfg, keys, s, es[0]), es[1..])
  }

  // One key alone

  /** The action as one on the key's own word. */
  function OnWord(e: Action): C.Event
    requires !e.FindOrCreate?
  {
    match e
    case ReadClock(c, secs) => C.ReadClock(c, secs)
    case Load(c) => C.Load(c)
    case Refuse(c) => C.Refuse(c)
    case ExchangeSucceeds(c) => C.ExchangeSucceeds(c)
    case ExchangeFails(c) => C.ExchangeFails(c)
  }

  /** The actions of a run on one key's word, in order. */
  function Only(keys: seq<string>, key: string, es: seq<Action>): seq<C.Event> {
    if es == [] then []
    else (if IsOn(keys, key, es[0]) && !es[0].FindOrCreate? then [OnWord(es[0])] else []) + Only(keys, key, es[1..])
  }

  predicate ShowsCall(p: Phase, call: C.Call) {
    match p
    case Arrived => call.Waiting?
    case Found => call.Waiting?
    case Clocked(secs) => call == C.Clocked(secs)
    case Looping(secs, held) => call.Looping? && call.secs == secs && call.held == held
    case Returned(secs, v) => call == C.Returned(secs, v)
  }

  /** Seen from one key: its own calls as they stand, the others as if they had not started. */
  ghost predicate Shows(keys: seq<string>, key: string, phases: seq<Phase>, calls: seq<C.Call>) {
    && |calls| == |phases| == |keys|
    && forall c :: 0 <= c < |keys| ==> if keys[c] == key then ShowsCall(phases[c], calls[c]) else calls[c].Waiting?
  }

  /** An action on another key leaves this key's word and calls alone; looking the key up may create its
      word and does nothing else. */
  lemma ElsewhereKeeps(cfg: T.Setting, keys: seq<string>, key: string, s: State, e: Action, calls: seq<C.Call>)
    requires Sound(keys, s) && Enabled(cfg, keys, s, e) && Shows(keys, key, s.phases, calls)
    requires !IsOn(keys, key, e) || e.FindOrCreate?
    ensures var s' := Apply(cfg, keys, s, e);
            && Shows(keys, key, s'.phases, calls)
            && (key in s.words ==> key in s'.words && s'.words[key] == s.words[key])
            && (key !in s.words ==>
                  if IsOn(keys, key, e) then key in s'.words && s'.words[key] == T.FreshBucket(cfg, e.now)
                  else key !in s'.words)
  {
    hide T.TakeToken, T.FreshBucket;
  }

  /** Any other action on the key is the same action on its word alone. */
  lemma ActsOnWord(cfg: T.Setting, keys: seq<string>, key: string, s: State, e: Action, t: C.State)
    requires Sound(keys, s) && Enabled(cfg, keys, s, e) && Shows(keys, key, s.phases, t.calls)
    requires IsOn(keys, key, e) && !e.FindOrCreate? && t.word == s.words[key]
    ensures C.Enabled(cfg, t, OnWord(e))
    ensures var s', t' := Apply(cfg, keys, s, e), C.Apply(cfg, t, OnWord(e));
            key in s'.words && t'.word == s'.words[key] && Shows(keys, key, s'.phases, t'.calls)
  {
    hide T.TakeToken;
    assert ShowsCall(s.phases[e.call], t.calls[e.call]);
  }

  /** Keys do not interfere, in any interleaving: seen from one key, a run over all keys is a run on that
      key's own word, with the same word and the same calls at the end. */
  lemma {:induction false} OneKeyRun(cfg: T.Setting, keys: seq<string>, key: string, s: State, es: seq<Action>,
                                     t: C.State)
    requires Sound(keys, s) && Runs(cfg, keys, s, es)
    requires Shows(keys, key, s.phases, t.calls) && StartWord(keys, key, s.words, es, TokenInit(cfg)) == Some(t.word)
    ensures C.Runs(cfg, t, Only(keys, key, es))
    ensures var end, t' := After(cfg, keys, s, es), C.After(cfg, t, Only(keys, key, es));
            key in end.words && end.words[key] == t'.word && Shows(keys, key, end.phases, t'.calls)
    decreases |es|
  {
    if es != [] {
      hide Enabled, Apply, C.Enabled, C.Apply, Shows, T.FreshBucket, OnWord, Sound;
      var e, m := es[0], Apply(cfg, keys, s, es[0]);
      if IsOn(keys, key, e) && !e.FindOrCreate? {
        KnownKey(cfg, keys, s, e);
        ActsOnWord(cfg, keys, key, s, e, t);
        var u := C.Apply(cfg, t, OnWord(e));
        OneKeyRun(cfg, keys, key, m, es[1..], u);
        var rest := Only(keys, key, es[1..]);
        assert Only(keys, key, es) == [OnWord(e)] + rest;
        assert ([OnWord(e)] + rest)[1..] == rest;
      } else {
        ElsewhereKeeps(cfg, keys, key, s, e, t.calls);
        SameStart(cfg, keys, key, s, es);
        OneKeyRun(cfg, keys, key, m, es[1..], t);
        assert Only(keys, key, es) == Only(keys, key, es[1..]);
      }
    }
  }

  lemma KnownKey(cfg: T.Setting, keys: seq<string>, s: State, e: Action)
    requires Sound(keys, s) && Enabled(cfg, keys, s, e) && !e.FindOrCreate?
    ensures keys[e.call] in s.words
  {
    hide T.TakeToken;
  }

  lemma SameStart(cfg: T.Setting, keys: seq<string>, key: string, s: State, es: seq<Action>)
    requires es != [] && Sound(keys, s) && Enabled(cfg, keys, s, es[0])
    requires !IsOn(keys, key, es[0]) || es[0].FindOrCreate?
    ensures StartWord(keys, key, Apply(cfg, keys, s, es[0]).words, es[1..], TokenInit(cfg))
            == StartWord(keys, key, s.words, es, TokenInit(cfg))
  {
    hide T.TakeToken, T.FreshBucket;
    var words, words' := s.words, Apply(cfg, keys, s, es[0]).words;
    if key !in words' {
      StartUnchanged(keys, key, words, words', es[1..], TokenInit(cfg));
    }
  }

  // What each key is promised

  function OnBucket(p: Phase): C.Call {
    match p
    case Arrived => C.Waiting
    case Found => C.Waiting
    case Clocked(secs) => C.Clocked(secs)
    case Looping(secs, held) => C.Looping(secs, held, 0)
    case Returned(secs, v) => C.Returned(secs, v)
  }

  /** The calls in flight as the key's own word sees them. */
  function CallsOf(keys: seq<string>, key: string, phases: seq<Phase>): seq<C.Call>
    requires |keys| == |phases|
  {
    seq(|keys|, c requires 0 <= c < |keys| => if keys[c] == key then OnBucket(phases[c]) else C.Waiting)
  }

  /** The clocks the key's calls read in the run lie in from..to, and none they use is later than that. */
  ghost predicate ReadWithin(keys: seq<string>, key: string, s: State, es: seq<Action>, from: nat, to: nat)
    requires |s.phases| == |keys|
  {
    && (forall i :: 0 <= i < |es| && es[i].ReadClock? && IsOn(keys, key, es[i]) ==> from <= es[i].secs <= to)
    && (forall c :: 0 <= c < |keys| && keys[c] == key && (s.phases[c].Clocked? || s.phases[c].Looping?) ==>
          s.phases[c].secs <= to)
  }

  lemma {:induction false} OnlyReads(keys: seq<string>, key: string, es: seq<Action>, from: nat, to: nat)
    requires forall i :: 0 <= i < |es| && es[i].ReadClock? && IsOn(keys, key, es[i]) ==> from <= es[i].secs <= to
    ensures forall e :: e in Only(keys, key, es) && e.ReadClock? ==> from <= e.secs <= to
  {
    if es != [] {
      assert forall i :: 0 <= i < |es[1..]| ==> es[1..][i] == es[i + 1];
      OnlyReads(keys, key, es[1..], from, to);
      assert es[0].ReadClock? && IsOn(keys, key, es[0]) ==> from <= es[0].secs <= to;
    }
  }

  lemma WithinOnWord(keys: seq<string>, key: string, s: State, es: seq<Action>, t: C.State, from: nat, to: nat)
    requires |s.phases| == |keys| && ReadWithin(keys, key, s, es, from, to)
    requires t.calls == CallsOf(keys, key, s.phases)
    ensures Shows(keys, key, s.phases, t.calls) && C.ReadWithin(t, Only(keys, key, es), from, to)
  {
    OnlyReads(keys, key, es, from, to);
  }

  /** The server's promise to each client: in every interleaving of calls on any number of keys, from any
      state, each key is admitted at most the capacity plus `rate` for each second of a span, and one
      more for each of its own calls in flight with an older clock. */
  lemma EachKeyAtMostCapacityPlusRate(cfg: T.Setting, keys: seq<string>, key: string, s: State, es: seq<Action>,
                                      from: u32, to: u32)
    requires 0 <= cfg.capacity && from <= to
    requires Sound(keys, s) && Runs(cfg, keys, s, es) && ReadWithin(keys, key, s, es, from, to)
    requires var w := StartWord(keys, key, s.words, es, TokenInit(cfg)); w.Some? && T.Stamp(w.value) <= to
    ensures C.Admissions(Only(keys, key, es))
            <= cfg.capacity + T.Earned(cfg, to - from) + Sum(CallsOf(keys, key, s.phases), C.IsStale(from))
  {
    assert |s.phases| == |keys|;
    hide T.TakeToken, T.Earned, Runs, Sound, C.Runs, C.After, After, C.Enabled, C.Apply, StartWord, C.Admissions,
         ReadWithin, C.ReadWithin, Only, Shows, CallsOf, Sum, C.IsStale;
    var t := C.State(StartWord(keys, key, s.words, es, TokenInit(cfg)).value, CallsOf(keys, key, s.phases), [], 0, 0);
    WithinOnWord(keys, key, s, es, t, from, to);
    OneKeyRun(cfg, keys, key, s, es, t);
    C.AtMostCapacityPlusRate(cfg, t, Only(keys, key, es), from, to);
  }

  /** The entry is for a call of this key that has returned, or is bound to return, with that answer. */
  predicate Decided(cfg: T.Setting, keys: seq<string>, key: string, s: State, e: C.Entry)
    requires |s.phases| == |keys|
  {
    && e.call < |keys| && keys[e.call] == key
    && C.Bound(cfg, OnBucket(s.phases[e.call])) == Some((e.secs, e.verdict))
  }

  /** A one-at-a-time history of whole calls of one key, from its first word to its present one: only decided
      calls of the key, each once, and all those that have returned. */
  ghost predicate History(cfg: T.Setting, keys: seq<string>, key: string, init: Word, s: State, log: seq<C.Entry>)
    requires |s.phases| == |keys| && key in s.words
  {
    && C.Replays(cfg, init, log, s.words[key])
    && C.Distinct(log)
    && (forall i :: 0 <= i < |log| ==> Decided(cfg, keys, key, s, log[i]))
    && (forall c :: 0 <= c < |keys| && keys[c] == key && s.phases[c].Returned? ==>
          C.Entry(c, s.phases[c].secs, s.phases[c].verdict) in log)
  }

  lemma ShownCall(keys: seq<string>, key: string, phases: seq<Phase>, calls: seq<C.Call>, c: nat)
    requires Shows(keys, key, phases, calls) && c < |keys|
    ensures calls[c].Waiting? || (keys[c] == key && ShowsCall(phases[c], calls[c]))
  {
  }

  lemma LogIsHistory(cfg: T.Setting, keys: seq<string>, key: string, w: Word, s: State, t: C.State)
    requires key in s.words && s.words[key] == t.word && Shows(keys, key, s.phases, t.calls)
    requires C.LogOfBound(cfg, t) && C.Replays(cfg, w, t.log, t.word)
    ensures History(cfg, keys, key, w, s, t.log)
  {
    hide T.TakeToken, C.Replays;
    forall i | 0 <= i < |t.log|
      ensures Decided(cfg, keys, key, s, t.log[i])
    {
      assert C.BoundBy(cfg, t, t.log[i]);
      var c := t.log[i].call;
      ShownCall(keys, key, s.phases, t.calls, c);
    }
    forall c | 0 <= c < |keys| && keys[c] == key && s.phases[c].Returned?
      ensures C.Entry(c, s.phases[c].secs, s.phases[c].verdict) in t.log
    {
      assert ShowsCall(s.phases[c], t.calls[c]);
      assert C.Logged(t.log, c);
      var i :| 0 <= i < |t.log| && t.log[i].call == c;
      assert C.BoundBy(cfg, t, t.log[i]);
    }
  }

  /** From an empty server, each key's calls are linearisable by themselves, in every interleaving: there is a
      history of the key from the word it was created with. */
  lemma EachKeyLinearisable(cfg: T.Setting, keys: seq<string>, key: string, es: seq<Action>)
    requires Runs(cfg, keys, Start(keys), es) && key in After(cfg, keys, Start(keys), es).words
    ensures var end := After(cfg, keys, Start(keys), es);
            var init := StartWord(keys, key, map[], es, TokenInit(cfg));
            init.Some? && exists log :: History(cfg, keys, key, init.value, end, log)
  {
    hide T.TakeToken, Enabled, Apply, Runs, After, StartWord, C.Replays, C.Runs, C.After, History;
    var s := Start(keys);
    KeyCreated(cfg, keys, key, s, es);
    var w := StartWord(keys, key, map[], es, TokenInit(cfg)).value;
    var t := C.Initial(w, |keys|);
    assert Shows(keys, key, s.phases, t.calls);
    OneKeyRun(cfg, keys, key, s, es, t);
    NothingReplayed(cfg, w);
    C.RunLinearises(cfg, w, t, Only(keys, key, es));
    LogIsHistory(cfg, keys, key, w, After(cfg, keys, s, es), C.After(cfg, t, Only(keys, key, es)));
  }

  /** A call that has not read its clock. */
  predicate NotStarted(p: Phase) {
    p.Arrived? || p.Found?
  }

  /** In the history, calls that had returned in the earlier state come before those that had not started. */
  ghost predicate InRealTime(keys: seq<string>, earlier: State, log: seq<C.Entry>)
    requires |earlier.phases| == |keys|
  {
    forall i, j :: 0 <= i < |log| && 0 <= j < |log| && log[i].call < |keys| && log[j].call < |keys| ==>
      earlier.phases[log[i].call].Returned? && NotStarted(earlier.phases[log[j].call]) ==> i < j
  }

  /** Each key's history respects real time: in every continuation of a run there is one in which the key's
      calls that had returned come before those that had not started. */
  lemma EachKeyRealTimeOrder(cfg: T.Setting, keys: seq<string>, key: string, es: seq<Action>, fs: seq<Action>)
    requires Runs(cfg, keys, Start(keys), es) && Runs(cfg, keys, After(cfg, keys, Start(keys), es), fs)
    requires key in After(cfg, keys, After(cfg, keys, Start(keys), es), fs).words
    ensures var mid := After(cfg, keys, Start(keys), es);
            var end := After(cfg, keys, mid, fs);
            exists now, log :: History(cfg, keys, key, T.FreshBucket(cfg, now), end, log) && InRealTime(keys, mid, log)
  {
    hide T.TakeToken, T.FreshBucket, Enabled, Apply, Runs, After, Only, C.Replays, C.Runs, C.After, History, InRealTime;
    var s := Start(keys);
    var mid := After(cfg, keys, s, es);
    KeyCreated(cfg, keys, key, s, es);
    KeyCreated(cfg, keys, key, mid, fs);
    if key in mid.words {
      var now := CreatedFresh(cfg, keys, key, s.words, es);
      var t := C.Initial(T.FreshBucket(cfg, now), |keys|);
      assert Shows(keys, key, s.phases, t.calls);
      OneKeyRun(cfg, keys, key, s, es, t);
      HistoryFrom(cfg, keys, key, t.word, Only(keys, key, es), mid, fs);
    } else {
      var now := CreatedFresh(cfg, keys, key, mid.words, fs);
      var t := C.Initial(T.FreshBucket(cfg, now), |keys|);
      assert Shows(keys, key, mid.phases, t.calls);
      NothingRun(cfg, t);
      HistoryFrom(cfg, keys, key, t.word, [], mid, fs);
    }
  }

  lemma {:induction false} CreatedFresh(cfg: T.Setting, keys: seq<string>, key: string, words: Words, es: seq<Action>)
    returns (now: u32)
    requires key !in words && StartWord(keys, key, words, es, TokenInit(cfg)).Some?
    ensures StartWord(keys, key, words, es, TokenInit(cfg)) == Some(T.FreshBucket(cfg, now))
  {
    if IsOn(keys, key, es[0]) && es[0].FindOrCreate? {
      now := es[0].now;
    } else {
      now := CreatedFresh(cfg, keys, key, words, es[1..]);
    }
  }

  lemma NothingRun(cfg: T.Setting, t: C.State)
    ensures C.Runs(cfg, t, []) && C.After(cfg, t, []) == t
  {
  }

  /** The history of a continuation, when the key's part of the run so far is `before`. */
  lemma HistoryFrom(cfg: T.Setting, keys: seq<string>, key: string, w: Word, before: seq<C.Event>, mid: State,
                    fs: seq<Action>)
    requires Sound(keys, mid) && Runs(cfg, keys, mid, fs) && C.Runs(cfg, C.Initial(w, |keys|), before)
    requires var m := C.After(cfg, C.Initial(w, |keys|), before);
             && Shows(keys, key, mid.phases, m.calls)
             && StartWord(keys, key, mid.words, fs, TokenInit(cfg)) == Some(m.word)
    ensures var end := After(cfg, keys, mid, fs);
            key in end.words
            && exists log :: History(cfg, keys, key, w, end, log) && InRealTime(keys, mid, log)
  {
    hide T.TakeToken, Runs, After, Only, StartWord, C.Replays, C.Runs, C.After, C.LogOfBound, C.Bound, Sound;
    var t := C.Initial(w, |keys|);
    var m, only := C.After(cfg, t, before), Only(keys, key, fs);
    OneKeyRun(cfg, keys, key, mid, fs, m);
    var end, t' := After(cfg, keys, mid, fs), C.After(cfg, m, only);
    NothingReplayed(cfg, w);
    NothingLogged(cfg, w, |keys|);
    C.RunLinearises(cfg, w, t, before);
    C.RunLinearises(cfg, w, m, only);
    LogIsHistory(cfg, keys, key, w, end, t');
    var log := t'.log;
    forall i, j | 0 <= i < |log| && 0 <= j < |log| && log[i].call < |keys| && log[j].call < |keys|
                  && mid.phases[log[i].call].Returned? && NotStarted(mid.phases[log[j].call])
      ensures i < j
    {
      assert Decided(cfg, keys, key, end, log[i]) && Decided(cfg, keys, key, end, log[j]);
      assert ShowsCall(mid.phases[log[i].call], m.calls[log[i].call]);
      assert ShowsCall(mid.phases[log[j].call], m.calls[log[j].call]);
      C.RealTimeOrder(cfg, w, |keys|, before, only, i, j);
    }
    assert InRealTime(keys, mid, log);
  }

  lemma NothingLogged(cfg: T.Setting, w: Word, n: nat)
    ensures C.LogOfBound(cfg, C.Initial(w, n))
  {
  }

  lemma NothingReplayed(cfg: T.Setting, w: Word)
    ensures C.Replays(cfg, w, [], w)
  {
  }

  /** A key that is in the map was there before or was created in the run. */
  lemma {:induction false} KeyCreated(cfg: T.Setting, keys: seq<string>, key: string, s: State, es: seq<Action>)
    requires Sound(keys, s) && Runs(cfg, keys, s, es)
    ensures key in After(cfg, keys, s, es).words <==> StartWord(keys, key, s.words, es, TokenInit(cfg)).Some?
    decreases |es|
  {
    if es != [] {
      hide Enabled, Sound, T.FreshBucket;
      KeysGrow(cfg, keys, key, s, es[0]);
      var m := Apply(cfg, keys, s, es[0]);
      KeyCreated(cfg, keys, key, m, es[1..]);
      if key !in m.words {
        StartUnchanged(keys, key, s.words, m.words, es[1..], TokenInit(cfg));
      }
    }
  }

  lemma KeysGrow(cfg: T.Setting, keys: seq<string>, key: string, s: State, e: Action)
    requires Sound(keys, s) && Enabled(cfg, keys, s, e)
    ensures key in Apply(cfg, keys, s, e).words <==> key in s.words || (IsOn(keys, key, e) && e.FindOrCreate?)
  {
    hide T.TakeToken, T.FreshBucket;
  }
}
