/** Any number of fixed window calls on any number of keys, interleaved one atomic action at a time. Finding
    a key's word, or creating it, is one atomic action on the map. */
module FixedWindowKeys {
  import opened Machine
  import opened Sums
  import opened Keyed
  import opened RateLimiters
  import F = FixedWindow
  import C = FixedWindowConcurrent

  datatype Phase =
    | Arrived
    | Found
    | Clocked(secs: u32)
    | Looping(secs: u32, held: Word)
    | Turned(secs: u32)
    | Passed(secs: u32, verdict: F.Verdict)

  datatype State = State(words: Words, phases: seq<Phase>)

  function Start(keys: seq<string>): State {
    State(map[], seq(|keys|, _ => Arrived))
  }

  /** `keys` holds the key of each call. A call that has looked its word up finds it there. */
  predicate Sound(keys: seq<string>, s: State) {
    && |s.phases| == |keys|
    && forall c :: 0 <= c < |keys| && !s.phases[c].Arrived? ==> keys[c] in s.words
  }

  predicate Enabled(cfg: F.Setting, keys: seq<string>, s: State, e: Action)
    requires Sound(keys, s)
  {
    && e.call < |keys|
    && var p := s.phases[e.call];
      match e
      case FindOrCreate(_, _) => p.Arrived?
      case ReadClock(_, _) => p.Found?
      case Load(_) => p.Clocked?
      case Refuse(_) => p.Looping? && F.Refuses(cfg, p.held, p.secs)
      case ExchangeSucceeds(_) => p.Looping? && !F.Refuses(cfg, p.held, p.secs) && s.words[keys[e.call]] == p.held
      case ExchangeFails(_) => p.Looping? && !F.Refuses(cfg, p.held, p.secs)
  }

  function Apply(cfg: F.Setting, keys: seq<string>, s: State, e: Action): (r: State)
    requires Sound(keys, s) && Enabled(cfg, keys, s, e)
    ensures Sound(keys, r)
  {
    var c := e.call;
    var key, p := keys[c], s.phases[c];
    match e
    case FindOrCreate(_, _) =>
      State(if key in s.words then s.words else s.words[key := F.FRESH], s.phases[c := Found])
    case ReadClock(_, secs) => s.(phases := s.phases[c := Clocked(secs)])
    case Load(_) => s.(phases := s.phases[c := Looping(p.secs, s.words[key])])
    case Refuse(_) => s.(phases := s.phases[c := Turned(p.secs)])
    case ExchangeSucceeds(_) => s.(words := s.words[key := F.Desired(cfg, p.held, p.secs)])
    case ExchangeFails(_) =>
      s.(phases := s.phases[c := Passed(p.secs, F.Answer(cfg, F.Desired(cfg, p.held, p.secs), p.secs))])
  }

  predicate Runs(cfg: F.Setting, keys: seq<string>, s: State, es: seq<Action>)
    requires Sound(keys, s)
    decreases |es|
  {
    es == [] || (Enabled(cfg, keys, s, es[0]) && Runs(cfg, keys, Apply(cfg, keys, s, es[0]), es[1..]))
  }

  function After(cfg: F.Setting, keys: seq<string>, s: State, es: seq<Action>): (r: State)
    requires Sound(keys, s) && Runs(cfg, keys, s, es)
    ensures Sound(keys, r)
    decreases |es|
  {
    if es == [] then s else After(cfg, keys, Apply(cfg, keys, s, es[0]), es[1..])
  }

  // One key alone

  /** The action as one on the key's own word. */
  function OnWord(e: Action): C.Event
    requires !e.FindOrCreate?
  {
    match e
    case ReadClock(c, secs) => C.ReadClock(c, secs)
    case Load(c) => C.Load(c)
    case Refuse(c) => C.Refuse(c)
    case ExchangeSucceeds(c) => C.ExchangeSucceeds(c)
    case ExchangeFails(c) => C.ExchangeFails(c)
  }

  /** The actions of a run on one key's word, in order. */
  function Only(keys: seq<string>, key: string, es: seq<Action>): seq<C.Event> {
    if es == [] then []
    else (if IsOn(keys, key, es[0]) && !es[0].FindOrCreate? then [OnWord(es[0])] else []) + Only(keys, key, es[1..])
  }

  predicate ShowsCall(p: Phase, call: C.Caller) {
    match p
    case Arrived => call.Waiting?
    case Found => call.Waiting?
    case Clocked(secs) => call == C.Clocked(secs)
    case Looping(secs, held) => call.Looping? && call.secs == secs && call.held == held
    case Turned(secs) => call == C.Turned(secs)
    case Passed(secs, v) => call.Passed? && call.secs == secs && call.verdict == v
  }

  /** Seen from one key: its own calls as they stand, the others as if they had not started. */
  ghost predicate Shows(keys: seq<string>, key: string, phases: seq<Phase>, callers: seq<C.Caller>) {
    && |callers| == |phases| == |keys|
    && forall c :: 0 <= c < |keys| ==> if keys[c] == key then ShowsCall(phases[c], callers[c]) else callers[c].Waiting?
  }

  /** An action on another key leaves this key's word and calls alone; looking the key up may create its
      word and does nothing else. */
  lemma ElsewhereKeeps(cfg: F.Setting, keys: seq<string>, key: string, s: State, e: Action, callers: seq<C.Caller>)
    requires Sound(keys, s) && Enabled(cfg, keys, s, e) && Shows(keys, key, s.phases, callers)
    requires !IsOn(keys, key, e) || e.FindOrCreate?
    ensures var s' := Apply(cfg, keys, s, e);
            && Shows(keys, key, s'.phases, callers)
            && (key in s.words ==> key in s'.words && s'.words[key] == s.words[key])
            && (key !in s.words ==> if IsOn(keys, key, e) then key in s'.words && s'.words[key] == F.FRESH
                                    else key !in s'.words)
  {
    hide F.Desired, F.Answer, F.Refuses;
  }

  /** Any other action on the key is the same action on its word alone. */
  lemma ActsOnWord(cfg: F.Setting, keys: seq<string>, key: string, s: State, e: Action, t: C.State)
    requires Sound(keys, s) && Enabled(cfg, keys, s, e) && Shows(keys, key, s.phases, t.callers)
    requires IsOn(keys, key, e) && !e.FindOrCreate? && t.word == s.words[key]
    ensures C.Enabled(cfg, t, OnWord(e))
    ensures var s', t' := Apply(cfg, keys, s, e), C.Apply(cfg, t, OnWord(e));
            key in s'.words && t'.word == s'.words[key] && Shows(keys, key, s'.phases, t'.callers)
  {
    hide F.Desired, F.Answer, F.Refuses;
    assert ShowsCall(s.phases[e.call], t.callers[e.call]);
  }

  /** Keys do not interfere, in any interleaving: seen from one key, a run over all keys is a run on that
      key's own word, with the same word and the same calls at the end. */
  lemma {:induction false} OneKeyRun(cfg: F.Setting, keys: seq<string>, key: string, s: State, es: seq<Action>,
                                     t: C.State)
    requires Sound(keys, s) && Runs(cfg, keys, s, es)
    requires Shows(keys, key, s.phases, t.callers) && StartWord(keys, key, s.words, es, WindowInit()) == Some(t.word)
    ensures C.Runs(cfg, t, Only(keys, key, es))
    ensures var end, t' := After(cfg, keys, s, es), C.After(cfg, t, Only(keys, key, es));
            key in end.words && end.words[key] == t'.word && Shows(keys, key, end.phases, t'.callers)
    decreases |es|
  {
    if es != [] {
      hide Enabled, Apply, C.Enabled, C.Apply, Shows, OnWord, Sound;
      var e, m := es[0], Apply(cfg, keys, s, es[0]);
      if IsOn(keys, key, e) && !e.FindOrCreate? {
        KnownKey(cfg, keys, s, e);
        ActsOnWord(cfg, keys, key, s, e, t);
        var u := C.Apply(cfg, t, OnWord(e));
        OneKeyRun(cfg, keys, key, m, es[1..], u);
        var rest := Only(keys, key, es[1..]);
        assert Only(keys, key, es) == [OnWord(e)] + rest;
        assert ([OnWord(e)] + rest)[1..] == rest;
      } else {
        ElsewhereKeeps(cfg, keys, key, s, e, t.callers);
        SameStart(cfg, keys, key, s, es);
        OneKeyRun(cfg, keys, key, m, es[1..], t);
        assert Only(keys, key, es) == Only(keys, key, es[1..]);
      }
    }
  }

  lemma KnownKey(cfg: F.Setting, keys: seq<string>, s: State, e: Action)
    requires Sound(keys, s) && Enabled(cfg, keys, s, e) && !e.FindOrCreate?
    ensures keys[e.call] in s.words
  {
    hide F.Desired, F.Answer, F.Refuses;
  }

  lemma SameStart(cfg: F.Setting, keys: seq<string>, key: string, s: State, es: seq<Action>)
    requires es != [] && Sound(keys, s) && Enabled(cfg, keys, s, es[0])
    requires !IsOn(keys, key, es[0]) || es[0].FindOrCreate?
    ensures StartWord(keys, key, Apply(cfg, keys, s, es[0]).words, es[1..], WindowInit())
            == StartWord(keys, key, s.words, es, WindowInit())
  {
    hide F.Desired, F.Answer, F.Refuses;
    var words, words' := s.words, Apply(cfg, keys, s, es[0]).words;
    if key !in words' {
      StartUnchanged(keys, key, words, words', es[1..], WindowInit());
    }
  }

  // What each key is promised

  /** The calls of the key that have been admitted. */
  function AdmittedOn(keys: seq<string>, key: string, phases: seq<Phase>): nat
    requires |keys| == |phases|
  {
    if keys == [] then 0
    else (if keys[0] == key && phases[0].Passed? then 1 else 0) + AdmittedOn(keys[1..], key, phases[1..])
  }

  lemma {:induction false} AdmittedShown(keys: seq<string>, key: string, phases: seq<Phase>, callers: seq<C.Caller>)
    requires Shows(keys, key, phases, callers)
    ensures Sum(callers, C.IsAdmitted) == AdmittedOn(keys, key, phases)
  {
    if keys != [] {
      assert ShowsCall(phases[0], callers[0]) || callers[0].Waiting?;
      assert forall c :: 0 <= c < |keys[1..]| ==>
          keys[1..][c] == keys[c + 1] && phases[1..][c] == phases[c + 1] && callers[1..][c] == callers[c + 1];
      AdmittedShown(keys[1..], key, phases[1..], callers[1..]);
    }
  }

  /** The clocks that the key's calls read in the run lie in window `id`. */
  ghost predicate ReadIn(cfg: F.Setting, keys: seq<string>, key: string, es: seq<Action>, id: u32) {
    forall i :: 0 <= i < |es| && es[i].ReadClock? && IsOn(keys, key, es[i]) ==> F.WindowId(cfg, es[i].secs) == id
  }

  lemma {:induction false} OnlyReads(cfg: F.Setting, keys: seq<string>, key: string, es: seq<Action>, id: u32)
    requires ReadIn(cfg, keys, key, es, id)
    ensures forall e :: e in Only(keys, key, es) && e.ReadClock? ==> F.WindowId(cfg, e.secs) == id
  {
    hide F.WindowId;
    if es != [] {
      assert forall i :: 0 <= i < |es[1..]| ==> es[1..][i] == es[i + 1];
      OnlyReads(cfg, keys, key, es[1..], id);
      assert es[0].ReadClock? && IsOn(keys, key, es[0]) ==> F.WindowId(cfg, es[0].secs) == id;
    }
  }

  /** The run of one key from an empty server. */
  lemma FromStart(cfg: F.Setting, keys: seq<string>, key: string, es: seq<Action>)
    requires Runs(cfg, keys, Start(keys), es) && key in After(cfg, keys, Start(keys), es).words
    ensures var end, only, t := After(cfg, keys, Start(keys), es), Only(keys, key, es), C.Initial(F.FRESH, |keys|);
            && C.Runs(cfg, t, only)
            && var t' := C.After(cfg, t, only);
               end.words[key] == t'.word && Shows(keys, key, end.phases, t'.callers)
  {
    hide Enabled, Apply, Runs, After, StartWord, C.Runs, C.After;
    KeyCreated(cfg, keys, key, Start(keys), es);
    StartsFresh(keys, key, es);
    var t := C.Initial(F.FRESH, |keys|);
    assert Shows(keys, key, Start(keys).phases, t.callers);
    OneKeyRun(cfg, keys, key, Start(keys), es, t);
  }

  lemma {:induction false} StartsFresh(keys: seq<string>, key: string, es: seq<Action>)
    ensures StartWord(keys, key, map[], es, WindowInit()) in {None, Some(F.FRESH)}
  {
    if es != [] {
      StartsFresh(keys, key, es[1..]);
    }
  }

  /** In every interleaving of calls on any number of keys, from an empty server, every key's stored count
      stays within the limit and every admitted client is told a remaining count below it. */
  lemma EachKeyCountWithinLimit(cfg: F.Setting, keys: seq<string>, es: seq<Action>, key: string, c: nat)
    requires F.Limit(cfg) >= 1 && Runs(cfg, keys, Start(keys), es)
    ensures var end := After(cfg, keys, Start(keys), es);
            && (key in end.words ==> end.words[key].low <= F.Limit(cfg))
            && (c < |keys| && end.phases[c].Passed? ==>
                  end.phases[c].verdict.Admitted? && end.phases[c].verdict.remaining < F.Limit(cfg))
  {
    hide Enabled, Apply, Runs, After, Only, F.Limit;
    var end := After(cfg, keys, Start(keys), es);
    if key in end.words {
      FromStart(cfg, keys, key, es);
      C.CountWithinLimit(cfg, C.Initial(F.FRESH, |keys|), Only(keys, key, es));
    }
    if c < |keys| && end.phases[c].Passed? {
      FromStart(cfg, keys, keys[c], es);
      C.CountWithinLimit(cfg, C.Initial(F.FRESH, |keys|), Only(keys, keys[c], es));
      var t' := C.After(cfg, C.Initial(F.FRESH, |keys|), Only(keys, keys[c], es));
      assert ShowsCall(end.phases[c], t'.callers[c]);
    }
  }

  /** In every interleaving of calls on any number of keys, from an empty server: when the clocks of one
      key's calls read one window and none of its calls is left in its loop, the key's count is at most
      the number of its admitted calls, and equal to it if and only if no first exchange of its own calls
      fails, whatever the calls on other keys do. */
  lemma EachKeyCountIff(cfg: F.Setting, keys: seq<string>, key: string, es: seq<Action>, id: u32)
    requires Runs(cfg, keys, Start(keys), es) && key in After(cfg, keys, Start(keys), es).words
    requires ReadIn(cfg, keys, key, es, id)
    requires var end := After(cfg, keys, Start(keys), es);
             forall c :: 0 <= c < |keys| && keys[c] == key ==> !end.phases[c].Looping?
    ensures var end := After(cfg, keys, Start(keys), es);
            var count, admitted := F.CountOf(end.words[key], id), AdmittedOn(keys, key, end.phases);
            count <= admitted && (count == admitted <==> C.NoFirstFails(Only(keys, key, es), |keys|))
  {
    hide Enabled, Apply, Runs, After, C.Runs, C.After, Only, F.WindowId, C.NoFirstFails, AdmittedOn;
    FromStart(cfg, keys, key, es);
    OnlyReads(cfg, keys, key, es, id);
    var end, only := After(cfg, keys, Start(keys), es), Only(keys, key, es);
    var t' := C.After(cfg, C.Initial(F.FRESH, |keys|), only);
    forall c | 0 <= c < |t'.callers|
      ensures !t'.callers[c].Looping?
    {
      assert if keys[c] == key then ShowsCall(end.phases[c], t'.callers[c]) else t'.callers[c].Waiting?;
    }
    AdmittedShown(keys, key, end.phases, t'.callers);
    C.ConcurrentCountIff(cfg, F.FRESH, |keys|, only, id);
    C.NoneMissed(t'.callers);
  }

  /** A key that is in the map was there before or was created in the run. */
  lemma {:induction false} KeyCreated(cfg: F.Setting, keys: seq<string>, key: string, s: State, es: seq<Action>)
    requires Sound(keys, s) && Runs(cfg, keys, s, es)
    ensures key in After(cfg, keys, s, es).words <==> StartWord(keys, key, s.words, es, WindowInit()).Some?
    decreases |es|
  {
    if es != [] {
      hide Enabled, Sound;
      KeysGrow(cfg, keys, key, s, es[0]);
      var m := Apply(cfg, keys, s, es[0]);
      KeyCreated(cfg, keys, key, m, es[1..]);
      if key !in m.words {
        StartUnchanged(keys, key, s.words, m.words, es[1..], WindowInit());
      }
    }
  }

  lemma KeysGrow(cfg: F.Setting, keys: seq<string>, key: string, s: State, e: Action)
    requires Sound(keys, s) && Enabled(cfg, keys, s, e)
    ensures key in Apply(cfg, keys, s, e).words <==> key in s.words || (IsOn(keys, key, e) && e.FindOrCreate?)
  {
    hide F.Desired, F.Answer, F.Refuses;
  }
}
