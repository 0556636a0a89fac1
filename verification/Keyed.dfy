/** A limiter over many keys, each with a word of its own. */
module Keyed {
  import opened Machine

  /** `created` is the clock reading that stamps the word if the key is new. */
  datatype Request = Request(key: string, created: u32, secs: u32)

  type Words = map<string, Word>

  function Start(words: Words, q: Request, init: u32 -> Word): Word {
    if q.key in words then words[q.key] else init(q.created)
  }

  function Serve<V>(words: Words, q: Request, init: u32 -> Word, call: (Word, u32) -> (Word, V)): (Words, V) {
    var (w, v) := call(Start(words, q, init), q.secs);
    (words[q.key := w], v)
  }

  /** A run over all keys, one whole call after another. */
  function ServeAll<V>(words: Words, qs: seq<Request>, init: u32 -> Word, call: (Word, u32) -> (Word, V))
    : (r: (Words, seq<V>))
    ensures |r.1| == |qs|
    decreases |qs|
  {
    if qs == [] then (words, [])
    else
      var (next, v) := Serve(words, qs[0], init, call);
      var (end, vs) := ServeAll(next, qs[1..], init, call);
      (end, [v] + vs)
  }

  /** The requests with the given key, in order. */
  function Only(key: string, qs: seq<Request>): seq<Request> {
    if qs == [] then [] else (if qs[0].key == key then [qs[0]] else []) + Only(key, qs[1..])
  }

  /** The answers to the requests with the given key, in order. */
  function AnswersTo<V>(key: string, qs: seq<Request>, vs: seq<V>): seq<V>
    requires |qs| == |vs|
  {
    if qs == [] then [] else (if qs[0].key == key then [vs[0]] else []) + AnswersTo(key, qs[1..], vs[1..])
  }

  function Lookup(words: Words, key: string): Option<Word> {
    if key in words then Some(words[key]) else None
  }

  /** A run of a limiter that has one key only. */
  function ServeOne<V>(word: Option<Word>, qs: seq<Request>, init: u32 -> Word, call: (Word, u32) -> (Word, V))
    : (Option<Word>, seq<V>)
    decreases |qs|
  {
    if qs == [] then (word, [])
    else
      var w := if word.Some? then word.value else init(qs[0].created);
      var (next, v) := call(w, qs[0].secs);
      var (end, vs) := ServeOne(Some(next), qs[1..], init, call);
      (end, [v] + vs)
  }

  /** Keys do not interfere in sequential runs: seen from one key, a run over all keys is the run of that
      key alone, word for word and answer for answer. */
  lemma {:induction false} KeysIndependent<V>(words: Words, qs: seq<Request>, init: u32 -> Word,
                                              call: (Word, u32) -> (Word, V), key: string)
    ensures var (end, vs) := ServeAll(words, qs, init, call);
            ServeOne(Lookup(words, key), Only(key, qs), init, call) == (Lookup(end, key), AnswersTo(key, qs, vs))
    decreases |qs|
  {
    if qs != [] {
      var (next, v) := Serve(words, qs[0], init, call);
      KeysIndependent(next, qs[1..], init, call, key);
      var (end, vs) := ServeAll(words, qs, init, call);
      assert vs[1..] == ServeAll(next, qs[1..], init, call).1;
      if qs[0].key == key {
        assert Only(key, qs)[1..] == Only(key, qs[1..]);
      } else {
        assert Only(key, qs) == Only(key, qs[1..]);
        assert AnswersTo(key, qs, vs) == AnswersTo(key, qs[1..], vs[1..]);
        assert Lookup(next, key) == Lookup(words, key);
      }
    }
  }

  // Calls interleaved one atomic action at a time

  /** The atomic actions of the calls of a limiter. Looking a key's word up, or creating it, is one of them;
      `now` is the clock reading that stamps a word created. */
  datatype Action =
    | FindOrCreate(call: nat, now: u32)
    | ReadClock(call: nat, secs: u32)
    | Load(call: nat)
    | Refuse(call: nat)
    | ExchangeSucceeds(call: nat)
    | ExchangeFails(call: nat)

  /** `keys` holds the key of each call. */
  predicate IsOn(keys: seq<string>, key: string, a: Action) {
    a.call < |keys| && keys[a.call] == key
  }

  /** The word the key starts with: the one in the map, or the one a call of the run creates. */
  function StartWord(keys: seq<string>, key: string, words: Words, actions: seq<Action>, init: u32 -> Word)
    : Option<Word>
  {
    if key in words then Some(words[key])
    else if actions == [] then None
    else if IsOn(keys, key, actions[0]) && actions[0].FindOrCreate? then Some(init(actions[0].now))
    else StartWord(keys, key, words, actions[1..], init)
  }

  lemma {:induction false} StartUnchanged(keys: seq<string>, key: string, words: Words, words': Words,
                                          actions: seq<Action>, init: u32 -> Word)
    requires key !in words && key !in words'
    ensures StartWord(keys, key, words, actions, init) == StartWord(keys, key, words', actions, init)
  {
    if actions != [] {
      StartUnchanged(keys, key, words, words', actions[1..], init);
    }
  }
}
