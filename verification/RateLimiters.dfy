/** The two limiters as the server runs them: a map from keys to atomic words, created on first use,
    and the compare-exchange loops. What other threads do to the word, and whether a weak exchange
    fails for no reason, is given by an arbitrary finite forecast. */
module RateLimiters {
  import opened Machine
  import opened Keyed
  import T = TokenBucket
  import F = FixedWindow

  class AtomicWord {
    var value: Word

    constructor (w: Word)
      ensures value == w
    {
      value := w;
    }

    /** `compare_exchange_weak`: on failure the caller's expected word becomes the current one. */
    method CompareExchange(expected: Word, desired: Word, spurious: bool) returns (ok: bool, seen: Word)
      modifies this
      ensures ok == (!spurious && old(value) == expected)
      ensures value == if ok then desired else old(value)
      ensures seen == if ok then expected else old(value)
    {
      ok := !spurious && value == expected;
      if ok {
        value := desired;
        seen := expected;
      } else {
        seen := value;
      }
    }
  }

  /** Before an exchange another thread may have left `others` in the word. */
  datatype Weather = Weather(others: Option<Word>, spurious: bool)

  predicate Undisturbed(forecast: seq<Weather>) {
    forall i :: 0 <= i < |forecast| ==> forecast[i].others.None?
  }

  /** The word was there at the start, or another thread left it. */
  ghost predicate SeenInWord(w: Word, init: Word, forecast: seq<Weather>) {
    w == init || exists i :: 0 <= i < |forecast| && forecast[i].others == Some(w)
  }

  predicate Calm(forecast: seq<Weather>) {
    forall i :: 0 <= i < |forecast| ==> forecast[i] == Weather(None, false)
  }

  // The two limiters' whole calls, in the form that a run over many keys takes them.

  function TokenInit(cfg: T.Setting): u32 -> Word {
    (now: u32) => T.FreshBucket(cfg, now)
  }

  function TokenCall(cfg: T.Setting): (Word, u32) -> (Word, T.Verdict) {
    (w: Word, secs: u32) => T.TakeToken(cfg, w, secs)
  }

  function WindowInit(): u32 -> Word {
    (_: u32) => F.FRESH
  }

  function WindowCall(cfg: F.Setting): (Word, u32) -> (Word, F.Verdict) {
    (w: Word, secs: u32) => F.Call(cfg, w, secs)
  }

  class KeyedWords {
    var words: map<string, AtomicWord>

    constructor ()
      ensures Valid() && words == map[]
    {
      words := map[];
    }

    /** Each key owns a word of its own. */
    ghost predicate Valid()
      reads this
    {
      forall j, k :: j in words && k in words && j != k ==> words[j] != words[k]
    }

    ghost function View(): Words
      reads this, words.Values
    {
      map k | k in words :: words[k].value
    }

    twostate lemma OnlyOneChanged(key: string)
      requires words == old(words) && key in words
      requires forall k :: k in words && k != key ==> words[k].value == old(words[k].value)
      ensures View() == old(View())[key := words[key].value]
    {
    }

    /** The key's word, created from `init` if the key is new. */
    method Find(key: string, init: Word) returns (w: AtomicWord)
      requires Valid()
      modifies this
      ensures Valid() && key in words && words[key] == w
      ensures View() == if key in old(words) then old(View()) else old(View())[key := init]
      ensures w.value == if key in old(View()) then old(View())[key] else init
      ensures key in old(words) ==> words == old(words)
      ensures key !in old(words) ==> fresh(w) && words == old(words)[key := w]
    {
      if key in words {
        w := words[key];
      } else {
        w := new AtomicWord(init);
        words := words[key := w];
      }
    }
  }

  class TokenBucketLimiter {
    const setting: T.Setting
    const table: KeyedWords

    constructor (setting: T.Setting)
      ensures this.setting == setting && fresh(table) && table.Valid() && table.words == map[]
    {
      this.setting := setting;
      table := new KeyedWords();
    }

    /** The exchange loop on one bucket. Whatever the forecast, the answer is the whole call's answer
        on the last word read, `read`, and the bucket is left with the whole call's word. */
    method Take(bucket: AtomicWord, secs: u32, forecast: seq<Weather>) returns (v: T.Verdict, ghost read: Word)
      modifies bucket
      ensures (bucket.value, v) == T.TakeToken(setting, read, secs)
      ensures SeenInWord(read, old(bucket.value), forecast)
      ensures Undisturbed(forecast) ==> read == old(bucket.value)
    {
      var held := bucket.value;
      var k := 0;
      while true
        invariant 0 <= k <= |forecast| && held == bucket.value
        invariant SeenInWord(held, old(bucket.value), forecast)
        invariant Undisturbed(forecast) ==> held == old(bucket.value)
        decreases |forecast| - k
      {
        var elapsed := T.Elapsed(secs, held.low);
        var tokens := T.Refilled(setting, held.high, elapsed);
        var stamp := if elapsed > 0 then secs else held.low;
        if tokens < 1 {
          return T.Rejected(T.Delay(stamp, secs)), held;
        }
        var desired := Word(tokens - 1, stamp);
        if k < |forecast| && forecast[k].others.Some? {
          bucket.value := forecast[k].others.value;
        }
        read := held;
        var ok;
        ok, held := bucket.CompareExchange(held, desired, k < |forecast| && forecast[k].spurious);
        if ok {
          return T.Admitted(tokens - 1, T.Delay(stamp, secs)), read;
        }
        k := k + 1;
      }
    }

    /** One request: only its key's word changes, and undisturbed it is served as a whole call. */
    method Process(q: Request, forecast: seq<Weather>) returns (v: T.Verdict, ghost read: Word)
      requires table.Valid()
      modifies table, table.words.Values
      ensures table.Valid()
      ensures v == T.TakeToken(setting, read, q.secs).1
      ensures table.View() == old(table.View())[q.key := T.TakeToken(setting, read, q.secs).0]
      ensures Undisturbed(forecast) ==>
                (table.View(), v) == Serve(old(table.View()), q, TokenInit(setting), TokenCall(setting))
    {
      hide T.TakeToken, T.FreshBucket;
      var bucket := table.Find(q.key, T.FreshBucket(setting, q.created));
      label found:
      v, read := Take(bucket, q.secs, forecast);
      table.OnlyOneChanged@found(q.key);
    }
  }

  class FixedWindowLimiter {
    const setting: F.Setting
    const table: KeyedWords

    constructor (setting: F.Setting)
      ensures this.setting == setting && fresh(table) && table.Valid() && table.words == map[]
    {
      this.setting := setting;
      table := new KeyedWords();
    }

    /** The loop as written goes round while the exchange succeeds. The answer is decided by the word
        first read. Undisturbed, the count is raised at most once; in calm weather an admitted call
        makes one successful and one failed exchange and leaves exactly the whole call's word. */
    method Count(client: AtomicWord, secs: u32, forecast: seq<Weather>)
      returns (v: F.Verdict, ghost successes: nat, ghost failures: nat)
      modifies client
      ensures v == F.Call(setting, old(client.value), secs).1
      ensures failures == if v.Admitted? then 1 else 0
      ensures client.value == F.Call(setting, old(client.value), secs).0
              || SeenInWord(client.value, old(client.value), forecast)
      ensures Undisturbed(forecast) ==>
                && successes <= 1
                && client.value == (if successes == 1 then F.Call(setting, old(client.value), secs).0
                                    else old(client.value))
      ensures Calm(forecast) ==>
                && (successes == 1 <==> v.Admitted?)
                && client.value == F.Call(setting, old(client.value), secs).0
    {
      var id := F.WindowId(setting, secs);
      var held := client.value;
      ghost var next := F.Desired(setting, held, secs);
      successes, failures := 0, 0;
      var desired: Word;
      var k := 0;
      while true
        invariant 0 <= k == successes
        invariant held == old(client.value) && failures == 0
        invariant successes > 0 ==> !F.Refuses(setting, held, secs)
        invariant successes > |forecast| ==> client.value != held
        invariant client.value == F.Call(setting, held, secs).0 || SeenInWord(client.value, held, forecast)
        invariant Undisturbed(forecast) ==> successes <= 1 && client.value == if successes == 0 then held else next
        decreases |forecast| + 1 - k
      {
        if held.high == id {
          if held.low >= F.Limit(setting) {
            v := F.Rejected(F.RetryAfter(setting, secs));
            return;
          }
          desired := Word(id, ToU32(held.low + 1));
        } else {
          desired := Word(id, 1);
        }
        assert desired == next != held;
        if k < |forecast| && forecast[k].others.Some? {
          client.value := forecast[k].others.value;
        }
        var ok;
        ok, held := client.CompareExchange(held, desired, k < |forecast| && forecast[k].spurious);
        if !ok {
          failures := 1;
          break;
        }
        successes := successes + 1;
        k := k + 1;
      }
      v := F.Answer(setting, desired, secs);
    }

    /** One request: only its key's word changes, and in calm weather it is served as a whole call. */
    method Process(q: Request, forecast: seq<Weather>) returns (v: F.Verdict, ghost end: Word)
      requires table.Valid()
      modifies table, table.words.Values
      ensures table.Valid()
      ensures v == F.Call(setting, Start(old(table.View()), q, WindowInit()), q.secs).1
      ensures table.View() == old(table.View())[q.key := end]
      ensures Calm(forecast) ==>
                (table.View(), v) == Serve(old(table.View()), q, WindowInit(), WindowCall(setting))
    {
      hide F.Call;
      var client := table.Find(q.key, F.FRESH);
      ghost var successes, failures;
      label found:
      v, successes, failures := Count(client, q.secs, forecast);
      table.OnlyOneChanged@found(q.key);
      end := client.value;
    }
  }
}
