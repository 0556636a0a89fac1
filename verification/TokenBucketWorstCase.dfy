/** The bound on exchange attempts is attained: a schedule in which each success makes every other call fail. */
module TokenBucketWorstCase {
  import opened Machine
  import opened TokenBucket
  import opened TokenBucketConcurrent

  function Clocks(j: nat, n: nat): seq<Event>
    decreases n - j
  {
    if j >= n then [] else [ReadClock(j, 0)] + Clocks(j + 1, n)
  }

  function Loads(j: nat, n: nat): seq<Event>
    decreases n - j
  {
    if j >= n then [] else [Load(j)] + Loads(j + 1, n)
  }

  function Fails(j: nat, n: nat): seq<Event>
    decreases n - j
  {
    if j >= n then [] else [ExchangeFails(j)] + Fails(j + 1, n)
  }

  /** Call `k` wins, all later ones fail and read again, and then the next one wins. */
  function Contest(k: nat, n: nat): seq<Event>
    decreases n - k
  {
    if k >= n then [] else [ExchangeSucceeds(k)] + (Fails(k + 1, n) + Contest(k + 1, n))
  }

  function Schedule(n: nat): seq<Event> {
    Clocks(0, n) + (Loads(0, n) + Contest(0, n))
  }

  // Attempts

  lemma {:induction false} AttemptsJoin(es: seq<Event>, fs: seq<Event>)
    ensures Attempts(es + fs) == Attempts(es) + Attempts(fs)
  {
    if es == [] {
      assert es + fs == fs;
    } else {
      assert (es + fs)[1..] == es[1..] + fs;
      AttemptsJoin(es[1..], fs);
    }
  }

  lemma {:induction false} SweepAttempts(j: nat, n: nat)
    requires j <= n
    ensures Attempts(Clocks(j, n)) == 0 && Attempts(Loads(j, n)) == 0 && Attempts(Fails(j, n)) == n - j
    decreases n - j
  {
    if j < n {
      SweepAttempts(j + 1, n);
    }
  }

  lemma {:induction false} ContestAttempts(k: nat, n: nat)
    requires k <= n
    ensures 2 * Attempts(Contest(k, n)) == (n - k) * (n - k + 1)
    decreases n - k
  {
    if k < n {
      ContestAttempts(k + 1, n);
      SweepAttempts(k + 1, n);
      AttemptsJoin(Fails(k + 1, n), Contest(k + 1, n));
      assert Attempts(Contest(k, n)) == 1 + Attempts(Fails(k + 1, n) + Contest(k + 1, n));
      assert (n - k) * (n - k + 1) == (n - k - 1) * (n - k) + 2 * (n - k);
    }
  }

  // The run

  /** A strong run from one state to another. */
  ghost predicate Leads(cfg: Setting, s: State, es: seq<Event>, t: State) {
    Runs(cfg, s, es) && StrongRun(cfg, s, es) && After(cfg, s, es) == t
  }

  lemma LeadsStep(cfg: Setting, s: State, e: Event, es: seq<Event>, t: State)
    requires Enabled(cfg, s, e) && StrongStep(s, e) && Leads(cfg, Apply(cfg, s, e), es, t)
    ensures Leads(cfg, s, [e] + es, t)
  {
    hide Enabled, Apply, StrongStep;
    assert ([e] + es)[1..] == es;
  }

  lemma {:induction false} LeadsJoin(cfg: Setting, s: State, es: seq<Event>, m: State, fs: seq<Event>, t: State)
    requires Leads(cfg, s, es, m) && Leads(cfg, m, fs, t)
    ensures Leads(cfg, s, es + fs, t)
    decreases |es|
  {
    hide Enabled, Apply, StrongStep;
    if es == [] {
      assert es + fs == fs;
    } else {
      LeadsJoin(cfg, Apply(cfg, s, es[0]), es[1..], m, fs, t);
      LeadsStep(cfg, s, es[0], es[1..] + fs, t);
      assert [es[0]] + (es[1..] + fs) == es + fs;
    }
  }

  lemma LeadsNowhere(cfg: Setting, s: State)
    ensures Leads(cfg, s, [], s)
  {
  }

  /** The calls from..to are in their loops at second 0 and hold the given word. */
  predicate Hold(s: State, from: nat, to: nat, w: Word)
    requires to <= |s.calls|
  {
    forall c :: from <= c < to ==> s.calls[c].Looping? && s.calls[c].secs == 0 && s.calls[c].held == w
  }

  lemma {:induction false} ClocksRun(cfg: Setting, s: State, j: nat, n: nat) returns (t: State)
    requires |s.calls| == n && j <= n && forall c :: j <= c < n ==> s.calls[c].Waiting?
    ensures Leads(cfg, s, Clocks(j, n), t) && t.word == s.word && |t.calls| == n
    ensures forall c :: 0 <= c < n ==> t.calls[c] == if c < j then s.calls[c] else Clocked(0)
    decreases n - j
  {
    if j == n {
      LeadsNowhere(cfg, s);
      return s;
    }
    t := ClocksRun(cfg, Apply(cfg, s, ReadClock(j, 0)), j + 1, n);
    LeadsStep(cfg, s, ReadClock(j, 0), Clocks(j + 1, n), t);
  }

  lemma {:induction false} LoadsRun(cfg: Setting, s: State, j: nat, n: nat) returns (t: State)
    requires |s.calls| == n && j <= n && Hold(s, 0, j, s.word)
    requires forall c :: j <= c < n ==> s.calls[c] == Clocked(0)
    ensures Leads(cfg, s, Loads(j, n), t) && t.word == s.word && |t.calls| == n && Hold(t, 0, n, s.word)
    decreases n - j
  {
    hide TakeToken;
    if j == n {
      LeadsNowhere(cfg, s);
      return s;
    }
    t := LoadsRun(cfg, Apply(cfg, s, Load(j)), j + 1, n);
    LeadsStep(cfg, s, Load(j), Loads(j + 1, n), t);
  }

  /** The calls j..n still hold an outdated word: each of them fails and takes the present one. */
  lemma {:induction false} FailsRun(cfg: Setting, s: State, k: nat, j: nat, n: nat, outdated: Word) returns (t: State)
    requires |s.calls| == n && k <= j <= n && outdated != s.word && !Refuses(cfg, outdated, 0)
    requires Hold(s, k, j, s.word) && Hold(s, j, n, outdated)
    ensures Leads(cfg, s, Fails(j, n), t) && t.word == s.word && |t.calls| == n && Hold(t, k, n, s.word)
    decreases n - j
  {
    hide TakeToken, Refuses;
    if j == n {
      LeadsNowhere(cfg, s);
      return s;
    }
    assert s.calls[j].Looping? && s.calls[j].held == outdated;
    t := FailsRun(cfg, Apply(cfg, s, ExchangeFails(j)), k, j + 1, n, outdated);
    LeadsStep(cfg, s, ExchangeFails(j), Fails(j + 1, n), t);
  }

  /** Without refill, a bucket of `m` tokens gives one away. */
  lemma OneToken(capacity: i32, m: nat)
    requires 1 <= m <= capacity
    ensures var cfg := Setting(capacity, 0);
            !Refuses(cfg, Word(m, 0), 0) && TakeToken(cfg, Word(m, 0), 0).0 == Word(m - 1, 0)
  {
  }

  lemma {:induction false} ContestRun(s: State, k: nat, n: nat) returns (t: State)
    requires n <= 0x7FFF_FFFF && k <= n && |s.calls| == n && s.word == Word(n - k, 0) && Hold(s, k, n, s.word)
    ensures Leads(Setting(n, 0), s, Contest(k, n), t)
    decreases n - k
  {
    hide TakeToken, Refuses;
    var cfg := Setting(n, 0);
    if k == n {
      LeadsNowhere(cfg, s);
      return s;
    }
    OneToken(n, n - k);
    var m := Apply(cfg, s, ExchangeSucceeds(k));
    var f := FailsRun(cfg, m, k + 1, k + 1, n, s.word);
    t := ContestRun(f, k + 1, n);
    LeadsJoin(cfg, m, Fails(k + 1, n), f, Contest(k + 1, n), t);
    LeadsStep(cfg, s, ExchangeSucceeds(k), Fails(k + 1, n) + Contest(k + 1, n), t);
  }

  /** For every number of calls up to the largest capacity, some strong run of them makes exactly n(n+1)/2
      attempts. */
  lemma AttemptsAttained(n: nat)
    requires n <= 0x7FFF_FFFF
    ensures var cfg, s := Setting(n, 0), Initial(Word(n, 0), n);
            && Runs(cfg, s, Schedule(n)) && StrongRun(cfg, s, Schedule(n))
            && 2 * Attempts(Schedule(n)) == n * (n + 1)
  {
    hide Clocks, Loads, Contest, Attempts, TakeToken;
    var cfg, s := Setting(n, 0), Initial(Word(n, 0), n);
    var c := ClocksRun(cfg, s, 0, n);
    var l := LoadsRun(cfg, c, 0, n);
    var t := ContestRun(l, 0, n);
    LeadsJoin(cfg, c, Loads(0, n), l, Contest(0, n), t);
    LeadsJoin(cfg, s, Clocks(0, n), c, Loads(0, n) + Contest(0, n), t);
    SweepAttempts(0, n);
    ContestAttempts(0, n);
    AttemptsJoin(Loads(0, n), Contest(0, n));
    AttemptsJoin(Clocks(0, n), Loads(0, n) + Contest(0, n));
  }
}
