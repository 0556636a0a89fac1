/** The promise of the fixed window limiter to each of its clients, in a run over all of them. */
module PerKey {
  import opened Machine
  import opened Keyed
  import opened FixedWindow
  import opened RateLimiters

  function Times(qs: seq<Request>): seq<u32> {
    seq(|qs|, i requires 0 <= i < |qs| => qs[i].secs)
  }

  /** How many of the requests made in the seconds from..to were admitted. */
  function AdmittedIn(qs: seq<Request>, vs: seq<Verdict>, from: int, to: int): nat
    requires |qs| == |vs|
  {
    if qs == [] then 0
    else
      var n := |qs| - 1;
      AdmittedIn(qs[..n], vs[..n], from, to) + if from <= qs[n].secs < to && vs[n].Admitted? then 1 else 0
  }

  function OrFresh(w: Option<Word>): Word {
    if w.Some? then w.value else FRESH
  }

  /** One request more at the end of a run of one key. */
  lemma {:induction false} ServeOneMore(cfg: Setting, w: Option<Word>, qs: seq<Request>, q: Request)
    ensures var (end, vs) := ServeOne(w, qs, WindowInit(), WindowCall(cfg));
            var (next, v) := Call(cfg, OrFresh(end), q.secs);
            ServeOne(w, qs + [q], WindowInit(), WindowCall(cfg)) == (Some(next), vs + [v])
    decreases |qs|
  {
    hide Call;
    if qs == [] {
      assert qs + [q] == [q] && [q][1..] == [];
      var (next, v) := Call(cfg, OrFresh(w), q.secs);
      assert ServeOne(Some(next), [], WindowInit(), WindowCall(cfg)) == (Some(next), []);
      assert ServeOne(w, [q], WindowInit(), WindowCall(cfg)) == (Some(next), [v] + []);
      assert [v] + [] == [] + [v];
    } else {
      assert (qs + [q])[1..] == qs[1..] + [q];
      var (w', first) := Call(cfg, OrFresh(w), qs[0].secs);
      ServeOneMore(cfg, Some(w'), qs[1..], q);
      var (end, vs) := ServeOne(Some(w'), qs[1..], WindowInit(), WindowCall(cfg));
      var last := Call(cfg, OrFresh(end), q.secs).1;
      assert ServeOne(w, qs, WindowInit(), WindowCall(cfg)) == (end, [first] + vs);
      assert [first] + (vs + [last]) == [first] + vs + [last];
    }
  }

  /** A run of one key is its arrivals taken in order. */
  lemma {:induction false} OneKeyIsArrivals(cfg: Setting, qs: seq<Request>, from: int, to: int)
    ensures var (end, vs) := ServeOne(None, qs, WindowInit(), WindowCall(cfg));
            && OrFresh(end) == WordAfter(cfg, Times(qs))
            && |vs| == |qs| && AdmittedIn(qs, vs, from, to) == Grants(cfg, Times(qs), from, to)
    decreases |qs|
  {
    hide Call;
    if qs != [] {
      var n := |qs| - 1;
      OneKeyIsArrivals(cfg, qs[..n], from, to);
      ServeOneMore(cfg, None, qs[..n], qs[n]);
      assert qs[..n] + [qs[n]] == qs;
      assert Times(qs)[..n] == Times(qs[..n]);
      var vs := ServeOne(None, qs, WindowInit(), WindowCall(cfg)).1;
      assert vs[..n] == ServeOne(None, qs[..n], WindowInit(), WindowCall(cfg)).1;
    }
  }

  /** In every sequential run over any number of keys, from an empty limiter and with any clocks, each key
      is admitted exactly min(arrivals, max_requests) times in a window if and only if it has no more
      arrivals in it than that, or they stand together among the key's own; whatever the other keys do.
      With a monotone clock they always do. */
  lemma EachKeyExact(cfg: Setting, qs: seq<Request>, key: string, k: nat)
    requires Limit(cfg) >= 1
    ensures var vs := ServeAll(map[], qs, WindowInit(), WindowCall(cfg)).1;
            var own, answers := Only(key, qs), AnswersTo(key, qs, vs);
            && |own| == |answers|
            && var hits, admitted := HitsOf(cfg, Times(own), k),
                   AdmittedIn(own, answers, Begin(cfg, k), Begin(cfg, k) + cfg.window);
               && (admitted == Min(hits, Limit(cfg)) <==> hits <= Limit(cfg) || Together(cfg, Times(own), k))
               && (Monotone(Times(own)) ==> Together(cfg, Times(own), k))
  {
    hide ServeAll, ServeOne, Only, AnswersTo, Grants, HitsOf, Begin, Limit, AdmittedIn, WordAfter, Together, Monotone;
    KeysIndependent(map[], qs, WindowInit(), WindowCall(cfg), key);
    OneKeyIsArrivals(cfg, Only(key, qs), Begin(cfg, k), Begin(cfg, k) + cfg.window);
    var times := Times(Only(key, qs));
    WindowExactIff(cfg, times, k);
    if Monotone(times) {
      MonotoneTogether(cfg, times, k);
    }
  }
}
