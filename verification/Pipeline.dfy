/** The middleware pipeline: components that call the rest of the pipeline and may raise before or
    after it, the error handler that catches, and the logger outside it. */
module Pipeline {
  import opened Machine
  import opened KeyFunctions

  datatype Exception = HttpError(status: int) | OtherError

  datatype Outcome = Returned | Raised(error: Exception)

  datatype Component = Logger | ErrorHandler | GlobalLimiter(key: KeyFunction) | Parser | RouteLimiter | Authenticator

  /** The components inside the error handler. */
  predicate IsInner(c: Component) {
    c.GlobalLimiter? || c.Parser? || c.RouteLimiter? || c.Authenticator?
  }

  datatype Event =
    | Entered(index: nat)
    | Left(index: nat)
    | HandlerStarted
    | HandlerDone
    | ErrorPage(status: int)
    | Logged

  /** The endpoint's handler for the method: none, or one that completes, or one that raises. */
  datatype Finisher = NoHandler | Completes | Fails(error: Exception)

  /** Which raise: each inner component before or after the rest of the pipeline, the endpoint's
      handler, and the error page's handler. */
  datatype Faults = Faults(before: map<nat, Exception>, after: map<nat, Exception>,
                           handler: Finisher, errorPage: Option<Exception>)

  function PageStatus(e: Exception): int {
    if e.HttpError? then e.status else 500
  }

  /** What happens from component `i` on. */
  function RunFrom(components: seq<Component>, i: nat, faults: Faults): (seq<Event>, Outcome)
    decreases |components| - i
  {
    if i >= |components| then ([], Returned)
    else
      match components[i]
      case Logger =>
        var (events, outcome) := RunFrom(components, i + 1, faults);
        if outcome.Raised? then (events, outcome) else (events + [Logged], Returned)
      case ErrorHandler =>
        var (events, outcome) := RunFrom(components, i + 1, faults);
        if outcome.Raised? then ServeError(events, outcome.error, faults)
        else if faults.handler.Fails? then ServeError(events + [HandlerStarted], faults.handler.error, faults)
        else (events + Handled(faults), Returned)
      case _ =>
        if i in faults.before then ([], Raised(faults.before[i]))
        else
          var (events, outcome) := RunFrom(components, i + 1, faults);
          if outcome.Raised? then ([Entered(i)] + events, outcome)
          else if i in faults.after then ([Entered(i)] + events, Raised(faults.after[i]))
          else ([Entered(i)] + events + [Left(i)], Returned)
  }

  /** A handler that does not raise, if there is one. */
  function Handled(faults: Faults): seq<Event> {
    if faults.handler.NoHandler? then [] else [HandlerStarted, HandlerDone]
  }

  function ServeError(events: seq<Event>, error: Exception, faults: Faults): (seq<Event>, Outcome) {
    (events + [ErrorPage(PageStatus(error))],
     if faults.errorPage.Some? then Raised(faults.errorPage.value) else Returned)
  }

  class Transaction {
    var events: seq<Event>

    constructor ()
      ensures events == []
    {
      events := [];
    }
  }

  /** The recursion of the source: each component is given the rest of the pipeline as `next`. */
  method RunPipeline(txn: Transaction, index: nat, components: seq<Component>, faults: Faults) returns (r: Outcome)
    modifies txn
    ensures var (events, outcome) := RunFrom(components, index, faults);
            r == outcome && txn.events == old(txn.events) + events
    decreases |components| - index, 1
  {
    if index >= |components| {
      return Returned;
    }
    match components[index] {
      case Logger =>
        r := RunPipeline(txn, index + 1, components, faults);
        if r.Returned? {
          txn.events := txn.events + [Logged];
        }
      case ErrorHandler =>
        r := RunErrorHandler(txn, index, components, faults);
      case _ =>
        r := RunInner(txn, index, components, faults);
    }
  }

  /** `try` the rest and the endpoint's handler; an exception of either gets its error page. */
  method RunErrorHandler(txn: Transaction, index: nat, components: seq<Component>, faults: Faults) returns (r: Outcome)
    requires index < |components| && components[index] == ErrorHandler
    modifies txn
    ensures var (events, outcome) := RunFrom(components, index, faults);
            r == outcome && txn.events == old(txn.events) + events
    decreases |components| - index, 0
  {
    var error: Option<Exception> := None;
    r := RunPipeline(txn, index + 1, components, faults);
    if r.Raised? {
      error := Some(r.error);
    } else if !faults.handler.NoHandler? {
      txn.events := txn.events + [HandlerStarted];
      if faults.handler.Fails? {
        error := Some(faults.handler.error);
      } else {
        txn.events := txn.events + [HandlerDone];
      }
    }
    if error.Some? {
      txn.events := txn.events + [ErrorPage(PageStatus(error.value))];
      r := if faults.errorPage.Some? then Raised(faults.errorPage.value) else Returned;
    }
  }

  method RunInner(txn: Transaction, index: nat, components: seq<Component>, faults: Faults) returns (r: Outcome)
    requires index < |components| && IsInner(components[index])
    modifies txn
    ensures var (events, outcome) := RunFrom(components, index, faults);
            r == outcome && txn.events == old(txn.events) + events
    decreases |components| - index, 0
  {
    if index in faults.before {
      return Raised(faults.before[index]);
    }
    txn.events := txn.events + [Entered(index)];
    r := RunPipeline(txn, index + 1, components, faults);
    if r.Returned? {
      if index in faults.after {
        r := Raised(faults.after[index]);
      } else {
        txn.events := txn.events + [Left(index)];
      }
    }
  }

  // What every run comes to

  predicate AllInner(components: seq<Component>, from: nat) {
    forall i :: from <= i < |components| ==> IsInner(components[i])
  }

  /** The events of inner components `i..n` when none of them raises: a proper nesting. */
  function Nest(i: nat, n: nat): seq<Event>
    decreases n - i
  {
    if i >= n then [] else [Entered(i)] + Nest(i + 1, n) + [Left(i)]
  }

  /** The fault that decides the run of inner components `i..n`: the first one raised on the way in, or
      else, when the whole way in is clear, the innermost one raised on the way out. */
  function Decisive(i: nat, n: nat, faults: Faults): Option<Exception>
    decreases n - i
  {
    if i >= n then None
    else if i in faults.before then Some(faults.before[i])
    else
      var rest := Decisive(i + 1, n, faults);
      if rest.Some? then rest else if i in faults.after then Some(faults.after[i]) else None
  }

  /** `Decisive` in terms of positions. */
  lemma {:induction false} DecisiveIs(i: nat, n: nat, faults: Faults)
    ensures var d := Decisive(i, n, faults);
            && (d.None? <==> forall k :: i <= k < n ==> k !in faults.before && k !in faults.after)
            && (forall k :: i <= k < n && k in faults.before && (forall j :: i <= j < k ==> j !in faults.before) ==>
                  d == Some(faults.before[k]))
            && (forall k :: (i <= k < n && k in faults.after && (forall j :: i <= j < n ==> j !in faults.before)
                             && (forall j :: k < j < n ==> j !in faults.after)) ==> d == Some(faults.after[k]))
    decreases n - i
  {
    if i < n {
      DecisiveIs(i + 1, n, faults);
      if i !in faults.before {
        forall k | i <= k < n && k in faults.before && (forall j :: i <= j < k ==> j !in faults.before)
          ensures Decisive(i, n, faults) == Some(faults.before[k])
        {
          assert k > i;
          assert forall j :: i + 1 <= j < k ==> j !in faults.before;
        }
      }
    }
  }

  ghost predicate InnerOnly(events: seq<Event>) {
    forall e :: e in events ==> e.Entered? || e.Left?
  }

  lemma {:induction false} InnerRun(components: seq<Component>, i: nat, faults: Faults)
    requires AllInner(components, i)
    ensures var (events, outcome) := RunFrom(components, i, faults);
            var d := Decisive(i, |components|, faults);
            && InnerOnly(events)
            && outcome == (if d.Some? then Raised(d.value) else Returned)
            && (d.None? ==> events == Nest(i, |components|))
    decreases |components| - i
  {
    if i < |components| {
      InnerRun(components, i + 1, faults);
    }
  }

  /** The way in is clear up to component `k`. */
  ghost predicate Reached(i: nat, k: nat, faults: Faults) {
    forall j :: i <= j <= k ==> j !in faults.before
  }

  /** For every pattern of faults, which components are entered and which are left again: a component is entered
      when none raised on the way in, up to and including itself, and it is left when moreover neither it
      nor any inside it raised. */
  lemma {:induction false} InnerEvents(components: seq<Component>, i: nat, faults: Faults, k: nat)
    requires AllInner(components, i)
    ensures var events := RunFrom(components, i, faults).0;
            && (Entered(k) in events <==> i <= k < |components| && Reached(i, k, faults))
            && (Left(k) in events <==> i <= k < |components| && Reached(i, k, faults)
                                       && Decisive(k, |components|, faults).None?)
    decreases |components| - i
  {
    if i < |components| {
      InnerEvents(components, i + 1, faults, k);
      InnerRun(components, i + 1, faults);
      assert i <= k ==> (Reached(i, k, faults) <==> i !in faults.before && Reached(i + 1, k, faults));
    }
  }

  function Terminal(e: Event): bool {
    e.HandlerDone? || e.ErrorPage?
  }

  function TerminalsIn(events: seq<Event>): nat {
    if events == [] then 0 else (if Terminal(events[0]) then 1 else 0) + TerminalsIn(events[1..])
  }

  lemma {:induction false} TerminalsJoin(a: seq<Event>, b: seq<Event>)
    ensures TerminalsIn(a + b) == TerminalsIn(a) + TerminalsIn(b)
  {
    if a == [] {
      assert a + b == b;
    } else {
      assert (a + b)[1..] == a[1..] + b;
      TerminalsJoin(a[1..], b);
    }
  }

  lemma TerminalsOne(e: Event)
    ensures TerminalsIn([e]) == if Terminal(e) then 1 else 0
  {
  }

  lemma {:induction false} NoTerminalInside(events: seq<Event>)
    requires InnerOnly(events)
    ensures TerminalsIn(events) == 0
  {
    if events != [] {
      assert events[0] in events && forall e :: e in events[1..] ==> e in events;
      NoTerminalInside(events[1..]);
    }
  }

  /** The one fault that decides a whole run, if any. */
  function DecisiveFault(components: seq<Component>, faults: Faults): Option<Exception> {
    var inner := Decisive(2, |components|, faults);
    if inner.Some? then inner else if faults.handler.Fails? then Some(faults.handler.error) else None
  }

  /** The shape of every pipeline the server loads. */
  predicate Layered(components: seq<Component>) {
    |components| >= 2 && components[0] == Logger && components[1] == ErrorHandler && AllInner(components, 2)
  }

  /** For every pattern of faults: either nothing raised, and then every inner component has gone in and
      come out again, properly nested and before the endpoint's handler started, and the handler, if
      there is one, has completed; or exactly one error page is served, for the decisive fault. Exactly
      one of the two endings happens, unless nothing raised and the endpoint has no handler. The log
      entry is written, and the run returns, unless the error page itself raises. */
  lemma RunsEndOnce(components: seq<Component>, faults: Faults)
    requires Layered(components)
    ensures var (events, outcome) := RunFrom(components, 0, faults);
            var d := DecisiveFault(components, faults);
            && (TerminalsIn(events) == 1 <==> d.Some? || !faults.handler.NoHandler?)
            && TerminalsIn(events) <= 1
            && (d.None? ==>
                  events == Nest(2, |components|) + Handled(faults) + [Logged] && outcome == Returned)
            && (d.Some? ==>
                  && HandlerDone !in events
                  && ErrorPage(if d.value.HttpError? then d.value.status else 500) in events
                  && (HandlerStarted in events <==> Decisive(2, |components|, faults).None?)
                  && (Logged in events <==> faults.errorPage.None?)
                  && outcome == (if faults.errorPage.Some? then Raised(faults.errorPage.value) else Returned))
  {
    hide RunFrom;
    InnerRun(components, 2, faults);
    var (inner, outcome) := RunFrom(components, 2, faults);
    LastEvents(components, faults);
    NoTerminalInside(inner);
    var ending := if outcome.Raised? then Some(outcome.error) else DecisiveFault([], faults);
    EndingFacts(outcome.Returned?, ending, faults);
    TerminalsJoin(inner, Ending(outcome.Returned?, ending, faults));
  }

  /** The events after the inner components: the handler if it was reached, then what ends the run. */
  function Ending(reached: bool, error: Option<Exception>, faults: Faults): seq<Event> {
    match error
    case None => Handled(faults) + [Logged]
    case Some(e) =>
      (if reached then [HandlerStarted] else []) + [ErrorPage(PageStatus(e))]
      + (if faults.errorPage.None? then [Logged] else [])
  }

  lemma EndingFacts(reached: bool, error: Option<Exception>, faults: Faults)
    ensures var ending := Ending(reached, error, faults);
            && TerminalsIn(ending) == (if error.None? && faults.handler.NoHandler? then 0 else 1)
            && (error.Some? ==> HandlerDone !in ending && ErrorPage(PageStatus(error.value)) in ending
                                && (HandlerStarted in ending <==> reached)
                                && (Logged in ending <==> faults.errorPage.None?))
  {
    hide TerminalsIn;
    TerminalsOne(HandlerStarted);
    TerminalsOne(HandlerDone);
    TerminalsOne(Logged);
    NoTerminalInside([]);
    if error.None? {
      TerminalsJoin(Handled(faults), [Logged]);
      TerminalsJoin([HandlerStarted], [HandlerDone]);
      assert [HandlerStarted] + [HandlerDone] == [HandlerStarted, HandlerDone];
    } else {
      var first := if reached then [HandlerStarted] else [];
      var page := ErrorPage(PageStatus(error.value));
      var last := if faults.errorPage.Some? then [] else [Logged];
      TerminalsOne(page);
      TerminalsJoin(first, [page]);
      TerminalsJoin(first + [page], last);
    }
  }

  lemma LastEvents(components: seq<Component>, faults: Faults)
    requires Layered(components)
    ensures var (inner, outcome) := RunFrom(components, 2, faults);
            var error := if outcome.Raised? then Some(outcome.error) else DecisiveFault([], faults);
            RunFrom(components, 0, faults)
            == (inner + Ending(outcome.Returned?, error, faults),
                if error.Some? && faults.errorPage.Some? then Raised(faults.errorPage.value) else Returned)
  {
    var (inner, outcome) := RunFrom(components, 2, faults);
    var (caught, _) := RunFrom(components, 1, faults);
    var (events, _) := RunFrom(components, 0, faults);
    var error := if outcome.Raised? then Some(outcome.error) else DecisiveFault([], faults);
    if error.Some? {
      var started := if outcome.Returned? then [HandlerStarted] else [];
      assert caught == inner + (started + [ErrorPage(PageStatus(error.value))]);
    } else {
      assert caught == inner + Handled(faults);
    }
    assert events == inner + Ending(outcome.Returned?, error, faults);
  }
}
