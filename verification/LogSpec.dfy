/** What the logger does, seen as operations on the plain sequence of all pushed entries.

    A view is the sequence `pushed`, the position `tail` below which the ring has been read or
    dropped, the positions `taken` out of the ring in the order they were taken, and how many of the
    last of those are still waiting in the batch. */
module LogSpec {
  const RING: nat := 1024
  const BATCH: nat := 10

  /** The source's inline log entry; `context` is rewritten when the entry is built. */
  datatype Entry = Entry(level: string, context: string, message: string, trailer: string)

  function Render(e: Entry, time: string): string {
    "[" + time + "] " + e.level + " " + "[" + e.context + "] " + e.message + e.trailer + "\n"
  }

  datatype View = View(pushed: seq<Entry>, tail: nat, taken: seq<nat>, waiting: nat)

  function Outstanding(v: View): int {
    |v.pushed| - v.tail
  }

  function Pushed(v: View, e: Entry): View {
    v.(pushed := v.pushed + [e])
  }

  /** Where the next pop starts reading: on overrun it drops all but the newest `RING - 1` entries. */
  function Start(v: View): nat {
    if Outstanding(v) >= RING then |v.pushed| - RING + 1 else v.tail
  }

  function Popped(v: View): View {
    if Outstanding(v) <= 0 then v
    else v.(tail := Start(v) + 1, taken := v.taken + [Start(v)])
  }

  function Flushed(v: View): View {
    v.(waiting := 0)
  }

  /** One step of the worker: flush on timeout, then move one entry into the batch and flush if full. */
  function Processed(v: View, timeout: bool): View {
    var u := if v.waiting > 0 && timeout then Flushed(v) else v;
    if Outstanding(u) <= 0 then u
    else
      var p := Popped(u).(waiting := u.waiting + 1);
      if p.waiting >= BATCH then Flushed(p) else p
  }

  /** The final drain: flush the batch, then write what is left one by one. */
  function Stopped(v: View): View
    decreases Outstanding(v)
  {
    if Outstanding(v) <= 0 then Flushed(v) else Stopped(Popped(Flushed(v)))
  }

  predicate Increasing(xs: seq<nat>) {
    forall i, j :: 0 <= i < j < |xs| ==> xs[i] < xs[j]
  }

  predicate Sound(v: View) {
    && v.tail <= |v.pushed|
    && v.waiting <= |v.taken|
    && v.waiting < BATCH
    && Increasing(v.taken)
    && (forall i :: 0 <= i < |v.taken| ==> v.taken[i] < v.tail)
  }

  datatype Op = Push(entry: Entry) | Process(timeout: bool) | Stop

  function Apply(v: View, op: Op): View {
    match op
    case Push(e) => Pushed(v, e)
    case Process(timeout) => Processed(v, timeout)
    case Stop => Stopped(v)
  }

  function Run(v: View, ops: seq<Op>): View
    decreases |ops|
  {
    if ops == [] then v else Run(Apply(v, ops[0]), ops[1..])
  }

  const EMPTY := View([], 0, [], 0)

  /** The positions written to the sinks, in the order written. */
  function Written(v: View): seq<nat>
    requires v.waiting <= |v.taken|
  {
    v.taken[..|v.taken| - v.waiting]
  }

  /** The positions in the batch. */
  function InBatch(v: View): seq<nat>
    requires v.waiting <= |v.taken|
  {
    v.taken[|v.taken| - v.waiting..]
  }

  /** Below the tail and never taken: lost to overrun. */
  predicate Dropped(v: View, p: nat) {
    p < v.tail && p !in v.taken
  }

  function Range(from: nat, to: nat): seq<nat> {
    if from < to then seq(to - from, i requires 0 <= i => from + i) else []
  }

  lemma PoppedSound(v: View)
    requires Sound(v)
    ensures var p := Popped(v);
            && Sound(p) && p.pushed == v.pushed && p.waiting == v.waiting
            && (forall q: nat :: Dropped(p, q) <==> Dropped(v, q) || (v.tail <= q < Start(v) && Outstanding(v) > 0))
  {
    var p := Popped(v);
    if Outstanding(v) > 0 {
      assert forall q :: q in p.taken <==> q in v.taken || q == Start(v);
    }
  }

  lemma RangeStep(from: nat, to: nat, before: seq<nat>)
    requires from < to
    ensures before + [from] + Range(from + 1, to) == before + Range(from, to)
  {
    assert Range(from, to) == [from] + Range(from + 1, to);
  }

  lemma {:induction false} StoppedSound(v: View)
    requires Sound(v)
    ensures var s := Stopped(v);
            && Sound(s) && s.waiting == 0 && s.tail == |s.pushed| && s.pushed == v.pushed
            && s.taken == v.taken + Range(if Outstanding(v) > 0 then Start(v) else v.tail, |v.pushed|)
    decreases Outstanding(v)
  {
    hide Dropped, Range;
    if Outstanding(v) > 0 {
      PoppedSound(Flushed(v));
      StoppedSound(Popped(Flushed(v)));
      RangeStep(Start(v), |v.pushed|, v.taken);
      EmptyRange(|v.pushed|);
    } else {
      EmptyRange(v.tail);
    }
  }

  lemma EmptyRange(p: nat)
    ensures Range(p, p) == []
  {
  }

  /** Whether by a worker step or by a stop, draining drops exactly what lies below `Start`. */
  lemma StoppedDrops(v: View, p: nat)
    requires Sound(v)
    ensures Dropped(Stopped(v), p) <==> Dropped(v, p) || (v.tail <= p < Start(v) && Outstanding(v) > 0)
  {
    hide Stopped;
    StoppedSound(v);
    var from := if Outstanding(v) > 0 then Start(v) else v.tail;
    RangeHas(from, |v.pushed|, p);
    assert p in Stopped(v).taken <==> p in v.taken || p in Range(from, |v.pushed|);
  }

  lemma RangeHas(from: nat, to: nat, p: nat)
    ensures p in Range(from, to) <==> from <= p < to
  {
    if from <= p < to {
      assert Range(from, to)[p - from] == p;
    }
  }

  lemma ProcessedSound(v: View, timeout: bool)
    requires Sound(v)
    ensures var p := Processed(v, timeout);
            && Sound(p) && v.pushed == p.pushed && v.taken <= p.taken && v.tail <= p.tail
            && Written(v) <= Written(p)
  {
    PoppedSound(v);
    PoppedSound(Flushed(v));
  }

  lemma ApplySound(v: View, op: Op)
    requires Sound(v)
    ensures Sound(Apply(v, op))
    ensures v.pushed <= Apply(v, op).pushed && v.taken <= Apply(v, op).taken && v.tail <= Apply(v, op).tail
    ensures Written(v) <= Written(Apply(v, op))
  {
    hide Processed, Stopped;
    match op
    case Push(_) =>
    case Process(timeout) => ProcessedSound(v, timeout);
    case Stop => StoppedSound(v);
  }

  /** What one worker step does. With a timeout everything taken so far is written. It takes one entry when
      something is outstanding and none otherwise; without a timeout it writes nothing until the batch is
      full, and then all of it. */
  lemma StepWrites(v: View, timeout: bool)
    requires Sound(v)
    ensures var p := Processed(v, timeout);
            && Sound(p)
            && (timeout ==> v.taken <= Written(p))
            && |p.taken| == |v.taken| + (if Outstanding(v) > 0 then 1 else 0)
            && (!timeout && (v.waiting + 1 < 10 || Outstanding(v) <= 0) ==> Written(p) == Written(v))
            && (v.waiting + 1 >= 10 && Outstanding(v) > 0 && !timeout ==> Written(p) == p.taken)
  {
    ProcessedSound(v, timeout);
  }

  /** In every schedule of pushes, worker steps, timeouts and stops: what has been written, then the
      batch, then what is outstanding are the non-dropped entries, each once, in push order; so
      pushed = written + batch + dropped + outstanding. The batch never fills up, and what is written
      once is never taken back. */
  lemma {:induction false} EveryEntryOnce(v: View, ops: seq<Op>, p: nat)
    requires Sound(v)
    ensures var e := Run(v, ops);
            && Sound(e) && e.waiting < 10
            && Written(v) <= Written(e)
            && Increasing(Written(e) + InBatch(e) + Range(e.tail, |e.pushed|))
            && (p < |e.pushed| ==>
                  (!Dropped(e, p) <==> p in Written(e) + InBatch(e) + Range(e.tail, |e.pushed|)))
    decreases |ops|
  {
    if ops == [] {
      assert Written(v) + InBatch(v) == v.taken;
      var order := v.taken + Range(v.tail, |v.pushed|);
      if v.tail <= p < |v.pushed| {
        assert order[|v.taken| + (p - v.tail)] == p;
      }
      assert forall q :: q in order <==> q in v.taken || q in Range(v.tail, |v.pushed|);
    } else {
      ApplySound(v, ops[0]);
      EveryEntryOnce(Apply(v, ops[0]), ops[1..], p);
    }
  }

  /** Entries are dropped only by a pop that finds the ring overrun, and then it keeps exactly the
      newest `RING - 1`. */
  lemma DropsOnlyOnOverrun(v: View, op: Op, p: nat)
    requires Sound(v) && !Dropped(v, p) && Dropped(Apply(v, op), p)
    ensures !op.Push? && Outstanding(v) >= 1024
    ensures v.tail <= p < |v.pushed| - 1023
  {
    match op
    case Push(_) =>
    case Process(timeout) =>
      PoppedSound(v);
      PoppedSound(Flushed(v));
      assert forall q: nat :: Dropped(Flushed(v), q) <==> Dropped(v, q);
      var u := if v.waiting > 0 && timeout then Flushed(v) else v;
      assert Dropped(Popped(u), p) <==> Dropped(Apply(v, op), p);
    case Stop =>
      StoppedDrops(v, p);
  }

  /** Every worker step and every stop finds the ring not overrun. */
  predicate KeepsUp(v: View, ops: seq<Op>)
    decreases |ops|
  {
    ops == [] || ((ops[0].Push? || Outstanding(v) < 1024) && KeepsUp(Apply(v, ops[0]), ops[1..]))
  }

  /** Nothing is ever lost if and only if every worker step and stop finds fewer than `RING` entries
      outstanding. */
  lemma {:induction false} NothingLostIff(v: View, ops: seq<Op>)
    requires Sound(v) && v.taken == Range(0, v.tail)
    ensures KeepsUp(v, ops) <==> Run(v, ops).taken == Range(0, Run(v, ops).tail)
    decreases |ops|
  {
    if ops != [] {
      var op, next := ops[0], Apply(v, ops[0]);
      ApplySound(v, op);
      if op.Push? || Outstanding(v) < RING {
        TakenAll(v, op);
        NothingLostIff(next, ops[1..]);
      } else {
        OverrunLoses(v, op);
        StaysLost(next, ops[1..], v.tail);
        var e := Run(v, ops);
        assert Range(0, e.tail)[v.tail] == v.tail;
      }
    }
  }

  /** A worker step or stop that finds the ring overrun loses the entry at the tail. */
  lemma OverrunLoses(v: View, op: Op)
    requires Sound(v) && !op.Push? && Outstanding(v) >= RING
    ensures Dropped(Apply(v, op), v.tail)
  {
    StoppedSound(v);
    PoppedSound(v);
    PoppedSound(Flushed(v));
  }

  lemma TakenAll(v: View, op: Op)
    requires Sound(v) && v.taken == Range(0, v.tail) && (op.Push? || Outstanding(v) < RING)
    ensures Apply(v, op).taken == Range(0, Apply(v, op).tail)
  {
    if op.Stop? {
      StoppedSound(v);
      assert Range(0, |v.pushed|) == Range(0, v.tail) + Range(v.tail, |v.pushed|);
    } else if op.Process? && Outstanding(v) > 0 {
      assert Range(0, v.tail + 1) == Range(0, v.tail) + [v.tail];
    }
  }

  lemma {:induction false} StaysLost(v: View, ops: seq<Op>, p: nat)
    requires Sound(v) && Dropped(v, p)
    ensures Dropped(Run(v, ops), p)
    decreases |ops|
  {
    if ops != [] {
      ApplySound(v, ops[0]);
      StillLost(v, ops[0], p);
      StaysLost(Apply(v, ops[0]), ops[1..], p);
    }
  }

  lemma StillLost(v: View, op: Op, p: nat)
    requires Sound(v) && Dropped(v, p)
    ensures Dropped(Apply(v, op), p)
  {
    StoppedSound(v);
    PoppedSound(v);
    PoppedSound(Flushed(v));
    assert Dropped(Flushed(v), p);
  }

  /** After a stop every sink holds what it held, then the batch, then the newest outstanding entries:
      all of them, or `RING - 1` of them after an overrun. Nothing is left behind. */
  lemma StopDrains(v: View)
    requires Sound(v)
    ensures var s := Stopped(v);
            && Sound(s)
            && Written(s) == Written(v) + InBatch(v)
                             + Range(if Outstanding(v) >= 1024 then |v.pushed| - 1023 else v.tail, |v.pushed|)
            && InBatch(s) == [] && Outstanding(s) == 0
  {
    hide Stopped, Increasing;
    StoppedSound(v);
    var s := Stopped(v);
    assert Written(s) == s.taken;
    assert Written(v) + InBatch(v) == v.taken;
  }

  // What is written

  /** The written text ends its line and tells the entry: two entries written with the same text are written at
      the same time and have the same level, context and message with its trailer. */
  lemma TextTellsEntry(e: Entry, time: string, f: Entry, time': string)
    requires ']' !in time && ']' !in time'
    requires ' ' !in e.level && ' ' !in f.level && ']' !in e.context && ']' !in f.context
    ensures Render(e, time) != "" && Render(e, time)[|Render(e, time)| - 1] == '\n'
    ensures Render(e, time) == Render(f, time') ==>
              && time == time' && e.level == f.level && e.context == f.context
              && e.message + e.trailer == f.message + f.trailer
  {
    if Render(e, time) == Render(f, time') {
      hide Render, AfterTime;
      RenderParts(e, time);
      RenderParts(f, time');
      SameTail("[", time + [']'] + AfterTime(e), time' + [']'] + AfterTime(f));
      FirstWords(time, time', ']', AfterTime(e), AfterTime(f));
      SameRest(e, f);
      SameMessage(e, f);
    }
  }

  /** What stands behind the time, behind the level, and behind the context. */
  function AfterTime(e: Entry): string {
    " " + (e.level + [' '] + AfterLevel(e))
  }

  function AfterLevel(e: Entry): string {
    "[" + (e.context + [']'] + AfterContext(e))
  }

  function AfterContext(e: Entry): string {
    " " + (e.message + e.trailer) + "\n"
  }

  lemma RenderParts(e: Entry, time: string)
    ensures Render(e, time) == "[" + (time + [']'] + AfterTime(e))
  {
  }

  lemma SameRest(e: Entry, f: Entry)
    requires ' ' !in e.level && ' ' !in f.level && ']' !in e.context && ']' !in f.context
    requires AfterTime(e) == AfterTime(f)
    ensures e.level == f.level && e.context == f.context && AfterContext(e) == AfterContext(f)
  {
    hide AfterContext;
    SameTail(" ", e.level + [' '] + AfterLevel(e), f.level + [' '] + AfterLevel(f));
    hide AfterLevel;
    FirstWords(e.level, f.level, ' ', AfterLevel(e), AfterLevel(f));
    SameContext(e, f);
  }

  lemma SameContext(e: Entry, f: Entry)
    requires ']' !in e.context && ']' !in f.context && AfterLevel(e) == AfterLevel(f)
    ensures e.context == f.context && AfterContext(e) == AfterContext(f)
  {
    hide AfterContext;
    SameTail("[", e.context + [']'] + AfterContext(e), f.context + [']'] + AfterContext(f));
    FirstWords(e.context, f.context, ']', AfterContext(e), AfterContext(f));
  }

  lemma SameMessage(e: Entry, f: Entry)
    requires AfterContext(e) == AfterContext(f)
    ensures e.message + e.trailer == f.message + f.trailer
  {
    var u, v := e.message + e.trailer, f.message + f.trailer;
    assert AfterContext(e)[1..|u| + 1] == u && AfterContext(f)[1..|v| + 1] == v;
  }

  lemma SameTail(head: string, x: string, y: string)
    requires head + x == head + y
    ensures x == y
  {
    assert (head + x)[|head|..] == x;
    assert (head + y)[|head|..] == y;
  }

  lemma {:induction false} FirstWords(w: string, z: string, c: char, x: string, y: string)
    requires c !in w && c !in z && w + [c] + x == z + [c] + y
    ensures w == z && x == y
  {
    var s, t := w + [c] + x, z + [c] + y;
    assert (w == "" ==> s[0] == c) && (w != "" ==> s[0] == w[0] && s[1..] == w[1..] + [c] + x);
    assert (z == "" ==> t[0] == c) && (z != "" ==> t[0] == z[0] && t[1..] == z[1..] + [c] + y);
    if w != "" && z != "" {
      FirstWords(w[1..], z[1..], c, x, y);
      assert w == [w[0]] + w[1..] && z == [z[0]] + z[1..];
    } else {
      assert s[1..] == x && t[1..] == y;
    }
  }
}
