/** The logger: a ring of entries, a small batch, and the sinks, all updated in place. Each push and
    each worker step is one atomic step. */
module LoggerModel {
  import opened Machine
  import opened LogSpec

  const MAX_SINKS: nat := 1024

  /** The text of the deliveries `from..end`, the k-th rendered at the k-th reading of the clock. */
  ghost function Text(pushed: seq<Entry>, taken: seq<nat>, clock: nat -> string, from: nat, end: nat): string
    requires end <= |taken| && forall i :: 0 <= i < |taken| ==> taken[i] < |pushed|
    decreases end
  {
    if end <= from then ""
    else Text(pushed, taken, clock, from, end - 1) + Render(pushed[taken[end - 1]], clock(end - 1))
  }

  lemma {:induction false} TextJoin(pushed: seq<Entry>, taken: seq<nat>, clock: nat -> string, a: nat, b: nat, c: nat)
    requires a <= b <= c <= |taken| && forall i :: 0 <= i < |taken| ==> taken[i] < |pushed|
    ensures Text(pushed, taken, clock, a, b) + Text(pushed, taken, clock, b, c) == Text(pushed, taken, clock, a, c)
    decreases c
  {
    hide Render;
    if b == c {
      assert Text(pushed, taken, clock, b, c) == "";
    } else {
      TextJoin(pushed, taken, clock, a, b, c - 1);
    }
  }

  /** Later pushes and deliveries do not change the text already delivered. */
  lemma {:induction false} TextKept(pushed: seq<Entry>, taken: seq<nat>, pushed': seq<Entry>, taken': seq<nat>,
                                    clock: nat -> string, from: nat, end: nat)
    requires pushed <= pushed' && taken <= taken' && end <= |taken|
    requires forall i :: 0 <= i < |taken| ==> taken[i] < |pushed|
    requires forall i :: 0 <= i < |taken'| ==> taken'[i] < |pushed'|
    ensures Text(pushed, taken, clock, from, end) == Text(pushed', taken', clock, from, end)
    decreases end
  {
    hide Render;
    if from < end {
      assert taken'[end - 1] == taken[end - 1] && pushed'[taken[end - 1]] == pushed[taken[end - 1]];
      TextKept(pushed, taken, pushed', taken', clock, from, end - 1);
    }
  }

  lemma SlotsDiffer(p: nat, q: nat)
    requires p < q < p + RING
    ensures p % RING != q % RING
  {
  }

  class Logger {
    const logBuffer: array<Option<Entry>>
    var head: nat
    var tail: nat
    const batch: array<Option<Entry>>
    var entries: nat
    const sinks: array<string>
    var sinkCount: nat

    /** The successive readings of the wall clock, and how many have been taken. */
    const clock: nat -> string
    var builds: nat

    ghost var pushed: seq<Entry>
    ghost var taken: seq<nat>
    /** The number of entries written before each sink was added. */
    ghost var since: seq<nat>

    constructor (clock: nat -> string)
      ensures Valid() && View() == EMPTY && sinkCount == 0 && this.clock == clock
      ensures fresh(logBuffer) && fresh(batch) && fresh(sinks)
    {
      logBuffer := new Option<Entry>[RING](_ => None);
      batch := new Option<Entry>[BATCH](_ => None);
      sinks := new string[MAX_SINKS](_ => "");
      this.clock := clock;
      head, tail, entries, sinkCount, builds := 0, 0, 0, 0, 0;
      pushed, taken, since := [], [], [];
    }

    ghost function View(): View
      reads this
    {
      LogSpec.View(pushed, tail, taken, entries)
    }

    /** The ring holds the newest entries that can still be popped, by position modulo its size. */
    ghost predicate RingHolds()
      reads this`head, this`tail, this`pushed, logBuffer
    {
      && logBuffer.Length == RING && head == |pushed| && tail <= head
      && forall p :: tail <= p < head && head - RING <= p ==> logBuffer[p % RING] == Some(pushed[p])
    }

    /** The batch holds the last entries taken, not yet built. */
    ghost predicate BatchHolds()
      reads this`entries, this`builds, this`taken, this`tail, this`pushed, batch
    {
      && batch.Length == BATCH && entries <= BATCH && entries <= |taken|
      && builds == |taken| - entries
      && Increasing(taken)
      && (forall i :: 0 <= i < |taken| ==> taken[i] < tail && taken[i] < |pushed|)
      && forall i :: 0 <= i < entries ==> batch[i] == Some(pushed[taken[builds + i]])
    }

    /** Every sink holds each entry written since it was added, built exactly once, in order. */
    ghost predicate SinksHold()
      requires BatchHolds()
      reads this, batch, sinks
    {
      && sinks.Length == MAX_SINKS && sinkCount <= MAX_SINKS && |since| == sinkCount
      && forall i :: 0 <= i < sinkCount ==>
           since[i] <= builds && sinks[i] == Text(pushed, taken, clock, since[i], builds)
    }

    ghost predicate Consistent()
      reads this, logBuffer, batch, sinks
    {
      logBuffer != batch && RingHolds() && BatchHolds() && SinksHold()
    }

    ghost predicate Valid()
      reads this, logBuffer, batch, sinks
    {
      Consistent() && entries < BATCH
    }

    /** Between steps each sink holds exactly the entries written since it was added. */
    lemma SinkHoldsWritten(i: nat)
      requires Valid() && i < sinkCount
      ensures var written := Written(View());
              && since[i] <= |written|
              && (forall j :: 0 <= j < |written| ==> written[j] < |pushed|)
              && sinks[i] == Text(pushed, written, clock, since[i], |written|)
    {
      TextKept(pushed, Written(View()), pushed, taken, clock, since[i], builds);
    }

    method AddSink()
      requires Valid()
      modifies this`sinkCount, this`since, sinks
      ensures Valid() && View() == old(View())
      ensures sinkCount == if old(sinkCount) < 1024 then old(sinkCount) + 1 else old(sinkCount)
      ensures since == old(since) + if old(sinkCount) < 1024 then [|Written(View())|] else []
    {
      if sinkCount >= MAX_SINKS {
        return;
      }
      sinks[sinkCount] := "";
      sinkCount := sinkCount + 1;
      since := since + [builds];
    }

    method Push(entry: Entry)
      requires Valid()
      modifies this`head, this`pushed, logBuffer
      ensures Valid() && View() == Pushed(old(View()), entry)
    {
      var pos := head;
      head := head + 1;
      logBuffer[pos % RING] := Some(entry);
      forall p | tail <= p < pos && head - RING <= p
        ensures logBuffer[p % RING] == Some(pushed[p])
      {
        SlotsDiffer(p, pos);
      }
      pushed := pushed + [entry];
      forall i | 0 <= i < sinkCount
        ensures sinks[i] == Text(pushed, taken, clock, since[i], builds)
      {
        TextKept(old(pushed), taken, pushed, taken, clock, since[i], builds);
      }
    }

    /** Null only when nothing is outstanding; on overrun all but the newest `RING - 1` are skipped. */
    method Pop() returns (r: Option<Entry>)
      requires Consistent()
      modifies this`tail, logBuffer
      ensures Consistent()
      ensures r.None? <==> Outstanding(old(View())) == 0
      ensures tail <= |pushed|
      ensures r.Some? ==> tail == Start(old(View())) + 1 && TakenNext(r.value)
      ensures r.None? ==> tail == old(tail)
    {
      var currTail, currHead := tail, head;
      if currHead - currTail >= RING {
        tail := currHead - RING + 1;
        currTail := tail;
      }
      if currTail >= currHead {
        return None;
      }
      tail := tail + 1;
      r := logBuffer[currTail % RING];
      logBuffer[currTail % RING] := None;
      forall p | tail <= p < head && head - RING <= p
        ensures logBuffer[p % RING] == Some(pushed[p])
      {
        SlotsDiffer(currTail, p);
      }
    }

    /** One entry's `build`: the text, and the entry with its context rewritten. */
    method Build(entry: Entry) returns (text: string, built: Entry)
      modifies this`builds
      ensures builds == old(builds) + 1 && text == Render(entry, clock(old(builds)))
      ensures built == entry.(context := "[" + entry.context + "] ")
    {
      var time := clock(builds);
      builds := builds + 1;
      built := entry.(context := "[" + entry.context + "] ");
      text := "[" + time + "] " + built.level + " " + built.context + built.message + built.trailer + "\n";
    }

    method WriteAll(text: string)
      requires sinkCount <= sinks.Length
      modifies sinks
      ensures forall i :: 0 <= i < sinkCount ==> sinks[i] == old(sinks[i]) + text
    {
      for i := 0 to sinkCount
        invariant forall j :: 0 <= j < i ==> sinks[j] == old(sinks[j]) + text
        invariant forall j :: i <= j < sinkCount ==> sinks[j] == old(sinks[j])
      {
        sinks[i] := sinks[i] + text;
      }
    }

    /** Builds every entry of the batch once, in order. */
    method BuildBatch() returns (logs: string)
      requires BatchHolds()
      modifies this`builds, batch
      ensures builds == |taken| && logs == Text(pushed, taken, clock, old(builds), builds)
    {
      hide Render;
      logs := "";
      ghost var first := builds;
      for i := 0 to entries
        invariant builds == first + i
        invariant logs == Text(pushed, taken, clock, first, builds)
        invariant forall j :: i <= j < entries ==> batch[j] == Some(pushed[taken[first + j]])
      {
        var text, built := Build(batch[i].value);
        batch[i] := Some(built);
        logs := logs + text;
      }
    }

    method Flush()
      requires Consistent()
      modifies this`entries, this`builds, batch, sinks
      ensures Valid() && View() == Flushed(old(View()))
    {
      hide Render, Text;
      ghost var first := builds;
      var logs := BuildBatch();
      WriteAll(logs);
      entries := 0;
      forall i | 0 <= i < sinkCount
        ensures sinks[i] == Text(pushed, taken, clock, since[i], builds)
      {
        TextJoin(pushed, taken, clock, since[i], first, builds);
      }
    }

    /** The entry just popped goes to the end of the batch. */
    method AddToBatch(entry: Entry)
      requires Valid() && TakenNext(entry)
      modifies this`entries, this`taken, batch
      ensures Consistent() && View() == old(View()).(taken := old(taken) + [tail - 1], waiting := old(entries) + 1)
    {
      batch[entries] := Some(entry);
      entries := entries + 1;
      taken := taken + [tail - 1];
      forall i | 0 <= i < sinkCount
        ensures sinks[i] == Text(pushed, taken, clock, since[i], builds)
      {
        TextKept(pushed, old(taken), pushed, taken, clock, since[i], builds);
      }
    }

    /** The entry just popped goes to every sink at once. */
    method WriteEntry(entry: Entry)
      requires Valid() && entries == 0 && TakenNext(entry)
      modifies this`builds, this`taken, sinks
      ensures Valid() && View() == old(View()).(taken := old(taken) + [tail - 1])
    {
      hide RingHolds, Render;
      var log, _ := Build(entry);
      WriteAll(log);
      taken := taken + [tail - 1];
      forall i | 0 <= i < sinkCount
        ensures sinks[i] == Text(pushed, taken, clock, since[i], builds)
      {
        TextKept(pushed, old(taken), pushed, taken, clock, since[i], builds - 1);
      }
    }

    /** `entry` is the one at the position below the tail, and nothing from there on has been taken. */
    ghost predicate TakenNext(entry: Entry)
      reads this
    {
      && 0 < tail <= |pushed| && pushed[tail - 1] == entry
      && forall i :: 0 <= i < |taken| ==> taken[i] < tail - 1
    }

    /** After a step with a timeout every sink holds every entry that had been taken since it was added. */
    method ProcessBatch(timeout: bool)
      requires Valid()
      modifies this`tail, this`entries, this`builds, this`taken, logBuffer, batch, sinks
      ensures Valid() && View() == Processed(old(View()), timeout)
      ensures timeout ==> old(taken) <= taken
      ensures timeout ==> forall i :: 0 <= i < sinkCount ==>
                Text(pushed, taken, clock, since[i], |old(taken)|) <= sinks[i]
    {
      hide RingHolds, BatchHolds, SinksHold;
      ghost var start := View();
      SoundView();
      if entries > 0 && timeout {
        Flush();
      }
      ghost var v := View();
      var entry := Pop();
      if entry.None? {
        TakenWritten(start, timeout);
        return;
      }
      AddToBatch(entry.value);
      assert View() == Popped(v).(waiting := v.waiting + 1);
      if entries >= BATCH {
        Flush();
      }
      TakenWritten(start, timeout);
    }

    lemma SoundView()
      requires Valid()
      ensures LogSpec.Sound(View())
    {
    }

    /** What had been taken before a step with a timeout is in the sinks after it. */
    lemma TakenWritten(start: View, timeout: bool)
      requires Valid() && LogSpec.Sound(start) && View() == Processed(start, timeout)
      ensures timeout ==> start.taken <= taken
      ensures timeout ==> forall i :: 0 <= i < sinkCount ==>
                Text(pushed, taken, clock, since[i], |start.taken|) <= sinks[i]
    {
      StepWrites(start, timeout);
      if timeout {
        forall i | 0 <= i < sinkCount
          ensures Text(pushed, taken, clock, since[i], |start.taken|) <= sinks[i]
        {
          if since[i] <= |start.taken| {
            TextJoin(pushed, taken, clock, since[i], |start.taken|, builds);
          }
        }
      }
    }

    /** The worker has stopped: flush the batch, then write what is left one entry at a time. */
    method StopAndFlush()
      requires Valid()
      modifies this`tail, this`entries, this`builds, this`taken, logBuffer, batch, sinks
      ensures Valid() && View() == Stopped(old(View()))
    {
      hide RingHolds, BatchHolds, SinksHold;
      if entries > 0 {
        Flush();
      }
      while true
        invariant Valid() && entries == 0
        invariant Stopped(View()) == Stopped(old(View()))
        decreases Outstanding(View())
      {
        ghost var v := View();
        var entry := Pop();
        if entry.None? {
          break;
        }
        WriteEntry(entry.value);
        assert View() == Popped(v);
      }
    }
  }
}
