/** Writing a whole buffer to a socket with retries, and streaming a file through it. The socket is an
    arbitrary finite script of outcomes; what it really sent is kept in `wire`. */
module Transfer {
  import opened Machine

  datatype ErrorCode =
    | Success
    | ConnectionReset | BrokenPipe | Eof
    | BadDescriptor | AddressInUse
    | WouldBlock | TryAgain | NetworkUnreachable | HostUnreachable | ConnectionRefused | TimedOut | NoBufferSpace
    | AccessDenied
    | OtherError(value: int)

  predicate IsClientDisconnect(ec: ErrorCode) {
    ec in {ConnectionReset, BrokenPipe, Eof}
  }

  predicate IsPermanentFailure(ec: ErrorCode) {
    ec in {BadDescriptor, AddressInUse}
  }

  predicate IsRetryable(ec: ErrorCode) {
    ec in {WouldBlock, TryAgain, NetworkUnreachable, HostUnreachable, ConnectionRefused, TimedOut, NoBufferSpace}
  }

  const OK := 200

  function ErrorToStatus(ec: ErrorCode): int {
    if ec.Success? then OK
    else if IsClientDisconnect(ec) then 499
    else if ec.AccessDenied? then 403
    else if IsPermanentFailure(ec) then 500
    else if ec.NoBufferSpace? then 507
    else if ec.TimedOut? then 504
    else 503
  }

  predicate IsSuccessCode(status: int) {
    200 <= status < 400
  }

  const MAX_RETRIES := 3
  const FIRST_RETRY := 1

  function PowerOfTwo(n: nat): nat {
    if n == 0 then 1 else 2 * PowerOfTwo(n - 1)
  }

  /** The exponential delay in milliseconds before jitter: 50 * 2^min(attempt, 6), at most 2000. */
  function ExponentialDelay(attempt: nat): nat {
    Min(2000, 50 * PowerOfTwo(Min(attempt, 6)))
  }

  /** `jitter` is the random number drawn, within a tenth of the delay either way. */
  function Backoff(ec: ErrorCode, attempt: nat, jitter: int): int
    requires -(ExponentialDelay(attempt) / 10) <= jitter <= ExponentialDelay(attempt) / 10
  {
    if ec.Success? || IsClientDisconnect(ec) || IsPermanentFailure(ec) then 0
    else if ec.NoBufferSpace? then 1000 * attempt
    else ExponentialDelay(attempt) + jitter
  }

  /** One answer of the socket: an error code, how many bytes it took (cut off at what was offered),
      and the dice for the backoff that may follow. */
  datatype Outcome = Outcome(ec: ErrorCode, taken: nat, dice: int)

  function Jitter(o: Outcome, attempt: nat): (j: int)
    ensures -(ExponentialDelay(attempt) / 10) <= j <= ExponentialDelay(attempt) / 10
  {
    var range := ExponentialDelay(attempt) / 10;
    if o.dice < -range then -range else if o.dice > range then range else o.dice
  }

  /** The result of writing a buffer. A write still waiting when the script ends is pending. */
  datatype Status = Done(status: int, bytes: nat) | Pending

  /** What a run of the write loop comes to: the status, the bytes that reached the wire, the retryable
      errors met, the time slept, and how much of the script was used. */
  datatype Trace = Trace(status: Status, wired: nat, retries: nat, slept: nat, used: nat)

  /** The write loop on `left` unsent bytes with `sent` counted, at retry counter `retry`. */
  function WriteAll(left: nat, sent: nat, retry: nat, script: seq<Outcome>): Trace
    decreases |script|
  {
    if left == 0 then Trace(Done(OK, sent), 0, 0, 0, 0)
    else if script == [] then Trace(Pending, 0, 0, 0, 0)
    else
      var o := script[0];
      var n := Min(o.taken, left);
      if IsPermanentFailure(o.ec) || retry > MAX_RETRIES then Trace(Done(ErrorToStatus(o.ec), sent), n, 0, 0, 1)
      else
        var again := IsRetryable(o.ec);
        var t := WriteAll(left - n, sent + n, if again then retry + 1 else retry, script[1..]);
        var delay := if again then Backoff(o.ec, retry, Jitter(o, retry)) else 0;
        Trace(t.status, n + t.wired, t.retries + (if again then 1 else 0),
              t.slept + (if delay > 0 then delay else 0), t.used + 1)
  }

  /** `co_write_all` on a buffer of `size` bytes. */
  function Written(size: nat, script: seq<Outcome>): Trace {
    WriteAll(size, 0, FIRST_RETRY, script)
  }

  // What every run of the loop keeps

  lemma BackoffBounded(ec: ErrorCode, attempt: nat, jitter: int)
    requires 1 <= attempt <= MAX_RETRIES
    requires -(ExponentialDelay(attempt) / 10) <= jitter <= ExponentialDelay(attempt) / 10
    ensures Backoff(ec, attempt, jitter) <= 1000 * attempt
    ensures IsRetryable(ec) ==> Backoff(ec, attempt, jitter) > 0
  {
    assert PowerOfTwo(1) == 2 && PowerOfTwo(2) == 4 && PowerOfTwo(3) == 8;
  }

  /** The delays in full, and the codes by name. */
  lemma BackoffByCode(ec: ErrorCode, attempt: nat, jitter: int)
    requires -(ExponentialDelay(attempt) / 10) <= jitter <= ExponentialDelay(attempt) / 10
    ensures ExponentialDelay(attempt) == (if attempt == 0 then 50 else if attempt == 1 then 100
                                          else if attempt == 2 then 200 else if attempt == 3 then 400
                                          else if attempt == 4 then 800 else if attempt == 5 then 1600 else 2000)
    ensures ec.Success? || ec.ConnectionReset? || ec.BrokenPipe? || ec.Eof? || ec.BadDescriptor? || ec.AddressInUse? ==>
              Backoff(ec, attempt, jitter) == 0
    ensures ec.NoBufferSpace? ==> Backoff(ec, attempt, jitter) == 1000 * attempt
    ensures ec.WouldBlock? || ec.TryAgain? || ec.NetworkUnreachable? || ec.HostUnreachable? || ec.ConnectionRefused?
            || ec.TimedOut? || ec.AccessDenied? || ec.OtherError? ==>
              Backoff(ec, attempt, jitter) == ExponentialDelay(attempt) + jitter
  {
    assert PowerOfTwo(1) == 2 && PowerOfTwo(2) == 4 && PowerOfTwo(3) == 8;
    assert PowerOfTwo(4) == 16 && PowerOfTwo(5) == 32 && PowerOfTwo(6) == 64;
  }

  /** The longest sleep still possible at a retry counter. */
  function SleepLeft(retry: nat): nat
    decreases MAX_RETRIES + 1 - retry
  {
    if retry > MAX_RETRIES then 0 else 1000 * retry + SleepLeft(retry + 1)
  }

  lemma {:induction false} LoopBounds(left: nat, sent: nat, retry: nat, script: seq<Outcome>)
    requires 1 <= retry <= MAX_RETRIES + 1
    ensures var t := WriteAll(left, sent, retry, script);
            && t.wired <= left && t.used <= |script|
            && t.retries <= MAX_RETRIES + 1 - retry
            && t.slept <= SleepLeft(retry)
            && (t.status.Done? ==> t.status.bytes <= sent + t.wired)
    decreases |script|
  {
    hide Backoff, Jitter, ErrorToStatus;
    if left > 0 && script != [] {
      var o := script[0];
      var n := Min(o.taken, left);
      if !IsPermanentFailure(o.ec) && retry <= MAX_RETRIES {
        LoopBounds(left - n, sent + n, if IsRetryable(o.ec) then retry + 1 else retry, script[1..]);
        BackoffBounded(o.ec, retry, Jitter(o, retry));
      }
    }
  }

  /** Whatever the socket does, the wire gets at most the buffer and at least what is counted, there
      are at most three backoffs, and they sleep at most six seconds altogether. */
  lemma WriteBounds(size: nat, script: seq<Outcome>)
    ensures var t := Written(size, script);
            && t.wired <= size && t.retries <= 3 && t.slept <= 6000
            && (t.status.Done? ==> t.status.bytes <= t.wired)
  {
    LoopBounds(size, 0, FIRST_RETRY, script);
    assert SleepLeft(4) == 0 && SleepLeft(3) == 3000 && SleepLeft(2) == 5000 && SleepLeft(1) == 6000;
  }

  // What a script does to the loop, read off the script alone

  function RetryablesIn(script: seq<Outcome>): nat {
    if script == [] then 0 else (if IsRetryable(script[0].ec) then 1 else 0) + RetryablesIn(script[1..])
  }

  function TakenIn(script: seq<Outcome>): nat {
    if script == [] then 0 else script[0].taken + TakenIn(script[1..])
  }

  predicate NoPermanentIn(script: seq<Outcome>) {
    forall i :: 0 <= i < |script| ==> !IsPermanentFailure(script[i].ec)
  }

  /** The part before `k`, one outcome at a time. */
  lemma PartBefore(script: seq<Outcome>, k: nat)
    requires 0 < k <= |script|
    ensures var part, rest := script[..k], script[1..][..k - 1];
            && RetryablesIn(part) == (if IsRetryable(script[0].ec) then 1 else 0) + RetryablesIn(rest)
            && TakenIn(part) == script[0].taken + TakenIn(rest)
            && (NoPermanentIn(part) <==> !IsPermanentFailure(script[0].ec) && NoPermanentIn(rest))
  {
    var part, rest := script[..k], script[1..][..k - 1];
    assert part[1..] == rest;
    assert part == [script[0]] + rest;
  }

  lemma {:induction false} RetryableCounts(script: seq<Outcome>, i: nat)
    requires i < |script| && IsRetryable(script[i].ec)
    ensures RetryablesIn(script) >= 1
  {
    if i > 0 {
      RetryableCounts(script[1..], i - 1);
    }
  }

  lemma {:induction false} RetryablesSplit(script: seq<Outcome>, k: nat)
    requires k <= |script|
    ensures RetryablesIn(script) == RetryablesIn(script[..k]) + RetryablesIn(script[k..])
  {
    if k == 0 {
      assert script[0..] == script;
    } else {
      RetryablesSplit(script[1..], k - 1);
      PartBefore(script, k);
      assert script[1..][k - 1..] == script[k..];
    }
  }

  // When OK is returned uncounted

  /** Outcome `k` answers the attempt that follows the last retry, succeeds, and meets unsent bytes. */
  predicate MissesAt(left: nat, retry: nat, script: seq<Outcome>, k: nat)
    requires k < |script|
  {
    && script[k].ec.Success?
    && retry + RetryablesIn(script[..k]) == MAX_RETRIES + 1 && (k == 0 || IsRetryable(script[k - 1].ec))
    && NoPermanentIn(script[..k]) && TakenIn(script[..k]) < left
  }

  predicate Misses(left: nat, retry: nat, script: seq<Outcome>) {
    exists k :: 0 <= k < |script| && MissesAt(left, retry, script, k)
  }

  /** With retries used up, only the very next outcome can miss. */
  lemma MissesNow(left: nat, retry: nat, script: seq<Outcome>)
    requires left > 0 && retry == MAX_RETRIES + 1 && script != []
    ensures Misses(left, retry, script) <==> script[0].ec.Success?
  {
    assert script[..0] == [];
    if script[0].ec.Success? {
      assert MissesAt(left, retry, script, 0);
    }
    forall k | 0 < k < |script|
      ensures !MissesAt(left, retry, script, k)
    {
      if IsRetryable(script[k - 1].ec) {
        RetryableCounts(script[..k], k - 1);
      }
    }
  }

  /** Before that, an outcome that lets the loop go on does not change whether a miss lies ahead. */
  lemma MissesLater(left: nat, retry: nat, script: seq<Outcome>)
    requires left > 0 && script != [] && 1 <= retry <= MAX_RETRIES
    ensures var n := Min(script[0].taken, left);
            Misses(left, retry, script) <==>
              && !IsPermanentFailure(script[0].ec)
              && Misses(left - n, if IsRetryable(script[0].ec) then retry + 1 else retry, script[1..])
  {
    hide IsRetryable, IsPermanentFailure, NoPermanentIn, TakenIn;
    var n := Min(script[0].taken, left);
    var retry' := if IsRetryable(script[0].ec) then retry + 1 else retry;
    assert script[..0] == [];
    assert !MissesAt(left, retry, script, 0);
    forall k | 0 < k < |script|
      ensures MissesAt(left, retry, script, k) <==>
                !IsPermanentFailure(script[0].ec) && MissesAt(left - n, retry', script[1..], k - 1)
    {
      PartBefore(script, k);
      NoneBefore(script[1..]);
    }
    if !IsPermanentFailure(script[0].ec) && Misses(left - n, retry', script[1..]) {
      var j :| 0 <= j < |script[1..]| && MissesAt(left - n, retry', script[1..], j);
      assert MissesAt(left, retry, script, j + 1);
    }
  }

  lemma NoneBefore(script: seq<Outcome>)
    ensures RetryablesIn(script[..0]) == 0 && TakenIn(script[..0]) == 0 && NoPermanentIn(script[..0])
  {
  }

  lemma NothingMissed(left: nat, retry: nat, script: seq<Outcome>)
    requires left == 0 || script == []
    ensures !Misses(left, retry, script)
  {
  }

  lemma {:induction false} LoopCountsIff(left: nat, sent: nat, retry: nat, script: seq<Outcome>)
    requires 1 <= retry <= MAX_RETRIES + 1
    ensures var t := WriteAll(left, sent, retry, script);
            var ok := t.status.Done? && t.status.status == OK;
            && (ok && t.status.bytes != sent + left <==> Misses(left, retry, script))
            && (ok && t.status.bytes == sent + left ==> t.wired == left)
            && (Misses(left, retry, script) ==> t.retries == MAX_RETRIES + 1 - retry)
    decreases |script|
  {
    hide Backoff, Jitter, Misses;
    if left == 0 || script == [] {
      NothingMissed(left, retry, script);
    } else if retry > MAX_RETRIES {
      MissesNow(left, retry, script);
    } else {
      MissesLater(left, retry, script);
      var o := script[0];
      var n := Min(o.taken, left);
      if !IsPermanentFailure(o.ec) {
        LoopCountsIff(left - n, sent + n, if IsRetryable(o.ec) then retry + 1 else retry, script[1..]);
      }
    }
  }

  /** The attempt right after the third retryable error succeeds, with no permanent failure before it
      and bytes still unsent. */
  predicate Miscounts(size: nat, script: seq<Outcome>) {
    exists k :: 0 < k < |script| && MiscountsAt(size, script, k)
  }

  predicate MiscountsAt(size: nat, script: seq<Outcome>, k: nat)
    requires 0 < k < |script|
  {
    && script[k].ec.Success? && IsRetryable(script[k - 1].ec) && RetryablesIn(script[..k]) == 3
    && NoPermanentIn(script[..k]) && TakenIn(script[..k]) < size
  }

  /** OK is returned without all bytes counted if and only if the script miscounts; so never with fewer
      than three retryable errors. In every other OK the whole buffer was sent and counted. */
  lemma OkCountsAllIff(size: nat, script: seq<Outcome>)
    ensures var t := Written(size, script);
            var ok := t.status.Done? && t.status.status == OK;
            && (ok && t.status.bytes != size <==> Miscounts(size, script))
            && (ok && t.status.bytes == size ==> t.wired == size)
            && (Miscounts(size, script) ==> t.retries == 3)
  {
    hide NoPermanentIn, TakenIn, IsRetryable;
    LoopCountsIff(size, 0, FIRST_RETRY, script);
    NoneBefore(script);
    assert forall k :: 0 < k < |script| ==> (MissesAt(size, FIRST_RETRY, script, k) <==> MiscountsAt(size, script, k));
    assert |script| > 0 ==> !MissesAt(size, FIRST_RETRY, script, 0);
  }

  /** Three busy answers and then a complete write: everything is on the wire, OK is returned, and no
      byte is counted. */
  lemma OkCanMiscount(size: nat)
    requires size > 0
    ensures var busy := Outcome(WouldBlock, 0, 0);
            var t := Written(size, [busy, busy, busy, Outcome(Success, size, 0)]);
            t.status == Done(OK, 0) && t.wired == size && t.retries == 3
  {
    hide Backoff, Jitter;
    var busy, last := Outcome(WouldBlock, 0, 0), Outcome(Success, size, 0);
    var script := [busy, busy, busy, last];
    assert script[1..] == [busy, busy, last] && script[1..][1..] == [busy, last] && script[1..][1..][1..] == [last];
    assert WriteAll(size, 0, 4, [last]) == Trace(Done(OK, 0), size, 0, 0, 1);
    assert WriteAll(size, 0, 3, [busy, last]).status == Done(OK, 0);
    assert WriteAll(size, 0, 2, [busy, busy, last]).status == Done(OK, 0);
  }

  /** Only the attempt right after the third retry decides: a success behind any other outcome comes too
      late, for the loop has already returned that outcome's status. */
  lemma LateSuccess(size: nat)
    requires size > 0
    ensures var busy := Outcome(WouldBlock, 0, 0);
            Written(size, [busy, busy, busy, Outcome(OtherError(1), 0, 0), Outcome(Success, size, 0)]).status
            == Done(503, 0)
  {
    hide Backoff, Jitter;
    var busy, other, last := Outcome(WouldBlock, 0, 0), Outcome(OtherError(1), 0, 0), Outcome(Success, size, 0);
    var script := [busy, busy, busy, other, last];
    assert script[1..] == [busy, busy, other, last];
    assert script[1..][1..] == [busy, other, last] && script[1..][1..][1..] == [other, last];
    assert WriteAll(size, 0, 4, [other, last]).status == Done(503, 0);
    assert WriteAll(size, 0, 3, [busy, other, last]).status == Done(503, 0);
    assert WriteAll(size, 0, 2, [busy, busy, other, last]).status == Done(503, 0);
  }

  // When the loop ends

  /** Some outcome answers an attempt made with all retries used up. */
  predicate RunsOut(retry: nat, script: seq<Outcome>) {
    exists k :: 0 <= k < |script| && retry + RetryablesIn(script[..k]) > MAX_RETRIES
  }

  lemma RunsOutLater(retry: nat, script: seq<Outcome>)
    requires script != [] && retry <= MAX_RETRIES
    ensures RunsOut(retry, script) <==> RunsOut(if IsRetryable(script[0].ec) then retry + 1 else retry, script[1..])
  {
    hide IsRetryable;
    var retry' := if IsRetryable(script[0].ec) then retry + 1 else retry;
    NoneBefore(script);
    forall k | 0 < k < |script|
      ensures retry + RetryablesIn(script[..k]) == retry' + RetryablesIn(script[1..][..k - 1])
    {
      PartBefore(script, k);
    }
    if RunsOut(retry', script[1..]) {
      var j :| 0 <= j < |script[1..]| && retry' + RetryablesIn(script[1..][..j]) > MAX_RETRIES;
      assert retry + RetryablesIn(script[..j + 1]) > MAX_RETRIES;
    }
  }

  lemma {:induction false} LoopEndsIff(left: nat, sent: nat, retry: nat, script: seq<Outcome>)
    requires 1 <= retry <= MAX_RETRIES + 1
    ensures WriteAll(left, sent, retry, script).status.Done? <==>
              TakenIn(script) >= left || !NoPermanentIn(script) || RunsOut(retry, script)
    decreases |script|
  {
    hide Backoff, Jitter, ErrorToStatus, RunsOut;
    if script == [] {
      NothingRunsOut(retry);
    } else if retry > MAX_RETRIES {
      RunsOutNow(retry, script);
    } else {
      RunsOutLater(retry, script);
      var o := script[0];
      var n := Min(o.taken, left);
      LoopEndsIff(left - n, sent + n, if IsRetryable(o.ec) then retry + 1 else retry, script[1..]);
      assert script == [o] + script[1..];
    }
  }

  lemma NothingRunsOut(retry: nat)
    ensures !RunsOut(retry, [])
  {
  }

  lemma RunsOutNow(retry: nat, script: seq<Outcome>)
    requires script != [] && retry > MAX_RETRIES
    ensures RunsOut(retry, script)
  {
    NoneBefore(script);
  }

  /** The loop ends if and only if the outcomes take the whole buffer between them, or one of them is a
      permanent failure, or one of them comes after three retryable errors. */
  lemma WriteEndsIff(size: nat, script: seq<Outcome>)
    ensures Written(size, script).status.Done? <==>
              || TakenIn(script) >= size
              || (exists i :: 0 <= i < |script| && IsPermanentFailure(script[i].ec))
              || (exists k :: 0 <= k < |script| && RetryablesIn(script[..k]) >= 3)
  {
    LoopEndsIff(size, 0, FIRST_RETRY, script);
  }

  /** Outcomes that let the loop move on: those that are neither retryable nor permanent take a byte. */
  predicate Moves(script: seq<Outcome>) {
    forall i :: 0 <= i < |script| && !IsRetryable(script[i].ec) && !IsPermanentFailure(script[i].ec) ==>
      script[i].taken >= 1
  }

  lemma {:induction false} MovesTakes(script: seq<Outcome>)
    requires Moves(script) && NoPermanentIn(script)
    ensures TakenIn(script) + RetryablesIn(script) >= |script|
  {
    if script != [] {
      assert forall i :: 0 <= i < |script[1..]| ==> script[1..][i] == script[i + 1];
      MovesTakes(script[1..]);
    }
  }

  /** When every outcome that is neither retryable nor permanent moves at least one byte, the loop ends
      within `size + 3` writes: one for each byte, and three retries. */
  lemma WriteEnds(size: nat, script: seq<Outcome>)
    requires Moves(script) && |script| >= size + 3
    ensures Written(size, script).status.Done?
  {
    WriteEndsIff(size, script);
    if NoPermanentIn(script) {
      var last := |script| - 1;
      MovesTakes(script);
      LastOne(script);
      if RetryablesIn(script[..last]) < 3 {
        assert RetryablesIn(script) <= 3;
      }
    }
  }

  /** The regime in which writing cannot go wrong: fewer than three retryable errors, no permanent failure,
      every other outcome moves at least one byte, and enough outcomes for `size` bytes. */
  predicate Delivers(size: nat, script: seq<Outcome>) {
    && RetryablesIn(script) < 3 && NoPermanentIn(script) && Moves(script)
    && |script| >= size + RetryablesIn(script)
  }

  lemma {:induction false} LoopDelivers(left: nat, sent: nat, retry: nat, script: seq<Outcome>)
    requires retry + RetryablesIn(script) <= MAX_RETRIES && NoPermanentIn(script) && Moves(script)
    requires |script| >= left + RetryablesIn(script)
    ensures var t := WriteAll(left, sent, retry, script);
            && t.status == Done(OK, sent + left) && t.wired == left
            && t.used <= |script| && t.used <= left + RetryablesIn(script[..t.used])
    decreases |script|
  {
    hide Backoff, Jitter, ErrorToStatus, IsRetryable, IsPermanentFailure;
    if left > 0 {
      var o := script[0];
      var n := Min(o.taken, left);
      assert forall i :: 0 <= i < |script[1..]| ==> script[1..][i] == script[i + 1];
      LoopDelivers(left - n, sent + n, if IsRetryable(o.ec) then retry + 1 else retry, script[1..]);
      PartBefore(script, WriteAll(left, sent, retry, script).used);
    }
  }

  /** In that regime the write returns OK with the whole buffer sent and counted, and what is left of the
      script is enough for any further bytes that the whole script was enough for. */
  lemma WriteDelivers(size: nat, more: nat, script: seq<Outcome>)
    requires Delivers(size + more, script)
    ensures var t := Written(size, script);
            t.status == Done(OK, size) && t.wired == size && t.used <= |script| && Delivers(more, script[t.used..])
  {
    hide WriteAll;
    LoopDelivers(size, 0, FIRST_RETRY, script);
    RetryablesSplit(script, Written(size, script).used);
  }

  lemma {:induction false} LastOne(script: seq<Outcome>)
    requires script != []
    ensures RetryablesIn(script) <= RetryablesIn(script[..|script| - 1]) + 1
  {
    if |script| > 1 {
      LastOne(script[1..]);
      PartBefore(script, |script| - 1);
      assert script[1..][..|script| - 2] == script[1..][..|script[1..]| - 1];
    }
  }

  /** A client that has gone away, and takes nothing, keeps the loop writing however long the script is. */
  lemma {:induction false} DisconnectSpins(size: nat, script: seq<Outcome>)
    requires size > 0
    requires forall i :: 0 <= i < |script| ==> IsClientDisconnect(script[i].ec) && script[i].taken == 0
    ensures Written(size, script).status.Pending?
  {
    WriteEndsIff(size, script);
    NothingTaken(script);
    forall k | 0 <= k < |script|
      ensures RetryablesIn(script[..k]) == 0
    {
      NothingTaken(script[..k]);
    }
  }

  lemma {:induction false} NothingTaken(script: seq<Outcome>)
    requires forall i :: 0 <= i < |script| ==> IsClientDisconnect(script[i].ec) && script[i].taken == 0
    ensures TakenIn(script) == 0 && RetryablesIn(script) == 0
  {
    if script != [] {
      NothingTaken(script[1..]);
    }
  }

  // What each error code does, by its name

  /** The codes that are tried again, and the status of a client that meets one of them four times. */
  predicate BusyStatus(ec: ErrorCode, status: int) {
    || (ec.TimedOut? && status == 504)
    || (ec.NoBufferSpace? && status == 507)
    || (status == 503 && (ec.WouldBlock? || ec.TryAgain? || ec.NetworkUnreachable? || ec.HostUnreachable?
                          || ec.ConnectionRefused?))
  }

  /** Four busy answers: three backoffs, of exactly six seconds for a full buffer and of 700 milliseconds,
      a tenth more or less, for the other codes; and then that code's status. */
  lemma FourBusy(size: nat, script: seq<Outcome>, status: int)
    requires size > 0 && |script| >= 4 && BusyStatus(script[0].ec, status)
    requires forall i :: 0 <= i < 4 ==> script[i].ec == script[0].ec && script[i].taken == 0
    ensures var t := Written(size, script);
            && t.status == Done(status, 0) && t.wired == 0 && t.retries == 3 && t.used == 4
            && (script[0].ec.NoBufferSpace? ==> t.slept == 6000)
            && (!script[0].ec.NoBufferSpace? ==> 630 <= t.slept <= 770)
  {
    hide WriteAll, Jitter;
    assert PowerOfTwo(1) == 2 && PowerOfTwo(2) == 4 && PowerOfTwo(3) == 8;
    var s1, s2, s3 := script[1..], script[2..], script[3..];
    assert s1[1..] == s2 && s2[1..] == s3;
    WriteStep(size, 0, 4, s3);
    WriteStep(size, 0, 3, s2);
    WriteStep(size, 0, 2, s1);
    WriteStep(size, 0, 1, script);
    RetriesStep(size, 0, 4, s3);
    RetriesStep(size, 0, 3, s2);
    RetriesStep(size, 0, 2, s1);
    RetriesStep(size, 0, 1, script);
  }

  lemma RetriesStep(left: nat, sent: nat, retry: nat, script: seq<Outcome>)
    requires left > 0 && script != []
    ensures var o := script[0];
            var n := Min(o.taken, left);
            var u := WriteAll(left, sent, retry, script);
            if IsPermanentFailure(o.ec) || retry > MAX_RETRIES then u.retries == 0
            else
              var again := if IsRetryable(o.ec) then 1 else 0;
              u.retries == again + WriteAll(left - n, sent + n, retry + again, script[1..]).retries
  {
    hide Backoff, Jitter, ErrorToStatus, IsRetryable, IsPermanentFailure;
  }

  /** A descriptor gone bad or an address in use ends the write at once. */
  lemma PermanentEnds(size: nat, script: seq<Outcome>)
    requires size > 0 && script != [] && (script[0].ec.BadDescriptor? || script[0].ec.AddressInUse?)
    ensures var t := Written(size, script);
            t.status == Done(500, 0) && t.used == 1 && t.retries == 0 && t.slept == 0
  {
  }

  /** After three busy answers the next outcome decides the status, whatever its code. */
  lemma FourthDecides(size: nat, script: seq<Outcome>)
    requires size > 0 && |script| >= 4
    requires forall i :: 0 <= i < 3 ==> script[i].ec == WouldBlock && script[i].taken == 0
    ensures var t := Written(size, script);
            && t.used == 4
            && t.status == Done(match script[3].ec
                                case Success => 200
                                case ConnectionReset => 499
                                case BrokenPipe => 499
                                case Eof => 499
                                case AccessDenied => 403
                                case BadDescriptor => 500
                                case AddressInUse => 500
                                case NoBufferSpace => 507
                                case TimedOut => 504
                                case _ => 503, 0)
  {
    hide WriteAll, Jitter, Backoff;
    var s1, s2, s3 := script[1..], script[2..], script[3..];
    assert s1[1..] == s2 && s2[1..] == s3;
    WriteStep(size, 0, 4, s3);
    WriteStep(size, 0, 3, s2);
    WriteStep(size, 0, 2, s1);
    WriteStep(size, 0, 1, script);
  }

  /** Every other code that takes nothing is tried again at once, for ever. */
  lemma OthersSpin(size: nat, script: seq<Outcome>)
    requires size > 0
    requires forall i :: 0 <= i < |script| ==>
               && script[i].taken == 0
               && (script[i].ec.Success? || script[i].ec.ConnectionReset? || script[i].ec.BrokenPipe?
                   || script[i].ec.Eof? || script[i].ec.AccessDenied? || script[i].ec.OtherError?)
    ensures Written(size, script).status.Pending? && Written(size, script).slept == 0
  {
    OthersLoop(size, FIRST_RETRY, script);
  }

  lemma {:induction false} OthersLoop(left: nat, retry: nat, script: seq<Outcome>)
    requires left > 0 && retry <= MAX_RETRIES
    requires forall i :: 0 <= i < |script| ==>
               && script[i].taken == 0
               && (script[i].ec.Success? || script[i].ec.ConnectionReset? || script[i].ec.BrokenPipe?
                   || script[i].ec.Eof? || script[i].ec.AccessDenied? || script[i].ec.OtherError?)
    ensures WriteAll(left, 0, retry, script).status.Pending? && WriteAll(left, 0, retry, script).slept == 0
    decreases |script|
  {
    hide Backoff, Jitter, ErrorToStatus;
    if script != [] {
      assert forall i :: 0 <= i < |script[1..]| ==> script[1..][i] == script[i + 1];
      OthersLoop(left, retry, script[1..]);
    }
  }

  class Socket {
    var wire: seq<bv8>
    var script: seq<Outcome>
    var slept: nat

    constructor (script: seq<Outcome>)
      ensures this.script == script && wire == [] && slept == 0
    {
      this.script := script;
      wire := [];
      slept := 0;
    }

    /** One asynchronous write: a prefix of the data reaches the wire. */
    method Write(data: seq<bv8>) returns (o: Outcome, n: nat)
      requires script != []
      modifies this`wire, this`script
      ensures o == old(script)[0] && script == old(script)[1..]
      ensures n == Min(o.taken, |data|) && wire == old(wire) + data[..n]
    {
      o := script[0];
      script := script[1..];
      n := Min(o.taken, |data|);
      wire := wire + data[..n];
    }
  }

  /** One turn of the loop. */
  lemma WriteStep(left: nat, sent: nat, retry: nat, script: seq<Outcome>)
    requires left > 0 && script != []
    ensures var o := script[0];
            var n := Min(o.taken, left);
            var u := WriteAll(left, sent, retry, script);
            if IsPermanentFailure(o.ec) || retry > MAX_RETRIES then
              u.status == Done(ErrorToStatus(o.ec), sent) && u.wired == n && u.slept == 0 && u.used == 1
            else
              var again := IsRetryable(o.ec);
              var t := WriteAll(left - n, sent + n, if again then retry + 1 else retry, script[1..]);
              var delay := if again then Backoff(o.ec, retry, Jitter(o, retry)) else 0;
              && u.status == t.status && u.wired == n + t.wired && u.used == t.used + 1
              && u.slept == t.slept + if delay > 0 then delay else 0
  {
    hide Backoff, Jitter, ErrorToStatus, IsRetryable, IsPermanentFailure;
  }

  lemma WriteStops(left: nat, sent: nat, retry: nat, script: seq<Outcome>)
    requires left == 0 || script == []
    ensures WriteAll(left, sent, retry, script) == Trace(if left == 0 then Done(OK, sent) else Pending, 0, 0, 0, 0)
  {
  }

  lemma PrefixGrows(wire: seq<bv8>, buffer: seq<bv8>, sent: nat, n: nat)
    requires sent + n <= |buffer|
    ensures wire + buffer[..sent] + buffer[sent..][..n] == wire + buffer[..sent + n]
  {
    assert buffer[..sent] + buffer[sent..][..n] == buffer[..sent + n];
  }

  /** The source's loop. */
  method CoWriteAll(sock: Socket, buffer: seq<bv8>) returns (r: Status)
    modifies sock
    ensures var t := Written(|buffer|, old(sock.script));
            && r == t.status
            && t.wired <= |buffer| && sock.wire == old(sock.wire) + buffer[..t.wired]
            && t.used <= |old(sock.script)| && sock.script == old(sock.script)[t.used..]
            && sock.slept == old(sock.slept) + t.slept
  {
    hide Backoff, Jitter, ErrorToStatus, IsRetryable, IsPermanentFailure, WriteAll;
    var bytesSent, retryCount := 0, FIRST_RETRY;
    ghost var t := Written(|buffer|, sock.script);
    ghost var whole := sock.script;
    ghost var slept := sock.slept;
    while bytesSent < |buffer|
      invariant 0 <= bytesSent <= |buffer| && 0 <= retryCount
      invariant |sock.script| <= |whole| && sock.script == whole[|whole| - |sock.script|..]
      invariant sock.wire == old(sock.wire) + buffer[..bytesSent]
      invariant var u := WriteAll(|buffer| - bytesSent, bytesSent, retryCount, sock.script);
                && u.status == t.status && bytesSent + u.wired == t.wired
                && |whole| - |sock.script| + u.used == t.used
                && sock.slept + u.slept == slept + t.slept
      decreases |sock.script|
    {
      if sock.script == [] {
        WriteStops(|buffer| - bytesSent, bytesSent, retryCount, sock.script);
        return Pending;
      }
      WriteStep(|buffer| - bytesSent, bytesSent, retryCount, sock.script);
      var o, n := sock.Write(buffer[bytesSent..]);
      PrefixGrows(old(sock.wire), buffer, bytesSent, n);
      if IsPermanentFailure(o.ec) || retryCount > MAX_RETRIES {
        return Done(ErrorToStatus(o.ec), bytesSent);
      }
      if IsRetryable(o.ec) {
        var delay := Backoff(o.ec, retryCount, Jitter(o, retryCount));
        if delay > 0 {
          sock.slept := sock.slept + delay;
        }
        retryCount := retryCount + 1;
      }
      bytesSent := bytesSent + n;
    }
    WriteStops(0, bytesSent, retryCount, sock.script);
    return Done(OK, bytesSent);
  }
}
