/** Streaming a string or an open file to a socket, chunk by chunk, with arbitrary short reads. */
module StreamerModel {
  import opened Machine
  import opened Transfer

  const BUFFER_SIZE: nat := 262144

  /** The script of reads: a negative number is a read error, any other number asks for that many bytes. */
  type Reads = seq<int>

  /** How a stream ends: completely, stopped early at the end of the file, raising, or still waiting. */
  datatype Ending = Complete(bytes: nat) | CutOff(bytes: nat) | Raised(status: int) | Waiting

  /** `whole` tells whether every chunk's write that succeeded counted the whole chunk. */
  datatype StreamTrace = StreamTrace(ending: Ending, wire: seq<bv8>, whole: bool)

  /** What one read returns: at least one byte unless the position is at the end of the file. */
  function ReadCount(asked: nat, wanted: nat, left: nat): (n: nat)
    requires wanted > 0
    ensures n <= wanted && n <= left && (n == 0 <==> left == 0)
  {
    if left == 0 then 0 else Min(wanted, Min(left, if asked == 0 then 1 else asked))
  }

  /** The file stream from byte `pos` of the file with `sent` bytes counted, up to `len`. */
  function StreamFrom(file: seq<bv8>, len: nat, pos: nat, sent: nat, asks: Reads, script: seq<Outcome>): StreamTrace
    requires pos <= |file|
    decreases |asks|
  {
    if sent >= len then StreamTrace(Complete(sent), [], true)
    else if asks == [] then StreamTrace(Waiting, [], true)
    else if asks[0] < 0 then StreamTrace(Raised(500), [], true)
    else
      var n := ReadCount(asks[0], Min(BUFFER_SIZE, len - sent), |file| - pos);
      if n == 0 then StreamTrace(CutOff(sent), [], true)
      else
        WriteBounds(n, script);
        WrittenUsed(n, script);
        var t := Written(n, script);
        var out := file[pos..pos + t.wired];
        var whole := !Miscounts(n, script);
        if t.status.Pending? then StreamTrace(Waiting, out, whole)
        else if !IsSuccessCode(t.status.status) then StreamTrace(Raised(t.status.status), out, whole)
        else
          var rest := StreamFrom(file, len, pos + n, sent + t.status.bytes, asks[1..], script[t.used..]);
          StreamTrace(rest.ending, out + rest.wire, whole && rest.whole)
  }

  lemma WrittenUsed(size: nat, script: seq<Outcome>)
    ensures Written(size, script).used <= |script|
  {
    LoopBounds(size, 0, FIRST_RETRY, script);
  }

  class FileStreamer {
    const file: seq<bv8>
    const fileLen: nat
    var asks: Reads
    var bytesStreamed: nat

    /** `fileLen` was measured when the file was opened; the file may have changed since. */
    constructor (file: seq<bv8>, fileLen: nat, asks: Reads)
      ensures this.file == file && this.fileLen == fileLen && this.asks == asks && bytesStreamed == 0
    {
      this.file, this.fileLen, this.asks := file, fileLen, asks;
      bytesStreamed := 0;
    }

    method Stream(sock: Socket) returns (r: Ending)
      modifies this, sock
      ensures var t := StreamFrom(file, fileLen, 0, 0, old(asks), old(sock.script));
              && r == t.ending && sock.wire == old(sock.wire) + t.wire
              && bytesStreamed == (match r
                                   case Complete(n) => n
                                   case CutOff(n) => n
                                   case _ => old(bytesStreamed))
    {
      hide Written, WriteAll, Miscounts, IsSuccessCode, StreamFrom;
      ghost var u := StreamFrom(file, fileLen, 0, 0, asks, sock.script);
      ghost var ending, goal := u.ending, sock.wire + u.wire;
      var bytesSent: nat, pos: nat := 0, 0;
      while bytesSent < fileLen
        invariant pos <= |file| && bytesStreamed == old(bytesStreamed)
        invariant u == StreamFrom(file, fileLen, pos, bytesSent, asks, sock.script)
        invariant u.ending == ending && sock.wire + u.wire == goal
        decreases |asks|
      {
        StreamStep(file, fileLen, pos, bytesSent, asks, sock.script);
        if asks == [] {
          return Waiting;
        }
        var asked := asks[0];
        var wanted := Min(BUFFER_SIZE, fileLen - bytesSent);
        asks := asks[1..];
        if asked < 0 {
          return Raised(500);
        }
        var n := ReadCount(asked, wanted, |file| - pos);
        if n == 0 {
          bytesStreamed := bytesSent;
          return CutOff(bytesSent);
        }
        ghost var w, before := Written(n, sock.script), sock.wire;
        var result := CoWriteAll(sock, file[pos..pos + n]);
        ghost var out := file[pos..pos + w.wired];
        assert file[pos..pos + n][..w.wired] == out;
        if result.Pending? {
          return Waiting;
        }
        if !IsSuccessCode(result.status) {
          return Raised(result.status);
        }
        bytesSent := bytesSent + result.bytes;
        pos := pos + n;
        ghost var rest := StreamFrom(file, fileLen, pos, bytesSent, asks, sock.script);
        assert before + (out + rest.wire) == (before + out) + rest.wire;
        u := rest;
      }
      StreamEnd(file, fileLen, pos, bytesSent, asks, sock.script);
      bytesStreamed := bytesSent;
      return Complete(bytesSent);
    }
  }

  lemma StreamEnd(file: seq<bv8>, len: nat, pos: nat, sent: nat, asks: Reads, script: seq<Outcome>)
    requires pos <= |file| && sent >= len
    ensures StreamFrom(file, len, pos, sent, asks, script) == StreamTrace(Complete(sent), [], true)
  {
  }

  /** One turn of the stream loop. */
  lemma StreamStep(file: seq<bv8>, len: nat, pos: nat, sent: nat, asks: Reads, script: seq<Outcome>)
    requires pos <= |file| && sent < len
    ensures var u := StreamFrom(file, len, pos, sent, asks, script);
            if asks == [] then u == StreamTrace(Waiting, [], true)
            else if asks[0] < 0 then u == StreamTrace(Raised(500), [], true)
            else
              var n := ReadCount(asks[0], Min(BUFFER_SIZE, len - sent), |file| - pos);
              if n == 0 then u == StreamTrace(CutOff(sent), [], true)
              else
                var t, whole := Written(n, script), !Miscounts(n, script);
                && t.wired <= n && t.used <= |script|
                && if t.status.Pending? then u == StreamTrace(Waiting, file[pos..pos + t.wired], whole)
                   else if !IsSuccessCode(t.status.status) then
                     u == StreamTrace(Raised(t.status.status), file[pos..pos + t.wired], whole)
                   else
                     var rest := StreamFrom(file, len, pos + n, sent + t.status.bytes, asks[1..], script[t.used..]);
                     && u.ending == rest.ending && u.wire == file[pos..pos + t.wired] + rest.wire
                     && u.whole == (whole && rest.whole)
  {
    hide Written, Miscounts, IsSuccessCode;
    if asks != [] && asks[0] >= 0 {
      var n := ReadCount(asks[0], Min(BUFFER_SIZE, len - sent), |file| - pos);
      WriteBounds(n, script);
      WrittenUsed(n, script);
    }
  }

  /** A string is streamed by one write. */
  method StreamString(sock: Socket, payload: seq<bv8>) returns (r: Ending)
    modifies sock
    ensures var t := Written(|payload|, old(sock.script));
            && t.wired <= |payload| && sock.wire == old(sock.wire) + payload[..t.wired]
            && (r.Complete? ==> (r.bytes == |payload| <==> !Miscounts(|payload|, old(sock.script))))
            && (r.Complete? && r.bytes == |payload| ==> sock.wire == old(sock.wire) + payload)
            && (t.retries < 3 ==> !Miscounts(|payload|, old(sock.script)))
            && (r.Complete? <==> t.status.Done? && t.status.status == OK)
            && (r.Waiting? <==> t.status.Pending?)
            && (r.Raised? ==> r.status == t.status.status != OK)
            && !r.CutOff?
  {
    OkCountsAllIff(|payload|, sock.script);
    OkStatusOnly(|payload|, sock.script);
    var result := CoWriteAll(sock, payload);
    if result.Pending? {
      return Waiting;
    }
    if !IsSuccessCode(result.status) {
      return Raised(result.status);
    }
    return Complete(result.bytes);
  }

  /** The only success status the write loop returns is OK. */
  lemma {:induction false} LoopStatus(left: nat, sent: nat, retry: nat, script: seq<Outcome>)
    ensures var t := WriteAll(left, sent, retry, script);
            t.status.Done? && IsSuccessCode(t.status.status) ==> t.status.status == OK
    decreases |script|
  {
    if left > 0 && script != [] {
      var o := script[0];
      var n := Min(o.taken, left);
      LoopStatus(left - n, sent + n, if IsRetryable(o.ec) then retry + 1 else retry, script[1..]);
    }
  }

  lemma OkStatusOnly(size: nat, script: seq<Outcome>)
    ensures var t := Written(size, script);
            t.status.Done? && IsSuccessCode(t.status.status) ==> t.status.status == OK
  {
    LoopStatus(size, 0, FIRST_RETRY, script);
  }

  /** When no chunk's write is miscounted, the wire always holds a prefix of what is left of the file; and
      if the file has not shrunk the stream is never cut off, and when it completes the wire has received
      exactly the file and every byte is counted. */
  lemma {:induction false} WholeStreamDelivers(file: seq<bv8>, len: nat, pos: nat, asks: Reads, script: seq<Outcome>)
    requires pos <= len <= |file|
    requires StreamFrom(file, len, pos, pos, asks, script).whole
    ensures var t := StreamFrom(file, len, pos, pos, asks, script);
            && t.wire <= file[pos..len]
            && !t.ending.CutOff?
            && (t.ending.Complete? ==> t.wire == file[pos..len] && t.ending.bytes == len)
    decreases |asks|
  {
    hide Written, WriteAll, Miscounts, IsSuccessCode, StreamFrom;
    if pos == len {
      StreamEnd(file, len, pos, pos, asks, script);
    } else {
      StreamStep(file, len, pos, pos, asks, script);
    }
    if pos < len && asks != [] && asks[0] >= 0 {
      var n := ReadCount(asks[0], Min(BUFFER_SIZE, len - pos), |file| - pos);
      OkCountsAllIff(n, script);
      OkStatusOnly(n, script);
      var t := Written(n, script);
      if t.status.Done? && IsSuccessCode(t.status.status) {
        WholeStreamDelivers(file, len, pos + n, asks[1..], script[t.used..]);
        assert file[pos..pos + n] + file[pos + n..len] == file[pos..len];
      } else {
        assert file[pos..pos + t.wired] <= file[pos..len];
      }
    }
  }

  /** In the regime where writing cannot go wrong, with no failed read and enough of them, every stream of a
      file that has not shrunk completes, with exactly the file on the wire and every byte counted. */
  lemma {:induction false} StreamCompletes(file: seq<bv8>, len: nat, pos: nat, asks: Reads, script: seq<Outcome>)
    requires pos <= len <= |file| && Delivers(len - pos, script)
    requires |asks| >= len - pos && forall i :: 0 <= i < |asks| ==> asks[i] >= 0
    ensures var t := StreamFrom(file, len, pos, pos, asks, script);
            t.ending == Complete(len) && t.wire == file[pos..len]
    decreases |asks|
  {
    hide Written, Miscounts, Delivers, ErrorToStatus;
    if pos < len {
      var n := ReadCount(asks[0], Min(BUFFER_SIZE, len - pos), |file| - pos);
      WriteBounds(n, script);
      WriteDelivers(n, len - pos - n, script);
      var t := Written(n, script);
      assert forall i :: 0 <= i < |asks[1..]| ==> asks[1..][i] == asks[i + 1];
      StreamCompletes(file, len, pos + n, asks[1..], script[t.used..]);
      assert file[pos..pos + n] + file[pos + n..len] == file[pos..len];
    } else {
      assert file[pos..len] == [];
    }
  }

  /** If the file is as long as it was measured, a stream that completes has delivered exactly the file
      and counted every byte, whatever reads and writes did; for a miscounted chunk is never made up for,
      and such a stream runs into the end of the file instead. */
  lemma {:induction false} CompleteDelivers(file: seq<bv8>, pos: nat, sent: nat, asks: Reads, script: seq<Outcome>)
    requires sent <= pos <= |file|
    ensures var t := StreamFrom(file, |file|, pos, sent, asks, script);
            t.ending.Complete? ==> sent == pos && t.whole && t.wire == file[pos..] && t.ending.bytes == |file|
    decreases |asks|
  {
    hide Written, WriteAll, Miscounts, IsSuccessCode, StreamFrom;
    if sent >= |file| {
      StreamEnd(file, |file|, pos, sent, asks, script);
    } else {
      StreamStep(file, |file|, pos, sent, asks, script);
    }
    if sent < |file| && asks != [] && asks[0] >= 0 {
      var n := ReadCount(asks[0], Min(BUFFER_SIZE, |file| - sent), |file| - pos);
      if n > 0 {
        WriteBounds(n, script);
        OkCountsAllIff(n, script);
        OkStatusOnly(n, script);
        var t := Written(n, script);
        if t.status.Done? && IsSuccessCode(t.status.status) {
          CompleteDelivers(file, pos + n, sent + t.status.bytes, asks[1..], script[t.used..]);
          assert file[pos..pos + n] + file[pos + n..] == file[pos..];
        }
      }
    }
  }

  /** A script with fewer than three retryable outcomes in it is whole for every file. */
  lemma {:induction false} FewRetriesWhole(file: seq<bv8>, len: nat, pos: nat, sent: nat, asks: Reads,
                                           script: seq<Outcome>)
    requires pos <= |file| && RetryablesIn(script) < 3
    ensures StreamFrom(file, len, pos, sent, asks, script).whole
    decreases |asks|
  {
    hide Written, WriteAll, RetryablesIn, Miscounts;
    if sent < len && asks != [] && asks[0] >= 0 {
      var n := ReadCount(asks[0], Min(BUFFER_SIZE, len - sent), |file| - pos);
      if n > 0 {
        FewRetriesCount(n, script);
        WrittenUsed(n, script);
        var t := Written(n, script);
        RetryablesSplit(script, t.used);
        if t.status.Done? && IsSuccessCode(t.status.status) {
          FewRetriesWhole(file, len, pos + n, sent + t.status.bytes, asks[1..], script[t.used..]);
        }
      }
    }
  }

  lemma FewRetriesCount(size: nat, script: seq<Outcome>)
    requires RetryablesIn(script) < 3
    ensures !Miscounts(size, script)
  {
    hide RetryablesIn;
    forall k | 0 < k < |script|
      ensures !MiscountsAt(size, script, k)
    {
      RetryablesSplit(script, k);
    }
  }

  /** How a stream stops at its first chunk: at a failed read with a 500, at a file that has become empty with
      nothing sent, at a permanent failure of the write with a 500, and at four busy answers with the status
      of their code. */
  lemma StreamStops(file: seq<bv8>, len: nat, asks: Reads, script: seq<Outcome>, status: int)
    requires len > 0 && asks != []
    ensures var t := StreamFrom(file, len, 0, 0, asks, script);
            && (asks[0] < 0 ==> t.ending == Raised(500) && t.wire == [])
            && (asks[0] >= 0 && file == [] ==> t.ending == CutOff(0) && t.wire == [])
            && (asks[0] >= 0 && file != [] && FirstPermanent(script) ==> t.ending == Raised(500))
            && (asks[0] >= 0 && file != [] && FirstBusy(script, status) ==> t.ending == Raised(status) && t.wire == [])
  {
    hide Written, Miscounts, BusyStatus;
    StreamStep(file, len, 0, 0, asks, script);
    if asks[0] >= 0 && file != [] {
      var n := ReadCount(asks[0], Min(BUFFER_SIZE, len), |file|);
      if FirstPermanent(script) {
        PermanentEnds(n, script);
      }
      if FirstBusy(script, status) {
        FourBusy(n, script, status);
        BusyFails(script[0].ec, status);
      }
    }
  }

  predicate FirstPermanent(script: seq<Outcome>) {
    script != [] && (script[0].ec.BadDescriptor? || script[0].ec.AddressInUse?)
  }

  /** Four answers of one retryable code, which ends in the given status. */
  predicate FirstBusy(script: seq<Outcome>, status: int) {
    && |script| >= 4 && BusyStatus(script[0].ec, status)
    && forall i :: 0 <= i < 4 ==> script[i].ec == script[0].ec && script[i].taken == 0
  }

  lemma BusyFails(ec: ErrorCode, status: int)
    requires BusyStatus(ec, status)
    ensures !IsSuccessCode(status)
  {
  }

  /** A read asks for at most 262144 bytes and for no more than are still to be sent. */
  lemma ChunkSizes(asked: nat, len: nat, sent: nat, left: nat)
    requires sent < len
    ensures var n := ReadCount(asked, Min(BUFFER_SIZE, len - sent), left);
            && n <= 262144 && sent + n <= len
            && (asked >= 262144 && 262144 <= len - sent && 262144 <= left ==> n == 262144)
  {
  }
}
