/** Uploads: the SEND half of the sync conversation. */
module SyncSend {
  import opened Bytes
  import opened Transport
  import opened Wire
  import opened Client

  datatype Step = More | Over(err: AdbError)

  /** What is still to be sent of a content. */
  function DataOf(content: seq<byte>): seq<byte> {
    DataStream(Chunks(content))
  }

  /** A full chunk, or what is left. */
  function ChunkLen(left: nat): (n: nat)
    ensures n <= SYNC_DATA_MAX && n <= left
  {
    if left < SYNC_DATA_MAX then left else SYNC_DATA_MAX
  }

  lemma DataOfStep(left: seq<byte>)
    requires left != []
    ensures var n := ChunkLen(|left|);
      DataOf(left) == (Header(DATA, n) + left[..n]) + DataOf(left[n..])
  {
  }

  /** Reads one chunk of the file and sends it as a DATA packet; a broken connection is explained by the
      device's own FAIL packet if one is waiting. */
  method SendChunk(t: TcpTransport, f: LocalFile, progress: Progress?, n: nat, ghost chunk: seq<byte>)
    returns (step: Step)
    requires t.onStall == progress && t.open && t.Ready() && n == |chunk| <= SYNC_DATA_MAX
    requires f.pos <= |f.data|
    requires f.pos + n <= |f.data| ==> f.data[f.pos..f.pos + n] == chunk
    modifies t`open, t`trace, t`refused, t`callsAfter, t`pollsAfter, t`incoming, t`sent, f`pos, f`trace, progress
    ensures f.pos <= |f.data|
    ensures t.open <==> step.More?
    ensures step != Over(Success)
    ensures old(t.sent) <= t.sent <= old(t.sent) + (Header(DATA, n) + chunk)
    ensures step.More? ==>
      && t.sent == old(t.sent) + (Header(DATA, n) + chunk) && t.incoming == old(t.incoming) && f.pos == old(f.pos) + n
      && (progress != null ==> progress.done == progress.lastDone == old(progress.done) + n)
    ensures step.Over? ==>
      Explained(old(t.incoming), step.err.message)
    ensures Benign(old(t.trace)) && Cooperative(old(f.trace)) ==> Benign(t.trace) && Cooperative(f.trace)
    ensures Benign(old(t.trace)) && Cooperative(old(f.trace)) && step.Over? ==>
      t.StallRefused() || step.err == Error(CANCELLED)
      || (step.err == Error(LOCAL_READ_FAULT) && old(f.pos) + n > |f.data|)
    ensures step.More? ==> t.Ready()
    ensures t.Latching() && step.Over? ==> Halted(t, progress, step.err, old(t.incoming))
  {
    hide Header, ReadU32Le, ParseFail;
    OnlyOneIsCancelled();
    var ok, buffer := f.ReadAll(n);
    if !ok {
      t.Close();
      return Over(Error(LOCAL_READ_FAULT));
    }
    ok := WriteSyncPacket(t, DATA, n, buffer);
    if !ok {
      var err := ExplainFailedWrite(t, progress);
      return Over(err);
    }
    if progress != null {
      progress.done := progress.done + n;
    }
    var keepGoing := ShouldContinue(t, progress);
    if !keepGoing {
      t.Close();
      return Over(Error(CANCELLED));
    }
    return More;
  }

  /** After a failed write of a DATA packet: a cancellation, the device's own reason, or the connection. */
  method ExplainFailedWrite(t: TcpTransport, progress: Progress?) returns (err: AdbError)
    requires t.onStall == progress && t.Settled()
    modifies t`open, t`trace, t`refused, t`callsAfter, t`pollsAfter, t`incoming, progress
    ensures !t.open && err.Error?
    ensures progress != null ==> progress.done == old(progress.done)
    ensures err.message == CANCELLED || err.message == CONNECTION_FAULT || PendingFail(old(t.incoming), err.message)
    ensures Benign(old(t.trace)) ==> Benign(t.trace)
    ensures old(t.StallRefused()) ==> err == Error(CANCELLED)
    ensures Benign(old(t.trace)) && old(t.open) && !t.StallRefused() ==>
      err == if FailWaits(old(t.incoming)) then WaitingFail(old(t.incoming)) else Error(CONNECTION_FAULT)
    ensures t.Latching() ==> Halted(t, progress, err, old(t.incoming))
  {
    OnlyOneIsCancelled();
    err := Error(CONNECTION_FAULT);
    if progress == null || !progress.stallCancelled {
      var found, pending := ReadPendingSyncFail(t);
      if found {
        err := Error(pending);
      }
    }
    t.Close();
    err := CancellationOr(progress, err);
  }

  /** After a refusal at most one more poll and no send or receive took place, and the outcome is "cancelled"; without
      one, the outcome can be that text only if the device itself says so. */
  ghost predicate Halted(t: TcpTransport, progress: Progress?, err: AdbError, s: seq<byte>)
    reads t, t.onStall, progress
  {
    && t.callsAfter == 0 && t.pollsAfter <= 1 && (t.StallRefused() ==> WasRefused(progress))
    && (WasRefused(progress) ==> err == Error(CANCELLED))
    && (err == Error(CANCELLED) ==> WasRefused(progress) || PendingFail(s, CANCELLED))
  }

  /** An error of the client's own, or the device's. */
  ghost predicate Explained(s: seq<byte>, message: seq<byte>) {
    message == CANCELLED || message == LOCAL_READ_FAULT || message == CONNECTION_FAULT || PendingFail(s, message)
  }

  /** The file's octets from `pos` on agree with `left`, as far as both go. */
  ghost predicate Supplies(data: seq<byte>, pos: nat, left: seq<byte>) {
    pos <= |data| && (left <= data[pos..] || data[pos..] <= left)
  }

  lemma SuppliesChunk(data: seq<byte>, pos: nat, left: seq<byte>, n: nat)
    requires Supplies(data, pos, left) && n <= |left|
    ensures pos + n <= |data| ==> data[pos..pos + n] == left[..n] && Supplies(data, pos + n, left[n..])
  {
    if pos + n <= |data| {
      assert data[pos..pos + n] == data[pos..][..n];
      assert data[pos + n..] == data[pos..][n..];
    }
  }

  lemma WireStep(base: seq<byte>, sent: seq<byte>, sent': seq<byte>, all: seq<byte>, left: seq<byte>)
    requires left != [] && base <= sent && base + all == sent + DataOf(left)
    requires var n := ChunkLen(|left|);
      sent <= sent' <= sent + (Header(DATA, n) + left[..n])
    ensures base <= sent' <= base + all
    ensures var n := ChunkLen(|left|);
      sent' == sent + (Header(DATA, n) + left[..n]) ==> base + all == sent' + DataOf(left[n..])
  {
    DataOfStep(left);
    var n := ChunkLen(|left|);
    Regroup(sent, Header(DATA, n) + left[..n], DataOf(left[n..]));
  }

  /** Sends the next chunk of what is left; the wire holds `base` and a growing part of `all`. */
  method SendNext(t: TcpTransport, f: LocalFile, progress: Progress?, n: nat, ghost base: seq<byte>, ghost all: seq<byte>,
                  ghost left: seq<byte>)
    returns (step: Step)
    requires t.onStall == progress && t.open && t.Ready() && left != [] && n == ChunkLen(|left|)
    requires Supplies(f.data, f.pos, left) && base <= t.sent && base + all == t.sent + DataOf(left)
    modifies t`open, t`trace, t`refused, t`callsAfter, t`pollsAfter, t`incoming, t`sent, f`pos, f`trace, progress
    ensures base <= t.sent <= base + all
    ensures t.open <==> step.More?
    ensures step != Over(Success)
    ensures step.More? ==>
      && base + all == t.sent + DataOf(left[n..]) && t.incoming == old(t.incoming)
      && f.pos == old(f.pos) + n && Supplies(f.data, f.pos, left[n..])
      && (progress != null ==> progress.done == old(progress.done) + n)
    ensures step.Over? ==> Explained(old(t.incoming), step.err.message)
    ensures Benign(old(t.trace)) && Cooperative(old(f.trace)) ==> Benign(t.trace) && Cooperative(f.trace)
    ensures Benign(old(t.trace)) && Cooperative(old(f.trace)) && step.Over? ==>
      t.StallRefused() || step.err == Error(CANCELLED)
      || (step.err == Error(LOCAL_READ_FAULT) && old(f.pos) + n > |f.data|)
    ensures step.More? ==> t.Ready()
    ensures t.Latching() && step.Over? ==> Halted(t, progress, step.err, old(t.incoming))
  {
    SuppliesChunk(f.data, f.pos, left, n);
    ghost var sent := t.sent;
    step := SendChunk(t, f, progress, n, left[..n]);
    WireStep(base, sent, t.sent, all, left);
  }

  /** Sends the whole content, chunk by chunk. */
  method SendData(t: TcpTransport, f: LocalFile, progress: Progress?, localSize: nat, ghost content: seq<byte>)
    returns (err: AdbError)
    requires t.onStall == progress && t.open && t.Ready() && |content| == localSize
    requires Supplies(f.data, f.pos, content)
    modifies t`open, t`trace, t`refused, t`callsAfter, t`pollsAfter, t`incoming, t`sent, f`pos, f`trace, progress
    ensures old(t.sent) <= t.sent <= old(t.sent) + DataOf(content)
    ensures t.open <==> err.Success?
    ensures localSize == 0 ==> err.Success? && t.trace == old(t.trace)
    ensures err.Success? ==>
      && t.sent == old(t.sent) + DataOf(content) && t.incoming == old(t.incoming) && content <= f.data[old(f.pos)..]
      && (progress != null ==> progress.done == old(progress.done) + localSize)
    ensures err.Error? ==>
      Explained(old(t.incoming), err.message)
    ensures Benign(old(t.trace)) && Cooperative(old(f.trace)) ==> Benign(t.trace)
    ensures Benign(old(t.trace)) && Cooperative(old(f.trace)) && err.Error? ==>
      t.StallRefused() || err == Error(CANCELLED)
      || (err == Error(LOCAL_READ_FAULT) && old(f.pos) + localSize > |f.data|)
    ensures err.Success? ==> t.Ready()
    ensures t.Latching() && err.Error? ==> Halted(t, progress, err, old(t.incoming))
  {
    var done := 0;
    ghost var left := content;
    while done < localSize
      invariant 0 <= done <= localSize && |left| == localSize - done
      invariant t.open && t.Ready() && t.incoming == old(t.incoming)
      invariant localSize == 0 ==> t.trace == old(t.trace)
      invariant f.pos == old(f.pos) + done && Supplies(f.data, f.pos, left)
      invariant old(t.sent) <= t.sent && old(t.sent) + DataOf(content) == t.sent + DataOf(left)
      invariant progress != null ==> progress.done == old(progress.done) + done
      invariant Benign(old(t.trace)) && Cooperative(old(f.trace)) ==> Benign(t.trace) && Cooperative(f.trace)
    {
      var n := ChunkLen(localSize - done);
      var step := SendNext(t, f, progress, n, old(t.sent), DataOf(content), left);
      if step.Over? {
        return step.err;
      }
      left := left[n..];
      done := done + n;
    }
    return Success;
  }

  /** What the device's last word on an upload amounts to. */
  function FinalError(s: seq<byte>): AdbError {
    if |s| < 8 then Error(CONNECTION_FAULT)
    else if s[..4] == FAIL then FailError(ParseFail(ReadU32Le(s[4..]), s[8..]))
    else if s[..4] == OKAY then Success
    else Error(MALFORMED_REPLY)
  }

  /** The message of a FAIL packet is what the device says last. */
  predicate EndsInFailBody(s: seq<byte>) {
    |s| >= 8 && s[..4] == FAIL && ReadU32Le(s[4..]) <= SYNC_FAIL_MESSAGE_MAX
  }

  /** With `left` still to be received, the header of the device's FAIL has been read and its message is being read. */
  predicate InFailBody(s: seq<byte>, left: seq<byte>) {
    EndsInFailBody(s) && LeftOf(left, s[8..])
  }

  /** What a refusal is reported as once the whole upload is on the wire: a cancellation, unless the message of the
      device's FAIL was being read. Before that it is always a cancellation. */
  function RefusalError(s: seq<byte>, left: seq<byte>, complete: bool): AdbError {
    if complete && InFailBody(s, left) then Error(CONNECTION_FAULT) else Error(CANCELLED)
  }

  lemma NoFailYet(s: seq<byte>, left: seq<byte>)
    requires |s| < |left| + 8
    ensures forall complete :: RefusalError(s, left, complete) == Error(CANCELLED)
  {
  }

  lemma NotWhole(sent: seq<byte>, part: seq<byte>, last: seq<byte>)
    requires last != [] && sent <= part
    ensures sent != part + last
    ensures forall s, left :: RefusalError(s, left, false) == Error(CANCELLED)
  {
  }

  lemma FailAtLast(s: seq<byte>, left: seq<byte>)
    requires |s| >= 8 && s[..4] == FAIL && LeftOf(left, s[8..])
    ensures ReadU32Le(s[4..]) <= SYNC_FAIL_MESSAGE_MAX ==> RefusalError(s, left, true) == Error(CONNECTION_FAULT)
  {
  }

  /** The DONE packet and the device's answer to it. */
  method Finish(t: TcpTransport, progress: Progress?, mtime: int) returns (err: AdbError)
    requires t.onStall == progress && t.open && t.Ready()
    modifies t`open, t`trace, t`refused, t`callsAfter, t`pollsAfter, t`incoming, t`sent, progress
    ensures !t.open
    ensures progress != null ==> progress.done == old(progress.done)
    ensures old(t.sent) <= t.sent <= old(t.sent) + Header(DONE, MtimeArg(mtime))
    ensures err.Success? ==> t.sent == old(t.sent) + Header(DONE, MtimeArg(mtime)) && FinalError(old(t.incoming)) == Success
    ensures err.Error? ==> err.message == CANCELLED || err.message == CONNECTION_FAULT || err == FinalError(old(t.incoming))
    ensures Benign(old(t.trace)) ==>
      t.StallRefused() || err == Error(CANCELLED) || err == FinalError(old(t.incoming))
    ensures t.Latching() ==>
      && t.callsAfter == 0 && t.pollsAfter <= 1 && (t.StallRefused() ==> WasRefused(progress))
      && (WasRefused(progress) ==>
            err == RefusalError(old(t.incoming), t.incoming, t.sent == old(t.sent) + Header(DONE, MtimeArg(mtime))))
      && (err == Error(CANCELLED) ==> WasRefused(progress) || FinalError(old(t.incoming)) == Error(CANCELLED))
    ensures old(StallsInFailBody(t.trace, 2, t.incoming, progress)) ==>
      err == Error(CONNECTION_FAULT) && t.StallRefused() && t.incoming == old(t.incoming)[8..]
      && t.sent == old(t.sent) + Header(DONE, MtimeArg(mtime))
  {
    hide RefusalError, LeftOf, MtimeArg, ParseFail, FailError;
    OnlyOneIsCancelled();
    ghost var s := t.incoming;
    NoFailYet(s, s);
    StallsLater(t.trace, 1, 1, t.incoming, progress);
    var ok := WriteSyncPacket(t, DONE, MtimeArg(mtime), []);
    if !ok {
      t.Close();
      err := CancellationOr(progress, Error(CONNECTION_FAULT));
      return;
    }
    var id, arg;
    ok, id, arg := ReadSyncHeader(t);
    if !ok {
      NoFailYet(s, t.incoming);
      t.Close();
      err := CancellationOr(progress, Error(CONNECTION_FAULT));
      return;
    }
    if id == FAIL {
      err := EndInFail(t, progress, arg);
      FailAtLast(s, t.incoming);
      return;
    }
    t.Close();
    err := if id == OKAY then Success else Error(MALFORMED_REPLY);
  }

  /** What an upload comes to on a connection that only delays, for a file that is long enough. */
  function Outcome(serial: seq<byte>, incoming: seq<byte>): AdbError {
    match GreetingError(serial, incoming)
    case Success => FinalError(ParseGreeting(incoming).rest)
    case e => e
  }

  lemma TranscriptParts(serial: seq<byte>, path: seq<byte>, mode: u32, content: seq<byte>, mtime: int)
    requires PathFits(path)
    ensures UploadTranscript(serial, path, mode, content, mtime)
         == OpenSync(serial) + SendRequest(path, mode) + DataOf(content) + Header(DONE, MtimeArg(mtime))
  {
    var open, send, data, done := OpenSync(serial), SendRequest(path, mode), DataOf(content), Header(DONE, MtimeArg(mtime));
    Regroup(open, send, data + done);
    Regroup(open + send, data, done);
  }

  /** The errors an upload can fail with, on any connection: the refusal of an opening request, a fault of the
      connection or of the local file, a cancellation, or what the device's FAIL says. */
  ghost predicate FailsBecause(serial: seq<byte>, incoming: seq<byte>, err: AdbError) {
    var s := AfterGreeting(incoming);
    && err.Error?
    && (err == GreetingError(serial, incoming) || Explained(s, err.message) || err == FinalError(s))
  }

  /** Eight prompt transfers put an empty upload on the wire and fetch the header of the device's FAIL; then the
      connection stalls, and the callback always says stop. */
  ghost predicate SendStallsInFail(trace: seq<Answer>, serial: seq<byte>, incoming: seq<byte>, progress: Progress?) {
    GreetingError(serial, incoming).Success? && StallsInFailBody(trace, 8, AfterGreeting(incoming), progress)
  }

  /** Uploads `localSize` octets of the open file `f` to `remote` on the device `serial`, with a mode and a time stamp.
      `content` is what a file of that size starting with the file's octets holds. */
  method Send(t: TcpTransport?, serial: seq<byte>, f: LocalFile, localSize: nat, remote: seq<byte>, mode: u32, mtime: int,
              progress: Progress?, ghost content: seq<byte>)
    returns (err: AdbError)
    requires t != null ==> Unused(t)
    requires progress != null ==> progress.Fresh()
    requires f.pos == 0 && |content| == localSize && Supplies(f.data, 0, content)
    modifies t, f`pos, f`trace, progress
    ensures !PathFits(remote) ==> err == Error(PATH_TOO_LONG) && (t != null ==> t.sent == [])
    ensures PathFits(remote) && t == null ==> err == Error(NO_TRANSPORT)
    ensures PathFits(remote) && t != null ==> !t.open && t.sent <= UploadTranscript(serial, remote, mode, content, mtime)
    ensures err.Success? ==> t != null && PathFits(remote) && SerialFits(serial)
    ensures err.Success? ==> t.sent == UploadTranscript(serial, remote, mode, content, mtime) && content <= f.data
    ensures err.Success? ==> Outcome(serial, old(t.incoming)) == Success
    ensures err.Success? && progress != null ==> progress.done == localSize
    ensures t != null && PathFits(remote) && (progress != null ==> progress.Latching()) ==>
      && t.callsAfter == 0 && t.pollsAfter <= 1
      && (WasRefused(progress) ==> err == RefusalError(AfterGreeting(old(t.incoming)), t.incoming,
            t.sent == UploadTranscript(serial, remote, mode, content, mtime)))
      && (err == Error(CANCELLED) ==> WasRefused(progress) || Outcome(serial, old(t.incoming)) == Error(CANCELLED))
      && (Benign(old(t.trace)) && Cooperative(old(f.trace)) && !WasRefused(progress) && localSize <= |f.data| ==>
            err == Outcome(serial, old(t.incoming)))
    ensures t != null && PathFits(remote) && err.Error? ==> FailsBecause(serial, old(t.incoming), err)
    ensures t != null && PathFits(remote) && localSize == 0 && old(SendStallsInFail(t.trace, serial, t.incoming, progress)) ==>
      err == Error(CONNECTION_FAULT) && t.StallRefused() && t.incoming == AfterGreeting(old(t.incoming))[8..]
      && t.sent == UploadTranscript(serial, remote, mode, content, mtime)
  {
    if !PathFits(remote) {
      return Error(PATH_TOO_LONG);
    }
    if t == null {
      return Error(NO_TRANSPORT);
    }
    TranscriptParts(serial, remote, mode, content, mtime);
    StallsLater(t.trace, 4, 4, AfterGreeting(t.incoming), progress);
    err := OpenSyncTransport(t, serial);
    if err.Error? {
      return;
    }
    t.onStall := progress;
    err := SendConversation(t, serial, f, localSize, remote, mode, mtime, progress, content);
  }

  /** The conversation once it is open: the request, the content, the end. */
  method SendConversation(t: TcpTransport, ghost serial: seq<byte>, f: LocalFile, localSize: nat, remote: seq<byte>,
                          mode: u32, mtime: int, progress: Progress?, ghost content: seq<byte>)
    returns (err: AdbError)
    requires t.onStall == progress && t.open && t.Ready() && PathFits(remote) && t.sent == OpenSync(serial)
    requires f.pos == 0 && |content| == localSize && Supplies(f.data, 0, content)
    requires progress != null ==> progress.done == 0
    modifies t`open, t`trace, t`refused, t`callsAfter, t`pollsAfter, t`incoming, t`sent, f`pos, f`trace, progress
    ensures !t.open
    ensures t.sent <= OpenSync(serial) + SendRequest(remote, mode) + DataOf(content) + Header(DONE, MtimeArg(mtime))
    ensures err.Success? ==>
      && t.sent == OpenSync(serial) + SendRequest(remote, mode) + DataOf(content) + Header(DONE, MtimeArg(mtime))
      && content <= f.data && FinalError(old(t.incoming)) == Success
      && (progress != null ==> progress.done == localSize)
    ensures Benign(old(t.trace)) && Cooperative(old(f.trace)) && localSize <= |f.data| ==>
      t.StallRefused() || err == Error(CANCELLED) || err == FinalError(old(t.incoming))
    ensures err.Error? ==> Explained(old(t.incoming), err.message) || err == FinalError(old(t.incoming))
    ensures t.Latching() ==>
      HaltedIn(t, progress, err, old(t.incoming),
               OpenSync(serial) + SendRequest(remote, mode) + DataOf(content) + Header(DONE, MtimeArg(mtime)))
    ensures localSize == 0 && old(StallsInFailBody(t.trace, 4, t.incoming, progress)) ==>
      err == Error(CONNECTION_FAULT) && t.StallRefused() && t.incoming == old(t.incoming)[8..]
      && t.sent == OpenSync(serial) + SendRequest(remote, mode) + DataOf(content) + Header(DONE, MtimeArg(mtime))
  {
    hide DataOf, OpenSync, MtimeArg, EndsInFailBody, ReadU32Le, RefusalError, StallsInFailBody;
    OnlyOneIsCancelled();
    StallsLater(t.trace, 2, 2, t.incoming, progress);
    SpecLength(remote, mode);
    var spec := EncodeSendPathSpec(remote, mode);
    var ok := WriteSyncPacket(t, SEND, |spec|, spec);
    if !ok {
      NoFailYet(t.incoming, t.incoming);
      t.Close();
      err := CancellationOr(progress, Error(CONNECTION_FAULT));
      return;
    }
    assert f.data[0..] == f.data;
    err := SendData(t, f, progress, localSize, content);
    if err.Error? {
      NotWhole(t.sent, OpenSync(serial) + SendRequest(remote, mode) + DataOf(content), Header(DONE, MtimeArg(mtime)));
      return;
    }
    err := Finish(t, progress, mtime);
  }

  /** As Halted, once the whole upload may be on the wire: a refusal while the message of the device's FAIL is being read
      is the one that is not reported as a cancellation. */
  ghost predicate HaltedIn(t: TcpTransport, progress: Progress?, err: AdbError, s: seq<byte>, whole: seq<byte>)
    reads t, t.onStall, progress
  {
    && t.callsAfter == 0 && t.pollsAfter <= 1 && (t.StallRefused() ==> WasRefused(progress))
    && (WasRefused(progress) ==> err == RefusalError(s, t.incoming, t.sent == whole))
    && (err == Error(CANCELLED) ==> WasRefused(progress) || FinalError(s) == Error(CANCELLED))
  }
}
