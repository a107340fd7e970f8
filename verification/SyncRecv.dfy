/** Downloads: the RECV half of the sync conversation. */
module SyncRecv {
  import opened Bytes
  import opened Optional
  import opened Transport
  import opened Wire
  import opened Client

  function RecvRequest(remote: seq<byte>): seq<byte>
    requires PathFits(remote)
  {
    Packet(RECV, remote)
  }

  /** Everything a download puts on the wire. */
  function RecvTranscript(serial: seq<byte>, remote: seq<byte>): seq<byte>
    requires PathFits(remote)
  {
    OpenSync(serial) + RecvRequest(remote)
  }

  /** The error the end of the stream of chunks amounts to. */
  function EndError(end: DataEnd): AdbError {
    match end
    case Done(_, _) => Success
    case Failed(_, _) | OversizedFail | CutFail => FailError(end)
    case Oversized => Error(OVERSIZED_CHUNK)
    case Malformed => Error(MALFORMED_REPLY)
    case Cut => Error(CONNECTION_FAULT)
  }

  /** A FAIL packet whose message has to be read: there a refused stall is not reported as a cancellation. */
  predicate ReadsFailBody(end: DataEnd) {
    end.Failed? || end.CutFail?
  }

  /** What follows the header of the FAIL packet that ends the stream of chunks, if one with a message to read does. */
  function AfterFailHeader(s: seq<byte>): (r: Option<seq<byte>>)
    ensures r.Some? ==> |r.value| + 8 <= |s|
    ensures r.Some? <==> ReadsFailBody(ParseData(s).end)
    decreases |s|
  {
    if |s| < 8 then None
    else
      WordsDiffer();
      var id, arg, body := s[..4], ReadU32Le(s[4..]), s[8..];
      if id == FAIL && arg <= SYNC_FAIL_MESSAGE_MAX then Some(body)
      else if id == DATA && arg <= SYNC_DATA_MAX && arg <= |body| then AfterFailHeader(body[arg..])
      else None
  }

  /** With `left` still to be received, the header of a FAIL packet has been read and its message is being read. */
  predicate InFailBody(s: seq<byte>, left: seq<byte>) {
    AfterFailHeader(s).Some? && LeftOf(left, AfterFailHeader(s).value)
  }

  datatype Step = More | Over(err: AdbError)

  /** The body of a DATA packet: received into the buffer, written out, reported. */
  method ReceiveChunk(t: TcpTransport, f: LocalFile, progress: Progress?, buffer: array<byte>, arg: nat) returns (step: Step)
    requires t.onStall == progress && t.open && t.Ready() && arg <= buffer.Length
    modifies t`open, t`trace, t`refused, t`callsAfter, t`pollsAfter, t`incoming, f`data, f`trace, progress, buffer
    ensures t.open <==> step.More?
    ensures step != Over(Success)
    ensures step.More? ==>
      && arg <= |old(t.incoming)| && t.incoming == old(t.incoming)[arg..] && f.data == old(f.data) + old(t.incoming)[..arg]
      && (progress != null ==> progress.done == progress.lastDone == old(progress.done) + arg)
    ensures f.data != old(f.data) ==>
      && arg <= |old(t.incoming)| && old(f.data) <= f.data <= old(f.data) + old(t.incoming)[..arg]
      && (step == Over(Error(LOCAL_WRITE_FAULT)) || f.data == old(f.data) + old(t.incoming)[..arg])
    ensures Benign(old(t.trace)) && Cooperative(old(f.trace)) ==> Benign(t.trace) && Cooperative(f.trace)
    ensures Benign(old(t.trace)) && Cooperative(old(f.trace)) && step.Over? ==>
      step.err == Error(CANCELLED) || (|old(t.incoming)| < arg && step.err == Error(CONNECTION_FAULT))
    ensures step.More? ==> t.Ready()
    ensures step.Over? ==> |old(t.incoming)| <= |t.incoming| + arg
    ensures t.Latching() && step.Over? ==>
      && t.callsAfter == 0 && t.pollsAfter <= 1 && (t.StallRefused() ==> WasRefused(progress))
      && (WasRefused(progress) <==> step.err == Error(CANCELLED))
  {
    OnlyOneIsCancelled();
    var ok := t.ReadExactly(buffer, 0, arg);
    if !ok {
      var err := CancellationOr(progress, Error(CONNECTION_FAULT));
      t.Close();
      return Over(err);
    }
    ok := f.WriteAll(buffer[..arg]);
    if !ok {
      t.Close();
      return Over(Error(LOCAL_WRITE_FAULT));
    }
    if progress != null {
      progress.done := progress.done + arg;
    }
    var keepGoing := ShouldContinue(t, progress);
    if !keepGoing {
      t.Close();
      return Over(Error(CANCELLED));
    }
    return More;
  }

  /** What a packet that is not a chunk means. */
  function EndOf(id: seq<byte>, arg: u32, body: seq<byte>): DataEnd {
    if id == DONE then Done(arg, body)
    else if id == FAIL then ParseFail(arg, body)
    else if id != DATA then Malformed
    else Oversized
  }

  lemma ParseHead(s: seq<byte>)
    requires |s| >= 8
    ensures s[..4] == DATA && ReadU32Le(s[4..]) <= SYNC_DATA_MAX && ReadU32Le(s[4..]) <= |s| - 8 ==>
      AfterFailHeader(s) == AfterFailHeader(s[8..][ReadU32Le(s[4..])..])
    ensures var id, arg, body := s[..4], ReadU32Le(s[4..]), s[8..];
      if id == DATA && arg <= SYNC_DATA_MAX then
        if |body| < arg then ParseData(s) == DataReply([], Cut)
        else ParseData(s) == DataReply([body[..arg]] + ParseData(body[arg..]).chunks, ParseData(body[arg..]).end)
      else ParseData(s) == DataReply([], EndOf(id, arg, body))
  {
    WordsDiffer();
  }

  lemma EndOfFail(arg: u32, body: seq<byte>)
    ensures EndError(ParseFail(arg, body)) == FailError(ParseFail(arg, body))
  {
  }

  /** What each packet that is not a chunk makes of the download. */
  lemma EndsAre(s: seq<byte>)
    requires |s| >= 8
    ensures var id, arg := s[..4], ReadU32Le(s[4..]);
      && (id == FAIL ==> EndsNow(s, FailError(ParseFail(arg, s[8..]))))
      && (id == DONE ==> EndsNow(s, Success) && ParseData(s) == DataReply([], Done(arg, s[8..])) && id != FAIL)
      && (id == DATA && arg > SYNC_DATA_MAX ==> EndsNow(s, Error(OVERSIZED_CHUNK)) && id != DONE)
      && (id != FAIL && id != DONE && id != DATA ==> EndsNow(s, Error(MALFORMED_REPLY)))
  {
    assert FAIL != DONE && FAIL != DATA && DONE != DATA by {
      WordsDiffer();
    }
    var arg := ReadU32Le(s[4..]);
    EndOfFail(arg, s[8..]);
    hide ReadU32Le, ParseFail, FailError, FAIL, DONE, DATA;
  }

  /** A packet that is not a chunk ends the download; `s` is the stream from its header on. */
  method ReceiveEnd(t: TcpTransport, progress: Progress?, id: seq<byte>, arg: u32, ghost s: seq<byte>) returns (err: AdbError)
    requires t.onStall == progress && t.open && t.Ready() && !(id == DATA && arg <= SYNC_DATA_MAX)
    requires |s| >= 8 && id == s[..4] && arg == ReadU32Le(s[4..]) && t.incoming == s[8..]
    modifies t`open, t`trace, t`refused, t`callsAfter, t`pollsAfter, t`incoming, t.onStall
    ensures !t.open
    ensures progress != null ==> progress.done == old(progress.done)
    ensures err.Success? ==> ParseData(s) == DataReply([], Done(arg, t.incoming))
    ensures Benign(old(t.trace)) ==> Benign(t.trace)
    ensures Benign(old(t.trace)) ==> t.StallRefused() || EndsNow(s, err)
    ensures t.Latching() ==> Halted(t, progress, s, err)
    ensures Stalls(old(t.trace)) && old(t.Refusing()) && id == FAIL && 0 < arg <= SYNC_FAIL_MESSAGE_MAX ==>
      err == Error(CONNECTION_FAULT) && t.StallRefused() && t.incoming == old(t.incoming)
  {
    hide ReadU32Le, RefusalError, LeftOf, EndsNow, ParseData, ParseFail, FailError;
    OnlyOneIsCancelled();
    EndsAre(s);
    if id == FAIL {
      err := EndInFail(t, progress, arg);
      FailAtLast(s, t.incoming);
      return;
    }
    t.Close();
    err := if id == DONE then Success else if id != DATA then Error(MALFORMED_REPLY) else Error(OVERSIZED_CHUNK);
  }

  /** One packet of the reply: a chunk is received, written out and reported; anything else ends the download. */
  method ReceivePacket(t: TcpTransport, f: LocalFile, progress: Progress?, buffer: array<byte>) returns (step: Step)
    requires t.onStall == progress && t.open && t.Ready() && buffer.Length == SYNC_DATA_MAX
    modifies t`open, t`trace, t`refused, t`callsAfter, t`pollsAfter, t`incoming, f`data, f`trace, progress, buffer
    ensures t.open <==> step.More?
    ensures step.More? ==> Took(old(t.incoming), t.incoming, old(f.data), f.data)
    ensures step.More? && progress != null ==>
      progress.lastDone == progress.done == old(progress.done) + |f.data| - |old(f.data)|
    ensures step.Over? ==> Ended(old(t.incoming), old(f.data), f.data, step.err)
    ensures step == Over(Success) ==> t.incoming == ParseData(old(t.incoming)).end.rest
    ensures step == Over(Success) && progress != null ==> progress.done == old(progress.done)
    ensures Benign(old(t.trace)) && Cooperative(old(f.trace)) ==> Benign(t.trace) && Cooperative(f.trace)
    ensures Benign(old(t.trace)) && Cooperative(old(f.trace)) && step.Over? ==>
      t.StallRefused() || step.err == Error(CANCELLED) || EndsNow(old(t.incoming), step.err)
    ensures step.More? ==> t.Ready()
    ensures t.Latching() && step.Over? ==> Halted(t, progress, old(t.incoming), step.err)
    ensures old(StallsInFailBody(t.trace, 1, t.incoming, progress)) ==>
      step == Over(Error(CONNECTION_FAULT)) && t.StallRefused() && t.incoming == old(t.incoming)[8..]
  {
    hide ReadU32Le, RefusalError, AfterFailHeader, LeftOf;
    OnlyOneIsCancelled();
    ghost var s := t.incoming;
    var ok, id, arg := ReadSyncHeader(t);
    if !ok {
      NoFailYet(s, t.incoming);
      var err := CancellationOr(progress, Error(CONNECTION_FAULT));
      t.Close();
      return Over(err);
    }
    ParseHead(s);
    if id == DATA && arg <= SYNC_DATA_MAX {
      step := ReceiveChunk(t, f, progress, buffer, arg);
      NoFailYet(s, t.incoming);
    } else {
      var err := ReceiveEnd(t, progress, id, arg, s);
      step := Over(err);
    }
  }

  /** What a refusal is reported as: a cancellation, unless the message of a FAIL packet was being read. */
  function RefusalError(s: seq<byte>, left: seq<byte>): AdbError {
    if InFailBody(s, left) then Error(CONNECTION_FAULT) else Error(CANCELLED)
  }

  /** While the header of a packet is being read, and while a chunk is, no FAIL is being read. */
  lemma NoFailYet(s: seq<byte>, left: seq<byte>)
    requires |s| < |left| + 8 || (|s| >= 8 && s[..4] == DATA && |s| <= |left| + 8 + ReadU32Le(s[4..]))
    ensures RefusalError(s, left) == Error(CANCELLED)
  {
    WordsDiffer();
  }

  /** Once the header of a FAIL packet has been read, nothing else is. */
  lemma FailAtLast(s: seq<byte>, left: seq<byte>)
    requires |s| >= 8 && s[..4] == FAIL && LeftOf(left, s[8..])
    ensures ReadU32Le(s[4..]) <= SYNC_FAIL_MESSAGE_MAX ==> RefusalError(s, left) == Error(CONNECTION_FAULT)
  {
  }

  /** After a refusal at most one more poll and no send or receive took place; the refusal is what is reported,
      unless it came while the message of a FAIL packet was being read. */
  ghost predicate Halted(t: TcpTransport, progress: Progress?, s: seq<byte>, err: AdbError)
    reads t, t.onStall, progress
  {
    && t.callsAfter == 0 && t.pollsAfter <= 1 && (t.StallRefused() ==> WasRefused(progress))
    && (WasRefused(progress) ==> err == RefusalError(s, t.incoming))
    && (err == Error(CANCELLED) ==> WasRefused(progress) || EndsNow(s, Error(CANCELLED)))
  }

  /** The first chunk of the stream went into the file, and nothing else was consumed. */
  ghost predicate Took(s: seq<byte>, s': seq<byte>, data: seq<byte>, data': seq<byte>) {
    ParseData(s).chunks != [] && data' == data + ParseData(s).chunks[0]
    && ParseData(s') == DataReply(ParseData(s).chunks[1..], ParseData(s).end) && AfterFailHeader(s') == AfterFailHeader(s)
  }

  /** The download is over at this packet. It succeeds only at DONE; a failure adds nothing to the file except,
      when the chunk had been received, that chunk, or part of it if the local write failed. */
  ghost predicate Ended(s: seq<byte>, data: seq<byte>, data': seq<byte>, err: AdbError) {
    var reply := ParseData(s);
    && (err == Success ==> reply.chunks == [] && reply.end.Done? && data' == data)
    && (data' != data ==>
      && reply.chunks != [] && data <= data' <= data + reply.chunks[0]
      && (err == Error(LOCAL_WRITE_FAULT) || data' == data + reply.chunks[0]))
  }

  ghost predicate EndsNow(s: seq<byte>, err: AdbError) {
    ParseData(s).chunks == [] && err == EndError(ParseData(s).end)
  }

  /** Every packet of the reply, up to DONE or a failure. */
  method ReceiveData(t: TcpTransport, f: LocalFile, progress: Progress?) returns (err: AdbError)
    requires t.onStall == progress && t.open && t.Ready()
    modifies t`open, t`trace, t`refused, t`callsAfter, t`pollsAfter, t`incoming, f`data, f`trace, progress
    ensures !t.open
    ensures err.Success? ==> Delivered(old(t.incoming), t.incoming, old(f.data), f.data)
    ensures err.Success? && progress != null ==> progress.done == old(progress.done) + |f.data| - |old(f.data)|
    ensures err.Error? ==> PartlyDelivered(ParseData(old(t.incoming)).chunks, old(f.data), f.data, err)
    ensures Benign(old(t.trace)) && Cooperative(old(f.trace)) ==>
      t.StallRefused() || err == Error(CANCELLED) || err == EndError(ParseData(old(t.incoming)).end)
    ensures t.Latching() ==> HaltedIn(t, progress, old(t.incoming), err)
    ensures old(StallsInFailBody(t.trace, 1, t.incoming, progress)) ==>
      err == Error(CONNECTION_FAULT) && t.StallRefused() && t.incoming == old(t.incoming)[8..]
  {
    hide StallsInFailBody;
    hide ParseData, EndError, AfterFailHeader;
    var buffer := new byte[SYNC_DATA_MAX];
    ghost var all := ParseData(t.incoming);
    ghost var taken, left := [], all;
    while true
      invariant t.open && AfterFailHeader(t.incoming) == AfterFailHeader(old(t.incoming))
      invariant left == ParseData(t.incoming)
      invariant fresh(buffer) && buffer.Length == SYNC_DATA_MAX
      invariant all.chunks == taken + left.chunks && left.end == all.end
      invariant f.data == old(f.data) + Flatten(taken)
      invariant progress != null ==> progress.done == old(progress.done) + |f.data| - |old(f.data)|
      invariant Benign(old(t.trace)) && Cooperative(old(f.trace)) ==> Benign(t.trace) && Cooperative(f.trace)
      invariant t.Ready()
      invariant old(StallsInFailBody(t.trace, 1, t.incoming, progress)) ==> t.trace == old(t.trace) && t.incoming == old(t.incoming)
      decreases |left.chunks|
    {
      ghost var data := f.data;
      var step := ReceivePacket(t, f, progress, buffer);
      if step.Over? {
        EndsWithin(all.chunks, taken, left.chunks, old(f.data), data, f.data, step.err);
        return step.err;
      }
      TakeOne(all.chunks, taken, left.chunks, old(f.data), data);
      taken, left := taken + [left.chunks[0]], ParseData(t.incoming);
    }
  }

  lemma TakeOne(chunks: seq<seq<byte>>, taken: seq<seq<byte>>, left: seq<seq<byte>>, data0: seq<byte>, data: seq<byte>)
    requires left != [] && chunks == taken + left && data == data0 + Flatten(taken)
    ensures chunks == (taken + [left[0]]) + left[1..]
    ensures data + left[0] == data0 + Flatten(taken + [left[0]])
  {
    FlattenSnoc(taken, left[0]);
    Regroup(data0, Flatten(taken), left[0]);
  }

  /** The whole reply was consumed up to its DONE packet, and the file received all of its chunks. */
  ghost predicate Delivered(s: seq<byte>, s': seq<byte>, data: seq<byte>, data': seq<byte>) {
    ParseData(s).end.Done? && s' == ParseData(s).end.rest && data' == data + Flatten(ParseData(s).chunks)
  }

  /** The file received the first chunks, whole ones; only a failing local write leaves part of a chunk. */
  ghost predicate PartlyDelivered(chunks: seq<seq<byte>>, data: seq<byte>, data': seq<byte>, err: AdbError) {
    exists k :: 0 <= k <= |chunks| && WroteChunks(chunks, k, data, data', err)
  }

  ghost predicate WroteChunks(chunks: seq<seq<byte>>, k: int, data: seq<byte>, data': seq<byte>, err: AdbError)
    requires 0 <= k <= |chunks|
  {
    || data' == data + Flatten(chunks[..k])
    || (err == Error(LOCAL_WRITE_FAULT) && k < |chunks|
        && data + Flatten(chunks[..k]) <= data' <= data + Flatten(chunks[..k]) + chunks[k])
  }

  lemma EndsWithin(chunks: seq<seq<byte>>, taken: seq<seq<byte>>, rest: seq<seq<byte>>, data0: seq<byte>,
                   data: seq<byte>, data': seq<byte>, err: AdbError)
    requires chunks == taken + rest && data == data0 + Flatten(taken)
    requires data' != data ==>
      rest != [] && data <= data' <= data + rest[0] && (err == Error(LOCAL_WRITE_FAULT) || data' == data + rest[0])
    ensures PartlyDelivered(chunks, data0, data', err)
    ensures rest == [] ==> chunks == taken
  {
    var k := |taken|;
    assert chunks[..k] == taken;
    if data' == data {
      assert WroteChunks(chunks, k, data0, data', err);
    } else if err == Error(LOCAL_WRITE_FAULT) {
      assert WroteChunks(chunks, k, data0, data', err);
    } else {
      assert chunks[..k + 1] == taken + [rest[0]];
      FlattenSnoc(taken, rest[0]);
      assert WroteChunks(chunks, k + 1, data0, data', err);
    }
  }

  ghost predicate HaltedIn(t: TcpTransport, progress: Progress?, s: seq<byte>, err: AdbError)
    reads t, t.onStall, progress
  {
    && t.callsAfter == 0 && t.pollsAfter <= 1 && (t.StallRefused() ==> WasRefused(progress))
    && (WasRefused(progress) ==> err == RefusalError(s, t.incoming))
    && (err == Error(CANCELLED) ==> WasRefused(progress) || EndError(ParseData(s).end) == Error(CANCELLED))
  }

  /** The chunks and the end of the reply, given everything the server will say. */
  function Reply(incoming: seq<byte>): DataReply {
    ParseData(AfterGreeting(incoming))
  }

  /** What a download comes to on a connection that only delays. */
  function Outcome(serial: seq<byte>, incoming: seq<byte>): AdbError {
    match GreetingError(serial, incoming)
    case Success => EndError(Reply(incoming).end)
    case e => e
  }

  /** Downloads `remote` of the device `serial` into the open file `f`. */
  method Recv(t: TcpTransport?, serial: seq<byte>, remote: seq<byte>, f: LocalFile, progress: Progress?)
    returns (err: AdbError)
    requires t != null ==> Unused(t)
    requires progress != null ==> progress.Fresh()
    modifies t, f`data, f`trace, progress
    ensures !PathFits(remote) ==> err == Error(PATH_TOO_LONG) && f.data == old(f.data) && (t != null ==> t.sent == [])
    ensures PathFits(remote) && t == null ==> err == Error(NO_TRANSPORT) && f.data == old(f.data)
    ensures PathFits(remote) && t != null ==> !t.open && t.sent <= RecvTranscript(serial, remote)
    ensures err.Success? ==> t != null && PathFits(remote) && t.sent == RecvTranscript(serial, remote)
    ensures err.Success? ==>
      && Reply(old(t.incoming)).end.Done? && t.incoming == Reply(old(t.incoming)).end.rest
      && f.data == old(f.data) + Flatten(Reply(old(t.incoming)).chunks)
    ensures err.Success? && progress != null ==> progress.done == |f.data| - |old(f.data)|
    ensures err.Error? && t != null ==> PartlyDelivered(Reply(old(t.incoming)).chunks, old(f.data), f.data, err)
    ensures t != null && PathFits(remote) && (progress != null ==> progress.Latching()) ==>
      && t.callsAfter == 0 && t.pollsAfter <= 1
      && (WasRefused(progress) ==> err == RefusalError(AfterGreeting(old(t.incoming)), t.incoming))
      && (err == Error(CANCELLED) ==> WasRefused(progress) || Outcome(serial, old(t.incoming)) == Error(CANCELLED))
      && (Benign(old(t.trace)) && Cooperative(old(f.trace)) && !WasRefused(progress) ==>
            err == Outcome(serial, old(t.incoming)))
    ensures t != null && PathFits(remote) && old(RecvStallsInFail(t.trace, serial, remote, t.incoming, progress)) ==>
      err == Error(CONNECTION_FAULT) && t.StallRefused() && t.incoming == AfterGreeting(old(t.incoming))[8..]
  {
    ghost var s := if t != null then t.incoming else [];
    NothingDelivered(Reply(s).chunks, f.data);
    if !PathFits(remote) {
      return Error(PATH_TOO_LONG);
    }
    if t == null {
      return Error(NO_TRANSPORT);
    }
    StallsLater(t.trace, 4, Packets(remote) + 1, AfterGreeting(s), progress);
    err := OpenSyncTransport(t, serial);
    if err.Error? {
      return;
    }
    t.onStall := progress;
    err := RequestAndReceive(t, serial, remote, f, progress);
  }

  lemma NothingDelivered(chunks: seq<seq<byte>>, data: seq<byte>)
    ensures forall err :: PartlyDelivered(chunks, data, data, err)
  {
    assert chunks[..0] == [];
    forall err ensures PartlyDelivered(chunks, data, data, err) {
      assert WroteChunks(chunks, 0, data, data, err);
    }
  }

  /** What the device says to a download: both requests accepted, the content in chunks, DONE. */
  function DownloadStream(chunks: seq<seq<byte>>, arg: u32): seq<byte>
    requires forall i :: 0 <= i < |chunks| ==> FitsPacket(chunks[i])
  {
    OKAY + (OKAY + (DataStream(chunks) + Header(DONE, arg)))
  }

  /** However the device cuts a content into chunks, that is what the download is given to deliver, and on a
      connection that only delays the download succeeds. */
  lemma DownloadRoundTrip(serial: seq<byte>, chunks: seq<seq<byte>>, arg: u32, rest: seq<byte>)
    requires SerialFits(serial)
    requires forall i :: 0 <= i < |chunks| ==> FitsPacket(chunks[i])
    ensures Reply(DownloadStream(chunks, arg) + rest) == DataReply(chunks, Done(arg, rest))
    ensures Outcome(serial, DownloadStream(chunks, arg) + rest) == Success
  {
    var data := DataStream(chunks) + (Header(DONE, arg) + rest);
    assert DownloadStream(chunks, arg) + rest == OKAY + (OKAY + data);
    assert (OKAY + (OKAY + data))[..4] == OKAY && (OKAY + (OKAY + data))[4..] == OKAY + data;
    assert (OKAY + data)[..4] == OKAY && (OKAY + data)[4..] == data;
    ParseOfDataStream(chunks, arg, rest);
  }

  /** The same for a whole download: four transfers open the conversation, and the request and the header follow. */
  ghost predicate RecvStallsInFail(trace: seq<Answer>, serial: seq<byte>, remote: seq<byte>, incoming: seq<byte>,
                                   progress: Progress?)
  {
    && GreetingError(serial, incoming).Success?
    && StallsInFailBody(trace, 4 + Packets(remote) + 1, AfterGreeting(incoming), progress)
  }

  /** Before anything is read, no FAIL is being read. */
  lemma NoFailAtAll(s: seq<byte>)
    ensures RefusalError(s, s) == Error(CANCELLED)
  {
  }

  /** The conversation once it is open: the request, then the reply. */
  method RequestAndReceive(t: TcpTransport, serial: seq<byte>, remote: seq<byte>, f: LocalFile, progress: Progress?)
    returns (err: AdbError)
    requires t.onStall == progress && t.open && t.Ready() && t.sent == OpenSync(serial) && PathFits(remote)
    modifies t`open, t`trace, t`refused, t`callsAfter, t`pollsAfter, t`incoming, t`sent, f`data, f`trace, progress
    ensures old(StallsInFailBody(t.trace, Packets(remote) + 1, t.incoming, progress)) ==>
      err == Error(CONNECTION_FAULT) && t.StallRefused() && t.incoming == old(t.incoming)[8..]
    ensures !t.open && t.sent <= RecvTranscript(serial, remote)
    ensures err.Success? ==> t.sent == RecvTranscript(serial, remote)
    ensures err.Success? ==> Delivered(old(t.incoming), t.incoming, old(f.data), f.data)
    ensures err.Success? && progress != null ==> progress.done == old(progress.done) + |f.data| - |old(f.data)|
    ensures err.Error? ==> PartlyDelivered(ParseData(old(t.incoming)).chunks, old(f.data), f.data, err)
    ensures Benign(old(t.trace)) && Cooperative(old(f.trace)) ==>
      t.StallRefused() || err == Error(CANCELLED) || err == EndError(ParseData(old(t.incoming)).end)
    ensures t.Latching() ==> HaltedIn(t, progress, old(t.incoming), err)
  {
    hide ParseData, StallsInFailBody, AfterFailHeader;
    NothingDelivered(ParseData(t.incoming).chunks, f.data);
    OnlyOneIsCancelled();
    StallsLater(t.trace, Packets(remote), 1, t.incoming, progress);
    NoFailAtAll(t.incoming);
    var ok := WriteSyncPacket(t, RECV, |remote|, remote);
    if !ok {
      err := CancellationOr(progress, Error(CONNECTION_FAULT));
      t.Close();
      return;
    }
    err := ReceiveData(t, f, progress);
  }
}
