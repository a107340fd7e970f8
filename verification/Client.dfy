/** What every conversation with the adb server shares: requests, statuses, packets, FAIL messages. */
module Client {
  import opened Bytes
  import opened Transport
  import opened Wire

  datatype AdbError = Success | Error(message: seq<byte>)

  // Failure texts. Only "cancelled" is a sentinel; the others stand for wording that is not modelled.
  const CANCELLED: seq<byte> := Ascii("cancelled")
  const NO_TRANSPORT: seq<byte> := Ascii("failed to create transport")
  const CONNECTION_FAULT: seq<byte> := Ascii("failed to talk to adb server")
  const REQUEST_TOO_LONG: seq<byte> := Ascii("request too long for the adb protocol")
  const PATH_TOO_LONG: seq<byte> := Ascii("remote path too long for sync protocol")
  const MALFORMED_REPLY: seq<byte> := Ascii("malformed reply from adb server")
  const OVERSIZED_CHUNK: seq<byte> := Ascii("adb server sent an oversized DATA chunk")
  const OVERSIZED_FAIL: seq<byte> := Ascii("oversized FAIL message from adb server")
  const LOCAL_READ_FAULT: seq<byte> := Ascii("failed to read from local file")
  const LOCAL_WRITE_FAULT: seq<byte> := Ascii("failed to write to local file")

  lemma OnlyOneIsCancelled()
    ensures CANCELLED != CONNECTION_FAULT && CANCELLED != REQUEST_TOO_LONG && CANCELLED != PATH_TOO_LONG
    ensures CANCELLED != MALFORMED_REPLY && CANCELLED != OVERSIZED_CHUNK && CANCELLED != OVERSIZED_FAIL
    ensures CANCELLED != LOCAL_READ_FAULT && CANCELLED != LOCAL_WRITE_FAULT && CANCELLED != NO_TRANSPORT
    ensures CONNECTION_FAULT != [] && OVERSIZED_FAIL != []
  {
    assert |CANCELLED| == 9;
    assert |CONNECTION_FAULT| == 28 && |REQUEST_TOO_LONG| == 37 && |PATH_TOO_LONG| == 38 && |MALFORMED_REPLY| == 31;
    assert |OVERSIZED_CHUNK| == 39 && |OVERSIZED_FAIL| == 38 && |LOCAL_READ_FAULT| == 30 && |LOCAL_WRITE_FAULT| == 29;
    assert |NO_TRANSPORT| == 26;
  }

  lemma FaultsHaveText()
    ensures CONNECTION_FAULT != [] && OVERSIZED_FAIL != []
  {
    assert |CONNECTION_FAULT| == 28 && |OVERSIZED_FAIL| == 38;
  }

  /** Receives exactly `n` octets into a buffer of their own. */
  method Receive(t: TcpTransport, n: nat) returns (ok: bool, data: seq<byte>)
    requires t.Ready()
    modifies t`trace, t`refused, t`callsAfter, t`pollsAfter, t`incoming, t.onStall
    ensures ok ==> n <= |old(t.incoming)| && data == old(t.incoming)[..n] && t.incoming == old(t.incoming)[n..]
    ensures !ok ==> LeftOf(t.incoming, old(t.incoming)) && |old(t.incoming)| < |t.incoming| + n
    ensures t.onStall != null ==> t.onStall.done == old(t.onStall.done)
    ensures Benign(old(t.trace)) ==> Benign(t.trace)
    ensures Benign(old(t.trace)) && t.open && n <= |old(t.incoming)| && !ok ==> t.StallRefused()
    ensures t.Settled() && (ok ==> t.Ready())
    ensures t.open && Brisk(old(t.trace), 1) && 0 < n <= LOTS && n <= |old(t.incoming)| ==> ok && t.trace == old(t.trace)[1..]
    ensures t.open && Stalls(old(t.trace)) && old(t.Refusing()) && n > 0 ==>
      !ok && t.StallRefused() && t.incoming == old(t.incoming)
  {
    var buf := new byte[n];
    ok := t.ReadExactly(buf, 0, n);
    data := buf[..];
  }

  /** The error a status reply amounts to. */
  function StatusError(reply: StatusReply): AdbError {
    match reply
    case Okay(_) => Success
    case Refused(message, _) => Error(message)
    case BadStatus => Error(MALFORMED_REPLY)
    case CutStatus => Error(CONNECTION_FAULT)
  }

  /** What a request comes to, given all the server will say. */
  function RequestError(service: seq<byte>, incoming: seq<byte>): AdbError {
    if |service| > HOST_REQUEST_MAX_SIZE then Error(REQUEST_TOO_LONG) else StatusError(ParseStatus(incoming))
  }

  /** Sends a framed request and reads the status that answers it; on FAIL the server's message is the error. */
  method SendRequestAndCheckStatus(t: TcpTransport, service: seq<byte>) returns (err: AdbError)
    requires t.onStall == null && t.Quiet() && t.open
    modifies t`trace, t`refused, t`callsAfter, t`pollsAfter, t`incoming, t`sent
    ensures old(t.sent) <= t.sent <= old(t.sent) + EncodeHostRequest(service)
    ensures err.Success? ==> |service| <= HOST_REQUEST_MAX_SIZE && t.sent == old(t.sent) + EncodeHostRequest(service)
    ensures err.Success? ==> ParseStatus(old(t.incoming)) == Okay(t.incoming)
    ensures Benign(old(t.trace)) ==> Benign(t.trace)
    ensures err == RequestError(service, old(t.incoming)) || (err == Error(CONNECTION_FAULT) && !Benign(old(t.trace)))
    ensures t.Quiet()
    ensures Brisk(old(t.trace), 2) && RequestError(service, old(t.incoming)).Success? ==>
      err.Success? && t.trace == old(t.trace)[2..]
  {
    ghost var trace := t.trace;
    var request := EncodeHostRequest(service);
    if request == [] {
      return Error(REQUEST_TOO_LONG);
    }
    var ok := t.WriteAll(request);
    if !ok {
      return Error(CONNECTION_FAULT);
    }
    ghost var s := t.incoming;
    var status;
    ok, status := Receive(t, 4);
    if !ok {
      return Error(CONNECTION_FAULT);
    }
    if status == OKAY {
      assert |trace| >= 2 ==> trace[1..][1..] == trace[2..];
      return Success;
    }
    if status != FAIL {
      return Error(MALFORMED_REPLY);
    }
    err := ReadLengthPrefixedMessage(t, s);
  }

  /** Reads the length-prefixed message of a refused request, which becomes the error. */
  method ReadLengthPrefixedMessage(t: TcpTransport, ghost s: seq<byte>) returns (err: AdbError)
    requires t.onStall == null && t.Quiet() && t.open
    requires |s| >= 4 && s[..4] == FAIL && t.incoming == s[4..]
    modifies t`trace, t`refused, t`callsAfter, t`pollsAfter, t`incoming
    ensures err.Error?
    ensures Benign(old(t.trace)) ==> Benign(t.trace)
    ensures err == StatusError(ParseStatus(s)) || (err == Error(CONNECTION_FAULT) && !Benign(old(t.trace)))
    ensures t.Quiet()
  {
    hide ParseStatus, IsHex4, Hex4Value, Brisk;
    var ok, digits := Receive(t, 4);
    RefusalParts(s);
    if !ok {
      return Error(CONNECTION_FAULT);
    }
    assert digits == s[4..8];
    var len, valid := ParseHexLength(digits);
    if !valid {
      return Error(MALFORMED_REPLY);
    }
    var message;
    ok, message := Receive(t, len);
    if !ok {
      return Error(CONNECTION_FAULT);
    }
    assert message == s[8..8 + len];
    err := Error(message);
  }

  /** What a refusal comes to: cut off before its length, a length that is none, cut off before its end, a message. */
  lemma RefusalParts(s: seq<byte>)
    requires |s| >= 4 && s[..4] == FAIL
    ensures StatusError(ParseStatus(s)) ==
      if |s| < 8 then Error(CONNECTION_FAULT)
      else if !IsHex4(s[4..8]) then Error(MALFORMED_REPLY)
      else if |s| - 8 < Hex4Value(s[4..8]) then Error(CONNECTION_FAULT)
      else Error(s[8..8 + Hex4Value(s[4..8])])
  {
    WordsDiffer();
    if |s| >= 8 {
      assert forall i :: 0 <= i < 4 ==> s[4..8][i] == s[4..][i];
    }
  }

  predicate SerialFits(serial: seq<byte>) {
    |serial| + 15 <= HOST_REQUEST_MAX_SIZE
  }

  /** What opening a sync conversation comes to, given all the server will say. */
  function GreetingError(serial: seq<byte>, incoming: seq<byte>): AdbError {
    if SerialFits(serial) then StatusError(ParseGreeting(incoming)) else Error(REQUEST_TOO_LONG)
  }

  /** Binds a fresh connection to a device and switches it to the sync protocol. */
  method OpenSyncTransport(t: TcpTransport, serial: seq<byte>) returns (err: AdbError)
    requires t.onStall == null && t.open && t.sent == [] && t.Quiet()
    modifies t`open, t`trace, t`refused, t`callsAfter, t`pollsAfter, t`incoming, t`sent
    ensures t.sent <= OpenSync(serial) && t.Quiet()
    ensures err.Success? ==> t.open && t.sent == OpenSync(serial) && SerialFits(serial)
    ensures err.Success? ==> ParseGreeting(old(t.incoming)) == Okay(t.incoming)
    ensures err.Error? ==> !t.open
    ensures Benign(old(t.trace)) ==> Benign(t.trace)
    ensures err == GreetingError(serial, old(t.incoming)) || (err == Error(CONNECTION_FAULT) && !Benign(old(t.trace)))
    ensures Brisk(old(t.trace), 4) && GreetingError(serial, old(t.incoming)).Success? ==>
      err.Success? && t.trace == old(t.trace)[4..]
  {
    ghost var trace := t.trace;
    if Brisk(trace, 4) {
      BriskSplit(trace, 2, 2);
      assert trace[2..][2..] == trace[4..];
    }
    var bind, sync := BindService(serial), SyncService();
    err := SendRequestAndCheckStatus(t, bind);
    assert t.sent <= EncodeHostRequest(bind);
    PrefixOfSum(t.sent, EncodeHostRequest(bind), EncodeHostRequest(sync));
    if err.Error? {
      t.Close();
      return;
    }
    assert t.sent == EncodeHostRequest(bind);
    err := SendRequestAndCheckStatus(t, sync);
    if err.Error? {
      t.Close();
    }
  }

  /** In how many writes a packet goes out. */
  function Packets(payload: seq<byte>): nat {
    if payload == [] then 1 else 2
  }

  /** One sync packet: header, then payload if any. */
  method WriteSyncPacket(t: TcpTransport, id: seq<byte>, arg: u32, payload: seq<byte>) returns (ok: bool)
    requires t.Ready() && |id| == 4
    modifies t`trace, t`refused, t`callsAfter, t`pollsAfter, t`sent, t.onStall
    ensures ok ==> t.sent == old(t.sent) + (Header(id, arg) + payload)
    ensures old(t.sent) <= t.sent <= old(t.sent) + (Header(id, arg) + payload)
    ensures t.onStall != null ==> t.onStall.done == old(t.onStall.done)
    ensures Benign(old(t.trace)) ==> Benign(t.trace)
    ensures Benign(old(t.trace)) && t.open && !ok ==> t.StallRefused()
    ensures t.Settled() && (ok ==> t.Ready())
    ensures t.open && |payload| <= LOTS && Brisk(old(t.trace), Packets(payload)) ==>
      ok && t.trace == old(t.trace)[Packets(payload)..]
  {
    ghost var trace := t.trace;
    if Brisk(trace, 2) {
      assert Brisk(trace[1..], 1) && trace[1..][1..] == trace[2..];
    }
    Regroup(t.sent, Header(id, arg), payload);
    ok := t.WriteAll(Header(id, arg));
    if !ok {
      return;
    }
    if payload != [] {
      ok := t.WriteAll(payload);
    }
  }

  /** An 8-octet header: its id and its argument. */
  method ReadSyncHeader(t: TcpTransport) returns (ok: bool, id: seq<byte>, arg: u32)
    requires t.Ready()
    modifies t`trace, t`refused, t`callsAfter, t`pollsAfter, t`incoming, t.onStall
    ensures ok ==> 8 <= |old(t.incoming)| && t.incoming == old(t.incoming)[8..]
    ensures ok ==> id == old(t.incoming)[..4] && arg == ReadU32Le(old(t.incoming)[4..])
    ensures !ok ==> LeftOf(t.incoming, old(t.incoming)) && |old(t.incoming)| < |t.incoming| + 8
    ensures t.onStall != null ==> t.onStall.done == old(t.onStall.done)
    ensures Benign(old(t.trace)) ==> Benign(t.trace)
    ensures Benign(old(t.trace)) && t.open && 8 <= |old(t.incoming)| && !ok ==> t.StallRefused()
    ensures t.Settled() && (ok ==> t.Ready())
    ensures t.open && Brisk(old(t.trace), 1) && 8 <= |old(t.incoming)| ==> ok && t.trace == old(t.trace)[1..]
  {
    var buf;
    id, arg := [], 0;
    ghost var s := t.incoming;
    ok, buf := Receive(t, 8);
    if ok {
      assert forall i :: 0 <= i < 4 ==> buf[4..][i] == s[4..][i];
      id, arg := buf[..4], ReadU32Le(buf[4..]);
    }
  }

  /** The error a FAIL packet amounts to. */
  function FailError(end: DataEnd): (r: AdbError)
    ensures r.Error?
  {
    if end.Failed? then Error(end.message) else if end.OversizedFail? then Error(OVERSIZED_FAIL) else Error(CONNECTION_FAULT)
  }

  /** Reads the body of a FAIL packet, which becomes the error; its length is bounded before anything is read. */
  method ReadSyncFailMessage(t: TcpTransport, len: u32) returns (err: AdbError)
    requires t.Ready()
    modifies t`trace, t`refused, t`callsAfter, t`pollsAfter, t`incoming, t.onStall
    ensures err.Error?
    ensures err == Error(CONNECTION_FAULT) || err == FailError(ParseFail(len, old(t.incoming)))
    ensures len > SYNC_FAIL_MESSAGE_MAX ==>
      err == Error(OVERSIZED_FAIL) && t.incoming == old(t.incoming) && t.Ready()
    ensures t.onStall != null ==> t.onStall.done == old(t.onStall.done)
    ensures Benign(old(t.trace)) ==> Benign(t.trace)
    ensures Benign(old(t.trace)) && t.open ==> t.StallRefused() || err == FailError(ParseFail(len, old(t.incoming)))
    ensures t.Settled() && (err != Error(CONNECTION_FAULT) ==> t.Ready())
    ensures LeftOf(t.incoming, old(t.incoming))
    ensures t.open && Stalls(old(t.trace)) && old(t.Refusing()) && 0 < len <= SYNC_FAIL_MESSAGE_MAX ==>
      err == Error(CONNECTION_FAULT) && t.StallRefused() && t.incoming == old(t.incoming)
  {
    if len > SYNC_FAIL_MESSAGE_MAX {
      return Error(OVERSIZED_FAIL);
    }
    var ok, message := Receive(t, len);
    if !ok {
      return Error(CONNECTION_FAULT);
    }
    err := Error(message);
  }

  /** Reads the body of a FAIL packet as the end of a conversation. A refusal meanwhile is not looked for. */
  method EndInFail(t: TcpTransport, progress: Progress?, len: u32) returns (err: AdbError)
    requires t.onStall == progress && t.open && t.Ready()
    modifies t`open, t`trace, t`refused, t`callsAfter, t`pollsAfter, t`incoming, progress
    ensures !t.open && err.Error?
    ensures err == Error(CONNECTION_FAULT) || err == FailError(ParseFail(len, old(t.incoming)))
    ensures progress != null ==> progress.done == old(progress.done)
    ensures LeftOf(t.incoming, old(t.incoming))
    ensures Benign(old(t.trace)) ==> Benign(t.trace)
    ensures Benign(old(t.trace)) ==> t.StallRefused() || err == FailError(ParseFail(len, old(t.incoming)))
    ensures t.Latching() ==> t.callsAfter == 0 && t.pollsAfter <= 1 && (t.StallRefused() <==> WasRefused(progress))
    ensures t.Latching() && WasRefused(progress) ==> err == Error(CONNECTION_FAULT) && len <= SYNC_FAIL_MESSAGE_MAX
    ensures Stalls(old(t.trace)) && old(t.Refusing()) && 0 < len <= SYNC_FAIL_MESSAGE_MAX ==>
      err == Error(CONNECTION_FAULT) && t.StallRefused() && t.incoming == old(t.incoming)
  {
    err := ReadSyncFailMessage(t, len);
    t.Close();
  }

  /** After a failed write: a complete FAIL packet that is already waiting, as the better explanation. */
  method ReadPendingSyncFail(t: TcpTransport) returns (found: bool, message: seq<byte>)
    requires t.Ready()
    modifies t`trace, t`refused, t`callsAfter, t`pollsAfter, t`incoming, t.onStall
    ensures found ==> message != [] && PendingFail(old(t.incoming), message)
    ensures t.onStall != null ==> t.onStall.done == old(t.onStall.done)
    ensures Benign(old(t.trace)) ==> Benign(t.trace)
    ensures Benign(old(t.trace)) && t.open && !t.StallRefused() ==>
      && (found <==> FailWaits(old(t.incoming)))
      && (found ==> Error(message) == WaitingFail(old(t.incoming)))
    ensures t.Settled()
  {
    hide ReadU32Le, ParseFail, FailError, CONNECTION_FAULT, OVERSIZED_FAIL, LeftOf, Stalls, Brisk, TcpTransport.Refusing,
         TcpTransport.Waiting, TcpTransport.Stopped, Progress.Latching;
    found, message := false, [];
    var ok, id, arg := ReadSyncHeader(t);
    if !ok || id != FAIL {
      return;
    }
    FaultsHaveText();
    var err := ReadSyncFailMessage(t, arg);
    found, message := err.message != [], err.message;
  }

  /** What a FAIL packet at the head of the stream amounts to: its message, or that it is too long or cut off. */
  function WaitingFail(s: seq<byte>): AdbError
    requires |s| >= 8
  {
    FailError(ParseFail(ReadU32Le(s[4..]), s[8..]))
  }

  /** A FAIL packet with something to say is at the head of the stream. */
  predicate FailWaits(s: seq<byte>) {
    |s| >= 8 && s[..4] == FAIL && WaitingFail(s).message != []
  }

  /** `message` is what a FAIL packet at the head of the stream says, or that it could not be read. */
  ghost predicate PendingFail(s: seq<byte>, message: seq<byte>) {
    |s| >= 8 && s[..4] == FAIL &&
    (message == CONNECTION_FAULT || Error(message) == WaitingFail(s))
  }

  /** The outcome of a conversation whose transport failed: a stall the caller gave up on is a cancellation. */
  method CancellationOr(progress: Progress?, err: AdbError) returns (r: AdbError)
    ensures r == if progress != null && progress.stallCancelled then Error(CANCELLED) else err
  {
    if progress != null && progress.stallCancelled {
      return Error(CANCELLED);
    }
    return err;
  }

  /** A connection nothing has been said on yet. */
  ghost predicate Unused(t: TcpTransport)
    reads t
  {
    t.open && t.sent == [] && t.onStall == null && t.Quiet()
  }

  /** The caller has said stop. */
  ghost predicate WasRefused(progress: Progress?)
    reads progress
  {
    progress != null && progress.Refused()
  }

  /** May the transfer go on? Asked once per chunk; always yes without a callback. */
  method ShouldContinue(t: TcpTransport, progress: Progress?) returns (keepGoing: bool)
    modifies progress, t`refused
    ensures progress == null ==> keepGoing
    ensures progress != null ==>
      && progress.polls == old(progress.polls) + 1 && keepGoing == progress.answer(old(progress.polls))
      && progress.done == old(progress.done) && progress.lastDone == progress.done
      && progress.stallCancelled == old(progress.stallCancelled)
    ensures t.refused == (old(t.refused) || !keepGoing)
  {
    keepGoing := true;
    if progress != null {
      keepGoing := progress.Ask();
    }
    t.refused := t.refused || !keepGoing;
  }

  /** The device's reply starts with a FAIL packet that has something to say, the connection stalls after `k` prompt
      transfers, and the callback always says stop. */
  ghost predicate StallsInFailBody(trace: seq<Answer>, k: nat, reply: seq<byte>, progress: Progress?) {
    && progress != null && progress.AlwaysStop() && Brisk(trace, k) && Stalls(trace[k..])
    && |reply| >= 8 && reply[..4] == FAIL && 0 < ReadU32Le(reply[4..]) <= SYNC_FAIL_MESSAGE_MAX
  }

  lemma StallsLater(trace: seq<Answer>, a: nat, b: nat, reply: seq<byte>, progress: Progress?)
    ensures StallsInFailBody(trace, a + b, reply, progress) ==>
      Brisk(trace, a) && StallsInFailBody(trace[a..], b, reply, progress)
  {
    if StallsInFailBody(trace, a + b, reply, progress) {
      BriskSplit(trace, a, b);
      assert trace[a..][b..] == trace[a + b..];
    }
  }

  /** An open local file. A write appends; a read takes what follows `pos`. */
  class LocalFile {
    var data: seq<byte>
    var pos: nat
    var trace: seq<Answer>

    constructor (data: seq<byte>, trace: seq<Answer>)
      ensures this.data == data && pos == 0 && this.trace == trace
    {
      this.data, pos, this.trace := data, 0, trace;
    }

    method NextAnswer(n: nat) returns (a: Answer)
      modifies this`trace
      ensures old(trace) == [] ==> trace == [] && a == Moves(n)
      ensures old(trace) != [] ==> trace == old(trace)[1..] && a == old(trace)[0]
    {
      if trace == [] {
        a := Moves(n);
      } else {
        a, trace := trace[0], trace[1..];
      }
    }

    /** Writes all of `buf`, repeating after short writes and interrupts. */
    method WriteAll(buf: seq<byte>) returns (ok: bool)
      modifies this`data, this`trace
      ensures ok ==> data == old(data) + buf
      ensures old(data) <= data <= old(data) + buf
      ensures Cooperative(old(trace)) ==> Cooperative(trace) && ok
    {
      var done := 0;
      while done < |buf|
        invariant 0 <= done <= |buf| && data == old(data) + buf[..done]
        invariant Cooperative(old(trace)) ==> Cooperative(trace)
        decreases |buf| - done, |trace|
      {
        var a := NextAnswer(|buf| - done);
        if a == Fails(EINTR) {
          continue;
        }
        if !a.Moves? {
          return false;
        }
        var result := MovedBy(a, |buf| - done);
        data := data + buf[done..done + result];
        done := done + result;
      }
      return true;
    }

    /** Reads exactly `n` octets, repeating after short reads and interrupts; false if the file ends first. */
    method ReadAll(n: nat) returns (ok: bool, buf: seq<byte>)
      requires pos <= |data|
      modifies this`pos, this`trace
      ensures pos <= |data|
      ensures ok ==> old(pos) + n <= |data| && buf == data[old(pos)..old(pos) + n] && pos == old(pos) + n
      ensures Cooperative(old(trace)) ==> Cooperative(trace) && (old(pos) + n <= |data| ==> ok)
    {
      var done := 0;
      while done < n
        invariant 0 <= done <= n && pos == old(pos) + done && pos <= |data|
        invariant Cooperative(old(trace)) ==> Cooperative(trace)
        decreases n - done, |trace|
      {
        var a := NextAnswer(n - done);
        if a == Fails(EINTR) {
          continue;
        }
        if !a.Moves? {
          return false, [];
        }
        var result := Min(MovedBy(a, n - done), |data| - pos);
        if result == 0 {
          return false, [];
        }
        pos := pos + result;
        done := done + result;
      }
      return true, data[pos - n..pos];
    }
  }

  /** A local file system that only ever moves octets or interrupts. */
  ghost predicate Cooperative(trace: seq<Answer>) {
    forall i :: 0 <= i < |trace| ==> trace[i].Moves? || trace[i] == Fails(EINTR)
  }
}
