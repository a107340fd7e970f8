/** The SHELL conversation: one command, whose output is all the device says until it hangs up. */
module ShellCommand {
  import opened Bytes
  import opened Transport
  import opened Wire
  import opened Client

  const SHELL_READ_CHUNK_SIZE: nat := 4096

  function ShellService(command: seq<byte>): seq<byte> {
    Ascii("shell:") + command
  }

  /** Everything a command puts on the wire. */
  function Transcript(serial: seq<byte>, command: seq<byte>): seq<byte> {
    EncodeHostRequest(BindService(serial)) + EncodeHostRequest(ShellService(command))
  }

  /** What opening a shell conversation comes to, given all the server will say. */
  function OpenError(serial: seq<byte>, command: seq<byte>, incoming: seq<byte>): AdbError {
    match RequestError(BindService(serial), incoming)
    case Error(m) => Error(m)
    case Success => RequestError(ShellService(command), ParseStatus(incoming).rest)
  }

  /** Collects what is sent until the end of the stream. */
  method ReadToEnd(t: TcpTransport) returns (ok: bool, output: seq<byte>)
    requires t.onStall == null && t.Quiet() && t.open
    modifies t`trace, t`refused, t`callsAfter, t`pollsAfter, t`incoming
    ensures old(t.incoming) == output + t.incoming
    ensures Benign(old(t.trace)) ==> Benign(t.trace) && ok && t.incoming == []
    ensures t.Quiet()
  {
    output := [];
    var buffer := new byte[SHELL_READ_CHUNK_SIZE];
    while true
      invariant t.onStall == null && t.Quiet() && t.open
      invariant fresh(buffer) && buffer.Length == SHELL_READ_CHUNK_SIZE
      invariant old(t.incoming) == output + t.incoming
      invariant Benign(old(t.trace)) ==> Benign(t.trace)
      decreases |t.incoming|
    {
      ghost var s := t.incoming;
      var n, errno := t.ReadSome(buffer, 0, SHELL_READ_CHUNK_SIZE);
      if n < 0 {
        return false, output;
      }
      if n == 0 {
        return true, output;
      }
      assert buffer[..n] == s[..n];
      assert s == s[..n] + s[n..];
      Regroup(output, s[..n], s[n..]);
      output := output + buffer[..n];
    }
  }

  /** Runs a command on a device. There is no exit status: success means only that the stream ended. */
  method Run(t: TcpTransport?, serial: seq<byte>, command: seq<byte>) returns (err: AdbError, output: seq<byte>)
    requires t != null ==> Unused(t)
    modifies t
    ensures t == null ==> err == Error(NO_TRANSPORT) && output == []
    ensures t != null ==> !t.open
    ensures t != null ==> t.sent <= Transcript(serial, command)
    ensures output != [] || err.Success? ==>
      && t != null && ParseGreeting(old(t.incoming)).Okay? && AfterGreeting(old(t.incoming)) == output + t.incoming
      && t.sent == Transcript(serial, command)
    ensures t != null && Benign(old(t.trace)) ==>
      && err == OpenError(serial, command, old(t.incoming))
      && (err.Success? ==> output == AfterGreeting(old(t.incoming)))
  {
    hide EncodeHostRequest, BindService, ShellService, ParseStatus, StatusError;
    output := [];
    if t == null {
      return Error(NO_TRANSPORT), [];
    }
    var bind, shell := BindService(serial), ShellService(command);
    err := SendRequestAndCheckStatus(t, bind);
    PrefixOfSum(t.sent, EncodeHostRequest(bind), EncodeHostRequest(shell));
    if err.Error? {
      t.Close();
      return;
    }
    err := SendRequestAndCheckStatus(t, shell);
    if err.Error? {
      t.Close();
      return;
    }
    var ok;
    ok, output := ReadToEnd(t);
    t.Close();
    err := if ok then Success else Error(CONNECTION_FAULT);
  }
}
