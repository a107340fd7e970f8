/** The other end of the connection: what the adb server and the device read in the client's requests, and what they
    answer. */
module Server {
  import opened Bytes
  import opened Client
  import opened Optional
  import opened Wire
  import Decimal
  import ShellCommand
  import SyncList
  import SyncRecv
  import SyncSend

  // ----- requests -----

  datatype Request =
    | Pull(path: seq<byte>)
    | Enumerate(path: seq<byte>)
    | Inspect(path: seq<byte>)
    | Execute(command: seq<byte>)

  /** One request, and the device it is for. */
  datatype Conversation = Conversation(serial: seq<byte>, request: Request)

  function ReadSyncRequest(id: seq<byte>, payload: seq<byte>): Option<Request> {
    if id == Ascii("RECV") then Some(Pull(payload))
    else if id == Ascii("LIST") then Some(Enumerate(payload))
    else if id == Ascii("STAT") then Some(Inspect(payload))
    else None
  }

  /** What the second service asks for; a sync service is followed by a packet. */
  function ReadService(service: seq<byte>, s: seq<byte>): Option<(Request, seq<byte>)> {
    if |service| >= 6 && service[..6] == Ascii("shell:") then Some((Execute(service[6..]), s))
    else if service != Ascii("sync:") then None
    else
      match ReadPacket(s)
      case None => None
      case Some((id, payload, rest)) =>
        match ReadSyncRequest(id, payload)
        case None => None
        case Some(request) => Some((request, rest))
  }

  /** The server reading one conversation off the stream: the device, what is asked of it, and what follows. */
  function ReadConversation(s: seq<byte>): Option<(Conversation, seq<byte>)> {
    match ReadHostRequest(s)
    case None => None
    case Some((bind, afterBind)) =>
      if |bind| < 15 || bind[..15] != Ascii("host:transport:") then None
      else
        match ReadHostRequest(afterBind)
        case None => None
        case Some((service, rest)) =>
          match ReadService(service, rest)
          case None => None
          case Some((request, left)) => Some((Conversation(bind[15..], request), left))
  }

  lemma ReadOfBinding(serial: seq<byte>, service: seq<byte>, rest: seq<byte>)
    requires SerialFits(serial) && |service| <= HOST_REQUEST_MAX_SIZE
    ensures ReadConversation(EncodeHostRequest(BindService(serial)) + EncodeHostRequest(service) + rest) ==
      match ReadService(service, rest)
      case None => None
      case Some((request, left)) => Some((Conversation(serial, request), left))
  {
    hide ReadHostRequest, EncodeHostRequest, ReadService;
    var bind := BindService(serial);
    Regroup(EncodeHostRequest(bind), EncodeHostRequest(service), rest);
    ReadOfHostRequest(bind, EncodeHostRequest(service) + rest);
    ReadOfHostRequest(service, rest);
    assert bind[..15] == Ascii("host:transport:") && bind[15..] == serial;
  }

  lemma ReadOfSyncRequest(serial: seq<byte>, id: seq<byte>, path: seq<byte>, rest: seq<byte>)
    requires SerialFits(serial) && PathFits(path) && |id| == 4 && ReadSyncRequest(id, path).Some?
    ensures ReadConversation(OpenSync(serial) + Packet(id, path) + rest)
         == Some((Conversation(serial, ReadSyncRequest(id, path).value), rest))
  {
    hide ReadConversation, EncodeHostRequest, BindService, ReadPacket, Packet, ReadSyncRequest;
    var request := Packet(id, path);
    Regroup(OpenSync(serial), request, rest);
    ReadOfBinding(serial, SyncService(), request + rest);
    ReadOfPacket(id, path, rest);
    assert SyncService()[0] == 's' as int && SyncService()[1] == 'y' as int;
  }

  /** A download asks the device for exactly that file, whatever octets its path holds and whatever follows. */
  lemma RecvIsRead(serial: seq<byte>, remote: seq<byte>, rest: seq<byte>)
    requires |serial| + 15 <= 0xFFFF && |remote| <= 1024
    ensures ReadConversation(SyncRecv.RecvTranscript(serial, remote) + rest) == Some((Conversation(serial, Pull(remote)), rest))
  {
    hide ReadConversation, OpenSync, Packet;
    ReadOfSyncRequest(serial, RECV, remote, rest);
  }

  /** A listing asks for exactly that directory. */
  lemma ListIsRead(serial: seq<byte>, path: seq<byte>, rest: seq<byte>)
    requires |serial| + 15 <= 0xFFFF && |path| <= 1024
    ensures ReadConversation(OpenSync(serial) + SyncList.ListRequest(path) + rest)
         == Some((Conversation(serial, Enumerate(path)), rest))
  {
    hide ReadConversation, OpenSync, Packet;
    WordsAreDistinct();
    ReadOfSyncRequest(serial, LIST, path, rest);
  }

  /** A stat asks about exactly that path. */
  lemma StatIsRead(serial: seq<byte>, path: seq<byte>, rest: seq<byte>)
    requires |serial| + 15 <= 0xFFFF && |path| <= 1024
    ensures ReadConversation(OpenSync(serial) + SyncList.StatRequest(path) + rest)
         == Some((Conversation(serial, Inspect(path)), rest))
  {
    hide ReadConversation, OpenSync, Packet;
    WordsAreDistinct();
    ReadOfSyncRequest(serial, STAT, path, rest);
  }

  lemma WordsAreDistinct()
    ensures LIST != Ascii("RECV") && STAT != Ascii("RECV") && STAT != Ascii("LIST")
  {
    assert LIST[0] == 'L' as int && STAT[0] == 'S' as int && RECV[0] == 'R' as int;
  }

  /** A command reaches the device's shell as it is. */
  lemma ShellIsRead(serial: seq<byte>, command: seq<byte>, rest: seq<byte>)
    requires |serial| + 15 <= 0xFFFF && |command| + 6 <= 0xFFFF
    ensures ReadConversation(ShellCommand.Transcript(serial, command) + rest)
         == Some((Conversation(serial, Execute(command)), rest))
  {
    hide ReadConversation, EncodeHostRequest, BindService;
    var service := ShellCommand.ShellService(command);
    assert service[..6] == Ascii("shell:") && service[6..] == command;
    ReadOfBinding(serial, service, rest);
  }

  // ----- the very octets -----

  lemma AsciiConcat(a: string, b: string)
    ensures Ascii(a) + Ascii(b) == Ascii(a + b)
  {
  }

  lemma Framed(service: string, digits: string)
    requires |service| <= HOST_REQUEST_MAX_SIZE && Hex4(|service|) == Ascii(digits)
    ensures EncodeHostRequest(Ascii(service)) == Ascii(digits + service)
  {
    AsciiConcat(digits, service);
  }

  lemma LengthDigits()
    ensures Hex4(16) == Ascii("0010") && Hex4(5) == Ascii("0005") && Hex4(10) == Ascii("000a") && Hex4(0xBEEF) == Ascii("beef")
  {
  }

  lemma BindOctets()
    ensures EncodeHostRequest(BindService(Ascii("S"))) == Ascii("0010host:transport:S")
  {
    hide EncodeHostRequest, Ascii, Hex4;
    assert "host:transport:" + "S" == "host:transport:S" && "0010" + "host:transport:S" == "0010host:transport:S";
    AsciiConcat("host:transport:", "S");
    LengthDigits();
    Framed("host:transport:S", "0010");
  }

  /** A download of /a from the device S, octet by octet: lengths of requests in four lower-case hexadecimal digits, those
      of packets in four octets, the least significant first. */
  lemma DownloadOctets()
    ensures SyncRecv.RecvTranscript(Ascii("S"), Ascii("/a"))
         == Ascii("0010host:transport:S") + Ascii("0005sync:") + (Ascii("RECV") + [2, 0, 0, 0] + Ascii("/a"))
  {
    hide EncodeHostRequest, Hex4, BindService;
    BindOctets();
    LengthDigits();
    Framed("sync:", "0005");
  }

  /** A command of four characters, for which the length takes a letter. */
  lemma CommandOctets()
    ensures ShellCommand.Transcript(Ascii("S"), Ascii("ls /")) == Ascii("0010host:transport:S") + Ascii("000ashell:ls /")
  {
    hide EncodeHostRequest, Hex4, BindService, Ascii;
    BindOctets();
    assert "shell:" + "ls /" == "shell:ls /" && "000a" + "shell:ls /" == "000ashell:ls /";
    AsciiConcat("shell:", "ls /");
    LengthDigits();
    Framed("shell:ls /", "000a");
  }

  /** The packets of an upload: the mode in decimal digits after a comma, one chunk, the date. */
  lemma UploadOctets()
    ensures SendRequest(Ascii("/a"), 33188) == Ascii("SEND") + [8, 0, 0, 0] + Ascii("/a,33188")
    ensures DataStream(Chunks(Ascii("hi"))) == Ascii("DATA") + [2, 0, 0, 0] + Ascii("hi")
    ensures Header(DONE, MtimeArg(0x1_6543_21AB)) == Ascii("DONE") + [0xAB, 0x21, 0x43, 0x65]
  {
    ModeDigits();
    assert EncodeSendPathSpec(Ascii("/a"), 33188) == Ascii("/a,33188");
    assert SendRequest(Ascii("/a"), 33188) == Ascii("SEND") + [8, 0, 0, 0] + Ascii("/a,33188");
    var hi := Ascii("hi");
    assert hi[..2] == hi && hi[2..] == [];
    assert Chunks(hi) == [hi];
    assert DataStream([hi]) == Packet(DATA, hi) + DataStream([]);
    assert Packet(DATA, hi) == Ascii("DATA") + [2, 0, 0, 0] + hi;
  }

  lemma ModeDigits()
    ensures Decimal.ToBytes(33188) == Ascii("33188")
  {
    assert Decimal.Digits(3) == [3];
    assert Decimal.Digits(33) == [3, 3];
    assert Decimal.Digits(331) == [3, 3, 1];
    assert Decimal.Digits(3318) == [3, 3, 1, 8];
    assert Decimal.Digits(33188) == [3, 3, 1, 8, 8];
  }

  // ----- answers -----

  /** A request is refused, with a message. */
  function Refusal(message: seq<byte>): seq<byte>
    requires |message| <= HOST_REQUEST_MAX_SIZE
  {
    Ascii("FAIL") + (Hex4(|message|) + message)
  }

  /** Both opening requests are accepted, and then the device has this to say. */
  function Accepted(reply: seq<byte>): seq<byte> {
    Ascii("OKAY") + (Ascii("OKAY") + reply)
  }

  lemma StatusOfRefusal(message: seq<byte>, rest: seq<byte>)
    requires |message| <= HOST_REQUEST_MAX_SIZE
    ensures ParseStatus(Refusal(message) + rest) == Refused(message, rest)
  {
    hide Hex4;
    var s := Refusal(message) + rest;
    WordsDiffer();
    Hex4RoundTrip(|message|);
    assert s[..4] == FAIL && s[4..] == Hex4(|message|) + (message + rest);
    assert forall i :: 0 <= i < 4 ==> s[4..][i] == Hex4(|message|)[i];
    assert s[8..] == message + rest;
    assert s[8..8 + |message|] == s[8..][..|message|] && s[8 + |message|..] == s[8..][|message|..];
  }

  lemma StatusOfOkay(rest: seq<byte>)
    ensures ParseStatus(Ascii("OKAY") + rest) == Okay(rest)
  {
    assert (Ascii("OKAY") + rest)[..4] == OKAY && (Ascii("OKAY") + rest)[4..] == rest;
  }

  /** A conversation opens when both requests are accepted; if either is refused, the server's message is the error. */
  lemma GreetingIsRead(serial: seq<byte>, message: seq<byte>, reply: seq<byte>)
    requires |serial| + 15 <= 0xFFFF && |message| <= 0xFFFF
    ensures ParseGreeting(Accepted(reply)) == Okay(reply) && GreetingError(serial, Accepted(reply)) == Success
    ensures GreetingError(serial, Refusal(message) + reply) == Error(message)
    ensures GreetingError(serial, Ascii("OKAY") + (Refusal(message) + reply)) == Error(message)
  {
    hide ParseStatus, Refusal;
    StatusOfOkay(Ascii("OKAY") + reply);
    StatusOfOkay(reply);
    StatusOfRefusal(message, reply);
    StatusOfOkay(Refusal(message) + reply);
  }

  /** A serial number too long for the four digits of a length is not sent at all. */
  lemma LongSerial(serial: seq<byte>, incoming: seq<byte>)
    requires |serial| + 15 > 0xFFFF
    ensures EncodeHostRequest(BindService(serial)) == [] && GreetingError(serial, incoming) == Error(REQUEST_TOO_LONG)
  {
  }

  /** The device gives up, with a message. */
  function Failure(message: seq<byte>): seq<byte>
    requires |message| < TWO_32
  {
    Packet(Ascii("FAIL"), message)
  }

  lemma FailureParts(message: seq<byte>, rest: seq<byte>)
    requires |message| < TWO_32
    ensures var s := Failure(message) + rest;
      |s| >= 8 && s[..4] == FAIL && ReadU32Le(s[4..]) == |message| && s[8..] == message + rest
      && FailError(ParseFail(|message|, s[8..])) == if |message| <= 65536 then Error(message) else Error(OVERSIZED_FAIL)
  {
    hide Header;
    Regroup(Header(FAIL, |message|), message, rest);
    HeaderParts(FAIL, |message|, message + rest);
    assert (message + rest)[..|message|] == message;
  }

  lemma {:induction false} ParseOfChunksThen(chunks: seq<seq<byte>>, rest: seq<byte>)
    requires forall i :: 0 <= i < |chunks| ==> FitsPacket(chunks[i])
    ensures var r := ParseData(rest);
      ParseData(DataStream(chunks) + rest) == DataReply(chunks + r.chunks, r.end)
  {
    hide ParseData, Packet;
    if chunks == [] {
      assert DataStream(chunks) + rest == rest;
    } else {
      var c, more := chunks[0], chunks[1..];
      assert FitsPacket(c);
      ParseOfChunksThen(more, rest);
      ParseOfPacket(c, DataStream(more) + rest);
      Regroup(Packet(DATA, c), DataStream(more), rest);
      assert chunks == [c] + more;
    }
  }

  lemma AcceptedDownload(serial: seq<byte>, reply: seq<byte>)
    requires SerialFits(serial)
    ensures SyncRecv.Reply(Accepted(reply)) == ParseData(reply)
    ensures SyncRecv.Outcome(serial, Accepted(reply)) == SyncRecv.EndError(ParseData(reply).end)
  {
    hide Accepted, ParseGreeting, GreetingError, ParseData, SyncRecv.EndError;
    GreetingIsRead(serial, [], reply);
  }

  lemma DataOfFailure(message: seq<byte>, rest: seq<byte>)
    requires |message| < TWO_32
    ensures var r := ParseData(Failure(message) + rest);
      r.chunks == [] && SyncRecv.EndError(r.end) == if |message| <= 65536 then Error(message) else Error(OVERSIZED_FAIL)
  {
    hide Failure, ParseFail, FailError, ReadU32Le;
    WordsDiffer();
    FailureParts(message, rest);
    SyncRecv.EndOfFail(|message|, message + rest);
  }

  lemma DataOfBadPacket(id: seq<byte>, arg: u32, rest: seq<byte>)
    requires |id| == 4
    requires if id == Ascii("DATA") then arg > 65536 else id != Ascii("DONE") && id != Ascii("FAIL")
    ensures var r := ParseData(Header(id, arg) + rest);
      && r.chunks == []
      && SyncRecv.EndError(r.end) == Error(if id == Ascii("DATA") then OVERSIZED_CHUNK else MALFORMED_REPLY)
  {
    hide Header, ReadU32Le;
    WordsDiffer();
    HeaderParts(id, arg, rest);
  }

  /** A chunk of up to 64 KiB is received, with what follows it. */
  lemma ChunkIsReceived(chunk: seq<byte>, following: seq<byte>)
    requires |chunk| <= 65536
    ensures var r := ParseData(following);
      ParseData(Packet(Ascii("DATA"), chunk) + following) == DataReply([chunk] + r.chunks, r.end)
  {
    ParseOfPacket(chunk, following);
  }

  /** A device that gives up in the middle of a download: the chunks so far are delivered and its message is the error,
      unless that is longer than 64 KiB. */
  lemma FailedDownload(serial: seq<byte>, chunks: seq<seq<byte>>, message: seq<byte>, rest: seq<byte>)
    requires SerialFits(serial) && |message| < TWO_32 && forall i :: 0 <= i < |chunks| ==> FitsPacket(chunks[i])
    ensures var s := Accepted(DataStream(chunks) + (Failure(message) + rest));
      && SyncRecv.Reply(s).chunks == chunks
      && SyncRecv.Outcome(serial, s) == if |message| <= 65536 then Error(message) else Error(OVERSIZED_FAIL)
  {
    hide Accepted, Failure, ParseData, SyncRecv.Reply, SyncRecv.Outcome, SyncRecv.EndError, DataStream;
    AcceptedDownload(serial, DataStream(chunks) + (Failure(message) + rest));
    DataOfFailure(message, rest);
    ParseOfChunksThen(chunks, Failure(message) + rest);
  }

  /** A chunk of more than 64 KiB is not received, whatever came before it; neither is a packet of any other kind. */
  lemma RefusedPacket(serial: seq<byte>, chunks: seq<seq<byte>>, id: seq<byte>, arg: u32, rest: seq<byte>)
    requires SerialFits(serial) && |id| == 4 && forall i :: 0 <= i < |chunks| ==> FitsPacket(chunks[i])
    requires if id == Ascii("DATA") then arg > 65536 else id != Ascii("DONE") && id != Ascii("FAIL")
    ensures var s := Accepted(DataStream(chunks) + (Header(id, arg) + rest));
      && SyncRecv.Reply(s).chunks == chunks
      && SyncRecv.Outcome(serial, s) == Error(if id == Ascii("DATA") then OVERSIZED_CHUNK else MALFORMED_REPLY)
  {
    hide Accepted, Header, ParseData, SyncRecv.Reply, SyncRecv.Outcome, SyncRecv.EndError, DataStream;
    AcceptedDownload(serial, DataStream(chunks) + (Header(id, arg) + rest));
    DataOfBadPacket(id, arg, rest);
    ParseOfChunksThen(chunks, Header(id, arg) + rest);
  }

  /** The device's last word on an upload: OKAY, whatever its argument, is success, a message is the error, and anything
      else is a fault; nothing but OKAY is success. */
  lemma UploadIsAnswered(serial: seq<byte>, id: seq<byte>, arg: u32, message: seq<byte>, rest: seq<byte>)
    requires SerialFits(serial) && |id| == 4 && id != Ascii("FAIL") && |message| < TWO_32
    ensures SyncSend.Outcome(serial, Accepted(Header(id, arg) + rest)) ==
      if id == Ascii("OKAY") then Success else Error(MALFORMED_REPLY)
    ensures SyncSend.Outcome(serial, Accepted(Failure(message) + rest)) ==
      if |message| <= 65536 then Error(message) else Error(OVERSIZED_FAIL)
    ensures |rest| < 8 ==> SyncSend.Outcome(serial, Accepted(rest)) == Error(CONNECTION_FAULT)
  {
    hide Accepted, ParseGreeting, GreetingError, Header, Failure, ParseFail, FailError;
    WordsDiffer();
    GreetingIsRead(serial, [], Header(id, arg) + rest);
    GreetingIsRead(serial, [], Failure(message) + rest);
    GreetingIsRead(serial, [], rest);
    HeaderParts(id, arg, rest);
    FailureParts(message, rest);
  }

  /** After a failed write: a message is waiting if the device has sent a FAIL, and it is the device's. */
  lemma FailureWaits(message: seq<byte>, rest: seq<byte>)
    requires |message| < TWO_32
    ensures var s := Failure(message) + rest;
      && (FailWaits(s) <==> message != [])
      && WaitingFail(s) == if |message| <= 65536 then Error(message) else Error(OVERSIZED_FAIL)
  {
    hide Failure, ParseFail, FailError;
    FailureParts(message, rest);
    FaultsHaveText();
  }

  // ----- listings -----

  function Dents(es: seq<DirEntry>): seq<byte>
    requires forall i :: 0 <= i < |es| ==> NameFits(es[i])
  {
    if es == [] then [] else assert NameFits(es[0]); EncodeDent(es[0]) + Dents(es[1..])
  }

  lemma {:induction false} ParseOfDentsThen(es: seq<DirEntry>, rest: seq<byte>)
    requires forall i :: 0 <= i < |es| ==> NameFits(es[i])
    ensures var r := ParseList(rest);
      ParseList(Dents(es) + rest) == ListReply(es + r.entries, r.end)
  {
    hide ParseEntry, EncodeDent;
    if es == [] {
      assert Dents(es) + rest == rest;
    } else {
      assert NameFits(es[0]);
      ParseOfDentsThen(es[1..], rest);
      Regroup(EncodeDent(es[0]), Dents(es[1..]), rest);
      ParseOfDent(es[0], Dents(es[1..]) + rest);
      assert es == [es[0]] + es[1..];
    }
  }

  lemma AcceptedListing(serial: seq<byte>, reply: seq<byte>)
    requires SerialFits(serial)
    ensures SyncList.Outcome(serial, Accepted(reply)) == SyncList.ListError(ParseList(reply).end)
  {
    hide Accepted, ParseGreeting, GreetingError, ParseList, SyncList.ListError;
    GreetingIsRead(serial, [], reply);
  }

  lemma ListOfFailure(message: seq<byte>, rest: seq<byte>)
    requires |message| < TWO_32
    ensures SyncList.ListError(ParseList(Failure(message) + rest).end) ==
      if |message| <= 65536 then Error(message) else Error(OVERSIZED_FAIL)
  {
    hide Failure, ReadU32Le;
    FailureParts(message, rest);
    assert (message + rest)[..|message|] == message;
  }

  /** A listing that the device gives up on has its message for an error. */
  lemma FailedListing(serial: seq<byte>, es: seq<DirEntry>, message: seq<byte>, rest: seq<byte>)
    requires SerialFits(serial) && |message| < TWO_32 && forall i :: 0 <= i < |es| ==> NameFits(es[i])
    ensures SyncList.Outcome(serial, Accepted(Dents(es) + (Failure(message) + rest))) ==
      if |message| <= 65536 then Error(message) else Error(OVERSIZED_FAIL)
  {
    hide Accepted, Failure, ParseList, SyncList.Outcome, SyncList.ListError, Dents;
    AcceptedListing(serial, Dents(es) + (Failure(message) + rest));
    ListOfFailure(message, rest);
    ParseOfDentsThen(es, Failure(message) + rest);
  }

  /** An entry whose name is longer than 1024 octets is a fault. */
  lemma RefusedEntry(serial: seq<byte>, es: seq<DirEntry>, e: DirEntry, rest: seq<byte>)
    requires SerialFits(serial) && 1024 < |e.name| < TWO_32 && forall i :: 0 <= i < |es| ==> NameFits(es[i])
    ensures SyncList.Outcome(serial, Accepted(Dents(es) + (EncodeDent(e) + rest))) == Error(MALFORMED_REPLY)
  {
    hide Accepted, ParseEntry, EncodeDent, SyncList.Outcome, Dents;
    AcceptedListing(serial, Dents(es) + (EncodeDent(e) + rest));
    ParseOfDentsThen(es, EncodeDent(e) + rest);
    LongName(e, rest);
  }

  lemma LongName(e: DirEntry, rest: seq<byte>)
    requires 1024 < |e.name| < TWO_32
    ensures ParseEntry(EncodeDent(e) + rest) == End(ListMalformed)
  {
    var fields := EntryFields(e.mode, e.size, e.mtime, |e.name|);
    Regroup(DENT, fields + e.name, rest);
    Regroup(fields, e.name, rest);
    FieldsParts(e.mode, e.size, e.mtime, |e.name|, e.name + rest);
    ShiftFields(DENT, fields + (e.name + rest));
    WordsDiffer();
  }

  /** What the device says to a stat, with a message or with attributes. */
  lemma StatIsAnswered(serial: seq<byte>, a: SyncList.Attributes, message: seq<byte>, rest: seq<byte>)
    requires SerialFits(serial) && |message| <= 65536
    ensures SyncList.StatOutcome(serial, Accepted(Failure(message) + rest)).0 == Error(message)
    ensures SyncList.StatOutcome(serial, Accepted(SyncList.EncodeStat(a) + rest)) ==
      (Success, if a == SyncList.Attributes(0, 0, 0) then SyncList.Missing else SyncList.Found(a))
  {
    hide Accepted, ParseGreeting, GreetingError, Failure, ReadU32Le, SyncList.EncodeStat;
    GreetingIsRead(serial, [], Failure(message) + rest);
    GreetingIsRead(serial, [], SyncList.EncodeStat(a) + rest);
    FailureParts(message, rest);
    assert (message + rest)[..|message|] == message;
    SyncList.StatRoundTrip(a, rest);
  }
}
