/** The adb wire formats: host-request framing, status words, sync v1 packets; each with the reference
    reader of the other end of the connection. */
module Wire {
  import opened Optional
  import opened Bytes
  import opened Decimal

  const SYNC_DATA_MAX: nat := 65536
  const SYNC_PATH_MAX: nat := 1024
  const HOST_REQUEST_MAX_SIZE: nat := 0xFFFF
  const SYNC_FAIL_MESSAGE_MAX: nat := 65536
  const DENT_FIXED_HEADER_SIZE: nat := 16

  // ----- 32-bit little-endian integers -----

  function U32Le(v: u32): (r: seq<byte>)
    ensures |r| == 4
  {
    [v % 256, v / 256 % 256, v / 256 / 256 % 256, v / 256 / 256 / 256 % 256]
  }

  function ReadU32Le(s: seq<byte>): u32
    requires |s| >= 4
  {
    s[0] as int + 256 * (s[1] as int + 256 * (s[2] as int + 256 * s[3] as int))
  }

  lemma ReadOfU32Le(v: u32, rest: seq<byte>)
    ensures ReadU32Le(U32Le(v) + rest) == v
  {
  }

  // ----- host requests: four hexadecimal digits of length, then the service -----

  function HexDigit(d: int): byte
    requires 0 <= d < 16
  {
    if d < 10 then 0x30 + d else 0x61 + d - 10
  }

  /** The value of a hexadecimal digit of either case, or -1. */
  function HexDigitValue(c: byte): (v: int)
    ensures -1 <= v < 16
  {
    if 0x30 <= c <= 0x39 then c - 0x30
    else if 0x61 <= c <= 0x66 then 10 + c - 0x61
    else if 0x41 <= c <= 0x46 then 10 + c - 0x41
    else -1
  }

  function Hex4(n: nat): (r: seq<byte>)
    requires n <= HOST_REQUEST_MAX_SIZE
    ensures |r| == 4
  {
    [HexDigit(n / 16 / 16 / 16), HexDigit(n / 16 / 16 % 16), HexDigit(n / 16 % 16), HexDigit(n % 16)]
  }

  predicate IsHex4(s: seq<byte>)
    requires |s| >= 4
  {
    forall i :: 0 <= i < 4 ==> HexDigitValue(s[i]) >= 0
  }

  function Hex4Value(s: seq<byte>): nat
    requires |s| >= 4 && IsHex4(s)
  {
    16 * (16 * (16 * HexDigitValue(s[0]) + HexDigitValue(s[1])) + HexDigitValue(s[2])) + HexDigitValue(s[3])
  }

  /** The value of the first `i` digits. */
  function HexPrefix(s: seq<byte>, i: nat): nat
    requires i <= |s| && forall j :: 0 <= j < i ==> HexDigitValue(s[j]) >= 0
  {
    if i == 0 then 0 else 16 * HexPrefix(s, i - 1) + HexDigitValue(s[i - 1])
  }

  /** Reads a four-digit length prefix; `ok` is false on any character that is not a digit. */
  method ParseHexLength(s: seq<byte>) returns (value: nat, ok: bool)
    requires |s| == 4
    ensures ok == IsHex4(s)
    ensures ok ==> value == Hex4Value(s)
    ensures !ok ==> value == 0
  {
    value := 0;
    for i := 0 to 4
      invariant forall j :: 0 <= j < i ==> HexDigitValue(s[j]) >= 0
      invariant value == HexPrefix(s, i)
    {
      var digit := HexDigitValue(s[i]);
      if digit < 0 {
        return 0, false;
      }
      value := value * 16 + digit;
    }
    ok := true;
    assert HexPrefix(s, 4) == 16 * HexPrefix(s, 3) + HexDigitValue(s[3]);
    assert HexPrefix(s, 2) == 16 * HexPrefix(s, 1) + HexDigitValue(s[1]);
  }

  lemma HexDigitRoundTrip(d: int)
    requires 0 <= d < 16
    ensures HexDigitValue(HexDigit(d)) == d
  {
  }

  /** The digits are those that are written, and their capitals. */
  lemma HexDigitsAre(c: byte, d: int)
    requires 0 <= d < 16
    ensures HexDigitValue(c) == d <==> c == HexDigit(d) || (d >= 10 && c == HexDigit(d) - 0x20)
  {
  }

  lemma Hex4RoundTrip(n: nat)
    requires n <= HOST_REQUEST_MAX_SIZE
    ensures IsHex4(Hex4(n)) && Hex4Value(Hex4(n)) == n
  {
    HexDigitRoundTrip(n / 16 / 16 / 16);
    HexDigitRoundTrip(n / 16 / 16 % 16);
    HexDigitRoundTrip(n / 16 % 16);
    HexDigitRoundTrip(n % 16);
  }

  /** A framed request, or nothing when the service is too long to be framed. */
  function EncodeHostRequest(service: seq<byte>): (r: seq<byte>)
    ensures r == [] <==> |service| > HOST_REQUEST_MAX_SIZE
  {
    if |service| > HOST_REQUEST_MAX_SIZE then [] else Hex4(|service|) + service
  }

  /** How the adb server reads one request off the stream: the service, and what follows it. */
  function ReadHostRequest(s: seq<byte>): Option<(seq<byte>, seq<byte>)> {
    if |s| < 4 || !IsHex4(s) || |s| - 4 < Hex4Value(s) then None
    else Some((s[4..4 + Hex4Value(s)], s[4 + Hex4Value(s)..]))
  }

  lemma ReadOfHostRequest(service: seq<byte>, rest: seq<byte>)
    requires |service| <= HOST_REQUEST_MAX_SIZE
    ensures ReadHostRequest(EncodeHostRequest(service) + rest) == Some((service, rest))
  {
    var s := EncodeHostRequest(service) + rest;
    Hex4RoundTrip(|service|);
    assert s[..4] == Hex4(|service|);
    assert forall i :: 0 <= i < 4 ==> s[i] == Hex4(|service|)[i];
    assert s[4..4 + |service|] == service;
    assert s[4 + |service|..] == rest;
  }

  // ----- replies to a request -----

  const OKAY: seq<byte> := Ascii("OKAY")
  const FAIL: seq<byte> := Ascii("FAIL")
  const DATA: seq<byte> := Ascii("DATA")
  const DONE: seq<byte> := Ascii("DONE")
  const SEND: seq<byte> := Ascii("SEND")
  const RECV: seq<byte> := Ascii("RECV")
  const LIST: seq<byte> := Ascii("LIST")
  const STAT: seq<byte> := Ascii("STAT")
  const DENT: seq<byte> := Ascii("DENT")

  lemma WordsDiffer()
    ensures OKAY[0] == 'O' as int && FAIL[0] == 'F' as int && STAT[0] == 'S' as int
    ensures DATA[0] == 'D' as int && DATA[1] == 'A' as int
    ensures DONE[0] == 'D' as int && DONE[1] == 'O' as int
    ensures DENT[0] == 'D' as int && DENT[1] == 'E' as int
  {
  }

  datatype StatusReply =
    | Okay(rest: seq<byte>)                          // accepted; what follows on the stream
    | Refused(message: seq<byte>, rest: seq<byte>)   // FAIL with the server's message
    | BadStatus                                      // neither word, or a length that is not hexadecimal
    | CutStatus                                      // the stream ends first

  /** A length-prefixed message at the head of a stream. */
  function ParseStatus(s: seq<byte>): StatusReply {
    if |s| < 4 then CutStatus
    else if s[..4] == OKAY then Okay(s[4..])
    else if s[..4] != FAIL then BadStatus
    else if |s| < 8 then CutStatus
    else if !IsHex4(s[4..]) then BadStatus
    else if |s| - 8 < Hex4Value(s[4..]) then CutStatus
    else Refused(s[8..8 + Hex4Value(s[4..])], s[8 + Hex4Value(s[4..])..])
  }

  /** Both requests that open a sync conversation (bind to the device, switch to sync) are answered OKAY. */
  function ParseGreeting(s: seq<byte>): StatusReply {
    match ParseStatus(s)
    case Okay(rest) => ParseStatus(rest)
    case other => other
  }

  /** What the device has to say after accepting both opening requests. */
  function AfterGreeting(incoming: seq<byte>): seq<byte> {
    match ParseGreeting(incoming)
    case Okay(rest) => rest
    case _ => []
  }

  // ----- sync packets -----

  function Header(id: seq<byte>, arg: u32): (r: seq<byte>)
    requires |id| == 4
    ensures |r| == 8
  {
    id + U32Le(arg)
  }

  function Packet(id: seq<byte>, payload: seq<byte>): seq<byte>
    requires |id| == 4 && |payload| < TWO_32
  {
    Header(id, |payload|) + payload
  }

  lemma HeaderParts(id: seq<byte>, arg: u32, rest: seq<byte>)
    requires |id| == 4
    ensures var s := Header(id, arg) + rest;
      |s| >= 8 && s[..4] == id && ReadU32Le(s[4..]) == arg && s[8..] == rest
  {
    var s := Header(id, arg) + rest;
    assert s[..4] == id;
    assert s[4..] == U32Le(arg) + rest;
    ReadOfU32Le(arg, rest);
    assert s[8..] == rest;
  }

  // ----- DATA packets, ended by DONE -----

  predicate FitsPacket(chunk: seq<byte>) {
    |chunk| <= SYNC_DATA_MAX
  }

  function DataStream(chunks: seq<seq<byte>>): seq<byte>
    requires forall i :: 0 <= i < |chunks| ==> FitsPacket(chunks[i])
  {
    if chunks == [] then [] else assert FitsPacket(chunks[0]); Packet(DATA, chunks[0]) + DataStream(chunks[1..])
  }

  datatype DataEnd =
    | Done(arg: u32, rest: seq<byte>)                // the DONE packet, its argument, what follows
    | Failed(message: seq<byte>, rest: seq<byte>)    // a FAIL packet
    | OversizedFail                                  // a FAIL packet announcing too long a message
    | Oversized                                      // a DATA packet announcing too long a chunk
    | Malformed                                      // an unknown packet
    | Cut                                            // the stream ends first
    | CutFail                                        // the stream ends inside a FAIL packet's message

  datatype DataReply = DataReply(chunks: seq<seq<byte>>, end: DataEnd)

  /** What the reader of a stream of DATA packets makes of any octets at all. */
  function ParseData(s: seq<byte>): DataReply
    decreases |s|
  {
    if |s| < 8 then DataReply([], Cut)
    else
      var id, arg, body := s[..4], ReadU32Le(s[4..]), s[8..];
      if id == DONE then DataReply([], Done(arg, body))
      else if id == FAIL then DataReply([], ParseFail(arg, body))
      else if id != DATA then DataReply([], Malformed)
      else if arg > SYNC_DATA_MAX then DataReply([], Oversized)
      else if |body| < arg then DataReply([], Cut)
      else
        var next := ParseData(body[arg..]);
        DataReply([body[..arg]] + next.chunks, next.end)
  }

  function ParseFail(arg: u32, body: seq<byte>): DataEnd {
    if arg > SYNC_FAIL_MESSAGE_MAX then OversizedFail
    else if |body| < arg then CutFail
    else Failed(body[..arg], body[arg..])
  }

  lemma ParseOfPacket(c: seq<byte>, following: seq<byte>)
    requires FitsPacket(c)
    ensures var next := ParseData(following);
      ParseData(Packet(DATA, c) + following) == DataReply([c] + next.chunks, next.end)
  {
    var s := Packet(DATA, c) + following;
    assert s == Header(DATA, |c|) + (c + following);
    HeaderParts(DATA, |c|, c + following);
    WordsDiffer();
    assert (c + following)[..|c|] == c;
    assert (c + following)[|c|..] == following;
  }

  lemma ParseOfDone(arg: u32, rest: seq<byte>)
    ensures ParseData(Header(DONE, arg) + rest) == DataReply([], Done(arg, rest))
  {
    HeaderParts(DONE, arg, rest);
  }

  /** Any way of cutting a content into chunks of at most 64 KiB (empty ones included) is read back
      chunk for chunk, up to the DONE packet and no further. */
  lemma {:induction false} ParseOfDataStream(chunks: seq<seq<byte>>, arg: u32, rest: seq<byte>)
    requires forall i :: 0 <= i < |chunks| ==> FitsPacket(chunks[i])
    ensures ParseData(DataStream(chunks) + (Header(DONE, arg) + rest)) == DataReply(chunks, Done(arg, rest))
  {
    hide ParseData, Packet, Header;
    var tail := Header(DONE, arg) + rest;
    if chunks == [] {
      assert DataStream(chunks) + tail == tail;
      ParseOfDone(arg, rest);
    } else {
      var c, more := chunks[0], chunks[1..];
      assert FitsPacket(c);
      ParseOfDataStream(more, arg, rest);
      ParseOfPacket(c, DataStream(more) + tail);
      Regroup(Packet(DATA, c), DataStream(more), tail);
      assert chunks == [c] + more;
    }
  }

  // ----- the chunks of an upload -----

  /** How an upload cuts a content: full chunks, then what is left. */
  function Chunks(content: seq<byte>): (r: seq<seq<byte>>)
    ensures forall i :: 0 <= i < |r| ==> FitsPacket(r[i])
  {
    if content == [] then []
    else
      var n := if |content| < SYNC_DATA_MAX then |content| else SYNC_DATA_MAX;
      [content[..n]] + Chunks(content[n..])
  }

  /** The chunks hold the content; there are ceil(size / 64 KiB) of them; all but the last are full, and
      none is empty. */
  lemma {:induction false} ChunksOfContent(content: seq<byte>)
    ensures Flatten(Chunks(content)) == content
    ensures |Chunks(content)| == (|content| + 65535) / 65536
    ensures forall i :: 0 <= i < |Chunks(content)| - 1 ==> |Chunks(content)[i]| == 65536
    ensures forall i :: 0 <= i < |Chunks(content)| ==> Chunks(content)[i] != []
  {
    if content != [] {
      var n := if |content| < SYNC_DATA_MAX then |content| else SYNC_DATA_MAX;
      ChunksOfContent(content[n..]);
      assert content == content[..n] + content[n..];
    }
  }

  // ----- the path spec of an upload, and the whole upload as the device reads it -----

  const COMMA: byte := 0x2C

  function EncodeSendPathSpec(path: seq<byte>, mode: u32): seq<byte> {
    path + [COMMA] + ToBytes(mode)
  }

  /** The device splits the spec at its last comma. */
  function ReadSendPathSpec(spec: seq<byte>): Option<(seq<byte>, nat)> {
    var comma := LastIndexOf(spec, COMMA);
    if comma < 0 || !IsNumeral(spec[comma + 1..]) then None
    else Some((spec[..comma], FromBytes(spec[comma + 1..])))
  }

  /** Whatever commas the path itself holds. */
  lemma ReadOfSendPathSpec(path: seq<byte>, mode: u32)
    ensures ReadSendPathSpec(EncodeSendPathSpec(path, mode)) == Some((path, mode))
  {
    var spec := EncodeSendPathSpec(path, mode);
    LastIndexSplit(path, COMMA, ToBytes(mode));
    assert spec[|path| + 1..] == ToBytes(mode);
    assert spec[..|path|] == path;
    FromToBytes(mode);
  }

  function BindService(serial: seq<byte>): (r: seq<byte>)
    ensures |r| == 15 + |serial|
  {
    Ascii("host:transport:") + serial
  }

  function SyncService(): (r: seq<byte>)
    ensures |r| == 5
  {
    Ascii("sync:")
  }

  /** The two requests that open a sync conversation with a device. */
  function OpenSync(serial: seq<byte>): seq<byte> {
    EncodeHostRequest(BindService(serial)) + EncodeHostRequest(SyncService())
  }

  /** A 64-bit time stamp as the DONE packet carries it. */
  function MtimeArg(mtime: int): u32 {
    mtime % TWO_32
  }

  predicate PathFits(path: seq<byte>) {
    |path| <= SYNC_PATH_MAX
  }

  /** The path spec is a few octets longer than the path. */
  lemma SpecLength(path: seq<byte>, mode: u32)
    requires PathFits(path)
    ensures |EncodeSendPathSpec(path, mode)| <= SYNC_PATH_MAX + 11
  {
    assert Power10(10) == 10000000000 by {
      assert Power10(5) == 100000;
      assert Power10(10) == 10 * (10 * (10 * (10 * (10 * Power10(5)))));
    }
    DigitCount(mode, 10, Power10(10));
  }

  function SendRequest(path: seq<byte>, mode: u32): seq<byte>
    requires PathFits(path)
  {
    SpecLength(path, mode);
    Packet(SEND, EncodeSendPathSpec(path, mode))
  }

  /** Everything an upload puts on the wire. */
  function UploadTranscript(serial: seq<byte>, path: seq<byte>, mode: u32, content: seq<byte>, mtime: int): seq<byte>
    requires PathFits(path)
  {
    OpenSync(serial) + (SendRequest(path, mode) + (DataStream(Chunks(content)) + Header(DONE, MtimeArg(mtime))))
  }

  datatype Upload = Upload(serial: seq<byte>, path: seq<byte>, mode: nat, chunks: seq<seq<byte>>, mtime: u32)

  /** The device reading an upload off the stream, packet by packet. */
  function ReadUpload(s: seq<byte>): Option<(Upload, seq<byte>)> {
    match ReadHostRequest(s)
    case None => None
    case Some((bind, afterBind)) =>
      if |bind| < 15 || bind[..15] != Ascii("host:transport:") then None
      else
        match ReadHostRequest(afterBind)
        case None => None
        case Some((sync, afterSync)) =>
          if sync != Ascii("sync:") then None
          else
            match ReadSend(afterSync)
            case None => None
            case Some((path, mode, chunks, mtime, rest)) =>
              Some((Upload(bind[15..], path, mode, chunks, mtime), rest))
  }

  /** One packet with a payload: its id, the payload, what follows. */
  function ReadPacket(s: seq<byte>): Option<(seq<byte>, seq<byte>, seq<byte>)> {
    if |s| < 8 || |s| - 8 < ReadU32Le(s[4..]) then None
    else Some((s[..4], s[8..8 + ReadU32Le(s[4..])], s[8 + ReadU32Le(s[4..])..]))
  }

  lemma ReadOfPacket(id: seq<byte>, payload: seq<byte>, rest: seq<byte>)
    requires |id| == 4 && |payload| < TWO_32
    ensures ReadPacket(Packet(id, payload) + rest) == Some((id, payload, rest))
  {
    Regroup(Header(id, |payload|), payload, rest);
    HeaderParts(id, |payload|, payload + rest);
    TakeDrop(Packet(id, payload) + rest, 8, payload, rest);
  }

  function ReadSend(s: seq<byte>): Option<(seq<byte>, nat, seq<seq<byte>>, u32, seq<byte>)> {
    match ReadPacket(s)
    case None => None
    case Some((id, spec, afterSpec)) =>
      if id != Ascii("SEND") then None else ReadSendBody(ReadSendPathSpec(spec), ParseData(afterSpec))
  }

  function ReadSendBody(spec: Option<(seq<byte>, nat)>, data: DataReply)
    : Option<(seq<byte>, nat, seq<seq<byte>>, u32, seq<byte>)>
  {
    match spec
    case None => None
    case Some((path, mode)) =>
      if data.end.Done? then Some((path, mode, data.chunks, data.end.arg, data.end.rest)) else None
  }

  lemma ReadOfSend(path: seq<byte>, mode: u32, chunks: seq<seq<byte>>, arg: u32, rest: seq<byte>)
    requires PathFits(path)
    requires forall i :: 0 <= i < |chunks| ==> FitsPacket(chunks[i])
    ensures ReadSend(SendRequest(path, mode) + (DataStream(chunks) + (Header(DONE, arg) + rest)))
         == Some((path, mode, chunks, arg, rest))
  {
    SpecLength(path, mode);
    var spec := EncodeSendPathSpec(path, mode);
    var data := DataStream(chunks) + (Header(DONE, arg) + rest);
    ReadOfPacket(SEND, spec, data);
    calc {
      ReadSend(SendRequest(path, mode) + data);
      ReadSendBody(ReadSendPathSpec(spec), ParseData(data));
      { ReadOfSendPathSpec(path, mode); ParseOfDataStream(chunks, arg, rest); }
      ReadSendBody(Some((path, mode)), DataReply(chunks, Done(arg, rest)));
    }
  }

  /** The device decodes the octets of an upload to exactly what was asked for, whatever follows them. */
  lemma UploadRoundTrip(serial: seq<byte>, path: seq<byte>, mode: u32, content: seq<byte>, mtime: int, rest: seq<byte>)
    requires PathFits(path) && |serial| + 15 <= HOST_REQUEST_MAX_SIZE
    ensures ReadUpload(UploadTranscript(serial, path, mode, content, mtime) + rest)
         == Some((Upload(serial, path, mode, Chunks(content), mtime % 0x1_0000_0000), rest))
  {
    var bind, sync := EncodeHostRequest(BindService(serial)), EncodeHostRequest(SyncService());
    var done := Header(DONE, MtimeArg(mtime));
    var data := DataStream(Chunks(content));
    var send := SendRequest(path, mode);
    calc {
      UploadTranscript(serial, path, mode, content, mtime) + rest;
      { Regroup(bind + sync, send + (data + done), rest); }
      (bind + sync) + ((send + (data + done)) + rest);
      { Regroup(send, data + done, rest); Regroup(data, done, rest); }
      (bind + sync) + (send + (data + (done + rest)));
      { Regroup(bind, sync, send + (data + (done + rest))); }
      bind + (sync + (send + (data + (done + rest))));
    }
    ReadOfHostRequest(BindService(serial), sync + (send + (data + (done + rest))));
    ReadOfHostRequest(SyncService(), send + (data + (done + rest)));
    ReadOfSend(path, mode, Chunks(content), MtimeArg(mtime), rest);
    assert BindService(serial)[..15] == Ascii("host:transport:");
    assert BindService(serial)[15..] == serial;
  }

  // ----- directory listings -----

  datatype DirEntry = DirEntry(name: seq<byte>, mode: u32, size: u32, mtime: u32)

  /** The sixteen octets after a DENT's or DONE's id. */
  function EntryFields(mode: u32, size: u32, mtime: u32, namelen: u32): (r: seq<byte>)
    ensures |r| == DENT_FIXED_HEADER_SIZE
  {
    U32Le(mode) + (U32Le(size) + (U32Le(mtime) + U32Le(namelen)))
  }

  function EncodeDent(e: DirEntry): seq<byte>
    requires |e.name| < TWO_32
  {
    DENT + (EntryFields(e.mode, e.size, e.mtime, |e.name|) + e.name)
  }

  function EncodeListDone(): seq<byte> {
    DONE + EntryFields(0, 0, 0, 0)
  }

  predicate NameFits(e: DirEntry) {
    |e.name| <= SYNC_PATH_MAX
  }

  function ListStream(es: seq<DirEntry>): seq<byte>
    requires forall i :: 0 <= i < |es| ==> NameFits(es[i])
  {
    if es == [] then EncodeListDone()
    else assert NameFits(es[0]); EncodeDent(es[0]) + ListStream(es[1..])
  }

  datatype ListEnd =
    | ListDone(rest: seq<byte>)
    | ListFailed(message: seq<byte>)     // a FAIL reply
    | ListBadFail                        // a FAIL announcing too long a message
    | ListMalformed                      // an unknown id, or too long a name
    | ListCut                            // the stream ends first

  datatype ListReply = ListReply(entries: seq<DirEntry>, end: ListEnd)

  /** What the reader of a listing makes of any octets at all. */
  function ParseList(s: seq<byte>): ListReply
    decreases |s|
  {
    match ParseEntry(s)
    case Entry(e, rest) =>
      if |rest| < |s| then
        var next := ParseList(rest);
        ListReply([e] + next.entries, next.end)
      else ListReply([], ListMalformed)
    case End(end) => ListReply([], end)
  }

  datatype EntryReply = Entry(e: DirEntry, rest: seq<byte>) | End(end: ListEnd)

  function ParseEntry(s: seq<byte>): (r: EntryReply)
    ensures r.Entry? ==> |r.rest| < |s|
  {
    if |s| < 4 then End(ListCut)
    else if s[..4] == FAIL then
      if |s| < 8 then End(ListCut) else End(ParseListFail(ReadU32Le(s[4..]), s[8..]))
    else if s[..4] != DENT && s[..4] != DONE then End(ListMalformed)
    else if |s| < 20 then End(ListCut)
    else
      var namelen := ReadU32Le(s[16..]);
      if namelen > SYNC_PATH_MAX then End(ListMalformed)
      else if |s| - 20 < namelen then End(ListCut)
      else if s[..4] == DONE then End(ListDone(s[20 + namelen..]))
      else Entry(DirEntry(s[20..20 + namelen], ReadU32Le(s[4..]), ReadU32Le(s[8..]), ReadU32Le(s[12..])),
                 s[20 + namelen..])
  }

  function ParseListFail(arg: u32, body: seq<byte>): ListEnd {
    if arg > SYNC_FAIL_MESSAGE_MAX then ListBadFail
    else if |body| < arg then ListCut
    else ListFailed(body[..arg])
  }

  lemma FieldsParts(mode: u32, size: u32, mtime: u32, namelen: u32, rest: seq<byte>)
    ensures var s := EntryFields(mode, size, mtime, namelen) + rest;
      |s| >= 16 && ReadU32Le(s) == mode && ReadU32Le(s[4..]) == size && ReadU32Le(s[8..]) == mtime
      && ReadU32Le(s[12..]) == namelen && s[16..] == rest
  {
    var s := EntryFields(mode, size, mtime, namelen) + rest;
    assert s[12..] == U32Le(namelen) + rest;
    assert s[8..] == U32Le(mtime) + (U32Le(namelen) + rest);
    assert s[4..] == U32Le(size) + (U32Le(mtime) + (U32Le(namelen) + rest));
    assert s == U32Le(mode) + (U32Le(size) + (U32Le(mtime) + (U32Le(namelen) + rest)));
    ReadOfU32Le(namelen, rest);
    ReadOfU32Le(mtime, U32Le(namelen) + rest);
    ReadOfU32Le(size, U32Le(mtime) + (U32Le(namelen) + rest));
    ReadOfU32Le(mode, U32Le(size) + (U32Le(mtime) + (U32Le(namelen) + rest)));
    assert s[16..] == rest;
  }

  lemma ShiftFields(id: seq<byte>, t: seq<byte>)
    requires |id| == 4 && |t| >= 16
    ensures var s := id + t;
      s[..4] == id && s[4..] == t && s[8..] == t[4..] && s[12..] == t[8..] && s[16..] == t[12..] && s[20..] == t[16..]
  {
  }

  lemma ParseOfDent(e: DirEntry, rest: seq<byte>)
    requires NameFits(e)
    ensures ParseEntry(EncodeDent(e) + rest) == Entry(e, rest)
  {
    var s := EncodeDent(e) + rest;
    var fields := EntryFields(e.mode, e.size, e.mtime, |e.name|);
    Regroup(DENT, fields + e.name, rest);
    Regroup(fields, e.name, rest);
    var t := fields + (e.name + rest);
    FieldsParts(e.mode, e.size, e.mtime, |e.name|, e.name + rest);
    ShiftFields(DENT, t);
    WordsDiffer();
    assert s[20..20 + |e.name|] == s[20..][..|e.name|] == e.name;
    assert s[20 + |e.name|..] == s[20..][|e.name|..] == rest;
  }

  lemma ParseOfListDone(rest: seq<byte>)
    ensures ParseEntry(EncodeListDone() + rest) == End(ListDone(rest))
  {
    var fields := EntryFields(0, 0, 0, 0);
    Regroup(DONE, fields, rest);
    FieldsParts(0, 0, 0, 0, rest);
    ShiftFields(DONE, fields + rest);
    WordsDiffer();
  }

  /** Every sequence of entries whose names fit is read back, entry for entry and in order. */
  lemma {:induction false} ParseOfListStream(es: seq<DirEntry>, rest: seq<byte>)
    requires forall i :: 0 <= i < |es| ==> NameFits(es[i])
    ensures ParseList(ListStream(es) + rest) == ListReply(es, ListDone(rest))
  {
    hide ParseEntry, EncodeDent;
    if es == [] {
      ParseOfListDone(rest);
    } else {
      assert NameFits(es[0]);
      ParseOfListStream(es[1..], rest);
      Regroup(EncodeDent(es[0]), ListStream(es[1..]), rest);
      ParseOfDent(es[0], ListStream(es[1..]) + rest);
      assert es == [es[0]] + es[1..];
    }
  }
}
