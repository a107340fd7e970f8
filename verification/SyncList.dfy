/** Listings and stats: the LIST and STAT halves of the sync conversation. */
module SyncList {
  import opened Bytes
  import opened Transport
  import opened Wire
  import opened Client

  function ListRequest(path: seq<byte>): seq<byte>
    requires PathFits(path)
  {
    Packet(LIST, path)
  }

  function StatRequest(path: seq<byte>): seq<byte>
    requires PathFits(path)
  {
    Packet(STAT, path)
  }

  /** The error the end of a listing amounts to. */
  function ListError(end: ListEnd): AdbError {
    match end
    case ListDone(_) => Success
    case ListFailed(message) => Error(message)
    case ListBadFail => Error(OVERSIZED_FAIL)
    case ListMalformed => Error(MALFORMED_REPLY)
    case ListCut => Error(CONNECTION_FAULT)
  }

  datatype EntryStep = Dent(e: DirEntry) | Last | Bad(err: AdbError)

  /** What one entry of the reply is read as. */
  function StepOf(r: EntryReply): EntryStep {
    match r
    case Entry(e, _) => Dent(e)
    case End(ListDone(_)) => Last
    case End(end) => Bad(ListError(end))
  }

  function RestOf(r: EntryReply, otherwise: seq<byte>): seq<byte> {
    match r
    case Entry(_, rest) => rest
    case End(ListDone(rest)) => rest
    case End(_) => otherwise
  }

  /** Reads one entry of a listing. The block asked for never exceeds the fixed fields and the longest name. */
  method ReadListEntry(t: TcpTransport) returns (step: EntryStep, block: nat)
    requires t.onStall == null && t.Quiet()
    modifies t`trace, t`refused, t`callsAfter, t`pollsAfter, t`incoming
    ensures block <= DENT_FIXED_HEADER_SIZE + SYNC_PATH_MAX
    ensures step == Bad(Error(CONNECTION_FAULT)) || step == StepOf(ParseEntry(old(t.incoming)))
    ensures !step.Bad? ==> t.incoming == RestOf(ParseEntry(old(t.incoming)), [])
    ensures Benign(old(t.trace)) ==> Benign(t.trace)
    ensures Benign(old(t.trace)) && t.open ==> step == StepOf(ParseEntry(old(t.incoming)))
    ensures t.Quiet()
  {
    WordsDiffer();
    ghost var s := t.incoming;
    block := 0;
    var ok, id := Receive(t, 4);
    if !ok {
      return Bad(Error(CONNECTION_FAULT)), 0;
    }
    if id == FAIL {
      step := ReadListFail(t, s);
      return;
    }
    if id != DENT && id != DONE {
      return Bad(Error(MALFORMED_REPLY)), 0;
    }
    step, block := ReadListBody(t, id, s);
  }

  method ReadListFail(t: TcpTransport, ghost s: seq<byte>) returns (step: EntryStep)
    requires t.onStall == null && t.Quiet()
    requires |s| >= 4 && s[..4] == FAIL && t.incoming == s[4..]
    modifies t`trace, t`refused, t`callsAfter, t`pollsAfter, t`incoming
    ensures step.Bad?
    ensures step == Bad(Error(CONNECTION_FAULT)) || step == StepOf(ParseEntry(s))
    ensures Benign(old(t.trace)) ==> Benign(t.trace)
    ensures Benign(old(t.trace)) && t.open ==> step == StepOf(ParseEntry(s))
    ensures t.Quiet()
  {
    var ok, lenBuf := Receive(t, 4);
    if !ok {
      return Bad(Error(CONNECTION_FAULT));
    }
    assert t.incoming == s[8..] && forall i :: 0 <= i < 4 ==> lenBuf[i] == s[4..][i];
    var err := ReadSyncFailMessage(t, ReadU32Le(lenBuf));
    step := Bad(err);
  }

  /** The fields and the name that follow a DENT or DONE id. */
  method ReadListBody(t: TcpTransport, id: seq<byte>, ghost s: seq<byte>) returns (step: EntryStep, block: nat)
    requires t.onStall == null && t.Quiet()
    requires |s| >= 4 && s[..4] == id && (id == DENT || id == DONE) && t.incoming == s[4..]
    modifies t`trace, t`refused, t`callsAfter, t`pollsAfter, t`incoming
    ensures block <= DENT_FIXED_HEADER_SIZE + SYNC_PATH_MAX
    ensures step == Bad(Error(CONNECTION_FAULT)) || step == StepOf(ParseEntry(s))
    ensures !step.Bad? ==> t.incoming == RestOf(ParseEntry(s), [])
    ensures Benign(old(t.trace)) ==> Benign(t.trace)
    ensures Benign(old(t.trace)) && t.open ==> step == StepOf(ParseEntry(s))
    ensures t.Quiet()
  {
    hide ReadU32Le;
    WordsDiffer();
    block := 0;
    var ok, fields := Receive(t, DENT_FIXED_HEADER_SIZE);
    if !ok {
      return Bad(Error(CONNECTION_FAULT)), 0;
    }
    FieldsOf(s, fields);
    var namelen := ReadU32Le(fields[12..]);
    if namelen > SYNC_PATH_MAX {
      return Bad(Error(MALFORMED_REPLY)), 0;
    }
    block := DENT_FIXED_HEADER_SIZE + namelen;
    var name;
    ok, name := Receive(t, namelen);
    if !ok {
      return Bad(Error(CONNECTION_FAULT)), block;
    }
    assert name == s[20..20 + namelen];
    if id == DONE {
      return Last, block;
    }
    step := Dent(DirEntry(name, ReadU32Le(fields), ReadU32Le(fields[4..]), ReadU32Le(fields[8..])));
  }

  lemma FieldsOf(s: seq<byte>, fields: seq<byte>)
    requires |s| >= 20 && fields == s[4..][..16]
    ensures |fields| == 16 && s[4..][16..] == s[20..]
    ensures ReadU32Le(fields) == ReadU32Le(s[4..]) && ReadU32Le(fields[4..]) == ReadU32Le(s[8..])
    ensures ReadU32Le(fields[8..]) == ReadU32Le(s[12..]) && ReadU32Le(fields[12..]) == ReadU32Le(s[16..])
  {
    assert forall i :: 0 <= i < 16 ==> fields[i] == s[4 + i];
  }

  /** The whole listing the server will send. */
  function Reply(incoming: seq<byte>): ListReply {
    match ParseGreeting(incoming)
    case Okay(rest) => ParseList(rest)
    case _ => ListReply([], ListCut)
  }

  function Outcome(serial: seq<byte>, incoming: seq<byte>): AdbError {
    match GreetingError(serial, incoming)
    case Success => ListError(Reply(incoming).end)
    case e => e
  }

  /** Lists a directory: on success exactly the entries sent, in order; on failure nothing. */
  method List(t: TcpTransport?, serial: seq<byte>, path: seq<byte>) returns (err: AdbError, entries: seq<DirEntry>, ghost largest: nat)
    requires t != null ==> Unused(t)
    modifies t
    ensures largest <= DENT_FIXED_HEADER_SIZE + SYNC_PATH_MAX
    ensures err.Error? ==> entries == []
    ensures !PathFits(path) ==> err == Error(PATH_TOO_LONG) && (t != null ==> t.sent == [])
    ensures PathFits(path) && t == null ==> err == Error(NO_TRANSPORT)
    ensures PathFits(path) && t != null ==> !t.open && t.sent <= OpenSync(serial) + ListRequest(path)
    ensures err.Success? ==> PathFits(path) && t != null && t.sent == OpenSync(serial) + ListRequest(path)
    ensures err.Success? ==> Reply(old(t.incoming)) == ListReply(entries, ListDone(t.incoming))
    ensures PathFits(path) && t != null && Benign(old(t.trace)) ==> err == Outcome(serial, old(t.incoming))
  {
    entries, largest := [], 0;
    if !PathFits(path) {
      return Error(PATH_TOO_LONG), [], 0;
    }
    if t == null {
      return Error(NO_TRANSPORT), [], 0;
    }
    err := OpenSyncTransport(t, serial);
    if err.Error? {
      return;
    }
    var ok := WriteSyncPacket(t, LIST, |path|, path);
    if !ok {
      t.Close();
      return Error(CONNECTION_FAULT), [], 0;
    }
    err, entries, largest := ReceiveList(t);
  }

  method ReceiveList(t: TcpTransport) returns (err: AdbError, entries: seq<DirEntry>, ghost largest: nat)
    requires t.onStall == null && t.Quiet() && t.open
    modifies t`open, t`trace, t`refused, t`callsAfter, t`pollsAfter, t`incoming
    ensures !t.open
    ensures largest <= DENT_FIXED_HEADER_SIZE + SYNC_PATH_MAX
    ensures err.Error? ==> entries == []
    ensures err.Success? ==> ParseList(old(t.incoming)) == ListReply(entries, ListDone(t.incoming))
    ensures Benign(old(t.trace)) ==> err == ListError(ParseList(old(t.incoming)).end)
  {
    ghost var all := ParseList(t.incoming);
    entries, largest := [], 0;
    while true
      invariant t.open && t.Quiet()
      invariant largest <= DENT_FIXED_HEADER_SIZE + SYNC_PATH_MAX
      invariant all.entries == entries + ParseList(t.incoming).entries && all.end == ParseList(t.incoming).end
      invariant Benign(old(t.trace)) ==> Benign(t.trace)
      decreases |t.incoming|
    {
      var step, block := ReadListEntry(t);
      largest := if block > largest then block else largest;
      match step
      case Bad(e) =>
        t.Close();
        return e, [], largest;
      case Last =>
        t.Close();
        return Success, entries, largest;
      case Dent(e) =>
        MoveOne(entries, e, ParseList(t.incoming).entries);
        entries := entries + [e];
    }
  }

  /** What the device says to a listing: both requests accepted, the entries, DONE. */
  function ListingStream(es: seq<DirEntry>): seq<byte>
    requires forall i :: 0 <= i < |es| ==> NameFits(es[i])
  {
    OKAY + (OKAY + ListStream(es))
  }

  lemma ListRoundTrip(serial: seq<byte>, es: seq<DirEntry>, rest: seq<byte>)
    requires SerialFits(serial)
    requires forall i :: 0 <= i < |es| ==> NameFits(es[i])
    ensures Reply(ListingStream(es) + rest) == ListReply(es, ListDone(rest))
    ensures Outcome(serial, ListingStream(es) + rest) == Success
  {
    var data := ListStream(es) + rest;
    assert ListingStream(es) + rest == OKAY + (OKAY + data);
    assert (OKAY + (OKAY + data))[..4] == OKAY && (OKAY + (OKAY + data))[4..] == OKAY + data;
    assert (OKAY + data)[..4] == OKAY && (OKAY + data)[4..] == data;
    ParseOfListStream(es, rest);
  }

  // ----- STAT -----

  datatype Attributes = Attributes(mode: u32, size: u32, mtime: u32)

  datatype StatReply =
    | Found(attributes: Attributes)
    | Missing                           // all fields zero: no such file
    | Failing(end: ListEnd)             // a FAIL, something else, or the end of the stream

  /** What the reader of a STAT reply makes of any octets at all. */
  function ParseStat(s: seq<byte>): StatReply {
    if |s| < 4 then Failing(ListCut)
    else if s[..4] == FAIL then
      if |s| < 8 then Failing(ListCut) else Failing(ParseListFail(ReadU32Le(s[4..]), s[8..]))
    else if s[..4] != STAT then Failing(ListMalformed)
    else if |s| < 16 then Failing(ListCut)
    else
      var a := Attributes(ReadU32Le(s[4..]), ReadU32Le(s[8..]), ReadU32Le(s[12..]));
      if a == Attributes(0, 0, 0) then Missing else Found(a)
  }

  /** What a stat comes to, given all the server will say. */
  function StatOutcome(serial: seq<byte>, incoming: seq<byte>): (AdbError, StatReply) {
    match GreetingError(serial, incoming)
    case Success =>
      var r := ParseStat(ParseGreeting(incoming).rest);
      (if r.Failing? then ListError(r.end) else Success, r)
    case e => (e, Missing)
  }

  /** Asks for the attributes of a path. */
  method Stat(t: TcpTransport?, serial: seq<byte>, path: seq<byte>)
    returns (err: AdbError, exists_: bool, attributes: Attributes)
    requires t != null ==> Unused(t)
    modifies t
    ensures err.Error? || !exists_ ==> !exists_ && attributes == Attributes(0, 0, 0)
    ensures !PathFits(path) ==> err == Error(PATH_TOO_LONG) && (t != null ==> t.sent == [])
    ensures PathFits(path) && t == null ==> err == Error(NO_TRANSPORT)
    ensures PathFits(path) && t != null ==> !t.open && t.sent <= OpenSync(serial) + StatRequest(path)
    ensures err.Success? ==> t != null && PathFits(path) && SerialFits(serial) && t.sent == OpenSync(serial) + StatRequest(path)
    ensures err.Success? ==>
      StatOutcome(serial, old(t.incoming)) == (Success, if exists_ then Found(attributes) else Missing)
    ensures PathFits(path) && t != null && Benign(old(t.trace)) ==> err == StatOutcome(serial, old(t.incoming)).0
  {
    exists_, attributes := false, Attributes(0, 0, 0);
    if !PathFits(path) {
      err := Error(PATH_TOO_LONG);
      return;
    }
    if t == null {
      err := Error(NO_TRANSPORT);
      return;
    }
    err := OpenSyncTransport(t, serial);
    if err.Error? {
      return;
    }
    var ok := WriteSyncPacket(t, STAT, |path|, path);
    if !ok {
      t.Close();
      err := Error(CONNECTION_FAULT);
      return;
    }
    err, exists_, attributes := ReceiveStat(t);
  }

  method ReceiveStat(t: TcpTransport) returns (err: AdbError, exists_: bool, attributes: Attributes)
    requires t.onStall == null && t.Quiet() && t.open
    modifies t`open, t`trace, t`refused, t`callsAfter, t`pollsAfter, t`incoming
    ensures !t.open
    ensures err.Error? || !exists_ ==> !exists_ && attributes == Attributes(0, 0, 0)
    ensures err.Success? ==> ParseStat(old(t.incoming)) == if exists_ then Found(attributes) else Missing
    ensures Benign(old(t.trace)) ==>
      err == if ParseStat(old(t.incoming)).Failing? then ListError(ParseStat(old(t.incoming)).end) else Success
  {
    WordsDiffer();
    exists_, attributes := false, Attributes(0, 0, 0);
    ghost var s := t.incoming;
    var ok, id := Receive(t, 4);
    if !ok {
      t.Close();
      err := Error(CONNECTION_FAULT);
      return;
    }
    if id == FAIL {
      var step := ReadListFail(t, s);
      t.Close();
      err := step.err;
      return;
    }
    if id != STAT {
      t.Close();
      err := Error(MALFORMED_REPLY);
      return;
    }
    var body;
    ok, body := Receive(t, 12);
    t.Close();
    if !ok {
      err := Error(CONNECTION_FAULT);
      return;
    }
    assert forall i :: 0 <= i < 12 ==> body[i] == s[4 + i];
    var a := Attributes(ReadU32Le(body), ReadU32Le(body[4..]), ReadU32Le(body[8..]));
    err := Success;
    if a != Attributes(0, 0, 0) {
      exists_, attributes := true, a;
    }
  }

  function EncodeStat(a: Attributes): seq<byte> {
    STAT + (U32Le(a.mode) + (U32Le(a.size) + U32Le(a.mtime)))
  }

  /** Attributes come through as sent, except that all-zero ones read as "does not exist". */
  lemma StatRoundTrip(a: Attributes, rest: seq<byte>)
    ensures ParseStat(EncodeStat(a) + rest) == if a == Attributes(0, 0, 0) then Missing else Found(a)
  {
    var s := EncodeStat(a) + rest;
    var m, z, d := U32Le(a.mode), U32Le(a.size), U32Le(a.mtime);
    assert s == STAT + (m + (z + (d + rest)));
    assert s[..4] == STAT && s[4..] == m + (z + (d + rest)) && s[8..] == z + (d + rest) && s[12..] == d + rest;
    ReadOfU32Le(a.mode, z + (d + rest));
    ReadOfU32Le(a.size, d + rest);
    ReadOfU32Le(a.mtime, rest);
    WordsDiffer();
  }
}
