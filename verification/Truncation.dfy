/** A conversation that is cut off, wherever that may be, never passes for a complete one. */
module Truncation {
  import opened Bytes
  import opened Client
  import opened Server
  import opened Wire
  import SyncList
  import SyncRecv
  import SyncSend

  lemma FrontDrop(cut: seq<byte>, s: seq<byte>, n: nat)
    requires cut <= s && n <= |cut|
    ensures cut[n..] <= s[n..] && cut[..n] == s[..n]
    ensures |cut| >= n + 4 ==> ReadU32Le(cut[n..]) == ReadU32Le(s[n..])
  {
  }

  lemma EndsInPacket(id: seq<byte>, arg: u32, body: seq<byte>)
    ensures var end := SyncRecv.EndOf(id, arg, body); end.Done? ==> id == DONE && end.rest == body
  {
  }

  /** A stream of chunks cut before the end of its DONE packet ends nowhere, with the chunks before the cut. */
  lemma {:induction false} DataCut(s: seq<byte>, cut: seq<byte>)
    requires ParseData(s).end.Done? && cut <= s && |cut| + |ParseData(s).end.rest| < |s|
    ensures ParseData(cut).end == Cut && ParseData(cut).chunks <= ParseData(s).chunks
    decreases |s|, 0
  {
    if |cut| < 8 {
      TooShort(cut);
    } else {
      hide ReadU32Le, ParseData, SyncRecv.EndOf, SyncRecv.AfterFailHeader;
      SyncRecv.ParseHead(s);
      SyncRecv.ParseHead(cut);
      FrontDrop(cut, s, 4);
      FrontDrop(cut, s, 8);
      EndsInPacket(s[..4], ReadU32Le(s[4..]), s[8..]);
      if s[..4] == DATA {
        ChunkCut(s[8..], cut[8..], ReadU32Le(s[4..]));
      }
    }
  }

  lemma {:induction false} ChunkCut(body: seq<byte>, cut: seq<byte>, arg: nat)
    requires cut <= body
    requires arg <= |body| && ParseData(body[arg..]).end.Done? && |cut| + |ParseData(body[arg..]).end.rest| < |body|
    ensures arg <= |cut| ==>
      && cut[..arg] == body[..arg]
      && ParseData(cut[arg..]).end == Cut && ParseData(cut[arg..]).chunks <= ParseData(body[arg..]).chunks
    decreases |body|, 1
  {
    hide ParseData;
    if arg <= |cut| {
      FrontDrop(cut, body, arg);
      DataCut(body[arg..], cut[arg..]);
    }
  }

  lemma TooShort(s: seq<byte>)
    requires |s| < 8
    ensures ParseData(s) == DataReply([], Cut)
  {
  }

  lemma StatusCut(s: seq<byte>, k: nat)
    requires k < 4 && k <= |s|
    ensures ParseStatus(s[..k]) == CutStatus
  {
  }

  /** Accepted requests that are cut off: before both are, the greeting is a fault; after that, the reply is cut off. */
  lemma GreetingCut(serial: seq<byte>, reply: seq<byte>, k: nat)
    requires SerialFits(serial) && k <= |Accepted(reply)|
    ensures |Accepted(reply)| == |reply| + 8
    ensures k < 8 ==> GreetingError(serial, Accepted(reply)[..k]) == Error(CONNECTION_FAULT)
    ensures k < 8 ==> AfterGreeting(Accepted(reply)[..k]) == []
    ensures k >= 8 ==> Accepted(reply)[..k] == Accepted(reply[..k - 8])
  {
    hide ParseStatus;
    var s := Accepted(reply);
    if k < 4 {
      StatusCut(s, k);
    } else if k < 8 {
      assert s[..k] == Ascii("OKAY") + s[4..k];
      StatusOfOkay(s[4..k]);
      StatusCut(s[4..], k - 4);
      assert s[4..k] == s[4..][..k - 4];
    } else {
      assert s[..k] == Ascii("OKAY") + (Ascii("OKAY") + reply[..k - 8]);
    }
  }

  /** A download cut off anywhere fails, and delivers no more than the chunks before the cut. */
  lemma DownloadCut(serial: seq<byte>, chunks: seq<seq<byte>>, arg: u32, k: nat)
    requires SerialFits(serial) && forall i :: 0 <= i < |chunks| ==> FitsPacket(chunks[i])
    requires k < |SyncRecv.DownloadStream(chunks, arg)|
    ensures var s := SyncRecv.DownloadStream(chunks, arg)[..k];
      SyncRecv.Outcome(serial, s) == Error(CONNECTION_FAULT) && SyncRecv.Reply(s).chunks <= chunks
  {
    hide Accepted, DataStream, Header, ParseData, GreetingError, AfterGreeting;
    var reply := DataStream(chunks) + Header(DONE, arg);
    assert SyncRecv.DownloadStream(chunks, arg) == Accepted(reply) by {
      IsAccepted(reply);
    }
    GreetingCut(serial, reply, k);
    if k < 8 {
      NothingThere();
    } else {
      AcceptedDownload(serial, reply[..k - 8]);
      ParseOfDataStream(chunks, arg, []);
      assert reply == DataStream(chunks) + (Header(DONE, arg) + []);
      DataCut(reply, reply[..k - 8]);
    }
  }

  lemma IsAccepted(reply: seq<byte>)
    ensures Accepted(reply) == OKAY + (OKAY + reply)
  {
  }

  lemma NothingThere()
    ensures ParseData([]).chunks == []
  {
  }

  /** The answer to an upload cut off anywhere is not an answer. */
  lemma AnswerCut(serial: seq<byte>, arg: u32, k: nat)
    requires SerialFits(serial) && k < |Accepted(Header(Ascii("OKAY"), arg))|
    ensures SyncSend.Outcome(serial, Accepted(Header(Ascii("OKAY"), arg))[..k]) == Error(CONNECTION_FAULT)
  {
    hide Accepted, Header, GreetingError, ParseGreeting;
    var reply := Header(Ascii("OKAY"), arg);
    GreetingCut(serial, reply, k);
    if k >= 8 {
      GreetingIsRead(serial, [], reply[..k - 8]);
    }
  }

  // ----- listings -----

  lemma EntryCut(s: seq<byte>, k: nat)
    requires ParseEntry(s).Entry? || (ParseEntry(s).End? && ParseEntry(s).end.ListDone?)
    requires var rest := if ParseEntry(s).Entry? then ParseEntry(s).rest else ParseEntry(s).end.rest;
      |rest| <= |s| && k < |s| - |rest|
    ensures ParseEntry(s[..k]) == End(ListCut)
  {
    WordsDiffer();
    if k >= 4 {
      assert s[..k][..4] == s[..4];
    }
    if k >= 20 {
      assert forall i :: 0 <= i < 4 ==> s[..k][16..][i] == s[16..][i];
    }
  }

  lemma EntryLeft(s: seq<byte>, k: nat)
    requires ParseEntry(s).Entry? && |s| - |ParseEntry(s).rest| <= k <= |s|
    ensures var n := |s| - |ParseEntry(s).rest|;
      ParseEntry(s[..k]) == Entry(ParseEntry(s).e, ParseEntry(s).rest[..k - n])
  {
    hide ReadU32Le;
    WordsDiffer();
    var namelen := ReadU32Le(s[16..]);
    SameFields(s, k);
    SameName(s, k, 20 + namelen);
  }

  lemma SameName(s: seq<byte>, k: nat, n: nat)
    requires 20 <= n <= k <= |s|
    ensures s[..k][20..n] == s[20..n] && s[..k][n..] == s[n..][..k - n]
  {
  }

  lemma SameFields(s: seq<byte>, k: nat)
    requires 20 <= k <= |s|
    ensures s[..k][..4] == s[..4]
    ensures ReadU32Le(s[..k][4..]) == ReadU32Le(s[4..]) && ReadU32Le(s[..k][8..]) == ReadU32Le(s[8..])
    ensures ReadU32Le(s[..k][12..]) == ReadU32Le(s[12..]) && ReadU32Le(s[..k][16..]) == ReadU32Le(s[16..])
  {
  }

  lemma RestIsShorter(s: seq<byte>)
    ensures ParseEntry(s).End? && ParseEntry(s).end.ListDone? ==> |ParseEntry(s).end.rest| <= |s|
  {
  }

  /** A listing cut before the end of its DONE packet ends nowhere. */
  lemma {:induction false} EntriesCut(s: seq<byte>, k: nat)
    requires ParseList(s).end.ListDone? && |ParseList(s).end.rest| <= |s| && k < |s| - |ParseList(s).end.rest|
    ensures ParseList(s[..k]).end == ListCut
    decreases |s|
  {
    hide ParseEntry;
    match ParseEntry(s)
    case Entry(e, rest) =>
      if |s| - |rest| <= k {
        EntryLeft(s, k);
        if |ParseList(rest).end.rest| <= |rest| {
          EntriesCut(rest, k - (|s| - |rest|));
        }
      } else {
        EntryCut(s, k);
      }
    case End(end) =>
      EntryCut(s, k);
  }

  /** A listing cut off anywhere fails; it never passes for a shorter one. */
  lemma ListingCut(serial: seq<byte>, es: seq<DirEntry>, k: nat)
    requires SerialFits(serial) && forall i :: 0 <= i < |es| ==> NameFits(es[i])
    requires k < |SyncList.ListingStream(es)|
    ensures SyncList.Outcome(serial, SyncList.ListingStream(es)[..k]) == Error(CONNECTION_FAULT)
  {
    hide Accepted, ListStream, ParseList, GreetingError;
    var reply := ListStream(es);
    assert SyncList.ListingStream(es) == Accepted(reply) by {
      IsAccepted(reply);
    }
    GreetingCut(serial, reply, k);
    if k >= 8 {
      AcceptedListing(serial, reply[..k - 8]);
      ParseOfListStream(es, []);
      assert reply == ListStream(es) + [];
      EntriesCut(reply, k - 8);
    }
  }
}
