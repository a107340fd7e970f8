/** From the user's callback to the result of a download or an upload: the sync conversation joined to the operation
    that acts on its outcome. */
module Cancellation {
  import opened Bytes
  import opened Client
  import opened Effects
  import opened Paths
  import opened Plugin
  import opened Safety
  import opened Transport
  import opened Wire
  import opened World
  import SyncRecv
  import SyncSend
  import TempName

  /** The callback keeps to its answer, and there is a connection to be had. */
  ghost predicate CanRefuse(t: TcpTransport?, progress: Progress?, remote: seq<byte>)
    reads t
  {
    t != null && Unused(t) && PathFits(remote) && progress != null && progress.Latching()
  }

  /** A download whose content comes over a connection. If the callback refuses, at whatever poll, the result is USERABORT
      with no local file changed - unless the message of a FAIL was being read, in which case it is a read error. */
  method GetOverWire(core: PluginCore, t: TcpTransport, progress: Progress, trace: seq<Answer>, wfxRemote: string,
                  localPath: LocalPath, flags: nat, pid: TempName.pid_t, env: GetEnv)
    returns (code: int)
    requires CanRefuse(t, progress, Ascii(ParseWfxPath(wfxRemote).path)) && progress.Fresh()
    requires GetRefusal(core.world.Now(), localPath, flags, env) == FS_FILE_OK && env.opens && env.unlinks
    requires TempName.BaseName(localPath) != TempName.SelfAlias(pid)
    modifies core.world, core.cache, t, progress
    ensures t.callsAfter == 0 && t.pollsAfter <= 1
    ensures progress.Refused() ==>
      if SyncRecv.InFailBody(AfterGreeting(old(t.incoming)), t.incoming) then code == FS_FILE_READERROR
      else code == FS_FILE_USERABORT && core.cache.entries == old(core.cache.entries)
           && core.world.Now() == old(core.world.Now().(disk := core.world.disk - {WritePath(core.world.Now(), localPath, pid)}))
    ensures code == FS_FILE_USERABORT ==>
      progress.Refused() || SyncRecv.Outcome(Ascii(ParseWfxPath(wfxRemote).serial), old(t.incoming)) == Error(CANCELLED)
  {
    hide ParseWfxPath, GetEffect, GetRefusal, SyncRecv.InFailBody, SyncRecv.Outcome, SyncRecv.RecvStallsInFail;
    var rp := ParseWfxPath(wfxRemote);
    var f := new LocalFile([], trace);
    var err := SyncRecv.Recv(t, Ascii(rp.serial), Ascii(rp.path), f, progress);
    var env' := env.(download := Download([f.data], err));
    OnlyOneIsCancelled();
    GetRefusalIgnores(core.world.Now(), localPath, flags, env, env');
    code := core.GetFile(wfxRemote, localPath, flags, pid, env');
    FailedGet(old(core.world.Now()), old(core.cache.entries), wfxRemote, localPath, flags, pid, env');
    CancelledGet(old(core.world.Now()), old(core.cache.entries), wfxRemote, localPath, flags, pid, env');
  }

  lemma GetRefusalIgnores(now: Snapshot, localPath: LocalPath, flags: nat, env: GetEnv, env': GetEnv)
    requires env'.stat == env.stat
    ensures GetRefusal(now, localPath, flags, env') == GetRefusal(now, localPath, flags, env)
  {
  }

  lemma FailedGet(now: Snapshot, cache: CacheMap, wfxRemote: string, localPath: LocalPath, flags: nat, pid: TempName.pid_t,
                  env: GetEnv)
    requires GetRefusal(now, localPath, flags, env) == FS_FILE_OK && env.opens
    ensures env.download.err.Error? && env.download.err.message != CANCELLED ==>
      GetEffect(now, cache, wfxRemote, localPath, flags, pid, env).result == FS_FILE_READERROR
  {
    hide Receiving, DeleteEffect, CANCELLED, TempName.TempDownloadPath;
  }

  /** An upload over a connection. If the callback refuses, at whatever poll, the result is USERABORT and the path's and its
      parent's listings are forgotten - unless the whole upload was sent and the message of the device's FAIL was being
      read, in which case it is a write error that forgets nothing. */
  method PutOverWire(core: PluginCore, t: TcpTransport, progress: Progress, trace: seq<Answer>, localPath: LocalPath,
                     wfxRemote: string, flags: nat, mode: u32, env: PutEnv)
    returns (code: int)
    requires CanRefuse(t, progress, Ascii(ParseWfxPath(wfxRemote).path)) && progress.Fresh()
    requires PutRefusal(core.world.Now(), localPath, flags, env) == FS_FILE_OK
    modifies core.world, core.cache, t, progress
    ensures t.callsAfter == 0 && t.pollsAfter <= 1
    ensures progress.Refused() ==>
      if code == FS_FILE_USERABORT then Forgotten(old(core.cache.entries), core.cache.entries, wfxRemote)
      else code == FS_FILE_WRITEERROR && core.cache.entries == old(core.cache.entries)
    ensures progress.Refused() ==>
      var rp, file := ParseWfxPath(wfxRemote), old(core.world.disk[localPath]);
      var sent := t.sent == UploadTranscript(Ascii(rp.serial), Ascii(rp.path), mode, file.data, file.mtime);
      code == FS_FILE_USERABORT <==> !(sent && SyncSend.InFailBody(AfterGreeting(old(t.incoming)), t.incoming))
    ensures code == FS_FILE_USERABORT ==>
      progress.Refused() || SyncSend.Outcome(Ascii(ParseWfxPath(wfxRemote).serial), old(t.incoming)) == Error(CANCELLED)
  {
    hide ParseWfxPath, PutEffect, PutRefusal, Forgotten, SyncSend.InFailBody, SyncSend.Outcome, UploadTranscript,
         SyncSend.SendStallsInFail, SyncSend.FailsBecause;
    var rp := ParseWfxPath(wfxRemote);
    LocalIsThere(core.world.Now(), localPath, flags, env);
    var file := core.world.disk[localPath];
    var f := new LocalFile(file.data, trace);
    assert f.data[0..] == f.data;
    var err := SyncSend.Send(t, Ascii(rp.serial), f, |file.data|, Ascii(rp.path), mode, file.mtime, progress, file.data);
    var env' := env.(mode := mode, upload := env.upload.(err := err));
    RefusalIgnores(core.world.Now(), localPath, flags, env, env');
    OnlyOneIsCancelled();
    code := core.PutFile(localPath, wfxRemote, flags, env');
    PutForgets(old(core.world.Now()), old(core.cache.entries), localPath, wfxRemote, flags, env');
    if err.Error? {
      PutCode(old(core.world.Now()), old(core.cache.entries), localPath, wfxRemote, flags, env');
    }
  }

  lemma LocalIsThere(now: Snapshot, localPath: LocalPath, flags: nat, env: PutEnv)
    requires PutRefusal(now, localPath, flags, env) == FS_FILE_OK
    ensures localPath in now.disk
  {
  }

  lemma RefusalIgnores(now: Snapshot, localPath: LocalPath, flags: nat, env: PutEnv, env': PutEnv)
    requires env'.target == env.target && env'.opens == env.opens
    ensures PutRefusal(now, localPath, flags, env') == PutRefusal(now, localPath, flags, env)
  {
  }

  lemma PutCode(now: Snapshot, cache: CacheMap, localPath: LocalPath, wfxRemote: string, flags: nat, env: PutEnv)
    requires PutRefusal(now, localPath, flags, env) == FS_FILE_OK && env.upload.err.Error?
    ensures PutEffect(now, cache, localPath, wfxRemote, flags, env).result ==
      if env.upload.err.message == CANCELLED then FS_FILE_USERABORT else FS_FILE_WRITEERROR
  {
    hide Dropped, ParseWfxPath, PhonesAfterUpload, CANCELLED;
  }

  // ----- the refusal that is not reported as one -----

  const FAIL_REPLY: seq<byte> := Header(FAIL, 5) + Ascii("wrong")

  /** `k` transfers that each move all there is, then a timeout. */
  function StallAfter(k: nat): (trace: seq<Answer>)
    ensures Brisk(trace, k) && |trace| == k + 1 && Stalls(trace[k..])
  {
    if k == 0 then [Fails(EAGAIN)]
    else
      var rest := StallAfter(k - 1);
      assert ([Moves(LOTS)] + rest)[1..] == rest && ([Moves(LOTS)] + rest)[k..] == rest[k - 1..];
      [Moves(LOTS)] + rest
  }

  /** It happens: seven transfers open a download, send its request and fetch the header of the device's FAIL; then the
      connection stalls, the user says stop, and what is reported is a fault of the connection. */
  method RefusedDownload() returns (err: AdbError, refused: bool)
    ensures refused && err == Error(CONNECTION_FAULT)
  {
    hide SyncRecv.RecvStallsInFail, StallAfter, CONNECTION_FAULT, SyncRecv.Reply, SyncRecv.Outcome, SyncRecv.PartlyDelivered,
         SyncRecv.RecvTranscript, SyncRecv.RefusalError, Benign, AfterGreeting, FAIL_REPLY, Ascii, Flatten;
    var progress := new Progress(_ => false);
    var t := new TcpTransport(StallAfter(7), OKAY + (OKAY + FAIL_REPLY));
    var f := new LocalFile([], []);
    DownloadStalls(progress);
    err := SyncRecv.Recv(t, Ascii("S"), Ascii("/a"), f, progress);
    refused := t.onStall != null && t.onStall.stallCancelled;
  }

  lemma DownloadStalls(progress: Progress)
    requires forall i: nat :: progress.answer(i) == false
    ensures PathFits(Ascii("/a"))
    ensures SyncRecv.RecvStallsInFail(StallAfter(7), Ascii("S"), Ascii("/a"), OKAY + (OKAY + FAIL_REPLY), progress)
  {
    hide StallAfter;
    assert |Ascii("/a")| == 2 && |Ascii("S")| == 1;
    GreetingOf(FAIL_REPLY, Ascii("S"));
    HeaderParts(FAIL, 5, Ascii("wrong"));
  }

  /** And for an upload, once its last packet is sent. */
  method RefusedUpload() returns (err: AdbError, refused: bool)
    ensures refused && err == Error(CONNECTION_FAULT)
  {
    hide SyncSend.SendStallsInFail, StallAfter, CONNECTION_FAULT, UploadTranscript, SyncSend.FailsBecause;
    var progress := new Progress(_ => false);
    var t := new TcpTransport(StallAfter(8), OKAY + (OKAY + FAIL_REPLY));
    var f := new LocalFile([], []);
    UploadStalls(progress);
    err := SyncSend.Send(t, Ascii("S"), f, 0, Ascii("/a"), 0, 0, progress, []);
    refused := t.onStall != null && t.onStall.stallCancelled;
  }

  lemma UploadStalls(progress: Progress)
    requires forall i: nat :: progress.answer(i) == false
    ensures PathFits(Ascii("/a"))
    ensures SyncSend.SendStallsInFail(StallAfter(8), Ascii("S"), OKAY + (OKAY + FAIL_REPLY), progress)
  {
    hide StallAfter;
    assert |Ascii("/a")| == 2 && |Ascii("S")| == 1;
    GreetingOf(FAIL_REPLY, Ascii("S"));
    HeaderParts(FAIL, 5, Ascii("wrong"));
  }

  lemma GreetingOf(reply: seq<byte>, serial: seq<byte>)
    requires SerialFits(serial)
    ensures AfterGreeting(OKAY + (OKAY + reply)) == reply
    ensures GreetingError(serial, OKAY + (OKAY + reply)) == Success
  {
    assert (OKAY + (OKAY + reply))[..4] == OKAY && (OKAY + (OKAY + reply))[4..] == OKAY + reply;
    assert (OKAY + reply)[..4] == OKAY && (OKAY + reply)[4..] == reply;
  }
}
