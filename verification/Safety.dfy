/** What every run of a download, an upload, a move or a copy keeps, whatever fails on the way. */
module Safety {
  import opened Bytes
  import opened Cache
  import opened Client
  import opened Commands
  import opened Device
  import opened Effects
  import opened Paths
  import opened World
  import SyncRecv
  import TempName
  import Wire

  // ----- downloads -----

  lemma {:induction false} ReceivingStates(now: Snapshot, path: LocalPath, data: seq<byte>, pieces: seq<seq<byte>>, time: int)
    ensures forall s :: s in Receiving(now, path, data, pieces, time) ==>
      s.phones == now.phones && path in s.disk && s.disk == now.disk[path := s.disk[path]]
  {
    if pieces != [] {
      ReceivingStates(now, path, data, pieces[..|pieces| - 1], time);
    }
  }

  /** The transfer succeeded up to its last step: the date could not be set. */
  predicate OnlyStampFails(viaTempFile: bool, env: GetEnv) {
    env.opens && env.download.err.Success? && (viaTempFile ==> env.renames) && !env.stamps
  }

  predicate Completes(viaTempFile: bool, env: GetEnv) {
    env.opens && env.download.err.Success? && (viaTempFile ==> env.renames) && env.stamps
  }

  /** The target holds its old entry, or the complete new content. */
  predicate Intact(disk: Disk, old_: Disk, target: LocalPath, content: seq<byte>)
    requires target in old_
  {
    target in disk && (disk[target] == old_[target] || disk[target].data == content)
  }

  lemma PlacingKeepsTarget(now: Snapshot, old_: Disk, target: LocalPath, writePath: LocalPath, mtime: int, env: GetEnv)
    requires writePath in now.disk && writePath != target && now.disk[writePath].data == Content(env) && env.opens
    requires target in now.disk && target in old_ && now.disk[target] == old_[target]
    ensures var (trail, code) := Placing(now, target, writePath, true, mtime, env);
      && |trail| <= 2 && (forall s :: s in trail ==> s.phones == now.phones)
      && (|trail| == 2 ==> Intact(trail[0].disk, old_, target, Content(env)))
      && (Intact(Final(now, trail).disk, old_, target, Content(env)) <==> !(OnlyStampFails(true, env) && env.unlinks))
  {
  }

  /** While an existing file is replaced, every state but possibly the last has its old entry or the complete new
      content under its name. The last one lacks it exactly if the date could not be set and the clean-up removed
      the file that had already been replaced. */
  lemma FetchKeepsTarget(now: Snapshot, target: LocalPath, writePath: LocalPath, mtime: int, env: GetEnv)
    requires target in now.disk && writePath != target
    ensures var (trail, code) := Fetching(now, target, writePath, true, mtime, env);
      && (forall s :: s in trail ==> s.phones == now.phones)
      && (forall i :: 0 <= i < |trail| - 1 ==> Intact(trail[i].disk, now.disk, target, Content(env)))
      && (Intact(Final(now, trail).disk, now.disk, target, Content(env)) <==> !(OnlyStampFails(true, env) && env.unlinks))
  {
    hide Placing, Receiving, Content;
    if env.opens {
      ReceivingStates(now, writePath, [], env.download.pieces, env.now);
      PlacingKeepsTarget(Received(now, writePath, env), now.disk, target, writePath, mtime, env);
      var first := [now.(disk := now.disk[writePath := LocalEntry([], env.now)])]
        + Receiving(now, writePath, [], env.download.pieces, env.now);
      assert forall s :: s in first ==> Intact(s.disk, now.disk, target, Content(env)) && s.phones == now.phones;
      var (rest, code) := Placing(Received(now, writePath, env), target, writePath, true, mtime, env);
      var trail := first + rest;
      assert forall i :: 0 <= i < |trail| ==> trail[i] == if i < |first| then first[i] else rest[i - |first|];
      if rest == [] {
        assert trail[|trail| - 1] in first;
      }
    }
  }

  /** What is left once the clean-up after a failure has worked. */
  function CleanedUp(disk: Disk, target: LocalPath, writePath: LocalPath, viaTempFile: bool, env: GetEnv): Disk {
    if !env.opens then disk
    else if OnlyStampFails(viaTempFile, env) then disk - {writePath, target}
    else disk - {writePath}
  }

  /** How the transfer part of a download ends, and the disk it leaves if files can be removed. */
  lemma FetchEnds(now: Snapshot, target: LocalPath, writePath: LocalPath, viaTempFile: bool, mtime: int, env: GetEnv)
    requires viaTempFile || writePath == target
    ensures var (trail, code) := Fetching(now, target, writePath, viaTempFile, mtime, env); var end := Final(now, trail);
      && end.phones == now.phones && (code == FS_FILE_OK <==> Completes(viaTempFile, env))
      && (code == FS_FILE_OK ==> end.disk == (now.disk - {writePath})[target := LocalEntry(Content(env), mtime)])
      && (code != FS_FILE_OK && env.unlinks ==> end.disk == CleanedUp(now.disk, target, writePath, viaTempFile, env))
  {
    hide Receiving, Placing, Content;
    if env.opens {
      var created := now.(disk := now.disk[writePath := LocalEntry([], env.now)]);
      var received := Received(now, writePath, env);
      ReceivingEnds(now, writePath, env.download.pieces, env);
      PlacingEnds(now, received, target, writePath, viaTempFile, mtime, env);
      var (rest, code) := Placing(received, target, writePath, viaTempFile, mtime, env);
      FinalOfTwo(now, [created] + Receiving(now, writePath, [], env.download.pieces, env.now), rest);
    }
  }

  lemma ReceivingEnds(now: Snapshot, writePath: LocalPath, pieces: seq<seq<byte>>, env: GetEnv)
    requires pieces == env.download.pieces
    ensures Final(now, [now.(disk := now.disk[writePath := LocalEntry([], env.now)])]
                       + Receiving(now, writePath, [], pieces, env.now)) == Received(now, writePath, env)
  {
    if pieces != [] {
      assert [] + Content(env) == Content(env);
    }
  }

  lemma PlacingEnds(start: Snapshot, now: Snapshot, target: LocalPath, writePath: LocalPath, viaTempFile: bool, mtime: int,
                    env: GetEnv)
    requires env.opens && now == Received(start, writePath, env) && (viaTempFile || writePath == target)
    ensures var (trail, code) := Placing(now, target, writePath, viaTempFile, mtime, env); var end := Final(now, trail);
      && end.phones == now.phones && (code == FS_FILE_OK <==> Completes(viaTempFile, env))
      && (code == FS_FILE_OK ==> end.disk == (start.disk - {writePath})[target := LocalEntry(Content(env), mtime)])
      && (code != FS_FILE_OK && env.unlinks ==> end.disk == CleanedUp(start.disk, target, writePath, viaTempFile, env))
  {
    hide Content;
  }

  /** The old copy could not be spared: the date of its replacement could not be set, or the target's own name is the
      one the download would have been hidden under. */
  predicate OldCopyIsLost(localPath: LocalPath, pid: TempName.pid_t, env: GetEnv) {
    env.opens && (OnlyStampFails(true, env) || TempName.BaseName(localPath) == TempName.SelfAlias(pid))
  }

  /** Every download, whatever the flags and whatever fails, if only files can be removed: OK means the complete content
      under the final name with the remote's date and nothing else changed; any other code means that no file is
      changed, except that an existing target may be gone, in exactly two cases. No temporary file is left. */
  lemma GetIsAllOrNothing(now: Snapshot, cache: CacheMap, wfxRemote: string, localPath: LocalPath, flags: nat,
                          pid: TempName.pid_t, env: GetEnv)
    requires env.unlinks
    ensures var e := GetEffect(now, cache, wfxRemote, localPath, flags, pid, env);
      var end, w := Final(now, e.trail).disk, WritePath(now, localPath, pid);
      && (e.result == FS_FILE_OK <==>
            GetRefusal(now, localPath, flags, env) == FS_FILE_OK && Completes(localPath in now.disk, env))
      && (e.result == FS_FILE_OK ==> end == (now.disk - {w})[localPath := LocalEntry(Content(env), RemoteInfo(env).mtime)])
      && (e.result != FS_FILE_OK ==> end - {w} == now.disk - {w} || end - {w} == now.disk - {w, localPath})
      && (e.result != FS_FILE_OK && localPath !in now.disk ==> end == now.disk)
      && (if GetRefusal(now, localPath, flags, env) != FS_FILE_OK || !env.opens then end == now.disk
          else w != localPath ==> w !in end)
      && (e.result != FS_FILE_OK && localPath in now.disk ==>
            (localPath in end && end[localPath] == now.disk[localPath] <==>
             !(GetRefusal(now, localPath, flags, env) == FS_FILE_OK && OldCopyIsLost(localPath, pid, env))))
  {
    hide Fetching, DeleteEffect, Content, TempName.TempDownloadPath;
    var refusal := GetRefusal(now, localPath, flags, env);
    if refusal == FS_FILE_OK {
      var w := WritePath(now, localPath, pid);
      FetchEnds(now, localPath, w, localPath in now.disk, RemoteInfo(env).mtime, env);
      TempName.TempNameDiffers(localPath, pid);
      DeleteKeepsDisk(now, cache, wfxRemote, localPath, flags, pid, env);
    }
  }

  /** The removal of the source is the last step of a download, and changes nothing locally. */
  lemma DeleteKeepsDisk(now: Snapshot, cache: CacheMap, wfxRemote: string, localPath: LocalPath, flags: nat,
                        pid: TempName.pid_t, env: GetEnv)
    requires GetRefusal(now, localPath, flags, env) == FS_FILE_OK
    ensures var e := GetEffect(now, cache, wfxRemote, localPath, flags, pid, env);
      var (trail, code) := Fetching(now, localPath, WritePath(now, localPath, pid), localPath in now.disk,
                                    RemoteInfo(env).mtime, env);
      && e.result == code && trail <= e.trail && Final(now, e.trail).disk == Final(now, trail).disk
      && (forall s :: s in e.trail ==> s in trail || (code == FS_FILE_OK && s.disk == Final(now, trail).disk))
  {
    hide Fetching, AfterShell, Dropped, ParseWfxPath, DeleteCommand;
  }

  /** Overwriting a file, state by state: until the last state its name holds the old entry or the complete new content,
      and only OK or the loss stated above ends otherwise than with the old entry or the new content. */
  lemma GetKeepsTarget(now: Snapshot, cache: CacheMap, wfxRemote: string, localPath: LocalPath, flags: nat,
                       pid: TempName.pid_t, env: GetEnv)
    requires localPath in now.disk && TempName.BaseName(localPath) != TempName.SelfAlias(pid)
    ensures var trail := GetEffect(now, cache, wfxRemote, localPath, flags, pid, env).trail;
      && (forall i :: 0 <= i < |trail| - 1 ==> Intact(trail[i].disk, now.disk, localPath, Content(env)))
      && (Intact(Final(now, trail).disk, now.disk, localPath, Content(env)) <==>
          !(GetRefusal(now, localPath, flags, env) == FS_FILE_OK && OnlyStampFails(true, env) && env.unlinks))
  {
    hide Fetching, Content, TempName.TempDownloadPath, Intact, DeleteEffect;
    if GetRefusal(now, localPath, flags, env) == FS_FILE_OK {
      TempName.TempNameDiffers(localPath, pid);
      var w := WritePath(now, localPath, pid);
      FetchKeepsTarget(now, localPath, w, RemoteInfo(env).mtime, env);
      FetchEnds(now, localPath, w, true, RemoteInfo(env).mtime, env);
      DeleteKeepsDisk(now, cache, wfxRemote, localPath, flags, pid, env);
    } else {
      OldIsIntact(now, localPath, env);
    }
  }

  lemma OldIsIntact(now: Snapshot, target: LocalPath, env: GetEnv)
    requires target in now.disk
    ensures Intact(now.disk, now.disk, target, Content(env))
  {
  }

  predicate HasEntry(disk: Disk, path: LocalPath, data: seq<byte>, mtime: int) {
    path in disk && disk[path] == LocalEntry(data, mtime)
  }

  /** A move from the device: in every state the device is untouched, or the local file holds the complete content
      with the remote's date. The device is changed only by a flagged move that returns OK. */
  lemma GetMovesLast(now: Snapshot, cache: CacheMap, wfxRemote: string, localPath: LocalPath, flags: nat,
                     pid: TempName.pid_t, env: GetEnv)
    ensures var e := GetEffect(now, cache, wfxRemote, localPath, flags, pid, env);
      && (forall s :: s in e.trail ==> s.phones == now.phones || (env.download.err.Success? && HasEntry(s.disk, localPath, Content(env), RemoteInfo(env).mtime)))
      && (Final(now, e.trail).phones != now.phones || e.cache != cache ==>
            e.result == FS_FILE_OK && HasFlag(flags, FS_COPYFLAGS_MOVE))
  {
    hide Fetching, Content, TempName.TempDownloadPath, DeleteEffect;
    if GetRefusal(now, localPath, flags, env) == FS_FILE_OK {
      var w := WritePath(now, localPath, pid);
      FetchEnds(now, localPath, w, localPath in now.disk, RemoteInfo(env).mtime, env);
      FetchKeepsPhones(now, localPath, w, localPath in now.disk, RemoteInfo(env).mtime, env);
      DeleteKeepsDisk(now, cache, wfxRemote, localPath, flags, pid, env);
    }
  }

  lemma FetchKeepsPhones(now: Snapshot, target: LocalPath, writePath: LocalPath, viaTempFile: bool, mtime: int, env: GetEnv)
    requires viaTempFile || writePath == target
    ensures forall s :: s in Fetching(now, target, writePath, viaTempFile, mtime, env).0 ==> s.phones == now.phones
  {
    hide Receiving, Content;
    ReceivingStates(now, writePath, [], env.download.pieces, env.now);
  }

  /** A download the user cancels: USERABORT, and no file is changed but for the temporary name being free. */
  lemma CancelledGet(now: Snapshot, cache: CacheMap, wfxRemote: string, localPath: LocalPath, flags: nat,
                     pid: TempName.pid_t, env: GetEnv)
    requires GetRefusal(now, localPath, flags, env) == FS_FILE_OK
    requires env.opens && env.unlinks && TempName.BaseName(localPath) != TempName.SelfAlias(pid)
    ensures var e := GetEffect(now, cache, wfxRemote, localPath, flags, pid, env);
      && (e.result == FS_FILE_USERABORT <==> env.download.err == Error(CANCELLED))
      && (e.result == FS_FILE_USERABORT ==>
            && e.cache == cache && Final(now, e.trail) == now.(disk := now.disk - {WritePath(now, localPath, pid)})
            && (localPath in now.disk ==> WritePath(now, localPath, pid) != localPath))
  {
    hide DeleteEffect, Content, TempName.TempDownloadPath, Receiving;
    TempName.TempNameDiffers(localPath, pid);
    var w := WritePath(now, localPath, pid);
    FetchEnds(now, localPath, w, localPath in now.disk, RemoteInfo(env).mtime, env);
    FetchCode(now, localPath, w, localPath in now.disk, RemoteInfo(env).mtime, env);
  }

  lemma FetchCode(now: Snapshot, target: LocalPath, writePath: LocalPath, viaTempFile: bool, mtime: int, env: GetEnv)
    requires env.opens && (viaTempFile || writePath == target)
    ensures Fetching(now, target, writePath, viaTempFile, mtime, env).1 == FS_FILE_USERABORT <==>
      env.download.err == Error(CANCELLED)
  {
    hide Receiving, Content, CANCELLED;
  }

  /** The device has a file with that content, under any mode and date. */
  predicate PhoneHas(phones: Phones, serial: string, path: string, data: seq<byte>) {
    serial in phones && HasFile(phones[serial], path) && phones[serial][path].data == data
  }

  /** The download wrote what the sync conversation delivers when the server says `incoming`. */
  predicate DeliveredBy(download: Download, incoming: seq<byte>) {
    download.err.Success? ==> Flatten(download.pieces) == Flatten(SyncRecv.Reply(incoming).chunks)
  }

  /** Moving a file off the device, from the octets on the wire to the disk: however the device cuts the content into
      chunks, in every state the device still has the file or the local file is complete and has the file's date. */
  lemma GetLosesNothing(now: Snapshot, cache: CacheMap, wfxRemote: string, localPath: LocalPath, flags: nat,
                        pid: TempName.pid_t, env: GetEnv, serial: seq<byte>, chunks: seq<seq<byte>>, arg: u32)
    requires SerialFits(serial) && forall i :: 0 <= i < |chunks| ==> Wire.FitsPacket(chunks[i])
    requires DeliveredBy(env.download, SyncRecv.DownloadStream(chunks, arg))
    requires var rp := ParseWfxPath(wfxRemote);
      PhoneHas(now.phones, rp.serial, Resolve(rp.path), Flatten(chunks))
    ensures var rp := ParseWfxPath(wfxRemote); var e := GetEffect(now, cache, wfxRemote, localPath, flags, pid, env);
      forall s :: s in e.trail ==>
        || PhoneHas(s.phones, rp.serial, Resolve(rp.path), Flatten(chunks))
        || HasEntry(s.disk, localPath, Flatten(chunks), RemoteInfo(env).mtime)
  {
    hide GetEffect, Content, RemoteInfo, Resolve, SyncRecv.DownloadStream, SyncRecv.Reply, SyncRecv.Outcome, SyncRecv.EndError;
    GetMovesLast(now, cache, wfxRemote, localPath, flags, pid, env);
    assert SyncRecv.DownloadStream(chunks, arg) + [] == SyncRecv.DownloadStream(chunks, arg);
    SyncRecv.DownloadRoundTrip(serial, chunks, arg, []);
    ContentIs(env);
  }

  lemma ContentIs(env: GetEnv)
    ensures Content(env) == Flatten(env.download.pieces)
  {
  }

  // ----- uploads -----

  /** From the octets on the wire to the device's tree: what a device that reads the transcript of an upload is told to
      store is what the upload counts as having stored. */
  lemma StoredAsRead(serial: seq<byte>, remote: seq<byte>, mode: u32, content: seq<byte>, mtime: int, rest: seq<byte>,
                     t: Tree, u: Upload)
    requires Wire.PathFits(remote) && SerialFits(serial) && u.err.Success?
    ensures match Wire.ReadUpload(Wire.UploadTranscript(serial, remote, mode, content, mtime) + rest)
      case None => false
      case Some((read, left)) =>
        var place, t' := Resolve(Text(read.path)), AfterUpload(t, Text(remote), content, mode, mtime, u);
        && read.serial == serial && left == rest
        && place in t' && t'[place] == File(Flatten(read.chunks), read.mode, read.mtime)
  {
    hide Wire.ReadUpload, Wire.UploadTranscript, Text, MakeDirs, Resolve;
    Wire.UploadRoundTrip(serial, remote, mode, content, mtime, rest);
    Wire.ChunksOfContent(content);
  }

  /** An upload, in every state: the local file is as it was, or the device has all of its content, with its date. Only
      a flagged move that returns OK removes the local file; no other local file is touched. */
  lemma PutLosesNothing(now: Snapshot, cache: CacheMap, localPath: LocalPath, wfxRemote: string, flags: nat, env: PutEnv)
    requires localPath in now.disk
    ensures var rp := ParseWfxPath(wfxRemote); var file := now.disk[localPath];
      var e := PutEffect(now, cache, localPath, wfxRemote, flags, env);
      && (forall s :: s in e.trail ==> s.disk == now.disk || s.disk == now.disk - {localPath})
      && (forall s :: s in e.trail && localPath !in s.disk ==>
            e.result == FS_FILE_OK && HasFlag(flags, FS_COPYFLAGS_MOVE) && PhoneHas(s.phones, rp.serial, Resolve(rp.path), file.data))
      && (e.result == FS_FILE_OK ==>
            var end := Final(now, e.trail).phones;
            && PhoneHas(end, rp.serial, Resolve(rp.path), file.data)
            && end[rp.serial][Resolve(rp.path)].mtime == file.mtime % 0x1_0000_0000)
  {
    hide ParseWfxPath, Dropped, CANCELLED, Resolve, MakeDirs;
  }

  /** What an upload leaves in the cache: after a success and after a cancellation nothing at or under the target or the
      target's parent, and everything else; after any other outcome, everything. */
  lemma PutForgets(now: Snapshot, cache: CacheMap, localPath: LocalPath, wfxRemote: string, flags: nat, env: PutEnv)
    ensures var e := PutEffect(now, cache, localPath, wfxRemote, flags, env);
      && (e.result == FS_FILE_USERABORT <==>
            PutRefusal(now, localPath, flags, env) == FS_FILE_OK && env.upload.err == Error(CANCELLED))
      && (e.result == FS_FILE_OK || e.result == FS_FILE_USERABORT ==> Forgotten(cache, e.cache, wfxRemote))
      && (e.result != FS_FILE_OK && e.result != FS_FILE_USERABORT ==> e.cache == cache)
  {
    hide ParseWfxPath, Dropped, CANCELLED, Forgotten, CONNECTION_FAULT, PhonesAfterUpload;
    OnlyOneIsCancelled();
    DroppedIsForgotten(cache, wfxRemote);
  }

  /** Exactly the listings at or under the path or its parent are gone; the path's own and the parent's are among them. */
  ghost predicate Forgotten(cache: CacheMap, cache': CacheMap, wfxPath: string) {
    && wfxPath !in cache' && ParentWfxDir(wfxPath) !in cache'
    && forall k :: (k in cache' <==> k in cache && !Covers(wfxPath, k) && !Covers(ParentWfxDir(wfxPath), k))
                   && (k in cache' ==> cache'[k] == cache[k])
  }

  lemma DroppedIsForgotten(cache: CacheMap, wfxPath: string)
    ensures Forgotten(cache, Dropped(cache, wfxPath), wfxPath)
  {
  }
}
