/** The plugin's operations, step by step. */
module Plugin {
  import opened Bytes
  import opened Cache
  import opened Client
  import opened Commands
  import opened Device
  import opened Effects
  import opened Optional
  import opened Paths
  import opened World
  import Calendar
  import Devices
  import FindData
  import TempName
  import Wire

  lemma ReceivingStep(now: Snapshot, path: LocalPath, data: seq<byte>, pieces: seq<seq<byte>>, k: nat, time: int)
    requires k < |pieces|
    ensures data + Flatten(pieces[..k]) + pieces[k] == data + Flatten(pieces[..k + 1])
    ensures Receiving(now, path, data, pieces[..k + 1], time) == Receiving(now, path, data, pieces[..k], time)
         + [now.(disk := now.disk[path := LocalEntry(data + Flatten(pieces[..k + 1]), time)])]
  {
    assert pieces[..k + 1] == pieces[..k] + [pieces[k]];
    assert pieces[..k + 1][..k] == pieces[..k];
    FlattenSnoc(pieces[..k], pieces[k]);
    Regroup(data, Flatten(pieces[..k]), pieces[k]);
  }

  /** Once the file is created, receiving passes through the same states as said from before that; the last of them
      holds all the pieces. */
  lemma {:induction false} ReceivingFrom(now: Snapshot, path: LocalPath, data: seq<byte>, pieces: seq<seq<byte>>, time: int)
    ensures var created := now.(disk := now.disk[path := LocalEntry(data, time)]);
      && Receiving(created, path, data, pieces, time) == Receiving(now, path, data, pieces, time)
      && Final(created, Receiving(now, path, data, pieces, time))
         == now.(disk := now.disk[path := LocalEntry(data + Flatten(pieces), time)])
  {
    var created := now.(disk := now.disk[path := LocalEntry(data, time)]);
    if pieces == [] {
      assert data + Flatten(pieces) == data;
    } else {
      ReceivingFrom(now, path, data, pieces[..|pieces| - 1], time);
      var entry := LocalEntry(data + Flatten(pieces), time);
      assert created.disk[path := entry] == now.disk[path := entry];
    }
  }

  lemma ReceivedIs(now: Snapshot, writePath: LocalPath, env: GetEnv)
    ensures [] + Flatten(env.download.pieces) == Content(env)
    ensures Received(now, writePath, env) == now.(disk := now.disk[writePath := LocalEntry(Content(env), env.now)])
  {
  }

  class PluginCore {
    const world: World
    const cache: ListingCache<Listing>

    constructor (world: World, ttl: int)
      ensures this.world == world && fresh(cache) && cache.ttl == ttl && cache.entries == map[]
    {
      this.world := world;
      this.cache := new ListingCache<Listing>(ttl);
    }

    method InvalidatePathAndParent(wfxPath: string)
      modifies cache
      ensures cache.entries == Dropped(old(cache.entries), wfxPath)
    {
      cache.Invalidate(wfxPath);
      cache.Invalidate(ParentWfxDir(wfxPath));
    }

    method IsBlankOutput(output: string) returns (blank: bool)
      ensures blank == IsSilent(output)
    {
      var end := |output|;
      assert output[..end] == output;
      while end > 0 && (output[end - 1] == '\n' || output[end - 1] == '\r')
        invariant 0 <= end <= |output| && VisibleLength(output[..end]) == VisibleLength(output)
      {
        assert output[..end][..end - 1] == output[..end - 1];
        end := end - 1;
      }
      blank := end == 0;
    }

    method RunMutatingShellCommand(serial: string, commandLine: string, wfxPath: string, r: ShellReply) returns (ok: bool)
      modifies world`phones, world`history, cache
      ensures var e := MutationEffect(old(world.Now()), old(cache.entries), serial, commandLine, wfxPath, r);
        && world.Now() == Final(old(world.Now()), e.trail) && world.history == old(world.history) + e.trail
        && cache.entries == e.cache && ok == e.result
    {
      var connected, output := world.Shell(serial, commandLine, r);
      if !connected {
        return false;
      }
      ok := IsBlankOutput(output);
      if ok {
        InvalidatePathAndParent(wfxPath);
      }
    }

    method DeleteFile(wfxRemote: string, r: ShellReply) returns (ok: bool)
      modifies world`phones, world`history, cache
      ensures var e := DeleteEffect(old(world.Now()), old(cache.entries), wfxRemote, r);
        && world.Now() == Final(old(world.Now()), e.trail) && world.history == old(world.history) + e.trail
        && cache.entries == e.cache && ok == e.result
    {
      var rp := ParseWfxPath(wfxRemote);
      ok := RunMutatingShellCommand(rp.serial, DeleteCommand(rp.path), wfxRemote, r);
    }

    method RemoveDir(wfxRemote: string, r: ShellReply) returns (ok: bool)
      modifies world`phones, world`history, cache
      ensures var e := RemoveDirEffect(old(world.Now()), old(cache.entries), wfxRemote, r);
        && world.Now() == Final(old(world.Now()), e.trail) && world.history == old(world.history) + e.trail
        && cache.entries == e.cache && ok == e.result
    {
      var rp := ParseWfxPath(wfxRemote);
      ok := RunMutatingShellCommand(rp.serial, RemoveDirCommand(rp.path), wfxRemote, r);
    }

    method MakeDir(wfxRemote: string, r: ShellReply) returns (ok: bool)
      modifies world`phones, world`history, cache
      ensures var e := MakeDirEffect(old(world.Now()), old(cache.entries), wfxRemote, r);
        && world.Now() == Final(old(world.Now()), e.trail) && world.history == old(world.history) + e.trail
        && cache.entries == e.cache && ok == e.result
    {
      var rp := ParseWfxPath(wfxRemote);
      ok := RunMutatingShellCommand(rp.serial, MakeDirCommand(rp.path), wfxRemote, r);
    }

    // ----- modification times, moves and copies -----

    /** The fallback form of touch, for a time that has one. */
    method TouchByDate(wfxRemote: string, mtime: int, r: ShellReply) returns (ok: bool)
      modifies world`phones, world`history, cache
      ensures var e := TouchByDateEffect(old(world.Now()), old(cache.entries), wfxRemote, mtime, r);
        && world.Now() == Final(old(world.Now()), e.trail) && world.history == old(world.history) + e.trail
        && cache.entries == e.cache && ok == e.result
    {
      var rp := ParseWfxPath(wfxRemote);
      var date := Calendar.FormatTouchTArg(mtime);
      if date.None? {
        return false;
      }
      ok := RunMutatingShellCommand(rp.serial, TouchDateCommand(date.value, rp.path), wfxRemote, r);
    }

    method SetModificationTime(wfxRemote: string, mtime: int, strategy: TouchStrategy, env: TimeEnv) returns (ok: bool)
      modifies world`phones, world`history, cache
      ensures var e := SetTimeEffect(old(world.Now()), old(cache.entries), wfxRemote, mtime, strategy, env);
        && world.Now() == Final(old(world.Now()), e.trail) && world.history == old(world.history) + e.trail
        && cache.entries == e.cache && ok == e.result
    {
      hide TouchByDateEffect, ParseWfxPath, TouchEpochCommand, Dropped;
      var rp := ParseWfxPath(wfxRemote);
      if !env.stat.There? {
        return false;
      }
      if strategy.EpochThenFallback? {
        var connected, output := world.Shell(rp.serial, TouchEpochCommand(mtime, rp.path), env.epoch);
        if !connected {
          return false;
        }
        var blank := IsBlankOutput(output);
        if blank {
          InvalidatePathAndParent(wfxRemote);
          return true;
        }
      }
      ok := TouchByDate(wfxRemote, mtime, env.date);
    }

    method RunDeviceMove(wfxFrom: string, wfxTo: string, r: ShellReply) returns (ok: bool)
      modifies world`phones, world`history, cache
      ensures var e := DeviceMoveEffect(old(world.Now()), old(cache.entries), wfxFrom, wfxTo, r);
        && world.Now() == Final(old(world.Now()), e.trail) && world.history == old(world.history) + e.trail
        && cache.entries == e.cache && ok == e.result
    {
      var from, to := ParseWfxPath(wfxFrom), ParseWfxPath(wfxTo);
      ok := RunMutatingShellCommand(from.serial, MoveCommand(from.path, to.path), wfxFrom, r);
      if ok {
        InvalidatePathAndParent(wfxTo);
      }
    }

    method RunDeviceCopy(wfxFrom: string, wfxTo: string, env: CopyEnv) returns (ok: bool)
      modifies world`phones, world`history, cache
      ensures var e := DeviceCopyEffect(old(world.Now()), old(cache.entries), wfxFrom, wfxTo, env);
        && world.Now() == Final(old(world.Now()), e.trail) && world.history == old(world.history) + e.trail
        && cache.entries == e.cache && ok == e.result
    {
      hide SetTimeEffect, ParseWfxPath, CopyCommand, Dropped;
      var from, to := ParseWfxPath(wfxFrom), ParseWfxPath(wfxTo);
      if from.path == to.path {
        return false;
      }
      if !env.stat.There? || IsDirMode(env.stat.mode) {
        return false;
      }
      ok := RunMutatingShellCommand(from.serial, CopyCommand(from.path, to.path), wfxTo, env.copy);
      if ok {
        ok := SetModificationTime(wfxTo, env.stat.mtime, EpochThenFallback, env.time);
      }
    }

    method RenameOrMove(wfxFrom: string, wfxTo: string, move: bool, overwrite: bool, env: MoveEnv) returns (r: MoveResult)
      modifies world`phones, world`history, cache
      ensures var e := RenameOrMoveEffect(old(world.Now()), old(cache.entries), wfxFrom, wfxTo, move, overwrite, env);
        && world.Now() == Final(old(world.Now()), e.trail) && world.history == old(world.history) + e.trail
        && cache.entries == e.cache && r == e.result
    {
      hide DeviceMoveEffect, DeviceCopyEffect, ParseWfxPath;
      var from, to := ParseWfxPath(wfxFrom), ParseWfxPath(wfxTo);
      if from.serial != to.serial {
        return MoveResult(false, true, false);
      }
      if !overwrite {
        if env.target.StatFailed? {
          return MoveResult(false, false, false);
        }
        if env.target.There? {
          return MoveResult(false, false, true);
        }
      }
      var ok;
      if move {
        ok := RunDeviceMove(wfxFrom, wfxTo, env.move);
      } else {
        ok := RunDeviceCopy(wfxFrom, wfxTo, env.copy);
      }
      return MoveResult(ok, false, false);
    }

    // ----- downloads -----

    /** What the sync conversation writes to the file that was opened. */
    method Receive(path: LocalPath, download: Download, time: int) returns (err: AdbError)
      requires path in world.disk
      modifies world`disk, world`history
      ensures err == download.err
      ensures world.history == old(world.history)
        + Receiving(old(world.Now()), path, old(world.disk)[path].data, download.pieces, time)
      ensures world.Now() ==
        Final(old(world.Now()), Receiving(old(world.Now()), path, old(world.disk)[path].data, download.pieces, time))
    {
      ghost var now, data := world.Now(), world.disk[path].data;
      for k := 0 to |download.pieces|
        invariant path in world.disk && world.disk[path].data == data + Flatten(download.pieces[..k])
        invariant world.disk == now.disk[path := world.disk[path]]
        invariant world.history == old(world.history) + Receiving(now, path, data, download.pieces[..k], time)
        invariant world.Now() == Final(now, Receiving(now, path, data, download.pieces[..k], time))
      {
        ReceivingStep(now, path, data, download.pieces, k, time);
        world.Append(path, download.pieces[k], time);
      }
      assert download.pieces[..|download.pieces|] == download.pieces;
      err := download.err;
    }

    /** Stamps a received file with the remote's date, or removes it. */
    method StampOrRemove(target: LocalPath, mtime: int, env: GetEnv) returns (code: int)
      requires target in world.disk
      modifies world`disk, world`history
      ensures var (trail, c) := Stamping(old(world.Now()), target, mtime, env);
        && code == c && world.history == old(world.history) + trail && world.Now() == Final(old(world.Now()), trail)
    {
      var ok := world.Stamp(target, mtime, env.stamps);
      if !ok {
        ok := world.Unlink(target, env.unlinks);
        return FS_FILE_WRITEERROR;
      }
      return FS_FILE_OK;
    }

    /** Cleans up after a failed transfer; else renames the file into place and stamps it. */
    method Place(target: LocalPath, writePath: LocalPath, viaTempFile: bool, mtime: int, env: GetEnv) returns (code: int)
      requires writePath in world.disk && (viaTempFile || writePath == target)
      modifies world`disk, world`history
      ensures var (trail, c) := Placing(old(world.Now()), target, writePath, viaTempFile, mtime, env);
        && code == c && world.history == old(world.history) + trail && world.Now() == Final(old(world.Now()), trail)
    {
      if env.download.err.Error? {
        var ok := world.Unlink(writePath, env.unlinks);
        return if env.download.err.message == CANCELLED then FS_FILE_USERABORT else FS_FILE_READERROR;
      }
      if viaTempFile {
        var ok := world.Rename(writePath, target, env.renames);
        if !ok {
          ok := world.Unlink(writePath, env.unlinks);
          return FS_FILE_WRITEERROR;
        }
      }
      code := StampOrRemove(target, mtime, env);
    }

    /** Opens, receives, places. */
    method Fetch(target: LocalPath, writePath: LocalPath, viaTempFile: bool, mtime: int, env: GetEnv) returns (code: int)
      requires viaTempFile || writePath == target
      modifies world`disk, world`history
      ensures var (trail, c) := Fetching(old(world.Now()), target, writePath, viaTempFile, mtime, env);
        && code == c && world.history == old(world.history) + trail && world.Now() == Final(old(world.Now()), trail)
    {
      hide Placing, Receiving, Received, Content;
      ReceivedIs(world.Now(), writePath, env);
      ghost var now := world.Now();
      var ok := world.OpenTruncated(writePath, env.now, env.opens);
      if !ok {
        return FS_FILE_WRITEERROR;
      }
      var err := Receive(writePath, env.download, env.now);
      ReceivingFrom(now, writePath, [], env.download.pieces, env.now);
      assert world.Now() == Received(now, writePath, env);
      code := Place(target, writePath, viaTempFile, mtime, env);
    }

    method GetFile(wfxRemote: string, localPath: LocalPath, flags: nat, pid: TempName.pid_t, env: GetEnv) returns (code: int)
      modifies world, cache
      ensures var e := GetEffect(old(world.Now()), old(cache.entries), wfxRemote, localPath, flags, pid, env);
        && world.Now() == Final(old(world.Now()), e.trail) && world.history == old(world.history) + e.trail
        && cache.entries == e.cache && code == e.result
    {
      hide Fetching, DeleteEffect, TempName.TempDownloadPath;
      if HasFlag(flags, FS_COPYFLAGS_RESUME) {
        return FS_FILE_NOTSUPPORTED;
      }
      var remoteInfo := env.stat;
      if remoteInfo.StatFailed? {
        return FS_FILE_READERROR;
      }
      if remoteInfo.NotThere? {
        return FS_FILE_NOTFOUND;
      }
      if IsSymlinkMode(remoteInfo.mode) && env.linkStat.There? {
        remoteInfo := env.linkStat;
      }
      var targetExists := localPath in world.disk;
      if !HasFlag(flags, FS_COPYFLAGS_OVERWRITE) && targetExists {
        return FS_FILE_EXISTS;
      }
      var writePath := if targetExists then TempName.TempDownloadPath(localPath, pid) else localPath;
      code := Fetch(localPath, writePath, targetExists, remoteInfo.mtime, env);
      if code == FS_FILE_OK && HasFlag(flags, FS_COPYFLAGS_MOVE) {
        var deleted := DeleteFile(wfxRemote, env.remove);
      }
    }

    // ----- uploads -----

    method PutFile(localPath: LocalPath, wfxRemote: string, flags: nat, env: PutEnv) returns (code: int)
      modifies world, cache
      ensures var e := PutEffect(old(world.Now()), old(cache.entries), localPath, wfxRemote, flags, env);
        && world.Now() == Final(old(world.Now()), e.trail) && world.history == old(world.history) + e.trail
        && cache.entries == e.cache && code == e.result
    {
      hide PhonesAfterUpload, ParseWfxPath, Dropped;
      if HasFlag(flags, FS_COPYFLAGS_RESUME) {
        return FS_FILE_NOTSUPPORTED;
      }
      var rp := ParseWfxPath(wfxRemote);
      if localPath !in world.disk {
        return FS_FILE_READERROR;
      }
      if !HasFlag(flags, FS_COPYFLAGS_OVERWRITE) {
        if env.target.StatFailed? {
          return FS_FILE_WRITEERROR;
        }
        if env.target.There? {
          return FS_FILE_EXISTS;
        }
      }
      if !env.opens {
        return FS_FILE_READERROR;
      }
      var file := world.disk[localPath];
      var err := world.Send(rp.serial, rp.path, file.data, env.mode, file.mtime, env.upload);
      if err.Error? {
        if err.message == CANCELLED {
          InvalidatePathAndParent(wfxRemote);
          return FS_FILE_USERABORT;
        }
        return FS_FILE_WRITEERROR;
      }
      InvalidatePathAndParent(wfxRemote);
      if HasFlag(flags, FS_COPYFLAGS_MOVE) {
        var removed := world.Unlink(localPath, env.unlinks);
      }
      return FS_FILE_OK;
    }

    // ----- listings -----

    /** Stats each link of a listing through the link. */
    method ResolveSymlinkTargets(entries: seq<Wire.DirEntry>, replies: seq<StatReply>) returns (listing: Listing)
      ensures listing == ResolvedAll(entries, replies)
    {
      listing := [];
      for i := 0 to |entries|
        invariant |listing| == i && forall j :: 0 <= j < i ==> listing[j] == Resolved(entries[j], Answer(replies, j))
      {
        var e := entries[i];
        var targetIsDir := false;
        if IsSymlinkMode(e.mode) && !IsDots(e.name) {
          var reply := Answer(replies, i);
          targetIsDir := reply.There? && IsDirMode(reply.mode);
        }
        listing := listing + [ListedEntry(e, targetIsDir)];
      }
    }

    method AppendEntries(entries: Listing) returns (out: seq<FindData.FindResult>)
      ensures out == Shown(entries)
    {
      out := [];
      for i := 0 to |entries|
        invariant out == Shown(entries[..i])
      {
        assert entries[..i + 1][..i] == entries[..i];
        var e := entries[i];
        if !IsDots(e.entry.name) {
          out := out + [FindData.FindResult(e.entry.name, e.entry.size, e.entry.mtime, e.entry.mode, IsNavigable(e))];
        }
      }
      assert entries[..|entries|] == entries;
    }

    /** The devices that are ready; the user is warned about the others. */
    method ListRootDevices(devices: Option<seq<Devices.DeviceInfo>>) returns (listed: Listed)
      ensures listed == RootListed(devices)
    {
      if devices.None? {
        return Listed(None, []);
      }
      var rows, unready := [], [];
      for i := 0 to |devices.value|
        invariant rows == ReadyRows(devices.value[..i]) && unready == Unready(devices.value[..i])
      {
        var d := devices.value[i];
        assert devices.value[..i + 1][..i] == devices.value[..i];
        if d.state != "device" {
          unready := unready + [d];
          continue;
        }
        rows := rows + [FindData.FindResult(Ascii(DisplayName(d.model, d.serial)), 0, 0, 0, true)];
      }
      assert devices.value[..|devices.value|] == devices.value;
      listed := Listed(Some(rows), unready);
    }

    /** Refuses to list what is not there or not a directory, through a link if need be. */
    method CheckIsDirectory(env: ListEnv) returns (ok: bool)
      ensures ok == Listable(env)
    {
      if !env.stat.There? {
        return false;
      }
      if IsDirMode(env.stat.mode) {
        return true;
      }
      if IsSymlinkMode(env.stat.mode) {
        return env.linkStat.There? && IsDirMode(env.linkStat.mode);
      }
      return false;
    }

    /** Lists a directory, from the cache if it can. */
    method ListDirectory(wfxDir: string, env: ListEnv) returns (listed: Listed)
      modifies cache
      ensures (cache.entries, listed) == ListEffect(old(cache.entries), cache.ttl, wfxDir, env)
    {
      hide ReadyRows, Unready, Shown, ResolvedAll, ParseWfxPath;
      var rp := ParseWfxPath(wfxDir);
      if rp.isRoot {
        listed := ListRootDevices(env.devices);
        return;
      }
      var cached := cache.Get(wfxDir, env.now);
      if cached.Some? {
        var rows := AppendEntries(cached.value);
        return Listed(Some(rows), []);
      }
      var ok := CheckIsDirectory(env);
      if !ok || env.listed.None? {
        return Listed(None, []);
      }
      var listing := ResolveSymlinkTargets(env.listed.value, env.linkStats);
      cache.Put(wfxDir, listing, env.later);
      var rows := AppendEntries(listing);
      return Listed(Some(rows), []);
    }
  }
}
