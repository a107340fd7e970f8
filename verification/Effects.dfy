/** What each of the plugin's operations does: the trail of states it leaves behind, the cache, and its result. */
module Effects {
  import opened Bytes
  import opened Cache
  import opened Client
  import opened Commands
  import opened Device
  import opened Optional
  import opened Paths
  import opened World
  import Calendar
  import Devices
  import FindData
  import TempName
  import Wire

  const FS_FILE_OK := 0
  const FS_FILE_EXISTS := 1
  const FS_FILE_NOTFOUND := 2
  const FS_FILE_READERROR := 3
  const FS_FILE_WRITEERROR := 4
  const FS_FILE_USERABORT := 5
  const FS_FILE_NOTSUPPORTED := 6

  const FS_COPYFLAGS_OVERWRITE: nat := 1
  const FS_COPYFLAGS_RESUME: nat := 2
  const FS_COPYFLAGS_MOVE: nat := 4

  predicate HasFlag(flags: nat, flag: nat)
    requires flag > 0
  {
    flags / flag % 2 == 1
  }

  /** The file-type bits of a POSIX mode. */
  function TypeBits(mode: int): int {
    mode / 4096 % 16
  }

  predicate IsDirMode(mode: int) {
    TypeBits(mode) == 4
  }

  predicate IsSymlinkMode(mode: int) {
    TypeBits(mode) == 10
  }

  /** A listing entry; `targetIsDir` is set for a symbolic link that leads to a directory. */
  datatype ListedEntry = ListedEntry(entry: Wire.DirEntry, targetIsDir: bool)

  type Listing = seq<ListedEntry>
  type CacheMap = map<string, Entry<Listing>>

  /** The answer to one stat of the device. */
  datatype StatReply = StatFailed | NotThere | There(mode: int, size: int, mtime: int)

  /** What an operation did: every state it went through, the cache it left, and what it returned. */
  datatype Effect<R> = Effect(trail: seq<Snapshot>, cache: CacheMap, result: R)

  /** What a change to a path drops from the cache: the path, its parent, and all beneath them. */
  function Dropped(m: CacheMap, wfxPath: string): CacheMap {
    Without(Without(m, wfxPath), ParentWfxDir(wfxPath))
  }

  // ----- commands on the device -----

  /** A command that is silent when it succeeds. Success drops what is cached about the path; failure drops nothing. */
  function MutationEffect(now: Snapshot, cache: CacheMap, serial: string, commandLine: string, wfxPath: string, r: ShellReply)
    : Effect<bool>
  {
    var ok := Answered(now.phones, serial, r) && IsSilent(r.output);
    Effect([now.(phones := AfterShell(now.phones, serial, commandLine, r))],
           if ok then Dropped(cache, wfxPath) else cache, ok)
  }

  function DeleteEffect(now: Snapshot, cache: CacheMap, wfxRemote: string, r: ShellReply): Effect<bool> {
    var rp := ParseWfxPath(wfxRemote);
    MutationEffect(now, cache, rp.serial, DeleteCommand(rp.path), wfxRemote, r)
  }

  function RemoveDirEffect(now: Snapshot, cache: CacheMap, wfxRemote: string, r: ShellReply): Effect<bool> {
    var rp := ParseWfxPath(wfxRemote);
    MutationEffect(now, cache, rp.serial, RemoveDirCommand(rp.path), wfxRemote, r)
  }

  function MakeDirEffect(now: Snapshot, cache: CacheMap, wfxRemote: string, r: ShellReply): Effect<bool> {
    var rp := ParseWfxPath(wfxRemote);
    MutationEffect(now, cache, rp.serial, MakeDirCommand(rp.path), wfxRemote, r)
  }

  // ----- modification times -----

  datatype TouchStrategy = EpochThenFallback | TouchTOnly

  /** The answers to a change of a modification time: the stat, the epoch form, the date form. */
  datatype TimeEnv = TimeEnv(stat: StatReply, epoch: ShellReply, date: ShellReply)

  /** The date form, for a time that has one. */
  function TouchByDateEffect(now: Snapshot, cache: CacheMap, wfxRemote: string, mtime: int, r: ShellReply): Effect<bool> {
    var rp := ParseWfxPath(wfxRemote);
    match Calendar.FormatTouchTArg(mtime)
    case None => Effect([], cache, false)
    case Some(date) => MutationEffect(now, cache, rp.serial, TouchDateCommand(date, rp.path), wfxRemote, r)
  }

  function SetTimeEffect(now: Snapshot, cache: CacheMap, wfxRemote: string, mtime: int, strategy: TouchStrategy, env: TimeEnv)
    : Effect<bool>
  {
    var rp := ParseWfxPath(wfxRemote);
    if !env.stat.There? then Effect([], cache, false)
    else if strategy.TouchTOnly? then TouchByDateEffect(now, cache, wfxRemote, mtime, env.date)
    else
      var first := MutationEffect(now, cache, rp.serial, TouchEpochCommand(mtime, rp.path), wfxRemote, env.epoch);
      if first.result || !Answered(now.phones, rp.serial, env.epoch) then first
      else
        var second := TouchByDateEffect(first.trail[0], cache, wfxRemote, mtime, env.date);
        second.(trail := first.trail + second.trail)
  }

  // ----- moves and copies on the device -----

  datatype CopyEnv = CopyEnv(stat: StatReply, copy: ShellReply, time: TimeEnv)

  /** How a rename, move or copy went. */
  datatype MoveResult = MoveResult(ok: bool, crossDevice: bool, targetExists: bool)

  datatype MoveEnv = MoveEnv(target: StatReply, move: ShellReply, copy: CopyEnv)

  /** A move drops what is cached about both ends. */
  function DeviceMoveEffect(now: Snapshot, cache: CacheMap, wfxFrom: string, wfxTo: string, r: ShellReply): Effect<bool> {
    var from, to := ParseWfxPath(wfxFrom), ParseWfxPath(wfxTo);
    var e := MutationEffect(now, cache, from.serial, MoveCommand(from.path, to.path), wfxFrom, r);
    if e.result then e.(cache := Dropped(e.cache, wfxTo)) else e
  }

  /** A copy drops what is cached about its target only, and carries the source's date over. */
  function DeviceCopyEffect(now: Snapshot, cache: CacheMap, wfxFrom: string, wfxTo: string, env: CopyEnv): Effect<bool> {
    var from, to := ParseWfxPath(wfxFrom), ParseWfxPath(wfxTo);
    if from.path == to.path || !env.stat.There? || IsDirMode(env.stat.mode) then Effect([], cache, false)
    else
      var copied := MutationEffect(now, cache, from.serial, CopyCommand(from.path, to.path), wfxTo, env.copy);
      if !copied.result then copied
      else
        var stamped := SetTimeEffect(copied.trail[0], copied.cache, wfxTo, env.stat.mtime, EpochThenFallback, env.time);
        stamped.(trail := copied.trail + stamped.trail)
  }

  function RenameOrMoveEffect(now: Snapshot, cache: CacheMap, wfxFrom: string, wfxTo: string, move: bool, overwrite: bool,
                        env: MoveEnv): Effect<MoveResult>
  {
    if ParseWfxPath(wfxFrom).serial != ParseWfxPath(wfxTo).serial then Effect([], cache, MoveResult(false, true, false))
    else if !overwrite && !env.target.NotThere? then Effect([], cache, MoveResult(false, false, env.target.There?))
    else
      var e := if move then DeviceMoveEffect(now, cache, wfxFrom, wfxTo, env.move)
        else DeviceCopyEffect(now, cache, wfxFrom, wfxTo, env.copy);
      Effect(e.trail, e.cache, MoveResult(e.result, false, false))
  }

  // ----- downloads -----

  /** Everything a download is answered with. */
  datatype GetEnv = GetEnv(
    stat: StatReply, linkStat: StatReply, opens: bool, download: Download, renames: bool, stamps: bool, unlinks: bool,
    now: int, remove: ShellReply)

  /** The attributes a download goes by: the entry's own, or those of a link's target if they can be had. */
  function RemoteInfo(env: GetEnv): StatReply {
    if env.stat.There? && IsSymlinkMode(env.stat.mode) && env.linkStat.There? then env.linkStat else env.stat
  }

  function Content(env: GetEnv): seq<byte> {
    Flatten(env.download.pieces)
  }

  /** The states of a file that receives one piece after another. */
  function Receiving(now: Snapshot, path: LocalPath, data: seq<byte>, pieces: seq<seq<byte>>, time: int): seq<Snapshot> {
    if pieces == [] then []
    else
      var last := |pieces| - 1;
      Receiving(now, path, data, pieces[..last], time)
      + [now.(disk := now.disk[path := LocalEntry(data + Flatten(pieces), time)])]
  }

  function Unlinked(now: Snapshot, path: LocalPath, works: bool): seq<Snapshot> {
    if works && path in now.disk then [now.(disk := now.disk - {path})] else []
  }

  function Renamed(now: Snapshot, from: LocalPath, to: LocalPath): Snapshot
    requires from in now.disk
  {
    if from == to then now else now.(disk := (now.disk - {from})[to := now.disk[from]])
  }

  /** The last thing done to a received file: the remote's date, or - when that fails - its removal. */
  function Stamping(now: Snapshot, target: LocalPath, mtime: int, env: GetEnv): (seq<Snapshot>, int)
    requires target in now.disk
  {
    if env.stamps then ([now.(disk := now.disk[target := now.disk[target].(mtime := mtime)])], FS_FILE_OK)
    else (Unlinked(now, target, env.unlinks), FS_FILE_WRITEERROR)
  }

  /** Once the conversation is over: a failure removes what was written, a success carries it into place. */
  function Placing(now: Snapshot, target: LocalPath, writePath: LocalPath, viaTempFile: bool, mtime: int, env: GetEnv)
    : (seq<Snapshot>, int)
    requires writePath in now.disk && (viaTempFile || writePath == target)
  {
    if env.download.err.Error? then
      (Unlinked(now, writePath, env.unlinks),
       if env.download.err.message == CANCELLED then FS_FILE_USERABORT else FS_FILE_READERROR)
    else if !viaTempFile then Stamping(now, target, mtime, env)
    else if !env.renames then (Unlinked(now, writePath, env.unlinks), FS_FILE_WRITEERROR)
    else
      var placed := Renamed(now, writePath, target);
      var (trail, code) := Stamping(placed, target, mtime, env);
      ([placed] + trail, code)
  }

  /** The state in which the whole content has been received under `writePath`. */
  function Received(now: Snapshot, writePath: LocalPath, env: GetEnv): Snapshot {
    now.(disk := now.disk[writePath := LocalEntry(Content(env), env.now)])
  }

  /** The transfer part of a download: created empty, filled piece by piece, put in place, stamped. */
  function Fetching(now: Snapshot, target: LocalPath, writePath: LocalPath, viaTempFile: bool, mtime: int, env: GetEnv)
    : (seq<Snapshot>, int)
    requires viaTempFile || writePath == target
  {
    if !env.opens then ([], FS_FILE_WRITEERROR)
    else
      var (trail, code) := Placing(Received(now, writePath, env), target, writePath, viaTempFile, mtime, env);
      ([now.(disk := now.disk[writePath := LocalEntry([], env.now)])]
       + Receiving(now, writePath, [], env.download.pieces, env.now) + trail, code)
  }

  /** Where a download is written: to its final name if that is free, else to a hidden name beside it. */
  function WritePath(now: Snapshot, localPath: LocalPath, pid: TempName.pid_t): LocalPath {
    if localPath in now.disk then TempName.TempDownloadPath(localPath, pid) else localPath
  }

  /** The code of a download that is not even started, or OK. */
  function GetRefusal(now: Snapshot, localPath: LocalPath, flags: nat, env: GetEnv): int {
    if HasFlag(flags, FS_COPYFLAGS_RESUME) then FS_FILE_NOTSUPPORTED
    else if env.stat.StatFailed? then FS_FILE_READERROR
    else if env.stat.NotThere? then FS_FILE_NOTFOUND
    else if !HasFlag(flags, FS_COPYFLAGS_OVERWRITE) && localPath in now.disk then FS_FILE_EXISTS
    else FS_FILE_OK
  }

  /** A download; a move removes the source from the device once the copy is complete, in place and stamped. */
  function GetEffect(now: Snapshot, cache: CacheMap, wfxRemote: string, localPath: LocalPath, flags: nat, pid: TempName.pid_t,
               env: GetEnv): Effect<int>
  {
    var refusal := GetRefusal(now, localPath, flags, env);
    if refusal != FS_FILE_OK then Effect([], cache, refusal)
    else
      var (trail, code) := Fetching(now, localPath, WritePath(now, localPath, pid), localPath in now.disk,
                                    RemoteInfo(env).mtime, env);
      if code != FS_FILE_OK || !HasFlag(flags, FS_COPYFLAGS_MOVE) then Effect(trail, cache, code)
      else
        var removed := DeleteEffect(Final(now, trail), cache, wfxRemote, env.remove);
        Effect(trail + removed.trail, removed.cache, FS_FILE_OK)
  }

  // ----- uploads -----

  /** Everything an upload is answered with. */
  datatype PutEnv = PutEnv(target: StatReply, mode: int, opens: bool, upload: Upload, unlinks: bool)

  /** The code of an upload that is not even started, or OK. */
  function PutRefusal(now: Snapshot, localPath: LocalPath, flags: nat, env: PutEnv): int {
    if HasFlag(flags, FS_COPYFLAGS_RESUME) then FS_FILE_NOTSUPPORTED
    else if localPath !in now.disk then FS_FILE_READERROR
    else if !HasFlag(flags, FS_COPYFLAGS_OVERWRITE) && env.target.StatFailed? then FS_FILE_WRITEERROR
    else if !HasFlag(flags, FS_COPYFLAGS_OVERWRITE) && env.target.There? then FS_FILE_EXISTS
    else if !env.opens then FS_FILE_READERROR
    else FS_FILE_OK
  }

  /** An upload; a move removes the local file once the device has accepted it. The cache forgets the target after a
      success and after a cancellation, but not after any other failure. */
  function PutEffect(now: Snapshot, cache: CacheMap, localPath: LocalPath, wfxRemote: string, flags: nat, env: PutEnv)
    : Effect<int>
  {
    var refusal := PutRefusal(now, localPath, flags, env);
    if refusal != FS_FILE_OK then Effect([], cache, refusal)
    else
      var rp := ParseWfxPath(wfxRemote);
      var file := now.disk[localPath];
      var sent := now.(phones :=
        PhonesAfterUpload(now.phones, rp.serial, rp.path, file.data, env.mode, file.mtime, env.upload));
      match UploadError(now.phones, rp.serial, env.upload)
      case Error(message) =>
        if message == CANCELLED then Effect([sent], Dropped(cache, wfxRemote), FS_FILE_USERABORT)
        else Effect([sent], cache, FS_FILE_WRITEERROR)
      case Success =>
        Effect([sent] + (if HasFlag(flags, FS_COPYFLAGS_MOVE) then Unlinked(sent, localPath, env.unlinks) else []),
               Dropped(cache, wfxRemote), FS_FILE_OK)
  }

  // ----- listings -----

  /** Everything a listing is answered with: the clock at the lookup and at the storing, the two stats of the directory,
      the LIST conversation (nothing if it fails), a stat through each link, and - for the root - the devices (nothing if
      the server cannot be asked). */
  datatype ListEnv = ListEnv(
    now: int, later: int, stat: StatReply, linkStat: StatReply, listed: Option<seq<Wire.DirEntry>>,
    linkStats: seq<StatReply>, devices: Option<seq<Devices.DeviceInfo>>)

  /** What a listing returns: the rows (nothing if it fails), and the devices the user is warned about. */
  datatype Listed = Listed(rows: Option<seq<FindData.FindResult>>, unready: seq<Devices.DeviceInfo>)

  /** "." and "..". */
  predicate IsDots(name: seq<byte>) {
    name == [TempName.DOT] || name == [TempName.DOT, TempName.DOT]
  }

  function Text(name: seq<byte>): string {
    seq(|name|, i requires 0 <= i < |name| => name[i] as char)
  }

  function Answer(replies: seq<StatReply>, i: nat): StatReply {
    if i < |replies| then replies[i] else StatFailed
  }

  predicate LeadsToDir(reply: StatReply) {
    reply.There? && IsDirMode(reply.mode)
  }

  /** An entry as it is kept, given what a stat through it says. */
  function Resolved(e: Wire.DirEntry, reply: StatReply): ListedEntry {
    ListedEntry(e, IsSymlinkMode(e.mode) && !IsDots(e.name) && LeadsToDir(reply))
  }

  function ResolvedAll(entries: seq<Wire.DirEntry>, replies: seq<StatReply>): Listing {
    seq(|entries|, i requires 0 <= i < |entries| => Resolved(entries[i], Answer(replies, i)))
  }

  predicate IsNavigable(e: ListedEntry) {
    IsDirMode(e.entry.mode) || e.targetIsDir
  }

  /** An entry as the file manager gets it. */
  function Row(e: ListedEntry): FindData.FindResult {
    FindData.FindResult(e.entry.name, e.entry.size, e.entry.mtime, e.entry.mode, IsNavigable(e))
  }

  /** The rows shown for a listing: all but "." and "..". */
  function Shown(entries: Listing): seq<FindData.FindResult> {
    if entries == [] then []
    else
      var init, e := entries[..|entries| - 1], entries[|entries| - 1];
      if IsDots(e.entry.name) then Shown(init) else Shown(init) + [Row(e)]
  }

  /** A device as the file manager gets it: a directory with its display name. */
  function DeviceRow(d: Devices.DeviceInfo): FindData.FindResult {
    FindData.FindResult(Ascii(DisplayName(d.model, d.serial)), 0, 0, 0, true)
  }

  predicate IsReady(d: Devices.DeviceInfo) {
    d.state == "device"
  }

  /** What the root shows: the devices that are ready. */
  function ReadyRows(devices: seq<Devices.DeviceInfo>): seq<FindData.FindResult> {
    if devices == [] then []
    else
      var init, d := devices[..|devices| - 1], devices[|devices| - 1];
      ReadyRows(init) + if IsReady(d) then [DeviceRow(d)] else []
  }

  /** ... and what it warns about: those that are not. */
  function Unready(devices: seq<Devices.DeviceInfo>): seq<Devices.DeviceInfo> {
    if devices == [] then []
    else
      var init, d := devices[..|devices| - 1], devices[|devices| - 1];
      Unready(init) + if IsReady(d) then [] else [d]
  }

  /** The listing of the root, which is never cached. */
  function RootListed(devices: Option<seq<Devices.DeviceInfo>>): Listed {
    match devices
    case None => Listed(None, [])
    case Some(ds) => Listed(Some(ReadyRows(ds)), Unready(ds))
  }

  /** The path may be listed: it is a directory, or a link to one. */
  predicate Listable(env: ListEnv) {
    env.stat.There? && (IsDirMode(env.stat.mode) || (IsSymlinkMode(env.stat.mode) && LeadsToDir(env.linkStat)))
  }

  /** What a listing comes to. Below the root: a live cached one as it is; else the device's, which is then cached. */
  function ListEffect(cache: CacheMap, ttl: int, wfxDir: string, env: ListEnv): (CacheMap, Listed) {
    if ParseWfxPath(wfxDir).isRoot then (cache, RootListed(env.devices))
    else
      match Hit(cache, wfxDir, env.now, ttl)
      case Some(listing) => (cache, Listed(Some(Shown(listing)), []))
      case None =>
        var kept := AfterGet(cache, wfxDir, env.now, ttl);
        if !Listable(env) || env.listed.None? then (kept, Listed(None, []))
        else
          var listing := ResolvedAll(env.listed.value, env.linkStats);
          (kept[wfxDir := Entry(listing, env.later)], Listed(Some(Shown(listing)), []))
  }
}
