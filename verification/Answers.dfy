/** What each operation answers, told from what it is given alone: flags, modes and replies as the numbers and texts they
    are. */
module Answers {
  import opened Bytes
  import opened Cache
  import opened Client
  import opened Device
  import opened Effects
  import opened Optional
  import opened Paths
  import opened Safety
  import opened World
  import Calendar
  import Commands
  import Devices
  import FindData
  import TempName
  import Wire

  // ----- commands -----

  /** The command was run to its end and printed nothing but line ends: what the plugin takes for success. */
  predicate Silent(phones: Phones, serial: string, r: ShellReply) {
    serial in phones && r.connected && forall i :: 0 <= i < |r.output| ==> r.output[i] == '\n' || r.output[i] == '\r'
  }

  lemma SilenceIsSilent(phones: Phones, serial: string, r: ShellReply)
    ensures Silent(phones, serial, r) <==> Answered(phones, serial, r) && IsSilent(r.output)
  {
    var n := VisibleLength(r.output);
    if n > 0 {
      assert r.output[n - 1] != '\n' && r.output[n - 1] != '\r';
    }
  }

  /** One command, which is all that is done; silence is success and forgets what is cached about the path and its parent,
      and anything else is failure and forgets nothing. */
  ghost predicate IsOneCommand(now: Snapshot, cache: CacheMap, wfxPath: string, r: ShellReply, e: Effect<bool>) {
    && |e.trail| == 1 && e.trail[0].disk == now.disk
    && (e.result <==> Silent(now.phones, ParseWfxPath(wfxPath).serial, r))
    && if e.result then Forgotten(cache, e.cache, wfxPath) else e.cache == cache
  }

  /** Deletions, removals and creations of directories. */
  lemma MutationAnswers(now: Snapshot, cache: CacheMap, wfxRemote: string, r: ShellReply)
    ensures IsOneCommand(now, cache, wfxRemote, r, DeleteEffect(now, cache, wfxRemote, r))
    ensures IsOneCommand(now, cache, wfxRemote, r, RemoveDirEffect(now, cache, wfxRemote, r))
    ensures IsOneCommand(now, cache, wfxRemote, r, MakeDirEffect(now, cache, wfxRemote, r))
  {
    hide Forgotten, Dropped, ParseWfxPath, IsSilent, AfterShell, Silent, Answered;
    SilenceIsSilent(now.phones, ParseWfxPath(wfxRemote).serial, r);
    DroppedIsForgotten(cache, wfxRemote);
  }

  /** A date is set if the path is there and one of two commands is silent: the epoch form, and - if that form was answered
      with a complaint, or is not to be tried - the date form, for the years 1 to 9999. No more is sent than that takes. */
  lemma SetTimeAnswers(now: Snapshot, cache: CacheMap, wfxRemote: string, mtime: int, strategy: TouchStrategy, env: TimeEnv)
    ensures var e := SetTimeEffect(now, cache, wfxRemote, mtime, strategy, env);
      var serial, dated := ParseWfxPath(wfxRemote).serial, -62135596800 <= mtime <= 253402300799;
      var asksEpoch := env.stat.There? && strategy.EpochThenFallback?;
      var asksDate := env.stat.There? && dated
        && (strategy.TouchTOnly? || (serial in now.phones && env.epoch.connected && !Silent(now.phones, serial, env.epoch)));
      && (e.result <==> (asksEpoch && Silent(now.phones, serial, env.epoch)) || (asksDate && Silent(now.phones, serial, env.date)))
      && |e.trail| == (if asksEpoch then 1 else 0) + (if asksDate then 1 else 0)
      && (if e.result then Forgotten(cache, e.cache, wfxRemote) else e.cache == cache)
  {
    hide Forgotten, Dropped, ParseWfxPath, IsSilent, Silent, Calendar.FormatTouchTArg, Commands.TouchDateCommand,
         Commands.TouchEpochCommand;
    var serial := ParseWfxPath(wfxRemote).serial;
    SilenceIsSilent(now.phones, serial, env.epoch);
    SilenceIsSilent(now.phones, serial, env.date);
    DroppedIsForgotten(cache, wfxRemote);
    Calendar.TouchTRoundTrip(mtime);
  }

  // ----- moves and copies -----

  /** A move is one command; its success forgets what is cached about both of its ends. */
  lemma MoveAnswers(now: Snapshot, cache: CacheMap, wfxFrom: string, wfxTo: string, r: ShellReply)
    ensures var e := DeviceMoveEffect(now, cache, wfxFrom, wfxTo, r);
      && |e.trail| == 1 && e.trail[0].disk == now.disk
      && (e.result <==> Silent(now.phones, ParseWfxPath(wfxFrom).serial, r))
      && if e.result then e.cache == Dropped(Dropped(cache, wfxFrom), wfxTo) else e.cache == cache
    ensures Forgotten(cache, Dropped(cache, wfxFrom), wfxFrom)
    ensures Forgotten(Dropped(cache, wfxFrom), Dropped(Dropped(cache, wfxFrom), wfxTo), wfxTo)
  {
    hide Forgotten, Dropped, ParseWfxPath, IsSilent, AfterShell, Silent, Answered;
    SilenceIsSilent(now.phones, ParseWfxPath(wfxFrom).serial, r);
    DroppedIsForgotten(cache, wfxFrom);
    DroppedIsForgotten(Dropped(cache, wfxFrom), wfxTo);
  }

  /** Which copies are not even begun: onto the very same path, of what is not there, of a directory. */
  predicate CopyIsRefused(wfxFrom: string, wfxTo: string, stat: StatReply) {
    ParseWfxPath(wfxFrom).path == ParseWfxPath(wfxTo).path || !stat.There? || stat.mode / 4096 % 16 == 4
  }

  /** A copy that is refused changes nothing. Any other is run: it succeeds exactly if the copying was silent and the copy
      was given the date the source was listed with, and forgets its target - and nothing else - once the copying was
      silent. */
  lemma CopyAnswers(now: Snapshot, cache: CacheMap, wfxFrom: string, wfxTo: string, env: CopyEnv)
    requires ParseWfxPath(wfxFrom).serial == ParseWfxPath(wfxTo).serial
    ensures var e := DeviceCopyEffect(now, cache, wfxFrom, wfxTo, env);
      var copied := !CopyIsRefused(wfxFrom, wfxTo, env.stat) && Silent(now.phones, ParseWfxPath(wfxFrom).serial, env.copy);
      && (CopyIsRefused(wfxFrom, wfxTo, env.stat) <==> e.trail == [])
      && (e.result <==> copied && SetTimeEffect(now, cache, wfxTo, env.stat.mtime, EpochThenFallback, env.time).result)
      && (if copied then Forgotten(cache, e.cache, wfxTo) else e.cache == cache)
  {
    hide Forgotten, Dropped, ParseWfxPath, IsSilent, Silent, Commands.CopyCommand, SetTimeEffect;
    var serial := ParseWfxPath(wfxFrom).serial;
    SilenceIsSilent(now.phones, serial, env.copy);
    DroppedIsForgotten(cache, wfxTo);
    var copied := MutationEffect(now, cache, serial, Commands.CopyCommand(ParseWfxPath(wfxFrom).path, ParseWfxPath(wfxTo).path),
                                 wfxTo, env.copy);
    if env.stat.There? && copied.result {
      var next := copied.trail[0];
      SetTimeAnswers(now, cache, wfxTo, env.stat.mtime, EpochThenFallback, env.time);
      SetTimeAnswers(next, copied.cache, wfxTo, env.stat.mtime, EpochThenFallback, env.time);
      SilentStays(now.phones, next.phones, serial, env.time.epoch);
      SilentStays(now.phones, next.phones, serial, env.time.date);
      ForgottenTwice(cache, SetTimeEffect(next, copied.cache, wfxTo, env.stat.mtime, EpochThenFallback, env.time).cache, wfxTo);
    }
  }

  lemma SilentStays(phones: Phones, phones': Phones, serial: string, r: ShellReply)
    requires phones'.Keys == phones.Keys
    ensures Silent(phones', serial, r) <==> Silent(phones, serial, r)
  {
  }

  lemma ForgottenTwice(cache: CacheMap, cache': CacheMap, wfxPath: string)
    requires Forgotten(Dropped(cache, wfxPath), cache', wfxPath) || cache' == Dropped(cache, wfxPath)
    ensures Forgotten(cache, cache', wfxPath)
  {
    hide ParentWfxDir, Covers, Dropped;
    DroppedIsForgotten(cache, wfxPath);
  }

  // ----- downloads -----

  /** The date a download is to have: a link's target's, if that can be had, else the entry's own. */
  function DateOf(env: GetEnv): int
    requires env.stat.There?
  {
    if env.stat.mode / 4096 % 16 == 10 && env.linkStat.There? then env.linkStat.mtime else env.stat.mtime
  }

  /** The download may be begun: it is no resumption, there is something to download, and nothing is in its way, or what
      is may be replaced. */
  predicate MayGet(now: Snapshot, localPath: LocalPath, flags: nat, env: GetEnv) {
    flags / 2 % 2 == 0 && env.stat.There? && (flags % 2 == 1 || localPath !in now.disk)
  }

  /** The only names a download uses: the target and - if there is something in its place - the temporary name. */
  function NamesUsed(now: Snapshot, localPath: LocalPath, pid: TempName.pid_t): set<LocalPath> {
    {localPath} + if localPath in now.disk then {TempName.TempDownloadPath(localPath, pid)} else {}
  }

  /** When a download is refused, and how; a refused one does nothing at all. */
  lemma GetIsRefused(now: Snapshot, cache: CacheMap, wfxRemote: string, localPath: LocalPath, flags: nat,
                     pid: TempName.pid_t, env: GetEnv)
    ensures var e := GetEffect(now, cache, wfxRemote, localPath, flags, pid, env);
      && (e.result == FS_FILE_NOTSUPPORTED <==> flags / 2 % 2 == 1)
      && (e.result == FS_FILE_NOTFOUND <==> flags / 2 % 2 == 0 && env.stat.NotThere?)
      && (e.result == FS_FILE_EXISTS <==> flags / 2 % 2 == 0 && env.stat.There? && flags % 2 == 0 && localPath in now.disk)
      && (flags / 2 % 2 == 0 && env.stat.StatFailed? ==> e.result == FS_FILE_READERROR)
      && (!MayGet(now, localPath, flags, env) ==> e.trail == [] && e.cache == cache)
  {
    hide Fetching, DeleteEffect, TempName.TempDownloadPath;
    if GetRefusal(now, localPath, flags, env) == FS_FILE_OK {
      FetchCodes(now, localPath, WritePath(now, localPath, pid), localPath in now.disk, RemoteInfo(env).mtime, env);
    }
  }

  lemma FetchCodes(now: Snapshot, target: LocalPath, writePath: LocalPath, viaTempFile: bool, mtime: int, env: GetEnv)
    requires viaTempFile || writePath == target
    ensures Fetching(now, target, writePath, viaTempFile, mtime, env).1 ==
      if !env.opens then FS_FILE_WRITEERROR
      else if env.download.err == Error(CANCELLED) then FS_FILE_USERABORT
      else if env.download.err.Error? then FS_FILE_READERROR
      else if (viaTempFile && !env.renames) || !env.stamps then FS_FILE_WRITEERROR
      else FS_FILE_OK
  {
    hide Receiving, Content, CANCELLED;
  }

  /** What a download that is begun comes to. OK means that every step worked, and then the file is complete and has its
      date. */
  lemma GetAnswers(now: Snapshot, cache: CacheMap, wfxRemote: string, localPath: LocalPath, flags: nat,
                   pid: TempName.pid_t, env: GetEnv)
    requires MayGet(now, localPath, flags, env)
    ensures var e := GetEffect(now, cache, wfxRemote, localPath, flags, pid, env); var err := env.download.err;
      var end, exists_ := Final(now, e.trail), localPath in now.disk;
      && (e.result == FS_FILE_USERABORT <==> env.opens && err == Error(CANCELLED))
      && (e.result == FS_FILE_READERROR <==> env.opens && err.Error? && err != Error(CANCELLED))
      && (e.result == FS_FILE_WRITEERROR <==>
            !env.opens || (err.Success? && ((exists_ && !env.renames) || !env.stamps)))
      && (e.result == FS_FILE_OK <==> env.opens && err.Success? && (exists_ ==> env.renames) && env.stamps)
      && (e.result == FS_FILE_OK ==>
            end.disk == (now.disk - NamesUsed(now, localPath, pid))
              [localPath := LocalEntry(Flatten(env.download.pieces), DateOf(env))])
  {
    hide Fetching, TempName.TempDownloadPath, DeleteEffect;
    var w := WritePath(now, localPath, pid);
    FetchCodes(now, localPath, w, localPath in now.disk, RemoteInfo(env).mtime, env);
    FetchEnds(now, localPath, w, localPath in now.disk, RemoteInfo(env).mtime, env);
    DeleteKeepsDisk(now, cache, wfxRemote, localPath, flags, pid, env);
  }

  lemma FetchUses(now: Snapshot, target: LocalPath, writePath: LocalPath, viaTempFile: bool, mtime: int, env: GetEnv)
    requires viaTempFile || writePath == target
    ensures forall s :: s in Fetching(now, target, writePath, viaTempFile, mtime, env).0 ==>
      s.phones == now.phones && s.disk - {target, writePath} == now.disk - {target, writePath}
  {
    hide Receiving, Content, Placing;
    if env.opens {
      ReceivingStates(now, writePath, [], env.download.pieces, env.now);
      PlaceUses(Received(now, writePath, env), target, writePath, viaTempFile, mtime, env);
    }
  }

  lemma PlaceUses(now: Snapshot, target: LocalPath, writePath: LocalPath, viaTempFile: bool, mtime: int, env: GetEnv)
    requires writePath in now.disk && (viaTempFile || writePath == target)
    ensures forall s :: s in Placing(now, target, writePath, viaTempFile, mtime, env).0 ==>
      s.phones == now.phones && s.disk - {target, writePath} == now.disk - {target, writePath}
  {
  }

  /** In no state is any other local name touched; with nothing in its place a download uses no temporary name. Without the
      flag for a move nothing happens on the device. */
  lemma GetTouches(now: Snapshot, cache: CacheMap, wfxRemote: string, localPath: LocalPath, flags: nat,
                   pid: TempName.pid_t, env: GetEnv)
    ensures var e := GetEffect(now, cache, wfxRemote, localPath, flags, pid, env); var used := NamesUsed(now, localPath, pid);
      && (forall s :: s in e.trail ==> s.disk - used == now.disk - used)
      && (flags / 4 % 2 == 0 || e.result != FS_FILE_OK ==> e.cache == cache && forall s :: s in e.trail ==> s.phones == now.phones)
  {
    hide Fetching, TempName.TempDownloadPath, DeleteEffect;
    if GetRefusal(now, localPath, flags, env) == FS_FILE_OK {
      var w := WritePath(now, localPath, pid);
      assert NamesUsed(now, localPath, pid) == {localPath, w};
      FetchUses(now, localPath, w, localPath in now.disk, RemoteInfo(env).mtime, env);
      DeleteKeepsDisk(now, cache, wfxRemote, localPath, flags, pid, env);
      LastOfTrail(now, Fetching(now, localPath, w, localPath in now.disk, RemoteInfo(env).mtime, env).0);
    }
  }

  lemma LastOfTrail(start: Snapshot, trail: seq<Snapshot>)
    ensures Final(start, trail) == start || Final(start, trail) in trail
  {
  }

  // ----- uploads -----

  /** The upload may be begun: it is no resumption, the local file is there and opens, and nothing is in the way, or what is
      may be replaced. */
  predicate MayPut(now: Snapshot, localPath: LocalPath, flags: nat, env: PutEnv) {
    flags / 2 % 2 == 0 && localPath in now.disk && (flags % 2 == 1 || env.target.NotThere?) && env.opens
  }

  /** When an upload is refused, and how; a refused one does nothing at all. */
  lemma PutIsRefused(now: Snapshot, cache: CacheMap, localPath: LocalPath, wfxRemote: string, flags: nat, env: PutEnv)
    ensures var e := PutEffect(now, cache, localPath, wfxRemote, flags, env);
      var local := flags / 2 % 2 == 0 && localPath in now.disk;
      && (e.result == FS_FILE_NOTSUPPORTED <==> flags / 2 % 2 == 1)
      && (e.result == FS_FILE_EXISTS <==> local && flags % 2 == 0 && env.target.There?)
      && (e.result == FS_FILE_READERROR <==>
            flags / 2 % 2 == 0 && (!local || ((flags % 2 == 1 || env.target.NotThere?) && !env.opens)))
      && (local && flags % 2 == 0 && env.target.StatFailed? ==> e.result == FS_FILE_WRITEERROR)
      && (!MayPut(now, localPath, flags, env) ==> e.trail == [] && e.cache == cache)
  {
    hide ParseWfxPath, Dropped, CANCELLED, PhonesAfterUpload, UploadError;
  }

  /** What an upload that is begun comes to. OK means that the device has the file, with its mode and - to 32 bits - its
      date, and a flagged move then removes the local one if it can. */
  lemma PutAnswers(now: Snapshot, cache: CacheMap, localPath: LocalPath, wfxRemote: string, flags: nat, env: PutEnv)
    requires MayPut(now, localPath, flags, env)
    ensures var e := PutEffect(now, cache, localPath, wfxRemote, flags, env); var err := env.upload.err;
      var rp, file, end := ParseWfxPath(wfxRemote), now.disk[localPath], Final(now, e.trail);
      && (e.result == FS_FILE_USERABORT <==> err == Error(CANCELLED))
      && (e.result == FS_FILE_OK <==> err.Success? && rp.serial in now.phones)
      && (e.result == FS_FILE_WRITEERROR <==> err != Error(CANCELLED) && !(err.Success? && rp.serial in now.phones))
      && (if e.result == FS_FILE_OK || e.result == FS_FILE_USERABORT then Forgotten(cache, e.cache, wfxRemote) else e.cache == cache)
      && end.disk == (if e.result == FS_FILE_OK && flags / 4 % 2 == 1 && env.unlinks then now.disk - {localPath} else now.disk)
      && (e.result == FS_FILE_OK ==>
            && rp.serial in end.phones && Resolve(rp.path) in end.phones[rp.serial]
            && end.phones[rp.serial][Resolve(rp.path)] == File(file.data, env.mode, file.mtime % 0x1_0000_0000))
  {
    hide ParseWfxPath, Dropped, CANCELLED, Resolve, MakeDirs, Forgotten;
    OnlyOneIsCancelled();
    DroppedIsForgotten(cache, wfxRemote);
  }

  // ----- listings -----

  /** A directory, or a link behind which a stat finds one. */
  predicate OpensAsDirectory(stat: StatReply, behind: StatReply) {
    stat.There? && (stat.mode / 4096 % 16 == 4
                    || (stat.mode / 4096 % 16 == 10 && behind.There? && behind.mode / 4096 % 16 == 4))
  }

  predicate IsDotName(name: seq<byte>) {
    name == [0x2E] || name == [0x2E, 0x2E]
  }

  /** How many of the first `n` entries are not "." or "..". */
  function ShownBefore(entries: seq<Wire.DirEntry>, n: nat): nat
    requires n <= |entries|
  {
    if n == 0 then 0 else ShownBefore(entries, n - 1) + if IsDotName(entries[n - 1].name) then 0 else 1
  }

  /** The row of an entry: its own attributes, and whether it opens as a directory. A stat behind a link that was not
      answered is one that failed. */
  function RowOf(entry: Wire.DirEntry, behind: StatReply): FindData.FindResult {
    FindData.FindResult(entry.name, entry.size, entry.mtime, entry.mode,
                        OpensAsDirectory(There(entry.mode, entry.size, entry.mtime), behind))
  }

  /** The i-th entry, if it is to be shown, has its row right after those of the entries before it. */
  predicate HasRow(rows: seq<FindData.FindResult>, entries: seq<Wire.DirEntry>, behind: seq<StatReply>, i: nat)
    requires i < |entries|
  {
    !IsDotName(entries[i].name) ==>
      && ShownBefore(entries, i) < |rows|
      && rows[ShownBefore(entries, i)] == RowOf(entries[i], if i < |behind| then behind[i] else StatFailed)
  }

  /** The rows are those of the first `n` entries but "." and "..", each once and in their order. */
  ghost predicate AreRowsOf(rows: seq<FindData.FindResult>, entries: seq<Wire.DirEntry>, behind: seq<StatReply>, n: nat)
    requires n <= |entries|
  {
    |rows| == ShownBefore(entries, n) && forall i :: 0 <= i < n ==> HasRow(rows, entries, behind, i)
  }

  /** A listing from the device, below the root: it succeeds exactly if the path opens as a directory - a link to one
      does - and the LIST conversation does, and then shows the entries in order, links to directories as directories. */
  lemma ListAnswers(cache: CacheMap, ttl: int, wfxDir: string, env: ListEnv)
    requires wfxDir !in {"", "/"} && Hit(cache, wfxDir, env.now, ttl).None?
    ensures var listed := ListEffect(cache, ttl, wfxDir, env).1;
      && listed.unready == []
      && (listed.rows.Some? <==> OpensAsDirectory(env.stat, env.linkStat) && env.listed.Some?)
      && (listed.rows.Some? ==> AreRowsOf(listed.rows.value, env.listed.value, env.linkStats, |env.listed.value|))
  {
    hide ResolvedAll, Shown, AreRowsOf;
    LeadingSlashIsOptional(wfxDir);
    if env.listed.Some? {
      var listing := ResolvedAll(env.listed.value, env.linkStats);
      AsManyResolved(env.listed.value, env.linkStats);
      RowsInOrder(env.listed.value, env.linkStats, listing, |listing|);
      assert listing[..|listing|] == listing;
    }
  }

  lemma AsManyResolved(entries: seq<Wire.DirEntry>, behind: seq<StatReply>)
    ensures |ResolvedAll(entries, behind)| == |entries|
  {
  }

  lemma RowIs(entries: seq<Wire.DirEntry>, behind: seq<StatReply>, i: nat)
    requires i < |entries|
    ensures var e := ResolvedAll(entries, behind)[i];
      && (IsDots(e.entry.name) <==> IsDotName(entries[i].name))
      && (!IsDotName(entries[i].name) ==> Row(e) == RowOf(entries[i], if i < |behind| then behind[i] else StatFailed))
  {
  }

  lemma {:induction false} RowsInOrder(entries: seq<Wire.DirEntry>, behind: seq<StatReply>, listing: Listing, n: nat)
    requires listing == ResolvedAll(entries, behind) && |listing| == |entries| && n <= |entries|
    ensures AreRowsOf(Shown(listing[..n]), entries, behind, n)
  {
    hide RowOf, Row, IsDots, IsDotName, ResolvedAll;
    if n > 0 {
      RowsInOrder(entries, behind, listing, n - 1);
      RowIs(entries, behind, n - 1);
      assert listing[..n][..n - 1] == listing[..n - 1];
      var rows := Shown(listing[..n - 1]);
      forall i | 0 <= i < n - 1
        ensures HasRow(Shown(listing[..n]), entries, behind, i)
      {
        assert HasRow(rows, entries, behind, i);
      }
    }
  }

  // ----- the root -----

  /** How many of the first `n` devices are ready. */
  function ReadyBefore(devices: seq<Devices.DeviceInfo>, n: nat): (k: nat)
    requires n <= |devices|
    ensures k <= n
  {
    if n == 0 then 0 else ReadyBefore(devices, n - 1) + if devices[n - 1].state == "device" then 1 else 0
  }

  /** The i-th device is where the ready ones before it leave it: among the rows if it is ready, else among the others. */
  predicate IsPlaced(rows: seq<FindData.FindResult>, unready: seq<Devices.DeviceInfo>, devices: seq<Devices.DeviceInfo>, i: nat)
    requires i < |devices|
  {
    var k := ReadyBefore(devices, i);
    if devices[i].state == "device" then k < |rows| && rows[k] == DirectoryRow(devices[i])
    else i - k < |unready| && unready[i - k] == devices[i]
  }

  /** The rows are those of the ready ones among the first `n` devices, and the warnings are about the others, both in
      their order. */
  ghost predicate AreReadyRows(rows: seq<FindData.FindResult>, unready: seq<Devices.DeviceInfo>,
                               devices: seq<Devices.DeviceInfo>, n: nat)
    requires n <= |devices|
  {
    && |rows| == ReadyBefore(devices, n) && |unready| == n - ReadyBefore(devices, n)
    && forall i :: 0 <= i < n ==> IsPlaced(rows, unready, devices, i)
  }

  /** An empty directory with the device's display name. */
  function DirectoryRow(d: Devices.DeviceInfo): FindData.FindResult {
    FindData.FindResult(Ascii(DisplayName(d.model, d.serial)), 0, 0, 0, true)
  }

  /** The root fails exactly if the server cannot be asked. It shows each device in state "device" and warns of each other
      one. */
  lemma RootAnswers(cache: CacheMap, ttl: int, env: ListEnv)
    ensures var (cache', listed) := ListEffect(cache, ttl, "/", env);
      && cache' == cache && (listed.rows.Some? <==> env.devices.Some?)
      && match env.devices
         case None => listed.unready == []
         case Some(devices) => AreReadyRows(listed.rows.value, listed.unready, devices, |devices|)
  {
    hide ReadyRows, Unready, AreReadyRows;
    LeadingSlashIsOptional("/");
    if env.devices.Some? {
      var devices := env.devices.value;
      ReadyInOrder(devices, |devices|);
      assert devices[..|devices|] == devices;
    }
  }

  lemma OneMoreDevice(rows: seq<FindData.FindResult>, unready: seq<Devices.DeviceInfo>, devices: seq<Devices.DeviceInfo>, n: nat)
    requires n < |devices| && AreReadyRows(rows, unready, devices, n)
    ensures devices[n].state == "device" ==> AreReadyRows(rows + [DirectoryRow(devices[n])], unready, devices, n + 1)
    ensures devices[n].state != "device" ==> AreReadyRows(rows, unready + [devices[n]], devices, n + 1)
  {
    hide DirectoryRow;
    var last := devices[n];
    forall i | 0 <= i < n
      ensures IsPlaced(rows + [DirectoryRow(last)], unready, devices, i) && IsPlaced(rows, unready + [last], devices, i)
    {
      assert IsPlaced(rows, unready, devices, i);
    }
  }

  lemma {:induction false} ReadyInOrder(devices: seq<Devices.DeviceInfo>, n: nat)
    requires n <= |devices|
    ensures AreReadyRows(ReadyRows(devices[..n]), Unready(devices[..n]), devices, n)
  {
    if n > 0 {
      assert DeviceRow(devices[n - 1]) == DirectoryRow(devices[n - 1]);
      hide DirectoryRow, DeviceRow, AreReadyRows;
      ReadyInOrder(devices, n - 1);
      assert devices[..n][..n - 1] == devices[..n - 1];
      var rows, unready := ReadyRows(devices[..n - 1]), Unready(devices[..n - 1]);
      OneMoreDevice(rows, unready, devices, n - 1);
      assert rows + [] == rows && unready + [] == unready;
    } else {
      assert devices[..0] == [];
    }
  }
}
