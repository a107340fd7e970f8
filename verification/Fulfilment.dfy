/** What an operation that succeeds has done on the device, and that it succeeds when the device does its part. */
module Fulfilment {
  import opened Answers
  import opened Cache
  import opened Commands
  import opened Device
  import opened DeviceSafety
  import opened Effects
  import opened Optional
  import opened Paths
  import opened Refinement
  import opened Safety
  import opened Shell
  import opened Trees
  import opened World
  import TempName

  /** The device is there, acts on what it is sent, and is silent only about what it did. */
  ghost predicate Truthful(phones: Phones, serial: string, commandLine: string, r: ShellReply) {
    serial in phones && Obedient(r) && SilenceIsSuccess(commandLine, phones[serial], r)
  }

  /** A silent command has left the tree it was to leave, dates of directories aside. */
  lemma SilentRuns(phones: Phones, serial: string, commandLine: string, c: Command, r: ShellReply)
    requires Meaning(commandLine) == Some(c) && Truthful(phones, serial, commandLine, r) && Silent(phones, serial, r)
    ensures Device.Run(c, phones[serial], r.manner.mode, r.manner.now).Some?
    ensures var phones' := AfterShell(phones, serial, commandLine, r);
      && serial in phones'
      && phones'[serial] == Retimed(Device.Run(c, phones[serial], r.manner.mode, r.manner.now).value, r.manner.dirTimes)
  {
    hide Meaning, Device.Run, Retimed, AfterShell, Obedient, IsSilent;
    SilenceIsSilent(phones, serial, r);
    ShellRuns(phones, serial, commandLine, c, r);
  }

  /** Whatever a delete reports: a directory is still there afterwards. What it reports as a success - for a path that can
      be followed - is that nothing is there, and nothing else has changed. */
  lemma DeleteRemoves(now: Snapshot, cache: CacheMap, wfxRemote: string, r: ShellReply)
    requires var rp := ParseWfxPath(wfxRemote);
      NulFree(rp.path) && Truthful(now.phones, rp.serial, DeleteCommand(rp.path), r)
    ensures var rp := ParseWfxPath(wfxRemote); var e := DeleteEffect(now, cache, wfxRemote, r);
      var t, place := now.phones[rp.serial], Resolve(rp.path); var end := Final(now, e.trail).phones;
      && rp.serial in end && (HasDir(t, place) ==> HasDir(end[rp.serial], place))
      && (e.result && Walkable(t, rp.path) ==>
            && place !in end[rp.serial] && !HasDir(t, place)
            && forall q :: q != place ==> AlikeAt(t, end[rp.serial], q))
  {
    hide Meaning, DeleteCommand, Resolve, Walkable, ParseWfxPath, AfterShell, Obedient, Forgotten, IsSilent, Alike;
    var rp := ParseWfxPath(wfxRemote);
    var t, line := now.phones[rp.serial], DeleteCommand(rp.path);
    MeaningOfDelete(rp.path);
    MutationAnswers(now, cache, wfxRemote, r);
    ShellRuns(now.phones, rp.serial, line, Rm(rp.path), r);
    RetimedIsAlike(Ran(Rm(rp.path), t, r.manner), r.manner.dirTimes);
    if Silent(now.phones, rp.serial, r) {
      SilentRuns(now.phones, rp.serial, line, Rm(rp.path), r);
      if Walkable(t, rp.path) {
        RemovedIsAlike(t, Resolve(rp.path), r.manner.dirTimes);
      }
    }
  }

  lemma RemovedIsAlike(t: Tree, place: string, dirTimes: map<string, int>)
    ensures var t' := Retimed(t - {place}, dirTimes);
      place !in t' && forall q :: q != place ==> AlikeAt(t, t', q)
  {
  }

  /** A removal that is reported as a success has left nothing at or under the path, and has changed nothing else. */
  lemma RemoveDirRemoves(now: Snapshot, cache: CacheMap, wfxRemote: string, r: ShellReply)
    requires var rp := ParseWfxPath(wfxRemote);
      NulFree(rp.path) && Truthful(now.phones, rp.serial, RemoveDirCommand(rp.path), r)
    ensures var rp := ParseWfxPath(wfxRemote); var e := RemoveDirEffect(now, cache, wfxRemote, r);
      var t, place := now.phones[rp.serial], Resolve(rp.path); var end := Final(now, e.trail).phones;
      e.result && Walkable(t, rp.path) ==>
        && rp.serial in end
        && forall q :: if Covers(place, q) then q !in end[rp.serial] else AlikeAt(t, end[rp.serial], q)
  {
    hide Meaning, RemoveDirCommand, Resolve, Walkable, ParseWfxPath, AfterShell, Obedient, Forgotten, IsSilent, Alike, EndsInDots;
    var rp := ParseWfxPath(wfxRemote);
    var t, line := now.phones[rp.serial], RemoveDirCommand(rp.path);
    MeaningOfRemoveDir(rp.path);
    MutationAnswers(now, cache, wfxRemote, r);
    if Silent(now.phones, rp.serial, r) && Walkable(t, rp.path) {
      SilentRuns(now.phones, rp.serial, line, RmTree(rp.path), r);
      TreeIsGone(t, Resolve(rp.path), r.manner.dirTimes);
    }
  }

  lemma TreeIsGone(t: Tree, place: string, dirTimes: map<string, int>)
    ensures var t' := Retimed(Without(t, place), dirTimes);
      forall q :: if Covers(place, q) then q !in t' else AlikeAt(t, t', q)
  {
  }

  /** After a creation that is reported as a success the directory is there, and all that was there still is. */
  lemma MakeDirMakes(now: Snapshot, cache: CacheMap, wfxRemote: string, r: ShellReply)
    requires var rp := ParseWfxPath(wfxRemote);
      NulFree(rp.path) && Truthful(now.phones, rp.serial, MakeDirCommand(rp.path), r)
    ensures var rp := ParseWfxPath(wfxRemote); var e := MakeDirEffect(now, cache, wfxRemote, r);
      var t, place := now.phones[rp.serial], Resolve(rp.path); var end := Final(now, e.trail).phones;
      e.result ==>
        && rp.serial in end && HasDir(end[rp.serial], place)
        && forall q :: q in t ==> AlikeAt(t, end[rp.serial], q)
  {
    hide Meaning, MakeDirCommand, Resolve, Walkable, ParseWfxPath, AfterShell, Obedient, Forgotten, IsSilent, MakeDirs;
    var rp := ParseWfxPath(wfxRemote);
    var t, line := now.phones[rp.serial], MakeDirCommand(rp.path);
    MeaningOfMakeDir(rp.path);
    MutationAnswers(now, cache, wfxRemote, r);
    if Silent(now.phones, rp.serial, r) {
      SilentRuns(now.phones, rp.serial, line, Mkdir(rp.path), r);
      MakeDirsKeeps(t, Resolve(rp.path), r.manner.mode, r.manner.now);
      RetimedIsAlike(MakeDirs(t, Resolve(rp.path), r.manner.mode, r.manner.now), r.manner.dirTimes);
    }
  }

  lemma {:induction false} MakeDirsKeeps(t: Tree, p: string, mode: int, now: int)
    ensures p in MakeDirs(t, p, mode, now)
    ensures forall q :: q in t ==> q in MakeDirs(t, p, mode, now) && MakeDirs(t, p, mode, now)[q] == t[q]
    ensures forall q :: q in MakeDirs(t, p, mode, now) ==> q in t || MakeDirs(t, p, mode, now)[q].Dir?
    decreases |p|
  {
    if p !in t && |ParentWfxDir(p)| < |p| {
      MakeDirsKeeps(t, ParentWfxDir(p), mode, now);
    }
  }

  // ----- copies -----

  /** The two answers to a change of date that let it succeed: the path is found, and one form is carried out. */
  ghost predicate SetsTime(phones: Phones, serial: string, mtime: int, time: TimeEnv) {
    && Obedient(time.epoch) && Obedient(time.date) && Candid(time.epoch) && Candid(time.date)
    && time.stat.There? && time.epoch.connected
    && (Silent(phones, serial, time.epoch) || (-62135596800 <= mtime <= 253402300799 && Silent(phones, serial, time.date)))
  }

  /** A directory is not copied: nothing is sent, and nothing changes. */
  lemma DirectoryIsNotCopied(now: Snapshot, cache: CacheMap, wfxFrom: string, wfxTo: string, env: CopyEnv)
    requires var from, to := ParseWfxPath(wfxFrom), ParseWfxPath(wfxTo);
      && from.serial == to.serial && from.serial in now.phones && HasDir(now.phones[from.serial], Resolve(from.path))
      && env.stat == StatOf(now.phones[from.serial], Resolve(from.path))
    ensures DeviceCopyEffect(now, cache, wfxFrom, wfxTo, env) == Effect([], cache, false)
  {
    hide ParseWfxPath, Resolve, SetTimeEffect, MutationEffect;
    KindBits(now.phones[ParseWfxPath(wfxFrom).serial][Resolve(ParseWfxPath(wfxFrom).path)]);
  }

  lemma KindBits(node: Node)
    ensures ModeOf(node) / 4096 % 16 == if node.Dir? then 4 else 8
  {
  }

  /** Any file is copied if the device can, does and says nothing, to any other path that is no directory's: the copy is
      there with the content and - to 32 bits - the date of its source, and so is the source. */
  lemma CopyGoesThrough(now: Snapshot, cache: CacheMap, wfxFrom: string, wfxTo: string, env: CopyEnv, file: Node)
    requires var from, to := ParseWfxPath(wfxFrom), ParseWfxPath(wfxTo);
      && from.serial == to.serial && from.path != to.path && NulFree(from.path) && NulFree(to.path)
      && Holds(now.phones, from.serial, Resolve(from.path), file) && !HasDir(now.phones[from.serial], Resolve(to.path))
      && env.stat == StatOf(now.phones[from.serial], Resolve(from.path))
      && Truthful(now.phones, from.serial, CopyCommand(from.path, to.path), env.copy)
      && Silent(now.phones, from.serial, env.copy) && SetsTime(now.phones, from.serial, env.stat.mtime, env.time)
    ensures var from, to := ParseWfxPath(wfxFrom), ParseWfxPath(wfxTo);
      var e := DeviceCopyEffect(now, cache, wfxFrom, wfxTo, env); var end := Final(now, e.trail).phones;
      && e.result && Forgotten(cache, e.cache, wfxTo)
      && Holds(end, to.serial, Resolve(to.path), File(file.data, env.copy.manner.mode, file.mtime % 0x1_0000_0000))
      && Holds(end, from.serial, Resolve(from.path), file)
  {
    hide ParseWfxPath, Resolve, SetTimeEffect, MutationEffect, CopyCommand, Obedient, Forgotten, SilenceIsSuccess, Candid, IsSilent,
         DeviceCopyEffect;
    var from, to := ParseWfxPath(wfxFrom), ParseWfxPath(wfxTo);
    KindBits(file);
    SilenceIsSilent(now.phones, from.serial, env.copy);
    CopyAnswers(now, cache, wfxFrom, wfxTo, env);
    SetTimeAnswers(now, cache, wfxTo, env.stat.mtime, EpochThenFallback, env.time);
    CopyIsExact(now, cache, wfxFrom, wfxTo, env, file);
    CopyKeepsSource(now, cache, wfxFrom, wfxTo, env, file);
    LastOfTrail(now, DeviceCopyEffect(now, cache, wfxFrom, wfxTo, env).trail);
  }

  const SMALL_TREE: Tree := map["/" := Dir(493, 0), "/a" := File([1, 2], 420, 5)]

  function GoodReply(): ShellReply {
    ObedientReply(true, "", Manner(true, 420, 9, None, map[]))
  }

  function GoodCopy(): CopyEnv {
    CopyEnv(StatOf(SMALL_TREE, "/a"), GoodReply(), TimeEnv(StatOf(SMALL_TREE, "/a"), GoodReply(), GoodReply()))
  }

  /** Such devices are possible: a phone that copies and stamps in silence makes /b of /a. */
  lemma CopyOnSmallTree(now: Snapshot)
    requires now.phones == map["S" := SMALL_TREE]
    ensures var e := DeviceCopyEffect(now, map[], "/S/a", "/S/b", GoodCopy());
      e.result && Holds(Final(now, e.trail).phones, "S", "/b", File([1, 2], 420, 5))
  {
    hide DeviceCopyEffect, Obedient, CopyCommand, Forgotten, ParseWfxPath, Resolve, Truthful, Silent, SetsTime, SMALL_TREE, Holds;
    SmallPaths();
    SmallDevice(now.phones);
    CopyGoesThrough(now, map[], "/S/a", "/S/b", GoodCopy(), File([1, 2], 420, 5));
  }

  lemma SmallDevice(phones: Phones)
    requires phones == map["S" := SMALL_TREE]
    ensures Truthful(phones, "S", CopyCommand("/a", "/b"), GoodReply()) && Silent(phones, "S", GoodReply())
    ensures SetsTime(phones, "S", GoodCopy().stat.mtime, GoodCopy().time)
    ensures Holds(phones, "S", "/a", File([1, 2], 420, 5)) && !HasDir(SMALL_TREE, "/b")
  {
    hide Obedient, CopyCommand, Meaning, Device.Run;
    MeaningOfCopy("/a", "/b");
    SmallCopy(SMALL_TREE);
  }

  lemma SmallPaths()
    ensures ParseWfxPath("/S/a") == RemotePath(false, "S", "/a") && ParseWfxPath("/S/b") == RemotePath(false, "S", "/b")
    ensures Resolve("/a") == "/a" && Resolve("/b") == "/b" && NulFree("/a") && NulFree("/b")
  {
    assert "/" + "S" + "/a" == "/S/a" && "/" + "S" + "/b" == "/S/b";
    ParseOfName("S", "/a");
    ParseOfName("S", "/b");
    ResolveCanonical("/a");
    ResolveCanonical("/b");
  }

  lemma SmallCopy(t: Tree)
    requires t == SMALL_TREE
    ensures Device.Run(Cp("/a", "/b"), t, 420, 9).Some?
  {
    SmallPaths();
    assert Walkable(t, "/a") && Walkable(t, "/b") by {
      assert "/a"[..0] == "" && "/b"[..0] == "" && Resolve("") == "/";
    }
    assert ParentWfxDir("/b") == "/";
  }

  // ----- moves -----

  /** All that lay at or under `source` lies in the same place at or under `target`, and nothing is left where it was - but
      for what is under the target. */
  ghost predicate HasMoved(t: Tree, t': Tree, source: string, target: string) {
    && (forall q :: q in t && Covers(source, q) ==>
          var q' := target + q[|source|..];
          q' in t' && Alike(t[q], t'[q']))
    && (forall q :: q in t' && Covers(source, q) ==> Covers(target, q))
  }

  lemma MovedTree(t: Tree, source: string, target: string, dirTimes: map<string, int>)
    ensures HasMoved(t, Retimed(MoveTree(t, source, target), dirTimes), source, target)
  {
    var moved := MoveTree(t, source, target);
    var t' := Retimed(moved, dirTimes);
    forall q | q in t && Covers(source, q)
      ensures var q' := target + q[|source|..]; q' in t' && Alike(t[q], t'[q'])
    {
      GraftHolds(t, source, target, q);
    }
    forall q | q in t' && Covers(source, q)
      ensures Covers(target, q)
    {
      if q in GraftKeys(t, source, target) {
        GraftOrigin(t, source, target, q);
      }
    }
  }

  /** Anything is moved if the device can, does and says nothing: it lies at the target - inside it if that is a directory -
      and no longer at the source, and nothing else has changed. */
  lemma MoveGoesThrough(now: Snapshot, cache: CacheMap, wfxFrom: string, wfxTo: string, r: ShellReply)
    requires var from, to := ParseWfxPath(wfxFrom), ParseWfxPath(wfxTo);
      && from.serial == to.serial && NulFree(from.path) && NulFree(to.path)
      && Truthful(now.phones, from.serial, MoveCommand(from.path, to.path), r) && Silent(now.phones, from.serial, r)
    ensures var from, to := ParseWfxPath(wfxFrom), ParseWfxPath(wfxTo); var e := DeviceMoveEffect(now, cache, wfxFrom, wfxTo, r);
      var t, source := now.phones[from.serial], Resolve(from.path); var end := Final(now, e.trail).phones;
      && e.result && source in t && from.serial in end && !Beneath(source, Destination(t, source, Resolve(to.path)))
      && HasMoved(t, end[from.serial], source, Destination(t, source, Resolve(to.path)))
      && Confined(t, end[from.serial], source, Resolve(to.path))
  {
    hide ParseWfxPath, Resolve, MoveCommand, Obedient, IsSilent, Meaning, AfterShell, Walkable, Destination, MoveTree, Dropped,
         HasMoved, EndsInDots, Confined, Beneath, Forgotten;
    var from, to := ParseWfxPath(wfxFrom), ParseWfxPath(wfxTo);
    var t, line, c := now.phones[from.serial], MoveCommand(from.path, to.path), Mv(from.path, to.path);
    var source := Resolve(from.path);
    MeaningOfMove(from.path, to.path);
    MoveAnswers(now, cache, wfxFrom, wfxTo, r);
    SilentRuns(now.phones, from.serial, line, c, r);
    MovedTree(t, source, Destination(t, source, Resolve(to.path)), r.manner.dirTimes);
    assert Obeys(line, t, r) by {
      ObeysAlways(line, t, r);
    }
    EffectIsConfined(line, c, t, r.manner);
    AfterIs(now.phones, from.serial, line, r);
  }

  lemma ObeysAlways(line: string, t: Tree, r: ShellReply)
    requires Obedient(r)
    ensures Obeys(line, t, r)
  {
  }

  lemma AfterIs(phones: Phones, serial: string, line: string, r: ShellReply)
    requires serial in phones && Obeys(line, phones[serial], r)
    ensures AfterShell(phones, serial, line, r) == phones[serial := TreeAfter(line, phones[serial], r.manner)]
  {
  }

  lemma FileHasMoved(t: Tree, t': Tree, source: string, to: string)
    requires HasFile(t, source) && !HasDir(t, to) && HasMoved(t, t', source, Destination(t, source, to)) && !Beneath(source, to)
    ensures to in t' && t'[to] == t[source] && (source !in t' || to + "/" <= source)
  {
    assert to + source[|source|..] == to;
  }

  /** The one entry point: a rename or move goes through as a move, a copy as a copy, if the target may be replaced or is
      not there. */
  lemma RenameOrMoveGoesThrough(now: Snapshot, cache: CacheMap, wfxFrom: string, wfxTo: string, move: bool, overwrite: bool,
                                env: MoveEnv, file: Node)
    requires var from, to := ParseWfxPath(wfxFrom), ParseWfxPath(wfxTo);
      && from.serial == to.serial && from.path != to.path && NulFree(from.path) && NulFree(to.path)
      && (overwrite || env.target.NotThere?)
      && Holds(now.phones, from.serial, Resolve(from.path), file) && !HasDir(now.phones[from.serial], Resolve(to.path))
      && env.copy.stat == StatOf(now.phones[from.serial], Resolve(from.path))
      && if move then
           Truthful(now.phones, from.serial, MoveCommand(from.path, to.path), env.move) && Silent(now.phones, from.serial, env.move)
         else
           && Truthful(now.phones, from.serial, CopyCommand(from.path, to.path), env.copy.copy)
           && Silent(now.phones, from.serial, env.copy.copy)
           && SetsTime(now.phones, from.serial, env.copy.stat.mtime, env.copy.time)
    ensures var from, to := ParseWfxPath(wfxFrom), ParseWfxPath(wfxTo);
      var e := RenameOrMoveEffect(now, cache, wfxFrom, wfxTo, move, overwrite, env); var end := Final(now, e.trail).phones;
      && e.result == MoveResult(true, false, false) && from.serial in end
      && (if move then Holds(end, to.serial, Resolve(to.path), file)
          else Holds(end, to.serial, Resolve(to.path), File(file.data, env.copy.copy.manner.mode, file.mtime % 0x1_0000_0000)))
      && (if move then Resolve(from.path) !in end[from.serial] || Resolve(to.path) + "/" <= Resolve(from.path)
          else Holds(end, from.serial, Resolve(from.path), file))
  {
    hide ParseWfxPath, Resolve, MoveCommand, CopyCommand, Truthful, Beneath, Silent, SetsTime, StatOf, DeviceMoveEffect, DeviceCopyEffect,
         HasMoved, Forgotten, Confined;
    var from, to := ParseWfxPath(wfxFrom), ParseWfxPath(wfxTo);
    if move {
      MoveGoesThrough(now, cache, wfxFrom, wfxTo, env.move);
      var e := DeviceMoveEffect(now, cache, wfxFrom, wfxTo, env.move);
      FileHasMoved(now.phones[from.serial], Final(now, e.trail).phones[from.serial], Resolve(from.path), Resolve(to.path));
    } else {
      CopyGoesThrough(now, cache, wfxFrom, wfxTo, env.copy, file);
    }
  }

  // ----- downloads that move -----

  /** A download flagged as a move, once the file is in place: one rm takes it off the device, and its silence makes the
      cache forget it. Whatever that command comes to, the download is a success. */
  lemma GetRemovesSource(now: Snapshot, cache: CacheMap, wfxRemote: string, localPath: LocalPath, flags: nat,
                         pid: TempName.pid_t, env: GetEnv)
    requires var rp := ParseWfxPath(wfxRemote);
      NulFree(rp.path) && Truthful(now.phones, rp.serial, DeleteCommand(rp.path), env.remove)
    requires flags / 4 % 2 == 1 && GetEffect(now, cache, wfxRemote, localPath, flags, pid, env).result == FS_FILE_OK
    ensures var rp := ParseWfxPath(wfxRemote); var e := GetEffect(now, cache, wfxRemote, localPath, flags, pid, env);
      var t, end := now.phones[rp.serial], Final(now, e.trail).phones;
      && rp.serial in end
      && (Silent(now.phones, rp.serial, env.remove) && Walkable(t, rp.path) ==>
            Resolve(rp.path) !in end[rp.serial] && forall q :: q != Resolve(rp.path) ==> AlikeAt(t, end[rp.serial], q))
      && (if Silent(now.phones, rp.serial, env.remove) then Forgotten(cache, e.cache, wfxRemote) else e.cache == cache)
  {
    hide ParseWfxPath, Resolve, Walkable, DeleteEffect, Truthful, Silent, Forgotten, Fetching, TempName.TempDownloadPath, Alike;
    var w, via := WritePath(now, localPath, pid), localPath in now.disk;
    var trail := Fetching(now, localPath, w, via, RemoteInfo(env).mtime, env).0;
    FetchEnds(now, localPath, w, via, RemoteInfo(env).mtime, env);
    var placed := Final(now, trail);
    assert placed.phones == now.phones;
    DeleteRemoves(placed, cache, wfxRemote, env.remove);
    MutationAnswers(placed, cache, wfxRemote, env.remove);
    FinalOfTwo(now, trail, DeleteEffect(placed, cache, wfxRemote, env.remove).trail);
  }
}
