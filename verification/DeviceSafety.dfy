/** What every run of a move, a copy or a change of date on the device keeps. */
module DeviceSafety {
  import opened Cache
  import opened Commands
  import opened Device
  import opened Effects
  import opened Optional
  import opened Paths
  import opened Shell
  import opened World
  import Calendar

  /** The device has exactly this file there. */
  predicate Holds(phones: Phones, serial: string, q: string, file: Node) {
    file.File? && serial in phones && q in phones[serial] && phones[serial][q] == file
  }

  /** A device that obeys changes its files as the command asks; dates of directories aside. */
  lemma ShellRuns(phones: Phones, serial: string, commandLine: string, c: Command, r: ShellReply)
    requires serial in phones && Meaning(commandLine) == Some(c) && Obedient(r)
    ensures var phones' := AfterShell(phones, serial, commandLine, r);
      serial in phones' && phones'[serial] == Retimed(Ran(c, phones[serial], r.manner), r.manner.dirTimes)
  {
    hide Meaning, Ran, Retimed;
    assert Obeys(commandLine, phones[serial], r);
  }

  lemma ShellSpares(phones: Phones, serial: string, commandLine: string, c: Command, r: ShellReply, q: string, file: Node)
    requires Holds(phones, serial, q, file) && Meaning(commandLine) == Some(c) && Obedient(r)
    requires q in Ran(c, phones[serial], r.manner) && Ran(c, phones[serial], r.manner)[q] == file
    ensures Holds(AfterShell(phones, serial, commandLine, r), serial, q, file)
  {
    hide Meaning, Ran, AfterShell;
    ShellRuns(phones, serial, commandLine, c, r);
  }

  // ----- dates -----

  lemma TouchSpares(phones: Phones, serial: string, commandLine: string, p: string, mtime: int, r: ShellReply, q: string,
                    file: Node)
    requires Holds(phones, serial, q, file) && Meaning(commandLine) == Some(Touch(p, mtime)) && Obedient(r) && q != Resolve(p)
    ensures Holds(AfterShell(phones, serial, commandLine, r), serial, q, file)
  {
    hide Meaning, AfterShell, Resolve, Walkable;
    ShellSpares(phones, serial, commandLine, Touch(p, mtime), r, q, file);
  }

  /** Setting a date never touches any other file. */
  lemma SetTimeSpares(now: Snapshot, cache: CacheMap, wfxRemote: string, mtime: int, strategy: TouchStrategy, env: TimeEnv,
                      q: string, file: Node)
    requires var rp := ParseWfxPath(wfxRemote); NulFree(rp.path) && q != Resolve(rp.path) && Holds(now.phones, rp.serial, q, file)
    requires Obedient(env.epoch) && Obedient(env.date)
    ensures forall s :: s in SetTimeEffect(now, cache, wfxRemote, mtime, strategy, env).trail ==>
      s.disk == now.disk && Holds(s.phones, ParseWfxPath(wfxRemote).serial, q, file)
  {
    hide Meaning, ParseWfxPath, Dropped, TouchEpochCommand, TouchDateCommand, Calendar.FormatTouchTArg, AfterShell, Obedient;
    var rp := ParseWfxPath(wfxRemote);
    var date := Calendar.FormatTouchTArg(mtime);
    if date.Some? {
      MeaningOfTouchDate(mtime, rp.path);
      TouchSpares(now.phones, rp.serial, TouchDateCommand(date.value, rp.path), rp.path, mtime, env.date, q, file);
    }
    MeaningOfTouchEpoch(mtime, rp.path);
    var line := TouchEpochCommand(mtime, rp.path);
    TouchSpares(now.phones, rp.serial, line, rp.path, mtime, env.epoch, q, file);
    var next := AfterShell(now.phones, rp.serial, line, env.epoch);
    if date.Some? {
      TouchSpares(next, rp.serial, TouchDateCommand(date.value, rp.path), rp.path, mtime, env.date, q, file);
    }
  }

  /** The file under its old or its new date, as `done` says if it is known. */
  predicate HoldsDated(phones: Phones, serial: string, q: string, file: Node, mtime: int, done: bool)
    requires file.File?
  {
    Holds(phones, serial, q, file.(mtime := mtime)) || (!done && Holds(phones, serial, q, file))
  }

  lemma TouchDates(phones: Phones, serial: string, commandLine: string, p: string, mtime: int, r: ShellReply, file: Node)
    requires file.File? && HoldsDated(phones, serial, Resolve(p), file, mtime, false)
    requires Meaning(commandLine) == Some(Touch(p, mtime)) && Obedient(r) && Candid(r)
    ensures var phones' := AfterShell(phones, serial, commandLine, r);
      && HoldsDated(phones', serial, Resolve(p), file, mtime, IsSuccess(r) && Walkable(phones[serial], p))
      && (Walkable(phones[serial], p) ==> Walkable(phones'[serial], p))
  {
    hide Meaning, AfterShell, IsSilent, Resolve;
    ShellRuns(phones, serial, commandLine, Touch(p, mtime), r);
  }

  /** What a stat finds can be reached the way it was named. */
  predicate HonestStat(t: Tree, p: string, reply: StatReply) {
    reply.There? ==> Walkable(t, p)
  }

  /** Setting the date of a file, however its path is spelled: success means that the file has exactly the date asked for,
      and its old content; in no state has it any third date. A device that takes only the form without epoch seconds
      will do for the years 1 to 9999, and for no others. */
  lemma SetTimeIsExact(now: Snapshot, cache: CacheMap, wfxRemote: string, mtime: int, strategy: TouchStrategy, env: TimeEnv,
                       file: Node)
    requires var rp := ParseWfxPath(wfxRemote);
      && NulFree(rp.path) && Holds(now.phones, rp.serial, Resolve(rp.path), file)
      && HonestStat(now.phones[rp.serial], rp.path, env.stat)
    requires Obedient(env.epoch) && Obedient(env.date) && Candid(env.epoch) && Candid(env.date)
    ensures var rp := ParseWfxPath(wfxRemote); var e := SetTimeEffect(now, cache, wfxRemote, mtime, strategy, env);
      && (forall s :: s in e.trail ==> HoldsDated(s.phones, rp.serial, Resolve(rp.path), file, mtime, false))
      && (e.result ==> Holds(Final(now, e.trail).phones, rp.serial, Resolve(rp.path), file.(mtime := mtime)))
      && (e.result && strategy.TouchTOnly? ==> Calendar.FormatTouchTArg(mtime).Some?)
      && (env.stat.There? && env.epoch.connected && IsSuccess(env.date) && Calendar.FormatTouchTArg(mtime).Some? ==> e.result)
  {
    hide Meaning, ParseWfxPath, Dropped, TouchEpochCommand, TouchDateCommand, Calendar.FormatTouchTArg, AfterShell, Obedient,
         Candid, IsSilent, Resolve, Walkable;
    var rp := ParseWfxPath(wfxRemote);
    var date := Calendar.FormatTouchTArg(mtime);
    if date.Some? {
      MeaningOfTouchDate(mtime, rp.path);
      TouchDates(now.phones, rp.serial, TouchDateCommand(date.value, rp.path), rp.path, mtime, env.date, file);
    }
    MeaningOfTouchEpoch(mtime, rp.path);
    var line := TouchEpochCommand(mtime, rp.path);
    TouchDates(now.phones, rp.serial, line, rp.path, mtime, env.epoch, file);
    var next := AfterShell(now.phones, rp.serial, line, env.epoch);
    if date.Some? {
      TouchDates(next, rp.serial, TouchDateCommand(date.value, rp.path), rp.path, mtime, env.date, file);
    }
  }

  // ----- copies -----

  lemma CopySpares(t: Tree, from: string, to: string, m: Manner)
    requires HasFile(t, Resolve(from))
    ensures Resolve(from) in Ran(Cp(from, to), t, m) && Ran(Cp(from, to), t, m)[Resolve(from)] == t[Resolve(from)]
  {
    hide Destination, Resolve, Walkable;
  }

  /** A copy of a file onto itself, however spelled, is refused. */
  lemma CopyOntoItself(line: string, t: Tree, from: string, to: string, r: ShellReply)
    requires Meaning(line) == Some(Cp(from, to)) && HasFile(t, Resolve(from)) && Resolve(to) == Resolve(from)
    requires SilenceIsSuccess(line, t, r)
    ensures !IsSuccess(r)
  {
    hide Meaning, Resolve, Walkable, IsSilent;
  }

  /** A copy on the device, however the paths are spelled, never changes its source, in no state and whatever fails. If
      both paths lead to the source, that rests on the device not being silent about its refusal. */
  lemma CopyKeepsSource(now: Snapshot, cache: CacheMap, wfxFrom: string, wfxTo: string, env: CopyEnv, file: Node)
    requires var from, to := ParseWfxPath(wfxFrom), ParseWfxPath(wfxTo);
      && from.serial == to.serial && NulFree(from.path) && NulFree(to.path)
      && Holds(now.phones, from.serial, Resolve(from.path), file)
      && (Resolve(to.path) != Resolve(from.path)
          || SilenceIsSuccess(CopyCommand(from.path, to.path), now.phones[from.serial], env.copy))
    requires Obedient(env.copy) && Obedient(env.time.epoch) && Obedient(env.time.date)
    ensures forall s :: s in DeviceCopyEffect(now, cache, wfxFrom, wfxTo, env).trail ==>
      s.disk == now.disk && Holds(s.phones, ParseWfxPath(wfxFrom).serial, Resolve(ParseWfxPath(wfxFrom).path), file)
  {
    hide Meaning, ParseWfxPath, Dropped, CopyCommand, AfterShell, Obedient, SetTimeEffect, Ran, IsSilent, Resolve,
         SilenceIsSuccess;
    var from, to := ParseWfxPath(wfxFrom), ParseWfxPath(wfxTo);
    var line := CopyCommand(from.path, to.path);
    MeaningOfCopy(from.path, to.path);
    CopySpares(now.phones[from.serial], from.path, to.path, env.copy.manner);
    ShellSpares(now.phones, from.serial, line, Cp(from.path, to.path), env.copy, Resolve(from.path), file);
    var copied := MutationEffect(now, cache, from.serial, line, wfxTo, env.copy);
    if Resolve(to.path) == Resolve(from.path) {
      CopyOntoItself(line, now.phones[from.serial], from.path, to.path, env.copy);
    } else if env.stat.There? {
      SetTimeSpares(copied.trail[0], copied.cache, wfxTo, env.stat.mtime, EpochThenFallback, env.time, Resolve(from.path), file);
    }
  }

  /** A copy that is carried out arrives under the place named, if that is not a directory. */
  lemma CopyPlaces(t: Tree, from: string, to: string, m: Manner, file: Node)
    requires HasFile(t, Resolve(from)) && t[Resolve(from)] == file && !HasDir(t, Resolve(to))
    requires Device.Run(Cp(from, to), t, m.mode, m.now).Some? && m.ran
    ensures var t' := Ran(Cp(from, to), t, m);
      && Resolve(to) in t' && t'[Resolve(to)] == File(file.data, m.mode, m.now)
      && forall q :: HasDir(t, q) ==> HasDir(t', q)
    ensures Walkable(t, to)
  {
    hide Resolve, Walkable;
  }

  lemma WalkableStays(t: Tree, t': Tree, p: string)
    requires Walkable(t, p) && forall q :: HasDir(t, q) ==> HasDir(t', q)
    ensures Walkable(t', p)
  {
    hide HasDir, Resolve;
  }

  lemma CopyArrives(phones: Phones, serial: string, from: string, to: string, r: ShellReply, file: Node)
    requires Holds(phones, serial, Resolve(from), file) && !HasDir(phones[serial], Resolve(to)) && NulFree(from) && NulFree(to)
    requires Obedient(r) && SilenceIsSuccess(CopyCommand(from, to), phones[serial], r) && IsSuccess(r)
    ensures var phones' := AfterShell(phones, serial, CopyCommand(from, to), r);
      && Holds(phones', serial, Resolve(to), File(file.data, r.manner.mode, r.manner.now))
      && Walkable(phones'[serial], to)
  {
    hide Meaning, AfterShell, IsSilent, CopyCommand, Resolve, Walkable, Device.Run, Ran;
    MeaningOfCopy(from, to);
    ShellRuns(phones, serial, CopyCommand(from, to), Cp(from, to), r);
    CopyPlaces(phones[serial], from, to, r.manner, file);
    WalkableStays(phones[serial], AfterShell(phones, serial, CopyCommand(from, to), r)[serial], to);
  }

  // Copying onto a directory puts the copy inside it and stamps the directory.

  predicate HoldsDir(phones: Phones, serial: string, q: string) {
    serial in phones && HasDir(phones[serial], q)
  }

  lemma RanLeavesDir(c: Command, t: Tree, m: Manner, q: string)
    requires HasDir(t, q) && ((c.Cp? && Resolve(c.to) == q) || c.Touch?)
    ensures HasDir(Ran(c, t, m), q)
  {
    hide Resolve, Walkable, BaseOf;
  }

  lemma ShellLeavesDir(phones: Phones, serial: string, commandLine: string, c: Command, r: ShellReply, q: string)
    requires HoldsDir(phones, serial, q) && Meaning(commandLine) == Some(c) && Obedient(r)
    requires (c.Cp? && Resolve(c.to) == q) || c.Touch?
    ensures HoldsDir(AfterShell(phones, serial, commandLine, r), serial, q)
  {
    hide Meaning, AfterShell, Ran, Resolve;
    ShellRuns(phones, serial, commandLine, c, r);
    RanLeavesDir(c, phones[serial], r.manner, q);
  }

  lemma SetTimeLeavesDir(now: Snapshot, cache: CacheMap, wfxRemote: string, mtime: int, strategy: TouchStrategy, env: TimeEnv,
                         q: string)
    requires var rp := ParseWfxPath(wfxRemote); NulFree(rp.path) && HoldsDir(now.phones, rp.serial, q)
    requires Obedient(env.epoch) && Obedient(env.date)
    ensures var e := SetTimeEffect(now, cache, wfxRemote, mtime, strategy, env);
      HoldsDir(Final(now, e.trail).phones, ParseWfxPath(wfxRemote).serial, q)
  {
    hide Meaning, ParseWfxPath, Dropped, TouchEpochCommand, TouchDateCommand, Calendar.FormatTouchTArg, AfterShell, Obedient,
         IsSilent, HoldsDir, Resolve;
    var rp := ParseWfxPath(wfxRemote);
    var date := Calendar.FormatTouchTArg(mtime);
    var line := TouchEpochCommand(mtime, rp.path);
    MeaningOfTouchEpoch(mtime, rp.path);
    ShellLeavesDir(now.phones, rp.serial, line, Touch(rp.path, mtime), env.epoch, q);
    if date.Some? {
      MeaningOfTouchDate(mtime, rp.path);
      var next := AfterShell(now.phones, rp.serial, line, env.epoch);
      ShellLeavesDir(now.phones, rp.serial, TouchDateCommand(date.value, rp.path), Touch(rp.path, mtime), env.date, q);
      ShellLeavesDir(next, rp.serial, TouchDateCommand(date.value, rp.path), Touch(rp.path, mtime), env.date, q);
    }
  }

  /** A copy that reports success is the file it should be - its source's content, the date its source was listed with,
      in the place its target's path leads to - if and only if there was no directory there. The path may be spelled in
      any way: "/d", "/d/" and "/x/../d" lead to the same place. */
  lemma CopyIsExact(now: Snapshot, cache: CacheMap, wfxFrom: string, wfxTo: string, env: CopyEnv, file: Node)
    requires var from, to := ParseWfxPath(wfxFrom), ParseWfxPath(wfxTo);
      && from.serial == to.serial && NulFree(from.path) && NulFree(to.path)
      && Holds(now.phones, from.serial, Resolve(from.path), file)
      && SilenceIsSuccess(CopyCommand(from.path, to.path), now.phones[from.serial], env.copy)
    requires Obedient(env.copy) && Obedient(env.time.epoch) && Obedient(env.time.date)
    requires Candid(env.time.epoch) && Candid(env.time.date)
    ensures var e := DeviceCopyEffect(now, cache, wfxFrom, wfxTo, env); var to := ParseWfxPath(wfxTo);
      var copy := File(file.data, env.copy.manner.mode, if env.stat.There? then env.stat.mtime else 0);
      e.result ==>
        && env.stat.There?
        && (Holds(Final(now, e.trail).phones, to.serial, Resolve(to.path), copy) <==>
            !HasDir(now.phones[to.serial], Resolve(to.path)))
  {
    hide Meaning, ParseWfxPath, Dropped, CopyCommand, AfterShell, Obedient, SetTimeEffect, IsSilent, Device.Run,
         SilenceIsSuccess, Resolve, Walkable;
    var from, to := ParseWfxPath(wfxFrom), ParseWfxPath(wfxTo);
    var e := DeviceCopyEffect(now, cache, wfxFrom, wfxTo, env);
    if e.result {
      var line := CopyCommand(from.path, to.path);
      var copied := MutationEffect(now, cache, from.serial, line, wfxTo, env.copy);
      var stamped := SetTimeEffect(copied.trail[0], copied.cache, wfxTo, env.stat.mtime, EpochThenFallback, env.time);
      if HasDir(now.phones[from.serial], Resolve(to.path)) {
        MeaningOfCopy(from.path, to.path);
        ShellLeavesDir(now.phones, from.serial, line, Cp(from.path, to.path), env.copy, Resolve(to.path));
        SetTimeLeavesDir(copied.trail[0], copied.cache, wfxTo, env.stat.mtime, EpochThenFallback, env.time, Resolve(to.path));
      } else {
        CopyArrives(now.phones, from.serial, from.path, to.path, env.copy, file);
        var copy := File(file.data, env.copy.manner.mode, env.copy.manner.now);
        SetTimeIsExact(copied.trail[0], copied.cache, wfxTo, env.stat.mtime, EpochThenFallback, env.time, copy);
      }
      FinalOfTwo(now, copied.trail, stamped.trail);
    }
  }

  // ----- moves -----

  lemma GraftHolds(t: Tree, from: string, target: string, q: string)
    requires q in t && Covers(from, q)
    ensures var q' := target + q[|from|..]; q' in MoveTree(t, from, target) && MoveTree(t, from, target)[q'] == t[q]
  {
    var q' := target + q[|from|..];
    assert q' in GraftKeys(t, from, target);
    assert q'[|target|..] == q[|from|..];
    assert from + q[|from|..] == q;
  }

  /** What lies at or under the source of a move is there, or lies in the same place at or under its target. */
  lemma MoveCarries(t: Tree, from: string, to: string, m: Manner, q: string)
    requires HasFile(t, q) && Covers(Resolve(from), q) && (HasFile(t, Resolve(from)) ==> q == Resolve(from))
    ensures var t', q' := Ran(Mv(from, to), t, m), Destination(t, Resolve(from), Resolve(to)) + q[|Resolve(from)|..];
      (q in t' && t'[q] == t[q]) || (q' in t' && t'[q'] == t[q])
  {
    hide Destination, Resolve, Walkable, EndsInDots, MoveTree;
    GraftHolds(t, Resolve(from), Destination(t, Resolve(from), Resolve(to)), q);
  }

  /** A move on the device, in every state, whatever fails and however the paths are spelled: each file at or under the
      source is still there, or is in the same place at or under the target. */
  lemma MoveLosesNothing(now: Snapshot, cache: CacheMap, wfxFrom: string, wfxTo: string, r: ShellReply, q: string, file: Node)
    requires var from, to := ParseWfxPath(wfxFrom), ParseWfxPath(wfxTo); var source := Resolve(from.path);
      && from.serial == to.serial && NulFree(from.path) && NulFree(to.path) && Holds(now.phones, from.serial, q, file)
      && Covers(source, q) && (HasFile(now.phones[from.serial], source) ==> q == source)
    requires Obedient(r)
    ensures var from, to := ParseWfxPath(wfxFrom), ParseWfxPath(wfxTo); var source := Resolve(from.path);
      var q' := Destination(now.phones[from.serial], source, Resolve(to.path)) + q[|source|..];
      forall s :: s in DeviceMoveEffect(now, cache, wfxFrom, wfxTo, r).trail ==>
        s.disk == now.disk && (Holds(s.phones, from.serial, q, file) || Holds(s.phones, from.serial, q', file))
  {
    hide Meaning, ParseWfxPath, Dropped, MoveCommand, AfterShell, Obedient, Ran, IsSilent, Destination, Resolve;
    var from, to := ParseWfxPath(wfxFrom), ParseWfxPath(wfxTo);
    MeaningOfMove(from.path, to.path);
    MoveCarries(now.phones[from.serial], from.path, to.path, r.manner, q);
    ShellRuns(now.phones, from.serial, MoveCommand(from.path, to.path), Mv(from.path, to.path), r);
  }

  /** The one entry point for renames, moves and copies: in every state the file is in its old place or - for a move -
      in its new one, and a copy never takes it from its old one. */
  lemma RenameOrMoveLosesNothing(now: Snapshot, cache: CacheMap, wfxFrom: string, wfxTo: string, move: bool, overwrite: bool,
                                 env: MoveEnv, file: Node)
    requires var from, to := ParseWfxPath(wfxFrom), ParseWfxPath(wfxTo);
      && NulFree(from.path) && NulFree(to.path) && Holds(now.phones, from.serial, Resolve(from.path), file)
      && (move || Resolve(to.path) != Resolve(from.path)
          || SilenceIsSuccess(CopyCommand(from.path, to.path), now.phones[from.serial], env.copy.copy))
    requires Obedient(env.move) && Obedient(env.copy.copy) && Obedient(env.copy.time.epoch) && Obedient(env.copy.time.date)
    ensures var from, to := ParseWfxPath(wfxFrom), ParseWfxPath(wfxTo); var source := Resolve(from.path);
      var e := RenameOrMoveEffect(now, cache, wfxFrom, wfxTo, move, overwrite, env);
      var moved := Destination(now.phones[from.serial], source, Resolve(to.path));
      && (forall s :: s in e.trail ==>
            || Holds(s.phones, from.serial, source, file)
            || (move && Holds(s.phones, from.serial, moved, file)))
      && (from.serial != to.serial || (!overwrite && !env.target.NotThere?) ==> e.trail == [] && e.cache == cache && !e.result.ok)
      && (e.result.crossDevice <==> from.serial != to.serial)
      && (e.result.targetExists <==> from.serial == to.serial && !overwrite && env.target.There?)
  {
    hide ParseWfxPath, Obedient, DeviceMoveEffect, DeviceCopyEffect, Destination, Resolve, SilenceIsSuccess;
    var from, to := ParseWfxPath(wfxFrom), ParseWfxPath(wfxTo);
    var source := Resolve(from.path);
    if from.serial == to.serial {
      if move {
        MoveLosesNothing(now, cache, wfxFrom, wfxTo, env.move, source, file);
        var moved := Destination(now.phones[from.serial], source, Resolve(to.path));
        assert moved + source[|source|..] == moved;
      } else {
        CopyKeepsSource(now, cache, wfxFrom, wfxTo, env.copy, file);
      }
    }
  }
}
